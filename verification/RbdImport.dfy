/** rbd import: do_import of rbd.cc, which fills blocks from short reads, skips
    the blocks that are all zero, and grows the image as standard input goes on. */
module RbdImport {
  import opened Basics
  import opened Bytes
  import opened RbdImage
  import opened Bits

  /** The object order that is used: 0 asks for the default. */
  function OrderUsed(order: nat): nat {
    if order == 0 then 22 else order
  }

  predicate IsZero(bytes: seq<byte>) {
    forall i | 0 <= i < |bytes| :: bytes[i] == 0
  }

  /** One image.write call: block number, offset, length. */
  datatype BlockWrite = BlockWrite(block: nat, off: nat, len: nat)

  /** The calls that these writes are. */
  function Accesses(writes: seq<BlockWrite>): (r: seq<Access>)
    ensures |r| == |writes| && forall k | 0 <= k < |r| :: r[k] == Access(writes[k].off, writes[k].len)
  {
    seq(|writes|, k requires 0 <= k < |writes| => Access(writes[k].off, writes[k].len))
  }

  /** Writes start on block boundaries, stay inside a block and inside the input,
      and never carry a block that is all zero. */
  ghost predicate Sparse(writes: seq<BlockWrite>, input: seq<byte>, imgblklen: nat) {
    forall k | 0 <= k < |writes| ::
      && StartsBlock(writes[k].block, imgblklen, writes[k].off)
      && 0 < writes[k].len <= imgblklen
      && writes[k].off + writes[k].len <= |input|
      && !IsZero(input[writes[k].off..writes[k].off + writes[k].len])
  }

  /** read(2) into the buffer. */
  method ReadInto(fd: File, p: array<byte>, at: nat, count: nat) returns (n: nat)
    requires fd.Valid() && at + count <= p.Length
    modifies fd, p
    ensures fd.Valid() && n <= count
    ensures n == 0 <==> count == 0 || old(fd.Rest()) == []
    ensures at + n <= p.Length && old(fd.Rest()) == p[at..at + n] + fd.Rest()
    ensures p[..at] == old(p[..at])
  {
    var chunk := fd.Read(count);
    n := |chunk|;
    forall i | 0 <= i < n {
      p[at + i] := chunk[i];
    }
    assert p[at..at + n] == chunk;
  }

  /** What is left to do: the part behind image_pos was taken care of, the buffer
      holds the next bytes, and the file the rest. */
  ghost predicate Underway(input: seq<byte>, data: seq<byte>, size: nat, imagePos: nat, buffered: seq<byte>,
                           rest: seq<byte>) {
    && imagePos <= |input| && input[imagePos..] == buffered + rest
    && data == Resized(input[..imagePos], size)
  }

  /** Writing the buffer, or skipping it when it is all zero, moves image_pos on;
      an image that is too small keeps what fits. */
  lemma FlushBlock(input: seq<byte>, data: seq<byte>, size: nat, imagePos: nat, bl: seq<byte>, rest: seq<byte>)
    requires Underway(input, data, size, imagePos, bl, rest)
    ensures Underway(input, Written(data, imagePos, bl), size, imagePos + |bl|, [], rest)
    ensures IsZero(bl) ==> Written(data, imagePos, bl) == data
    ensures bl == input[imagePos..imagePos + |bl|]
  {
    var now := input[..imagePos + |bl|];
    assert input[imagePos..][|bl|..] == rest;
    assert input[imagePos + |bl|..] == rest;
    forall i | imagePos <= i < imagePos + |bl| ensures now[i] == bl[i - imagePos] {
      assert input[imagePos..][i - imagePos] == bl[i - imagePos];
    }
    assert Written(data, imagePos, bl) == Resized(now, size);
    assert bl == input[imagePos..imagePos + |bl|];
  }

  lemma GrowImage(input: seq<byte>, data: seq<byte>, size: nat, bigger: nat, imagePos: nat, bl: seq<byte>,
                  rest: seq<byte>)
    requires Underway(input, data, size, imagePos, bl, rest) && imagePos <= size <= bigger
    ensures Underway(input, Resized(data, bigger), bigger, imagePos, bl, rest)
  {
    assert Resized(data, bigger) == Resized(input[..imagePos], bigger);
  }

  /** The block that starts at an offset. */
  ghost predicate StartsBlock(block: nat, imgblklen: nat, off: nat) {
    off == block * imgblklen
  }

  lemma SparseNext(writes: seq<BlockWrite>, input: seq<byte>, imgblklen: nat, w: BlockWrite)
    requires Sparse(writes, input, imgblklen)
    requires StartsBlock(w.block, imgblklen, w.off) && w.len <= imgblklen && w.off + w.len <= |input|
    requires !IsZero(input[w.off..w.off + w.len])
    ensures Sparse(writes + [w], input, imgblklen)
  {
  }

  /** A block that starts beyond the image: what is there is all that fits. */
  lemma CutOff(input: seq<byte>, data: seq<byte>, size: nat, imagePos: nat, bl: seq<byte>, rest: seq<byte>)
    requires Underway(input, data, size, imagePos, bl, rest) && bl != [] && imagePos >= size
    ensures |data| == size && imagePos < |input| && data == Resized(input, size)
  {
    assert |input[imagePos..]| > 0;
  }

  /** Between two reads: what was done, and that the current block has room. */
  ghost predicate Filling(input: seq<byte>, data: seq<byte>, size: nat, imagePos: nat, buffered: seq<byte>,
                          rest: seq<byte>,
                          fromStdin: bool, imgblklen: nat, writes: seq<BlockWrite>, block: nat) {
    && Underway(input, data, size, imagePos, buffered, rest)
    && StartsBlock(block, imgblklen, imagePos)
    && (fromStdin ==> imagePos <= size && imgblklen <= size)
    && Sparse(writes, input, imgblklen)
  }

  /** The growing of the image, for standard input: one doubling is enough. */
  method MakeRoom(image: Image, imagePos: nat, size0: nat, blklen: nat, fromStdin: bool,
                  ghost input: seq<byte>, ghost bl: seq<byte>, ghost rest: seq<byte>)
    returns (size: nat)
    requires Underway(input, image.data, size0, imagePos, bl, rest) && |bl| == blklen
    requires |input| <= 0x8000_0000_0000_0000
    requires fromStdin ==> imagePos <= size0 && blklen <= size0
    modifies image`data
    ensures Underway(input, image.data, size, imagePos, bl, rest)
    ensures size >= size0 && (if fromStdin then imagePos + blklen <= size else size == size0)
  {
    size := size0;
    if fromStdin && imagePos + blklen > size {
      GrowImage(input, image.data, size, 2 * size, imagePos, bl, rest);
      BlockInside(input, image.data, size, imagePos, bl, rest);
      size := size * 2 % U64;
      image.Resize(size);
    }
  }

  lemma BlockInside(input: seq<byte>, data: seq<byte>, size: nat, imagePos: nat, bl: seq<byte>, rest: seq<byte>)
    requires Underway(input, data, size, imagePos, bl, rest)
    ensures imagePos + |bl| <= |input|
  {
    assert |input[imagePos..]| == |bl| + |rest|;
  }

  lemma AccessesSnoc(writes: seq<BlockWrite>, w: BlockWrite)
    ensures Accesses(writes + [w]) == Accesses(writes) + [Access(w.off, w.len)]
  {
  }

  /** The writing of a block, unless it is all zero; false when it is beyond the
      image, which librbd refuses. */
  method WriteBlock(image: Image, bl: seq<byte>, imagePos: nat, size: nat, ghost imgblklen: nat,
                    ghost input: seq<byte>, ghost rest: seq<byte>, ghost writes0: seq<BlockWrite>, ghost block: nat)
    returns (ok: bool, ghost writes: seq<BlockWrite>)
    requires StartsBlock(block, imgblklen, imagePos) && Sparse(writes0, input, imgblklen)
    requires Underway(input, image.data, size, imagePos, bl, rest) && |bl| <= imgblklen
    requires image.log == Accesses(writes0)
    modifies image`data, image`log
    ensures image.log == Accesses(writes)
    ensures ok <==> IsZero(bl) || imagePos < size
    ensures ok ==> Underway(input, image.data, size, imagePos + |bl|, [], rest)
    ensures !ok ==> |image.data| == size <= imagePos < |input| && image.data == Resized(input, size)
    ensures Sparse(writes, input, imgblklen)
  {
    ok, writes := true, writes0;
    FlushBlock(input, image.data, size, imagePos, bl, rest);
    BlockInside(input, image.data, size, imagePos, bl, rest);
    if !IsZero(bl) {
      if imagePos >= size {
        CutOff(input, image.data, size, imagePos, bl, rest);
        return false, writes;
      }
      image.Write(imagePos, bl);
      SparseNext(writes, input, imgblklen, BlockWrite(block, imagePos, |bl|));
      AccessesSnoc(writes, BlockWrite(block, imagePos, |bl|));
      writes := writes + [BlockWrite(block, imagePos, |bl|)];
    }
  }

  /** The second half of the loop body: grow the image if need be, then write
      the block unless it is all zero. */
  method Flush(image: Image, bl: seq<byte>, imagePos: nat, size0: nat, fromStdin: bool, imgblklen: nat,
               ghost input: seq<byte>, ghost rest: seq<byte>, ghost writes0: seq<BlockWrite>, ghost block: nat)
    returns (ok: bool, size: nat, ghost writes: seq<BlockWrite>)
    requires Filling(input, image.data, size0, imagePos, bl, rest, fromStdin, imgblklen, writes0, block)
    requires |bl| <= imgblklen && |input| <= 0x8000_0000_0000_0000
    requires image.log == Accesses(writes0)
    modifies image`data, image`log
    ensures image.log == Accesses(writes)
    ensures !fromStdin ==> size == size0 && (ok <==> IsZero(bl) || imagePos < size)
    ensures fromStdin ==> ok && imagePos + |bl| <= size
    ensures ok ==> Underway(input, image.data, size, imagePos + |bl|, [], rest)
    ensures ok && |bl| == imgblklen ==>
              Filling(input, image.data, size, imagePos + |bl|, [], rest, fromStdin, imgblklen, writes, block + 1)
    ensures !ok ==> |image.data| == size <= imagePos < |input| && image.data == Resized(input, size)
    ensures Sparse(writes, input, imgblklen)
  {
    size := MakeRoom(image, imagePos, size0, |bl|, fromStdin, input, bl, rest);
    ok, writes := WriteBlock(image, bl, imagePos, size, imgblklen, input, rest, writes0, block);
    NextBlock(block, imgblklen, imagePos);
  }

  // ----- which blocks do not fit -----

  /** The block at this offset starts beyond the image, and is not skipped. */
  ghost predicate Beyond(input: seq<byte>, imgblklen: nat, size: nat, off: nat) {
    size <= off < |input| && !IsZero(input[off..Min(off + imgblklen, |input|)])
  }

  /** Some block does not fit an image of this size. */
  ghost predicate Overflows(input: seq<byte>, imgblklen: nat, size: nat) {
    exists block: nat, off: nat :: StartsBlock(block, imgblklen, off) && Beyond(input, imgblklen, size, off)
  }

  /** All blocks in front of `upto` fit. */
  ghost predicate Checked(input: seq<byte>, imgblklen: nat, size: nat, upto: nat) {
    forall block: nat, off: nat | StartsBlock(block, imgblklen, off) && off < upto ::
      !Beyond(input, imgblklen, size, off)
  }

  lemma LaterBlock(block: nat, other: nat, imgblklen: nat)
    requires block < other
    ensures block * imgblklen + imgblklen <= other * imgblklen
  {
    assert (block + 1) * imgblklen <= other * imgblklen;
  }

  lemma SameBlock(block: nat, other: nat, imgblklen: nat, off: nat, at: nat)
    requires StartsBlock(block, imgblklen, off) && StartsBlock(other, imgblklen, at)
    requires off <= at < off + imgblklen
    ensures at == off
  {
    if block < other {
      LaterBlock(block, other, imgblklen);
    } else if other < block {
      LaterBlock(other, block, imgblklen);
    }
  }

  /** A block is flushed when it is full or the input is at its end. */
  ghost predicate Complete(input: seq<byte>, imgblklen: nat, imagePos: nat, bl: seq<byte>) {
    && imagePos + |bl| <= |input| && bl == input[imagePos..imagePos + |bl|]
    && |bl| <= imgblklen && (|bl| == imgblklen || imagePos + |bl| == |input|)
  }

  lemma FlushedComplete(input: seq<byte>, data: seq<byte>, size: nat, imgblklen: nat, imagePos: nat, bl: seq<byte>,
                        rest: seq<byte>)
    requires Underway(input, data, size, imagePos, bl, rest) && |bl| <= imgblklen
    requires |bl| == imgblklen || rest == []
    ensures Complete(input, imgblklen, imagePos, bl)
  {
    FlushBlock(input, data, size, imagePos, bl, rest);
    BlockInside(input, data, size, imagePos, bl, rest);
    assert |input[imagePos..]| == |bl| + |rest|;
  }

  lemma CheckedNext(input: seq<byte>, imgblklen: nat, size: nat, block: nat, imagePos: nat, bl: seq<byte>)
    requires Checked(input, imgblklen, size, imagePos) && StartsBlock(block, imgblklen, imagePos)
    requires Complete(input, imgblklen, imagePos, bl)
    ensures IsZero(bl) || imagePos < size ==> Checked(input, imgblklen, size, imagePos + |bl|)
    ensures !(IsZero(bl) || imagePos < size) ==> Overflows(input, imgblklen, size)
  {
    hide StartsBlock;
    assert bl == input[imagePos..Min(imagePos + imgblklen, |input|)];
    if IsZero(bl) || imagePos < size {
      forall other: nat, off: nat | StartsBlock(other, imgblklen, off) && off < imagePos + |bl|
        ensures !Beyond(input, imgblklen, size, off)
      {
        if off >= imagePos {
          SameBlock(block, other, imgblklen, imagePos, off);
        }
      }
    } else {
      assert bl != [];
      assert Beyond(input, imgblklen, size, imagePos);
    }
  }

  lemma CheckedAll(input: seq<byte>, imgblklen: nat, size: nat)
    requires Checked(input, imgblklen, size, |input|)
    ensures !Overflows(input, imgblklen, size)
  {
  }

  lemma BufferMore(input: seq<byte>, data: seq<byte>, size: nat, imagePos: nat, buffered: seq<byte>,
                   chunk: seq<byte>, rest: seq<byte>)
    requires Underway(input, data, size, imagePos, buffered, chunk + rest)
    ensures Underway(input, data, size, imagePos, buffered + chunk, rest)
  {
    assert buffered + (chunk + rest) == buffered + chunk + rest;
  }

  lemma NextBlock(block: nat, imgblklen: nat, off: nat)
    requires StartsBlock(block, imgblklen, off)
    ensures StartsBlock(block + 1, imgblklen, off + imgblklen)
  {
  }

  /** The read call of the loop: it adds to the buffer. */
  method FillMore(fd: File, p: array<byte>, at: nat, count: nat,
                  ghost input: seq<byte>, ghost data: seq<byte>, ghost size: nat, ghost imagePos: nat,
                  ghost buffered: seq<byte>, ghost fromStdin: bool, ghost imgblklen: nat,
                  ghost writes: seq<BlockWrite>, ghost block: nat)
    returns (n: nat, ghost filled: seq<byte>)
    requires fd.Valid() && at + count <= p.Length && p[..at] == buffered
    requires Filling(input, data, size, imagePos, buffered, fd.Rest(), fromStdin, imgblklen, writes, block)
    modifies fd, p
    ensures fd.Valid() && n <= count && at + n <= p.Length
    ensures n == 0 <==> count == 0 || old(fd.Rest()) == []
    ensures |fd.Rest()| == |old(fd.Rest())| - n
    ensures p[..at + n] == filled
    ensures Filling(input, data, size, imagePos, filled, fd.Rest(), fromStdin, imgblklen, writes, block)
  {
    n := ReadInto(fd, p, at, count);
    assert p[..at + n] == buffered + p[at..at + n];
    filled := p[..at + n];
    BufferMore(input, data, size, imagePos, buffered, p[at..at + n], fd.Rest());
  }

  lemma NothingChecked(input: seq<byte>, imgblklen: nat, size: nat)
    ensures Checked(input, imgblklen, size, 0)
  {
  }

  /** What the flush of a complete block means for the blocks that fit. */
  lemma BlockChecked(input: seq<byte>, data: seq<byte>, size: nat, imagePos: nat, bl: seq<byte>, rest: seq<byte>,
                     fromStdin: bool, imgblklen: nat, writes: seq<BlockWrite>, block: nat, size0: nat)
    requires Filling(input, data, size, imagePos, bl, rest, fromStdin, imgblklen, writes, block)
    requires |bl| <= imgblklen && (|bl| == imgblklen || rest == [])
    ensures Checked(input, imgblklen, size0, imagePos) ==>
              && (IsZero(bl) || imagePos < size0 ==> Checked(input, imgblklen, size0, imagePos + |bl|))
              && (!(IsZero(bl) || imagePos < size0) ==> Overflows(input, imgblklen, size0))
  {
    hide Underway, Sparse, StartsBlock, IsZero, Checked, Overflows, Complete;
    FlushedComplete(input, data, size, imgblklen, imagePos, bl, rest);
    if Checked(input, imgblklen, size0, imagePos) {
      CheckedNext(input, imgblklen, size0, block, imagePos, bl);
    }
  }

  /** The read loop of do_import. */
  method ImportBlocks(fd: File, image: Image, imgblklen: nat, fromStdin: bool, size0: nat, ghost input: seq<byte>)
    returns (ok: bool, imagePos: nat, ghost writes: seq<BlockWrite>)
    requires fd.Valid() && fd.Rest() == input && imgblklen > 0
    requires |input| <= 0x8000_0000_0000_0000
    requires image.data == Zeros(size0) && image.log == [] && (fromStdin ==> size0 == imgblklen)
    modifies fd, image`data, image`log
    ensures image.log == Accesses(writes)
    ensures fromStdin ==> ok && imagePos <= |image.data|
    ensures ok ==> imagePos == |input| && image.data == Resized(input, |image.data|)
    ensures !ok ==> imagePos >= |image.data| && imagePos < |input| && image.data == Resized(input, |image.data|)
    ensures !fromStdin ==> |image.data| == size0 && (ok <==> !Overflows(input, imgblklen, size0))
    ensures Sparse(writes, input, imgblklen)
  {
    hide Filling, Underway, Sparse, StartsBlock, IsZero, Checked, Overflows;
    var p := new byte[imgblklen](i => 0);
    var reqlen := imgblklen;
    var blklen: nat := 0;
    var size := size0;
    ghost var block: nat := 0;
    ghost var buffered: seq<byte> := [];
    imagePos, writes := 0, [];
    Starts(input, image.data, size, fromStdin, imgblklen);
    NothingChecked(input, imgblklen, size0);
    while true
      invariant fd.Valid() && fresh(p)
      invariant blklen + reqlen == imgblklen == p.Length && reqlen > 0
      invariant p[..blklen] == buffered && |buffered| == blklen
      invariant Filling(input, image.data, size, imagePos, buffered, fd.Rest(), fromStdin, imgblklen, writes, block)
      invariant image.log == Accesses(writes)
      invariant !fromStdin ==> size == size0 && Checked(input, imgblklen, size0, imagePos)
      decreases |fd.Rest()|
    {
      var readlen;
      readlen, buffered := FillMore(fd, p, blklen, reqlen, input, image.data, size, imagePos, buffered,
                                    fromStdin, imgblklen, writes, block);
      blklen := blklen + readlen;
      if readlen != 0 && readlen < reqlen {
        reqlen := reqlen - readlen;
        continue;
      }
      BlockChecked(input, image.data, size, imagePos, p[..blklen], fd.Rest(), fromStdin, imgblklen, writes, block,
                   size0);
      ok, size, writes :=
        Flush(image, p[..blklen], imagePos, size, fromStdin, imgblklen, input, fd.Rest(), writes, block);
      if !ok {
        return;
      }
      imagePos := imagePos + blklen;
      if readlen == 0 {
        break;
      }
      block, buffered := block + 1, [];
      blklen := 0;
      reqlen := imgblklen;
    }
    Finished(input, image.data, size, imagePos, fd.Rest());
    if !fromStdin {
      CheckedAll(input, imgblklen, size0);
    }
    ok := true;
  }

  lemma Starts(input: seq<byte>, data: seq<byte>, size: nat, fromStdin: bool, imgblklen: nat)
    requires data == Zeros(size) && (fromStdin ==> size == imgblklen)
    ensures Filling(input, data, size, 0, [], input, fromStdin, imgblklen, [], 0)
  {
  }

  lemma Finished(input: seq<byte>, data: seq<byte>, size: nat, imagePos: nat, rest: seq<byte>)
    requires Underway(input, data, size, imagePos, [], rest) && rest == []
    ensures imagePos == |input| && |data| == size && data == Resized(input, size)
  {
    assert input[..imagePos] == input;
  }

  /** do_import.  `stated` is what fstat or the size option gives for a file.
      From standard input the image ends up equal to the input, however the reads
      split it; from a file it is the input cut or padded to the stated size, and
      the import fails if and only if a block that is not all zero starts beyond
      that size. */
  method DoImport(fd: File, image: Image, order: nat, fromStdin: bool, stated: nat)
    returns (ok: bool, ghost writes: seq<BlockWrite>)
    requires fd.Valid() && OrderUsed(order) <= 30
    requires |fd.Rest()| <= 0x8000_0000_0000_0000
    modifies fd, image
    ensures fromStdin ==> ok && image.data == old(fd.Rest())
    ensures !fromStdin ==> image.data == Resized(old(fd.Rest()), stated)
    ensures ok <==> fromStdin || !Overflows(old(fd.Rest()), Pow2(OrderUsed(order)), stated)
    ensures image.log == Accesses(writes) && Sparse(writes, old(fd.Rest()), Pow2(OrderUsed(order)))
  {
    var imgblklen := Pow2(OrderUsed(order));
    var size := if fromStdin then imgblklen else stated;
    image.data, image.log := Zeros(size), [];
    ghost var input := fd.Rest();
    var imagePos;
    ok, imagePos, writes := ImportBlocks(fd, image, imgblklen, fromStdin, size, input);
    if ok && fromStdin {
      image.Resize(imagePos);
    }
  }
}
