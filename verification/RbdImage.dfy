/** An rbd image and a file descriptor, as the rbd tool sees them. */
module RbdImage {
  import opened Bytes

  /** A snapshot name, as the bytes it has on the wire. */
  type Name = seq<byte>

  /** resize: cut off, or extend with zeros. */
  function Resized(data: seq<byte>, size: nat): (r: seq<byte>)
    ensures |r| == size
    ensures forall i | 0 <= i < size :: r[i] == if i < |data| then data[i] else 0
  {
    if size <= |data| then data[..size] else data + Zeros(size - |data|)
  }

  /** The part of a request that clip_io leaves: nothing when it starts past the
      end, and no more than there is. */
  function Clipped(size: nat, off: nat, len: nat): (n: nat)
    ensures n <= len && (n > 0 ==> off + n <= size)
    ensures off + len <= size ==> n == len
  {
    if off >= size then 0 else if off + len > size then size - off else len
  }

  function Written(data: seq<byte>, off: nat, bytes: seq<byte>): (r: seq<byte>)
    ensures |r| == |data|
    ensures forall i | 0 <= i < |data| :: r[i] == if off <= i < off + |bytes| then bytes[i - off] else data[i]
  {
    var n := Clipped(|data|, off, |bytes|);
    if n == 0 then data else data[..off] + bytes[..n] + data[off + n..]
  }

  function ReadBack(data: seq<byte>, off: nat, len: nat): seq<byte> {
    var n := Clipped(|data|, off, len);
    if n == 0 then [] else data[off..off + n]
  }

  /** Where a write call went, and how many bytes it carried. */
  datatype Access = Access(off: nat, len: nat)

  class Image {
    var data: seq<byte>
    var snaps: map<Name, seq<byte>>
    ghost var log: seq<Access>      // the write calls so far

    constructor (data: seq<byte>, snaps: map<Name, seq<byte>>)
      ensures this.data == data && this.snaps == snaps && log == []
    {
      this.data, this.snaps, log := data, snaps, [];
    }

    method Resize(size: nat)
      modifies `data
      ensures data == Resized(old(data), size)
    {
      data := Resized(data, size);
    }

    method Write(off: nat, bytes: seq<byte>)
      modifies `data, `log
      ensures data == Written(old(data), off, bytes)
      ensures log == old(log) + [Access(off, |bytes|)]
    {
      data := Written(data, off, bytes);
      log := log + [Access(off, |bytes|)];
    }

    /** The discarded part of the request is what the image holds of it. */
    method Discard(off: nat, len: nat)
      modifies `data
      ensures data == Written(old(data), off, Zeros(len))
    {
      data := Written(data, off, Zeros(len));
    }
  }

  class File {
    const content: seq<byte>
    var pos: nat

    ghost predicate Valid()
      reads this
    {
      pos <= |content|
    }

    ghost function Rest(): seq<byte>
      reads this
      requires Valid()
    {
      content[pos..]
    }

    constructor (content: seq<byte>)
      ensures Valid() && Rest() == content && this.content == content
    {
      this.content, pos := content, 0;
    }

    /** read(2): any number of bytes up to the request, none only at the end. */
    method Read(count: nat) returns (chunk: seq<byte>)
      requires Valid()
      modifies this
      ensures Valid() && old(Rest()) == chunk + Rest() && |chunk| <= count
      ensures pos == old(pos) + |chunk|
      ensures |chunk| == 0 <==> count == 0 || old(Rest()) == []
    {
      if count == 0 || pos == |content| {
        return [];
      }
      var n :| 1 <= n <= count && n <= |content| - pos;
      chunk := content[pos..pos + n];
      pos := pos + n;
    }

    /** safe_read_exact: all of the request, or -EDOM with the file used up. */
    method SafeReadExact(count: nat) returns (ok: bool, buf: seq<byte>)
      requires Valid()
      modifies this
      ensures Valid() && ok == (count <= |old(Rest())|)
      ensures ok ==> buf == old(Rest())[..count] && Rest() == old(Rest())[count..]
      ensures !ok ==> Rest() == []
    {
      hide Valid, Rest;
      buf := [];
      while |buf| < count
        invariant Valid() && old(Rest()) == buf + Rest() && |buf| <= count
        decreases count - |buf|
      {
        var chunk := Read(count - |buf|);
        if chunk == [] {
          return false, buf;
        }
        buf := buf + chunk;
      }
      ok := true;
    }
  }
}
