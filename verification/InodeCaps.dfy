/** The capability queries of client/Inode.cc, and the order in which they leave
    the capabilities of each session. */
module InodeCaps {
  import opened Basics
  import opened Bits
  import opened Lru
  import Ordered

  class Session {
    var caps: seq<Cap>

    constructor ()
      ensures caps == []
    {
      caps := [];
    }
  }

  class Cap {
    const session: Session
    var issued: nat
    var implemented: nat

    constructor (session: Session, issued: nat, implemented: nat)
      ensures this.session == session && this.issued == issued && this.implemented == implemented
    {
      this.session, this.issued, this.implemented := session, issued, implemented;
    }
  }

  /** These masks on top of others. */
  function Union(base: nat, masks: seq<nat>): nat {
    if masks == [] then base else Or(Union(base, masks[..|masks| - 1]), masks[|masks| - 1])
  }

  lemma {:induction false} UnionBit(base: nat, masks: seq<nat>, n: nat)
    ensures HasBit(Union(base, masks), n) <==> HasBit(base, n) || exists i :: 0 <= i < |masks| && HasBit(masks[i], n)
  {
    if masks != [] {
      var k := |masks| - 1;
      UnionBit(base, masks[..k], n);
      OrBit(Union(base, masks[..k]), masks[k], n);
      if HasBit(Union(base, masks), n) && !HasBit(base, n) && !HasBit(masks[k], n) {
        var i :| 0 <= i < k && HasBit(masks[..k][i], n);
        assert HasBit(masks[i], n);
      }
      if i :| 0 <= i < |masks| && HasBit(masks[i], n) && i < k {
        assert HasBit(masks[..k][i], n);
      }
    }
  }

  /** A union covers what its base or one of its parts covers. */
  lemma UnionCovers(base: nat, masks: seq<nat>, m: nat)
    ensures Covers(base, m) ==> Covers(Union(base, masks), m)
    ensures forall i | 0 <= i < |masks| :: Covers(masks[i], m) ==> Covers(Union(base, masks), m)
  {
    var u := Union(base, masks);
    forall n: nat
      ensures HasBit(base, n) ==> HasBit(u, n)
      ensures forall i | 0 <= i < |masks| :: HasBit(masks[i], n) ==> HasBit(u, n)
    {
      UnionBit(base, masks, n);
    }
    CoversBits(base, m);
    CoversBits(u, m);
    forall i | 0 <= i < |masks| ensures Covers(masks[i], m) ==> Covers(u, m) {
      CoversBits(masks[i], m);
    }
  }

  predicate IntLess(a: int, b: int) {
    a < b
  }

  // ----- several capabilities -----

  function Issued(cs: seq<Cap>): seq<nat>
    reads cs
  {
    if cs == [] then [] else Issued(cs[..|cs| - 1]) + [cs[|cs| - 1].issued]
  }

  function Implemented(cs: seq<Cap>): seq<nat>
    reads cs
  {
    if cs == [] then [] else Implemented(cs[..|cs| - 1]) + [cs[|cs| - 1].implemented]
  }

  lemma {:induction false} IssuedAt(cs: seq<Cap>)
    ensures |Issued(cs)| == |cs| && forall i | 0 <= i < |cs| :: Issued(cs)[i] == cs[i].issued
    ensures |Implemented(cs)| == |cs| && forall i | 0 <= i < |cs| :: Implemented(cs)[i] == cs[i].implemented
  {
    if cs != [] {
      IssuedAt(cs[..|cs| - 1]);
    }
  }

  /** One more capability adds its masks. */
  lemma NextMasks(cs: seq<Cap>, i: nat, base: nat)
    requires i < |cs|
    ensures Union(base, Issued(cs[..i + 1])) == Or(Union(base, Issued(cs[..i])), cs[i].issued)
    ensures Union(base, Implemented(cs[..i + 1])) == Or(Union(base, Implemented(cs[..i])), cs[i].implemented)
  {
    assert cs[..i + 1][..i] == cs[..i];
    var a, b := Issued(cs[..i]), Implemented(cs[..i]);
    assert (a + [cs[i].issued])[..|a|] == a;
    assert (b + [cs[i].implemented])[..|b|] == b;
  }

  lemma OneCovers(cs: seq<Cap>, base: nat, m: nat, c: Cap)
    requires c in cs && Covers(c.issued, m)
    ensures Covers(Union(base, Issued(cs)), m)
  {
    IssuedAt(cs);
    UnionCovers(base, Issued(cs), m);
    var i :| 0 <= i < |cs| && cs[i] == c;
    assert Issued(cs)[i] == c.issued;
  }

  /** The touched capabilities of one session. */
  ghost function Of(t: seq<Cap>, s: Session): seq<Cap> {
    if t == [] then []
    else Of(t[..|t| - 1], s) + if t[|t| - 1].session == s then [t[|t| - 1]] else []
  }

  lemma OfSnoc(t: seq<Cap>, c: Cap, s: Session)
    ensures Of(t + [c], s) == Of(t, s) + if c.session == s then [c] else []
  {
    assert (t + [c])[..|t|] == t;
  }

  lemma {:induction false} OfDistinct(t: seq<Cap>, s: Session)
    requires Distinct(t)
    ensures Distinct(Of(t, s)) && forall c | c in Of(t, s) :: c in t && c.session == s
    ensures forall c | c in t && c.session == s :: c in Of(t, s)
  {
    if t != [] {
      var k := |t| - 1;
      OfDistinct(t[..k], s);
    }
  }

  /** The list of a session after these touches, in this order. */
  ghost predicate IsTouched(now: seq<Cap>, before: seq<Cap>, t: seq<Cap>, s: Session) {
    now == Touched(before, Of(t, s))
  }

  lemma IsTouchedSnoc(now: seq<Cap>, before: seq<Cap>, t: seq<Cap>, c: Cap, s: Session)
    requires IsTouched(now, before, t, s)
    ensures IsTouched(if c.session == s then MovedBack(now, c) else now, before, t + [c], s)
  {
    OfSnoc(t, c, s);
    TouchedSnoc(before, Of(t, s), c);
    assert Of(t, s) + [] == Of(t, s);
  }

  /** The list is permuted: the touched capabilities move to the back, in the order
      in which they are touched, and the others keep theirs. */
  lemma IsTouchedExact(now: seq<Cap>, before: seq<Cap>, t: seq<Cap>, s: Session)
    requires IsTouched(now, before, t, s) && Distinct(t) && Distinct(before)
    requires forall c | c in t && c.session == s :: c in before
    ensures now == Untouched(before, Of(t, s)) + Of(t, s)
    ensures multiset(now) == multiset(before) && Distinct(now)
    ensures forall c | c in Of(t, s) :: c in t && c.session == s
    ensures forall c | c in t && c.session == s :: c in Of(t, s)
  {
    var mine := Of(t, s);
    OfDistinct(t, s);
    TouchedExact(before, mine);
    TouchedPermutes(before, mine);
    TouchedDistinct(before, mine);
  }

  lemma TakeNext<T>(l: seq<T>, i: nat)
    requires i < |l|
    ensures l[..i + 1] == l[..i] + [l[i]]
  {
  }

  method TouchCap(cap: Cap)
    modifies cap.session
    ensures cap.session.caps == MovedBack(old(cap.session.caps), cap)
  {
    cap.session.caps := MovedBack(cap.session.caps, cap);
  }

  ghost predicate NoneCovers(cs: seq<Cap>, mask: nat)
    reads cs
  {
    forall c | c in cs :: !Covers(c.issued, mask)
  }

  ghost predicate IsFirstCovering(cs: seq<Cap>, i: nat, mask: nat)
    requires i < |cs|
    reads cs
  {
    Covers(cs[i].issued, mask) && NoneCovers(cs[..i], mask)
  }

  // ----- the caps of an inode, in the order of the map -----

  predicate KeysIn(keys: seq<int>, caps: map<int, Cap>) {
    forall i | 0 <= i < |keys| :: keys[i] in caps
  }

  function At(keys: seq<int>, caps: map<int, Cap>): (r: seq<Cap>)
    requires KeysIn(keys, caps)
    ensures |r| == |keys| && forall i | 0 <= i < |r| :: r[i] == caps[keys[i]]
  {
    if keys == [] then [] else At(keys[..|keys| - 1], caps) + [caps[keys[|keys| - 1]]]
  }

  lemma IntOrder()
    ensures Ordered.StrictTotalOrder(IntLess)
  {
  }

  lemma KeysOrdered(caps: map<int, Cap>)
    ensures Ordered.StrictTotalOrder(IntLess) && KeysIn(Ordered.InOrder(caps.Keys, IntLess), caps)
  {
    IntOrder();
    var keys := Ordered.InOrder(caps.Keys, IntLess);
    forall i | 0 <= i < |keys| ensures keys[i] in caps {
      assert keys[i] in keys;
    }
  }

  ghost function Listed(caps: map<int, Cap>): seq<Cap> {
    KeysOrdered(caps);
    At(Ordered.InOrder(caps.Keys, IntLess), caps)
  }

  ghost predicate Injective(caps: map<int, Cap>) {
    forall i, j | i in caps && j in caps :: caps[i] == caps[j] ==> i == j
  }

  lemma ListedDistinct(caps: map<int, Cap>)
    requires Injective(caps)
    ensures Distinct(Listed(caps))
  {
    KeysOrdered(caps);
    var keys := Ordered.InOrder(caps.Keys, IntLess);
    Ordered.InOrderIncreasing(caps.Keys, IntLess);
    forall i, j | 0 <= i < j < |keys| ensures Listed(caps)[i] != Listed(caps)[j] {
      assert IntLess(keys[i], keys[j]);
    }
  }

  lemma ListedExact(caps: map<int, Cap>)
    ensures forall c :: c in Listed(caps) <==> c in caps.Values
    ensures Injective(caps) ==> Distinct(Listed(caps))
  {
    hide IntLess;
    KeysOrdered(caps);
    var keys := Ordered.InOrder(caps.Keys, IntLess);
    forall c | c in caps.Values ensures c in Listed(caps) {
      var k :| k in caps && caps[k] == c;
      assert k in keys;
      var i :| 0 <= i < |keys| && keys[i] == k;
      assert Listed(caps)[i] == c;
    }
    if Injective(caps) {
      ListedDistinct(caps);
    }
  }

  /** These are the keys in increasing order, and the caps under them. */
  ghost predicate IsListing(keys: seq<int>, caps: map<int, Cap>, t: seq<Cap>) {
    && |keys| == |t| && (forall i, j | 0 <= i < j < |keys| :: keys[i] < keys[j])
    && (forall k :: k in keys <==> k in caps) && (forall i | 0 <= i < |t| :: keys[i] in caps && t[i] == caps[keys[i]])
  }

  /** The lowest key whose cap issues the whole mask. */
  ghost predicate IsLowest(k: int, caps: map<int, Cap>, mask: nat)
    reads caps.Values
  {
    && k in caps && BitsWithin(mask, caps[k].issued)
    && forall j | j in caps && j < k :: !BitsWithin(mask, caps[j].issued)
  }

  lemma ListingExact(caps: map<int, Cap>) returns (keys: seq<int>)
    ensures IsListing(keys, caps, Listed(caps))
  {
    KeysOrdered(caps);
    keys := Ordered.InOrder(caps.Keys, IntLess);
    Ordered.InOrderIncreasing(caps.Keys, IntLess);
    forall i, j | 0 <= i < j < |keys| ensures keys[i] < keys[j] {
      assert IntLess(keys[i], keys[j]);
    }
  }

  lemma LowestExact(caps: map<int, Cap>, i: nat, mask: nat)
    requires i < |Listed(caps)| && IsFirstCovering(Listed(caps), i, mask)
    ensures exists k :: IsLowest(k, caps, mask) && Listed(caps)[i] == caps[k]
  {
    hide Listed, Covers, BitsWithin;
    var cs := Listed(caps);
    var keys := ListingExact(caps);
    var k := keys[i];
    CoversBits(cs[i].issued, mask);
    forall j | j in caps && j < k ensures !BitsWithin(mask, caps[j].issued) {
      var n :| 0 <= n < |keys| && keys[n] == j;
      Before(cs, n, i);
      CoversBits(caps[j].issued, mask);
    }
    assert IsLowest(k, caps, mask);
  }

  lemma Before(cs: seq<Cap>, n: nat, i: nat)
    requires n < i <= |cs|
    ensures cs[n] in cs[..i]
  {
    assert cs[..i][n] == cs[n];
  }

  lemma NoneExact(caps: map<int, Cap>, mask: nat)
    ensures NoneCovers(Listed(caps), mask) <==> forall k | k in caps :: !BitsWithin(mask, caps[k].issued)
  {
    hide Listed, Covers, BitsWithin;
    ListedExact(caps);
    forall c | c in caps.Values ensures Covers(c.issued, mask) <==> BitsWithin(mask, c.issued) {
      CoversBits(c.issued, mask);
    }
    if NoneCovers(Listed(caps), mask) {
      forall k | k in caps ensures !BitsWithin(mask, caps[k].issued) {
        assert caps[k] in caps.Values;
      }
    } else {
      var i :| 0 <= i < |Listed(caps)| && Covers(Listed(caps)[i].issued, mask);
      var keys := ListingExact(caps);
      assert caps[keys[i]] in caps.Values;
    }
  }

  class Inode {
    var caps: map<int, Cap>
    var authCap: Cap?
    var exportingIssued: nat
    var snapCaps: nat

    constructor ()
      ensures caps == map[] && authCap == null && exportingIssued == 0 && snapCaps == 0
    {
      caps, authCap, exportingIssued, snapCaps := map[], null, 0, 0;
    }

    ghost function Sessions(): set<Session>
      reads this
    {
      set c | c in caps.Values :: c.session
    }

    /** The auth cap is one of the caps; every cap is on the list of its session. */
    ghost predicate Valid()
      reads this, Sessions()
    {
      && (authCap != null ==> authCap in caps.Values)
      && Injective(caps)
      && (forall c | c in caps.Values :: c in c.session.caps)
      && (forall s | s in Sessions() :: Distinct(s.caps))
    }

    function Base(): nat
      reads this
    {
      Or(exportingIssued, snapCaps)
    }

    /** The plain union of all that is issued. */
    ghost function AllIssued(): nat
      reads this, caps.Values
    {
      ListedExact(caps);
      Union(Base(), Issued(Listed(caps)))
    }

    ghost function AllImplemented(): nat
      reads this, caps.Values
    {
      ListedExact(caps);
      Union(0, Implemented(Listed(caps)))
    }

    /** The bits that are issued without a cap. */
    predicate BaseBit(n: nat)
      reads this
    {
      HasBit(exportingIssued, n) || HasBit(snapCaps, n)
    }

    /** The bits that are issued. */
    ghost predicate IssuedBit(n: nat)
      reads this, caps.Values
    {
      BaseBit(n) || exists c | c in caps.Values :: HasBit(c.issued, n)
    }

    ghost predicate ImplementedBit(n: nat)
      reads this, caps.Values
    {
      exists c | c in caps.Values :: HasBit(c.implemented, n)
    }

    /** Every bit of the mask is issued, by whomever. */
    ghost predicate Issues(mask: nat)
      reads this, caps.Values
    {
      forall n: nat :: HasBit(mask, n) ==> IssuedBit(n)
    }

    ghost predicate BaseIssues(mask: nat)
      reads this
    {
      forall n: nat :: HasBit(mask, n) ==> BaseBit(n)
    }

    lemma IssuedBits(n: nat)
      ensures HasBit(AllIssued(), n) <==> IssuedBit(n)
    {
      hide IntLess, Listed;
      var cs := Listed(caps);
      ListedExact(caps);
      IssuedAt(cs);
      OrBit(exportingIssued, snapCaps, n);
      UnionBit(Base(), Issued(cs), n);
      forall c | c in caps.Values && HasBit(c.issued, n) ensures HasBit(AllIssued(), n) {
        var i :| 0 <= i < |cs| && cs[i] == c;
        assert HasBit(Issued(cs)[i], n);
      }
    }

    lemma ImplementedBits(n: nat)
      ensures HasBit(AllImplemented(), n) <==> ImplementedBit(n)
    {
      hide IntLess, Listed;
      var cs := Listed(caps);
      ListedExact(caps);
      IssuedAt(cs);
      ZeroBit(n);
      UnionBit(0, Implemented(cs), n);
      forall c | c in caps.Values && HasBit(c.implemented, n) ensures HasBit(AllImplemented(), n) {
        var i :| 0 <= i < |cs| && cs[i] == c;
        assert HasBit(Implemented(cs)[i], n);
      }
    }

    lemma AllBits()
      ensures forall n: nat :: HasBit(AllIssued(), n) <==> IssuedBit(n)
      ensures forall n: nat :: HasBit(AllImplemented(), n) <==> ImplementedBit(n)
    {
      hide AllIssued, AllImplemented, IssuedBit, ImplementedBit;
      forall n: nat
        ensures HasBit(AllIssued(), n) <==> IssuedBit(n)
        ensures HasBit(AllImplemented(), n) <==> ImplementedBit(n)
      {
        IssuedBits(n);
        ImplementedBits(n);
      }
    }

    lemma IssuesExact(mask: nat)
      ensures Covers(AllIssued(), mask) <==> Issues(mask)
      ensures Covers(Base(), mask) <==> BaseIssues(mask)
    {
      hide AllIssued, IssuedBit, HasBit;
      AllBits();
      CoversBits(AllIssued(), mask);
      CoversBits(Base(), mask);
      forall n: nat ensures HasBit(Base(), n) <==> BaseBit(n) {
        OrBit(exportingIssued, snapCaps, n);
      }
    }

    /** caps_issued.  Every cap counts as valid: cap_is_valid has no other result. */
    method CapsIssued() returns (c: nat, implemented: nat)
      ensures forall n: nat :: HasBit(c, n) <==> IssuedBit(n)
      ensures forall n: nat :: HasBit(implemented, n) <==> ImplementedBit(n)
    {
      hide AllIssued, AllImplemented, IssuedBit, ImplementedBit, HasBit;
      c, implemented := Unions();
      AllBits();
    }

    /** The loop of caps_issued. */
    method Unions() returns (c: nat, implemented: nat)
      ensures c == AllIssued()
      ensures implemented == AllImplemented()
    {
      c, implemented := Base(), 0;
      KeysOrdered(caps);
      var keys := Ordered.Traverse(caps.Keys, IntLess);
      ghost var cs := Listed(caps);
      for i := 0 to |keys|
        invariant c == Union(Base(), Issued(cs[..i]))
        invariant implemented == Union(0, Implemented(cs[..i]))
      {
        NextMasks(cs, i, Base());
        NextMasks(cs, i, 0);
        var cap := caps[keys[i]];
        assert cap == cs[i];
        c := Or(c, cap.issued);
        implemented := Or(implemented, cap.implemented);
      }
      assert cs[..|keys|] == cs;
    }

    /** Which caps a query touches. */
    ghost predicate Touches(mask: nat, t: seq<Cap>)
      reads this, caps.Values, authCap
    {
      var cs := Listed(caps);
      if Covers(Base(), mask) || !Covers(AllIssued(), mask) then t == []
      else if authCap != null && Covers(authCap.issued, mask) then t == [authCap]
      else if NoneCovers(cs, mask) then t == cs
      else exists i :: 0 <= i < |cs| && IsFirstCovering(cs, i, mask) && t == [cs[i]]
    }

    /** All caps, in the increasing order of their keys. */
    ghost predicate InKeyOrder(t: seq<Cap>)
      reads this
    {
      exists keys: seq<int> :: IsListing(keys, caps, t)
    }

    /** The caps that caps_issued_mask touches: none if the query fails or needs none of
        them; the auth cap if that one is enough; otherwise the one of the lowest key that
        is enough, or all of them. */
    ghost predicate Used(mask: nat, t: seq<Cap>)
      reads this, caps.Values, authCap
    {
      if !Issues(mask) || BaseIssues(mask) then t == []
      else if authCap != null && BitsWithin(mask, authCap.issued) then t == [authCap]
      else if forall k | k in caps :: !BitsWithin(mask, caps[k].issued) then InKeyOrder(t)
      else exists k :: IsLowest(k, caps, mask) && t == [caps[k]]
    }

    lemma UsedExact(mask: nat, t: seq<Cap>)
      requires Touches(mask, t)
      ensures Used(mask, t)
    {
      hide IssuedBit, AllIssued, BaseBit, HasBit, IsListing, IsFirstCovering, IsLowest, Listed, NoneCovers, Base,
           Covers, BitsWithin, Issues, BaseIssues;
      IssuesExact(mask);
      var keys := ListingExact(caps);
      NoneExact(caps, mask);
      if authCap != null {
        CoversBits(authCap.issued, mask);
      }
      var cs := Listed(caps);
      if i :| 0 <= i < |cs| && IsFirstCovering(cs, i, mask) && t == [cs[i]] {
        LowestExact(caps, i, mask);
      }
    }

    /** Touch every cap, in the order of the map. */
    method TouchEach()
      modifies Sessions()
      ensures forall s | s in Sessions() :: IsTouched(s.caps, old(s.caps), Listed(caps), s)
    {
      KeysOrdered(caps);
      var keys := Ordered.Traverse(caps.Keys, IntLess);
      ghost var cs := Listed(caps);
      for i := 0 to |keys|
        invariant forall s | s in Sessions() :: IsTouched(s.caps, old(s.caps), cs[..i], s)
      {
        var cap := caps[keys[i]];
        assert cap.session in Sessions() by { assert cap in caps.Values; }
        label Before:
        TouchCap(cap);
        TakeNext(cs, i);
        forall s | s in Sessions() ensures IsTouched(s.caps, old(s.caps), cs[..i + 1], s) {
          IsTouchedSnoc(old@Before(s.caps), old(s.caps), cs[..i], cap, s);
        }
      }
      assert cs[..|keys|] == cs;
    }

    /** The loop of caps_issued_mask up to the first cap that covers the mask; if
        there is none, c is the union of all. */
    method FindCovering(mask: nat) returns (found: Cap?, c: nat, ghost at: nat)
      ensures found != null ==>
                at < |Listed(caps)| && found == Listed(caps)[at] && found in caps.Values
                && Covers(found.issued, mask) && NoneCovers(Listed(caps)[..at], mask)
      ensures found == null ==> c == AllIssued() && NoneCovers(Listed(caps), mask)
    {
      c, at, found := Base(), 0, null;
      KeysOrdered(caps);
      var keys := Ordered.Traverse(caps.Keys, IntLess);
      ghost var cs := Listed(caps);
      for i := 0 to |keys|
        invariant c == Union(Base(), Issued(cs[..i])) && NoneCovers(cs[..i], mask)
      {
        var cap := caps[keys[i]];
        assert cap == cs[i];
        if Covers(cap.issued, mask) {
          found, at := cap, i;
          return;
        }
        NextMasks(cs, i, Base());
        c := Or(c, cap.issued);
      }
      assert cs[..|keys|] == cs;
    }

    method TouchOne(cap: Cap)
      requires cap.session in Sessions()
      modifies cap.session
      ensures forall s | s in Sessions() :: IsTouched(s.caps, old(s.caps), [cap], s)
    {
      TouchCap(cap);
      forall s | s in Sessions() ensures IsTouched(s.caps, old(s.caps), [cap], s) {
        assert IsTouched(old(s.caps), old(s.caps), [], s);
        IsTouchedSnoc(old(s.caps), old(s.caps), [], cap, s);
        assert [] + [cap] == [cap];
      }
    }

    /** The answer to a query, and the caps that it touches. */
    ghost predicate Answer(mask: nat, r: bool, t: seq<Cap>)
      reads this, caps.Values, authCap
    {
      && (r <==> Issues(mask)) && Used(mask, t)
      && Distinct(t) && forall c | c in t :: c in caps.Values
    }

    lemma AnswerExact(mask: nat, r: bool, t: seq<Cap>)
      ensures (r <==> Covers(AllIssued(), mask)) && Touches(mask, t) ==> (r <==> Issues(mask)) && Used(mask, t)
    {
      hide AllIssued, Issues, Touches, Used, Covers;
      IssuesExact(mask);
      if Touches(mask, t) {
        UsedExact(mask, t);
      }
    }

    lemma AnswerBase(mask: nat)
      requires Valid() && Covers(Base(), mask)
      ensures Answer(mask, true, [])
    {
      hide Issues, Used, Covers;
      AnswerExact(mask, true, []);
      ListedExact(caps);
      UnionCovers(Base(), Issued(Listed(caps)), mask);
    }

    lemma AnswerAuth(mask: nat)
      requires Valid() && !Covers(Base(), mask) && authCap != null && Covers(authCap.issued, mask)
      ensures Answer(mask, true, [authCap])
    {
      AnswerExact(mask, true, [authCap]);
      ListedExact(caps);
      OneCovers(Listed(caps), Base(), mask, authCap);
    }

    lemma AnswerFirst(mask: nat, at: nat)
      requires Valid() && !Covers(Base(), mask) && (authCap != null ==> !Covers(authCap.issued, mask))
      requires at < |Listed(caps)| && IsFirstCovering(Listed(caps), at, mask)
      ensures Answer(mask, true, [Listed(caps)[at]])
    {
      var cs := Listed(caps);
      ListedExact(caps);
      OneCovers(cs, Base(), mask, cs[at]);
      assert !NoneCovers(cs, mask);
      AnswerExact(mask, true, [cs[at]]);
    }

    lemma AnswerRest(mask: nat)
      requires Valid() && !Covers(Base(), mask) && NoneCovers(Listed(caps), mask)
      ensures Covers(AllIssued(), mask) ==> Answer(mask, true, Listed(caps))
      ensures !Covers(AllIssued(), mask) ==> Answer(mask, false, [])
    {
      AnswerExact(mask, true, Listed(caps));
      AnswerExact(mask, false, []);
      ListedExact(caps);
    }

    /** What the loop finds decides the answer. */
    method Search(mask: nat) returns (found: Cap?, r: bool)
      requires Valid() && !Covers(Base(), mask) && (authCap != null ==> !Covers(authCap.issued, mask))
      ensures found != null ==> r && found in caps.Values && Answer(mask, r, [found])
      ensures found == null ==> Answer(mask, r, if r then Listed(caps) else [])
    {
      var c;
      ghost var at;
      found, c, at := FindCovering(mask);
      if found != null {
        AnswerFirst(mask, at);
        r := true;
      } else {
        AnswerRest(mask);
        r := Covers(c, mask);
      }
    }

    lemma TouchNone()
      ensures forall s | s in Sessions() :: IsTouched(s.caps, s.caps, [], s)
    {
    }

    /** The part of caps_issued_mask that is left when neither the base nor the auth
        cap covers the mask. */
    method TryAny(mask: nat) returns (r: bool, ghost t: seq<Cap>)
      requires Valid() && !Covers(Base(), mask) && (authCap != null ==> !Covers(authCap.issued, mask))
      modifies Sessions()
      ensures old(allocated(t)) && old(Answer(mask, r, t))
      ensures forall s | s in Sessions() :: IsTouched(s.caps, old(s.caps), t, s)
    {
      hide Answer, IsTouched, Valid, Covers, Listed, Base;
      var found;
      found, r := Search(mask);
      if found != null {
        t := [found];
        TouchOne(found);
      } else if r {
        t := Listed(caps);
        TouchEach();
      } else {
        t := [];
        TouchNone();
      }
    }

    /** caps_issued_mask with the caps that it touches. */
    method QueryMask(mask: nat) returns (r: bool, ghost t: seq<Cap>)
      requires Valid()
      modifies Sessions()
      ensures old(allocated(t)) && old(Answer(mask, r, t))
      ensures forall s | s in Sessions() :: IsTouched(s.caps, old(s.caps), t, s)
    {
      hide Answer, IsTouched, Covers, Base, Listed;
      if Covers(Base(), mask) {
        AnswerBase(mask);
        TouchNone();
        return true, [];
      }
      if authCap != null && Covers(authCap.issued, mask) {
        AnswerAuth(mask);
        r, t := true, [authCap];
        TouchOne(authCap);
        return;
      }
      r, t := TryAny(mask);
    }

    /** caps_issued_mask: on every path, it is true if and only if every bit of the mask
        is issued.  On the way it reorders the lists of the sessions, and no more: what it
        touches moves to the back, the rest keeps its order. */
    method CapsIssuedMask(mask: nat) returns (r: bool, ghost t: seq<Cap>)
      requires Valid()
      modifies Sessions()
      ensures Valid()
      ensures r <==> old(Issues(mask))
      ensures old(allocated(t)) && old(Used(mask, t))
      ensures forall s | s in Sessions() ::
                && s.caps == Untouched(old(s.caps), Of(t, s)) + Of(t, s)
                && multiset(s.caps) == multiset(old(s.caps))
    {
      r, t := QueryMask(mask);
      forall s | s in Sessions()
        ensures s.caps == Untouched(old(s.caps), Of(t, s)) + Of(t, s)
        ensures multiset(s.caps) == multiset(old(s.caps)) && Distinct(s.caps)
      {
        forall c | c in t && c.session == s ensures c in old(s.caps) {
          assert c in old(c.session.caps);
        }
        IsTouchedExact(s.caps, old(s.caps), t, s);
      }
      forall c | c in caps.Values ensures c in c.session.caps {
        assert c.session in Sessions();
        assert c in multiset(old(c.session.caps));
      }
    }
  }
}
