/**
 The order records are written in: ascending by integer id, as Python's
 stable `list.sort(key=...)` leaves them, so records with equal ids keep
 their input order.
 */
module Ordering {
  import opened Records

  predicate SortedById(s: seq<Record>) {
    forall i, j :: 0 <= i < j < |s| ==> s[i].id <= s[j].id
  }

  /** The records of `s` whose id is `k`, in their order in `s`. */
  function WithId(s: seq<Record>, k: nat): (r: seq<Record>)
    ensures |r| <= |s|
    ensures forall x :: x in r ==> x in s && x.id == k
  {
    if |s| == 0 then []
    else (if s[0].id == k then [s[0]] else []) + WithId(s[1..], k)
  }

  /** Puts `x` in front of the first record whose id is not below its own. */
  function Insert(x: Record, s: seq<Record>): (r: seq<Record>)
    requires SortedById(s)
    ensures SortedById(r)
    ensures multiset(r) == multiset(s) + multiset{x}
    ensures forall i :: 0 <= i < |r| ==> r[i] == x || r[i] in s
  {
    if |s| == 0 then [x]
    else if x.id <= s[0].id then [x] + s
    else
      var t := Insert(x, s[1..]);
      ConsSorted(s, x, t);
      assert s == [s[0]] + s[1..];
      [s[0]] + t
  }

  /** The first record of a sorted sequence can go in front of anything made of `x` and the rest. */
  lemma ConsSorted(s: seq<Record>, x: Record, t: seq<Record>)
    requires SortedById(s) && |s| > 0 && s[0].id < x.id
    requires SortedById(t) && forall i :: 0 <= i < |t| ==> t[i] == x || t[i] in s[1..]
    ensures SortedById([s[0]] + t)
  {
    var r := [s[0]] + t;
    forall j | 0 < j < |r|
      ensures s[0].id <= r[j].id
    {
      assert r[j] == t[j - 1];
      if t[j - 1] != x {
        var k :| 0 <= k < |s[1..]| && s[1..][k] == t[j - 1];
        assert s[k + 1] == t[j - 1];
      }
    }
    forall i, j | 0 <= i < j < |r|
      ensures r[i].id <= r[j].id
    {
      if i > 0 {
        assert r[i] == t[i - 1] && r[j] == t[j - 1];
      }
    }
  }

  /** The records in the order the formatter writes them. */
  function SortById(s: seq<Record>): (r: seq<Record>)
    ensures SortedById(r)
    ensures multiset(r) == multiset(s)
    ensures |r| == |s|
  {
    if |s| == 0 then []
    else
      assert s == [s[0]] + s[1..];
      Insert(s[0], SortById(s[1..]))
  }

  lemma WithIdCons(y: Record, t: seq<Record>, k: nat)
    ensures WithId([y] + t, k) == (if y.id == k then [y] else []) + WithId(t, k)
  {
    assert ([y] + t)[1..] == t;
  }

  lemma {:induction false} InsertWithId(x: Record, s: seq<Record>, k: nat)
    requires SortedById(s)
    ensures WithId(Insert(x, s), k) == (if x.id == k then [x] else []) + WithId(s, k)
  {
    if |s| == 0 {
      WithIdCons(x, [], k);
    } else if x.id <= s[0].id {
      WithIdCons(x, s, k);
    } else {
      var t := Insert(x, s[1..]);
      assert Insert(x, s) == [s[0]] + t;
      InsertWithId(x, s[1..], k);
      WithIdCons(s[0], t, k);
      WithIdCons(s[0], s[1..], k);
      assert s == [s[0]] + s[1..];
      var xs := if x.id == k then [x] else [];
      var ys := if s[0].id == k then [s[0]] else [];
      PrefixesCommute(ys, xs, WithId(s[1..], k));
    }
  }

  /** Two prefixes of which at most one is non-empty can be put in either order. */
  lemma PrefixesCommute(ys: seq<Record>, xs: seq<Record>, w: seq<Record>)
    requires |ys| == 0 || |xs| == 0
    ensures ys + (xs + w) == xs + (ys + w)
  {
    if |ys| == 0 {
      assert ys + (xs + w) == xs + w == xs + (ys + w);
    } else {
      assert ys + (xs + w) == ys + w == xs + (ys + w);
    }
  }

  /** Sorting is stable: for every id, the records with that id keep their relative order. */
  lemma {:induction false} SortByIdStable(s: seq<Record>, k: nat)
    ensures WithId(SortById(s), k) == WithId(s, k)
  {
    if |s| > 0 {
      SortByIdStable(s[1..], k);
      InsertWithId(s[0], SortById(s[1..]), k);
    }
  }

  lemma SortedHeadIsLeast(s: seq<Record>, x: Record)
    requires SortedById(s) && x in s
    ensures s[0].id <= x.id
  {
    var j :| 0 <= j < |s| && s[j] == x;
    if j > 0 {
      assert s[0].id <= s[j].id;
    }
  }

  lemma OwnIdListed(s: seq<Record>)
    requires |s| > 0
    ensures s[0] in WithId(s, s[0].id)
  {
    WithIdCons(s[0], s[1..], s[0].id);
    assert s == [s[0]] + s[1..];
  }

  /** Two id-sorted sequences with the same records per id start with the same record. */
  lemma SameHead(a: seq<Record>, b: seq<Record>)
    requires SortedById(a) && SortedById(b) && |a| > 0 && |b| > 0
    requires forall k: nat :: WithId(a, k) == WithId(b, k)
    ensures a[0] == b[0]
  {
    var m := a[0].id;
    OwnIdListed(a);
    OwnIdListed(b);
    assert a[0] in WithId(b, m);
    SortedHeadIsLeast(b, a[0]);
    assert b[0] in WithId(a, b[0].id);
    SortedHeadIsLeast(a, b[0]);
    assert b[0].id == m;
    WithIdCons(a[0], a[1..], m);
    WithIdCons(b[0], b[1..], m);
    assert a == [a[0]] + a[1..];
    assert b == [b[0]] + b[1..];
    assert WithId(a, m)[0] == a[0];
    assert WithId(b, m)[0] == b[0];
  }

  /** Removing a common first record keeps the records per id equal. */
  lemma SameTails(a: seq<Record>, b: seq<Record>)
    requires |a| > 0 && |b| > 0 && a[0] == b[0]
    requires forall k: nat :: WithId(a, k) == WithId(b, k)
    ensures forall k: nat :: WithId(a[1..], k) == WithId(b[1..], k)
  {
    assert a == [a[0]] + a[1..];
    assert b == [b[0]] + b[1..];
    forall k: nat
      ensures WithId(a[1..], k) == WithId(b[1..], k)
    {
      WithIdCons(a[0], a[1..], k);
      WithIdCons(b[0], b[1..], k);
      assert WithId(a, k) == WithId(b, k);
      var p := if a[0].id == k then [a[0]] else [];
      assert p + WithId(a[1..], k) == p + WithId(b[1..], k);
      assert WithId(a[1..], k) == (p + WithId(a[1..], k))[|p|..];
      assert WithId(b[1..], k) == (p + WithId(b[1..], k))[|p|..];
    }
  }

  /**
   The stable ascending order is unique: two id-sorted sequences that agree on
   the records of every id, in order, are equal.
   */
  lemma {:induction false} SortedStableUnique(a: seq<Record>, b: seq<Record>)
    requires SortedById(a) && SortedById(b)
    requires forall k: nat :: WithId(a, k) == WithId(b, k)
    ensures a == b
    decreases |a|
  {
    if |a| == 0 && |b| == 0 {
    } else if |a| == 0 {
      OwnIdListed(b);
      assert false;
    } else if |b| == 0 {
      OwnIdListed(a);
      assert false;
    } else {
      SameHead(a, b);
      SameTails(a, b);
      SortedStableUnique(a[1..], b[1..]);
      assert a == [a[0]] + a[1..];
      assert b == [b[0]] + b[1..];
    }
  }

  /** `SortById` is the one sequence that is sorted by id and keeps, for every id, the input's records in order. */
  lemma SortByIdCharacterized(s: seq<Record>, r: seq<Record>)
    requires SortedById(r)
    requires forall k: nat :: WithId(r, k) == WithId(s, k)
    ensures r == SortById(s)
  {
    forall k: nat
      ensures WithId(r, k) == WithId(SortById(s), k)
    {
      SortByIdStable(s, k);
    }
    SortedStableUnique(r, SortById(s));
  }

  /** Sorting neither adds nor drops kinds of records. */
  lemma SortByIdKeepsKinds(s: seq<Record>)
    ensures AllNamed(SortById(s)) <==> AllNamed(s)
    ensures AllQuests(SortById(s)) <==> AllQuests(s)
  {
    var r := SortById(s);
    forall i | 0 <= i < |r|
      ensures r[i] in s
    {
      assert r[i] in multiset(r);
    }
    forall i | 0 <= i < |s|
      ensures s[i] in r
    {
      assert s[i] in multiset(s);
    }
  }
}
