/** The list order (script.js, renderCapsules):
    `capsules.sort((a, b) => a.unlockTime - b.unlockTime)`. JavaScript's
    `Array.prototype.sort` is stable, so capsules with equal unlock times keep
    their storage order. Modelled as an insertion sort over sequences. */
module Sorting {
  import opened Capsules

  /** Unlock times never decrease along `s`. */
  predicate SortedByUnlock(s: seq<Capsule>) {
    forall i, j :: 0 <= i < j < |s| ==> s[i].unlockTime <= s[j].unlockTime
  }

  /** The records of `s` that unlock at `t`, in their order in `s`. */
  function WithUnlockTime(s: seq<Capsule>, t: int): seq<Capsule> {
    if s == [] then []
    else (if s[0].unlockTime == t then [s[0]] else []) + WithUnlockTime(s[1..], t)
  }

  /** `s` and `r` hold the same records, and records sharing an unlock time
      appear in the same relative order in both. */
  ghost predicate StablePermutation(s: seq<Capsule>, r: seq<Capsule>) {
    && multiset(r) == multiset(s)
    && forall t :: WithUnlockTime(r, t) == WithUnlockTime(s, t)
  }

  /** Puts `c` into sorted `s` in front of the first record that unlocks no
      earlier than `c`, so that `c` precedes its equals. */
  function Insert(c: Capsule, s: seq<Capsule>): (r: seq<Capsule>)
    requires SortedByUnlock(s)
    ensures |r| == |s| + 1
    ensures SortedByUnlock(r)
    ensures multiset(r) == multiset(s) + multiset{c}
  {
    if s == [] || c.unlockTime <= s[0].unlockTime then
      FirstBelowRest(c, s);
      [c] + s
    else
      SortedTail(s);
      var rest := Insert(c, s[1..]);
      InsertBehindHead(c, s, rest);
      [s[0]] + rest
  }

  /** The facts `Insert` promises, for the case where `c` goes behind the
      head of `s`, given that they hold for the insertion into the tail. */
  lemma InsertBehindHead(c: Capsule, s: seq<Capsule>, rest: seq<Capsule>)
    requires s != [] && SortedByUnlock(s) && s[0].unlockTime < c.unlockTime
    requires SortedByUnlock(rest)
    requires multiset(rest) == multiset(s[1..]) + multiset{c}
    ensures SortedByUnlock([s[0]] + rest)
    ensures multiset([s[0]] + rest) == multiset(s) + multiset{c}
  {
    HeadBelowInserted(c, s, rest);
    FirstBelowRest(s[0], rest);
    assert multiset(s) == multiset{s[0]} + multiset(s[1..]) by {
      assert s == [s[0]] + s[1..];
    }
  }

  lemma SortedTail(s: seq<Capsule>)
    requires s != [] && SortedByUnlock(s)
    ensures SortedByUnlock(s[1..])
  {
    forall i, j | 0 <= i < j < |s| - 1 ensures s[1..][i].unlockTime <= s[1..][j].unlockTime {
      assert s[1..][i] == s[i + 1] && s[1..][j] == s[j + 1];
    }
  }

  lemma HeadBelowInserted(c: Capsule, s: seq<Capsule>, rest: seq<Capsule>)
    requires s != [] && SortedByUnlock(s) && s[0].unlockTime < c.unlockTime
    requires multiset(rest) == multiset(s[1..]) + multiset{c}
    ensures forall y :: y in multiset(rest) ==> s[0].unlockTime <= y.unlockTime
  {
    forall y | y in multiset(rest) ensures s[0].unlockTime <= y.unlockTime {
      if y != c {
        assert y in multiset(s[1..]);
        var j :| 0 <= j < |s[1..]| && s[1..][j] == y;
        assert s[j + 1] == y;
      }
    }
  }

  lemma FirstBelowRest(x: Capsule, rest: seq<Capsule>)
    requires SortedByUnlock(rest)
    requires forall y :: y in multiset(rest) ==> x.unlockTime <= y.unlockTime
    ensures SortedByUnlock([x] + rest)
  {
    var r := [x] + rest;
    forall i, j | 0 <= i < j < |r| ensures r[i].unlockTime <= r[j].unlockTime {
      assert r[j] == rest[j - 1];
      assert rest[j - 1] in multiset(rest);
      if i > 0 { assert r[i] == rest[i - 1]; }
    }
  }

  /** Inserting `c` adds it in front of the records that unlock at the same
      time and leaves the order among those records alone. */
  lemma {:induction false} InsertStable(c: Capsule, s: seq<Capsule>, t: int)
    requires SortedByUnlock(s)
    ensures WithUnlockTime(Insert(c, s), t) == (if c.unlockTime == t then [c] else []) + WithUnlockTime(s, t)
  {
    if s == [] || c.unlockTime <= s[0].unlockTime {
      WithUnlockTimeCons(c, s, t);
    } else {
      SortedTail(s);
      InsertStable(c, s[1..], t);
      StableBehindHead(c, s[0], s[1..], Insert(c, s[1..]), t);
      assert [s[0]] + s[1..] == s;
    }
  }

  /** Putting a record that unlocks before `c` in front of both sides keeps
      `c` in front of the records it shares its unlock time with. */
  lemma StableBehindHead(c: Capsule, x: Capsule, tail: seq<Capsule>, rest: seq<Capsule>, t: int)
    requires x.unlockTime < c.unlockTime
    requires WithUnlockTime(rest, t) == (if c.unlockTime == t then [c] else []) + WithUnlockTime(tail, t)
    ensures WithUnlockTime([x] + rest, t) == (if c.unlockTime == t then [c] else []) + WithUnlockTime([x] + tail, t)
  {
    WithUnlockTimeCons(x, rest, t);
    WithUnlockTimeCons(x, tail, t);
  }

  lemma WithUnlockTimeCons(x: Capsule, rest: seq<Capsule>, t: int)
    ensures WithUnlockTime([x] + rest, t) == (if x.unlockTime == t then [x] else []) + WithUnlockTime(rest, t)
  {
    assert ([x] + rest)[1..] == rest;
  }

  /** The order the list is rendered in. */
  function SortByUnlock(s: seq<Capsule>): (r: seq<Capsule>)
    ensures |r| == |s|
    ensures SortedByUnlock(r)
    ensures StablePermutation(s, r)
  {
    if s == [] then []
    else
      var rest := SortByUnlock(s[1..]);
      assert s == [s[0]] + s[1..];
      SortStep(s, rest);
      Insert(s[0], rest)
  }

  lemma SortStep(s: seq<Capsule>, rest: seq<Capsule>)
    requires s != [] && SortedByUnlock(rest) && StablePermutation(s[1..], rest)
    ensures StablePermutation(s, Insert(s[0], rest))
  {
    assert s == [s[0]] + s[1..];
    forall t ensures WithUnlockTime(Insert(s[0], rest), t) == WithUnlockTime(s, t) {
      InsertStable(s[0], rest, t);
    }
  }

  /** Sortedness and stability pin the order down: any arrangement of `s`
      that is sorted by unlock time and keeps equal-time records in storage
      order is exactly `SortByUnlock(s)`. */
  lemma SortIsTheStableSort(s: seq<Capsule>, r: seq<Capsule>)
    requires SortedByUnlock(r) && StablePermutation(s, r)
    ensures r == SortByUnlock(s)
  {
    SortedStableUnique(r, SortByUnlock(s));
  }

  lemma {:induction false} SortedStableUnique(a: seq<Capsule>, b: seq<Capsule>)
    requires SortedByUnlock(a) && SortedByUnlock(b) && StablePermutation(a, b)
    ensures a == b
    decreases |a|
  {
    if a == [] {
      assert |b| == |multiset(b)| == 0;
    } else {
      SameHead(a, b);
      SameTail(a, b);
      assert SortedByUnlock(a[1..]) && SortedByUnlock(b[1..]);
      SortedStableUnique(a[1..], b[1..]);
      assert a == [a[0]] + a[1..] && b == [b[0]] + b[1..];
    }
  }

  /** Two sorted stable arrangements of the same records start alike: both
      start with a record of the least unlock time, and stability says which
      one. */
  lemma SameHead(a: seq<Capsule>, b: seq<Capsule>)
    requires a != [] && SortedByUnlock(a) && SortedByUnlock(b) && StablePermutation(a, b)
    ensures b != [] && a[0] == b[0]
  {
    assert |b| == |multiset(b)| == |multiset(a)| == |a|;
    assert a[0] in multiset(b) && b[0] in multiset(a);
    var ja :| 0 <= ja < |b| && b[ja] == a[0];
    var jb :| 0 <= jb < |a| && a[jb] == b[0];
    var k := a[0].unlockTime;
    assert b[0].unlockTime == k;
    assert WithUnlockTime(a, k) == [a[0]] + WithUnlockTime(a[1..], k);
    assert WithUnlockTime(b, k) == [b[0]] + WithUnlockTime(b[1..], k);
    assert WithUnlockTime(a, k) == WithUnlockTime(b, k);
    assert WithUnlockTime(a, k)[0] == a[0];
    assert WithUnlockTime(b, k)[0] == b[0];
  }

  lemma SameTail(a: seq<Capsule>, b: seq<Capsule>)
    requires a != [] && b != [] && a[0] == b[0] && StablePermutation(a, b)
    ensures StablePermutation(a[1..], b[1..])
  {
    assert a == [a[0]] + a[1..] && b == [b[0]] + b[1..];
    assert multiset(a[1..]) == multiset(a) - multiset{a[0]};
    assert multiset(b[1..]) == multiset(b) - multiset{b[0]};
    forall t ensures WithUnlockTime(a[1..], t) == WithUnlockTime(b[1..], t) {
      var p := if a[0].unlockTime == t then [a[0]] else [];
      assert WithUnlockTime(a, t) == p + WithUnlockTime(a[1..], t);
      assert WithUnlockTime(b, t) == p + WithUnlockTime(b[1..], t);
      assert WithUnlockTime(a[1..], t) == WithUnlockTime(a, t)[|p|..];
      assert WithUnlockTime(b[1..], t) == WithUnlockTime(b, t)[|p|..];
    }
  }
}
