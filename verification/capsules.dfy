/** The capsule record and the three edits the program makes to the stored
    collection (script.js, handleFormSubmit and handleListClick): replace the
    content of the first record with a given id, append a new record, and
    remove every record with a given id. The collection is an immutable
    sequence in storage order. */
module Capsules {
  import opened Wrappers
  import opened Text

  /** One time capsule. Times are whole milliseconds since the epoch. */
  datatype Capsule = Capsule(
    id: string,
    title: string,
    message: string,
    unlockTime: int,
    sealedTime: int,
    location: string)

  /** The id a capsule sealed at `now` receives: `cap_${Date.now()}`. */
  function IdFor(now: int): string {
    "cap_" + IntToDecimal(now)
  }

  /** Two different sealing times give two different ids. */
  lemma IdForInjective(a: int, b: int)
    requires IdFor(a) == IdFor(b)
    ensures a == b
  {
    assert IdFor(a)[4..] == IntToDecimal(a);
    assert IdFor(b)[4..] == IntToDecimal(b);
    IntToDecimalInjective(a, b);
  }

  /** `findIndex(c => c.id === id)`: the first position holding `id`, or
      None (the source's -1) when no record has it. */
  function FirstIndexOf(store: seq<Capsule>, id: string): (r: Option<nat>)
    ensures r.None? <==> forall i :: 0 <= i < |store| ==> store[i].id != id
    ensures r.Some? ==> r.value < |store| && store[r.value].id == id
    ensures r.Some? ==> forall i :: 0 <= i < r.value ==> store[i].id != id
  {
    if store == [] then None
    else if store[0].id == id then Some(0)
    else match FirstIndexOf(store[1..], id)
      case None => None
      case Some(k) => Some(k + 1)
  }

  predicate HasId(store: seq<Capsule>, id: string) {
    exists i :: 0 <= i < |store| && store[i].id == id
  }

  /** `Object.assign(capsules[idx], { title, message, unlockTime })` on the
      first record with `id`: only that record changes, and only in its
      title, message and unlock time; without such a record nothing changes. */
  function UpdateContent(store: seq<Capsule>, id: string, title: string, message: string, unlockTime: int)
    : (r: seq<Capsule>)
    ensures |r| == |store|
    ensures !HasId(store, id) ==> r == store
    ensures HasId(store, id) ==>
              var k := FirstIndexOf(store, id).value;
              && r[k].id == store[k].id
              && r[k].sealedTime == store[k].sealedTime
              && r[k].location == store[k].location
              && r[k].title == title && r[k].message == message && r[k].unlockTime == unlockTime
              && (forall i :: 0 <= i < |store| && i != k ==> r[i] == store[i])
  {
    match FirstIndexOf(store, id)
    case None => store
    case Some(k) => store[k := store[k].(title := title, message := message, unlockTime := unlockTime)]
  }

  /** `capsules.push(newCapsule)`: one more record, at the end. */
  function Append(store: seq<Capsule>, c: Capsule): (r: seq<Capsule>)
    ensures |r| == |store| + 1 && r[..|store|] == store && r[|store|] == c
  {
    store + [c]
  }

  /** Number of records carrying `id`. */
  function CountId(store: seq<Capsule>, id: string): nat {
    if store == [] then 0
    else (if store[0].id == id then 1 else 0) + CountId(store[1..], id)
  }

  /** `a` is `b` with some elements left out, the rest in the same order. */
  predicate IsSubsequence<T(==)>(a: seq<T>, b: seq<T>) {
    if a == [] then true
    else if b == [] then false
    else if a[0] == b[0] then IsSubsequence(a[1..], b[1..])
    else IsSubsequence(a, b[1..])
  }

  /** `capsules.filter(c => c.id !== id)`: drops every record with `id`,
      keeps the others in their order. */
  function RemoveId(store: seq<Capsule>, id: string): (r: seq<Capsule>)
    ensures forall c :: c in r <==> c in store && c.id != id
    ensures IsSubsequence(r, store)
    ensures |r| == |store| - CountId(store, id)
  {
    if store == [] then []
    else if store[0].id == id then RemoveId(store[1..], id)
    else [store[0]] + RemoveId(store[1..], id)
  }

  /** No two records share an id. */
  predicate UniqueIds(store: seq<Capsule>) {
    forall i, j :: 0 <= i < j < |store| ==> store[i].id != store[j].id
  }

  lemma {:induction false} CountIdUnique(store: seq<Capsule>, id: string)
    requires UniqueIds(store)
    ensures CountId(store, id) == if HasId(store, id) then 1 else 0
  {
    if store != [] {
      var rest := store[1..];
      assert UniqueIds(rest) by {
        forall i, j | 0 <= i < j < |rest| ensures rest[i].id != rest[j].id {
          assert rest[i] == store[i + 1] && rest[j] == store[j + 1];
        }
      }
      CountIdUnique(rest, id);
      if store[0].id == id {
        assert !HasId(rest, id) by {
          forall i | 0 <= i < |rest| ensures rest[i].id != id {
            assert rest[i] == store[i + 1];
          }
        }
      } else {
        assert HasId(store, id) == HasId(rest, id) by {
          if HasId(store, id) {
            var i :| 0 <= i < |store| && store[i].id == id;
            assert rest[i - 1] == store[i];
          }
          if HasId(rest, id) {
            var i :| 0 <= i < |rest| && rest[i].id == id;
            assert store[i + 1] == rest[i];
          }
        }
      }
    }
  }

  /** With unique ids, deleting a stored id shrinks the collection by exactly
      one record, and deleting an absent id changes nothing. */
  lemma RemoveUniqueId(store: seq<Capsule>, id: string)
    requires UniqueIds(store)
    ensures HasId(store, id) ==> |RemoveId(store, id)| == |store| - 1
    ensures !HasId(store, id) ==> RemoveId(store, id) == store
  {
    CountIdUnique(store, id);
    if !HasId(store, id) {
      RemoveAbsent(store, id);
    }
  }

  lemma {:induction false} RemoveAbsent(store: seq<Capsule>, id: string)
    requires !HasId(store, id)
    ensures RemoveId(store, id) == store
  {
    if store != [] {
      assert !HasId(store[1..], id) by {
        forall i | 0 <= i < |store| - 1 ensures store[1..][i].id != id {
          assert store[1..][i] == store[i + 1];
        }
      }
      RemoveAbsent(store[1..], id);
    }
  }

  /** Appending a record whose id is new and then deleting that id gives the
      collection back. */
  lemma RemoveUndoesAppend(store: seq<Capsule>, c: Capsule)
    requires !HasId(store, c.id)
    ensures RemoveId(Append(store, c), c.id) == store
  {
    RemoveAppended(store, c);
  }

  lemma {:induction false} RemoveAppended(store: seq<Capsule>, c: Capsule)
    requires !HasId(store, c.id)
    ensures RemoveId(store + [c], c.id) == store
  {
    if store == [] {
      assert [c][1..] == [];
    } else {
      assert (store + [c])[1..] == store[1..] + [c];
      assert !HasId(store[1..], c.id) by {
        forall i | 0 <= i < |store| - 1 ensures store[1..][i].id != c.id {
          assert store[1..][i] == store[i + 1];
        }
      }
      RemoveAppended(store[1..], c);
    }
  }

  /** Every record's id is the one `IdFor` gives its sealing time, as for a
      collection built only by this program. */
  predicate IdsFromSealTimes(store: seq<Capsule>) {
    forall i :: 0 <= i < |store| ==> store[i].id == IdFor(store[i].sealedTime)
  }

  /** Every record was sealed strictly before `now`. */
  predicate SealedBefore(store: seq<Capsule>, now: int) {
    forall i :: 0 <= i < |store| ==> store[i].sealedTime < now
  }

  /** Sealing a capsule at a millisecond later than every stored one keeps
      ids unique: the id is derived from the sealing time, and distinct times
      give distinct ids. */
  lemma AppendFreshKeepsUniqueIds(store: seq<Capsule>, c: Capsule, now: int)
    requires UniqueIds(store) && IdsFromSealTimes(store) && SealedBefore(store, now)
    requires c.id == IdFor(now) && c.sealedTime == now
    ensures UniqueIds(Append(store, c)) && IdsFromSealTimes(Append(store, c))
  {
    forall i | 0 <= i < |store| ensures store[i].id != c.id {
      if store[i].id == c.id {
        IdForInjective(store[i].sealedTime, now);
      }
    }
    AppendDistinctKeepsUnique(store, c);
    AppendKeepsIdsFromSealTimes(store, c);
  }

  lemma AppendDistinctKeepsUnique(store: seq<Capsule>, c: Capsule)
    requires UniqueIds(store)
    requires forall i :: 0 <= i < |store| ==> store[i].id != c.id
    ensures UniqueIds(Append(store, c))
  {
    var r := Append(store, c);
    assert forall i :: 0 <= i < |store| ==> r[i] == store[i];
  }

  lemma AppendKeepsIdsFromSealTimes(store: seq<Capsule>, c: Capsule)
    requires IdsFromSealTimes(store) && c.id == IdFor(c.sealedTime)
    ensures IdsFromSealTimes(Append(store, c))
  {
    var r := Append(store, c);
    assert forall i :: 0 <= i < |store| ==> r[i] == store[i];
  }

  /** Two capsules sealed in the same millisecond get the same id: ids are
      unique only while sealing times are. */
  lemma SameMillisecondSameId(a: Capsule, b: Capsule, now: int)
    requires a.id == IdFor(now) && b.id == IdFor(now)
    ensures !UniqueIds([a, b])
  {
    assert [a, b][0].id == [a, b][1].id;
  }

  /** Editing content keeps ids unique and keeps them derived from sealing
      times, because an edit never touches id or sealing time. */
  lemma UpdateKeepsIds(store: seq<Capsule>, id: string, title: string, message: string, unlockTime: int)
    requires UniqueIds(store) && IdsFromSealTimes(store)
    ensures var r := UpdateContent(store, id, title, message, unlockTime);
            UniqueIds(r) && IdsFromSealTimes(r)
  {
  }

  /** Deleting keeps ids unique and derived from sealing times. */
  lemma RemoveKeepsIds(store: seq<Capsule>, id: string)
    requires UniqueIds(store) && IdsFromSealTimes(store)
    ensures UniqueIds(RemoveId(store, id)) && IdsFromSealTimes(RemoveId(store, id))
  {
    RemoveKeepsUnique(store, id);
    var r := RemoveId(store, id);
    forall i | 0 <= i < |r| ensures r[i].id == IdFor(r[i].sealedTime) {
      assert r[i] in store;
    }
  }

  lemma UniqueCons(c: Capsule, t: seq<Capsule>)
    requires UniqueIds(t)
    requires forall x :: x in t ==> x.id != c.id
    ensures UniqueIds([c] + t)
  {
    var r := [c] + t;
    forall i, j | 0 <= i < j < |r| ensures r[i].id != r[j].id {
      assert r[j] == t[j - 1];
      if i > 0 { assert r[i] == t[i - 1]; }
    }
  }

  lemma {:induction false} RemoveKeepsUnique(store: seq<Capsule>, id: string)
    requires UniqueIds(store)
    ensures UniqueIds(RemoveId(store, id))
  {
    if store != [] {
      var rest := store[1..];
      assert UniqueIds(rest) by {
        forall i, j | 0 <= i < j < |rest| ensures rest[i].id != rest[j].id {
          assert rest[i] == store[i + 1] && rest[j] == store[j + 1];
        }
      }
      RemoveKeepsUnique(rest, id);
      if store[0].id != id {
        var tail := RemoveId(rest, id);
        forall c | c in tail ensures c.id != store[0].id {
          var k :| 0 <= k < |rest| && rest[k] == c;
          assert store[k + 1] == c;
        }
        UniqueCons(store[0], tail);
      }
    }
  }
}
