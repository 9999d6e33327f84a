/** Submitting the capsule form (script.js, handleFormSubmit): validate the
    fields, then either edit the record named by the hidden id field or seal
    a new capsule at the end of the collection. */
module FormSubmit {
  import opened Wrappers
  import opened Text
  import opened Capsules
  import opened Views

  /** The form's values when it is submitted: the hidden id field (empty in
      create mode), title and message as typed, and the unlock field read as
      a time, None when it does not denote a valid date. */
  datatype FormFields = FormFields(id: string, title: string, message: string, unlockTime: Option<int>)

  /** The form may be saved: title and message are not blank, and the unlock
      time is a valid time strictly after `now`. */
  predicate Acceptable(f: FormFields, now: int) {
    && Trim(f.title) != []
    && Trim(f.message) != []
    && f.unlockTime.Some?
    && f.unlockTime.value > now
  }

  const InvalidNotice := Toast("Please complete all fields with a valid future date.", Error)
  const UpdatedNotice := Toast("Capsule updated successfully!", Success)
  const SealedNotice := Toast("Capsule sealed and sent to the future!", Success)

  /** The collection afterwards, the notification shown, and the screen the
      user is left on. */
  datatype SubmitOutcome = SubmitOutcome(store: seq<Capsule>, notice: Toast, next: Screen)

  /** The capsule sealed at `now` from accepted fields; `location` is what
      the geolocation lookup resolved to. It is well formed, its title and
      message are the typed ones with the surrounding white space cut, and
      its id is the one its sealing time gives. */
  function NewCapsule(f: FormFields, now: int, location: string): (c: Capsule)
    requires Acceptable(f, now)
    ensures WellFormed(c)
    ensures TrimmedFrom(c.title, f.title) && TrimmedFrom(c.message, f.message)
    ensures c.id == IdFor(c.sealedTime) && c.sealedTime == now
    ensures c.unlockTime == f.unlockTime.value && c.location == location
  {
    TrimRemovesOnlySpace(f.title);
    TrimRemovesOnlySpace(f.message);
    Capsule(IdFor(now), Trim(f.title), Trim(f.message), f.unlockTime.value, now, location)
  }

  /** One submit at time `now`. A rejected form leaves the collection as it
      was and shows the error; an accepted one is saved and the list shown.
      In edit mode (non-empty id) the first record with that id gets the
      trimmed title and message and the new unlock time — if no record has
      the id, nothing changes, yet the update is still reported. In create
      mode exactly one capsule is appended. */
  function Submit(store: seq<Capsule>, f: FormFields, now: int, location: string): (r: SubmitOutcome)
    ensures r.notice.kind == Error <==> !Acceptable(f, now)
    ensures !Acceptable(f, now) ==> r.store == store && r.notice == InvalidNotice && r.next == FormScreen
    ensures Acceptable(f, now) ==> r.next == ListScreen
    ensures Acceptable(f, now) && f.id != [] ==>
              && r.notice == UpdatedNotice
              && |r.store| == |store|
              && (!HasId(store, f.id) ==> r.store == store)
    ensures Acceptable(f, now) && f.id == [] ==>
              && r.notice == SealedNotice
              && |r.store| == |store| + 1
              && r.store[..|store|] == store
              && r.store[|store|].id == IdFor(now)
              && r.store[|store|].sealedTime == now
              && r.store[|store|].unlockTime == f.unlockTime.value
              && r.store[|store|].location == location
              && r.store[|store|] == NewCapsule(f, now, location)
  {
    if !Acceptable(f, now) then
      SubmitOutcome(store, InvalidNotice, FormScreen)
    else if f.id != [] then
      SubmitOutcome(UpdateContent(store, f.id, Trim(f.title), Trim(f.message), f.unlockTime.value),
                    UpdatedNotice, ListScreen)
    else
      SubmitOutcome(Append(store, NewCapsule(f, now, location)), SealedNotice, ListScreen)
  }

  /** An accepted edit of a stored id changes that record's title, message
      and unlock time and nothing else: its id, sealing time and location
      stay, and every other record stays. */
  lemma EditKeepsIdentity(store: seq<Capsule>, f: FormFields, now: int, location: string)
    requires Acceptable(f, now) && f.id != [] && HasId(store, f.id)
    ensures var r := Submit(store, f, now, location).store;
            var k := FirstIndexOf(store, f.id).value;
            && |r| == |store|
            && r[k].id == store[k].id && r[k].sealedTime == store[k].sealedTime
            && r[k].location == store[k].location
            && r[k].title == Trim(f.title) && r[k].message == Trim(f.message)
            && r[k].unlockTime == f.unlockTime.value
            && forall i :: 0 <= i < |store| && i != k ==> r[i] == store[i]
  {
  }

  /** A stored record as the form leaves it: title and message trimmed and
      not blank, and an unlock time strictly after its sealing time. */
  predicate WellFormed(c: Capsule) {
    && Unpadded(c.title)
    && Unpadded(c.message)
    && c.sealedTime < c.unlockTime
  }

  /** What holds of any collection this program builds, observed at `now`:
      unique ids derived from sealing times, every capsule sealed before
      `now`, every record well formed. */
  predicate Consistent(store: seq<Capsule>, now: int) {
    && UniqueIds(store)
    && IdsFromSealTimes(store)
    && SealedBefore(store, now)
    && forall i :: 0 <= i < |store| ==> WellFormed(store[i])
  }

  /** Submitting keeps the collection consistent at any later moment: a new
      capsule gets a fresh id and unlocks after it is sealed, and an edit
      keeps the record's id and sealing time and moves its unlock time into
      the future. */
  lemma SubmitKeepsConsistent(store: seq<Capsule>, f: FormFields, now: int, location: string, later: int)
    requires Consistent(store, now) && now < later
    ensures Consistent(Submit(store, f, now, location).store, later)
  {
    if Acceptable(f, now) {
      if f.id != [] {
        EditKeepsConsistent(store, f.id, Trim(f.title), Trim(f.message), f.unlockTime.value, now, later);
      } else {
        SealKeepsConsistent(store, NewCapsule(f, now, location), now, later);
      }
    }
  }

  lemma EditKeepsConsistent(store: seq<Capsule>, id: string, t: string, m: string, u: int, now: int, later: int)
    requires Consistent(store, now) && now < later && now < u
    requires Unpadded(t) && Unpadded(m)
    ensures Consistent(UpdateContent(store, id, t, m, u), later)
  {
    UpdateKeepsIds(store, id, t, m, u);
    var r := UpdateContent(store, id, t, m, u);
    if HasId(store, id) {
      var k := FirstIndexOf(store, id).value;
      forall i | 0 <= i < |r| ensures WellFormed(r[i]) && r[i].sealedTime < later {
        if i == k {
          assert r[k].title == t && r[k].message == m && r[k].unlockTime == u;
          assert r[k].sealedTime == store[k].sealedTime;
        } else {
          assert r[i] == store[i];
        }
      }
    }
  }

  lemma SealKeepsConsistent(store: seq<Capsule>, c: Capsule, now: int, later: int)
    requires Consistent(store, now) && now < later
    requires c.id == IdFor(now) && c.sealedTime == now && WellFormed(c)
    ensures Consistent(Append(store, c), later)
  {
    AppendFreshKeepsUniqueIds(store, c, now);
    var r := Append(store, c);
    forall i | 0 <= i < |r| ensures WellFormed(r[i]) && r[i].sealedTime < later {
      if i < |store| {
        assert r[i] == store[i];
        assert WellFormed(store[i]) && store[i].sealedTime < now;
      }
    }
  }

  /** Deleting keeps the collection consistent: what is left is a part of
      what was there. */
  lemma DeleteKeepsConsistent(store: seq<Capsule>, id: string, now: int)
    requires Consistent(store, now)
    ensures Consistent(RemoveId(store, id), now)
  {
    RemoveKeepsIds(store, id);
    var r := RemoveId(store, id);
    forall i | 0 <= i < |r| ensures WellFormed(r[i]) && r[i].sealedTime < now {
      assert r[i] in store;
      var j :| 0 <= j < |store| && store[j] == r[i];
      assert WellFormed(store[j]) && store[j].sealedTime < now;
    }
  }
}
