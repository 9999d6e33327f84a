/** Opening the edit form on a capsule and saving it again (script.js,
    showFormView with a capsule, then handleFormSubmit). The unlock field is
    a datetime-local input: its value is a wall-clock reading to the minute,
    with no zone, and `new Date(value)` reads it as local time. The time zone
    is a fixed `offset` in minutes, as `getTimezoneOffset()` returns it
    (UTC minus local time). */
module EditForm {
  import opened Wrappers
  import opened Text
  import opened Capsules
  import opened FormSubmit

  /** A wall-clock reading is represented by the milliseconds it would
      denote in UTC; the datetime-local text is its notation. This is the
      reading of `t` cut down to the minute. */
  function MinuteFloor(t: int): (m: int)
    ensures m <= t < m + 60_000 && m % 60_000 == 0
  {
    t - t % 60_000
  }

  /** `new Date(value).getTime()` for a datetime-local value: the reading is
      local time, and UTC is local time plus the offset. */
  function ParseLocal(wall: int, offset: int): int {
    wall + offset * 60_000
  }

  /** The edit form's fields as `showFormView(capsule)` fills them. */
  datatype Prefill = Prefill(id: string, title: string, message: string, wall: int)

  /** As written: `new Date(unlockTime).toISOString().slice(0, 16)` is the
      UTC reading of the unlock time. */
  function PrefillAsWritten(c: Capsule): (f: Prefill)
    ensures f.id == c.id && f.title == c.title && f.message == c.message
    ensures f.wall == MinuteFloor(c.unlockTime)
  {
    Prefill(c.id, c.title, c.message, MinuteFloor(c.unlockTime))
  }

  /** Corrected: the local reading of the unlock time, shifting by the
      offset first, as the form's minimum is computed. Reading the field back
      gives the unlock time cut to the minute, whatever the zone. */
  function PrefillLocal(c: Capsule, offset: int): (f: Prefill)
    ensures f.id == c.id && f.title == c.title && f.message == c.message
    ensures ParseLocal(f.wall, offset) == MinuteFloor(c.unlockTime)
  {
    Prefill(c.id, c.title, c.message, MinuteFloor(c.unlockTime - offset * 60_000))
  }

  /** The form submitted as it was filled. */
  function Resubmit(f: Prefill, offset: int): (fields: FormFields)
    ensures fields.id == f.id && fields.title == f.title && fields.message == f.message
    ensures fields.unlockTime == Some(ParseLocal(f.wall, offset))
  {
    FormFields(f.id, f.title, f.message, Some(ParseLocal(f.wall, offset)))
  }

  /** As written, the unlock time read back from the prefilled form is off
      by the zone offset. */
  lemma AsWrittenReadsBackShifted(c: Capsule, offset: int)
    ensures ParseLocal(PrefillAsWritten(c).wall, offset) == MinuteFloor(c.unlockTime) + offset * 60_000
  {
  }

  /** One hour east of UTC (offset -60), a capsule unlocking at 02:00 UTC
      is shown as 02:00 and read back as 01:00 UTC. */
  lemma AsWrittenCounterexample()
    ensures var c := Capsule("cap_0", "T", "M", 7_200_000, 0, "Unknown");
            ParseLocal(PrefillAsWritten(c).wall, -60) == 3_600_000
  {
  }

  /** As written, saving the edit form unchanged moves the capsule's unlock
      time by the zone offset whenever the offset is not zero (and the moved
      time is still in the future, so the form is accepted). */
  lemma AsWrittenEditMovesUnlock(store: seq<Capsule>, k: int, offset: int, now: int, location: string)
    requires Consistent(store, now) && 0 <= k < |store|
    requires store[k].unlockTime % 60_000 == 0
    requires store[k].unlockTime + offset * 60_000 > now
    ensures var r := Submit(store, Resubmit(PrefillAsWritten(store[k]), offset), now, location).store;
            && |r| == |store|
            && r[k].unlockTime == store[k].unlockTime + offset * 60_000
            && (offset != 0 ==> r != store)
  {
    var c := store[k];
    var u := c.unlockTime + offset * 60_000;
    var f := Resubmit(PrefillAsWritten(c), offset);
    OnMinute(c.unlockTime);
    assert f.unlockTime == Some(u);
    StoredFormAccepted(store, k, f, now);
    FirstIndexOfUnique(store, k);
    SubmitEdits(store, f, now, location);
    EditSetsUnlock(store, k, c.title, c.message, u);
  }

  /** Editing the first record with an id sets its unlock time, so a new
      unlock time changes the collection. */
  lemma EditSetsUnlock(store: seq<Capsule>, k: int, title: string, message: string, u: int)
    requires 0 <= k < |store| && FirstIndexOf(store, store[k].id) == Some(k)
    ensures var r := UpdateContent(store, store[k].id, title, message, u);
            && |r| == |store| && r[k].unlockTime == u
            && (u != store[k].unlockTime ==> r != store)
  {
    assert HasId(store, store[k].id);
  }

  /** Corrected: saving the edit form unchanged gives back the collection
      exactly, for a capsule whose unlock time is on a minute (as every time
      read from the field is) and still in the future. */
  lemma UnchangedEditKeepsStore(store: seq<Capsule>, k: int, offset: int, now: int, location: string)
    requires Consistent(store, now) && 0 <= k < |store|
    requires store[k].unlockTime % 60_000 == 0 && store[k].unlockTime > now
    ensures Submit(store, Resubmit(PrefillLocal(store[k], offset), offset), now, location).store == store
  {
    var c := store[k];
    var f := Resubmit(PrefillLocal(c, offset), offset);
    OnMinute(c.unlockTime);
    StoredFormAccepted(store, k, f, now);
    FirstIndexOfUnique(store, k);
    SubmitEdits(store, f, now, location);
    UpdateWithOwnContent(store, k);
  }

  /** Writing a record's own title, message and unlock time back into it
      changes nothing. */
  lemma UpdateWithOwnContent(store: seq<Capsule>, k: int)
    requires 0 <= k < |store| && FirstIndexOf(store, store[k].id) == Some(k)
    ensures UpdateContent(store, store[k].id, store[k].title, store[k].message, store[k].unlockTime) == store
  {
    var c := store[k];
    var r := UpdateContent(store, c.id, c.title, c.message, c.unlockTime);
    assert HasId(store, c.id);
    assert r[k] == c;
    assert forall i :: 0 <= i < |store| ==> r[i] == store[i];
  }

  lemma OnMinute(t: int)
    requires t % 60_000 == 0
    ensures MinuteFloor(t) == t
  {
  }

  /** An accepted form in edit mode saves the content edit. */
  lemma SubmitEdits(store: seq<Capsule>, f: FormFields, now: int, location: string)
    requires Acceptable(f, now) && f.id != []
    ensures Submit(store, f, now, location).store
            == UpdateContent(store, f.id, Trim(f.title), Trim(f.message), f.unlockTime.value)
  {
  }

  /** A form carrying a stored record's id, title and message and a future
      unlock time is accepted and edits that record. */
  lemma StoredFormAccepted(store: seq<Capsule>, k: int, f: FormFields, now: int)
    requires Consistent(store, now) && 0 <= k < |store|
    requires f.id == store[k].id && f.title == store[k].title && f.message == store[k].message
    requires f.unlockTime.Some? && f.unlockTime.value > now
    ensures Acceptable(f, now) && f.id != [] && HasId(store, f.id)
    ensures Trim(f.title) == store[k].title && Trim(f.message) == store[k].message
  {
    assert WellFormed(store[k]);
    TrimUnpadded(store[k].title);
    TrimUnpadded(store[k].message);
    assert store[k].id == IdFor(store[k].sealedTime);
  }

  lemma FirstIndexOfUnique(store: seq<Capsule>, k: int)
    requires UniqueIds(store) && 0 <= k < |store|
    ensures FirstIndexOf(store, store[k].id) == Some(k)
  {
    var j := FirstIndexOf(store, store[k].id).value;
    assert !(j < k) && !(k < j);
  }
}
