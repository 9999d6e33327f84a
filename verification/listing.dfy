/** The list of preserved capsules (script.js, renderCapsules) and the
    clicks on its rows (script.js, handleListClick). */
module Listing {
  import opened Wrappers
  import opened Text
  import opened Capsules
  import opened Sorting
  import opened Views

  /** A row button, by its data-action attribute. */
  datatype RowAction = Open | Edit | Delete

  datatype LockState = Sealed | Unlocked

  /** What a row shows under its unlock time: the countdown digits on a
      sealed row, the "Memory ready to revisit" note on an unlocked one. */
  datatype RowBody = CountdownDigits | ReadyNote

  /** One card: the capsule it shows (its id is the card's data-id), the
      card's data-unlock-time attribute text, its lock state, body and
      buttons in order. */
  datatype Row = Row(capsule: Capsule, unlockAttr: string, state: LockState, body: RowBody, actions: seq<RowAction>)

  /** The rendered list, and whether the empty-vault prompt is visible. */
  datatype ListView = ListView(rows: seq<Row>, emptyPrompt: bool)

  /** `Date.now() >= capsule.unlockTime`: the gate between sealed and
      unlocked. */
  predicate IsUnlocked(c: Capsule, now: int) {
    now >= c.unlockTime
  }

  /** The presentation rules a row obeys at `now`: unlocked rows show the
      note and offer Read, sealed rows show a countdown and offer Edit, every
      row ends with Delete, and the unlock-time attribute reads back as the
      capsule's unlock time. */
  predicate FollowsRules(row: Row, now: int) {
    && (row.state == Unlocked <==> IsUnlocked(row.capsule, now))
    && (row.body == CountdownDigits <==> row.state == Sealed)
    && (Open in row.actions <==> row.state == Unlocked)
    && (Edit in row.actions <==> row.state == Sealed)
    && |row.actions| == 2 && row.actions[1] == Delete
    && ParseInt(row.unlockAttr) == Some(row.capsule.unlockTime)
  }

  /** The card for one capsule at `now`. */
  function RowFor(c: Capsule, now: int): (row: Row)
    ensures row.capsule == c
    ensures FollowsRules(row, now)
  {
    var attr := IntToDecimal(c.unlockTime);
    ParseIntOfDecimal(c.unlockTime);
    BuiltRowFollowsRules(c, attr, now);
    if now >= c.unlockTime then
      Row(c, attr, Unlocked, ReadyNote, [Open, Delete])
    else
      Row(c, attr, Sealed, CountdownDigits, [Edit, Delete])
  }

  /** Both shapes of card follow the rules, given an attribute text that
      reads back as the unlock time. */
  lemma BuiltRowFollowsRules(c: Capsule, attr: string, now: int)
    requires ParseInt(attr) == Some(c.unlockTime)
    ensures now >= c.unlockTime ==> FollowsRules(Row(c, attr, Unlocked, ReadyNote, [Open, Delete]), now)
    ensures now < c.unlockTime ==> FollowsRules(Row(c, attr, Sealed, CountdownDigits, [Edit, Delete]), now)
  {
  }

  function RowCapsules(rows: seq<Row>): (cs: seq<Capsule>)
    ensures |cs| == |rows|
    ensures forall i :: 0 <= i < |rows| ==> cs[i] == rows[i].capsule
  {
    seq(|rows|, i requires 0 <= i < |rows| => rows[i].capsule)
  }

  /** `renderCapsules()` at `now`: one row per stored capsule, in a stable
      order of non-decreasing unlock time, each following the presentation
      rules; the empty-vault prompt shows exactly when nothing is stored. */
  function Render(store: seq<Capsule>, now: int): (v: ListView)
    ensures v.emptyPrompt <==> store == []
    ensures |v.rows| == |store|
    ensures SortedByUnlock(RowCapsules(v.rows))
    ensures StablePermutation(store, RowCapsules(v.rows))
    ensures forall i :: 0 <= i < |v.rows| ==> FollowsRules(v.rows[i], now)
  {
    var sorted := SortByUnlock(store);
    var rows := seq(|sorted|, i requires 0 <= i < |sorted| => RowFor(sorted[i], now));
    assert RowCapsules(rows) == sorted;
    ListView(rows, store == [])
  }

  /** The rows come out in exactly the order of the stable sort. */
  lemma RenderOrder(store: seq<Capsule>, now: int)
    ensures RowCapsules(Render(store, now).rows) == SortByUnlock(store)
  {
    var v := Render(store, now);
    SortIsTheStableSort(store, RowCapsules(v.rows));
  }

  /** Because rows are sorted by unlock time, the unlocked rows form a
      prefix of the list and the sealed rows the rest. */
  lemma UnlockedRowsFirst(store: seq<Capsule>, now: int, i: int, j: int)
    requires var v := Render(store, now); 0 <= i < j < |v.rows| && v.rows[j].state == Unlocked
    ensures Render(store, now).rows[i].state == Unlocked
  {
    var v := Render(store, now);
    var cs := RowCapsules(v.rows);
    assert cs[i].unlockTime <= cs[j].unlockTime;
  }

  /** A rendered row is one of the stored capsules. */
  lemma RowIsStored(store: seq<Capsule>, now: int, i: int)
    requires 0 <= i < |Render(store, now).rows|
    ensures Render(store, now).rows[i].capsule in store
  {
    var cs := RowCapsules(Render(store, now).rows);
    assert cs[i] in multiset(cs);
  }

  /** What the reader screen shows for an opened capsule; an empty location
      is shown as "Unknown". */
  datatype ReaderPage = ReaderPage(title: string, message: string, sealedTime: int, location: string)

  /** The effect of one click in the list. */
  datatype ClickEffect =
    | NoEffect
    | EditorOpened(capsule: Capsule)
    | Deleted(store: seq<Capsule>, notice: Toast)
    | ReaderOpened(page: ReaderPage)

  const DeletedNotice := Toast("Capsule deleted.", Error)

  /** `handleListClick`: `action` is the data-action of the clicked button
      (None for a click beside every button), `id` the card's data-id, and
      `confirmed` the answer to the delete confirmation. The capsule is
      looked up by id in the stored collection; without it nothing happens. */
  function Click(store: seq<Capsule>, action: Option<RowAction>, id: string, confirmed: bool): (r: ClickEffect)
    ensures r.NoEffect? <==> action.None? || !HasId(store, id) || (action == Some(Delete) && !confirmed)
    ensures r.EditorOpened? <==> action == Some(Edit) && HasId(store, id)
    ensures r.EditorOpened? ==> r.capsule.id == id && r.capsule == store[FirstIndexOf(store, id).value]
    ensures r.Deleted? <==> action == Some(Delete) && HasId(store, id) && confirmed
    ensures r.Deleted? ==>
              && r.notice == DeletedNotice
              && !HasId(r.store, id)
              && IsSubsequence(r.store, store)
              && (forall c :: c in store && c.id != id ==> c in r.store)
    ensures r.ReaderOpened? <==> action == Some(Open) && HasId(store, id)
    ensures r.ReaderOpened? ==>
              var c := store[FirstIndexOf(store, id).value];
              && r.page.title == c.title && r.page.message == c.message
              && r.page.sealedTime == c.sealedTime
              && r.page.location == (if c.location == "" then "Unknown" else c.location)
  {
    match FirstIndexOf(store, id)
    case None => NoEffect
    case Some(k) =>
      var c := store[k];
      match action
      case None => NoEffect
      case Some(Edit) => EditorOpened(c)
      case Some(Delete) =>
        if confirmed then
          var rest := RemoveId(store, id);
          assert !HasId(rest, id) by {
            forall i | 0 <= i < |rest| ensures rest[i].id != id {
              assert rest[i] in rest;
            }
          }
          Deleted(rest, DeletedNotice)
        else NoEffect
      case Some(Open) =>
        ReaderOpened(ReaderPage(c.title, c.message, c.sealedTime, if c.location == "" then "Unknown" else c.location))
  }

  /** With unique ids, a record is the first record with its own id. */
  lemma FirstIndexOfStored(store: seq<Capsule>, c: Capsule)
    requires UniqueIds(store) && c in store
    ensures HasId(store, c.id) && store[FirstIndexOf(store, c.id).value] == c
  {
    var i :| 0 <= i < |store| && store[i] == c;
    var k := FirstIndexOf(store, c.id).value;
    assert !(k < i) && !(i < k);
  }

  /** Reading is reachable only from an unlocked row: clicking Read on a
      rendered row opens exactly that capsule, and it is unlocked. */
  lemma ReadFromRow(store: seq<Capsule>, now: int, i: int)
    requires UniqueIds(store)
    requires 0 <= i < |Render(store, now).rows| && Open in Render(store, now).rows[i].actions
    ensures var c := Render(store, now).rows[i].capsule;
            && IsUnlocked(c, now)
            && Click(store, Some(Open), c.id, false)
               == ReaderOpened(ReaderPage(c.title, c.message, c.sealedTime, if c.location == "" then "Unknown" else c.location))
  {
    var c := Render(store, now).rows[i].capsule;
    RowIsStored(store, now, i);
    FirstIndexOfStored(store, c);
  }

  /** Confirming Delete on a rendered row, with unique ids, removes exactly
      that capsule: one record fewer, and no row of any later rendering
      shows its id. */
  lemma DeleteFromRow(store: seq<Capsule>, now: int, i: int, later: int)
    requires UniqueIds(store)
    requires 0 <= i < |Render(store, now).rows|
    ensures var c := Render(store, now).rows[i].capsule;
            var r := Click(store, Some(Delete), c.id, true);
            && r.Deleted?
            && |r.store| == |store| - 1
            && forall j :: 0 <= j < |Render(r.store, later).rows| ==> Render(r.store, later).rows[j].capsule.id != c.id
  {
    var c := Render(store, now).rows[i].capsule;
    RowIsStored(store, now, i);
    FirstIndexOfStored(store, c);
    var r := Click(store, Some(Delete), c.id, true);
    ConfirmedDeleteRemoves(store, c.id);
    RemoveUniqueId(store, c.id);
    RenderedIdsAreStored(r.store, later, c.id);
  }

  /** A confirmed Delete of a stored id stores the collection without it. */
  lemma ConfirmedDeleteRemoves(store: seq<Capsule>, id: string)
    requires HasId(store, id)
    ensures Click(store, Some(Delete), id, true) == Deleted(RemoveId(store, id), DeletedNotice)
  {
  }

  /** No rendered row shows an id the store does not hold. */
  lemma RenderedIdsAreStored(store: seq<Capsule>, now: int, id: string)
    requires !HasId(store, id)
    ensures forall j :: 0 <= j < |Render(store, now).rows| ==> Render(store, now).rows[j].capsule.id != id
  {
    forall j | 0 <= j < |Render(store, now).rows| ensures Render(store, now).rows[j].capsule.id != id {
      RowIsStored(store, now, j);
    }
  }
}
