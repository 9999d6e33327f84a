/** The one-second countdown tick over the rendered cards (script.js,
    updateCountdowns). Every card carries a data-unlock-time attribute, so
    every card is visited: one whose unlock time has come asks for a full
    re-render, any other gets its four countdown fields refreshed. */
module Countdown {
  import opened Wrappers
  import opened Text
  import opened Capsules
  import opened Listing

  /** A remaining time split into calendar-free units. */
  datatype Parts = Parts(days: nat, hours: nat, minutes: nat, seconds: nat)

  /** Hours, minutes and seconds within their clock ranges. */
  predicate InRange(p: Parts) {
    p.hours < 24 && p.minutes < 60 && p.seconds < 60
  }

  /** The whole milliseconds the parts stand for. */
  function Milliseconds(p: Parts): int {
    p.days * 86_400_000 + p.hours * 3_600_000 + p.minutes * 60_000 + p.seconds * 1000
  }

  /** The four `Math.floor` divisions applied to a positive remaining time
      `dist`: hours, minutes and seconds are clock readings, and the parts
      account for `dist` up to a remainder of less than one second. */
  function Decompose(dist: int): (p: Parts)
    requires dist > 0
    ensures InRange(p)
    ensures 0 <= dist - Milliseconds(p) < 1000
  {
    var p := Parts(dist / 86_400_000,
                   (dist % 86_400_000) / 3_600_000,
                   (dist % 3_600_000) / 60_000,
                   (dist % 60_000) / 1000);
    DecomposeAccounts(dist);
    p
  }

  /** The arithmetic behind `Decompose`: each remainder is the next unit's
      dividend, because every unit divides the one above it. */
  lemma DecomposeAccounts(x: int)
    requires x > 0
    ensures (x % 86_400_000) / 3_600_000 < 24
    ensures (x % 3_600_000) / 60_000 < 60
    ensures (x % 60_000) / 1000 < 60
    ensures var ms := (x / 86_400_000) * 86_400_000 + ((x % 86_400_000) / 3_600_000) * 3_600_000
                      + ((x % 3_600_000) / 60_000) * 60_000 + ((x % 60_000) / 1000) * 1000;
            0 <= x - ms < 1000
  {
    DayToHour(x);
    HourToMinute(x);
    var ms := (x / 86_400_000) * 86_400_000 + ((x % 86_400_000) / 3_600_000) * 3_600_000
              + ((x % 3_600_000) / 60_000) * 60_000 + ((x % 60_000) / 1000) * 1000;
    assert x - ms == x % 1000 by {
      assert x == (x / 86_400_000) * 86_400_000 + x % 86_400_000;
      assert x % 86_400_000 == ((x % 86_400_000) / 3_600_000) * 3_600_000 + x % 3_600_000;
      assert x % 3_600_000 == ((x % 3_600_000) / 60_000) * 60_000 + x % 60_000;
      MinuteToSecond(x);
    }
  }

  /** The hour remainder of the day remainder is the hour remainder. */
  lemma DayToHour(x: int)
    ensures (x % 86_400_000) % 3_600_000 == x % 3_600_000
  {
    var d, rd := x / 86_400_000, x % 86_400_000;
    var h, rh := rd / 3_600_000, rd % 3_600_000;
    assert x == (d * 24 + h) * 3_600_000 + rh;
    HourQuotient(x, d * 24 + h, rh);
  }

  /** The minute remainder of the hour remainder is the minute remainder. */
  lemma HourToMinute(x: int)
    ensures (x % 3_600_000) % 60_000 == x % 60_000
  {
    var h, rh := x / 3_600_000, x % 3_600_000;
    var m, rm := rh / 60_000, rh % 60_000;
    assert x == (h * 60 + m) * 60_000 + rm;
    MinuteQuotient(x, h * 60 + m, rm);
  }

  /** The minute remainder splits into whole seconds and the millisecond
      remainder. */
  lemma MinuteToSecond(x: int)
    ensures x % 60_000 == ((x % 60_000) / 1000) * 1000 + x % 1000
  {
    var m, rm := x / 60_000, x % 60_000;
    var sec, rs := rm / 1000, rm % 1000;
    assert x == (m * 60 + sec) * 1000 + rs;
    SecondQuotient(x, m * 60 + sec, rs);
  }

  /** The split is the only one: any in-range parts that account for `dist`
      up to a sub-second remainder are the ones `Decompose` computes. */
  lemma DecomposeUnique(dist: int, p: Parts, rest: int)
    requires dist > 0 && InRange(p) && 0 <= rest < 1000
    requires Milliseconds(p) + rest == dist
    ensures Decompose(dist) == p
  {
    var inMinute := p.seconds * 1000 + rest;
    var inHour := p.minutes * 60_000 + inMinute;
    var inDay := p.hours * 3_600_000 + inHour;
    DayQuotient(dist, p.days, inDay);
    HourQuotient(inDay, p.hours, inHour);
    HourQuotient(dist, p.days * 24 + p.hours, inHour);
    MinuteQuotient(inHour, p.minutes, inMinute);
    MinuteQuotient(dist, (p.days * 24 + p.hours) * 60 + p.minutes, inMinute);
    SecondQuotient(inMinute, p.seconds, rest);
  }

  lemma DayQuotient(x: int, q: int, r: int)
    requires x == q * 86_400_000 + r && 0 <= r < 86_400_000
    ensures x / 86_400_000 == q && x % 86_400_000 == r
  {
  }

  lemma HourQuotient(x: int, q: int, r: int)
    requires x == q * 3_600_000 + r && 0 <= r < 3_600_000
    ensures x / 3_600_000 == q && x % 3_600_000 == r
  {
  }

  lemma MinuteQuotient(x: int, q: int, r: int)
    requires x == q * 60_000 + r && 0 <= r < 60_000
    ensures x / 60_000 == q && x % 60_000 == r
  {
  }

  lemma SecondQuotient(x: int, q: int, r: int)
    requires x == q * 1000 + r && 0 <= r < 1000
    ensures x / 1000 == q && x % 1000 == r
  {
  }

  /** Splitting the time that parts in range stand for (plus less than a
      second) gives those parts back. */
  lemma DecomposeMilliseconds(p: Parts, rest: int)
    requires InRange(p) && 0 <= rest < 1000 && Milliseconds(p) + rest > 0
    ensures Decompose(Milliseconds(p) + rest) == p
  {
    DecomposeUnique(Milliseconds(p) + rest, p, rest);
  }

  /** The text of the four countdown fields. */
  datatype Digits = Digits(days: string, hours: string, minutes: string, seconds: string)

  /** `String(part).padStart(2, '0')`: two digits below 100, the plain
      decimal text above. */
  function Field(n: nat): (f: string)
    ensures n < 100 ==> |f| == 2
    ensures n >= 100 ==> f == NatToDecimal(n)
  {
    PaddedPart(n);
    PadStart2(NatToDecimal(n))
  }

  /** A field reads back as the part it shows. */
  lemma FieldReadsBack(n: nat)
    ensures ParseInt(Field(n)) == Some(n as int)
  {
    PaddedPart(n);
  }

  /** The four fields of a split. */
  function DigitsOf(p: Parts): (d: Digits)
    ensures InRange(p) ==> |d.hours| == 2 && |d.minutes| == 2 && |d.seconds| == 2
    ensures p.days < 100 ==> |d.days| == 2
  {
    Digits(Field(p.days), Field(p.hours), Field(p.minutes), Field(p.seconds))
  }

  /** Each of the four fields reads back as its part. */
  lemma DigitsReadBack(p: Parts)
    ensures var d := DigitsOf(p);
            && ParseInt(d.days) == Some(p.days as int) && ParseInt(d.hours) == Some(p.hours as int)
            && ParseInt(d.minutes) == Some(p.minutes as int) && ParseInt(d.seconds) == Some(p.seconds as int)
  {
    FieldReadsBack(p.days);
    FieldReadsBack(p.hours);
    FieldReadsBack(p.minutes);
    FieldReadsBack(p.seconds);
  }

  /** The countdown line as it reads on the card. */
  function CountdownText(d: Digits): string {
    d.days + "d " + d.hours + "h " + d.minutes + "m " + d.seconds + "s"
  }

  /** What one tick does with one card: ask for a re-render, write the split
      of the remaining time into the countdown fields, write NaN into them
      when the attribute does not parse, or fail because the card has no
      countdown fields (writing to a missing element throws, which ends the
      tick's walk over the cards). */
  datatype CardTick = Rerender | Count(parts: Parts) | CountNaN | NoFields

  /** One card at tick time `now`: read the unlock time back from the
      attribute with `parseInt(…, 10)`; if it has come, ask for a re-render,
      otherwise count down the remaining time in the card's fields. */
  function TickCard(row: Row, now: int): CardTick {
    TickAt(ParseInt(row.unlockAttr), row.body == CountdownDigits, now)
  }

  /** A tick given what the attribute parsed to and whether the card has
      countdown fields. */
  function TickAt(unlock: Option<int>, hasFields: bool, now: int): CardTick {
    match unlock
    case None => if hasFields then CountNaN else NoFields
    case Some(t) =>
      if now >= t then Rerender
      else if hasFields then Count(Decompose(t - now))
      else NoFields
  }

  /** The ticks a walk over the cards carries out, given what each card's
      tick would be: all of them up to and including the first failure. */
  function StopAfterFailure(ts: seq<CardTick>): (r: seq<CardTick>)
    ensures |r| <= |ts| && r == ts[..|r|]
    ensures forall i :: 0 <= i < |r| - 1 ==> !r[i].NoFields?
    ensures |r| < |ts| ==> r != [] && r[|r| - 1].NoFields?
    ensures (forall i :: 0 <= i < |ts| ==> !ts[i].NoFields?) ==> r == ts
    ensures forall i :: 0 <= i < |ts| && ts[i].NoFields? ==> |r| <= i + 1
  {
    if ts == [] then []
    else if ts[0].NoFields? then [ts[0]]
    else
      var rest := StopAfterFailure(ts[1..]);
      assert ts == [ts[0]] + ts[1..];
      [ts[0]] + rest
  }

  /** One tick over the rendered cards: they are visited in list order, and
      the walk stops right after the first card whose fields are missing.
      Every visited card gets its own tick; without a failing card every
      card is visited. */
  function Tick(rows: seq<Row>, now: int): (ticks: seq<CardTick>)
    ensures |ticks| <= |rows|
    ensures forall i :: 0 <= i < |ticks| ==> ticks[i] == TickCard(rows[i], now)
    ensures forall i :: 0 <= i < |ticks| - 1 ==> !ticks[i].NoFields?
    ensures |ticks| < |rows| ==> ticks != [] && ticks[|ticks| - 1].NoFields?
    ensures (forall i :: 0 <= i < |rows| ==> !TickCard(rows[i], now).NoFields?) ==> |ticks| == |rows|
    ensures forall i :: 0 <= i < |rows| && TickCard(rows[i], now).NoFields? ==> |ticks| <= i + 1
  {
    var all := seq(|rows|, i requires 0 <= i < |rows| => TickCard(rows[i], now));
    StopAfterFailure(all)
  }

  /** The card's attribute reads back as its capsule's unlock time, as on
      every rendered card. */
  predicate AttributeMatches(row: Row) {
    ParseInt(row.unlockAttr) == Some(row.capsule.unlockTime)
  }

  /** On a card whose attribute holds its unlock time, a tick re-renders
      exactly when the same `now >= unlockTime` gate as the list's says the
      capsule is unlocked. Otherwise it counts down the split of the
      remaining time, which accounts for it to the second, or fails exactly
      when the card has no countdown fields. */
  lemma TickUsesTheUnlockGate(row: Row, now: int)
    requires AttributeMatches(row)
    ensures TickCard(row, now).Rerender? <==> IsUnlocked(row.capsule, now)
    ensures !TickCard(row, now).CountNaN?
    ensures TickCard(row, now).NoFields? <==> !IsUnlocked(row.capsule, now) && row.body != CountdownDigits
    ensures TickCard(row, now).Count? ==>
              var p := TickCard(row, now).parts;
              && p == Decompose(row.capsule.unlockTime - now)
              && 0 <= row.capsule.unlockTime - now - Milliseconds(p) < 1000
  {
    assert TickCard(row, now) == TickAt(Some(row.capsule.unlockTime), row.body == CountdownDigits, now);
  }

  /** A tick at or after the rendering visits every card: sealed cards have
      their fields, and unlocked cards stay unlocked. */
  lemma RenderedCardsAllTick(store: seq<Capsule>, t0: int, t1: int)
    requires t0 <= t1
    ensures |Tick(Render(store, t0).rows, t1)| == |Render(store, t0).rows|
  {
    var rows := Render(store, t0).rows;
    var ticks := Tick(rows, t1);
    forall i | 0 <= i < |rows| ensures !TickCard(rows[i], t1).NoFields? {
      assert FollowsRules(rows[i], t0);
      TickUsesTheUnlockGate(rows[i], t1);
    }
  }

  /** If the clock is set back before the unlock time of a card rendered
      unlocked, the next tick fails on that card at the latest: the walk
      never gets past it. */
  lemma ClockSetBackStopsTick(store: seq<Capsule>, t0: int, t1: int, i: int)
    requires 0 <= i < |Render(store, t0).rows|
    requires t1 < Render(store, t0).rows[i].capsule.unlockTime <= t0
    ensures |Tick(Render(store, t0).rows, t1)| <= i + 1
  {
    var rows := Render(store, t0).rows;
    var ticks := Tick(rows, t1);
    assert FollowsRules(rows[i], t0);
    TickUsesTheUnlockGate(rows[i], t1);
  }

  /** A card rendered unlocked at `t0` asks for a re-render at every later
      tick, not only when its unlock time is crossed: while any unlocked
      capsule is listed, every tick re-renders the list. */
  lemma UnlockedCardRerendersEveryTick(store: seq<Capsule>, t0: int, t1: int, i: int)
    requires t0 <= t1 && 0 <= i < |Render(store, t0).rows|
    requires Render(store, t0).rows[i].state == Unlocked
    ensures i < |Tick(Render(store, t0).rows, t1)|
    ensures Tick(Render(store, t0).rows, t1)[i] == Rerender
  {
    var row := Render(store, t0).rows[i];
    RenderedCardsAllTick(store, t0, t1);
    assert FollowsRules(row, t0);
    TickUsesTheUnlockGate(row, t1);
  }

  /** A rendered card never shows NaN: its attribute always parses. */
  lemma RenderedCardsNeverShowNaN(store: seq<Capsule>, t0: int, t1: int, i: int)
    requires 0 <= i < |Tick(Render(store, t0).rows, t1)|
    ensures Tick(Render(store, t0).rows, t1)[i] != CountNaN
  {
    var row := Render(store, t0).rows[i];
    assert FollowsRules(row, t0);
    TickUsesTheUnlockGate(row, t1);
  }

  /** 90 061 seconds to go read as one day, one hour, one minute and one
      second. */
  lemma NinetyThousandSixtyOneSeconds()
    ensures Decompose(90_061_000) == Parts(1, 1, 1, 1)
    ensures CountdownText(DigitsOf(Decompose(90_061_000))) == "01d 01h 01m 01s"
  {
    DecomposeMilliseconds(Parts(1, 1, 1, 1), 0);
    OnesRead();
  }

  lemma OnesRead()
    ensures CountdownText(DigitsOf(Parts(1, 1, 1, 1))) == "01d 01h 01m 01s"
  {
    FieldOne();
  }

  lemma FieldOne()
    ensures Field(1) == "01"
  {
    assert NatToDecimal(1) == [DigitChar(1)] == "1";
  }
}
