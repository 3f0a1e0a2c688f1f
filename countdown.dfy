/**
  The live countdown (`setupCountdown` / `updateCountdown`): on every tick the
  milliseconds left until a fixed target are clamped at zero, floored to whole
  seconds, split into days, hours, minutes and seconds, and written into the
  countdown container as four zero-padded cells.
*/
module Countdown {
  import opened Decimal
  import opened EcmaTime
  import opened PktDate

  /** The live countdown's target: 1 February 2026, 00:00 PKT. */
  function CountdownTarget(): int {
    CreateDateInPKT(Fields(2026, 2, 1, 0, 0, 0))
  }

  /** `diff` after the clamp: the milliseconds left, or 0 once the target is reached. */
  function RemainingMs(target: int, now: int): nat {
    if target - now <= 0 then 0 else target - now
  }

  /** `Math.floor(diff / 1000)`: the whole seconds in a non-negative duration. */
  function WholeSeconds(ms: nat): (s: nat)
    ensures s * 1000 <= ms < (s + 1) * 1000
  {
    ms / 1000
  }

  /** The four numbers the display shows. */
  datatype Parts = Parts(days: int, hours: int, minutes: int, secs: int)

  /** Hours, minutes and seconds within their clock ranges; days not negative. */
  predicate InRange(p: Parts) {
    0 <= p.days && 0 <= p.hours < 24 && 0 <= p.minutes < 60 && 0 <= p.secs < 60
  }

  /** The number of seconds the parts stand for. */
  function Recompose(p: Parts): int {
    p.days * 86400 + p.hours * 3600 + p.minutes * 60 + p.secs
  }

  /** The split of a number of seconds the script computes; on non-negative
      operands JavaScript's `%` agrees with Dafny's. */
  function Breakdown(seconds: nat): Parts {
    Parts(seconds / 86400, (seconds % 86400) / 3600, (seconds % 3600) / 60, seconds % 60)
  }

  /** The split is exact and every part is within its range. */
  lemma BreakdownRecomposes(seconds: nat)
    ensures InRange(Breakdown(seconds)) && Recompose(Breakdown(seconds)) == seconds
  {
    var p := Breakdown(seconds);
    var r := seconds % 86400;
    DivModUnique(seconds, 3600, 24 * p.days + r / 3600, r % 3600);
    DivModUnique(r, 60, 60 * (r / 3600) + (r % 3600) / 60, r % 60);
    DivModUnique(seconds, 60, 1440 * p.days + 60 * (r / 3600) + (r % 3600) / 60, r % 60);
  }

  /** Parts within range are the split of the seconds they stand for: the split
      is the only one with these ranges. */
  lemma RecomposeBreaksDown(p: Parts)
    requires InRange(p)
    ensures Breakdown(Recompose(p)) == p
  {
    var n := Recompose(p);
    DivModUnique(n, 86400, p.days, p.hours * 3600 + p.minutes * 60 + p.secs);
    DivModUnique(n % 86400, 3600, p.hours, p.minutes * 60 + p.secs);
    DivModUnique(n, 3600, 24 * p.days + p.hours, p.minutes * 60 + p.secs);
    DivModUnique(n % 3600, 60, p.minutes, p.secs);
    DivModUnique(n, 60, 1440 * p.days + 60 * p.hours + p.minutes, p.secs);
  }

  /** One cell of the display, `<span><strong>NN</strong><small>Unit</small></span>`
      on its own indented line, followed by what comes after it. */
  function Cell(n: int, unit: string, rest: string): string {
    "\n      <span><strong>" + (Pad2(n) + ("</strong><small>" + unit + "</small></span>" + rest))
  }

  /** The template literal the script assigns to `container.innerHTML`. */
  function Render(p: Parts): string {
    Cell(p.days, "Days", Cell(p.hours, "Hours", Cell(p.minutes, "Minutes", Cell(p.secs, "Seconds", "\n    "))))
  }

  /** What the container holds after a tick at `now`. */
  function DisplayAt(target: int, now: int): string {
    Render(Breakdown(WholeSeconds(RemainingMs(target, now))))
  }

  /** At or after the target the clamp makes every field "00"; nothing negative
      reaches the display. */
  lemma ClampAtZero(target: int, now: int)
    requires target <= now
    ensures RemainingMs(target, now) == 0
    ensures Breakdown(WholeSeconds(RemainingMs(target, now))) == Parts(0, 0, 0, 0)
    ensures DisplayAt(target, now) == Render(Parts(0, 0, 0, 0)) && Pad2(0) == "00"
  {
    assert RemainingMs(target, now) == 0;
    assert WholeSeconds(0) == 0;
    assert Breakdown(0) == Parts(0, 0, 0, 0);
    PadNat(0);
  }

  /** Whole seconds remain exactly when at least one full second is left; in the
      last second before the target the display already reads all zeros. */
  lemma SecondsLeftPositive(target: int, now: int)
    ensures WholeSeconds(RemainingMs(target, now)) > 0 <==> now + 1000 <= target
  {
  }

  /** A second later the whole seconds left drop by exactly one, until they
      reach zero and stay there. */
  lemma OneSecondLater(target: int, now: int)
    ensures WholeSeconds(RemainingMs(target, now + 1000))
            == if WholeSeconds(RemainingMs(target, now)) == 0 then 0 else WholeSeconds(RemainingMs(target, now)) - 1
  {
    var s := WholeSeconds(RemainingMs(target, now));
    if target - now >= 1000 {
      DivModUnique(target - now - 1000, 1000, s - 1, (target - now) % 1000);
    }
  }

  /** The seconds left never increase as time goes on. */
  lemma RemainingNeverIncreases(target: int, now: int, later: int)
    requires now <= later
    ensures WholeSeconds(RemainingMs(target, later)) <= WholeSeconds(RemainingMs(target, now))
  {
  }

  /** 90061 seconds are 1 day, 1 hour, 1 minute and 1 second, shown as "01" each. */
  lemma BreakdownExample()
    ensures Breakdown(90061) == Parts(1, 1, 1, 1)
    ensures Pad2(1) == "01"
  {
    PadNat(1);
  }

  /** A cell shows its count unambiguously: equal cells hold equal counts and are
      followed by equal text. */
  lemma CellInjective(n: nat, m: nat, unit: string, r1: string, r2: string)
    requires Cell(n, unit, r1) == Cell(m, unit, r2)
    ensures n == m && r1 == r2
  {
    var head := "\n      <span><strong>";
    var t1 := Pad2(n) + ("</strong><small>" + unit + "</small></span>" + r1);
    var t2 := Pad2(m) + ("</strong><small>" + unit + "</small></span>" + r2);
    assert t1 == (head + t1)[|head|..] && t2 == (head + t2)[|head|..];
    PadNat(n);
    PadNat(m);
    DigitRunSplit(Pad2(n), "</strong><small>" + unit + "</small></span>" + r1,
                    Pad2(m), "</strong><small>" + unit + "</small></span>" + r2);
    var mid := "</strong><small>" + unit + "</small></span>";
    assert r1 == (mid + r1)[|mid|..] && r2 == (mid + r2)[|mid|..];
  }

  /** The display determines the countdown: two ticks that render the same
      text showed the same days, hours, minutes and seconds. */
  lemma RenderInjective(p: Parts, q: Parts)
    requires InRange(p) && InRange(q)
    requires Render(p) == Render(q)
    ensures p == q
  {
    var r3p := Cell(p.secs, "Seconds", "\n    ");
    var r3q := Cell(q.secs, "Seconds", "\n    ");
    var r2p := Cell(p.minutes, "Minutes", r3p);
    var r2q := Cell(q.minutes, "Minutes", r3q);
    var r1p := Cell(p.hours, "Hours", r2p);
    var r1q := Cell(q.hours, "Hours", r2q);
    CellInjective(p.days, q.days, "Days", r1p, r1q);
    CellInjective(p.hours, q.hours, "Hours", r2p, r2q);
    CellInjective(p.minutes, q.minutes, "Minutes", r3p, r3q);
    CellInjective(p.secs, q.secs, "Seconds", "\n    ", "\n    ");
  }

  /** The countdown container of the page: the target it counts to and the
      markup it currently shows. */
  class CountdownTimer {
    const target: int
    var display: string

    /** `setupCountdown`: fix the target, then tick once straight away. */
    constructor (now: int)
      ensures target == CountdownTarget()
      ensures display == DisplayAt(target, now)
    {
      target := CountdownTarget();
      new;
      Tick(now);
    }

    /** `updateCountdown`: recompute everything from the target and the current
        time and overwrite the display. */
    method Tick(now: int)
      modifies this
      ensures display == DisplayAt(target, now)
      ensures target <= now ==> display == Render(Parts(0, 0, 0, 0))
    {
      var diff := target - now;
      if diff <= 0 {
        diff := 0;
      }
      assert diff == RemainingMs(target, now);
      var seconds := diff / 1000;
      assert seconds == WholeSeconds(diff);
      var days := seconds / (60 * 60 * 24);
      var hours := (seconds % (60 * 60 * 24)) / (60 * 60);
      var minutes := (seconds % (60 * 60)) / 60;
      var secs := seconds % 60;
      var parts := Parts(days, hours, minutes, secs);
      assert parts == Breakdown(seconds);
      display := Render(parts);
      if target <= now {
        ClampAtZero(target, now);
      }
    }
  }
}
