/** ftpdataio.c, handle_io: after every piece of data I/O the session sleeps long enough to bring the
    rate back under its limit. Time and the pause are real numbers; the rate is converted to a 32-bit
    unsigned integer, which truncates it if it is in range and is undefined if not. */
module RateLimit {

  /** One I/O on the data connection: `bytes` moved by the time `now`; `woke` is the time after the
      sleep, if there is one; `junk` is what the conversion of the rate yields where it is undefined. */
  datatype Io = Io(bytes: int, now: real, woke: real, junk: int)

  /** What the handler takes as elapsed time: a clock that has not advanced counts as 0.01 s. */
  function Elapsed(start: real, now: real): (e: real)
    ensures e > 0.0
  {
    if now - start <= 0.0 then 0.01 else now - start
  }

  const UINT_RANGE := 4294967296.0

  /** The rate fits the integer it is converted to. */
  predicate InRange(start: real, io: Io) {
    io.bytes as real < UINT_RANGE * Elapsed(start, io.now)
  }

  function Rate(start: real, io: Io): int {
    if InRange(start, io) then (io.bytes as real / Elapsed(start, io.now)).Floor else io.junk
  }

  /** The condition is exact: what is in range is below 2^32, and nothing else is. */
  lemma InRangeExact(start: real, io: Io)
    ensures InRange(start, io) <==> (io.bytes as real / Elapsed(start, io.now)).Floor < 0x1_0000_0000
  {
    hide Elapsed;
    Quotient(io.bytes as real, Elapsed(start, io.now));
  }

  lemma Quotient(b: real, e: real)
    requires e > 0.0
    ensures b / e < UINT_RANGE <==> b < UINT_RANGE * e
  {
    var q := b / e;
    assert q * e == b;
    if q < UINT_RANGE {
      MulLess(q, UINT_RANGE, e);
    } else if q > UINT_RANGE {
      MulLess(UINT_RANGE, q, e);
    }
  }

  function Pause(max: nat, start: real, io: Io): (p: real)
    requires 0 < max < Rate(start, io)
    ensures p > 0.0
  {
    RatioAboveOne(Rate(start, io), max);
    (Rate(start, io) as real / max as real - 1.0) * Elapsed(start, io.now)
  }

  lemma RatioAboveOne(rate: int, max: nat)
    requires 0 < max < rate
    ensures rate as real / max as real > 1.0
  {
  }

  /** The clock does not run backwards, a sleep lasts at least as long as asked, and the rate is in range. */
  ghost predicate Timely(max: nat, start: real, io: Io)
    requires max > 0
  {
    start <= io.now && InRange(start, io) && (Rate(start, io) > max ==> io.woke >= io.now + Pause(max, start, io))
  }

  /** Where the next measurement starts. */
  function NextStart(max: nat, start: real, io: Io): real {
    if Rate(start, io) <= max then io.now else io.woke
  }

  // ---------------------------------------------------------------- one step

  /** What may be moved in a time at a rate, and one byte per second more. */
  function Budget(rate: int, time: real): real {
    (rate as real + 1.0) * time
  }

  lemma MulLess(a: real, b: real, c: real)
    requires a < b && c > 0.0
    ensures a * c < b * c
  {
  }

  lemma FloorBound(start: real, io: Io)
    requires InRange(start, io)
    ensures io.bytes as real < Budget(Rate(start, io), Elapsed(start, io.now))
  {
    hide Elapsed, InRange, Budget;
    BelowNext(io.bytes as real, Elapsed(start, io.now));
  }

  lemma BelowNext(b: real, e: real)
    requires e > 0.0
    ensures b < Budget((b / e).Floor, e)
  {
    var q := b / e;
    assert q * e == b;
    MulLess(q, q.Floor as real + 1.0, e);
  }

  /** A rate above the limit, spread over the pause as well, falls back below it. */
  lemma PausedBound(rate: int, max: nat, elapsed: real, total: real)
    requires 0 < max < rate && elapsed > 0.0 && total >= rate as real / max as real * elapsed
    ensures Budget(rate, elapsed) <= Budget(max, total)
  {
    var m, r := max as real, rate as real;
    var ratio := r / m;
    assert ratio * m == r && ratio >= 1.0;
    calc {
      (m + 1.0) * total;
    >=
      (m + 1.0) * (ratio * elapsed);
    ==
      (ratio * m) * elapsed + ratio * elapsed;
    >= { assert ratio * elapsed >= 1.0 * elapsed; }
      r * elapsed + elapsed;
    }
  }

  /** The grace an I/O gets when the clock stood still. */
  function Grace(start: real, io: Io): real {
    if io.now == start then 0.01 else 0.0
  }

  /** What one step takes, with its pause. */
  function Taken(max: nat, start: real, io: Io): real {
    NextStart(max, start, io) - start + Grace(start, io)
  }

  /** One step stays below the limit plus one byte per second. */
  lemma StepBound(max: nat, start: real, io: Io)
    requires max > 0 && io.bytes > 0 && Timely(max, start, io)
    ensures io.bytes as real < Budget(max, Taken(max, start, io))
  {
    hide Budget, Rate, Taken, Elapsed, InRange;
    FloorBound(start, io);
    if Rate(start, io) <= max {
      SteadyTotal(max, start, io);
      LimitTimes(Rate(start, io), max, Elapsed(start, io.now));
    } else {
      PausedTotal(max, start, io);
      PausedBound(Rate(start, io), max, Elapsed(start, io.now), Taken(max, start, io));
    }
  }

  /** Without a pause a step takes the time that was measured. */
  lemma SteadyTotal(max: nat, start: real, io: Io)
    requires max > 0 && Timely(max, start, io) && Rate(start, io) <= max
    ensures Taken(max, start, io) == Elapsed(start, io.now)
  {
    hide Rate;
  }

  lemma LimitTimes(rate: int, max: nat, elapsed: real)
    requires rate <= max && elapsed > 0.0
    ensures Budget(rate, elapsed) <= Budget(max, elapsed)
  {
  }

  /** With a pause it takes at least the measured time stretched by the excess. */
  lemma PausedTotal(max: nat, start: real, io: Io)
    requires 0 < max < Rate(start, io) && Timely(max, start, io)
    ensures Taken(max, start, io) >= Rate(start, io) as real / max as real * Elapsed(start, io.now)
  {
    hide Rate;
    Stretched(Rate(start, io) as real / max as real, Elapsed(start, io.now));
  }

  lemma Stretched(ratio: real, elapsed: real)
    ensures elapsed + (ratio - 1.0) * elapsed == ratio * elapsed
  {
  }

  // ---------------------------------------------------------------- whole transfers

  ghost predicate TimelyRun(max: nat, start: real, ios: seq<Io>)
    requires max > 0
    decreases |ios|
  {
    ios == [] || (ios[0].bytes > 0 && Timely(max, start, ios[0]) && TimelyRun(max, NextStart(max, start, ios[0]), ios[1..]))
  }

  function RunEnd(max: nat, start: real, ios: seq<Io>): real
    decreases |ios|
  {
    if ios == [] then start else RunEnd(max, NextStart(max, start, ios[0]), ios[1..])
  }

  function TotalBytes(ios: seq<Io>): int {
    if ios == [] then 0 else ios[0].bytes + TotalBytes(ios[1..])
  }

  function TotalGrace(max: nat, start: real, ios: seq<Io>): real
    decreases |ios|
  {
    if ios == [] then 0.0 else Grace(start, ios[0]) + TotalGrace(max, NextStart(max, start, ios[0]), ios[1..])
  }

  lemma AddBounds(x: real, y: real, max: nat, a: real, b: real)
    requires x < Budget(max, a) && y <= Budget(max, b)
    ensures x + y < Budget(max, a + b)
  {
  }

  /** What a run may use up: the time that passed including the pauses, and the grace. */
  function Allowance(max: nat, start: real, ios: seq<Io>): real {
    RunEnd(max, start, ios) - start + TotalGrace(max, start, ios)
  }

  /** Over any run of consecutive I/O steps the bytes moved stay within the limit plus one byte per
      second, over the time that passed including the pauses, with a hundredth of a second of grace for
      each step at which the clock stood still. */
  lemma {:induction false} RunBound(max: nat, start: real, ios: seq<Io>)
    requires max > 0 && TimelyRun(max, start, ios)
    ensures TotalBytes(ios) as real <= Budget(max, Allowance(max, start, ios))
    ensures ios != [] ==> TotalBytes(ios) as real < Budget(max, Allowance(max, start, ios))
    decreases |ios|
  {
    hide NextStart, Grace, Timely;
    if ios != [] {
      var next := NextStart(max, start, ios[0]);
      StepBound(max, start, ios[0]);
      RunBound(max, next, ios[1..]);
      var a, b := Taken(max, start, ios[0]), Allowance(max, next, ios[1..]);
      AddBounds(ios[0].bytes as real, TotalBytes(ios[1..]) as real, max, a, b);
      assert Allowance(max, start, ios) == a + b;
    }
  }

  ghost predicate StrictClock(max: nat, start: real, ios: seq<Io>)
    decreases |ios|
  {
    ios == [] || (start < ios[0].now && StrictClock(max, NextStart(max, start, ios[0]), ios[1..]))
  }

  lemma {:induction false} NoGrace(max: nat, start: real, ios: seq<Io>)
    requires StrictClock(max, start, ios)
    ensures TotalGrace(max, start, ios) == 0.0
    decreases |ios|
  {
    if ios != [] {
      NoGrace(max, NextStart(max, start, ios[0]), ios[1..]);
    }
  }

  /** With a clock that advances between any two steps the limit holds as it stands. */
  lemma StrictRunBound(max: nat, start: real, ios: seq<Io>)
    requires max > 0 && ios != [] && TimelyRun(max, start, ios) && StrictClock(max, start, ios)
    ensures TotalBytes(ios) as real < (max as real + 1.0) * (RunEnd(max, start, ios) - start)
  {
    hide TimelyRun, StrictClock, RunEnd, TotalGrace, TotalBytes;
    RunBound(max, start, ios);
    NoGrace(max, start, ios);
  }

  /** The strict clock is needed: at a standstill data passes in no time at all. */
  lemma StandstillExceeds()
    ensures var io := Io(5, 0.0, 0.0, 0);
            TimelyRun(1000, 0.0, [io]) && RunEnd(1000, 0.0, [io]) == 0.0 && TotalBytes([io]) == 5
  {
    var io := Io(5, 0.0, 0.0, 0);
    assert Rate(0.0, io) == 500;
    assert TotalBytes([io]) == 5 + TotalBytes([]);
    assert [io][1..] == [];
    assert TimelyRun(1000, 0.0, []);
  }

  // ---------------------------------------------------------------- no more than needed

  lemma RateBelow(b: real, e: real)
    requires e > 0.0
    ensures (b / e).Floor as real * e <= b
  {
    var q := b / e;
    assert q * e == b;
    TimesMonotone(q.Floor as real, q, e);
  }

  lemma TimesMonotone(a: real, b: real, e: real)
    requires a <= b && e > 0.0
    ensures a * e <= b * e
  {
  }

  lemma Spread(rate: real, max: real, e: real)
    requires max > 0.0
    ensures max * (e + (rate / max - 1.0) * e) == rate * e
  {
    var ratio := rate / max;
    Stretched(ratio, e);
    assert max * ratio == rate;
    assert max * (ratio * e) == (max * ratio) * e;
  }

  /** A pause never pushes the rate below the limit: what was moved would have taken as long at the limit. */
  lemma PauseNeeded(max: nat, start: real, io: Io)
    requires InRange(start, io) && 0 < max < Rate(start, io)
    ensures max as real * (Elapsed(start, io.now) + Pause(max, start, io)) <= io.bytes as real
  {
    hide Elapsed, InRange;
    RateBelow(io.bytes as real, Elapsed(start, io.now));
    Spread(Rate(start, io) as real, max as real, Elapsed(start, io.now));
  }

  /** Sleeps end when they should. */
  ghost predicate Punctual(max: nat, start: real, io: Io)
    requires max > 0
  {
    start <= io.now && InRange(start, io) && (Rate(start, io) > max ==> io.woke == io.now + Pause(max, start, io))
  }

  /** What a step is allowed to cost at the limit: its bytes, or the time it took by itself if that is more. */
  function Due(max: nat, start: real, io: Io): real {
    var own := max as real * Elapsed(start, io.now);
    if io.bytes as real > own then io.bytes as real else own
  }

  lemma StepNeeded(max: nat, start: real, io: Io)
    requires max > 0 && Punctual(max, start, io)
    ensures max as real * Taken(max, start, io) <= Due(max, start, io)
  {
    hide Rate, InRange, Elapsed, Taken;
    if Rate(start, io) <= max {
      TakenSteady(max, start, io);
    } else {
      TakenPaused(max, start, io);
      PauseNeeded(max, start, io);
    }
  }

  lemma TakenSteady(max: nat, start: real, io: Io)
    requires start <= io.now && Rate(start, io) <= max
    ensures Taken(max, start, io) == Elapsed(start, io.now)
  {
    hide Rate;
  }

  lemma TakenPaused(max: nat, start: real, io: Io)
    requires start <= io.now && 0 < max < Rate(start, io) && io.woke == io.now + Pause(max, start, io)
    ensures Taken(max, start, io) == Elapsed(start, io.now) + Pause(max, start, io)
  {
    hide Rate, Pause;
  }

  ghost predicate PunctualRun(max: nat, start: real, ios: seq<Io>)
    requires max > 0
    decreases |ios|
  {
    ios == [] || (Punctual(max, start, ios[0]) && PunctualRun(max, NextStart(max, start, ios[0]), ios[1..]))
  }

  function TotalDue(max: nat, start: real, ios: seq<Io>): real
    decreases |ios|
  {
    if ios == [] then 0.0 else Due(max, start, ios[0]) + TotalDue(max, NextStart(max, start, ios[0]), ios[1..])
  }

  lemma AddNeeds(m: real, a: real, b: real, x: real, y: real)
    requires m * a <= x && m * b <= y
    ensures m * (a + b) <= x + y
  {
  }

  /** Over any run with punctual sleeps, the limit slows a transfer down no more than it must: the whole
      time, at the limit, is no more than what each step moved or took by itself. */
  lemma {:induction false} RunNeeded(max: nat, start: real, ios: seq<Io>)
    requires max > 0 && PunctualRun(max, start, ios)
    ensures max as real * Allowance(max, start, ios) <= TotalDue(max, start, ios)
    decreases |ios|
  {
    hide NextStart, Grace, Punctual, Due, Taken;
    if ios != [] {
      var next := NextStart(max, start, ios[0]);
      StepNeeded(max, start, ios[0]);
      RunNeeded(max, next, ios[1..]);
      var a, b := Taken(max, start, ios[0]), Allowance(max, next, ios[1..]);
      AddNeeds(max as real, a, b, Due(max, start, ios[0]), TotalDue(max, next, ios[1..]));
      assert Allowance(max, start, ios) == a + b by {
        AllowanceStep(max, start, ios);
      }
    } else {
      AllowanceNone(max, start);
    }
  }

  lemma AllowanceStep(max: nat, start: real, ios: seq<Io>)
    requires ios != []
    ensures Allowance(max, start, ios) == Taken(max, start, ios[0]) + Allowance(max, NextStart(max, start, ios[0]), ios[1..])
  {
    hide NextStart, Grace;
  }

  lemma AllowanceNone(max: nat, start: real)
    ensures Allowance(max, start, []) == 0.0
  {
  }

  /** So is the range: a full buffer within ten microseconds may be taken for no rate at all, and then
      nothing is done about it. */
  lemma OutOfRangeExceeds()
    ensures var io := Io(65536, 0.00001, 0.00001, 0);
            && !InRange(0.0, io) && NextStart(1000, 0.0, io) == io.now
            && io.bytes as real > Budget(1000, NextStart(1000, 0.0, io))
  {
  }

  // ---------------------------------------------------------------- the handler

  class Meter {
    var dataFd: int
    var rateMax: nat
    var start: real
    var progress: bool

    /** handle_io; `clock` is the time read on entry and `woke` the time read after a sleep; `junk` is the
        outcome of an undefined conversion. */
    method HandleIo(retval: int, fd: int, clock: real, woke: real, junk: int) returns (pause: real)
      modifies this`start, this`progress
      ensures var counts := fd == dataFd && retval > 0;
              && progress == (old(progress) || counts)
              && (!counts || rateMax == 0 ==> start == old(start) && pause == 0.0)
              && (counts && rateMax > 0 ==>
                    var io := Io(retval, clock, woke, junk);
                    && start == NextStart(rateMax, old(start), io)
                    && pause == if Rate(old(start), io) > rateMax then Pause(rateMax, old(start), io) else 0.0)
    {
      pause := 0.0;
      if dataFd != fd || retval < 0 || retval == 0 {
        return;
      }
      progress := true;
      if rateMax == 0 {
        return;
      }
      var elapsed := clock - start;
      if elapsed <= 0.0 {
        elapsed := 0.01;
      }
      var rate := if retval as real < UINT_RANGE * elapsed then (retval as real / elapsed).Floor else junk;
      if rate <= rateMax {
        start := clock;
        return;
      }
      var ratio := rate as real / rateMax as real;
      pause := (ratio - 1.0) * elapsed;
      start := woke;
    }
  }
}
