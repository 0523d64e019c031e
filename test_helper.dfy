/** The frame cadence of the integration test (`runFrames`,
    `onEveryNthFrame`, `Screenshot`): a registry of (period, action) pairs
    and a loop that, at every tick, runs the step callback and then every
    registered action whose period divides the tick. Callbacks are opaque:
    `runFrames` returns the calls it makes, in order. */
module TestHelper {
  import Disk

  /** `FrameAction`: a period in frames and a callback, labelled by `A`. */
  datatype FrameAction<A> = FrameAction(frameCount: int, action: A)

  /** One callback invocation: the step at a tick, or the action registered
      in `slot`, called with the tick. */
  datatype Call = Step(tick: int) | Fire(slot: nat, tick: int)

  /** No zero period: `runFrames` computes `i % frame_count`, which C++
      leaves undefined for a zero divisor. */
  predicate WellFormed<A>(actions: seq<FrameAction<A>>) {
    forall k :: 0 <= k < |actions| ==> actions[k].frameCount != 0
  }

  /** An action with period `period` runs at `tick`: `tick % period == 0`.
      For the non-negative ticks of `runFrames`, C++'s truncating `%` and
      Dafny's Euclidean `%` agree on whether the remainder is zero, for
      either sign of the period. A zero period, for which the C++ `%` is
      undefined, never fires here; `WellFormed` schedules have none. */
  predicate FiresAt(period: int, tick: int) {
    period != 0 && tick % period == 0
  }

  /** The calls the actions in slots `0..m` make at `tick`, in slot order. */
  function Fired<A>(actions: seq<FrameAction<A>>, m: nat, tick: int): seq<Call>
    requires m <= |actions|
  {
    if m == 0 then []
    else Fired(actions, m - 1, tick)
         + (if FiresAt(actions[m - 1].frameCount, tick) then [Fire(m - 1, tick)] else [])
  }

  /** One iteration of the outer loop: the step, then the actions. */
  function TickCalls<A>(actions: seq<FrameAction<A>>, tick: int): seq<Call>
  {
    [Step(tick)] + Fired(actions, |actions|, tick)
  }

  /** All calls of `runFrames(n, step)`, ticks `0..n-1` in order. */
  function Schedule<A>(actions: seq<FrameAction<A>>, n: int): seq<Call>
    decreases n
  {
    if n <= 0 then [] else Schedule(actions, n - 1) + TickCalls(actions, n - 1)
  }

  // ---------------------------------------------------------------------
  // An independent description of the schedule: which calls it contains
  // and the order they come in.

  /** Whether `runFrames(n, ...)` makes call `c` at all. */
  predicate Scheduled<A>(actions: seq<FrameAction<A>>, n: int, c: Call)
  {
    match c
    case Step(t) => 0 <= t < n
    case Fire(k, t) => 0 <= t < n && k < |actions| && FiresAt(actions[k].frameCount, t)
  }

  /** Position within a tick: the step comes first, then the slots. */
  function Rank(c: Call): int {
    match c
    case Step(_) => -1
    case Fire(k, _) => k
  }

  /** `c` must be made before `d`: an earlier tick, or the same tick and an
      earlier position within it. */
  predicate Before(c: Call, d: Call) {
    c.tick < d.tick || (c.tick == d.tick && Rank(c) < Rank(d))
  }

  predicate Ordered(calls: seq<Call>) {
    forall p, q :: 0 <= p < q < |calls| ==> Before(calls[p], calls[q])
  }

  lemma {:induction false} FiredMembers<A>(actions: seq<FrameAction<A>>, m: nat, tick: int)
    requires m <= |actions|
    ensures forall c :: c in Fired(actions, m, tick) <==>
              c.Fire? && c.tick == tick && c.slot < m && FiresAt(actions[c.slot].frameCount, tick)
    ensures Ordered(Fired(actions, m, tick))
  {
    if m > 0 {
      FiredMembers(actions, m - 1, tick);
    }
  }

  lemma OrderedAppend(a: seq<Call>, b: seq<Call>)
    requires Ordered(a) && Ordered(b)
    requires forall x, y :: x in a && y in b ==> Before(x, y)
    ensures Ordered(a + b)
  {
    forall p, q | 0 <= p < q < |a + b| ensures Before((a + b)[p], (a + b)[q]) {
      if q < |a| {
      } else if p >= |a| {
        assert (a + b)[p] == b[p - |a|] && (a + b)[q] == b[q - |a|];
      } else {
        assert (a + b)[p] in a && (a + b)[q] in b;
      }
    }
  }

  /** The schedule holds exactly the calls `Scheduled` allows, each before
      the next in `Before` order. Both together determine the schedule: it
      is the scheduled calls sorted by tick, step first, then slot. */
  lemma {:induction false} ScheduleCharacterized<A>(actions: seq<FrameAction<A>>, n: int)
    ensures forall c :: c in Schedule(actions, n) <==> Scheduled(actions, n, c)
    ensures Ordered(Schedule(actions, n))
    decreases n
  {
    if n > 0 {
      var prev := Schedule(actions, n - 1);
      var fired := Fired(actions, |actions|, n - 1);
      var tick := TickCalls(actions, n - 1);
      ScheduleCharacterized(actions, n - 1);
      FiredMembers(actions, |actions|, n - 1);
      OrderedAppend([Step(n - 1)], fired);
      OrderedAppend(prev, tick);
    }
  }

  // ---------------------------------------------------------------------
  // Consequences stated in the test's own terms.

  /** Tick 0 fires every registered action, in registration order. */
  lemma {:induction false} TickZeroFiresAll<A>(actions: seq<FrameAction<A>>, m: nat)
    requires m <= |actions| && WellFormed(actions)
    ensures |Fired(actions, m, 0)| == m
    ensures forall k :: 0 <= k < m ==> Fired(actions, m, 0)[k] == Fire(k, 0)
  {
    if m > 0 {
      TickZeroFiresAll(actions, m - 1);
    }
  }

  /** The first step after an action fired at tick `i` is the step of tick
      `i + 1`: what an action does at tick `i` is seen by the next tick's
      step, and by no step in between. */
  lemma NextStepAfterFire<A>(actions: seq<FrameAction<A>>, n: int, p: nat)
    requires p < |Schedule(actions, n)| && Schedule(actions, n)[p].Fire?
    requires Schedule(actions, n)[p].tick + 1 < n
    ensures var calls := Schedule(actions, n);
            exists q :: p < q < |calls| && calls[q] == Step(calls[p].tick + 1)
                        && forall r :: p < r < q ==> !calls[r].Step?
  {
    var calls := Schedule(actions, n);
    ScheduleCharacterized(actions, n);
    assert calls[p] in calls;
    var next := Step(calls[p].tick + 1);
    assert Scheduled(actions, n, next);
    var q :| 0 <= q < |calls| && calls[q] == next;
    forall r | p < r < q ensures !calls[r].Step? {
      assert Before(calls[p], calls[r]) && Before(calls[r], calls[q]);
    }
  }

  /** The ticks of the steps, in order. */
  function StepTicks(calls: seq<Call>): seq<int> {
    if |calls| == 0 then []
    else StepTicks(calls[..|calls| - 1])
         + (if calls[|calls| - 1].Step? then [calls[|calls| - 1].tick] else [])
  }

  /** The ticks at which the action in `slot` is called, in order. */
  function FireTicks(calls: seq<Call>, slot: nat): seq<int> {
    if |calls| == 0 then []
    else FireTicks(calls[..|calls| - 1], slot)
         + (if calls[|calls| - 1].Fire? && calls[|calls| - 1].slot == slot then [calls[|calls| - 1].tick] else [])
  }

  /** `0, 1, ..., n - 1`. */
  function Upto(n: int): seq<int>
    decreases n
  {
    if n <= 0 then [] else Upto(n - 1) + [n - 1]
  }

  /** The ticks below `n` that period `period` divides, in order. */
  function Multiples(period: int, n: int): seq<int>
    decreases n
  {
    if n <= 0 then [] else Multiples(period, n - 1) + (if FiresAt(period, n - 1) then [n - 1] else [])
  }

  lemma AppendSnoc(a: seq<Call>, b: seq<Call>)
    requires |b| > 0
    ensures (a + b)[..|a + b| - 1] == a + b[..|b| - 1]
    ensures (a + b)[|a + b| - 1] == b[|b| - 1]
  {
  }

  lemma {:induction false} StepTicksAppend(a: seq<Call>, b: seq<Call>)
    ensures StepTicks(a + b) == StepTicks(a) + StepTicks(b)
    decreases |b|
  {
    if |b| == 0 {
      assert a + b == a;
    } else {
      AppendSnoc(a, b);
      StepTicksAppend(a, b[..|b| - 1]);
    }
  }

  lemma {:induction false} FireTicksAppend(a: seq<Call>, b: seq<Call>, slot: nat)
    ensures FireTicks(a + b, slot) == FireTicks(a, slot) + FireTicks(b, slot)
    decreases |b|
  {
    if |b| == 0 {
      assert a + b == a;
    } else {
      AppendSnoc(a, b);
      FireTicksAppend(a, b[..|b| - 1], slot);
    }
  }

  /** Both projections distribute over concatenation. */
  lemma TicksAppend(a: seq<Call>, b: seq<Call>, slot: nat)
    ensures StepTicks(a + b) == StepTicks(a) + StepTicks(b)
    ensures FireTicks(a + b, slot) == FireTicks(a, slot) + FireTicks(b, slot)
  {
    StepTicksAppend(a, b);
    FireTicksAppend(a, b, slot);
  }

  lemma {:induction false} FiredTicks<A>(actions: seq<FrameAction<A>>, m: nat, tick: int, slot: nat)
    requires m <= |actions|
    ensures StepTicks(Fired(actions, m, tick)) == []
    ensures FireTicks(Fired(actions, m, tick), slot) ==
              if slot < m && FiresAt(actions[slot].frameCount, tick) then [tick] else []
  {
    if m > 0 {
      FiredTicks(actions, m - 1, tick, slot);
      FiredOneSlotMore(actions, m, tick, slot);
      OneSlotMore(FireTicks(Fired(actions, m, tick), slot), FireTicks(Fired(actions, m - 1, tick), slot),
                  m, tick, slot, slot < |actions| && FiresAt(actions[slot].frameCount, tick));
    }
  }

  /** The ticks of `slot` after `m` slots, from those after `m - 1`, with
      `fires` telling whether `slot` fires at `tick`. */
  lemma OneSlotMore(whole: seq<int>, prev: seq<int>, m: nat, tick: int, slot: nat, fires: bool)
    requires m > 0
    requires prev == if slot < m - 1 && fires then [tick] else []
    requires whole == prev + if slot == m - 1 && fires then [tick] else []
    ensures whole == if slot < m && fires then [tick] else []
  {
    if slot != m - 1 {
      assert whole == prev + [];
    }
  }

  /** Slot `m - 1` adds no step and adds `tick` to its own ticks exactly
      when it fires. */
  lemma FiredOneSlotMore<A>(actions: seq<FrameAction<A>>, m: nat, tick: int, slot: nat)
    requires 0 < m <= |actions|
    ensures StepTicks(Fired(actions, m, tick)) == StepTicks(Fired(actions, m - 1, tick))
    ensures FireTicks(Fired(actions, m, tick), slot) ==
              FireTicks(Fired(actions, m - 1, tick), slot)
              + if slot == m - 1 && FiresAt(actions[m - 1].frameCount, tick) then [tick] else []
  {
    var prev := Fired(actions, m - 1, tick);
    var extra := if FiresAt(actions[m - 1].frameCount, tick) then [Fire(m - 1, tick)] else [];
    TicksAppend(prev, extra, slot);
    if extra != [] {
      assert extra[..0] == [];
    }
  }

  /** The step and action ticks of one iteration of the outer loop. */
  lemma TickCallsTicks<A>(actions: seq<FrameAction<A>>, tick: int, slot: nat)
    ensures StepTicks(TickCalls(actions, tick)) == [tick]
    ensures FireTicks(TickCalls(actions, tick), slot) ==
              if slot < |actions| && FiresAt(actions[slot].frameCount, tick) then [tick] else []
  {
    var fired := Fired(actions, |actions|, tick);
    TicksAppend([Step(tick)], fired, slot);
    FiredTicks(actions, |actions|, tick, slot);
    StepAloneTicks(tick, slot);
  }

  lemma StepAloneTicks(tick: int, slot: nat)
    ensures StepTicks([Step(tick)]) == [tick]
    ensures FireTicks([Step(tick)], slot) == []
  {
    assert [Step(tick)][..0] == [];
  }

  /** `runFrames(n, step)` calls `step` exactly once per tick `0..n-1`, in
      order. */
  lemma {:induction false} StepOncePerTick<A>(actions: seq<FrameAction<A>>, n: int)
    ensures StepTicks(Schedule(actions, n)) == Upto(n)
    decreases n
  {
    if n > 0 {
      StepOncePerTick(actions, n - 1);
      StepOncePerTickStep(actions, n);
    }
  }

  /** The inductive step of `StepOncePerTick`. */
  lemma StepOncePerTickStep<A>(actions: seq<FrameAction<A>>, n: int)
    requires n > 0
    requires StepTicks(Schedule(actions, n - 1)) == Upto(n - 1)
    ensures StepTicks(Schedule(actions, n)) == Upto(n)
  {
    StepsOneTickMore(actions, n);
  }

  /** One more tick adds exactly one step, that of tick `n - 1`. */
  lemma StepsOneTickMore<A>(actions: seq<FrameAction<A>>, n: int)
    requires n > 0
    ensures StepTicks(Schedule(actions, n)) == StepTicks(Schedule(actions, n - 1)) + [n - 1]
  {
    var prev := Schedule(actions, n - 1);
    assert Schedule(actions, n) == prev + TickCalls(actions, n - 1);
    StepTicksAfterTick(prev, actions, n - 1);
  }

  /** The action in `slot` is called at exactly the ticks below `n` that its
      period divides, once each, in increasing order. */
  lemma {:induction false} FiresOnMultiples<A>(actions: seq<FrameAction<A>>, n: int, slot: nat)
    requires slot < |actions|
    ensures FireTicks(Schedule(actions, n), slot) == Multiples(actions[slot].frameCount, n)
    decreases n
  {
    if n > 0 {
      FiresOnMultiples(actions, n - 1, slot);
      FiresOnMultiplesStep(actions, n, slot);
    }
  }

  /** The inductive step of `FiresOnMultiples`. */
  lemma FiresOnMultiplesStep<A>(actions: seq<FrameAction<A>>, n: int, slot: nat)
    requires slot < |actions| && n > 0
    requires FireTicks(Schedule(actions, n - 1), slot) == Multiples(actions[slot].frameCount, n - 1)
    ensures FireTicks(Schedule(actions, n), slot) == Multiples(actions[slot].frameCount, n)
  {
    FiresOneTickMore(actions, n, slot);
  }

  /** One more tick adds `n - 1` to the action's ticks exactly when its
      period divides `n - 1`. */
  lemma FiresOneTickMore<A>(actions: seq<FrameAction<A>>, n: int, slot: nat)
    requires slot < |actions| && n > 0
    ensures FireTicks(Schedule(actions, n), slot) ==
              FireTicks(Schedule(actions, n - 1), slot)
              + if FiresAt(actions[slot].frameCount, n - 1) then [n - 1] else []
  {
    var prev := Schedule(actions, n - 1);
    assert Schedule(actions, n) == prev + TickCalls(actions, n - 1);
    FireTicksAfterTick(prev, actions, n - 1, slot);
  }

  /** The calls of one tick add that tick to the step ticks of any earlier
      calls. */
  lemma StepTicksAfterTick<A>(prefix: seq<Call>, actions: seq<FrameAction<A>>, tick: int)
    ensures StepTicks(prefix + TickCalls(actions, tick)) == StepTicks(prefix) + [tick]
  {
    TickCallsTicks(actions, tick, 0);
    StepTicksAppend(prefix, TickCalls(actions, tick));
  }

  /** The calls of one tick add that tick to an action's ticks exactly when
      the action fires at it. */
  lemma FireTicksAfterTick<A>(prefix: seq<Call>, actions: seq<FrameAction<A>>, tick: int, slot: nat)
    ensures FireTicks(prefix + TickCalls(actions, tick), slot) ==
              FireTicks(prefix, slot)
              + if slot < |actions| && FiresAt(actions[slot].frameCount, tick) then [tick] else []
  {
    TickCallsTicks(actions, tick, slot);
    FireTicksAppend(prefix, TickCalls(actions, tick), slot);
  }

  lemma MulAtLeast(a: int, p: int)
    requires a >= 1 && p > 0
    ensures a * p >= p
  {
    assert a * p == (a - 1) * p + p;
  }

  lemma DivModUnique(n: int, p: int, q: int, r: int)
    requires p > 0 && 0 <= r < p && n == q * p + r
    ensures n / p == q && n % p == r
  {
    var d := q - n / p;
    assert n == (n / p) * p + n % p;
    assert d * p == q * p - (n / p) * p;
    if d > 0 {
      MulAtLeast(d, p);
    } else if d < 0 {
      MulAtLeast(-d, p);
    }
  }

  /** C++'s `%` on `int`: the quotient truncates toward zero, so a non-zero
      remainder takes the sign of the dividend. */
  function CppRem(a: int, b: int): int
    requires b != 0
  {
    var m := if b < 0 then -b else b;
    if a >= 0 then a % m else -((-a) % m)
  }

  /** `FiresAt` agrees with the C++ test `tick % period == 0` for every
      non-zero period and every tick, whatever their signs. */
  lemma FiresAtMatchesCpp(period: int, tick: int)
    ensures FiresAt(period, tick) <==> period != 0 && CppRem(tick, period) == 0
  {
    if period != 0 {
      var m := if period < 0 then -period else period;
      if period < 0 {
        DivModUnique(tick, m, -(tick / period), tick % period);
      }
      if tick % m == 0 {
        DivModUnique(-tick, m, -(tick / m), 0);
      }
      if (-tick) % m == 0 {
        DivModUnique(tick, m, -((-tick) / m), 0);
      }
    }
  }

  /** A positive period fires `ceil(n / period)` times in `n` ticks. */
  lemma {:induction false} MultiplesCount(period: int, n: int)
    requires period > 0 && n >= 0
    ensures |Multiples(period, n)| == n / period + (if n % period == 0 then 0 else 1)
    decreases n
  {
    if n > 0 {
      MultiplesCount(period, n - 1);
      MultiplesCountStep(period, n);
    }
  }

  /** The inductive step of `MultiplesCount`. */
  lemma MultiplesCountStep(period: int, n: int)
    requires period > 0 && n > 0
    requires |Multiples(period, n - 1)| == (n - 1) / period + (if (n - 1) % period == 0 then 0 else 1)
    ensures |Multiples(period, n)| == n / period + (if n % period == 0 then 0 else 1)
  {
    CeilingStep(period, n);
  }

  /** `ceil(n / period)` grows by one exactly after a multiple of `period`. */
  lemma CeilingStep(period: int, n: int)
    requires period > 0 && n > 0
    ensures n / period + (if n % period == 0 then 0 else 1)
            == (n - 1) / period + (if (n - 1) % period == 0 then 0 else 1)
               + (if (n - 1) % period == 0 then 1 else 0)
  {
    var q, r := (n - 1) / period, (n - 1) % period;
    if r == period - 1 {
      DivModUnique(n, period, q + 1, 0);
    } else {
      DivModUnique(n, period, q, r + 1);
    }
  }

  /** The jumping-game test: with the jump forced every 6th frame and a
      screenshot every 4th, 70 frames force the jump 12 times and take 18
      screenshots. */
  lemma GameTestCadence<A>(force: A, shot: A)
    ensures var actions := [FrameAction(6, force), FrameAction(4, shot)];
            |FireTicks(Schedule(actions, 70), 0)| == 12 && |FireTicks(Schedule(actions, 70), 1)| == 18
  {
    var actions := [FrameAction(6, force), FrameAction(4, shot)];
    FiresOnMultiples(actions, 70, 0);
    FiresOnMultiples(actions, 70, 1);
    MultiplesCount(6, 70);
    MultiplesCount(4, 70);
  }

  // ---------------------------------------------------------------------
  // Snapshot paths.

  function DigitChar(d: nat): char
    requires d < 10
  {
    "0123456789"[d]
  }

  predicate IsDigit(c: char) { '0' <= c <= '9' }

  function DigitValue(c: char): nat
    requires IsDigit(c)
  {
    c as int - '0' as int
  }

  /** Decimal digits of `n`, without leading zeros. */
  function NatToDecimal(n: nat): (r: string)
    ensures |r| > 0
    ensures forall k :: 0 <= k < |r| ==> IsDigit(r[k])
    decreases n
  {
    if n < 10 then [DigitChar(n)] else NatToDecimal(n / 10) + [DigitChar(n % 10)]
  }

  /** `std::to_string` of an `int`: an optional minus sign, present
      exactly for negative values, then at least one digit. */
  function IntToDecimal(i: int): (r: string)
    ensures |r| > 0 && (r[0] == '-' <==> i < 0)
    ensures forall k :: (if i < 0 then 1 else 0) <= k < |r| ==> IsDigit(r[k])
  {
    if i < 0 then "-" + NatToDecimal(-i) else NatToDecimal(i)
  }

  /** The value of a string of decimal digits. */
  function ParseDecimal(s: string): nat
    requires forall k :: 0 <= k < |s| ==> IsDigit(s[k])
    decreases |s|
  {
    if |s| == 0 then 0 else ParseDecimal(s[..|s| - 1]) * 10 + DigitValue(s[|s| - 1])
  }

  /** Decimal notation has only digits and reads back as the number. */
  lemma {:induction false} DecimalRoundTrip(n: nat)
    ensures |NatToDecimal(n)| > 0
    ensures forall k :: 0 <= k < |NatToDecimal(n)| ==> IsDigit(NatToDecimal(n)[k])
    ensures ParseDecimal(NatToDecimal(n)) == n
    decreases n
  {
    var s := NatToDecimal(n);
    if n < 10 {
      assert s[..0] == [];
    } else {
      DecimalRoundTrip(n / 10);
      assert s[..|s| - 1] == NatToDecimal(n / 10);
    }
  }

  /** `std::to_string` on `int` is injective. */
  lemma IntToDecimalInjective(f: int, g: int)
    requires IntToDecimal(f) == IntToDecimal(g)
    ensures f == g
  {
    assert (f < 0) == (g < 0);
    DecimalRoundTrip(if f < 0 then -f else f);
    DecimalRoundTrip(if g < 0 then -g else g);
    if f < 0 {
      assert IntToDecimal(f)[1..] == NatToDecimal(-f);
      assert IntToDecimal(g)[1..] == NatToDecimal(-g);
    }
  }

  const SnapshotDir: string := "integration-testing/snapshots/"

  /** The file `Screenshot(frame)` writes. */
  function SnapshotPath(frame: int): (p: string)
    ensures |p| > |SnapshotDir| + 4
    ensures p[..|SnapshotDir|] == SnapshotDir && p[|p| - 4..] == ".png"
    ensures p[|SnapshotDir|] == '-' <==> frame < 0
    ensures forall k :: |SnapshotDir| + (if frame < 0 then 1 else 0) <= k < |p| - 4 ==> IsDigit(p[k])
  {
    SnapshotDir + IntToDecimal(frame) + ".png"
  }

  /** Distinct frames are written to distinct files. */
  lemma SnapshotPathInjective(f: int, g: int)
    requires SnapshotPath(f) == SnapshotPath(g)
    ensures f == g
  {
    var a, b := IntToDecimal(f), IntToDecimal(g);
    assert |a| == |b|;
    assert SnapshotPath(f)[|SnapshotDir|..|SnapshotDir| + |a|] == a;
    assert SnapshotPath(g)[|SnapshotDir|..|SnapshotDir| + |b|] == b;
    IntToDecimalInjective(f, g);
  }

  /** `Screenshot`: writes the current frame to its tick-indexed file. */
  method Screenshot(fs: Disk.FileSet, frame: int)
    modifies fs
    ensures fs.files == old(fs.files) + {SnapshotPath(frame)}
  {
    var filename := SnapshotDir + IntToDecimal(frame) + ".png";
    fs.TakeScreenshot(filename);
  }

  // ---------------------------------------------------------------------
  // The registry and the loop.

  /** The header's `frame_actions` registry with its two functions. */
  class FrameScheduler<A> {
    var frameActions: seq<FrameAction<A>>

    constructor ()
      ensures frameActions == []
    {
      frameActions := [];
    }

    /** `onEveryNthFrame`: appends one entry and keeps the others. Any
        period is accepted, zero included. */
    method OnEveryNthFrame(frame: int, action: A)
      modifies this
      ensures frameActions == old(frameActions) + [FrameAction(frame, action)]
    {
      frameActions := frameActions + [FrameAction(frame, action)];
    }

    /** `runFrames(numFrames, step)`: returns the calls it makes. It reads
        the registry and changes nothing. Once a tick runs, a zero period
        would divide by zero, which C++ leaves undefined. */
    method RunFrames(numFrames: int) returns (calls: seq<Call>)
      requires numFrames > 0 ==> WellFormed(frameActions)
      ensures calls == Schedule(frameActions, numFrames)
    {
      var actions := frameActions;
      calls := [];
      var i := 0;
      while i < numFrames
        invariant 0 <= i && (i <= numFrames || i == 0)
        invariant calls == Schedule(actions, i)
      {
        ghost var before := calls;
        calls := calls + [Step(i)];
        var due := [];
        var k := 0;
        while k < |actions|
          invariant 0 <= k <= |actions|
          invariant due == Fired(actions, k, i)
        {
          if i % actions[k].frameCount == 0 {
            due := due + [Fire(k, i)];
          }
          k := k + 1;
        }
        calls := calls + due;
        assert calls == before + TickCalls(actions, i);
        i := i + 1;
      }
    }
  }
}
