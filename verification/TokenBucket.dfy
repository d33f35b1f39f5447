/** The integer token bucket: micro-tokens with an exact carried remainder.

    Instants and waits are whole nanoseconds.  What a refill accrues short of a whole micro-token is
    carried to the next one. */
module TokenBucket {
  const SCALE: nat := 1_000_000
  const NANOS_PER_MINUTE: nat := 60_000_000_000

  datatype Config = Config(rpm: nat, burst: nat) {
    /** The source holds both in 32 bits. */
    predicate Fits() {
      rpm < 0x1_0000_0000 && burst < 0x1_0000_0000
    }
  }

  datatype State = State(config: Config, available: nat, remainder: nat, last: nat) {
    predicate Valid() {
      available <= config.burst * SCALE && remainder < NANOS_PER_MINUTE
    }
  }

  function MinNat(a: nat, b: nat): nat { if a < b then a else b }

  function CeilDiv(a: nat, b: nat): nat
    requires b > 0
  {
    (a + b - 1) / b
  }

  // ----- what each operation means -----

  function Credit(s: State, now: nat): nat
    requires s.last <= now
  {
    (now - s.last) * s.config.rpm * SCALE + s.remainder
  }

  function Refill(s: State, now: nat): State {
    if now <= s.last then s else
      s.(available := MinNat(s.available + Credit(s, now) / NANOS_PER_MINUTE, s.config.burst * SCALE),
         remainder := Credit(s, now) % NANOS_PER_MINUTE,
         last := now)
  }

  function Consume(s: State, now: nat): (State, bool) {
    var r := Refill(s, now);
    if r.available < SCALE then (r, false) else (r.(available := r.available - SCALE), true)
  }

  function Wait(s: State): nat {
    if s.available >= SCALE then 0
    else if s.config.rpm == 0 then NANOS_PER_MINUTE
    else
      var nanos := CeilDiv((SCALE - s.available) * NANOS_PER_MINUTE, s.config.rpm * SCALE);
      if nanos < 1 then 1 else if nanos <= 0xFFFF_FFFF_FFFF_FFFF then nanos else 0xFFFF_FFFF_FFFF_FFFF
  }

  function Reconfigure(s: State, config: Config, now: nat): State {
    var r := Refill(s, now);
    State(config, MinNat(r.available, config.burst * SCALE), 0, r.last)
  }

  class TokenBucket {
    var config: Config
    var available: nat
    var remainder: nat
    var last: nat

    ghost function View(): State
      reads this
    {
      State(config, available, remainder, last)
    }

    constructor Full(config: Config, now: nat)
      ensures View() == State(config, config.burst * SCALE, 0, now) && View().Valid()
    {
      this.config, available, remainder, last := config, config.burst * SCALE, 0, now;
    }

    method DoRefill(now: nat)
      modifies this
      ensures View() == Refill(old(View()), now)
    {
      var elapsed := if now > last then now - last else 0;
      if elapsed == 0 {
        return;
      }
      var numerator := elapsed * config.rpm * SCALE + remainder;
      var added := numerator / NANOS_PER_MINUTE;
      remainder := numerator % NANOS_PER_MINUTE;
      available := MinNat(available + added, config.burst * SCALE);
      last := now;
    }

    method TryConsume(now: nat) returns (ok: bool)
      modifies this
      ensures (View(), ok) == Consume(old(View()), now)
    {
      DoRefill(now);
      if available < SCALE {
        return false;
      }
      available := available - SCALE;
      ok := true;
    }

    method RetryAfter(now: nat) returns (wait: nat)
      modifies this
      ensures View() == Refill(old(View()), now) && wait == Wait(View())
    {
      DoRefill(now);
      if available >= SCALE {
        return 0;
      }
      if config.rpm == 0 {
        return NANOS_PER_MINUTE;
      }
      var missing := SCALE - available;
      var nanos := CeilDiv(missing * NANOS_PER_MINUTE, config.rpm * SCALE);
      nanos := if nanos < 1 then 1 else nanos;
      wait := if nanos <= 0xFFFF_FFFF_FFFF_FFFF then nanos else 0xFFFF_FFFF_FFFF_FFFF;
    }

    method DoReconfigure(config': Config, now: nat)
      modifies this
      ensures View() == Reconfigure(old(View()), config', now)
    {
      DoRefill(now);
      config := config';
      available := MinNat(available, config.burst * SCALE);
      remainder := 0;
    }
  }

  // ----- arithmetic -----

  lemma Monotone(a: nat, b: nat, d: nat)
    ensures a <= b ==> a * d <= b * d
  {
    if a <= b { assert b * d == a * d + (b - a) * d; }
  }

  lemma DivModUnique(x: nat, d: nat, q: nat, r: nat)
    requires d > 0 && r < d && x == q * d + r
    ensures x / d == q && x % d == r
  {
    var q' := x / d;
    assert x == q' * d + x % d;
    Monotone(q + 1, q', d);
    Monotone(q' + 1, q, d);
    assert (q + 1) * d == q * d + d && (q' + 1) * d == q' * d + d;
  }

  lemma DivShift(q: nat, n: nat, d: nat)
    requires d > 0
    ensures (q * d + n) / d == q + n / d && (q * d + n) % d == n % d
  {
    var a, b := n / d, n % d;
    assert n == a * d + b;
    assert (q + a) * d == q * d + a * d;
    DivModUnique(q * d + n, d, q + a, b);
  }

  lemma DivAtLeast(x: nat, d: nat, q: nat)
    requires d > 0
    ensures x / d >= q <==> x >= q * d
  {
    var q' := x / d;
    assert x == q' * d + x % d;
    Monotone(q' + 1, q, d);
    Monotone(q, q', d);
    assert (q' + 1) * d == q' * d + d;
  }

  lemma CeilIs(a: nat, b: nat)
    requires b > 0
    ensures CeilDiv(a, b) * b >= a && (a > 0 ==> CeilDiv(a, b) > 0 && (CeilDiv(a, b) - 1) * b < a)
  {
    var q := (a + b - 1) / b;
    assert a + b - 1 == q * b + (a + b - 1) % b;
    if a > 0 {
      DivAtLeast(a + b - 1, b, 1);
      assert (q - 1) * b == q * b - b;
    }
  }

  // ----- refilling -----

  /** Every operation keeps the balance within the burst and the remainder below a minute. */
  lemma OperationsKeepValid(s: State, now: nat, config: Config)
    requires s.Valid()
    ensures Refill(s, now).Valid() && Consume(s, now).0.Valid() && Reconfigure(s, config, now).Valid()
  {
  }

  /** Refilling is independent of how often one looks: stopping at `mid` on the way changes none of
      the three fields, not even when the balance hits the burst in between. */
  lemma RefillPathIndependent(s: State, mid: nat, now: nat)
    requires s.last <= mid <= now && s.Valid()
    ensures Refill(Refill(s, mid), now) == Refill(s, now)
  {
    if s.last < mid < now {
      var n1 := Credit(s, mid);
      var q1 := n1 / NANOS_PER_MINUTE;
      var r1 := n1 % NANOS_PER_MINUTE;
      var m := Refill(s, mid);
      var n2 := Credit(m, now);
      assert n1 == q1 * NANOS_PER_MINUTE + r1;
      CreditAdds((mid - s.last), (now - mid), s.config.rpm);
      assert Credit(s, now) == q1 * NANOS_PER_MINUTE + n2;
      DivShift(q1, n2, NANOS_PER_MINUTE);
    }
  }

  lemma CreditAdds(a: nat, b: nat, rpm: nat)
    ensures (a + b) * rpm * SCALE == a * rpm * SCALE + b * rpm * SCALE
  {
    assert (a + b) * rpm == a * rpm + b * rpm;
  }

  // ----- the rate bound -----

  /** Everything that is in the bucket, in units of one micro-token per minute-nanosecond. */
  function Potential(s: State): nat {
    s.available * NANOS_PER_MINUTE + s.remainder
  }

  /** Refilling adds exactly what accrued, unless the balance reaches the burst. */
  lemma RefillPotential(s: State, now: nat)
    requires s.Valid()
    ensures var r := Refill(s, now);
            && r.last >= s.last
            && Potential(r) <= Potential(s) + (r.last - s.last) * s.config.rpm * SCALE
            && (r.available < s.config.burst * SCALE ==>
                  Potential(r) == Potential(s) + (r.last - s.last) * s.config.rpm * SCALE)
  {
    if now > s.last {
      var n := Credit(s, now);
      assert n == (n / NANOS_PER_MINUTE) * NANOS_PER_MINUTE + n % NANOS_PER_MINUTE;
      var full := s.available + n / NANOS_PER_MINUTE;
      assert full * NANOS_PER_MINUTE == s.available * NANOS_PER_MINUTE + (n / NANOS_PER_MINUTE) * NANOS_PER_MINUTE;
      Monotone(MinNat(full, s.config.burst * SCALE), full, NANOS_PER_MINUTE);
    }
  }

  /** A new rate is not a fresh burst: after settling under the old rate nothing is added. */
  lemma ReconfigureAddsNothing(s: State, config: Config, now: nat)
    requires s.Valid()
    ensures var r := Reconfigure(s, config, now);
            && r.Valid() && r.config == config && r.last == Refill(s, now).last && r.remainder == 0
            && r.available == MinNat(Refill(s, now).available, config.burst * SCALE)
            && Potential(r) <= Potential(Refill(s, now))
  {
    var settled := Refill(s, now);
    assert MinNat(settled.available, config.burst * SCALE) * NANOS_PER_MINUTE <= settled.available * NANOS_PER_MINUTE;
  }

  /** What can be done to a bucket. */
  datatype Op = TryAt(now: nat) | LookAt(now: nat) | ConfigureAt(config: Config, now: nat)

  /** A run of operations: the final state and how many tokens were handed out. */
  function Run(s: State, ops: seq<Op>): (State, nat) {
    if ops == [] then (s, 0) else
      var (before, served) := Run(s, ops[..|ops| - 1]);
      match ops[|ops| - 1]
      case LookAt(now) => (Refill(before, now), served)
      case ConfigureAt(config, now) => (Reconfigure(before, config, now), served)
      case TryAt(now) =>
        var (after, ok) := Consume(before, now);
        (after, served + if ok then 1 else 0)
  }

  /** What accrues until `now`, in tokens times nanoseconds a minute. */
  function Accrual(s: State, now: nat): nat {
    if now > s.last then (now - s.last) * s.config.rpm else 0
  }

  /** What accrues during a run, every stretch of time at the rate that held in it. */
  function Accrued(s: State, ops: seq<Op>): nat {
    if ops == [] then 0 else
      Accrued(s, ops[..|ops| - 1]) + Accrual(Run(s, ops[..|ops| - 1]).0, ops[|ops| - 1].now)
  }

  lemma {:induction false} StepBound(before: State, op: Op)
    requires before.Valid()
    ensures var r := Refill(before, op.now);
            var (after, served) := Run(before, [op]);
            && after.Valid() && after.last == r.last
            && served * SCALE * NANOS_PER_MINUTE + Potential(after) <= Potential(r)
  {
    assert [op][..0] == [];
    assert Run(before, []) == (before, 0);
    var r := Refill(before, op.now);
    match op
    case TryAt(now) =>
      if r.available >= SCALE {
        assert (r.available - SCALE) * NANOS_PER_MINUTE == r.available * NANOS_PER_MINUTE - SCALE * NANOS_PER_MINUTE;
      }
    case LookAt(now) =>
    case ConfigureAt(config, now) => ReconfigureAddsNothing(before, config, now);
  }

  lemma {:induction false} RunLast(s: State, ops: seq<Op>)
    requires ops != []
    ensures var (before, served) := Run(s, ops[..|ops| - 1]);
            Run(s, ops) == (Run(before, [ops[|ops| - 1]]).0, served + Run(before, [ops[|ops| - 1]]).1)
  {
    assert [ops[|ops| - 1]][..0] == [];
  }

  /** Conservation over every run, changes of configuration included: tokens handed out are covered
      by what was in the bucket and what accrued since, exactly accounted to the last nanosecond. */
  lemma {:induction false} RateBound(s: State, ops: seq<Op>)
    requires s.Valid()
    ensures var (after, served) := Run(s, ops);
            && after.Valid() && after.last >= s.last
            && served * SCALE * NANOS_PER_MINUTE + Potential(after) <= Potential(s) + Accrued(s, ops) * SCALE
  {
    if ops != [] {
      RateBound(s, ops[..|ops| - 1]);
      var (before, served) := Run(s, ops[..|ops| - 1]);
      var op := ops[|ops| - 1];
      RunLast(s, ops);
      StepBound(before, op);
      RefillPotential(before, op.now);
      var more := Run(before, [op]).1;
      assert (served + more) * SCALE * NANOS_PER_MINUTE == served * SCALE * NANOS_PER_MINUTE + more * SCALE * NANOS_PER_MINUTE;
      assert Accrued(s, ops) * SCALE == Accrued(s, ops[..|ops| - 1]) * SCALE + Accrual(before, op.now) * SCALE;
    }
  }

  /** While the configuration stays, that is the rate times the time. */
  lemma {:induction false} AccruedAtOneRate(s: State, ops: seq<Op>)
    requires forall i :: 0 <= i < |ops| ==> !ops[i].ConfigureAt?
    ensures var after := Run(s, ops).0;
            after.config == s.config && after.last >= s.last && Accrued(s, ops) == (after.last - s.last) * s.config.rpm
  {
    if ops != [] {
      AccruedAtOneRate(s, ops[..|ops| - 1]);
      var before, after := Run(s, ops[..|ops| - 1]).0, Run(s, ops).0;
      assert (before.last - s.last) * s.config.rpm + (after.last - before.last) * s.config.rpm == (after.last - s.last) * s.config.rpm;
    }
  }

  /** A full bucket serves at most its burst plus what accrues. */
  lemma {:induction false} FullBucketBound(config: Config, start: nat, ops: seq<Op>)
    ensures var s := State(config, config.burst * SCALE, 0, start);
            Run(s, ops).1 * NANOS_PER_MINUTE <= config.burst * NANOS_PER_MINUTE + Accrued(s, ops)
  {
    var s := State(config, config.burst * SCALE, 0, start);
    RateBound(s, ops);
    var x, y, z := Run(s, ops).1 * NANOS_PER_MINUTE, config.burst * NANOS_PER_MINUTE, Accrued(s, ops);
    assert Run(s, ops).1 * SCALE * NANOS_PER_MINUTE == x * SCALE;
    assert Potential(s) == y * SCALE;
    assert (y + z) * SCALE == y * SCALE + z * SCALE;
    Monotone(y + z + 1, x, SCALE);
  }

  // ----- retry-after -----

  /** After a further `w` nanoseconds a token can be taken exactly when enough has accrued, the
      carried remainder included. */
  lemma ServedAfter(s: State, w: nat)
    requires s.Valid() && s.available < SCALE && s.config.burst >= 1
    ensures Consume(s, s.last + w).1 <==>
            w * s.config.rpm * SCALE + s.remainder >= (SCALE - s.available) * NANOS_PER_MINUTE && w > 0
  {
    if w > 0 {
      DivAtLeast(Credit(s, s.last + w), NANOS_PER_MINUTE, SCALE - s.available);
    }
  }

  lemma WaitWithinMinute(need: nat, rate: nat)
    requires 0 < need <= SCALE * NANOS_PER_MINUTE && rate >= SCALE
    ensures 1 <= CeilDiv(need, rate) <= NANOS_PER_MINUTE
  {
    var nanos := CeilDiv(need, rate);
    CeilIs(need, rate);
    Monotone(NANOS_PER_MINUTE, nanos - 1, rate);
    Monotone(SCALE, rate, NANOS_PER_MINUTE);
  }

  lemma Regroup(n: nat, rpm: nat)
    ensures n * rpm * SCALE == n * (rpm * SCALE)
  {
  }

  /** The suggested wait: the least number of nanoseconds whose accrual covers what is missing, at
      most a minute, so the source's fallback to the largest 64-bit number is unreachable. */
  lemma WaitIs(s: State)
    requires s.Valid() && s.available < SCALE && s.config.rpm >= 1
    ensures Wait(s) == CeilDiv((SCALE - s.available) * NANOS_PER_MINUTE, s.config.rpm * SCALE)
    ensures 1 <= Wait(s) <= NANOS_PER_MINUTE
    ensures Wait(s) * s.config.rpm * SCALE >= (SCALE - s.available) * NANOS_PER_MINUTE
    ensures (Wait(s) - 1) * s.config.rpm * SCALE < (SCALE - s.available) * NANOS_PER_MINUTE
  {
    var need, rate := (SCALE - s.available) * NANOS_PER_MINUTE, s.config.rpm * SCALE;
    WaitWithinMinute(need, rate);
    CeilIs(need, rate);
    Regroup(Wait(s), s.config.rpm);
    Regroup(Wait(s) - 1, s.config.rpm);
  }

  /** With a token there nobody is told to wait; without a rate the wait is a minute, and no wait will
      ever do. */
  lemma WaitAtTheEnds(s: State)
    requires s.Valid()
    ensures s.available >= SCALE ==> Wait(s) == 0 && Consume(s, s.last).1
    ensures s.available < SCALE && s.config.rpm == 0 ==> Wait(s) == 60_000_000_000 && forall now: nat :: !Consume(s, now).1
  {
    if s.available < SCALE && s.config.rpm == 0 {
      forall now: nat ensures !Consume(s, now).1 {
        if now > s.last {
          assert Credit(s, now) == s.remainder;
        }
      }
    }
  }

  /** A caller that starts the suggested wait at `now` finds a token: one is there already, or the
      bucket can hold one and enough accrues from the last refill to the end of the wait. */
  predicate WaitReaches(r: State, now: nat) {
    || r.available >= SCALE
    || (r.config.burst >= 1 && now + Wait(r) > r.last
        && (now + Wait(r) - r.last) * r.config.rpm * SCALE + r.remainder >= (SCALE - r.available) * NANOS_PER_MINUTE)
  }

  /** Whether a caller that waits as told is served, with nobody else consuming, at whatever instant
      it asks; asked no earlier than the last refill, exactly if a token was there already or rate
      and burst are positive. */
  lemma RetryAfterIsSufficient(s: State, now: nat)
    requires s.Valid()
    ensures Consume(Refill(s, now), now + Wait(Refill(s, now))).1 <==> WaitReaches(Refill(s, now), now)
    ensures s.last <= now ==>
              (WaitReaches(Refill(s, now), now) <==>
                 Refill(s, now).available >= SCALE || (s.config.rpm >= 1 && s.config.burst >= 1))
  {
    var r := Refill(s, now);
    if r.available < SCALE && s.config.burst >= 1 && now + Wait(r) > r.last {
      ServedAfter(r, now + Wait(r) - r.last);
    }
    if s.last <= now && r.available < SCALE && s.config.rpm >= 1 { WaitIs(r); }
  }

  /** The wait is tight: nobody is served more than ceil(60000 / rpm) nanoseconds before it, and
      with no carried remainder it is the very first nanosecond that serves. */
  lemma RetryAfterIsTight(s: State, w: nat)
    requires s.Valid() && s.available < SCALE && s.config.rpm >= 1 && s.config.burst >= 1
    requires Consume(s, s.last + w).1
    ensures w + CeilDiv(60_000, s.config.rpm) >= Wait(s)
    ensures s.remainder == 0 ==> w >= Wait(s)
  {
    ServedAfter(s, w);
    WaitIs(s);
    var rpm, slack := s.config.rpm, CeilDiv(60_000, s.config.rpm);
    CeilIs(60_000, rpm);
    assert slack * rpm * SCALE >= 60_000 * SCALE == NANOS_PER_MINUTE;
    CreditAdds(w, slack, rpm);
    MulLe(w + slack, Wait(s) - 1, rpm);
    MulLe(w, Wait(s) - 1, rpm);
  }

  lemma MulLe(a: nat, b: nat, rpm: nat)
    ensures a <= b ==> a * rpm * SCALE <= b * rpm * SCALE
  {
    Monotone(a, b, rpm);
  }

  /** Asked at an instant before the last refill, the wait is counted from the refill but started
      earlier.  It is then too short whenever no remainder is carried, or the clock lags by more than
      ceil(60000 / rpm) nanoseconds. */
  lemma StaleClockWaitsTooLittle(s: State, now: nat)
    requires s.Valid() && s.available < SCALE && s.config.rpm >= 1 && s.config.burst >= 1 && now < s.last
    requires s.remainder == 0 || s.last - now > CeilDiv(60_000, s.config.rpm)
    ensures Refill(s, now) == s && !Consume(s, now + Wait(s)).1
  {
    if now + Wait(s) > s.last && Consume(s, now + Wait(s)).1 {
      RetryAfterIsTight(s, now + Wait(s) - s.last);
    }
  }

  /** A lagging clock does no harm if the carried remainder makes up for it. */
  lemma StaleClockMaySuffice()
    ensures var s := State(Config(1, 1), 999_999, 59_999_000_000, 1);
            s.Valid() && s.available < SCALE && Consume(Refill(s, 0), 0 + Wait(Refill(s, 0))).1
  {
    var s := State(Config(1, 1), 999_999, 59_999_000_000, 1);
    RetryAfterIsSufficient(s, 0);
    assert Wait(s) == 60_000;
  }

  /** Waits are not rounded to milliseconds. */
  lemma WaitIsNotRounded()
    ensures var s := State(Config(7, 1), 0, 0, 0);
            s.Valid() && Wait(s) == 8_571_428_572 && Wait(s) % 1_000_000 != 0
  {
  }

  // ----- machine width -----

  const TWO_32: nat := 0x1_0000_0000
  const TWO_75: nat := 0x800_0000_0000_0000_0000
  const TWO_127: nat := 0x8000_0000_0000_0000_0000_0000_0000_0000
  const TWO_128: nat := 0x1_0000_0000_0000_0000_0000_0000_0000_0000

  lemma MulBound(a: nat, b: nat, top: nat, top': nat)
    requires a <= top && b <= top'
    ensures a * b <= top * top'
  {
    assert a * b <= top * b;
    assert top * b <= top * top';
  }

  /** No 128-bit intermediate overflows while less than 2^75 nanoseconds, over a million years, lie
      between refills. */
  lemma NoOverflow(s: State, now: nat)
    requires s.Valid() && s.config.Fits() && s.last <= now && now - s.last < TWO_75
    ensures Credit(s, now) < TWO_127
    ensures s.available + Credit(s, now) / NANOS_PER_MINUTE < TWO_128
    ensures s.available <= SCALE ==> (SCALE - s.available) * NANOS_PER_MINUTE < TWO_128
  {
    MulBound(now - s.last, s.config.rpm, TWO_75, TWO_32);
    DivAtLeast(Credit(s, now), NANOS_PER_MINUTE, TWO_127);
  }
}
