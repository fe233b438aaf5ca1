/**
 The per-rule token bucket that limits log events: one check as the BPF
 program computes it, in its own integer widths, and the bound it gives on
 the number of events over any stretch of time on one CPU.
 */
module RateLimit {
  import opened Types

  const SECOND: int := 1_000_000_000

  /** `lastNs == 0` marks a bucket that has not been used yet. */
  datatype Bucket = Bucket(lastNs: u64, tokens: u32)

  const UNUSED := Bucket(0, 0)

  function Capped(elapsed: u64): u64 { if elapsed > SECOND then SECOND else elapsed }

  /** Tokens earned, as 64-bit product and 32-bit quotient. */
  function Added(rate: u16, elapsed: u64): u32 { Quotient((rate * elapsed) % TWO_64) }

  function Quotient(x: u64): u32 { x / SECOND % TWO_32 }

  /** The bucket after the refill part of a check, in 32- and 64-bit arithmetic. */
  function Refill(b: Bucket, rate: u16, now: u64): Bucket {
    if b.lastNs == 0 then Bucket(now, rate)
    else
      var elapsed := Capped((now - b.lastNs) % TWO_64);
      var refilled := (b.tokens + Added(rate, elapsed)) % TWO_32;
      Bucket(now, if refilled > rate then rate else refilled)
  }

  predicate Emits(b: Bucket, rate: u16, now: u64) { rate == 0 || Refill(b, rate, now).tokens != 0 }

  /** The bucket after one check. */
  function Check(b: Bucket, rate: u16, now: u64): Bucket {
    if rate == 0 then b
    else
      var r := Refill(b, rate, now);
      if r.tokens == 0 then r else r.(tokens := r.tokens - 1)
  }

  /** Events that one check lets out. */
  function EmittedBy(c: Bucket, rate: u16, now: u64): nat { if Emits(c, rate, now) then 1 else 0 }

  // ------------------------------------------------------ runs of one bucket

  function After(b: Bucket, rate: u16, times: seq<u64>): Bucket {
    if times == [] then b else Check(After(b, rate, times[..|times| - 1]), rate, times[|times| - 1])
  }

  function Emitted(b: Bucket, rate: u16, times: seq<u64>): nat {
    if times == [] then 0
    else
      var front := times[..|times| - 1];
      Emitted(b, rate, front) + EmittedBy(After(b, rate, front), rate, times[|times| - 1])
  }

  function Suppressed(b: Bucket, rate: u16, times: seq<u64>): nat {
    if times == [] then 0
    else
      var front := times[..|times| - 1];
      Suppressed(b, rate, front) + (if Emits(After(b, rate, front), rate, times[|times| - 1]) then 0 else 1)
  }

  /** Nanoseconds from the first to the last check. */
  function Span(times: seq<u64>): int
    requires times != []
  {
    var first: int := times[0];
    times[|times| - 1] - first
  }

  ghost predicate Monotone(times: seq<u64>) {
    forall i, j | 0 <= i <= j < |times| :: times[i] <= times[j]
  }

  /** Buckets that checks before time `t`, at whatever rates, can leave in a slot. */
  predicate ReadyAt(b: Bucket, t: u64) { b.lastNs == 0 || (b.lastNs <= t && b.tokens <= 0xFFFF) }

  /** A slot keeps its bucket when its rule is replaced by one of another rate. */
  lemma SlotStaysReady(b: Bucket, rate: u16, now: u64, t: u64)
    requires ReadyAt(b, now) && now <= t
    ensures ReadyAt(Check(b, rate, now), t)
  {
  }

  lemma ProductBound(rate: u16, e: u64)
    requires e <= SECOND
    ensures 0 <= rate * e <= rate * SECOND < TWO_64
    ensures 0 <= rate * e / SECOND <= rate
  {
    MulLe(rate, e, SECOND);
    assert rate * e / SECOND * SECOND <= rate * e;
  }

  lemma MulLe(r: nat, x: int, y: int)
    requires x <= y
    ensures r * x <= r * y
  {
  }

  lemma RefillArithmetic(rate: u16, tokens: u32, x: int, d: int)
    requires tokens <= 0xFFFF && 0 <= x <= rate * 1_000_000_000 && x <= d
    ensures x % TWO_64 / SECOND % TWO_32 == x / SECOND
    ensures 0 <= tokens + x / SECOND < TWO_32
    ensures (tokens + x / SECOND) * SECOND <= tokens * SECOND + d
  {
  }

  lemma QuotientExact(x: int, rate: u16)
    requires 0 <= x <= rate * 1_000_000_000
    ensures x % TWO_64 == x && Quotient(x) == x / SECOND && 0 <= x / SECOND <= rate
  {
  }

  lemma AddedExact(rate: u16, e: u64)
    requires e <= SECOND
    ensures Added(rate, e) == rate * e / SECOND && 0 <= rate * e / SECOND <= rate
  {
    ProductBound(rate, e);
    QuotientExact(rate * e, rate);
  }

  /** No step of a refill overflows: it adds `rate * elapsed / 10^9` tokens, up to the rate. */
  lemma RefillExact(b: Bucket, rate: u16, now: u64)
    requires b.lastNs != 0 && ReadyAt(b, now)
    ensures var add := rate * Capped(now - b.lastNs) / SECOND;
            && 0 <= b.tokens + add < TWO_32
            && Refill(b, rate, now) == Bucket(now, if b.tokens + add > rate then rate else b.tokens + add)
  {
    var d := now - b.lastNs;
    assert d % TWO_64 == d;
    AddedExact(rate, Capped(d));
    RefillSum(b.tokens, rate, Added(rate, Capped(d)));
  }

  lemma RefillSum(tokens: u32, rate: u16, add: u32)
    requires tokens <= 0xFFFF && add <= rate
    ensures 0 <= tokens + add < TWO_32 && (tokens + add) % TWO_32 == tokens + add
  {
  }

  lemma RefillCost(b: Bucket, rate: u16, now: u64)
    requires b.lastNs != 0 && ReadyAt(b, now)
    ensures Refill(b, rate, now).tokens * SECOND <= b.tokens * SECOND + rate * (now - b.lastNs)
  {
    var d := now - b.lastNs;
    RefillExact(b, rate, now);
    ProductBound(rate, Capped(d));
    MulLe(rate, Capped(d), d);
    RefillArithmetic(rate, b.tokens, rate * Capped(d), rate * d);
  }

  /** Tokens never exceed the rate, whatever the run. */
  lemma {:induction false} TokensWithinRate(b: Bucket, rate: u16, times: seq<u64>)
    requires rate > 0 && times != [] && Monotone(times) && times[0] > 0 && ReadyAt(b, times[0])
    ensures var a := After(b, rate, times); a.tokens <= rate && a.lastNs == times[|times| - 1]
  {
    if |times| > 1 {
      TokensWithinRate(b, rate, times[..|times| - 1]);
    }
    assert times[..0] == [];
  }

  lemma Distribute(r: int, a: int, b: int, c: int)
    ensures r * (c - a) == r * (b - a) + r * (c - b)
  {
  }

  /** `x` tokens are no more than a full bucket and what the rate earns in `span` nanoseconds. */
  predicate Within(x: int, rate: int, span: int) { x * SECOND <= rate * SECOND + rate * span }

  /** Emissions plus remaining tokens never exceed a full bucket plus the refill. */
  lemma {:induction false} Potential(b: Bucket, rate: u16, times: seq<u64>)
    requires rate > 0 && times != [] && Monotone(times) && times[0] > 0 && ReadyAt(b, times[0])
    ensures Within(Emitted(b, rate, times) + After(b, rate, times).tokens, rate, Span(times))
  {
    var n := |times| - 1;
    var front, now := times[..n], times[n];
    if n == 0 {
      assert front == [];
      PotentialFirst(b, rate, now);
    } else {
      Potential(b, rate, front);
      TokensWithinRate(b, rate, front);
      assert Span(front) == After(b, rate, front).lastNs - times[0];
      PotentialNext(Emitted(b, rate, front), After(b, rate, front), rate, now, times[0]);
    }
  }

  lemma PotentialFirst(b: Bucket, rate: u16, now: u64)
    requires rate > 0 && now > 0 && ReadyAt(b, now)
    ensures Within(EmittedBy(b, rate, now) + Check(b, rate, now).tokens, rate, 0)
  {
    StepCost(b, rate, now);
  }

  lemma PotentialNext(e: nat, c: Bucket, rate: u16, now: u64, first: u64)
    requires rate > 0 && 0 < first <= c.lastNs <= now && c.tokens <= rate
    requires Within(e + c.tokens, rate, c.lastNs - first)
    ensures Within(e + EmittedBy(c, rate, now) + Check(c, rate, now).tokens, rate, now - first)
  {
    RefillCost(c, rate, now);
    Distribute(rate, first, c.lastNs, now);
    StepCost(c, rate, now);
    PotentialStep(e, c.tokens, Refill(c, rate, now).tokens, rate, rate * (c.lastNs - first), rate * (now - c.lastNs));
  }

  lemma PotentialStep(e: int, t: int, refilled: int, rate: int, x: int, dx: int)
    requires (e + t) * 1_000_000_000 <= rate * 1_000_000_000 + x
    requires refilled * 1_000_000_000 <= t * 1_000_000_000 + dx
    ensures (e + refilled) * 1_000_000_000 <= rate * 1_000_000_000 + (x + dx)
  {
  }

  lemma StepCost(c: Bucket, rate: u16, now: u64)
    requires rate > 0
    ensures Check(c, rate, now).tokens + EmittedBy(c, rate, now) == Refill(c, rate, now).tokens
  {
  }

  /**
   Over checks at times spanning `T` nanoseconds a rule of rate `R` emits at
   most `R + R * T / 10^9` events, from any bucket that earlier checks left in
   its slot, at this or other rates: so for any stretch of a longer run.
   */
  lemma EmissionBound(b: Bucket, rate: u16, times: seq<u64>)
    requires rate > 0 && times != [] && Monotone(times) && times[0] > 0 && ReadyAt(b, times[0])
    ensures Emitted(b, rate, times) <= rate + rate * Span(times) / SECOND
  {
    Potential(b, rate, times);
    DivideBound(Emitted(b, rate, times), rate, rate * Span(times));
  }

  lemma DivideBound(e: nat, r: nat, x: int)
    requires e * 1_000_000_000 <= r * 1_000_000_000 + x
    ensures e <= r + x / 1_000_000_000
  {
  }

  /** Every check either emits or is counted as suppressed. */
  lemma {:induction false} EmittedPlusSuppressed(b: Bucket, rate: u16, times: seq<u64>)
    ensures Emitted(b, rate, times) + Suppressed(b, rate, times) == |times|
  {
    if times != [] { EmittedPlusSuppressed(b, rate, times[..|times| - 1]); }
  }

  // ---------------------------------------- the clock value 0 is the exception

  /** While the clock reads 0 the bucket still looks unused, so every check emits. */
  lemma {:induction false} ClockZeroAlwaysEmits(rate: u16, n: nat)
    requires rate > 0
    ensures Emitted(UNUSED, rate, seq(n, _ => 0)) == n && After(UNUSED, rate, seq(n, _ => 0)).lastNs == 0
  {
    if n > 0 {
      ClockZeroAlwaysEmits(rate, n - 1);
      assert seq(n, _ => 0)[..n - 1] == seq(n - 1, _ => 0);
    } else {
      assert seq(0, _ => 0) == [];
    }
  }

  ghost predicate Bounded(rate: u16, times: seq<u64>)
    requires times != []
  {
    Emitted(UNUSED, rate, times) <= rate + rate * Span(times) / SECOND
  }

  /** The bound holds for all runs from an unused bucket that start at `t0` exactly when `t0` is not 0. */
  lemma BoundHoldsExactly(rate: u16, t0: u64)
    requires rate > 0
    ensures (forall times: seq<u64> | times != [] && times[0] == t0 && Monotone(times) :: Bounded(rate, times)) <==> t0 > 0
  {
    if t0 > 0 {
      forall times: seq<u64> | times != [] && times[0] == t0 && Monotone(times) ensures Bounded(rate, times) {
        EmissionBound(UNUSED, rate, times);
      }
    } else {
      var zeros: seq<u64> := seq(rate + 1, _ => 0);
      ClockZeroAlwaysEmits(rate, rate + 1);
      assert rate * (zeros[rate] - zeros[0]) == 0;
      assert Monotone(zeros) && zeros[0] == t0 && !Bounded(rate, zeros);
    }
  }

  // ------------------------------------------- the rate as the bundle gives it

  /** No more than `limit` events per second, in the sense of the bound, from a rule of the given rate. */
  ghost predicate KeepsLimit(rate: u16, limit: u32) {
    forall b: Bucket, times: seq<u64> | times != [] && Monotone(times) && times[0] > 0 && ReadyAt(b, times[0]) ::
      Emitted(b, rate, times) <= limit + limit * Span(times) / SECOND
  }

  lemma {:induction false} UnlimitedEmits(b: Bucket, times: seq<u64>)
    ensures Emitted(b, 0, times) == |times|
  {
    if times != [] { UnlimitedEmits(b, times[..|times| - 1]); }
  }

  lemma LargerLimit(rate: nat, limit: nat, span: nat)
    requires rate <= limit
    ensures rate + rate * span / SECOND <= limit + limit * span / SECOND
  {
    assert rate * span <= limit * span;
    DivideMonotone(rate * span, limit * span);
  }

  lemma DivideMonotone(x: int, y: int)
    requires x <= y
    ensures x / SECOND <= y / SECOND
  {
  }

  /**
   The bundle's limit is cut to 16 bits, and 0 means no limit: the limit holds
   exactly when it does not cut to 0.
   */
  lemma DocumentedLimitExactly(limit: u32)
    requires limit > 0
    ensures KeepsLimit(ToU16(limit), limit) <==> limit % 0x1_0000 != 0
  {
    var rate := ToU16(limit);
    if rate > 0 {
      forall b: Bucket, times: seq<u64> | times != [] && Monotone(times) && times[0] > 0 && ReadyAt(b, times[0])
        ensures Emitted(b, rate, times) <= limit + limit * Span(times) / SECOND
      {
        EmissionBound(b, rate, times);
        LargerLimit(rate, limit, Span(times));
      }
    } else {
      var times: seq<u64> := seq(limit + 1, _ => 1);
      UnlimitedEmits(UNUSED, times);
      assert limit * Span(times) == 0;
      assert Monotone(times) && times[0] > 0 && ReadyAt(UNUSED, times[0]);
    }
  }

  /** A limit of 65536 limits nothing: every check emits. */
  lemma LimitOf65536IsLost(b: Bucket, times: seq<u64>)
    ensures Emitted(b, ToU16(0x1_0000), times) == |times|
  {
    UnlimitedEmits(b, times);
  }
}
