/** The hybrid logical clock (rust/p2p-core/src/hlc.rs). */
module HybridLogicalClock {
  import opened Bytes

  const MAX_CLOCK_DRIFT_MS := 60_000

  datatype Hlc = Hlc(wallMs: U64, counter: U32)

  const ZERO := Hlc(0, 0)

  /** The derived `Ord` of the struct: wall clock first, then counter. */
  predicate Less(a: Hlc, b: Hlc) {
    a.wallMs < b.wallMs || (a.wallMs == b.wallMs && a.counter < b.counter)
  }

  predicate Leq(a: Hlc, b: Hlc) {
    a == b || Less(a, b)
  }

  // ------------------------------------------------------------- hex form

  const DIGIT_0 := 48
  const DIGIT_9 := 57
  const UPPER_A := 65
  const UPPER_F := 70
  const LOWER_A := 97
  const LOWER_F := 102
  const PLUS := 43

  function HexDigit(d: nat): Byte
    requires d < 16
  {
    if d < 10 then DIGIT_0 + d else LOWER_A + d - 10
  }

  /** `{:0kx}`: `k` lower-case digits, most significant first. */
  function Hex(n: nat, k: nat): (t: Text)
    ensures |t| == k
  {
    if k == 0 then [] else Hex(n / 16, k - 1) + [HexDigit(n % 16)]
  }

  function ToHex(h: Hlc): (t: Text)
    ensures |t| == 24
  {
    Hex(h.wallMs, 16) + Hex(h.counter, 8)
  }

  function DigitValue(b: Byte): Option<nat> {
    if DIGIT_0 <= b <= DIGIT_9 then Some(b - DIGIT_0)
    else if LOWER_A <= b <= LOWER_F then Some(b - LOWER_A + 10)
    else if UPPER_A <= b <= UPPER_F then Some(b - UPPER_A + 10)
    else None
  }

  function ParseDigits(t: Text): (r: Option<nat>)
    ensures r.Some? ==> r.value < Pow(16, |t|)
  {
    if t == [] then Some(0)
    else
      var high := ParseDigits(t[..|t| - 1]);
      var low := DigitValue(t[|t| - 1]);
      if high.Some? && low.Some? then Some(16 * high.value + low.value) else None
  }

  /** `from_str_radix(_, 16)` on an unsigned type: one leading `+` is accepted. */
  function ParseRadix(t: Text): (r: Option<nat>)
    ensures r.Some? ==> r.value < Pow(16, |t|)
  {
    if t == [] then None
    else if t[0] == PLUS then if |t| == 1 then None else ParseDigits(t[1..])
    else ParseDigits(t)
  }

  function FromHex(t: Text): Option<Hlc> {
    if |t| != 24 then None
    else
      PowValues();
      var wall := ParseRadix(t[0..16]);
      var counter := ParseRadix(t[16..24]);
      if wall.Some? && counter.Some? then Some(Hlc(wall.value, counter.value)) else None
  }

  lemma {:induction false} HexOrder(m: nat, n: nat, k: nat)
    requires m < Pow(16, k) && n < Pow(16, k)
    ensures Lt(Hex(m, k), Hex(n, k)) <==> m < n
    ensures Hex(m, k) == Hex(n, k) <==> m == n
  {
    if k > 0 {
      assert m / 16 < Pow(16, k - 1) && n / 16 < Pow(16, k - 1);
      HexOrder(m / 16, n / 16, k - 1);
      var x, y := [HexDigit(m % 16)], [HexDigit(n % 16)];
      LtConcat(Hex(m / 16, k - 1), Hex(n / 16, k - 1), x, y);
      if Hex(m, k) == Hex(n, k) {
        SplitEqual(Hex(m / 16, k - 1), Hex(n / 16, k - 1), x, y);
        assert x[0] == y[0];
      }
      assert Lt(x, y) <==> m % 16 < n % 16;
    }
  }

  lemma {:induction false} ParseHex(n: nat, k: nat)
    requires n < Pow(16, k)
    ensures ParseDigits(Hex(n, k)) == Some(n)
    ensures k > 0 ==> ParseRadix(Hex(n, k)) == Some(n)
  {
    if k > 0 {
      var t := Hex(n, k);
      assert n / 16 < Pow(16, k - 1);
      ParseHex(n / 16, k - 1);
      assert t[..k - 1] == Hex(n / 16, k - 1);
      assert t[0] == if k == 1 then HexDigit(n % 16) else Hex(n / 16, k - 1)[0];
      HexHead(n, k);
    }
  }

  lemma {:induction false} HexHead(n: nat, k: nat)
    requires k > 0
    ensures Hex(n, k)[0] != PLUS
  {
    if k > 1 {
      HexHead(n / 16, k - 1);
    }
  }

  /** The hex form is an order embedding: SQL comparisons of stored stamps agree
      with the struct order, and a missing entry (`''`) sorts below every stamp. */
  lemma HexOrderEmbedding(a: Hlc, b: Hlc)
    ensures Lt(ToHex(a), ToHex(b)) <==> Less(a, b)
    ensures ToHex(a) == ToHex(b) <==> a == b
    ensures Lt([], ToHex(a))
  {
    PowValues();
    HexOrder(a.wallMs, b.wallMs, 16);
    HexOrder(a.counter, b.counter, 8);
    LtConcat(Hex(a.wallMs, 16), Hex(b.wallMs, 16), Hex(a.counter, 8), Hex(b.counter, 8));
    if ToHex(a) == ToHex(b) {
      SplitEqual(Hex(a.wallMs, 16), Hex(b.wallMs, 16), Hex(a.counter, 8), Hex(b.counter, 8));
    }
  }

  lemma HexRoundTrip(h: Hlc)
    ensures FromHex(ToHex(h)) == Some(h)
  {
    PowValues();
    ParseHex(h.wallMs, 16);
    ParseHex(h.counter, 8);
    assert ToHex(h)[0..16] == Hex(h.wallMs, 16) && ToHex(h)[16..24] == Hex(h.counter, 8);
  }

  // ---------------------------------------------------------------- clock

  function SaturatingInc(c: U32): U32 {
    if c == MAX_U32 then c else c + 1
  }

  function SaturatingDrift(phys: U64): U64 {
    if phys + MAX_CLOCK_DRIFT_MS > MAX_U64 then MAX_U64 else phys + MAX_CLOCK_DRIFT_MS
  }

  function Max(a: int, b: int): int {
    if a > b then a else b
  }

  /** The stamp that `tick` hands out after `last` when the system clock reads `phys`. */
  function Ticked(last: Hlc, phys: U64): Hlc {
    if phys > last.wallMs then Hlc(phys, 0) else Hlc(last.wallMs, SaturatingInc(last.counter))
  }

  predicate InWindow(remote: Hlc, phys: U64) {
    remote.wallMs <= SaturatingDrift(phys)
  }

  /** The drift window is one minute wide; the saturation of the sum never matters. */
  lemma InWindowIff(remote: Hlc, phys: U64)
    ensures InWindow(remote, phys) <==> remote.wallMs - phys <= 60_000
  {
  }

  /** The clock after `observe(remote)`. */
  function Observed(last: Hlc, phys: U64, remote: Hlc): Hlc {
    if !InWindow(remote, phys) then Ticked(last, phys)
    else
      var maxWall: U64 := Max(Max(phys, last.wallMs), remote.wallMs);
      if maxWall == last.wallMs && maxWall == remote.wallMs then
        Hlc(maxWall, SaturatingInc(Max(last.counter, remote.counter)))
      else if maxWall == last.wallMs then Hlc(maxWall, SaturatingInc(last.counter))
      else if maxWall == remote.wallMs then Hlc(maxWall, SaturatingInc(remote.counter))
      else Hlc(maxWall, 0)
  }

  class HybridClock {
    var last: Hlc

    constructor ()
      ensures last == ZERO
    {
      last := ZERO;
    }

    constructor ResumingFrom(seen: Hlc)
      ensures last == seen
    {
      last := seen;
    }

    method Tick(phys: U64) returns (next: Hlc)
      modifies this
      ensures next == last == Ticked(old(last), phys)
    {
      if phys > last.wallMs {
        next := Hlc(phys, 0);
      } else {
        next := Hlc(last.wallMs, SaturatingInc(last.counter));
      }
      last := next;
    }

    method Observe(remote: Hlc, phys: U64) returns (next: Hlc)
      modifies this
      ensures next == last == Observed(old(last), phys, remote)
    {
      if remote.wallMs > SaturatingDrift(phys) {
        if phys > last.wallMs {
          next := Hlc(phys, 0);
        } else {
          next := Hlc(last.wallMs, SaturatingInc(last.counter));
        }
        last := next;
        return;
      }
      var maxWall: U64 := Max(Max(phys, last.wallMs), remote.wallMs);
      if maxWall == last.wallMs && maxWall == remote.wallMs {
        next := Hlc(maxWall, SaturatingInc(Max(last.counter, remote.counter)));
      } else if maxWall == last.wallMs {
        next := Hlc(maxWall, SaturatingInc(last.counter));
      } else if maxWall == remote.wallMs {
        next := Hlc(maxWall, SaturatingInc(remote.counter));
      } else {
        next := Hlc(maxWall, 0);
      }
      last := next;
    }
  }

  /** A tick yields a fresh stamp exactly when the wall clock has moved on or the
      counter still has room; otherwise the saturated counter repeats the last stamp. */
  lemma TickFreshIff(last: Hlc, phys: U64)
    ensures Leq(last, Ticked(last, phys))
    ensures Less(last, Ticked(last, phys)) <==> Moves(last, phys)
  {
  }

  /** The next tick is later than `last`. */
  predicate Moves(last: Hlc, phys: U64) {
    phys > last.wallMs || last.counter < MAX_U32
  }

  /** The clock after `i` ticks; the j-th tick reads `now(j)`. */
  function TickNo(start: Hlc, now: nat -> U64, i: nat): Hlc {
    if i == 0 then start else Ticked(TickNo(start, now, i - 1), now(i - 1))
  }

  /** Ticks `from + 1` to `n` are each later than the one before. */
  ghost predicate Rising(start: Hlc, now: nat -> U64, from: nat, n: nat) {
    forall i :: from <= i < n ==> Moves(TickNo(start, now, i), now(i))
  }

  lemma RisingPrefix(start: Hlc, now: nat -> U64, from: nat, m: nat, n: nat)
    requires Rising(start, now, from, n) && m <= n
    ensures Rising(start, now, from, m)
  {
    hide TickNo, Moves;
  }

  lemma {:induction false} TicksNeverBack(start: Hlc, now: nat -> U64, i: nat, j: nat)
    requires i <= j
    ensures Leq(TickNo(start, now, i), TickNo(start, now, j))
  {
    if i < j {
      TicksNeverBack(start, now, i, j - 1);
      TickFreshIff(TickNo(start, now, j - 1), now(j - 1));
    }
  }

  lemma TicksRise(start: Hlc, now: nat -> U64, i: nat, j: nat)
    requires i < j && Rising(start, now, i, j)
    ensures Less(TickNo(start, now, i), TickNo(start, now, j))
  {
    TicksNeverBack(start, now, i, j - 1);
    assert Moves(TickNo(start, now, j - 1), now(j - 1));
    TickFreshIff(TickNo(start, now, j - 1), now(j - 1));
  }

  /** `tick` promises strict monotonicity. From a saturated counter it repeats one and the same stamp, tick after
      tick, exactly as long as no reading passes the wall part. */
  lemma {:induction false} SaturatedTickRepeats(wall: U64, now: nat -> U64, n: nat)
    ensures TickNo(Hlc(wall, MAX_U32), now, n) == Hlc(wall, MAX_U32) <==> forall i :: 0 <= i < n ==> now(i) <= wall
  {
    var start := Hlc(wall, MAX_U32);
    if n > 0 {
      SaturatedTickRepeats(wall, now, n - 1);
      TicksNeverBack(start, now, 0, n - 1);
      assert TickNo(start, now, 0) == start && TickNo(start, now, n) == Ticked(TickNo(start, now, n - 1), now(n - 1));
      hide TickNo, Rising, Ticked;
      StuckTick(wall, TickNo(start, now, n - 1), now(n - 1));
    }
  }

  lemma StuckTick(wall: U64, last: Hlc, phys: U64)
    requires Leq(Hlc(wall, MAX_U32), last)
    ensures Ticked(last, phys) == Hlc(wall, MAX_U32) <==> last == Hlc(wall, MAX_U32) && phys <= wall
  {
  }

  lemma ObserveNeverBehind(last: Hlc, phys: U64, remote: Hlc)
    ensures Leq(last, Observed(last, phys, remote))
    ensures InWindow(remote, phys) ==> Leq(remote, Observed(last, phys, remote))
  {
  }

  /** The later of two stamps. */
  function Later(a: Hlc, b: Hlc): Hlc {
    if Less(a, b) then b else a
  }

  /** Observing a stamp inside the drift window is ticking from the later of the clock and that stamp; outside it,
      it is ticking from the clock alone. */
  lemma ObserveTicksFromLater(last: Hlc, phys: U64, remote: Hlc)
    ensures Observed(last, phys, remote) == Ticked(if InWindow(remote, phys) then Later(last, remote) else last, phys)
  {
  }

  /** The exact place of the new clock value: what is before it is what is before the reading, the clock or the
      in-window stamp, and the later of these two themselves if its counter has room. So the counter starts again
      at zero as soon as the reading has passed both. */
  lemma ObservePassesIff(last: Hlc, phys: U64, remote: Hlc, r: Hlc)
    ensures Less(r, Observed(last, phys, remote)) <==>
              || r.wallMs < phys || Less(r, last) || (InWindow(remote, phys) && Less(r, remote))
              || (r == (if InWindow(remote, phys) then Later(last, remote) else last) && r.counter < MAX_U32)
  {
    ObserveTicksFromLater(last, phys, remote);
  }

  /** With room in the counters, observing moves the clock by no more than it has to: to the least stamp that is
      past the clock, past the stamp seen if that is in the window, and not before the reading. */
  lemma ObserveIsLeast(last: Hlc, phys: U64, remote: Hlc, r: Hlc)
    requires last.counter < MAX_U32 && remote.counter < MAX_U32
    ensures Leq(Observed(last, phys, remote), r) <==>
              Less(last, r) && (InWindow(remote, phys) ==> Less(remote, r)) && Leq(Hlc(phys, 0), r)
  {
    ObserveTicksFromLater(last, phys, remote);
  }

  // ------------------------------------------------------- clock sessions

  datatype ClockEvent = TickAt(phys: U64) | ObserveAt(remote: Hlc, phys: U64)

  function StepClock(last: Hlc, e: ClockEvent): Hlc {
    match e
    case TickAt(phys) => Ticked(last, phys)
    case ObserveAt(remote, phys) => Observed(last, phys, remote)
  }

  function RunClock(start: Hlc, es: seq<ClockEvent>): Hlc {
    if es == [] then start else StepClock(RunClock(start, es[..|es| - 1]), es[|es| - 1])
  }

  lemma {:induction false} ClockNeverGoesBack(start: Hlc, es: seq<ClockEvent>, i: nat)
    requires i <= |es|
    ensures Leq(RunClock(start, es[..i]), RunClock(start, es))
  {
    if i == |es| {
      assert es[..i] == es;
    } else {
      var init := es[..|es| - 1];
      assert init[..i] == es[..i];
      ClockNeverGoesBack(start, init, i);
      assert Leq(RunClock(start, init), RunClock(start, es));
    }
  }

  /** Causality: within a session, a later tick sorts strictly after every in-window
      stamp observed before it, and after every earlier tick, whatever the system
      clock did in between, unless the counter is saturated at that tick. */
  lemma TickFollowsEverythingSeen(start: Hlc, es: seq<ClockEvent>, i: nat, phys: U64)
    requires i < |es|
    requires Moves(RunClock(start, es), phys)
    ensures es[i].ObserveAt? && InWindow(es[i].remote, es[i].phys) ==>
              Less(es[i].remote, Ticked(RunClock(start, es), phys))
    ensures es[i].TickAt? ==>
              Less(RunClock(start, es[..i + 1]), Ticked(RunClock(start, es), phys))
  {
    ClockNeverGoesBack(start, es, i + 1);
    assert es[..i + 1][..i] == es[..i];
    ghost var before := RunClock(start, es[..i]);
    assert RunClock(start, es[..i + 1]) == StepClock(before, es[i]);
    if es[i].ObserveAt? {
      ObserveNeverBehind(before, es[i].phys, es[i].remote);
    }
  }

  /** How far the wall part of the clock gets in a session: the start, every reading of the system clock,
      and every remote stamp inside the drift window. */
  function Reach(start: Hlc, es: seq<ClockEvent>): nat {
    if es == [] then start.wallMs
    else
      var e := es[|es| - 1];
      var far := Max(Reach(start, es[..|es| - 1]), e.phys);
      if e.ObserveAt? && InWindow(e.remote, e.phys) then Max(far, e.remote.wallMs) else far
  }

  lemma {:induction false} ClockReaches(start: Hlc, es: seq<ClockEvent>)
    ensures RunClock(start, es).wallMs == Reach(start, es)
  {
    if es != [] {
      ClockReaches(start, es[..|es| - 1]);
    }
  }

  /** When a tick sorts after a stamp, exactly, for any stamp whatsoever and any session: the system clock,
      or something absorbed before, is past its wall part, or the wall parts are equal and the counter is
      past it, where the counter is the one the session ended with. A stamp beyond the drift window gets no
      further help from having been observed. */
  lemma TickFollowsIff(start: Hlc, es: seq<ClockEvent>, phys: U64, r: Hlc)
    ensures var last := RunClock(start, es);
            Less(r, Ticked(last, phys)) <==>
              || r.wallMs < phys || r.wallMs < Reach(start, es)
              || (r.wallMs == Reach(start, es) && phys <= r.wallMs
                  && (r.counter < last.counter || (r.counter == last.counter && last.counter < MAX_U32)))
  {
    ClockReaches(start, es);
  }

  /** The same from the clock's own value. */
  lemma TickAfterIff(last: Hlc, phys: U64, r: Hlc)
    ensures Less(r, Ticked(last, phys)) <==> r.wallMs < phys || Less(r, last) || (r == last && last.counter < MAX_U32)
  {
  }

  function GreatestReading(floor: nat, es: seq<ClockEvent>): nat {
    if es == [] then floor
    else Max(GreatestReading(floor, es[..|es| - 1]), es[|es| - 1].phys + MAX_CLOCK_DRIFT_MS)
  }

  /** No ratchet: no sequence of remote stamps drags the clock past the resume point
      or the greatest physical reading so far plus the drift window. */
  lemma {:induction false} RemoteStampsCannotRatchet(start: Hlc, es: seq<ClockEvent>)
    ensures RunClock(start, es).wallMs <= GreatestReading(start.wallMs, es)
  {
    if es != [] {
      RemoteStampsCannotRatchet(start, es[..|es| - 1]);
    }
  }
}
