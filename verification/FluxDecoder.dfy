/**
  The software phase-locked loop that turns flux reversal intervals into bits.

  The loop is specified by a function on the decoder's numeric state and the
  intervals still to come; the class refines it over revolutions.  What is
  proved about the function: an interval that ends near a whole number of cells
  yields that many bits, whatever the intervals before it were, as long as none
  of them was off by more than the loop tolerates.
 */
module FluxDecoding {
  import opened Words

  const MAX_PLL_ADJUST := 50

  /** Division of the source language, which truncates towards zero. */
  function Div(a: int, b: int): int
    requires b > 0
  {
    if a >= 0 then a / b else -(-a / b)
  }

  /** A 32-bit unsigned value read as a signed one. */
  function ToInt(u: uint32): int {
    if u < 0x8000_0000 then u else u - 0x1_0000_0000
  }

  /** Multiplication under a name, so that most proofs need not look inside it. */
  function Mul(a: int, b: int): int {
    a * b
  }

  lemma MulBasics(a: int, b: int, c: int)
    ensures Mul(0, b) == 0 && Mul(1, b) == b
    ensures Mul(a, b) == Mul(b, a)
    ensures Mul(a, b + c) == Mul(a, b) + Mul(a, c)
    ensures Mul(a, b - c) == Mul(a, b) - Mul(a, c)
    ensures Mul(a, Mul(b, c)) == Mul(Mul(a, b), c)
    ensures Mul(a, 100 * b) == 100 * Mul(a, b) && Mul(a, 100) == 100 * a
  {
  }

  lemma MulMonotone(a: nat, b: int, c: int)
    requires b <= c
    ensures Mul(a, b) <= Mul(a, c)
  {
  }

  lemma MulPositive(a: nat, b: nat)
    ensures 0 <= Mul(a, b)
    ensures a >= 1 ==> b <= Mul(a, b)
  {
    if a >= 1 {
      assert (a - 1) * b >= 0;
    }
  }

  /** What the constructor fixes: the bitcell, the flux scale and PLL adjustment in percent, and the pllphase option. */
  datatype Params = Params(bitcell: int, scale: int, adjust: int, phase: int) {

    const clockMin: int := Div(Mul(bitcell, 100 - adjust), 100)
    const clockMax: int := Div(Mul(bitcell, 100 + adjust), 100)

    predicate Valid() {
      4 <= bitcell && 0 <= adjust <= MAX_PLL_ADJUST && 0 <= phase <= 100
    }

    /** An interval as the loop sees it. */
    function Scaled(t: uint32): int {
      if scale != 100 then Div(Mul(ToInt(t), scale), 100) else ToInt(t)
    }
  }

  /** flux is the time not yet turned into bits; zeros counts the zeros since the last interval was read. */
  datatype State = State(clock: int, flux: int, zeros: nat, goodbits: nat)

  /** A decoded bit, and whether the loop reports a loss of sync with it. */
  datatype Event = Event(bit: bool, syncLost: bool)

  function Initial(p: Params): State {
    State(p.bitcell, 0, 0, 0)
  }

  ghost predicate InRange(p: Params, s: State) {
    p.clockMin <= s.clock <= p.clockMax
  }

  lemma RangeIsPositive(p: Params)
    requires p.Valid()
    ensures 2 <= p.clockMin <= p.bitcell <= p.clockMax
  {
    var b, a := p.bitcell, p.adjust;
    MulBasics(b, 100, a);
    MulMonotone(b, a, 50);
    MulMonotone(b, 0, a);
    MulBasics(b, 0, 0);
    MulBasics(b, 50, 50);
  }

  /** The frequency adjustment at a one bit, with phase error s.flux, before clamping. */
  function Adjusted(p: Params, s: State): int {
    if s.zeros <= 3 then s.clock + Div(Mul(s.flux, p.adjust), 100)
    else s.clock + Div(Mul(p.bitcell - s.clock, p.adjust), 100)
  }

  /** One bit out of a flux that reaches it. */
  function Emit(p: Params, s0: State): (r: (Event, State)) {
    var s := s0.(flux := s0.flux - s0.clock);
    if s.flux >= Div(s.clock, 2) then
      (Event(false, false), s.(zeros := s.zeros + 1, goodbits := s.goodbits + 1))
    else
      (Event(true, s.zeros > 3 && s.goodbits >= 256),
       State(Min(Max(p.clockMin, Adjusted(p, s)), p.clockMax), Div(Mul(s.flux, 100 - p.phase), 100), s.zeros,
             if s.zeros <= 3 then s.goodbits + 1 else 1))
  }

  datatype Outcome = End(s: State, rest: seq<uint32>) | Bit(event: Event, s: State, rest: seq<uint32>)

  /** next_bit: read intervals until there is a bit's worth of flux; the value -1 doubles as the end of the data. */
  function LoopBit(p: Params, s: State, pending: seq<uint32>): (r: Outcome)
    ensures |r.rest| <= |pending|
    decreases |pending|
  {
    if s.flux < Div(s.clock, 2) then
      if pending == [] then End(s, [])
      else if ToInt(pending[0]) == -1 then End(s, pending[1..])
      else LoopBit(p, s.(flux := s.flux + p.Scaled(pending[0]), zeros := 0), pending[1..])
    else
      var (event, s') := Emit(p, s);
      Bit(event, s', pending)
  }

  lemma EmitKeepsRange(p: Params, s: State)
    requires p.Valid() && InRange(p, s)
    ensures InRange(p, Emit(p, s).1)
    ensures s.flux >= Div(s.clock, 2) ==> Max(0, Emit(p, s).1.flux) < s.flux
  {
    hide Mul;
    RangeIsPositive(p);
    var e, k := s.flux - s.clock, 100 - p.phase;
    MulBasics(e, 0, 0);
    MulBasics(-e, k, 0);
    MulBasics(k, e, -e);
    if e >= 0 {
      MulMonotone(e, k, 100);
      MulMonotone(e, 0, k);
    } else {
      MulMonotone(k, e, 0);
      MulBasics(k, 0, 0);
    }
    MulBasics(e, k, 0);
  }

  lemma LoopBitKeepsRange(p: Params, s: State, pending: seq<uint32>)
    requires p.Valid() && InRange(p, s)
    ensures InRange(p, LoopBit(p, s, pending).s)
    ensures |LoopBit(p, s, pending).rest| == |pending| && LoopBit(p, s, pending).Bit? ==>
              Max(0, LoopBit(p, s, pending).s.flux) < s.flux
    decreases |pending|
  {
    if s.flux < Div(s.clock, 2) {
      if pending != [] && ToInt(pending[0]) != -1 {
        var s' := s.(flux := s.flux + p.Scaled(pending[0]), zeros := 0);
        LoopBitKeepsRange(p, s', pending[1..]);
      }
    } else {
      EmitKeepsRange(p, s);
    }
  }

  /** Everything up to the end of the data. */
  ghost function Decode(p: Params, s: State, pending: seq<uint32>): seq<Event>
    requires p.Valid() && InRange(p, s)
    decreases |pending|, Max(0, s.flux)
  {
    LoopBitKeepsRange(p, s, pending);
    match LoopBit(p, s, pending)
    case End(_, _) => []
    case Bit(event, s', rest) => [event] + Decode(p, s', rest)
  }

  function Bits(events: seq<Event>): (r: seq<bool>)
    ensures |r| == |events|
  {
    seq(|events|, i requires 0 <= i < |events| => events[i].bit)
  }

  // ----- whole intervals

  function ZeroEvents(n: nat): (r: seq<Event>)
    ensures |r| == n
  {
    seq(n, _ => Event(false, false))
  }

  /** The loop after j zeros. */
  function AfterZeros(s: State, j: nat): State {
    State(s.clock, s.flux - Mul(j, s.clock), s.zeros + j, s.goodbits + j)
  }

  lemma EmitZero(p: Params, s: State, pending: seq<uint32>)
    requires p.Valid() && InRange(p, s) && s.clock + s.clock / 2 <= s.flux
    ensures Decode(p, s, pending) == [Event(false, false)] + Decode(p, AfterZeros(s, 1), pending)
  {
    RangeIsPositive(p);
    MulBasics(0, s.clock, 0);
  }

  /** Enough flux for j cells and half of another yields j zeros first. */
  lemma {:induction false} RunOfZeros(p: Params, s: State, pending: seq<uint32>, j: nat)
    requires p.Valid() && InRange(p, s) && s.clock / 2 <= s.flux - Mul(j, s.clock)
    ensures Decode(p, s, pending) == ZeroEvents(j) + Decode(p, AfterZeros(s, j), pending)
    decreases j
  {
    hide Mul, Decode;
    MulBasics(s.clock, j, 1);
    MulBasics(0, s.clock, 0);
    MulBasics(j, s.clock, 0);
    MulBasics(1, s.clock, 0);
    if j == 0 {
      assert AfterZeros(s, 0) == s && ZeroEvents(0) == [];
    } else {
      RangeIsPositive(p);
      MulBasics(j - 1, s.clock, 0);
      MulPositive(j - 1, s.clock);
      var s' := AfterZeros(s, 1);
      EmitZero(p, s, pending);
      RunOfZeros(p, s', pending, j - 1);
      assert AfterZeros(s', j - 1) == AfterZeros(s, j);
      assert [Event(false, false)] + ZeroEvents(j - 1) == ZeroEvents(j);
    }
  }

  /** The loop just before the one bit that ends an interval of k cells. */
  function AtOne(p: Params, s: State, t: uint32, k: nat): State
    requires k >= 1
  {
    AfterZeros(s.(flux := s.flux + p.Scaled(t), zeros := 0), k - 1)
  }

  /** The phase error that an interval read as k cells leaves, before the loop corrects for it. */
  function PhaseError(p: Params, s: State, t: uint32, k: nat): int {
    s.flux + p.Scaled(t) - Mul(k, s.clock)
  }

  /** What the phase correction leaves of an error. */
  function Residue(p: Params, e: int): int {
    Div(Mul(e, 100 - p.phase), 100)
  }

  lemma DecodeRead(p: Params, s: State, pending: seq<uint32>)
    requires p.Valid() && InRange(p, s) && s.flux < s.clock / 2 && pending != [] && ToInt(pending[0]) != -1
    ensures Decode(p, s, pending) == Decode(p, s.(flux := s.flux + p.Scaled(pending[0]), zeros := 0), pending[1..])
  {
  }

  lemma DecodeOne(p: Params, s: State, pending: seq<uint32>)
    requires p.Valid() && InRange(p, s) && s.clock / 2 <= s.flux < s.clock + s.clock / 2
    ensures InRange(p, Emit(p, s).1)
    ensures Emit(p, s).1.flux == Residue(p, s.flux - s.clock)
    ensures Emit(p, s).0.bit && (Emit(p, s).0.syncLost ==> s.zeros > 3)
    ensures Decode(p, s, pending) == [Emit(p, s).0] + Decode(p, Emit(p, s).1, pending)
  {
  }

  /** An interval whose phase error is below half the clock either way is k - 1 zeros and a one. */
  lemma OneInterval(p: Params, s: State, pending: seq<uint32>, k: nat)
    requires p.Valid() && InRange(p, s) && pending != [] && k >= 1
    requires s.flux < s.clock / 2 && ToInt(pending[0]) != -1
    requires PhaseError(p, s, pending[0], k) < s.clock / 2 <= PhaseError(p, s, pending[0], k) + s.clock
    ensures
      var (event, next) := Emit(p, AtOne(p, s, pending[0], k));
      && InRange(p, next)
      && next.flux == Residue(p, PhaseError(p, s, pending[0], k))
      && event.bit && (event.syncLost ==> k > 4)
      && Decode(p, s, pending) == ZeroEvents(k - 1) + [event] + Decode(p, next, pending[1..])
  {
    hide Mul, Decode, Emit, Params.Scaled;
    RangeIsPositive(p);
    var read := s.(flux := s.flux + p.Scaled(pending[0]), zeros := 0);
    var one := AtOne(p, s, pending[0], k);
    MulBasics(s.clock, k, 1);
    MulBasics(k, s.clock, 0);
    MulBasics(k - 1, s.clock, 0);
    MulBasics(1, s.clock, 0);
    MulPositive(k - 1, s.clock);
    assert one.flux == PhaseError(p, s, pending[0], k) + s.clock;
    DecodeRead(p, s, pending);
    RunOfZeros(p, read, pending[1..], k - 1);
    DecodeOne(p, one, pending[1..]);
  }

  /** The bits that intervals of whole cells stand for. */
  function CellBits(cells: seq<nat>): (r: seq<bool>)
    requires forall i :: 0 <= i < |cells| ==> cells[i] >= 1
    decreases |cells|
  {
    if cells == [] then [] else Zeros(cells[0] - 1) + [true] + CellBits(cells[1..])
  }

  lemma BitsOfInterval(k: nat, one: Event, rest: seq<Event>)
    requires k >= 1 && one.bit
    ensures Bits(ZeroEvents(k - 1) + [one] + rest) == Zeros(k - 1) + [true] + Bits(rest)
  {
  }

  // ----- exact intervals: the loop stays locked

  /** The loop at rest: no phase error, the clock at its centre. */
  ghost predicate Locked(p: Params, s: State) {
    s.flux == 0 && s.clock == p.bitcell
  }

  /**
    Exact intervals decode to their cells whatever the adjustment and the phase correction, because
    neither ever acts.
   */
  lemma {:induction false} ExactIntervals(p: Params, s: State, pending: seq<uint32>, cells: seq<nat>)
    requires p.Valid() && Locked(p, s) && InRange(p, s)
    requires |pending| == |cells|
    requires forall i :: 0 <= i < |cells| ==>
               cells[i] >= 1 && p.Scaled(pending[i]) == Mul(cells[i], p.bitcell) && ToInt(pending[i]) != -1
    ensures Bits(Decode(p, s, pending)) == CellBits(cells)
    decreases |cells|
  {
    if cells != [] {
      hide Mul, Decode, Emit, Params.Scaled;
      var k := cells[0];
      OneInterval(p, s, pending, k);
      StaysLocked(p, s, pending[0], k);
      var (event, next) := Emit(p, AtOne(p, s, pending[0], k));
      ExactIntervals(p, next, pending[1..], cells[1..]);
      BitsOfInterval(k, event, Decode(p, next, pending[1..]));
    }
  }

  lemma StaysLocked(p: Params, s: State, t: uint32, k: nat)
    requires p.Valid() && Locked(p, s) && k >= 1 && p.Scaled(t) == Mul(k, p.bitcell)
    ensures Locked(p, Emit(p, AtOne(p, s, t, k)).1)
  {
    hide Mul, Params.Scaled;
    RangeIsPositive(p);
    MulBasics(p.bitcell, k, 1);
    MulBasics(k, p.bitcell, 0);
    MulBasics(k - 1, p.bitcell, 0);
    MulBasics(0, p.adjust, 0);
    MulBasics(0, 100 - p.phase, 0);
    MulBasics(1, p.bitcell, 0);
    var one := AtOne(p, s, t, k);
    assert one.flux == one.clock == p.bitcell;
  }

  // ----- jittered intervals: the loop tolerates

  /** An interval within jitter percent of a cell of k cells. */
  ghost predicate Near(p: Params, t: uint32, k: nat, jitter: nat) {
    && -Mul(jitter, p.bitcell) <= 100 * (p.Scaled(t) - Mul(k, p.bitcell)) <= Mul(jitter, p.bitcell)
    && ToInt(t) != -1
  }

  /**
    What the loop is asked to tolerate: jitter, plus the clock's greatest drift over kmax cells,
    within 26 percent of a cell.
   */
  ghost predicate Tolerable(p: Params, kmax: nat, jitter: nat) {
    && p.Valid() && p.adjust <= 4 && 60 <= p.phase
    && Mul(kmax, p.adjust) + jitter <= 26
    && 200 <= p.bitcell && 50 * kmax <= p.bitcell
  }

  /** The residual phase error is kept within 19 percent of a cell. */
  ghost predicate Settled(p: Params, s: State) {
    InRange(p, s) && -19 * p.bitcell <= 100 * s.flux <= 19 * p.bitcell
  }

  /** The clock is within adjust percent of its centre, and one unit for the truncation. */
  lemma ClockError(p: Params, s: State)
    requires p.Valid() && InRange(p, s)
    ensures -Mul(p.adjust, p.bitcell) - 100 <= 100 * (s.clock - p.bitcell) <= Mul(p.adjust, p.bitcell)
    ensures 0 <= Mul(p.adjust, p.bitcell) && (p.adjust <= 4 ==> Mul(p.adjust, p.bitcell) <= 4 * p.bitcell)
  {
    hide Mul;
    var c, a := p.bitcell, p.adjust;
    RangeIsPositive(p);
    MulBasics(c, 100, a);
    MulBasics(c, a, 0);
    MulPositive(a, c);
    MulMonotone(c, a, 50);
    MulBasics(c, 0, 1);
    MulBasics(c, 1, 1);
    MulBasics(c, 2, 2);
    if a <= 4 {
      MulMonotone(c, a, 4);
    }
    var d := s.clock - c;
    assert Mul(c, 50) == Mul(c, 2) + Mul(c, 48) by {
      MulBasics(c, 2, 48);
    }
    MulBasics(1, c, 0);
  }

  /** The drift of the clock over k cells. */
  lemma Drift(x: int, d: int, k: nat, kmax: nat)
    requires 0 <= x && -x - 100 <= 100 * d <= x && k <= kmax
    ensures -Mul(kmax, x) - 100 * kmax <= 100 * Mul(k, d) <= Mul(kmax, x)
  {
    hide Mul;
    MulMonotone(k, -x - 100, 100 * d);
    MulMonotone(k, 100 * d, x);
    MulMonotone(x, k, kmax);
    MulBasics(x, k, 0);
    MulBasics(x, kmax, 0);
    MulBasics(k, d, 0);
    MulBasics(k, -x, 100);
    MulBasics(k, 0, x);
    MulBasics(k, 0, 0);
    MulBasics(0, k, 0);
  }

  /** The pre-correction phase error stays within 47 percent of a cell, which is below half of every clock in range. */
  lemma ErrorIsBelowHalf(p: Params, s: State, t: uint32, k: nat, kmax: nat, jitter: nat)
    requires Tolerable(p, kmax, jitter) && Settled(p, s) && Near(p, t, k, jitter) && k <= kmax
    ensures -47 * p.bitcell <= 100 * PhaseError(p, s, t, k) <= 47 * p.bitcell
    ensures p.Valid() && ToInt(t) != -1 && s.flux < s.clock / 2
    ensures PhaseError(p, s, t, k) < s.clock / 2 <= PhaseError(p, s, t, k) + s.clock
  {
    hide Mul, Params.Scaled;
    var c, a := p.bitcell, p.adjust;
    RangeIsPositive(p);
    ClockError(p, s);
    Drift(Mul(a, c), s.clock - c, k, kmax);
    MulBasics(kmax, a, c);
    MulBasics(k, s.clock, c);
    MulBasics(c, Mul(kmax, a), jitter);
    MulBasics(c, Mul(kmax, a), 0);
    MulBasics(c, jitter, 0);
    MulMonotone(c, Mul(kmax, a) + jitter, 26);
    TwentySix(c);
  }

  lemma TwentySix(c: int)
    ensures Mul(c, 26) == 26 * c
  {
  }

  /** Correcting at least 60 percent of an error of at most 47 leaves at most 19. */
  lemma CorrectionSettles(p: Params, e: int)
    requires p.Valid() && 60 <= p.phase && -47 * p.bitcell <= 100 * e <= 47 * p.bitcell
    ensures -19 * p.bitcell <= 100 * Residue(p, e) <= 19 * p.bitcell
  {
    var g := 100 - p.phase;
    if e >= 0 {
      MulMonotone(e, 0, g);
      MulMonotone(e, g, 40);
    } else {
      MulMonotone(-e, 0, g);
      MulMonotone(-e, g, 40);
      assert Mul(-e, g) == -Mul(e, g);
    }
  }

  lemma NoIntervals(p: Params, s: State, kmax: nat, jitter: nat)
    requires Tolerable(p, kmax, jitter) && Settled(p, s)
    ensures Decode(p, s, []) == []
  {
    hide Mul;
    RangeIsPositive(p);
    ClockError(p, s);
  }

  lemma SettledAllows(p: Params, kmax: nat, jitter: nat)
    requires Tolerable(p, kmax, jitter)
    ensures p.Valid() && 60 <= p.phase
  {
  }

  /**
    Jitter tolerance.  Intervals of any number, each within jitter percent of a
    whole number of cells up to kmax, decode to exactly those cells; and if none
    is longer than four cells, no loss of sync is reported anywhere.
   */
  lemma {:induction false} ToleratesJitter(p: Params, s: State, pending: seq<uint32>, cells: seq<nat>, kmax: nat,
                                          jitter: nat)
    requires Tolerable(p, kmax, jitter) && Settled(p, s)
    requires |pending| == |cells|
    requires forall i :: 0 <= i < |cells| ==> 1 <= cells[i] <= kmax && Near(p, pending[i], cells[i], jitter)
    ensures Bits(Decode(p, s, pending)) == CellBits(cells)
    ensures kmax <= 4 ==> forall i :: 0 <= i < |Decode(p, s, pending)| ==> !Decode(p, s, pending)[i].syncLost
    decreases |cells|
  {
    hide Mul, Decode, Emit, PhaseError, AtOne, Near, Residue, Tolerable;
    if cells == [] {
      NoIntervals(p, s, kmax, jitter);
    } else {
      SettledAllows(p, kmax, jitter);
      var k := cells[0];
      ErrorIsBelowHalf(p, s, pending[0], k, kmax, jitter);
      OneInterval(p, s, pending, k);
      CorrectionSettles(p, PhaseError(p, s, pending[0], k));
      var (event, next) := Emit(p, AtOne(p, s, pending[0], k));
      ToleratesJitter(p, next, pending[1..], cells[1..], kmax, jitter);
      BitsOfInterval(k, event, Decode(p, next, pending[1..]));
    }
  }

  /** In particular a tenth of a cell on intervals of up to four, from a new decoder without scaling. */
  lemma ToleratesTenth(p: Params, pending: seq<uint32>, cells: seq<nat>)
    requires p.Valid() && p.scale == 100 && 500 <= p.bitcell < 0x1000_0000 && p.adjust <= 4 && 60 <= p.phase
    requires |pending| == |cells|
    requires forall i :: 0 <= i < |cells| ==>
               1 <= cells[i] <= 4 && -p.bitcell <= 10 * (pending[i] - Mul(cells[i], p.bitcell)) <= p.bitcell
    ensures InRange(p, Initial(p))
    ensures Bits(Decode(p, Initial(p), pending)) == CellBits(cells)
    ensures forall i :: 0 <= i < |Decode(p, Initial(p), pending)| ==> !Decode(p, Initial(p), pending)[i].syncLost
  {
    hide Decode, Near;
    RangeIsPositive(p);
    forall i | 0 <= i < |cells|
      ensures Near(p, pending[i], cells[i], 10)
    {
      WithinTenth(p, pending[i], cells[i]);
    }
    assert Mul(4, p.adjust) == 4 * p.adjust;
    ToleratesJitter(p, Initial(p), pending, cells, 4, 10);
  }

  lemma WithinTenth(p: Params, t: uint32, k: nat)
    requires p.scale == 100 && 4 <= p.bitcell < 0x1000_0000 && 1 <= k <= 4
    requires -p.bitcell <= 10 * (t - Mul(k, p.bitcell)) <= p.bitcell
    ensures Near(p, t, k, 10)
  {
    hide Mul;
    MulMonotone(p.bitcell, k, 4);
    TenAndFour(p.bitcell, k);
  }

  lemma TenAndFour(c: int, k: nat)
    ensures Mul(10, c) == 10 * c && Mul(c, 4) == 4 * c && Mul(c, k) == Mul(k, c)
  {
  }

  // ----- wobble

  lemma ScaledNear(p: Params, t: uint32, k: nat)
    requires p.Valid() && 200 <= p.bitcell && 98 <= p.scale <= 102
    requires 1 <= k <= 4 && t == Mul(k, p.bitcell) < 0x8000_0000
    ensures Near(p, t, k, 9)
  {
    var c := p.bitcell;
    assert Mul(9, c) == 9 * c;
    MulMonotone(c, k, 4);
    MulBasics(c, k, 0);
    assert Mul(c, 4) == 4 * c;
    MulMonotone(t, 98, p.scale);
    MulMonotone(t, p.scale, 102);
    assert Mul(t, 98) == 98 * t && Mul(t, 102) == 102 * t;
  }

  /**
    Wobble invariance.  Intervals of exactly one to four cells decode to the
    same bits at every flux scale from 98 to 102 percent and every adjustment
    up to 4 percent.
   */
  lemma WobbleInvariant(p: Params, q: Params, pending: seq<uint32>, cells: seq<nat>)
    requires p.Valid() && q.Valid() && p.bitcell == q.bitcell >= 200
    requires 98 <= p.scale <= 102 && 98 <= q.scale <= 102
    requires p.adjust <= 4 && q.adjust <= 4 && 60 <= p.phase && 60 <= q.phase
    requires |pending| == |cells|
    requires forall i :: 0 <= i < |cells| ==> 1 <= cells[i] <= 4 && pending[i] == Mul(cells[i], p.bitcell) < 0x8000_0000
    ensures InRange(p, Initial(p)) && InRange(q, Initial(q))
    ensures Bits(Decode(p, Initial(p), pending)) == Bits(Decode(q, Initial(q), pending)) == CellBits(cells)
  {
    WobbleTolerated(p, pending, cells);
    WobbleTolerated(q, pending, cells);
  }

  lemma WobbleTolerated(p: Params, pending: seq<uint32>, cells: seq<nat>)
    requires p.Valid() && p.bitcell >= 200 && 98 <= p.scale <= 102 && p.adjust <= 4 && 60 <= p.phase
    requires |pending| == |cells|
    requires forall i :: 0 <= i < |cells| ==> 1 <= cells[i] <= 4 && pending[i] == Mul(cells[i], p.bitcell) < 0x8000_0000
    ensures InRange(p, Initial(p))
    ensures Bits(Decode(p, Initial(p), pending)) == CellBits(cells)
  {
    hide Decode, Near;
    RangeIsPositive(p);
    forall i | 0 <= i < |cells|
      ensures Near(p, pending[i], cells[i], 9)
    {
      ScaledNear(p, pending[i], cells[i]);
    }
    assert Mul(4, p.adjust) == 4 * p.adjust;
    ToleratesJitter(p, Initial(p), pending, cells, 4, 9);
  }

  // ----- the decoder over revolutions

  /** The intervals next_flux will deliver: it stops for good at the first empty revolution it has to enter. */
  function Delivered(revs: seq<seq<uint32>>, rev: nat, pos: nat): seq<uint32>
    requires rev < |revs| && pos <= |revs[rev]|
    decreases |revs| - rev
  {
    revs[rev][pos..] + (if rev + 1 < |revs| && revs[rev + 1] != [] then Delivered(revs, rev + 1, 0) else [])
  }

  lemma DeliveredStep(revs: seq<seq<uint32>>, rev: nat, pos: nat)
    requires rev < |revs| && pos <= |revs[rev]|
    ensures pos < |revs[rev]| ==> Delivered(revs, rev, pos) == [revs[rev][pos]] + Delivered(revs, rev, pos + 1)
    ensures pos == |revs[rev]| ==>
              Delivered(revs, rev, pos) ==
                if rev + 1 < |revs| && revs[rev + 1] != [] then Delivered(revs, rev + 1, 0) else []
  {
    if pos < |revs[rev]| {
      assert revs[rev][pos..] == [revs[rev][pos]] + revs[rev][pos + 1..];
    }
  }

  /** Where the decoder stands after k more intervals: at the end of a revolution until the next is asked for. */
  function Advance(revs: seq<seq<uint32>>, rev: nat, pos: nat, k: nat): (r: (nat, nat))
    requires rev < |revs| && pos <= |revs[rev]| && k <= |Delivered(revs, rev, pos)|
    ensures rev <= r.0 < |revs| && r.1 <= |revs[r.0]|
    ensures Delivered(revs, r.0, r.1) == Delivered(revs, rev, pos)[k..]
    decreases |revs| - rev
  {
    var here := |revs[rev]| - pos;
    if k <= here then
      assert revs[rev][pos..][k..] == revs[rev][pos + k..];
      (rev, pos + k)
    else
      assert Delivered(revs, rev, pos)[here..] == Delivered(revs, rev + 1, 0);
      assert Delivered(revs, rev, pos)[here..][k - here..] == Delivered(revs, rev, pos)[k..];
      Advance(revs, rev + 1, 0, k - here)
  }

  lemma AdvanceNone(revs: seq<seq<uint32>>, rev: nat, pos: nat)
    requires rev < |revs| && pos <= |revs[rev]|
    ensures Advance(revs, rev, pos, 0) == (rev, pos)
  {
  }

  lemma DeliveredLength(revs: seq<seq<uint32>>, rev: nat, pos: nat)
    requires rev < |revs| && pos <= |revs[rev]|
    ensures |Delivered(revs, rev, pos)| == |revs[rev]| - pos
              + if rev + 1 < |revs| && revs[rev + 1] != [] then |Delivered(revs, rev + 1, 0)| else 0
  {
  }

  /** Intervals are counted along revolutions without gaps. */
  lemma {:induction false} AdvanceTwice(revs: seq<seq<uint32>>, rev: nat, pos: nat, j: nat, k: nat)
    requires rev < |revs| && pos <= |revs[rev]| && j + k <= |Delivered(revs, rev, pos)|
    ensures
      var (rev', pos') := Advance(revs, rev, pos, j);
      k <= |Delivered(revs, rev', pos')| && Advance(revs, rev', pos', k) == Advance(revs, rev, pos, j + k)
    decreases |revs| - rev
  {
    hide Delivered;
    DeliveredLength(revs, rev, pos);
    var here := |revs[rev]| - pos;
    if j > here {
      AdvanceTwice(revs, rev + 1, 0, j - here, k);
    }
  }

  class FluxDecoder {
    const fluxRevs: seq<seq<uint32>>
    const params: Params

    var rev: nat
    var pos: nat
    var clock: int
    var flux: int
    var clockedZeros: nat
    var goodbits: nat
    var indexSeen: bool
    var lost: bool

    /** There is, or has not yet been found not to be, something left to decode. */
    ghost predicate Valid()
      reads this`rev, this`pos, this`clock, this`flux, this`clockedZeros, this`goodbits
    {
      rev < |fluxRevs| && pos <= |fluxRevs[rev]| && params.Valid() && InRange(params, Loop())
    }

    /** The numeric state of the loop. */
    ghost function Loop(): State
      reads this`clock, this`flux, this`clockedZeros, this`goodbits
    {
      State(clock, flux, clockedZeros, goodbits)
    }

    ghost function Pending(): seq<uint32>
      requires rev < |fluxRevs| && pos <= |fluxRevs[rev]|
      reads this`rev, this`pos
    {
      Delivered(fluxRevs, rev, pos)
    }

    constructor (fluxRevs: seq<seq<uint32>>, params: Params)
      requires fluxRevs != [] && params.Valid()
      ensures this.fluxRevs == fluxRevs && this.params == params
      ensures Valid() && Loop() == Initial(params) && Pending() == Delivered(fluxRevs, 0, 0)
      ensures !indexSeen && !lost
    {
      RangeIsPositive(params);
      this.fluxRevs, this.params := fluxRevs, params;
      rev, pos := 0, 0;
      clock, flux, clockedZeros, goodbits := params.bitcell, 0, 0, 0;
      indexSeen, lost := false, false;
    }

    /** index(): whether a revolution has begun since it was last asked. */
    method Index() returns (r: bool)
      modifies this`indexSeen
      ensures r == old(indexSeen) && !indexSeen
    {
      r := indexSeen;
      indexSeen := false;
    }

    method SyncLost() returns (r: bool)
      modifies this`lost
      ensures r == old(lost) && !lost
    {
      r := lost;
      lost := false;
    }

    method NextFlux() returns (t: int)
      requires rev < |fluxRevs| && pos <= |fluxRevs[rev]|
      modifies this`rev, this`pos, this`indexSeen
      ensures old(Pending()) == [] ==> t == -1
      ensures old(Pending()) != [] ==>
                && rev < |fluxRevs| && pos <= |fluxRevs[rev]|
                && t == ToInt(old(Pending())[0]) && Pending() == old(Pending())[1..]
                && (rev, pos) == Advance(fluxRevs, old(rev), old(pos), 1)
                && indexSeen == (old(indexSeen) || rev > old(rev))
    {
      DeliveredStep(fluxRevs, rev, pos);
      if pos == |fluxRevs[rev]| {
        rev := rev + 1;
        if rev == |fluxRevs| {
          return -1;
        }
        indexSeen := true;
        pos := 0;
        if pos == |fluxRevs[rev]| {
          return -1;
        }
      }
      DeliveredStep(fluxRevs, rev, pos);
      t := ToInt(fluxRevs[rev][pos]);
      pos := pos + 1;
    }

    /** The second half of next_bit: clock one bit out of enough flux, and adjust the loop if it is a one. */
    method ClockBit() returns (bit: int)
      requires Valid() && flux >= Div(clock, 2)
      modifies this`clock, this`flux, this`clockedZeros, this`goodbits, this`lost
      ensures
        var (event, s) := Emit(params, old(Loop()));
        && bit == (if event.bit then 1 else 0)
        && lost == (old(lost) || event.syncLost)
        && Valid() && Loop() == s
    {
      hide Mul;
      EmitKeepsRange(params, Loop());
      flux := flux - clock;
      if flux >= Div(clock, 2) {
        clockedZeros := clockedZeros + 1;
        goodbits := goodbits + 1;
        return 0;
      }
      if clockedZeros <= 3 {
        clock := clock + Div(Mul(flux, params.adjust), 100);
      } else {
        clock := clock + Div(Mul(params.bitcell - clock, params.adjust), 100);
        if goodbits >= 256 {
          lost := true;
        }
        goodbits := 0;
      }
      clock := Min(Max(params.clockMin, clock), params.clockMax);
      flux := Div(Mul(flux, 100 - params.phase), 100);
      goodbits := goodbits + 1;
      return 1;
    }

    /** One round of next_bit's loop: add the next interval, if there is one, to the flux. */
    method AddFlux() returns (more: bool)
      requires Valid()
      modifies this`rev, this`pos, this`indexSeen, this`flux, this`clockedZeros
      ensures more == (old(Pending()) != [] && ToInt(old(Pending())[0]) != -1)
      ensures more ==>
                && Valid() && Pending() == old(Pending())[1..]
                && Loop() == old(Loop()).(flux := old(flux) + params.Scaled(old(Pending())[0]), zeros := 0)
                && (rev, pos) == Advance(fluxRevs, old(rev), old(pos), 1)
                && indexSeen == (old(indexSeen) || rev > old(rev))
    {
      hide Delivered, Mul, Advance, ToInt;
      var newFlux := NextFlux();
      if newFlux == -1 {
        return false;
      }
      if params.scale != 100 {
        newFlux := Div(Mul(newFlux, params.scale), 100);
      }
      flux := flux + newFlux;
      clockedZeros := 0;
      more := true;
    }

    /** The next bit, or -1 at the end of the data. */
    method NextBit() returns (bit: int)
      requires Valid()
      modifies this
      ensures
        var r := LoopBit(params, old(Loop()), old(Pending()));
        if r.End? then bit == -1
        else
          && bit == (if r.event.bit then 1 else 0)
          && lost == (old(lost) || r.event.syncLost)
          && Valid() && Loop() == r.s && Pending() == r.rest
          && (rev, pos) == Advance(fluxRevs, old(rev), old(pos), |old(Pending())| - |r.rest|)
          && indexSeen == (old(indexSeen) || rev > old(rev))
    {
      hide Delivered, Mul, Advance, ToInt, Params.Scaled;
      RangeIsPositive(params);
      ghost var outcome := LoopBit(params, Loop(), Pending());
      ghost var k := 0;
      AdvanceNone(fluxRevs, rev, pos);
      while flux < Div(clock, 2)
        invariant Valid() && lost == old(lost)
        invariant LoopBit(params, Loop(), Pending()) == outcome
        invariant k <= |old(Pending())| && Pending() == old(Pending())[k..]
        invariant (rev, pos) == Advance(fluxRevs, old(rev), old(pos), k)
        invariant indexSeen == (old(indexSeen) || rev > old(rev))
        decreases |Pending()|
      {
        if k < |old(Pending())| {
          AdvanceTwice(fluxRevs, old(rev), old(pos), k, 1);
        }
        var more := AddFlux();
        if !more {
          return -1;
        }
        k := k + 1;
      }
      bit := ClockBit();
    }
  }
}
