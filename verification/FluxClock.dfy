/**
  What the decoder's corrections are for: the clock moves towards the intervals
  it sees, so a drive that is off speed is followed, and a loss of sync is
  reported after enough good bits.
 */
module FluxClock {
  import opened FluxDecoding
  import opened Words

  /** d is x percent of n, truncated towards zero. */
  predicate IsPercent(d: int, x: int, n: int) {
    if Mul(x, n) >= 0 then 0 <= Mul(x, n) - 100 * d < 100 else -100 < Mul(x, n) - 100 * d <= 0
  }

  lemma DivIsPercent(x: int, n: int)
    ensures IsPercent(Div(Mul(x, n), 100), x, n)
  {
    hide Mul;
  }

  /** The clock's limits, and an interval as it is seen at a scale. */
  lemma LimitsAndScale(p: Params, t: uint32)
    ensures IsPercent(p.clockMin, 100 - p.adjust, p.bitcell) && IsPercent(p.clockMax, 100 + p.adjust, p.bitcell)
    ensures IsPercent(p.Scaled(t), p.scale, ToInt(t))
  {
    hide Mul;
    DivIsPercent(p.bitcell, 100 - p.adjust);
    DivIsPercent(p.bitcell, 100 + p.adjust);
    DivIsPercent(ToInt(t), p.scale);
    MulBasics(p.bitcell, 100 - p.adjust, 0);
    MulBasics(p.bitcell, 100 + p.adjust, 0);
    MulBasics(ToInt(t), p.scale, 0);
    MulBasics(ToInt(t), 0, ToInt(t));
  }

  /** The nearest value in the clock's range. */
  predicate IsClamped(p: Params, clock: int, wanted: int) {
    if wanted < p.clockMin then clock == p.clockMin
    else if wanted > p.clockMax then clock == p.clockMax
    else clock == wanted
  }

  /**
    At a one with phase error e the clock moves by adjust percent of the error,
    or, behind more than three zeros, of its distance from the centre; and what
    is left of the error is what the phase correction leaves.
   */
  lemma OneMovesClock(p: Params, s: State) returns (move: int)
    requires p.Valid() && InRange(p, s) && s.clock / 2 <= s.flux < s.clock + s.clock / 2
    ensures
      var e, next := s.flux - s.clock, Emit(p, s).1;
      && IsPercent(move, p.adjust, if s.zeros <= 3 then e else p.bitcell - s.clock)
      && IsClamped(p, next.clock, s.clock + move)
      && IsPercent(next.flux, 100 - p.phase, e)
  {
    hide Mul;
    RangeIsPositive(p);
    var e := s.flux - s.clock;
    var x := if s.zeros <= 3 then e else p.bitcell - s.clock;
    move := Div(Mul(x, p.adjust), 100);
    DivIsPercent(x, p.adjust);
    DivIsPercent(e, 100 - p.phase);
    MulBasics(x, p.adjust, 0);
    MulBasics(e, 100 - p.phase, 0);
  }

  /** The clock goes up at a late one, and down at an early one, unless it is at its limit or the move too small. */
  lemma ClockFollows(p: Params, s: State)
    requires p.Valid() && InRange(p, s) && s.clock / 2 <= s.flux < s.clock + s.clock / 2 && s.zeros <= 3
    ensures Mul(p.adjust, s.flux - s.clock) >= 100 && s.clock < p.clockMax ==> Emit(p, s).1.clock > s.clock
    ensures Mul(p.adjust, s.flux - s.clock) <= -100 && s.clock > p.clockMin ==> Emit(p, s).1.clock < s.clock
    ensures -100 < Mul(p.adjust, s.flux - s.clock) < 100 ==> Emit(p, s).1.clock == s.clock
  {
    hide Mul, Emit;
    var move := OneMovesClock(p, s);
  }

  // ----- a drive that is off speed

  /** A bitcell of 2000 ns, full scale, and the default adjustment and phase settings or another adjustment. */
  function Settings(adjust: int): Params {
    Params(2000, 100, adjust, 60)
  }

  /** The loop on the way to intervals that are 9 percent too long, or there. */
  predicate Following(s: State) {
    2000 <= s.clock <= 2080 && 0 <= s.flux <= 400 && s.flux <= 11 * (s.clock - 2000)
  }

  lemma StaysFollowing(s: State)
    requires Following(s)
    ensures InRange(Settings(4), s) && 0 < s.clock && s.flux < s.clock / 2
    ensures
      var e := PhaseError(Settings(4), s, 8720, 4);
      && 0 <= e < s.clock / 2 && Following(Emit(Settings(4), AtOne(Settings(4), s, 8720, 4)).1)
  {
    var p := Settings(4);
    var one := AtOne(p, s, 8720, 4);
    assert one.flux == s.flux + 8720 - 3 * s.clock && one.clock == s.clock;
    assert p.Scaled(8720) == 8720;
    assert p.clockMin == 1920 && p.clockMax == 2080;
    assert s.zeros >= 0 && one.zeros == 3;
  }

  /** Four-cell intervals 9 percent too long are read as four cells for as long as they go on. */
  lemma {:induction false} SlowDriveFollowed(s: State, pending: seq<uint32>, cells: seq<nat>)
    requires Following(s) && |pending| == |cells|
    requires forall i :: 0 <= i < |cells| ==> pending[i] == 8720 && cells[i] == 4
    ensures InRange(Settings(4), s)
    ensures Bits(Decode(Settings(4), s, pending)) == CellBits(cells)
    decreases |pending|
  {
    hide Decode, Emit, AtOne, Following;
    var p := Settings(4);
    StaysFollowing(s);
    if pending == [] {
      NothingMore(p, s);
    } else {
      OneInterval(p, s, pending, 4);
      var (event, next) := Emit(p, AtOne(p, s, 8720, 4));
      SlowDriveFollowed(next, pending[1..], cells[1..]);
      BitsOfInterval(4, event, Decode(p, next, pending[1..]));
    }
  }

  /** A new decoder follows it. */
  lemma SlowDrive(n: nat)
    ensures InRange(Settings(4), Initial(Settings(4)))
    ensures Bits(Decode(Settings(4), Initial(Settings(4)), seq(n, _ => 8720))) == CellBits(seq(n, _ => 4))
  {
    hide Decode;
    SlowDriveFollowed(Initial(Settings(4)), seq(n, _ => 8720), seq(n, _ => 4));
  }

  /** A clock that is not adjusted loses a cell at the second interval. */
  lemma FixedClockMisreads()
    ensures InRange(Settings(0), Initial(Settings(0)))
    ensures Bits(Decode(Settings(0), Initial(Settings(0)), [8720, 8720])) == CellBits([4, 5])
  {
    hide Decode, Emit, AtOne, CellBits;
    var p, s := Settings(0), Initial(Settings(0));
    FixedSteps(State(2000, 288, 3, 4));
    OneInterval(p, s, [8720, 8720], 4);
    var (event, next) := Emit(p, AtOne(p, s, 8720, 4));
    assert [8720, 8720][1..] == [8720] && [8720][1..] == [];
    OneInterval(p, next, [8720], 5);
    var (event', last) := Emit(p, AtOne(p, next, 8720, 5));
    NothingMore(p, last);
    BitsOfInterval(4, event, Decode(p, next, [8720]));
    BitsOfInterval(5, event', []);
    TwoCells();
  }

  lemma FixedSteps(next: State)
    requires next == State(2000, 288, 3, 4)
    ensures InRange(Settings(0), Initial(Settings(0))) && InRange(Settings(0), next)
    ensures PhaseError(Settings(0), Initial(Settings(0)), 8720, 4) == 720
    ensures Emit(Settings(0), AtOne(Settings(0), Initial(Settings(0)), 8720, 4)).1 == next
    ensures PhaseError(Settings(0), next, 8720, 5) == -992
    ensures Residue(Settings(0), -992) == -396
  {
  }

  lemma TwoCells()
    ensures CellBits([4, 5]) == Zeros(3) + [true] + (Zeros(4) + [true])
  {
    assert [4, 5][1..] == [5] && [5][1..] == [];
  }

  lemma NothingMore(p: Params, s: State)
    requires p.Valid() && InRange(p, s) && s.flux < s.clock / 2
    ensures Decode(p, s, []) == []
  {
  }

  // ----- losses of sync

  /**
    The events of exact intervals: a loss of sync is reported at the end of an
    interval of more than four cells, if at least 256 bits have been read since
    the last such end, or since the start.
   */
  function SyncEvents(cells: seq<nat>, good: nat): seq<Event>
    requires forall i :: 0 <= i < |cells| ==> cells[i] >= 1
    decreases |cells|
  {
    if cells == [] then []
    else
      var k := cells[0];
      ZeroEvents(k - 1) + [Event(true, k > 4 && good + (k - 1) >= 256)]
      + SyncEvents(cells[1..], if k > 4 then 1 else good + k)
  }

  lemma LockedOne(p: Params, s: State, t: uint32, k: nat)
    requires p.Valid() && Locked(p, s) && k >= 1 && p.Scaled(t) == Mul(k, p.bitcell)
    ensures
      var (event, next) := Emit(p, AtOne(p, s, t, k));
      && event == Event(true, k > 4 && s.goodbits + (k - 1) >= 256)
      && next.goodbits == if k > 4 then 1 else s.goodbits + k
  {
    hide Mul, Params.Scaled;
    RangeIsPositive(p);
    MulBasics(p.bitcell, k, 1);
    MulBasics(k, p.bitcell, 0);
    MulBasics(k - 1, p.bitcell, 0);
    MulBasics(1, p.bitcell, 0);
    var one := AtOne(p, s, t, k);
    assert one.flux == one.clock == p.bitcell;
  }

  /** A locked loop reports exactly those. */
  lemma {:induction false} ExactEvents(p: Params, s: State, pending: seq<uint32>, cells: seq<nat>)
    requires p.Valid() && Locked(p, s) && InRange(p, s) && |pending| == |cells|
    requires forall i :: 0 <= i < |cells| ==>
               cells[i] >= 1 && p.Scaled(pending[i]) == Mul(cells[i], p.bitcell) && ToInt(pending[i]) != -1
    ensures Decode(p, s, pending) == SyncEvents(cells, s.goodbits)
    decreases |cells|
  {
    hide Mul, Decode, Emit, Params.Scaled;
    RangeIsPositive(p);
    if cells == [] {
      NothingMore(p, s);
    } else {
      var k := cells[0];
      OneInterval(p, s, pending, k);
      StaysLocked(p, s, pending[0], k);
      LockedOne(p, s, pending[0], k);
      ExactEvents(p, Emit(p, AtOne(p, s, pending[0], k)).1, pending[1..], cells[1..]);
    }
  }
}
