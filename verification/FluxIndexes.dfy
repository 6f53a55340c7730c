/**
  Where the index positions of a buffer rebuilt from generated flux lie: one
  for each revolution that is delivered after the first, behind the first bit
  that is decoded from it.
 */
module FluxIndexing {
  import opened FluxDecoding
  import opened FluxEncoding
  import opened FluxRoundTrip
  import opened Words

  // ----- one interval

  /** The revolution and position behind the next interval delivered. */
  function Onward(revs: seq<seq<uint32>>, rev: nat, pos: nat): (nat, nat)
    requires rev < |revs| && pos <= |revs[rev]|
  {
    if pos < |revs[rev]| then (rev, pos + 1) else (rev + 1, 1)
  }

  lemma OnwardIsAdvance(revs: seq<seq<uint32>>, rev: nat, pos: nat)
    requires rev < |revs| && pos <= |revs[rev]| && Delivered(revs, rev, pos) != []
    ensures
      var (rev', pos') := Onward(revs, rev, pos);
      && rev' < |revs| && pos' <= |revs[rev']|
      && Advance(revs, rev, pos, 1) == (rev', pos') && Advance(revs, rev', pos', 0) == (rev', pos')
      && Delivered(revs, rev', pos') == Delivered(revs, rev, pos)[1..]
  {
    DeliveredStep(revs, rev, pos);
    if pos == |revs[rev]| {
      DeliveredStep(revs, rev + 1, 0);
    }
  }

  /** The loop with the next interval read. */
  function Read(p: Params, s: State, t: uint32): State {
    s.(flux := s.flux + p.Scaled(t), zeros := 0)
  }

  /** The position recorded when an interval of another revolution is read, and no other till the next read. */
  lemma ReadRecords(p: Params, s: State, revs: seq<seq<uint32>>, rev: nat, pos: nat, at: nat)
    requires p.Valid() && InRange(p, s) && rev < |revs| && pos <= |revs[rev]|
    requires Delivered(revs, rev, pos) != [] && s.flux < s.clock / 2
    requires
      var t := Delivered(revs, rev, pos)[0];
      ToInt(t) != -1 && Read(p, s, t).flux >= s.clock / 2
    ensures
      var (rev', pos') := Onward(revs, rev, pos);
      && rev' < |revs| && pos' <= |revs[rev']|
      && IndexPositions(p, s, revs, rev, pos, false, at)
         == (if rev' > rev then [at + 1] else [])
            + IndexPositions(p, Read(p, s, Delivered(revs, rev, pos)[0]), revs, rev', pos', false, at)
  {
    hide Mul, Emit, IndexPositions, Delivered, Advance, Params.Scaled;
    RangeIsPositive(p);
    var pending := Delivered(revs, rev, pos);
    var s' := Read(p, s, pending[0]);
    var (rev', pos') := Onward(revs, rev, pos);
    OnwardIsAdvance(revs, rev, pos);
    assert LoopBit(p, s, pending) == LoopBit(p, s', pending[1..]);
    assert LoopBit(p, s', pending[1..]).rest == pending[1..];
    NextIndexPosition(p, s, revs, rev, pos, false, at);
    NextIndexPosition(p, s', revs, rev', pos', false, at);
  }

  /** A bit for which nothing is read records no position. */
  lemma NothingRead(p: Params, s: State, revs: seq<seq<uint32>>, rev: nat, pos: nat, at: nat)
    requires p.Valid() && InRange(p, s) && rev < |revs| && pos <= |revs[rev]| && s.flux >= s.clock / 2
    ensures InRange(p, Emit(p, s).1)
    ensures IndexPositions(p, s, revs, rev, pos, false, at)
         == IndexPositions(p, Emit(p, s).1, revs, rev, pos, false, at + 1)
  {
    hide Mul, Emit, IndexPositions, Delivered;
    RangeIsPositive(p);
    NextIndexPosition(p, s, revs, rev, pos, false, at);
  }

  lemma {:induction false} ZerosRecordNothing(p: Params, s: State, revs: seq<seq<uint32>>, rev: nat, pos: nat, at: nat,
      j: nat)
    requires p.Valid() && InRange(p, s) && rev < |revs| && pos <= |revs[rev]|
    requires s.clock / 2 <= s.flux - Mul(j, s.clock)
    ensures IndexPositions(p, s, revs, rev, pos, false, at)
         == IndexPositions(p, AfterZeros(s, j), revs, rev, pos, false, at + j)
    decreases j
  {
    hide Mul, IndexPositions, Emit;
    MulBasics(s.clock, j, 1);
    MulBasics(0, s.clock, 0);
    MulBasics(j, s.clock, 0);
    MulBasics(1, s.clock, 0);
    if j == 0 {
      assert AfterZeros(s, 0) == s;
    } else {
      RangeIsPositive(p);
      MulBasics(j - 1, s.clock, 0);
      MulPositive(j - 1, s.clock);
      OneZero(p, s);
      NothingRead(p, s, revs, rev, pos, at);
      ZerosRecordNothing(p, AfterZeros(s, 1), revs, rev, pos, at + 1, j - 1);
      assert AfterZeros(AfterZeros(s, 1), j - 1) == AfterZeros(s, j);
    }
  }

  lemma OneZero(p: Params, s: State)
    requires p.Valid() && InRange(p, s) && s.clock + s.clock / 2 <= s.flux
    ensures Emit(p, s).1 == AfterZeros(s, 1)
  {
    RangeIsPositive(p);
  }

  /** An exact interval of k cells at a locked loop. */
  lemma IntervalRecords(p: Params, s: State, revs: seq<seq<uint32>>, rev: nat, pos: nat, at: nat, k: nat)
    requires p.Valid() && p.scale == 100 && Locked(p, s) && InRange(p, s) && k >= 1
    requires rev < |revs| && pos <= |revs[rev]| && Delivered(revs, rev, pos) != []
    requires Delivered(revs, rev, pos)[0] == Wrap(Mul(k, p.bitcell)) && Mul(k, p.bitcell) < 0x8000_0000
    ensures
      var (rev', pos') := Onward(revs, rev, pos);
      var next := Emit(p, AtOne(p, s, Delivered(revs, rev, pos)[0], k)).1;
      && rev' < |revs| && pos' <= |revs[rev']|
      && Locked(p, next) && InRange(p, next)
      && IndexPositions(p, s, revs, rev, pos, false, at)
         == (if rev' > rev then [at + 1] else []) + IndexPositions(p, next, revs, rev', pos', false, at + k)
  {
    hide Mul, IndexPositions, Emit, Delivered, Wrap, ToInt;
    RangeIsPositive(p);
    var pending := Delivered(revs, rev, pos);
    var t := pending[0];
    var (rev', pos') := Onward(revs, rev, pos);
    OnwardIsAdvance(revs, rev, pos);
    MulBasics(p.bitcell, k, 1);
    MulBasics(k, p.bitcell, 0);
    MulBasics(k - 1, p.bitcell, 0);
    MulBasics(1, p.bitcell, 0);
    MulPositive(k, p.bitcell);
    ReadBack(Mul(k, p.bitcell));
    ReadRecords(p, s, revs, rev, pos, at);
    ZerosRecordNothing(p, Read(p, s, t), revs, rev', pos', at, k - 1);
    NothingRead(p, AtOne(p, s, t, k), revs, rev', pos', at + k - 1);
    StaysLocked(p, s, t, k);
  }

  // ----- revolutions of exact intervals

  /** The cells of each revolution, whose intervals all fit. */
  ghost predicate Spans(c: nat, revs: seq<seq<uint32>>, spans: seq<seq<nat>>) {
    && |revs| == |spans|
    && forall i :: 0 <= i < |revs| ==> Stand(c, revs[i], spans[i]) && Fit(c, spans[i])
  }

  /** The positions recorded for the revolutions that follow the first so many bits, up to an empty one. */
  function Starts(spans: seq<seq<nat>>, at: nat): seq<int>
    decreases |spans|
  {
    if spans != [] && spans[0] != [] then [at + 1] + Starts(spans[1..], at + Sum(spans[0])) else []
  }

  lemma NothingRecorded(p: Params, s: State, revs: seq<seq<uint32>>, rev: nat, pos: nat, at: nat)
    requires p.Valid() && Locked(p, s) && InRange(p, s)
    requires rev < |revs| && pos <= |revs[rev]| && Delivered(revs, rev, pos) == []
    ensures IndexPositions(p, s, revs, rev, pos, false, at) == []
  {
    hide Delivered;
  }

  /** A locked loop records a position for every revolution that it is given after the present one. */
  lemma {:induction false} LockedRecords(p: Params, s: State, revs: seq<seq<uint32>>, spans: seq<seq<nat>>, rev: nat,
      pos: nat, at: nat)
    requires p.Valid() && p.scale == 100 && Locked(p, s) && InRange(p, s)
    requires Spans(p.bitcell, revs, spans) && rev < |revs| && pos <= |revs[rev]|
    ensures IndexPositions(p, s, revs, rev, pos, false, at) == Starts(spans[rev + 1..], at + Sum(spans[rev][pos..]))
    decreases |revs| - rev, |revs[rev]| - pos
  {
    hide Mul, IndexPositions, Emit, Delivered, Wrap, Sum, InRange;
    DeliveredStep(revs, rev, pos);
    SumOfNothing();
    if pos < |revs[rev]| {
      var k := spans[rev][pos];
      IntervalRecords(p, s, revs, rev, pos, at, k);
      var next := Emit(p, AtOne(p, s, Delivered(revs, rev, pos)[0], k)).1;
      LockedRecords(p, next, revs, spans, rev, pos + 1, at + k);
      SumFirst(spans[rev][pos..]);
      assert spans[rev][pos..][1..] == spans[rev][pos + 1..];
    } else {
      assert spans[rev][pos..] == [];
      if rev + 1 < |revs| && revs[rev + 1] != [] {
        DeliveredStep(revs, rev + 1, 0);
        var k := spans[rev + 1][0];
        IntervalRecords(p, s, revs, rev, pos, at, k);
        var next := Emit(p, AtOne(p, s, Delivered(revs, rev, pos)[0], k)).1;
        SumFirst(spans[rev + 1]);
        LockedRecords(p, next, revs, spans, rev + 1, 1, at + k);
      } else {
        NothingRecorded(p, s, revs, rev, pos, at);
      }
    }
  }

  // ----- transitions between two cuts

  lemma {:induction false} OnesPrefix(bits: seq<bool>, k: nat)
    requires k <= |bits|
    ensures Ones(bits[..k]) <= Ones(bits)
    decreases |bits|
  {
    if k < |bits| {
      OnesPrefix(bits[..|bits| - 1], k);
      assert bits[..|bits| - 1][..k] == bits[..k];
      OnesGrow(bits);
    } else {
      assert bits[..k] == bits;
    }
  }

  lemma OnesGrow(bits: seq<bool>)
    requires bits != []
    ensures Ones(bits[..|bits| - 1]) <= Ones(bits)
  {
    if |bits| == 1 {
      assert Ones(bits[..0]) == [] by { NoOnes(bits[..0]); }
    }
  }

  lemma NoOnes(bits: seq<bool>)
    requires |bits| < 2
    ensures Ones(bits) == []
  {
  }

  lemma CellsPrefix(bits: seq<bool>, k: nat)
    requires k <= |bits|
    ensures Cells(bits[..k]) <= Cells(bits)
  {
    hide Ones;
    OnesPrefix(bits, k);
    forall j | 0 <= j < |Ones(bits[..k])|
      ensures Cell(bits[..k], j) == Cell(bits, j)
    {
    }
  }

  /** The encoder writes an interval between the two cuts: some one has its successor there. */
  ghost predicate HasTransition(bits: seq<bool>, low: nat, high: nat) {
    exists i :: 0 <= i < |bits| && low - 1 <= i < high - 1 && bits[i]
  }

  function CellsBetween(bits: seq<bool>, low: nat, high: nat): seq<nat>
    requires low <= high <= |bits|
    ensures forall j :: 0 <= j < |CellsBetween(bits, low, high)| ==> CellsBetween(bits, low, high)[j] >= 1
  {
    OnesPrefix(bits[..high], low);
    assert bits[..high][..low] == bits[..low];
    Cells(bits[..high])[|Ones(bits[..low])|..]
  }

  lemma TransitionIsCells(bits: seq<bool>, low: nat, high: nat)
    requires low <= high <= |bits|
    ensures HasTransition(bits, low, high) <==> CellsBetween(bits, low, high) != []
  {
    hide Ones;
    var before, after := Ones(bits[..low]), Ones(bits[..high]);
    OnesPrefix(bits[..high], low);
    assert bits[..high][..low] == bits[..low];
    if HasTransition(bits, low, high) {
      var i :| 0 <= i < |bits| && low - 1 <= i < high - 1 && bits[i];
      OnesComplete(bits[..high], i);
      assert i in after && i !in before;
    }
    if |after| > |before| {
      var i := after[|before|];
      if i < low - 1 {
        OnesComplete(bits[..low], i);
      }
      assert bits[i];
    }
  }

  /** How many bits are decoded of what is written before a cut. */
  function Length(bits: seq<bool>): nat {
    if Ones(bits) == [] then 0 else Ones(bits)[|Ones(bits)| - 1] + 2
  }

  lemma {:induction false} SumOfCells(bits: seq<bool>, j: nat)
    requires j <= |Ones(bits)|
    ensures Sum(Cells(bits)[..j]) == if j == 0 then 0 else Ones(bits)[j - 1] + 2
    decreases j
  {
    hide Ones;
    if j > 0 {
      SumOfCells(bits, j - 1);
      assert Cells(bits)[..j] == Cells(bits)[..j - 1] + [Cell(bits, j - 1)];
      SumConcat(Cells(bits)[..j - 1], [Cell(bits, j - 1)]);
    }
  }

  lemma SumBetween(bits: seq<bool>, low: nat, high: nat)
    requires low <= high <= |bits|
    ensures Sum(CellsBetween(bits, low, high)) == Length(bits[..high]) - Length(bits[..low])
  {
    hide Ones, Cells, Sum;
    assert bits[..high][..low] == bits[..low];
    CellsPrefix(bits[..high], low);
    SumOfCells(bits[..high], |Ones(bits[..high])|);
    SumOfCells(bits[..low], |Ones(bits[..low])|);
    var all, before := Cells(bits[..high]), Cells(bits[..low]);
    assert all[..|all|] == all && before[..|before|] == before;
    assert all == before + CellsBetween(bits, low, high);
    SumConcat(before, CellsBetween(bits, low, high));
  }

  // ----- generated flux

  /** The cells of the revolutions from a cut on. */
  function TurnSpans(bits: seq<bool>, low: nat, cuts: seq<nat>): seq<seq<nat>>
    requires low <= |bits| && forall j :: 0 <= j < |cuts| ==> low <= cuts[j] <= |bits|
    requires forall i, j :: 0 <= i < j < |cuts| ==> cuts[i] < cuts[j]
    decreases |cuts|
  {
    if cuts == [] then
      var rest := CellsBetween(bits, low, |bits|);
      if rest == [] then [] else [rest]
    else [CellsBetween(bits, low, cuts[0])] + TurnSpans(bits, cuts[0], cuts[1..])
  }

  lemma BetweenSpans(c: nat, cyl: int, bits: seq<bool>, low: nat, high: nat)
    requires cyl < PRECOMP_CYL && Fit(c, Cells(bits)) && low <= high <= |bits|
    ensures Stand(c, Between(c, cyl, bits, low, high), CellsBetween(bits, low, high))
    ensures Fit(c, CellsBetween(bits, low, high))
  {
    hide Ones, Cells, Intervals, Mul, Wrap;
    IntervalsAreDistances(c, cyl, bits[..low]);
    IntervalsStand(c, cyl, bits[..high]);
    IntervalsGrow(c, cyl, bits[..high], low);
    assert bits[..high][..low] == bits[..low];
    CellsPrefix(bits, high);
    OnesPrefix(bits[..high], low);
    var n, all := |Ones(bits[..low])|, Cells(bits[..high]);
    forall j | 0 <= j < |all| - n
      ensures all[n..][j] == Cells(bits)[n + j]
    {
    }
  }

  lemma {:induction false} TurnsSpan(c: nat, cyl: int, bits: seq<bool>, low: nat, cuts: seq<nat>)
    requires cyl < PRECOMP_CYL && Fit(c, Cells(bits))
    requires low <= |bits| && forall j :: 0 <= j < |cuts| ==> low <= cuts[j] <= |bits|
    requires forall i, j :: 0 <= i < j < |cuts| ==> cuts[i] < cuts[j]
    ensures Spans(c, Turns(c, cyl, bits, low, cuts), TurnSpans(bits, low, cuts))
    decreases |cuts|
  {
    hide Cells, Between, CellsBetween, Fit;
    if cuts == [] {
      BetweenSpans(c, cyl, bits, low, |bits|);
    } else {
      BetweenSpans(c, cyl, bits, low, cuts[0]);
      TurnsSpan(c, cyl, bits, cuts[0], cuts[1..]);
    }
  }

  predicate Increasing(bits: seq<bool>, cuts: seq<nat>) {
    && (forall j :: 0 <= j < |cuts| ==> 0 < cuts[j] <= |bits|)
    && forall i, j :: 0 <= i < j < |cuts| ==> cuts[i] < cuts[j]
  }

  /** The end of the revolution that begins at a cut. */
  function EndOf(bits: seq<bool>, cuts: seq<nat>, j: nat): nat
    requires j < |cuts|
  {
    if j + 1 < |cuts| then cuts[j + 1] else |bits|
  }

  /** The cuts that are recorded: those up to the first behind which nothing is written before the next. */
  ghost predicate Recorded(bits: seq<bool>, cuts: seq<nat>, positions: seq<int>)
    requires Increasing(bits, cuts)
  {
    && |positions| <= |cuts|
    && (forall j :: 0 <= j < |positions| ==>
          HasTransition(bits, cuts[j], EndOf(bits, cuts, j)) && positions[j] == Length(bits[..cuts[j]]) + 1)
    && (|positions| < |cuts| ==> !HasTransition(bits, cuts[|positions|], EndOf(bits, cuts, |positions|)))
  }

  lemma RecordedBefore(bits: seq<bool>, cuts: seq<nat>, positions: seq<int>)
    requires |cuts| > 1 && Increasing(bits, cuts)
    requires HasTransition(bits, cuts[0], cuts[1]) && Recorded(bits, cuts[1..], positions)
    ensures Recorded(bits, cuts, [Length(bits[..cuts[0]]) + 1] + positions)
  {
    hide Length, HasTransition;
    var all, rest := [Length(bits[..cuts[0]]) + 1] + positions, cuts[1..];
    forall j | 0 <= j < |cuts|
      ensures EndOf(bits, cuts, j) == if j == 0 then cuts[1] else EndOf(bits, rest, j - 1)
    {
    }
    forall j | 0 <= j < |all|
      ensures HasTransition(bits, cuts[j], EndOf(bits, cuts, j)) && all[j] == Length(bits[..cuts[j]]) + 1
    {
      assert j > 0 ==> cuts[j] == rest[j - 1] && all[j] == positions[j - 1];
    }
  }

  lemma StartsHead(first: seq<nat>, later: seq<seq<nat>>, at: nat)
    ensures Starts([], at) == []
    ensures Starts([first] + later, at) == if first != [] then [at + 1] + Starts(later, at + Sum(first)) else []
    ensures later == [] ==>
              [first] + later == [first] && forall at' :: Starts(later, at') == []
  {
    assert ([first] + later)[1..] == later;
  }

  /** The starts behind a cut that is not the last. */
  lemma StartsStep(bits: seq<bool>, low: nat, cuts: seq<nat>)
    requires low <= |bits| && cuts != [] && forall j :: 0 <= j < |cuts| ==> low <= cuts[j] <= |bits|
    requires forall i, j :: 0 <= i < j < |cuts| ==> cuts[i] < cuts[j]
    ensures Starts(TurnSpans(bits, low, cuts), Length(bits[..low]))
         == if HasTransition(bits, low, cuts[0]) then
              [Length(bits[..low]) + 1] + Starts(TurnSpans(bits, cuts[0], cuts[1..]), Length(bits[..cuts[0]]))
            else []
  {
    hide Cells, CellsBetween, Length, HasTransition, Starts;
    TransitionIsCells(bits, low, cuts[0]);
    SumBetween(bits, low, cuts[0]);
    StartsHead(CellsBetween(bits, low, cuts[0]), TurnSpans(bits, cuts[0], cuts[1..]), Length(bits[..low]));
  }

  /** The starts behind the last cut. */
  lemma StartsEnd(bits: seq<bool>, low: nat)
    requires low <= |bits|
    ensures Starts(TurnSpans(bits, low, []), Length(bits[..low]))
         == if HasTransition(bits, low, |bits|) then [Length(bits[..low]) + 1] else []
  {
    hide Cells, CellsBetween, Length, HasTransition, Starts;
    TransitionIsCells(bits, low, |bits|);
    StartsHead(CellsBetween(bits, low, |bits|), [], Length(bits[..low]));
  }

  lemma {:induction false} StartsAreRecorded(bits: seq<bool>, cuts: seq<nat>)
    requires cuts != [] && Increasing(bits, cuts)
    ensures Recorded(bits, cuts, Starts(TurnSpans(bits, cuts[0], cuts[1..]), Length(bits[..cuts[0]])))
    decreases |cuts|
  {
    hide TurnSpans, Starts, Length, HasTransition, Recorded;
    var rest := cuts[1..];
    RecordedFirst(bits, cuts);
    if rest == [] {
      StartsEnd(bits, cuts[0]);
    } else {
      StartsStep(bits, cuts[0], rest);
      StartsAreRecorded(bits, rest);
      if HasTransition(bits, cuts[0], cuts[1]) {
        RecordedBefore(bits, cuts, Starts(TurnSpans(bits, rest[0], rest[1..]), Length(bits[..rest[0]])));
      }
    }
  }

  /** A first cut, with or without a transition behind it. */
  lemma RecordedFirst(bits: seq<bool>, cuts: seq<nat>)
    requires cuts != [] && Increasing(bits, cuts)
    ensures !HasTransition(bits, cuts[0], EndOf(bits, cuts, 0)) ==> Recorded(bits, cuts, [])
    ensures |cuts| == 1 && HasTransition(bits, cuts[0], |bits|) ==> Recorded(bits, cuts, [Length(bits[..cuts[0]]) + 1])
  {
    hide Length, HasTransition;
  }

  // ----- the rebuilt buffer

  /** A cut is recorded where it lies, one further on like all bits, if a transition was due two cells before it. */
  lemma BehindLastOne(bits: seq<bool>, cut: nat)
    requires 0 < cut <= |bits|
    ensures Length(bits[..cut]) + 1 <= cut + 1
    ensures Length(bits[..cut]) + 1 == cut + 1 <==> cut >= 2 && bits[cut - 2]
  {
    hide Ones;
    if cut >= 2 && bits[cut - 2] {
      OnesComplete(bits[..cut], cut - 2);
      var ones := Ones(bits[..cut]);
      var j :| 0 <= j < |ones| && ones[j] == cut - 2;
      assert j == |ones| - 1;
    }
  }

  /** The generated revolutions and their cells. */
  lemma RevolutionsSpan(c: nat, cyl: int, bits: seq<bool>, indexes: seq<int>) returns (spans: seq<seq<nat>>)
    requires cyl < PRECOMP_CYL && Fit(c, Cells(bits))
    ensures spans != [] && Spans(c, Revolutions(c, cyl, bits, indexes), spans)
    ensures
      var cuts := Cuts(indexes, 0, |bits|);
      if cuts == [] then spans[1..] == []
      else Sum(spans[0]) == Length(bits[..cuts[0]]) && spans[1..] == TurnSpans(bits, cuts[0], cuts[1..])
  {
    hide Cells, CellsBetween, Between, Length, Sum, Fit;
    var cuts := Cuts(indexes, 0, |bits|);
    TurnsSpan(c, cyl, bits, 0, cuts);
    spans := TurnSpans(bits, 0, cuts);
    if spans == [] {
      spans := [[]];
      FitNothing(c);
    }
    if cuts != [] {
      SumBetween(bits, 0, cuts[0]);
      LengthOfNothing(bits);
      assert spans[1..] == TurnSpans(bits, cuts[0], cuts[1..]);
    }
  }

  lemma FitNothing(c: nat)
    ensures Fit(c, [])
  {
  }

  lemma LengthOfNothing(bits: seq<bool>)
    ensures Length(bits[..0]) == 0
  {
    NoOnes(bits[..0]);
  }

  /**
    The index positions of the buffer rebuilt from generated flux that fits: one
    for each cut, up to the first without a transition before the next, right
    behind the bit that follows the last transition before it.
   */
  lemma IndexesRebuilt(p: Params, cyl: int, bits: seq<bool>, indexes: seq<int>)
    requires p.Valid() && p.scale == 100 && cyl < PRECOMP_CYL && Fit(p.bitcell, Cells(bits))
    ensures InRange(p, Initial(p))
    ensures Recorded(bits, Cuts(indexes, 0, |bits|),
                     IndexPositions(p, Initial(p), Revolutions(p.bitcell, cyl, bits, indexes), 0, 0, false, 0))
  {
    hide Cells, Fit, IndexPositions, TurnSpans, Length, Revolutions, Sum, Cuts, Starts, Recorded, Spans, Mul;
    RangeIsPositive(p);
    var cuts := Cuts(indexes, 0, |bits|);
    var spans := RevolutionsSpan(p.bitcell, cyl, bits, indexes);
    LockedRecords(p, Initial(p), Revolutions(p.bitcell, cyl, bits, indexes), spans, 0, 0, 0);
    assert spans[0][0..] == spans[0];
    if cuts == [] {
      NoneRecorded(bits);
    } else {
      StartsAreRecorded(bits, cuts);
    }
  }

  lemma NoneRecorded(bits: seq<bool>)
    ensures forall at :: Recorded(bits, [], Starts([], at))
  {
  }

  /** A transition was due two cells before the cut, and there is one between it and the next. */
  ghost predicate Marked(bits: seq<bool>, cuts: seq<nat>, j: nat)
    requires j < |cuts| && Increasing(bits, cuts)
  {
    cuts[j] >= 2 && bits[cuts[j] - 2] && HasTransition(bits, cuts[j], EndOf(bits, cuts, j))
  }

  lemma RecordedInPlace(bits: seq<bool>, cuts: seq<nat>, positions: seq<int>)
    requires Increasing(bits, cuts) && Recorded(bits, cuts, positions)
    ensures positions == Onwards(cuts) ==> forall j :: 0 <= j < |cuts| ==> Marked(bits, cuts, j)
    ensures (forall j :: 0 <= j < |cuts| ==> Marked(bits, cuts, j)) ==> positions == Onwards(cuts)
  {
    hide Length, HasTransition, EndOf;
    if positions == Onwards(cuts) {
      forall j | 0 <= j < |cuts|
        ensures Marked(bits, cuts, j)
      {
        BehindLastOne(bits, cuts[j]);
        assert positions[j] == Onwards(cuts)[j];
      }
    }
    if forall j :: 0 <= j < |cuts| ==> Marked(bits, cuts, j) {
      assert |positions| < |cuts| ==> Marked(bits, cuts, |positions|);
      forall j | 0 <= j < |cuts|
        ensures positions[j] == Onwards(cuts)[j]
      {
        assert Marked(bits, cuts, j);
        BehindLastOne(bits, cuts[j]);
      }
    }
  }

  /** Every cut, one position further on, as all decoded bits are. */
  function Onwards(cuts: seq<nat>): seq<int> {
    seq(|cuts|, j requires 0 <= j < |cuts| => cuts[j] + 1)
  }

  /** Where the j-th revolution begins. */
  function StartOf(low: nat, cuts: seq<nat>, j: nat): nat
    requires j < |cuts|
  {
    if j == 0 then low else cuts[j - 1]
  }

  /** Each revolution up to the last cut has something in it exactly when a transition is written there. */
  ghost predicate Divided(bits: seq<bool>, low: nat, cuts: seq<nat>, revs: seq<seq<uint32>>) {
    && |revs| >= |cuts|
    && forall j :: 0 <= j < |cuts| ==> (revs[j] != [] <==> HasTransition(bits, StartOf(low, cuts, j), cuts[j]))
  }

  /** The revolutions: one to each cut, one more for what is written behind the last, but at least one. */
  lemma RevolutionsCounted(c: nat, cyl: int, bits: seq<bool>, indexes: seq<int>)
    ensures
      var cuts, revs := Cuts(indexes, 0, |bits|), Revolutions(c, cyl, bits, indexes);
      && Divided(bits, 0, cuts, revs)
      && |revs| == if cuts == [] then 1
                   else |cuts| + (if HasTransition(bits, cuts[|cuts| - 1], |bits|) then 1 else 0)
  {
    hide Between, HasTransition, StartOf;
    TurnsCounted(c, cyl, bits, 0, Cuts(indexes, 0, |bits|));
  }

  lemma BetweenWritten(c: nat, cyl: int, bits: seq<bool>, low: nat, high: nat)
    requires low <= high <= |bits|
    ensures Between(c, cyl, bits, low, high) != [] <==> HasTransition(bits, low, high)
  {
    hide Ones, Intervals, Cells;
    TransitionIsCells(bits, low, high);
    IntervalsAreDistances(c, cyl, bits[..low]);
    IntervalsAreDistances(c, cyl, bits[..high]);
    IntervalsGrow(c, cyl, bits[..high], low);
    OnesPrefix(bits[..high], low);
    assert bits[..high][..low] == bits[..low];
  }

  lemma {:induction false} TurnsCounted(c: nat, cyl: int, bits: seq<bool>, low: nat, cuts: seq<nat>)
    requires low <= |bits| && forall j :: 0 <= j < |cuts| ==> low <= cuts[j] <= |bits|
    requires forall i, j :: 0 <= i < j < |cuts| ==> cuts[i] < cuts[j]
    ensures
      var turns, last := Turns(c, cyl, bits, low, cuts), if cuts == [] then low else cuts[|cuts| - 1];
      && |turns| == |cuts| + (if HasTransition(bits, last, |bits|) then 1 else 0)
      && Divided(bits, low, cuts, turns)
    decreases |cuts|
  {
    hide Between, HasTransition, StartOf;
    if cuts == [] {
      BetweenWritten(c, cyl, bits, low, |bits|);
    } else {
      BetweenWritten(c, cyl, bits, low, cuts[0]);
      TurnsCounted(c, cyl, bits, cuts[0], cuts[1..]);
      var turns, later := Turns(c, cyl, bits, low, cuts), Turns(c, cyl, bits, cuts[0], cuts[1..]);
      forall j | 0 <= j < |cuts|
        ensures turns[j] != [] <==> HasTransition(bits, StartOf(low, cuts, j), cuts[j])
      {
        SameStart(low, cuts, j);
        assert j > 0 ==> turns[j] == later[j - 1] && cuts[1..][j - 1] == cuts[j];
      }
    }
  }

  lemma SameStart(low: nat, cuts: seq<nat>, j: nat)
    requires j < |cuts|
    ensures StartOf(low, cuts, j) == if j == 0 then low else StartOf(cuts[0], cuts[1..], j - 1)
  {
  }

  /** All index positions survive exactly when every cut is so marked. */
  lemma IndexesKept(p: Params, cyl: int, bits: seq<bool>, indexes: seq<int>)
    requires p.Valid() && p.scale == 100 && cyl < PRECOMP_CYL && Fit(p.bitcell, Cells(bits))
    ensures InRange(p, Initial(p))
    ensures
      var cuts := Cuts(indexes, 0, |bits|);
      IndexPositions(p, Initial(p), Revolutions(p.bitcell, cyl, bits, indexes), 0, 0, false, 0) == Onwards(cuts)
      <==> forall j :: 0 <= j < |cuts| ==> Marked(bits, cuts, j)
  {
    hide Cells, Fit, IndexPositions, Revolutions, Cuts, Mul, Marked, Onwards, Recorded;
    IndexesRebuilt(p, cyl, bits, indexes);
    RecordedInPlace(bits, Cuts(indexes, 0, |bits|),
      IndexPositions(p, Initial(p), Revolutions(p.bitcell, cyl, bits, indexes), 0, 0, false, 0));
  }
}
