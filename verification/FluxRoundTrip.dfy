/**
  From a bitstream to flux and back: generate_flux on a bit buffer, the buffer
  that is built from a decoder, and what decoding makes of generated flux.
 */
module FluxRoundTrip {
  import opened BitBuffers
  import opened FluxDecoding
  import opened FluxEncoding
  import opened Words

  // ----- transitions as cells

  /** The cells between the j-th transition and the one before it, or the start. */
  function Cell(bits: seq<bool>, j: nat): (r: nat)
    requires j < |Ones(bits)|
    ensures r >= 1
  {
    if j == 0 then Ones(bits)[0] + 2 else Ones(bits)[j] - Ones(bits)[j - 1]
  }

  function Cells(bits: seq<bool>): (r: seq<nat>)
    ensures |r| == |Ones(bits)|
    ensures forall j :: 0 <= j < |r| ==> r[j] >= 1
  {
    seq(|Ones(bits)|, j requires 0 <= j < |Ones(bits)| => Cell(bits, j))
  }

  /** Without precompensation the distances are whole cells. */
  lemma UncompensatedDistance(c: nat, cyl: int, bits: seq<bool>, j: nat)
    requires cyl < PRECOMP_CYL && j < |Ones(bits)|
    ensures Distance(c, cyl, bits, j) == Mul(Cells(bits)[j], c)
  {
    hide Mul, Ones;
    var ones := Ones(bits);
    if j > 0 {
      MulBasics(c, ones[j] + 2, ones[j - 1] + 2);
      MulBasics(ones[j], c, 0);
      MulBasics(ones[j] + 2, c, 0);
      MulBasics(ones[j - 1] + 2, c, 0);
      MulBasics(ones[j] - ones[j - 1], c, 0);
    }
  }

  /** Everything up to the last one. */
  function UpToLastOne(bits: seq<bool>): (r: seq<bool>)
    ensures |r| <= |bits|
    decreases |bits|
  {
    if bits == [] || bits[|bits| - 1] then bits else UpToLastOne(bits[..|bits| - 1])
  }

  /** What can be read back of generated flux: a zero, and the bits up to the last one that has a successor. */
  function Readable(bits: seq<bool>): seq<bool> {
    if bits == [] then [] else UpToLastOne([false] + bits[..|bits| - 1])
  }

  lemma {:induction false} RestIsZeros(bits: seq<bool>)
    ensures bits == UpToLastOne(bits) + Zeros(|bits| - |UpToLastOne(bits)|)
    decreases |bits|
  {
    if bits != [] && !bits[|bits| - 1] {
      RestIsZeros(bits[..|bits| - 1]);
    }
  }

  lemma {:induction false} CellBitsPush(cells: seq<nat>, k: nat)
    requires k >= 1 && forall i :: 0 <= i < |cells| ==> cells[i] >= 1
    ensures CellBits(cells + [k]) == CellBits(cells) + (Zeros(k - 1) + [true])
    decreases |cells|
  {
    if cells == [] {
      assert [k][1..] == [];
    } else {
      assert (cells + [k])[1..] == cells[1..] + [k];
      CellBitsPush(cells[1..], k);
    }
  }

  lemma CellsPush(bits: seq<bool>)
    requires |bits| >= 2 && bits[|bits| - 2]
    ensures Ones(bits) == Ones(bits[..|bits| - 1]) + [|bits| - 2]
    ensures Cells(bits) == Cells(bits[..|bits| - 1]) + [Cell(bits, |Ones(bits)| - 1)]
  {
    hide Ones;
    OnesPush(0, 0, bits);
    var before := bits[..|bits| - 1];
    forall j | 0 <= j < |Ones(before)|
      ensures Cell(bits, j) == Cell(before, j)
    {
    }
  }

  /** What CellsOfBits says of one bitstream. */
  ghost predicate InCells(bits: seq<bool>)
    requires bits != []
  {
    && CellBits(Cells(bits)) == UpToLastOne([false] + bits[..|bits| - 1])
    && |CellBits(Cells(bits))| == if Ones(bits) == [] then 0 else Ones(bits)[|Ones(bits)| - 1] + 2
  }

  lemma InCellsPush(bits: seq<bool>)
    requires |bits| >= 2 && bits[|bits| - 2] && InCells(bits[..|bits| - 1])
    ensures InCells(bits)
  {
    hide CellBits, Ones, Cells, Zeros;
    var n := |bits|;
    var before, s, t := bits[..n - 1], [false] + bits[..n - 2], [false] + bits[..n - 1];
    assert before[..n - 2] == bits[..n - 2];
    CellsPush(bits);
    RestIsZeros(s);
    CellBitsPush(Cells(before), Cell(bits, |Ones(bits)| - 1));
    assert t == s + [true];
    assert UpToLastOne(t) == t;
    assert Cell(bits, |Ones(bits)| - 1) - 1 == |s| - |UpToLastOne(s)|;
  }

  lemma InCellsKeep(bits: seq<bool>)
    requires |bits| >= 2 && !bits[|bits| - 2] && InCells(bits[..|bits| - 1])
    ensures InCells(bits)
  {
    hide CellBits, Ones;
    var n := |bits|;
    var before, s, t := bits[..n - 1], [false] + bits[..n - 2], [false] + bits[..n - 1];
    assert before[..n - 2] == bits[..n - 2];
    OnesKeep(0, 0, bits);
    assert Cells(bits) == Cells(before);
    assert t[..n - 1] == s && !t[n - 1];
    assert UpToLastOne(t) == UpToLastOne(s);
  }

  /** The bits that the transitions of a bitstream stand for, and where the last of them lies. */
  lemma {:induction false} CellsOfBits(bits: seq<bool>)
    ensures CellBits(Cells(bits)) == Readable(bits)
    ensures bits != [] ==> InCells(bits)
    decreases |bits|
  {
    hide CellBits, Cells, Ones;
    if |bits| < 2 {
      ShortBits(bits);
    } else {
      CellsOfBits(bits[..|bits| - 1]);
      if bits[|bits| - 2] {
        InCellsPush(bits);
      } else {
        InCellsKeep(bits);
      }
    }
  }

  lemma ShortBits(bits: seq<bool>)
    requires |bits| < 2
    ensures Ones(bits) == [] && CellBits(Cells(bits)) == [] && Readable(bits) == []
  {
    if bits != [] {
      assert [false] + bits[..0] == [false];
    }
  }

  // ----- counting ones

  function Count(bits: seq<bool>): nat
    decreases |bits|
  {
    if bits == [] then 0 else (if bits[0] then 1 else 0) + Count(bits[1..])
  }

  lemma {:induction false} CountSum(a: seq<bool>, b: seq<bool>)
    ensures Count(a + b) == Count(a) + Count(b)
    decreases |a|
  {
    if a == [] {
      assert a + b == b;
    } else {
      assert (a + b)[1..] == a[1..] + b;
      CountSum(a[1..], b);
    }
  }

  lemma {:induction false} CountZeros(n: nat)
    ensures Count(Zeros(n)) == 0
    decreases n
  {
    if n > 0 {
      assert Zeros(n)[1..] == Zeros(n - 1);
      CountZeros(n - 1);
    }
  }

  lemma {:induction false} CountCells(cells: seq<nat>)
    requires forall i :: 0 <= i < |cells| ==> cells[i] >= 1
    ensures Count(CellBits(cells)) == |cells|
    decreases |cells|
  {
    if cells != [] {
      CountZeros(cells[0] - 1);
      CountCells(cells[1..]);
      CountSum(Zeros(cells[0] - 1) + [true], CellBits(cells[1..]));
      CountSum(Zeros(cells[0] - 1), [true]);
      assert [true][1..] == [];
    }
  }

  lemma CountPush(event: Event, rest: seq<Event>)
    ensures Count(Bits([event] + rest)) == (if event.bit then 1 else 0) + Count(Bits(rest))
  {
    assert Bits([event] + rest) == [event.bit] + Bits(rest);
    assert Bits([event] + rest)[1..] == Bits(rest);
  }

  /** The clock gives way by at most half of itself at a one whose phase error is not negative. */
  lemma ClockGivesWay(p: Params, s: State)
    requires p.Valid() && InRange(p, s) && 0 <= s.flux
    ensures 2 * Min(Max(p.clockMin, Adjusted(p, s)), p.clockMax) >= s.clock
  {
    hide Mul;
    RangeIsPositive(p);
    if s.zeros <= 3 {
      MulPositive(s.flux, p.adjust);
    } else if s.clock <= p.bitcell {
      MulPositive(p.bitcell - s.clock, p.adjust);
    } else {
      var d := s.clock - p.bitcell;
      MulMonotone(d, p.adjust, 50);
      MulBasics(p.adjust, 0, d);
      MulBasics(p.adjust, -d, 0);
      MulBasics(d, p.adjust, 0);
      MulBasics(d, 50, 50);
      MulBasics(p.adjust, 0, 0);
      MulBasics(0, p.adjust, 0);
      assert Mul(-d, p.adjust) == -Mul(d, p.adjust);
    }
  }

  /** With at least 60 percent phase correction, a one leaves less than half a clock of flux. */
  lemma OneLeavesLittle(p: Params, s: State)
    requires p.Valid() && InRange(p, s) && s.flux >= Div(s.clock, 2) && 60 <= p.phase
    ensures InRange(p, Emit(p, s).1)
    ensures Emit(p, s).0.bit ==> Emit(p, s).1.flux < Emit(p, s).1.clock / 2
  {
    hide Mul, Adjusted;
    RangeIsPositive(p);
    EmitKeepsRange(p, s);
    var e, g := s.flux - s.clock, 100 - p.phase;
    if 0 <= e < s.clock / 2 {
      ClockGivesWay(p, s.(flux := e));
      MulMonotone(e, g, 40);
      MulPositive(e, g);
      assert Mul(e, 40) == 40 * e by {
        Forty(e);
      }
    } else if e < 0 {
      MulMonotone(g, e, 0);
      MulBasics(g, e, 0);
      MulBasics(0, g, 0);
    }
  }

  lemma Forty(e: int)
    ensures Mul(e, 40) == 40 * e
  {
  }

  /** Intervals give at most a one each. */
  lemma {:induction false} OnesAtMostIntervals(p: Params, s: State, pending: seq<uint32>)
    requires p.Valid() && InRange(p, s) && 60 <= p.phase
    ensures Count(Bits(Decode(p, s, pending))) <= |pending| + (if s.flux < s.clock / 2 then 0 else 1)
    decreases |pending|, Max(0, s.flux), 1
  {
    hide Mul, Emit, Count;
    RangeIsPositive(p);
    if s.flux < s.clock / 2 {
      if pending == [] || ToInt(pending[0]) == -1 {
        assert Decode(p, s, pending) == [];
        CountNone();
      } else {
        DecodeRead(p, s, pending);
        OnesAtMostIntervals(p, s.(flux := s.flux + p.Scaled(pending[0]), zeros := 0), pending[1..]);
      }
    } else {
      var (event, next) := Emit(p, s);
      EmitKeepsRange(p, s);
      OneLeavesLittle(p, s);
      CountPush(event, Decode(p, next, pending));
      OnesAtMostIntervals(p, next, pending);
    }
  }

  lemma CountNone()
    ensures Count(Bits([])) == 0
  {
  }

  // ----- decoding what was encoded

  /** Intervals that stand for cells, in 32-bit arithmetic. */
  ghost predicate Stand(c: nat, pending: seq<uint32>, cells: seq<nat>) {
    && |pending| == |cells|
    && forall j :: 0 <= j < |cells| ==> cells[j] >= 1 && pending[j] == Wrap(Mul(cells[j], c))
  }

  /** The intervals all survive being read as signed values. */
  ghost predicate Fit(c: nat, cells: seq<nat>) {
    forall j :: 0 <= j < |cells| ==> Mul(cells[j], c) < 0x8000_0000
  }

  lemma ReadBack(n: nat)
    ensures n < 0x8000_0000 ==> ToInt(Wrap(n)) == n
    ensures n >= 0x8000_0000 ==> ToInt(Wrap(n)) <= n - 0x1_0000_0000 && ToInt(Wrap(n)) < 0x8000_0000
  {
  }

  /** A first interval that does not survive spoils the decoded bits. */
  lemma MisreadSpoils(p: Params, s: State, pending: seq<uint32>, cells: seq<nat>)
    requires p.Valid() && p.scale == 100 && 60 <= p.phase && p.bitcell < 0x8000_0000
    requires Locked(p, s) && InRange(p, s) && Stand(p.bitcell, pending, cells)
    requires cells != [] && Mul(cells[0], p.bitcell) >= 0x8000_0000
    ensures Bits(Decode(p, s, pending)) != CellBits(cells)
  {
    hide Mul, Decode, CellBits, Count, Wrap, ToInt;
    var c, t := p.bitcell, ToInt(pending[0]);
    RangeIsPositive(p);
    ReadBack(Mul(cells[0], c));
    CountCells(cells);
    if t == -1 {
      EndsAt(p, s, pending);
    } else if t < c / 2 {
      DecodeRead(p, s, pending);
      OnesAtMostIntervals(p, s.(flux := t, zeros := 0), pending[1..]);
    } else {
      var k := EarlyOne(c, t, cells[0]);
      OneInterval(p, s, pending, k);
      var (event, next) := Emit(p, AtOne(p, s, pending[0], k));
      BitsOfInterval(k, event, Decode(p, next, pending[1..]));
      assert Bits(Decode(p, s, pending))[k - 1];
      NoneBefore(cells, k);
    }
  }

  /** The cell that a misread interval ends in comes before the one it should end in. */
  lemma EarlyOne(c: nat, t: int, cell: nat) returns (k: nat)
    requires 4 <= c < 0x8000_0000 && c / 2 <= t <= Mul(cell, c) - 0x1_0000_0000
    ensures 1 <= k < cell && t - Mul(k, c) < c / 2 <= t - Mul(k, c) + c
  {
    var n := t - c / 2;
    k := n / c + 1;
    assert n == (n / c) * c + n % c;
    assert Mul(k, c) == (n / c) * c + c;
    FewerCells(k, cell, c);
  }

  lemma FewerCells(k: nat, cell: nat, c: nat)
    ensures Mul(k, c) < Mul(cell, c) ==> k < cell
  {
    if cell <= k {
      MulMonotone(c, cell, k);
      assert Mul(c, cell) == Mul(cell, c) && Mul(c, k) == Mul(k, c);
    }
  }

  lemma NoneBefore(cells: seq<nat>, k: nat)
    requires forall i :: 0 <= i < |cells| ==> cells[i] >= 1
    requires cells != [] && 1 <= k < cells[0]
    ensures |CellBits(cells)| >= k && !CellBits(cells)[k - 1]
  {
  }

  lemma EndsAt(p: Params, s: State, pending: seq<uint32>)
    requires p.Valid() && InRange(p, s) && s.flux < s.clock / 2 && pending != [] && ToInt(pending[0]) == -1
    ensures Decode(p, s, pending) == [] && Count(Bits(Decode(p, s, pending))) == 0
  {
  }

  /** Cells are decoded as they were encoded exactly when every interval fits. */
  lemma {:induction false} DecodesIffFit(p: Params, s: State, pending: seq<uint32>, cells: seq<nat>)
    requires p.Valid() && p.scale == 100 && 60 <= p.phase && p.bitcell < 0x8000_0000
    requires Locked(p, s) && InRange(p, s) && Stand(p.bitcell, pending, cells)
    ensures Bits(Decode(p, s, pending)) == CellBits(cells) <==> Fit(p.bitcell, cells)
    decreases |cells|
  {
    hide Mul, Decode, Emit, Wrap, ToInt, AtOne, Locked;
    if cells == [] {
      NothingDecoded(p, s);
    } else if Mul(cells[0], p.bitcell) >= 0x8000_0000 {
      MisreadSpoils(p, s, pending, cells);
    } else {
      var k, rest := cells[0], pending[1..];
      LockedInterval(p, s, pending, k);
      var (event, next) := Emit(p, AtOne(p, s, pending[0], k));
      DecodesIffFit(p, next, rest, cells[1..]);
      BitsOfInterval(k, event, Decode(p, next, rest));
      FitSplit(p.bitcell, cells);
      var zeros := Zeros(k - 1) + [true];
      assert CellBits(cells) == zeros + CellBits(cells[1..]);
      assert (zeros + Bits(Decode(p, next, rest)))[k..] == Bits(Decode(p, next, rest));
      assert (zeros + CellBits(cells[1..]))[k..] == CellBits(cells[1..]);
    }
  }

  lemma NothingDecoded(p: Params, s: State)
    requires p.Valid() && InRange(p, s) && Locked(p, s)
    ensures Decode(p, s, []) == []
  {
  }

  lemma FitSplit(c: nat, cells: seq<nat>)
    requires cells != []
    ensures Fit(c, cells) <==> Mul(cells[0], c) < 0x8000_0000 && Fit(c, cells[1..])
  {
    hide Mul;
    if Mul(cells[0], c) < 0x8000_0000 && Fit(c, cells[1..]) {
      forall j | 0 <= j < |cells|
        ensures Mul(cells[j], c) < 0x8000_0000
      {
        assert j > 0 ==> cells[j] == cells[1..][j - 1];
      }
    }
    if Fit(c, cells) {
      forall j | 0 <= j < |cells[1..]|
        ensures Mul(cells[1..][j], c) < 0x8000_0000
      {
        assert cells[1..][j] == cells[j + 1];
      }
    }
  }

  /** An exact interval at a locked loop. */
  lemma LockedInterval(p: Params, s: State, pending: seq<uint32>, k: nat)
    requires p.Valid() && p.scale == 100 && Locked(p, s) && InRange(p, s) && k >= 1
    requires pending != [] && pending[0] == Wrap(Mul(k, p.bitcell)) && Mul(k, p.bitcell) < 0x8000_0000
    ensures
      var (event, next) := Emit(p, AtOne(p, s, pending[0], k));
      && event.bit && Locked(p, next) && InRange(p, next)
      && Decode(p, s, pending) == ZeroEvents(k - 1) + [event] + Decode(p, next, pending[1..])
  {
    hide Mul, Decode, Emit, Wrap, ToInt;
    RangeIsPositive(p);
    MulPositive(k, p.bitcell);
    ReadBack(Mul(k, p.bitcell));
    OneInterval(p, s, pending, k);
    StaysLocked(p, s, pending[0], k);
  }

  // ----- revolutions

  /** The intervals written between two counts of reads. */
  function Between(c: nat, cyl: int, bits: seq<bool>, from: nat, to: nat): seq<uint32>
    requires from <= to <= |bits|
  {
    IntervalsGrow(c, cyl, bits[..to], from);
    assert bits[..to][..from] == bits[..from];
    Intervals(c, cyl, bits[..to])[|Intervals(c, cyl, bits[..from])|..]
  }

  lemma {:induction false} IntervalsGrow(c: nat, cyl: int, bits: seq<bool>, from: nat)
    requires from <= |bits|
    ensures Intervals(c, cyl, bits[..from]) <= Intervals(c, cyl, bits)
    decreases |bits|
  {
    hide Coder;
    if from < |bits| {
      IntervalsGrow(c, cyl, bits[..|bits| - 1], from);
      assert bits[..|bits| - 1][..from] == bits[..from];
    } else {
      assert bits[..from] == bits;
    }
  }

  /** The counts of reads at which the buffer reports an index, after a report at pos. */
  function Cuts(indexes: seq<int>, pos: nat, n: nat): (r: seq<nat>)
    ensures forall j :: 0 <= j < |r| ==> pos < r[j] < n
    ensures forall i, j :: 0 <= i < j < |r| ==> r[i] < r[j]
    decreases n - pos
  {
    var next := NextIndex(indexes, pos, n);
    if pos < next < n then [next] + Cuts(indexes, next, n) else []
  }

  /** The revolutions from a cut on; what follows the last cut is one of its own unless empty. */
  function Turns(c: nat, cyl: int, bits: seq<bool>, from: nat, cuts: seq<nat>): seq<seq<uint32>>
    requires from <= |bits| && forall j :: 0 <= j < |cuts| ==> from <= cuts[j] <= |bits|
    requires forall i, j :: 0 <= i < j < |cuts| ==> cuts[i] < cuts[j]
    decreases |cuts|
  {
    if cuts == [] then
      var rest := Between(c, cyl, bits, from, |bits|);
      if rest == [] then [] else [rest]
    else [Between(c, cyl, bits, from, cuts[0])] + Turns(c, cyl, bits, cuts[0], cuts[1..])
  }

  /** The flux that is generated for bits with these index positions. */
  function Revolutions(c: nat, cyl: int, bits: seq<bool>, indexes: seq<int>): (r: seq<seq<uint32>>)
    ensures r != []
  {
    var turns := Turns(c, cyl, bits, 0, Cuts(indexes, 0, |bits|));
    if turns == [] then [[]] else turns
  }

  lemma NextIndexBeyond(indexes: seq<int>, pos: int, n: int)
    ensures NextIndex(indexes, pos, n) > pos || NextIndex(indexes, pos, n) == n
    ensures NextIndex(indexes, pos, n) == n || NextIndex(indexes, pos, n) in indexes
  {
  }

  /** Of ascending positions, the next is the least beyond. */
  lemma {:induction false} NextIndexIsLeast(indexes: seq<int>, pos: int, n: int, i: int)
    requires forall a, b :: 0 <= a < b < |indexes| ==> indexes[a] < indexes[b]
    requires i in indexes && pos < i < n
    ensures NextIndex(indexes, pos, n) <= i
  {
    if indexes[0] <= pos {
      NextIndexIsLeast(indexes[1..], pos, n, i);
    }
  }

  /** For ascending index positions, the revolutions are cut at exactly those inside the data. */
  lemma {:induction false} CutsAreIndexes(indexes: seq<int>, pos: nat, n: nat, i: nat)
    requires forall a, b :: 0 <= a < b < |indexes| ==> indexes[a] < indexes[b]
    ensures i in Cuts(indexes, pos, n) <==> pos < i < n && i in indexes
    decreases n - pos
  {
    var next := NextIndex(indexes, pos, n);
    NextIndexBeyond(indexes, pos, n);
    if i in indexes && pos < i < n {
      NextIndexIsLeast(indexes, pos, n, i);
    }
    if pos < next < n {
      CutsAreIndexes(indexes, next, n, i);
      assert i in Cuts(indexes, pos, n) <==> i == next || i in Cuts(indexes, next, n);
    }
  }

  function Flatten(revs: seq<seq<uint32>>): seq<uint32>
    decreases |revs|
  {
    if revs == [] then [] else revs[0] + Flatten(revs[1..])
  }

  lemma BetweenSplit(c: nat, cyl: int, bits: seq<bool>, from: nat, mid: nat, to: nat)
    requires from <= mid <= to <= |bits|
    ensures Between(c, cyl, bits, from, to) == Between(c, cyl, bits, from, mid) + Between(c, cyl, bits, mid, to)
  {
    hide Intervals;
    IntervalsGrow(c, cyl, bits[..to], from);
    IntervalsGrow(c, cyl, bits[..to], mid);
    IntervalsGrow(c, cyl, bits[..mid], from);
    assert bits[..to][..from] == bits[..from] && bits[..to][..mid] == bits[..mid]
        && bits[..mid][..from] == bits[..from];
  }

  /** The revolutions together are the intervals from the cut on. */
  lemma {:induction false} TurnsTogether(c: nat, cyl: int, bits: seq<bool>, from: nat, cuts: seq<nat>)
    requires from <= |bits| && forall j :: 0 <= j < |cuts| ==> from <= cuts[j] <= |bits|
    requires forall i, j :: 0 <= i < j < |cuts| ==> cuts[i] < cuts[j]
    ensures Flatten(Turns(c, cyl, bits, from, cuts)) == Between(c, cyl, bits, from, |bits|)
    decreases |cuts|
  {
    hide Between;
    if cuts != [] {
      TurnsTogether(c, cyl, bits, cuts[0], cuts[1..]);
      BetweenSplit(c, cyl, bits, from, cuts[0], |bits|);
    } else {
      FlattenOne(Between(c, cyl, bits, from, |bits|));
    }
  }

  lemma FlattenOne(rev: seq<uint32>)
    ensures Flatten([rev]) == rev && Flatten([]) == []
  {
  }

  /** No interval is lost or moved by the division into revolutions. */
  lemma RevolutionsTogether(c: nat, cyl: int, bits: seq<bool>, indexes: seq<int>)
    ensures Flatten(Revolutions(c, cyl, bits, indexes)) == Intervals(c, cyl, bits)
  {
    hide Turns;
    TurnsTogether(c, cyl, bits, 0, Cuts(indexes, 0, |bits|));
    assert bits[..|bits|] == bits && bits[..0] == [];
    FlattenOne([]);
  }

  /** No revolution after an empty one but the first has anything in it. */
  ghost predicate NoneCutOff(revs: seq<seq<uint32>>) {
    forall i, j :: 1 <= i < j < |revs| && revs[i] == [] ==> revs[j] == []
  }

  /** How many intervals the decoder is given. */
  lemma {:induction false} DeliveredAll(revs: seq<seq<uint32>>, rev: nat)
    requires rev < |revs|
    ensures |Delivered(revs, rev, 0)| <= |Flatten(revs[rev..])|
    ensures (forall i, j :: rev + 1 <= i < j < |revs| && revs[i] == [] ==> revs[j] == []) ==>
              Delivered(revs, rev, 0) == Flatten(revs[rev..])
    ensures !(forall i, j :: rev + 1 <= i < j < |revs| && revs[i] == [] ==> revs[j] == []) ==>
              |Delivered(revs, rev, 0)| < |Flatten(revs[rev..])|
    decreases |revs| - rev
  {
    assert revs[rev..][1..] == revs[rev + 1..];
    assert revs[rev][0..] == revs[rev];
    if rev + 1 < |revs| {
      if revs[rev + 1] != [] {
        DeliveredAll(revs, rev + 1);
      } else {
        FlattenEmpty(revs[rev + 1..]);
        assert forall j :: rev + 1 < j < |revs| ==> revs[j] == revs[rev + 1..][j - rev - 1];
      }
    }
  }

  lemma {:induction false} FlattenEmpty(revs: seq<seq<uint32>>)
    ensures Flatten(revs) == [] <==> forall j :: 0 <= j < |revs| ==> revs[j] == []
    decreases |revs|
  {
    if revs != [] {
      FlattenEmpty(revs[1..]);
    }
  }

  // ----- the round trip

  lemma IntervalsStand(c: nat, cyl: int, bits: seq<bool>)
    requires cyl < PRECOMP_CYL
    ensures Stand(c, Intervals(c, cyl, bits), Cells(bits))
  {
    hide Intervals, Cells, Distance, Mul, Wrap;
    IntervalsAreDistances(c, cyl, bits);
    forall j | 0 <= j < |Ones(bits)|
      ensures Intervals(c, cyl, bits)[j] == Wrap(Mul(Cells(bits)[j], c))
    {
      UncompensatedDistance(c, cyl, bits, j);
    }
  }

  lemma AllDelivered(revs: seq<seq<uint32>>)
    requires revs != []
    ensures NoneCutOff(revs) ==> Delivered(revs, 0, 0) == Flatten(revs)
    ensures !NoneCutOff(revs) ==> |Delivered(revs, 0, 0)| < |Flatten(revs)|
  {
    DeliveredAll(revs, 0);
    assert revs[0..] == revs;
  }

  /**
    The flux round trip.  On the outer cylinders, decoding what was generated
    from bits yields a zero and then the bits up to the last one that has a
    successor, exactly when every gap between transitions, in nanoseconds, fits
    a signed 32-bit value and no interval lies behind an empty later revolution.
   */
  lemma RoundTrip(p: Params, cyl: int, bits: seq<bool>, indexes: seq<int>)
    requires p.Valid() && p.scale == 100 && 60 <= p.phase && p.bitcell < 0x8000_0000
    requires cyl < PRECOMP_CYL
    ensures InRange(p, Initial(p))
    ensures
      var revs := Revolutions(p.bitcell, cyl, bits, indexes);
      Bits(Decode(p, Initial(p), Delivered(revs, 0, 0))) == Readable(bits)
      <==> Fit(p.bitcell, Cells(bits)) && NoneCutOff(revs)
  {
    hide Intervals, Cells, Revolutions, Decode, Mul, Wrap, Delivered, Flatten, CellBits, Count, Fit, NoneCutOff,
        Readable;
    RangeIsPositive(p);
    var revs := Revolutions(p.bitcell, cyl, bits, indexes);
    CellsOfBits(bits);
    IntervalsStand(p.bitcell, cyl, bits);
    RevolutionsTogether(p.bitcell, cyl, bits, indexes);
    AllDelivered(revs);
    if NoneCutOff(revs) {
      DecodesIffFit(p, Initial(p), Intervals(p.bitcell, cyl, bits), Cells(bits));
    } else {
      OnesAtMostIntervals(p, Initial(p), Delivered(revs, 0, 0));
      CountCells(Cells(bits));
    }
  }

  lemma OnesOfFive()
    ensures Ones([]) == [] && Ones([true, false]) == Ones([true, false, false]) == [0]
    ensures Ones([true, false, false, true, false]) == [0, 3]
  {
    TwoOnes(3);
    assert [true] + Zeros(2) + [true, false] == [true, false, false, true, false];
    assert [true, false][..1] == [true];
    assert [true, false, false][..2] == [true, false];
  }

  lemma IntervalsOfFive()
    ensures Intervals(2000, 0, []) == []
    ensures Intervals(2000, 0, [true, false]) == Intervals(2000, 0, [true, false, false]) == [4000]
    ensures Intervals(2000, 0, [true, false, false, true, false]) == [4000, 6000]
  {
    hide Intervals, Ones;
    OnesOfFive();
    IntervalsStand(2000, 0, []);
    IntervalsStand(2000, 0, [true, false]);
    IntervalsStand(2000, 0, [true, false, false]);
    IntervalsStand(2000, 0, [true, false, false, true, false]);
  }

  lemma RevolutionsOfFive(bits: seq<bool>)
    requires bits == [true, false, false, true, false]
    ensures Revolutions(2000, 0, bits, [2, 3]) == [[4000], [], [6000]]
  {
    hide Intervals;
    IntervalsOfFive();
    assert NextIndex([2, 3], 0, 5) == 2 && NextIndex([2, 3], 2, 5) == 3 && NextIndex([2, 3], 3, 5) == 5;
    assert Cuts([2, 3], 2, 5) == [3];
    assert Cuts([2, 3], 0, 5) == [2, 3];
    assert bits[..0] == [] && bits[..2] == [true, false] && bits[..3] == [true, false, false] && bits[..5] == bits;
    assert Between(2000, 0, bits, 0, 2) == [4000] by {
      assert bits[..2][..0] == [];
    }
    assert Between(2000, 0, bits, 2, 3) == [] by {
      assert bits[..3][..2] == bits[..2];
    }
    assert Between(2000, 0, bits, 3, 5) == [6000] by {
      assert bits[..5][..3] == bits[..3];
    }
    assert Turns(2000, 0, bits, 3, []) == [[6000]];
    assert Turns(2000, 0, bits, 2, [3]) == [[], [6000]];
  }

  /** A revolution without a transition hides the next one: only the first transition of two is read back. */
  lemma EmptyRevolutionCutsOff(p: Params, bits: seq<bool>)
    requires p.Valid() && p.scale == 100 && 60 <= p.phase && p.bitcell == 2000
    requires bits == [true, false, false, true, false]
    ensures InRange(p, Initial(p))
    ensures Bits(Decode(p, Initial(p), Delivered(Revolutions(2000, 0, bits, [2, 3]), 0, 0))) == [false, true]
    ensures Readable(bits) == [false, true, false, false, true]
  {
    hide Decode, Revolutions;
    RangeIsPositive(p);
    RevolutionsOfFive(bits);
    assert Delivered([[4000], [], [6000]], 0, 0) == [4000];
    DecodesIffFit(p, Initial(p), [4000], [2]);
    assert CellBits([2]) == [false, true];
    assert [false] + bits[..4] == [false, true, false, false, true];
  }

  /** Two transitions 1073742 cells of 2000 ns apart are not read back, and those one cell closer are. */
  lemma LongGapNotRead(p: Params, g: nat, bits: seq<bool>)
    requires p.Valid() && p.scale == 100 && 60 <= p.phase && p.bitcell == 2000
    requires g in {1073741, 1073742} && bits == [true] + Zeros(g - 1) + [true, false]
    ensures InRange(p, Initial(p))
    ensures Bits(Decode(p, Initial(p), Delivered(Revolutions(2000, 0, bits, []), 0, 0))) == Readable(bits)
       <==> g == 1073741
  {
    hide Decode, Intervals, Readable, Delivered, Ones;
    TwoOnes(g);
    RoundTrip(p, 0, bits, []);
    var cells := Cells(bits);
    assert cells == [2, g];
    assert Mul(cells[0], 2000) == 4000;
    assert Mul(cells[1], 2000) == 2000 * g;
    assert NoneCutOff(Revolutions(2000, 0, bits, [])) by {
      assert Cuts([], 0, |bits|) == [];
    }
  }

  /** Where the round trip holds it holds for every phase correction, because the loop never leaves its centre. */
  lemma RoundTripAnyPhase(p: Params, cyl: int, bits: seq<bool>, indexes: seq<int>)
    requires p.Valid() && p.scale == 100 && cyl < PRECOMP_CYL
    requires Fit(p.bitcell, Cells(bits)) && NoneCutOff(Revolutions(p.bitcell, cyl, bits, indexes))
    ensures InRange(p, Initial(p))
    ensures Bits(Decode(p, Initial(p), Delivered(Revolutions(p.bitcell, cyl, bits, indexes), 0, 0)))
         == Readable(bits)
  {
    hide Intervals, Cells, Revolutions, Decode, Mul, Wrap, ToInt, Delivered, Flatten, CellBits, NoneCutOff, Readable;
    RangeIsPositive(p);
    CellsOfBits(bits);
    IntervalsStand(p.bitcell, cyl, bits);
    RevolutionsTogether(p.bitcell, cyl, bits, indexes);
    AllDelivered(Revolutions(p.bitcell, cyl, bits, indexes));
    var cells := Cells(bits);
    forall j | 0 <= j < |cells|
      ensures ToInt(Wrap(Mul(cells[j], p.bitcell))) == Mul(cells[j], p.bitcell) != -1
    {
      MulPositive(cells[j], p.bitcell);
      ReadBack(Mul(cells[j], p.bitcell));
    }
    ExactIntervals(p, Initial(p), Intervals(p.bitcell, cyl, bits), cells);
  }

  /** A track of up to a million bits fits at every rate. */
  lemma TracksFit(c: nat, bits: seq<bool>)
    requires c <= 2000 && |bits| <= 1_000_000
    ensures Fit(c, Cells(bits))
  {
    hide Mul;
    var cells := Cells(bits);
    forall j | 0 <= j < |cells|
      ensures Mul(cells[j], c) < 0x8000_0000
    {
      MulMonotone(cells[j], c, 2000);
      MulMonotone(2000, cells[j], 1_000_000);
      assert Mul(cells[j], 2000) == Mul(2000, cells[j]) && Mul(2000, 1_000_000) == 2_000_000_000 by {
        TwoBillion(cells[j]);
      }
    }
  }

  lemma TwoBillion(n: nat)
    ensures Mul(n, 2000) == Mul(2000, n) && Mul(2000, 1_000_000) == 2_000_000_000
  {
  }

  // ----- the operations

  lemma BetweenGrows(c: nat, cyl: int, bits: seq<bool>, from: nat, k: nat)
    requires from <= k < |bits|
    ensures
      var (written, e) := Encode(c, cyl, Coder(c, cyl, bits[..k]), bits[k]);
      && Coder(c, cyl, bits[..k + 1]) == e
      && Between(c, cyl, bits, from, k + 1) == Between(c, cyl, bits, from, k) + written
    ensures Between(c, cyl, bits, k, k) == []
  {
    hide Encode;
    assert bits[..k + 1][..k] == bits[..k];
    IntervalsGrow(c, cyl, bits[..k], from);
    assert bits[..k][..from] == bits[..from];
  }

  /** What holds of generate_flux's variables after k reads, the last cut having been after from. */
  ghost predicate Encoded(c: nat, cyl: int, bits: seq<bool>, indexes: seq<int>, from: nat, k: nat,
                          e: Encoder, times: seq<uint32>, revs: seq<seq<uint32>>, next: int)
  {
    && from <= k <= |bits|
    && e == Coder(c, cyl, bits[..k])
    && times == Between(c, cyl, bits, from, k)
    && next == NextIndex(indexes, from, |bits|)
    && (if k < |bits| then k < next else k <= next)
    && revs + Turns(c, cyl, bits, from, Cuts(indexes, from, |bits|)) == Turns(c, cyl, bits, 0, Cuts(indexes, 0, |bits|))
  }

  lemma EncodedStart(c: nat, cyl: int, bits: seq<bool>, indexes: seq<int>)
    ensures Encoded(c, cyl, bits, indexes, 0, 0, Encoder(false, false, 0), [], [], NextIndex(indexes, 0, |bits|))
  {
  }

  lemma EncodedBit(c: nat, cyl: int, bits: seq<bool>, indexes: seq<int>, from: nat, k: nat,
                   e: Encoder, times: seq<uint32>, revs: seq<seq<uint32>>, next: int)
    requires k < |bits| && Encoded(c, cyl, bits, indexes, from, k, e, times, revs, next)
    requires k + 1 == |bits| || k + 1 < next
    ensures
      var (written, e') := Encode(c, cyl, e, bits[k]);
      Encoded(c, cyl, bits, indexes, from, k + 1, e', times + written, revs, next)
  {
    hide Encode, Coder, Between, Turns, Cuts, NextIndex;
    BetweenGrows(c, cyl, bits, from, k);
  }

  lemma EncodedCut(c: nat, cyl: int, bits: seq<bool>, indexes: seq<int>, from: nat, k: nat,
                   e: Encoder, times: seq<uint32>, revs: seq<seq<uint32>>, next: int)
    requires k + 1 < |bits| && Encoded(c, cyl, bits, indexes, from, k, e, times, revs, next) && next == k + 1
    ensures
      var (written, e') := Encode(c, cyl, e, bits[k]);
      Encoded(c, cyl, bits, indexes, k + 1, k + 1, e', [], revs + [times + written], NextIndex(indexes, k + 1, |bits|))
  {
    hide Encode, Coder, Between, Turns, Cuts, NextIndex;
    BetweenGrows(c, cyl, bits, from, k);
    BetweenGrows(c, cyl, bits, k + 1, k + 1);
    NextIndexBeyond(indexes, k + 1, |bits|);
    CutNow(c, cyl, bits, indexes, from, k + 1);
  }

  /** One read, with or without an index behind it. */
  lemma EncodedNext(c: nat, cyl: int, bits: seq<bool>, indexes: seq<int>, from: nat, k: nat,
                    e: Encoder, times: seq<uint32>, revs: seq<seq<uint32>>, next: int)
    requires k < |bits| && Encoded(c, cyl, bits, indexes, from, k, e, times, revs, next)
    ensures k < next
    ensures
      var (written, e') := Encode(c, cyl, e, bits[k]);
      if k + 1 < |bits| && next <= k + 1 then
        Encoded(c, cyl, bits, indexes, k + 1, k + 1, e', [], revs + [times + written],
                NextIndex(indexes, k + 1, |bits|))
      else
        Encoded(c, cyl, bits, indexes, from, k + 1, e', times + written, revs, next)
  {
    hide Encode, Coder, Between, Turns, Cuts, NextIndex;
    if k + 1 < |bits| && next <= k + 1 {
      EncodedCut(c, cyl, bits, indexes, from, k, e, times, revs, next);
    } else {
      EncodedBit(c, cyl, bits, indexes, from, k, e, times, revs, next);
    }
  }

  lemma CutNow(c: nat, cyl: int, bits: seq<bool>, indexes: seq<int>, from: nat, k: nat)
    requires from < k < |bits| && NextIndex(indexes, from, |bits|) == k
    ensures Turns(c, cyl, bits, from, Cuts(indexes, from, |bits|))
         == [Between(c, cyl, bits, from, k)] + Turns(c, cyl, bits, k, Cuts(indexes, k, |bits|))
  {
  }

  lemma EncodedEnd(c: nat, cyl: int, bits: seq<bool>, indexes: seq<int>, from: nat,
                   e: Encoder, times: seq<uint32>, revs: seq<seq<uint32>>, next: int)
    requires Encoded(c, cyl, bits, indexes, from, |bits|, e, times, revs, next)
    ensures Revolutions(c, cyl, bits, indexes) == if revs == [] || times != [] then revs + [times] else revs
  {
  }

  /** The part of generate_flux's loop that adds to the interval and writes it. */
  method WriteTransition(c: nat, cyl: int, lastBit: bool, currBit: bool, time: uint32, nextBit: bool,
      times: seq<uint32>)
    returns (fluxTime: uint32, fluxTimes: seq<uint32>)
    ensures
      var (written, e) := Encode(c, cyl, Encoder(lastBit, currBit, time), nextBit);
      e == Encoder(currBit, nextBit, fluxTime) && fluxTimes == times + written
  {
    fluxTime, fluxTimes := Wrap(time + c), times;
    if currBit {
      if cyl < PRECOMP_CYL {
        fluxTimes := fluxTimes + [fluxTime];
        fluxTime := 0;
      } else {
        var precompNs := if lastBit == nextBit then 0 else if lastBit then PRECOMP_NS else -PRECOMP_NS;
        fluxTimes := fluxTimes + [Wrap(fluxTime + precompNs)];
        fluxTime := Wrap(0 - precompNs);
      }
    }
  }

  method GenerateFlux(bitbuf: BitBuffer, rate: DataRate, cyl: int) returns (r: Option<seq<seq<uint32>>>)
    requires bitbuf.Valid()
    modifies bitbuf`bitpos, bitbuf`wrappedRound, bitbuf`nextIndex
    ensures bitbuf.Valid() && bitbuf.Content() == old(bitbuf.Content())
    ensures r == match BitcellNs(rate)
                 case None => None
                 case Some(c) => Some(Revolutions(c, cyl, bitbuf.Content(), bitbuf.indexes))
  {
    hide Encoded, Encode, NextIndex, Revolutions;
    var cell := BitcellNs(rate);
    if cell.None? {
      return None;
    }
    var c := cell.value;
    var lastBit, currBit := false, false;
    var _ := bitbuf.Seek(0);
    var fluxTime: uint32 := 0;
    var fluxData: seq<seq<uint32>> := [];
    var fluxTimes: seq<uint32> := [];
    ghost var bits, indexes, n, k, from := bitbuf.Content(), bitbuf.indexes, bitbuf.bitsize, 0, 0;
    EncodedStart(c, cyl, bits, indexes);
    while !bitbuf.Wrapped()
      invariant bitbuf.Valid() && bitbuf.Content() == bits && from <= k <= n
      invariant bitbuf.bitpos == (if k == n then 0 else k) && bitbuf.Wrapped() == (k == n)
      invariant Encoded(c, cyl, bits, indexes, from, k, Encoder(lastBit, currBit, fluxTime), fluxTimes, fluxData,
                bitbuf.nextIndex)
      decreases n - k
    {
      ghost var e, times := Encoder(lastBit, currBit, fluxTime), fluxTimes;
      EncodedNext(c, cyl, bits, indexes, from, k, e, times, fluxData, bitbuf.nextIndex);
      var nextBit := bitbuf.Read1();
      fluxTime, fluxTimes := WriteTransition(c, cyl, lastBit, currBit, fluxTime, nextBit, fluxTimes);
      lastBit := currBit;
      currBit := nextBit;
      k := k + 1;
      var index := bitbuf.Index();
      if index {
        fluxData := fluxData + [fluxTimes];
        fluxTimes := [];
        from := k;
      }
    }
    EncodedEnd(c, cyl, bits, indexes, from, Encoder(lastBit, currBit, fluxTime), fluxTimes, fluxData, bitbuf.nextIndex);
    if fluxData == [] || fluxTimes != [] {
      fluxData := fluxData + [fluxTimes];
    }
    r := Some(fluxData);
  }

  /**
    The index positions recorded for the bits decoded from position at on: one
    behind each bit that the first interval of a later revolution was read for.
   */
  ghost function IndexPositions(p: Params, s: State, revs: seq<seq<uint32>>, rev: nat, pos: nat, seen: bool,
      at: nat): (r: seq<int>)
    requires p.Valid() && InRange(p, s) && rev < |revs| && pos <= |revs[rev]|
    ensures forall i :: 0 <= i < |r| ==> at < r[i] <= at + |Decode(p, s, Delivered(revs, rev, pos))|
    ensures forall i, j :: 0 <= i < j < |r| ==> r[i] < r[j]
    decreases |Delivered(revs, rev, pos)|, Max(0, s.flux)
  {
    hide LoopBit, Mul, Advance, Delivered;
    var pending := Delivered(revs, rev, pos);
    DecodeNext(p, s, pending);
    match LoopBit(p, s, pending)
    case End(_, _) => []
    case Bit(_, s', rest) =>
      RestIsSuffix(p, s, pending);
      var (rev', pos') := Advance(revs, rev, pos, |pending| - |rest|);
      var later := IndexPositions(p, s', revs, rev', pos', false, at + 1);
      if seen || rev' > rev then [at + 1] + later else later
  }

  lemma {:induction false} RestIsSuffix(p: Params, s: State, pending: seq<uint32>)
    ensures LoopBit(p, s, pending).rest == pending[|pending| - |LoopBit(p, s, pending).rest|..]
    decreases |pending|
  {
    if s.flux < Div(s.clock, 2) && pending != [] && ToInt(pending[0]) != -1 {
      RestIsSuffix(p, s.(flux := s.flux + p.Scaled(pending[0]), zeros := 0), pending[1..]);
    }
  }

  /** The buffer that is constructed from a decoder. */
  method FromDecoder(encoding: Encoding, capacity: nat, decoder: FluxDecoder) returns (buffer: BitBuffer)
    requires capacity > 0 && decoder.Valid()
    modifies decoder
    ensures fresh(buffer) && buffer.Valid() && buffer.encoding == encoding && buffer.bitpos == buffer.bitsize
    ensures buffer.Content() == Bits(Decode(decoder.params, old(decoder.Loop()), old(decoder.Pending())))
    ensures buffer.indexes
         == old(IndexPositions(decoder.params, decoder.Loop(), decoder.fluxRevs, decoder.rev, decoder.pos,
                               decoder.indexSeen, 0))
  {
    hide Decode, Bits, InRange, IndexPositions, Delivered, Mul, AllBits, AllIndexes;
    buffer := new BitBuffer(encoding, capacity);
    NothingTaken(buffer, decoder);
    ghost var bits, indexes := AllBits(buffer, decoder), AllIndexes(buffer, decoder);
    var more := true;
    while more
      invariant fresh(buffer) && buffer.Valid() && buffer.encoding == encoding && buffer.bitpos == buffer.bitsize
      invariant more ==> decoder.Valid() && bits == AllBits(buffer, decoder) && indexes == AllIndexes(buffer, decoder)
      invariant !more ==> bits == buffer.Content() && indexes == buffer.indexes
      decreases more, if more then |decoder.Pending()| else 0, Max(0, decoder.flux)
    {
      more := TakeBit(buffer, decoder);
    }
  }

  /** The bits recorded, and those still to come. */
  ghost function AllBits(buffer: BitBuffer, decoder: FluxDecoder): seq<bool>
    requires buffer.Valid() && decoder.Valid()
    reads buffer`data, buffer`bitpos, buffer`bitsize, decoder
  {
    buffer.Content() + Bits(Decode(decoder.params, decoder.Loop(), decoder.Pending()))
  }

  lemma NothingTaken(buffer: BitBuffer, decoder: FluxDecoder)
    requires buffer.Valid() && buffer.Content() == [] && buffer.bitpos == 0 && buffer.indexes == [] && decoder.Valid()
    ensures AllBits(buffer, decoder) == Bits(Decode(decoder.params, decoder.Loop(), decoder.Pending()))
    ensures AllIndexes(buffer, decoder)
         == IndexPositions(decoder.params, decoder.Loop(), decoder.fluxRevs, decoder.rev, decoder.pos,
             decoder.indexSeen, 0)
  {
    hide Decode, Bits, IndexPositions;
  }

  /** The index positions recorded, and those still to come. */
  ghost function AllIndexes(buffer: BitBuffer, decoder: FluxDecoder): seq<int>
    requires decoder.Valid()
    reads buffer`indexes, buffer`bitpos, decoder
  {
    buffer.indexes
    + IndexPositions(decoder.params, decoder.Loop(), decoder.fluxRevs, decoder.rev, decoder.pos, decoder.indexSeen,
        buffer.bitpos)
  }

  lemma NextIndexPosition(p: Params, s: State, revs: seq<seq<uint32>>, rev: nat, pos: nat, seen: bool, at: nat)
    requires p.Valid() && InRange(p, s) && rev < |revs| && pos <= |revs[rev]|
    ensures
      var r := LoopBit(p, s, Delivered(revs, rev, pos));
      if r.End? then IndexPositions(p, s, revs, rev, pos, seen, at) == []
      else
        && InRange(p, r.s)
        && var (rev', pos') := Advance(revs, rev, pos, |Delivered(revs, rev, pos)| - |r.rest|);
           IndexPositions(p, s, revs, rev, pos, seen, at)
           == (if seen || rev' > rev then [at + 1] else []) + IndexPositions(p, r.s, revs, rev', pos', false, at + 1)
  {
    hide LoopBit, Mul, Advance, Delivered;
    DecodeNext(p, s, Delivered(revs, rev, pos));
  }

  /** The same with what is recorded before. */
  lemma OneMore(p: Params, s: State, revs: seq<seq<uint32>>, rev: nat, pos: nat, seen: bool, at: nat,
                content: seq<bool>, indexes: seq<int>)
    requires p.Valid() && InRange(p, s) && rev < |revs| && pos <= |revs[rev]|
    ensures
      var pending := Delivered(revs, rev, pos);
      var r := LoopBit(p, s, pending);
      var bits := content + Bits(Decode(p, s, pending));
      var later := indexes + IndexPositions(p, s, revs, rev, pos, seen, at);
      if r.End? then bits == content && later == indexes
      else
        && InRange(p, r.s) && |r.rest| <= |pending|
        && (|r.rest| == |pending| ==> Max(0, r.s.flux) < Max(0, s.flux))
        && bits == content + [r.event.bit] + Bits(Decode(p, r.s, r.rest))
        && var (rev', pos') := Advance(revs, rev, pos, |pending| - |r.rest|);
           later == (if seen || rev' > rev then indexes + [at + 1] else indexes)
                    + IndexPositions(p, r.s, revs, rev', pos', false, at + 1)
  {
    hide LoopBit, Delivered, Decode, Bits, InRange, Mul, Advance, IndexPositions;
    DecodeNext(p, s, Delivered(revs, rev, pos));
    NextIndexPosition(p, s, revs, rev, pos, seen, at);
  }

  /** One iteration of the constructor's loop. */
  method TakeBit(buffer: BitBuffer, decoder: FluxDecoder) returns (more: bool)
    requires decoder.Valid() && buffer.Valid() && buffer.bitpos == buffer.bitsize
    modifies decoder, buffer`data, buffer`bitpos, buffer`bitsize, buffer`indexes
    ensures buffer.Valid() && buffer.bitpos == buffer.bitsize
    ensures more ==>
              && decoder.Valid()
              && |decoder.Pending()| <= |old(decoder.Pending())|
              && (|decoder.Pending()| == |old(decoder.Pending())| ==> Max(0, decoder.flux) < Max(0, old(decoder.flux)))
              && AllBits(buffer, decoder) == old(AllBits(buffer, decoder))
              && AllIndexes(buffer, decoder) == old(AllIndexes(buffer, decoder))
    ensures !more ==>
              buffer.Content() == old(AllBits(buffer, decoder)) && buffer.indexes == old(AllIndexes(buffer, decoder))
  {
    hide LoopBit, Delivered, Decode, Bits, InRange, Mul, Advance, IndexPositions, Unpacked;
    OneMore(decoder.params, decoder.Loop(), decoder.fluxRevs, decoder.rev, decoder.pos, decoder.indexSeen,
            buffer.bitpos, buffer.Content(), buffer.indexes);
    var bit := decoder.NextBit();
    if bit < 0 {
      return false;
    }
    var _ := decoder.SyncLost();
    AppendBit(buffer, bit != 0);
    var index := decoder.Index();
    if index {
      buffer.AddIndex();
    }
    more := true;
  }

  method AppendBit(buffer: BitBuffer, bit: bool)
    requires buffer.Valid() && buffer.bitpos == buffer.bitsize
    modifies buffer`data, buffer`bitpos, buffer`bitsize
    ensures buffer.Valid() && buffer.bitpos == buffer.bitsize == old(buffer.bitpos) + 1
    ensures buffer.Content() == old(buffer.Content()) + [bit]
  {
    hide Written;
    WriteAtEnd(buffer.Content());
    buffer.Add(bit);
  }

  lemma WriteAtEnd(bits: seq<bool>)
    ensures forall bit :: Written(bits, |bits|, bit) == bits + [bit]
  {
  }

  lemma DecodeNext(p: Params, s: State, pending: seq<uint32>)
    requires p.Valid() && InRange(p, s)
    ensures
      var r := LoopBit(p, s, pending);
      && |r.rest| <= |pending|
      && (r.End? ==> Bits(Decode(p, s, pending)) == [])
      && (r.Bit? ==>
            && InRange(p, r.s)
            && (|r.rest| == |pending| ==> Max(0, r.s.flux) < Max(0, s.flux))
            && Bits(Decode(p, s, pending)) == [r.event.bit] + Bits(Decode(p, r.s, r.rest)))
  {
    hide LoopBit, Mul;
    LoopBitKeepsRange(p, s, pending);
  }
}
