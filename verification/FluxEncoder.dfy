/**
  Turning a bitstream into flux intervals, with write precompensation on the
  inner cylinders.

  The encoder is a fold over the bits with a 32-bit accumulator.  It is shown to
  equal a closed form, in which every transition has a place on the time line and
  the intervals are the distances between neighbours; the other results about
  its output follow from that.
 */
module FluxEncoding {
  import opened FluxDecoding
  import opened Words

  const PRECOMP_NS := 240
  const PRECOMP_CYL := 40

  datatype DataRate = Unknown | Rate250K | Rate300K | Rate500K | Rate1M

  /** None stands for the exception that an unsupported rate raises. */
  function BitcellNs(rate: DataRate): (r: Option<nat>)
    ensures r.Some? ==> 500 <= r.value <= 2000
  {
    match rate
    case Unknown => None
    case Rate250K => Some(2000)
    case Rate300K => Some(1667)
    case Rate500K => Some(1000)
    case Rate1M => Some(500)
  }

  /** The rate's value. */
  function BitsPerSecond(rate: DataRate): nat {
    match rate
    case Unknown => 0
    case Rate250K => 250_000
    case Rate300K => 300_000
    case Rate500K => 500_000
    case Rate1M => 1_000_000
  }

  /** A bitcell is half a bit, to the nearest nanosecond; only the unknown rate has none. */
  lemma BitcellIsHalfBit(rate: DataRate)
    ensures BitcellNs(rate).None? <==> BitsPerSecond(rate) == 0
    ensures
      var c, bps := BitcellNs(rate), BitsPerSecond(rate);
      c.Some? ==> 1_000_000_000 - bps <= 2 * c.value * bps <= 1_000_000_000 + bps
  {
  }

  /** Arithmetic on unsigned 32-bit values. */
  function Wrap(n: int): uint32 {
    n % 0x1_0000_0000
  }

  lemma WrapWrap(n: int, d: int)
    ensures Wrap(Wrap(n) + d) == Wrap(n + d)
  {
  }

  /** The bits before the one being read, and the time since the last interval. */
  datatype Encoder = Encoder(last: bool, curr: bool, time: uint32)

  /** How far a transition is moved, given its neighbours. */
  function Precomp(cyl: int, last: bool, next: bool): int {
    if cyl < PRECOMP_CYL || last == next then 0 else if last then PRECOMP_NS else -PRECOMP_NS
  }

  /** One bit read: a transition is written when its successor is known. */
  function Encode(c: nat, cyl: int, e: Encoder, next: bool): (r: (seq<uint32>, Encoder)) {
    var time := Wrap(e.time + c);
    var shift := Precomp(cyl, e.last, next);
    if e.curr then ([Wrap(time + shift)], Encoder(e.curr, next, Wrap(-shift)))
    else ([], Encoder(e.curr, next, time))
  }

  function Coder(c: nat, cyl: int, bits: seq<bool>): Encoder
    decreases |bits|
  {
    if bits == [] then Encoder(false, false, 0)
    else Encode(c, cyl, Coder(c, cyl, bits[..|bits| - 1]), bits[|bits| - 1]).1
  }

  /** All intervals written for bits. */
  function Intervals(c: nat, cyl: int, bits: seq<bool>): seq<uint32>
    decreases |bits|
  {
    if bits == [] then []
    else
      var before := bits[..|bits| - 1];
      Intervals(c, cyl, before) + Encode(c, cyl, Coder(c, cyl, before), bits[|bits| - 1]).0
  }

  // ----- the closed form

  /** The positions of the ones that have a successor. */
  function Ones(bits: seq<bool>): (r: seq<nat>)
    ensures forall j :: 0 <= j < |r| ==> r[j] + 1 < |bits| && bits[r[j]]
    ensures forall i, j :: 0 <= i < j < |r| ==> r[i] < r[j]
    decreases |bits|
  {
    var n := |bits|;
    if n < 2 then []
    else if bits[n - 2] then Ones(bits[..n - 1]) + [n - 2]
    else Ones(bits[..n - 1])
  }

  /** No one with a successor is left out. */
  lemma {:induction false} OnesComplete(bits: seq<bool>, i: nat)
    requires i + 1 < |bits| && bits[i]
    ensures i in Ones(bits)
    decreases |bits|
  {
    if i + 2 < |bits| {
      OnesComplete(bits[..|bits| - 1], i);
    } else {
      assert Ones(bits)[|Ones(bits)| - 1] == i;
    }
  }

  /** The ideal time of the transition for bit i. */
  function Ideal(c: nat, i: nat): nat {
    Mul(i + 2, c)
  }

  /** Its time with precompensation. */
  function Edge(c: nat, cyl: int, bits: seq<bool>, i: nat): (r: int)
    requires i + 1 < |bits|
    ensures Ideal(c, i) - PRECOMP_NS <= r <= Ideal(c, i) + PRECOMP_NS
  {
    Ideal(c, i) + Precomp(cyl, i > 0 && bits[i - 1], bits[i + 1])
  }

  /** The distance of the j-th transition from the one before it, or from the start. */
  function Distance(c: nat, cyl: int, bits: seq<bool>, j: nat): int
    requires j < |Ones(bits)|
  {
    Edge(c, cyl, bits, Ones(bits)[j]) - (if j == 0 then 0 else Edge(c, cyl, bits, Ones(bits)[j - 1]))
  }

  function LastEdge(c: nat, cyl: int, bits: seq<bool>): int {
    var ones := Ones(bits);
    if ones == [] then 0 else Edge(c, cyl, bits, ones[|ones| - 1])
  }

  lemma CoderRemembers(c: nat, cyl: int, bits: seq<bool>)
    ensures Coder(c, cyl, bits).curr == (bits != [] && bits[|bits| - 1])
    ensures Coder(c, cyl, bits).last == (|bits| > 1 && bits[|bits| - 2])
  {
    if bits != [] {
      var before := bits[..|bits| - 1];
      if before != [] {
        assert before[|before| - 1] == bits[|bits| - 2];
      }
    }
  }

  lemma EdgeOfPrefix(c: nat, cyl: int, bits: seq<bool>, i: nat)
    requires i + 2 < |bits|
    ensures Edge(c, cyl, bits[..|bits| - 1], i) == Edge(c, cyl, bits, i)
  {
  }

  ghost predicate InClosedForm(c: nat, cyl: int, bits: seq<bool>) {
    && |Intervals(c, cyl, bits)| == |Ones(bits)|
    && (forall j :: 0 <= j < |Ones(bits)| ==> Intervals(c, cyl, bits)[j] == Wrap(Distance(c, cyl, bits, j)))
    && Coder(c, cyl, bits).time == Wrap(Mul(|bits|, c) - LastEdge(c, cyl, bits))
  }

  lemma TimeGrows(c: nat, n: nat, last: int)
    requires n > 0
    ensures Wrap(Wrap(Mul(n - 1, c) - last) + c) == Wrap(Mul(n, c) - last)
  {
  }

  lemma ClosedFormPush(c: nat, cyl: int, bits: seq<bool>)
    requires |bits| >= 2 && bits[|bits| - 2] && InClosedForm(c, cyl, bits[..|bits| - 1])
    ensures InClosedForm(c, cyl, bits)
  {
    hide Wrap, Edge, Mul, Ones, Distance, LastEdge, Precomp;
    var before := bits[..|bits| - 1];
    CoderRemembers(c, cyl, before);
    TimeGrows(c, |bits|, LastEdge(c, cyl, before));
    OnesPush(c, cyl, bits);
    WrapWrap(Mul(|bits|, c) - LastEdge(c, cyl, before), Precomp(cyl, Coder(c, cyl, before).last, bits[|bits| - 1]));
  }

  lemma ClosedFormKeep(c: nat, cyl: int, bits: seq<bool>)
    requires bits != [] && (|bits| >= 2 ==> !bits[|bits| - 2]) && InClosedForm(c, cyl, bits[..|bits| - 1])
    ensures InClosedForm(c, cyl, bits)
  {
    hide Wrap, Edge, Mul, Ones, Distance, LastEdge, Precomp;
    var before := bits[..|bits| - 1];
    CoderRemembers(c, cyl, before);
    TimeGrows(c, |bits|, LastEdge(c, cyl, before));
    OnesKeep(c, cyl, bits);
  }

  /** The closed form: the intervals are the distances between edges, in 32-bit arithmetic. */
  lemma {:induction false} IntervalsAreDistances(c: nat, cyl: int, bits: seq<bool>)
    ensures |Intervals(c, cyl, bits)| == |Ones(bits)|
    ensures forall j :: 0 <= j < |Ones(bits)| ==> Intervals(c, cyl, bits)[j] == Wrap(Distance(c, cyl, bits, j))
    ensures InClosedForm(c, cyl, bits)
    decreases |bits|
  {
    hide Wrap, Distance, Mul, Ones, Intervals, Coder, LastEdge;
    if bits == [] {
      NothingEncoded(c, cyl);
    } else {
      IntervalsAreDistances(c, cyl, bits[..|bits| - 1]);
      if |bits| >= 2 && bits[|bits| - 2] {
        ClosedFormPush(c, cyl, bits);
      } else {
        ClosedFormKeep(c, cyl, bits);
      }
    }
  }

  lemma OnesPush(c: nat, cyl: int, bits: seq<bool>)
    requires |bits| >= 2 && bits[|bits| - 2]
    ensures Ones(bits) == Ones(bits[..|bits| - 1]) + [|bits| - 2]
    ensures forall j :: 0 <= j < |Ones(bits)| - 1 ==>
              Distance(c, cyl, bits, j) == Distance(c, cyl, bits[..|bits| - 1], j)
    ensures Distance(c, cyl, bits, |Ones(bits)| - 1) == LastEdge(c, cyl, bits) - LastEdge(c, cyl, bits[..|bits| - 1])
    ensures LastEdge(c, cyl, bits)
         == Mul(|bits|, c) + Precomp(cyl, |bits| > 2 && bits[|bits| - 3], bits[|bits| - 1])
  {
    hide Mul;
    var before, ones := bits[..|bits| - 1], Ones(bits[..|bits| - 1]);
    forall j | 0 <= j < |ones|
      ensures Edge(c, cyl, before, ones[j]) == Edge(c, cyl, bits, ones[j])
    {
      EdgeOfPrefix(c, cyl, bits, ones[j]);
    }
  }

  lemma OnesKeep(c: nat, cyl: int, bits: seq<bool>)
    requires |bits| >= 1 && (|bits| >= 2 ==> !bits[|bits| - 2])
    ensures Ones(bits) == Ones(bits[..|bits| - 1])
    ensures forall j :: 0 <= j < |Ones(bits)| ==>
              Distance(c, cyl, bits, j) == Distance(c, cyl, bits[..|bits| - 1], j)
    ensures LastEdge(c, cyl, bits) == LastEdge(c, cyl, bits[..|bits| - 1])
  {
    hide Mul;
    var before, ones := bits[..|bits| - 1], Ones(bits[..|bits| - 1]);
    forall j | 0 <= j < |ones|
      ensures Edge(c, cyl, before, ones[j]) == Edge(c, cyl, bits, ones[j])
    {
      EdgeOfPrefix(c, cyl, bits, ones[j]);
    }
  }

  lemma NothingEncoded(c: nat, cyl: int)
    ensures InClosedForm(c, cyl, [])
  {
  }

  // ----- precompensation

  /** Between a transition and the one before it is at least a cell, less twice the compensation. */
  lemma DistanceBound(c: nat, cyl: int, bits: seq<bool>, j: nat)
    requires j < |Ones(bits)|
    ensures Distance(c, cyl, bits, j) >= c - 2 * PRECOMP_NS
  {
    hide Mul;
    var ones := Ones(bits);
    MulBasics(0, c, 0);
    MulBasics(1, c, 0);
    if j == 0 {
      MulMonotone(c, 1, ones[j] + 2);
      MulBasics(c, ones[j] + 2, 0);
    } else {
      MulMonotone(c, 1, ones[j] - ones[j - 1]);
      MulBasics(c, ones[j] + 2, ones[j - 1] + 2);
      MulBasics(ones[j - 1] + 2, c, 0);
      MulBasics(ones[j] + 2, c, 0);
    }
    MulBasics(c, 1, 0);
  }

  lemma WrapExact(n: int)
    requires n >= 0
    ensures Wrap(n) <= n
    ensures Wrap(n) == n <==> n < 0x1_0000_0000
  {
  }

  /** Every interval written is the true one exactly when it fits in 32 bits, and is shorter otherwise. */
  lemma IntervalExact(c: nat, cyl: int, bits: seq<bool>, j: nat)
    requires c >= 500 && j < |Ones(bits)|
    ensures |Intervals(c, cyl, bits)| == |Ones(bits)| && Distance(c, cyl, bits, j) > 0
    ensures Intervals(c, cyl, bits)[j] <= Distance(c, cyl, bits, j)
    ensures Intervals(c, cyl, bits)[j] == Distance(c, cyl, bits, j) <==> Distance(c, cyl, bits, j) < 0x1_0000_0000
  {
    hide Wrap, Distance;
    IntervalsAreDistances(c, cyl, bits);
    DistanceBound(c, cyl, bits, j);
    WrapExact(Distance(c, cyl, bits, j));
  }

  /**
    Precompensation does not accumulate: the running sum of the intervals is the
    precompensated time of the transition, and so within 240 ns of the ideal one,
    for exactly as long as no distance is beyond 32 bits.
   */
  lemma {:induction false} RunningSum(c: nat, cyl: int, bits: seq<bool>, m: nat)
    requires c >= 500 && 0 < m <= |Ones(bits)|
    ensures |Intervals(c, cyl, bits)| == |Ones(bits)|
    ensures
      var sum, i := Sum(Intervals(c, cyl, bits)[..m]), Ones(bits)[m - 1];
      && sum <= Edge(c, cyl, bits, i)
      && (sum == Edge(c, cyl, bits, i) <==> forall j :: 0 <= j < m ==> Distance(c, cyl, bits, j) < 0x1_0000_0000)
    decreases m
  {
    hide Intervals, Ones, Edge;
    IntervalExact(c, cyl, bits, m - 1);
    var s := Intervals(c, cyl, bits);
    assert s[..m][..m - 1] == s[..m - 1];
    if m > 1 {
      RunningSum(c, cyl, bits, m - 1);
    }
  }

  lemma RunningSumNearIdeal(c: nat, cyl: int, bits: seq<bool>, m: nat)
    requires c >= 500 && 0 < m <= |Ones(bits)|
    requires forall j :: 0 <= j < m ==> Distance(c, cyl, bits, j) < 0x1_0000_0000
    ensures |Intervals(c, cyl, bits)| == |Ones(bits)|
    ensures -PRECOMP_NS <= Sum(Intervals(c, cyl, bits)[..m]) - Ideal(c, Ones(bits)[m - 1]) <= PRECOMP_NS
    ensures forall j :: 0 <= j < m ==> Intervals(c, cyl, bits)[j] >= c - 2 * PRECOMP_NS > 0
  {
    hide Intervals, Ones, Distance;
    RunningSum(c, cyl, bits, m);
    forall j | 0 <= j < m
      ensures Intervals(c, cyl, bits)[j] >= c - 2 * PRECOMP_NS
    {
      IntervalExact(c, cyl, bits, j);
      DistanceBound(c, cyl, bits, j);
    }
  }

  /**
    What the compensation does, by the neighbours of a transition, as long as no
    distance is beyond 32 bits.  From cylinder 40 on it comes 240 ns late between
    a one and a zero and 240 ns early between a zero and a one.
   */
  lemma CompensatedSum(c: nat, cyl: int, bits: seq<bool>, m: nat)
    requires c >= 500 && 0 < m <= |Ones(bits)|
    requires forall j :: 0 <= j < m ==> Distance(c, cyl, bits, j) < 0x1_0000_0000
    ensures |Intervals(c, cyl, bits)| == |Ones(bits)|
    ensures
      var sum, i := Sum(Intervals(c, cyl, bits)[..m]), Ones(bits)[m - 1];
      var before, after := i > 0 && bits[i - 1], bits[i + 1];
      && (cyl < 40 || before == after ==> sum == (i + 2) * c)
      && (cyl >= 40 && before && !after ==> sum == (i + 2) * c + 240)
      && (cyl >= 40 && !before && after ==> sum == (i + 2) * c - 240)
  {
    hide Intervals, Ones, Distance;
    RunningSum(c, cyl, bits, m);
  }

  /** Two ones are moved apart. */
  lemma OnesMovedApart(cyl: int)
    requires cyl >= 40
    ensures Intervals(2000, cyl, [true, true, false]) == [3760, 2480]
    ensures Intervals(2000, 39, [true, true, false]) == [4000, 2000]
  {
    hide *;
    var bits := [true, true, false];
    WrapExact(4000);
    WrapExact(3760);
    WrapExact(2000);
    WrapExact(2480);
    OnesOfThree();
    DistancesOfThree(cyl, bits);
    DistancesOfThree(39, bits);
    IntervalsAreDistances(2000, cyl, bits);
    IntervalsAreDistances(2000, 39, bits);
  }

  lemma DistancesOfThree(cyl: int, bits: seq<bool>)
    requires bits == [true, true, false] && Ones(bits) == [0, 1]
    ensures Distance(2000, cyl, bits, 0) == if cyl < 40 then 4000 else 3760
    ensures Distance(2000, cyl, bits, 1) == if cyl < 40 then 2000 else 2480
  {
    hide Ones, Mul;
    assert Mul(2, 2000) == 4000 && Mul(3, 2000) == 6000 by {
      Products();
    }
  }

  lemma Products()
    ensures Mul(2, 2000) == 4000 && Mul(3, 2000) == 6000
  {
  }

  lemma OnesOfThree()
    ensures Ones([true, true, false]) == [0, 1]
  {
    assert [true, true, false][..2] == [true, true] && [true, true][..1] == [true];
  }

  lemma WrapInjective(x: int, d: int)
    requires -0x1_0000_0000 < d < 0x1_0000_0000 && Wrap(x + d) == Wrap(x)
    ensures d == 0
  {
  }

  /** A one with a successor lies between equal neighbours; before the first bit counts as a zero. */
  ghost predicate Balanced(bits: seq<bool>, i: nat)
    requires i + 1 < |bits|
  {
    (i > 0 && bits[i - 1]) == bits[i + 1]
  }

  lemma BalancedEdge(c: nat, cyl: int, cyl': int, bits: seq<bool>, i: nat)
    requires i + 1 < |bits| && cyl < PRECOMP_CYL <= cyl'
    ensures Balanced(bits, i) ==> Edge(c, cyl', bits, i) == Edge(c, cyl, bits, i)
    ensures !Balanced(bits, i) ==> Edge(c, cyl', bits, i) != Edge(c, cyl, bits, i)
    ensures -PRECOMP_NS <= Edge(c, cyl', bits, i) - Edge(c, cyl, bits, i) <= PRECOMP_NS
  {
  }

  /** Equal intervals up to the j-th mean that the ones up to it are balanced. */
  lemma {:induction false} EqualIntervalsBalanced(c: nat, cyl: int, cyl': int, bits: seq<bool>, j: nat)
    requires cyl < PRECOMP_CYL <= cyl' && j < |Ones(bits)|
    requires forall i :: 0 <= i <= j ==> Wrap(Distance(c, cyl', bits, i)) == Wrap(Distance(c, cyl, bits, i))
    ensures Balanced(bits, Ones(bits)[j])
    decreases j
  {
    hide Wrap, Edge, Balanced, Ones;
    var ones := Ones(bits);
    BalancedEdge(c, cyl, cyl', bits, ones[j]);
    if j > 0 {
      EqualIntervalsBalanced(c, cyl, cyl', bits, j - 1);
      BalancedEdge(c, cyl, cyl', bits, ones[j - 1]);
    }
    WrapInjective(Distance(c, cyl, bits, j), Edge(c, cyl', bits, ones[j]) - Edge(c, cyl, bits, ones[j]));
  }

  /** The cylinder threshold is immaterial exactly when every transition is between equal neighbours. */
  lemma ThresholdImmaterial(c: nat, cyl: int, cyl': int, bits: seq<bool>)
    requires cyl < PRECOMP_CYL <= cyl'
    ensures Intervals(c, cyl, bits) == Intervals(c, cyl', bits)
       <==> forall j :: 0 <= j < |Ones(bits)| ==> Balanced(bits, Ones(bits)[j])
  {
    hide Wrap, Edge, Balanced, Ones, Intervals;
    IntervalsAreDistances(c, cyl, bits);
    IntervalsAreDistances(c, cyl', bits);
    var ones := Ones(bits);
    if Intervals(c, cyl, bits) == Intervals(c, cyl', bits) {
      forall j | 0 <= j < |ones|
        ensures Balanced(bits, ones[j])
      {
        EqualIntervalsBalanced(c, cyl, cyl', bits, j);
      }
    }
    if forall j :: 0 <= j < |ones| ==> Balanced(bits, ones[j]) {
      forall j | 0 <= j < |ones|
        ensures Distance(c, cyl, bits, j) == Distance(c, cyl', bits, j)
      {
        BalancedEdge(c, cyl, cyl', bits, ones[j]);
        if j > 0 {
          BalancedEdge(c, cyl, cyl', bits, ones[j - 1]);
        }
      }
      assert Intervals(c, cyl, bits) == Intervals(c, cyl', bits);
    }
  }

  /** So it is for every stream without two ones in a row, as MFM and FM are. */
  lemma SparseStreamsUncompensated(c: nat, cyl: int, cyl': int, bits: seq<bool>)
    requires cyl < PRECOMP_CYL <= cyl'
    requires forall i, j :: 0 <= i < j < |bits| && j == i + 1 ==> !(bits[i] && bits[j])
    ensures Intervals(c, cyl, bits) == Intervals(c, cyl', bits)
  {
    var ones := Ones(bits);
    forall j | 0 <= j < |ones|
      ensures Balanced(bits, ones[j])
    {
      assert !bits[ones[j] + 1];
    }
    ThresholdImmaterial(c, cyl, cyl', bits);
  }

  // ----- gaps beyond 32 bits

  lemma TwoOnes(g: nat)
    requires g > 0
    ensures Ones([true] + Zeros(g - 1) + [true, false]) == [0, g]
  {
    var bits := [true] + Zeros(g - 1) + [true, false];
    var ones := Ones(bits);
    OnesComplete(bits, 0);
    OnesComplete(bits, g);
    forall j | 0 <= j < |ones|
      ensures ones[j] == 0 || ones[j] == g
    {
    }
    var a :| 0 <= a < |ones| && ones[a] == 0;
    var b :| 0 <= b < |ones| && ones[b] == g;
    assert a == 0;
    assert ones[1] == g;
    assert |ones| == 2;
  }

  /** 2147484 cells of 2000 ns between two transitions do not fit: the interval written is 704 ns. */
  lemma LongGapWraps(bits: seq<bool>)
    requires bits == [true] + Zeros(2147483) + [true, false]
    ensures |Intervals(2000, 0, bits)| == 2 && Intervals(2000, 0, bits)[1] == 704
  {
    hide Intervals;
    TwoOnes(2147484);
    IntervalsAreDistances(2000, 0, bits);
  }
}
