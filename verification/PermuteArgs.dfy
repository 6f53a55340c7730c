/**
  The in-place block exchange of getopt: `gcd` and `permute_args`.

  `permute_args` rotates the range [start, optEnd) of the argument vector by
  following gcd(nnonopts, nopts) cycles and swapping through the first slot of
  each.  Writing an offset of the range as g * t + k with 0 <= k < g, the walk
  keeps k and acts on t as t -> t + ob (mod L), where ob = nopts / g is coprime
  to L = total / g.  An inverse u of ob modulo L therefore numbers the slots of
  each cycle in visiting order.  Everything the loops need is in the two
  sequences of a Numbering: the cycle of an offset and its turn in that cycle.
 */
module ArgumentPermutation {
  import opened Arithmetic

  // ----- gcd

  ghost predicate IsGcd(d: int, a: int, b: int) {
    && 0 < d
    && Divides(d, a)
    && Divides(d, b)
    && forall e :: Divides(e, a) && Divides(e, b) ==> e <= d
  }

  /** d is an integer combination of a and b (Bezout's identity when d is their gcd). */
  ghost predicate Combines(d: int, a: int, b: int) {
    exists x, y :: Combination(x, y, a, b) == d
  }

  ghost function Combination(x: int, y: int, a: int, b: int): int {
    x * a + y * b
  }

  ghost predicate Divides(d: int, a: int) {
    exists k :: Times(k, d, a)
  }

  ghost predicate Times(k: int, d: int, a: int) {
    k * d == a
  }

  lemma CombinationIsGreatest(d: int, a: int, b: int, x: int, y: int)
    requires 0 < d && x * a + y * b == d
    ensures forall e :: Divides(e, a) && Divides(e, b) ==> e <= d
  {
    forall e | Divides(e, a) && Divides(e, b)
      ensures e <= d
    {
      var k :| Times(k, e, a);
      var l :| Times(l, e, b);
      assert (x * k + y * l) * e == d by {
        assert x * (k * e) == (x * k) * e;
        assert y * (l * e) == (y * l) * e;
      }
      if e > d {
        SmallMultipleIsZero(d, x * k + y * l, e);
      }
    }
  }

  /** Replacing b by its quotient and remainder in a combination of b and c. */
  lemma Rebase(p: int, q: int, b: int, c: int, k: int, d: int)
    requires b == k * c + d
    ensures Combination(p, q, b, c) == Combination(p * k + q, p, c, d)
  {
  }

  lemma SubtractMultiple(x: int, y: int, x': int, y': int, k: int, a: int, b: int)
    ensures Combination(x - k * x', y - k * y', a, b) == Combination(x, y, a, b) - k * Combination(x', y', a, b)
  {
  }

  /**
    Euclid's loop, keeping both running values as combinations of the inputs and the inputs as
    combinations of them.
   */
  method Gcd(a0: int, b0: int) returns (g: int)
    requires 0 <= a0 && 0 < b0
    ensures IsGcd(g, a0, b0) && Combines(g, a0, b0)
  {
    var a, b := a0, b0;
    var c := a % b;
    ghost var p, q, r, s := a / b, 1, 1, 0;
    ghost var xc, yc := 1, -(a / b);
    ghost var x, y := 0, 1;
    while c != 0
      invariant 0 <= c < b
      invariant a0 == Combination(p, q, b, c) && b0 == Combination(r, s, b, c)
      invariant Combination(x, y, a0, b0) == b && Combination(xc, yc, a0, b0) == c
      decreases c
    {
      a := b;
      b := c;
      c := a % b;
      ghost var k := a / b;
      Rebase(p, q, a, b, k, c);
      Rebase(r, s, a, b, k, c);
      SubtractMultiple(x, y, xc, yc, k, a0, b0);
      p, q, r, s := p * k + q, p, r * k + s, r;
      x, y, xc, yc := xc, yc, x - k * xc, y - k * yc;
    }
    g := b;
    assert Times(p, g, a0) && Times(r, g, b0);
    CombinationIsGreatest(g, a0, b0, x, y);
  }

  // ----- numbering the slots

  /** One step of the walk over offsets: nn non-options come first, then no options. */
  function Step(q: int, nn: int, no: int): int {
    if q >= nn then q - nn else q + no
  }

  /** The offset the walk came from. */
  function Back(q: int, nn: int, no: int): int {
    if q >= no then q - no else q + nn
  }

  /**
    For every offset of nn non-options followed by no options, the cycle it
    lies on and its turn: the number of steps from the cycle's first slot.
   */
  datatype Numbering = Numbering(nn: int, no: int, g: int, len: int, cycle: seq<int>, turn: seq<int>) {

    /**
      The walk splits the offsets into g disjoint cycles of len slots each: a
      step stays on its cycle and takes the next turn, cycle k starts at offset
      nn + k, and no two offsets share both cycle and turn.
     */
    ghost predicate IsWalk() {
      && 0 < nn && 0 < no && 1 < len && 0 < g <= no
      && |cycle| == |turn| == nn + no
      && (forall q :: 0 <= q < nn + no ==> 0 <= cycle[q] < g && 0 <= turn[q] < len)
      && (forall q {:trigger Step(q, nn, no)} :: 0 <= q < nn + no ==>
            && cycle[Step(q, nn, no)] == cycle[q]
            && turn[Step(q, nn, no)] == if turn[q] + 1 == len then 0 else turn[q] + 1)
      && (forall p, q :: 0 <= p < nn + no && 0 <= q < nn + no && turn[p] == turn[q] && cycle[p] == cycle[q] ==> p == q)
      && (forall q :: nn <= q < nn + g ==> cycle[q] == q - nn && turn[q] == 0)
    }
  }

  type Walk = w: Numbering | w.IsWalk() ghost witness Numbering(1, 1, 1, 2, [0, 0], [1, 0])

  /** The block lengths divided by their gcd, with u inverting ob modulo nb + ob. */
  ghost predicate Coprime(nb: int, ob: int, u: int, v: int) {
    0 < nb && 0 < ob && u * ob == 1 + v * (nb + ob)
  }

  ghost function Turn(t: int, nb: int, ob: int, u: int): int
    requires 0 < nb && 0 < ob
  {
    (u * (t - nb)) % (nb + ob)
  }

  lemma BezoutInverse(g: int, nb: int, ob: int, x: int, y: int)
    requires 0 < g && x * (nb * g) + y * (ob * g) == g
    ensures (y - x) * ob == 1 + (-x) * (nb + ob)
  {
    assert (x * nb + y * ob) * g == 1 * g;
    assert x * nb + y * ob == 1 by {
      var d := x * nb + y * ob - 1;
      assert d * g == 0;
    }
  }

  lemma Distribute(a: int, b: int, c: int)
    ensures a * (b + c) == a * b + a * c
    ensures (b + c) * a == b * a + c * a
  {
  }

  lemma Associate(a: int, b: int, c: int)
    ensures (a * b) * c == a * (b * c) == b * (a * c)
  {
  }

  lemma SuccessorMod(x: int, m: int)
    requires 0 < m
    ensures (x + 1) % m == if x % m + 1 == m then 0 else x % m + 1
  {
    var k, r := x / m, x % m;
    assert x == k * m + r;
    if r + 1 == m {
      Distribute(m, k, 1);
      ModUnique(x + 1, k + 1, 0, m);
    } else {
      ModUnique(x + 1, k, r + 1, m);
    }
  }

  /** Within a cycle, each step raises the turn by one, modulo the cycle length. */
  lemma StepTurn(t: int, nb: int, ob: int, u: int, v: int)
    requires Coprime(nb, ob, u, v) && 0 <= t < nb + ob
    ensures Turn(Step(t, nb, ob), nb, ob, u) ==
            if Turn(t, nb, ob, u) + 1 == nb + ob then 0 else Turn(t, nb, ob, u) + 1
  {
    var m := nb + ob;
    var x, x' := u * (t - nb), u * (Step(t, nb, ob) - nb);
    var k := if t >= nb then v - u else v;
    Distribute(u, t - nb, ob);
    Distribute(u, t - nb + ob, -m);
    Distribute(m, v, -u);
    assert x' == (x + 1) + k * m;
    ModShift(x + 1, x', k, m);
    SuccessorMod(x, m);
  }

  /** Distinct slots of a cycle have distinct turns, so the walk meets every slot exactly once. */
  lemma TurnInjective(t: int, t': int, nb: int, ob: int, u: int, v: int)
    requires Coprime(nb, ob, u, v)
    requires 0 <= t < nb + ob && 0 <= t' < nb + ob
    requires Turn(t, nb, ob, u) == Turn(t', nb, ob, u)
    ensures t == t'
  {
    var m, d := nb + ob, t - t';
    var k := SameResidue(u * (t - nb), u * (t' - nb), m);
    Distribute(u, t - nb, -(t' - nb));
    assert u * d == k * m;
    InverseCancels(d, k, m, ob, u, v);
    SmallMultipleIsZero(d, k * ob - v * d, m);
  }

  lemma SameResidue(x: int, y: int, m: int) returns (k: int)
    requires 0 < m && x % m == y % m
    ensures x - y == k * m
  {
    k := x / m - y / m;
    Distribute(m, x / m, -(y / m));
  }

  lemma InverseCancels(d: int, k: int, m: int, b: int, u: int, v: int)
    requires u * b == 1 + v * m && u * d == k * m
    ensures d == (k * b - v * d) * m
  {
    calc {
      (k * b - v * d) * m;
      { Distribute(m, k * b, -(v * d)); }
      (k * b) * m - (v * d) * m;
      { Associate(k, b, m); Associate(v, d, m); }
      b * (k * m) - d * (v * m);
      b * (u * d) - d * (u * b - 1);
      { Associate(b, u, d); Associate(u, b, d); Distribute(d, u * b, -1); }
      d;
    }
  }

  /** Offset q is slot q / g of cycle q % g, and the walk acts on the slot number alone. */
  lemma OffsetStep(q: int, g: int, nb: int, ob: int)
    requires 0 < g && 0 < nb && 0 < ob && 0 <= q < nb * g + ob * g
    ensures 0 <= q / g < nb + ob
    ensures Step(q, nb * g, ob * g) / g == Step(q / g, nb, ob)
    ensures Step(q, nb * g, ob * g) % g == q % g
  {
    var t, k := q / g, q % g;
    assert q == t * g + k;
    MultipleIsFar(t - (nb + ob), g);
    assert (t - (nb + ob)) * g == t * g - nb * g - ob * g;
    MultipleIsFar(t - nb, g);
    assert (t - nb) * g == t * g - nb * g;
    MultipleIsFar(t + 1, g);
    assert t >= nb <==> q >= nb * g;
    assert (t + ob) * g == t * g + ob * g;
    ModUnique(Step(q, nb * g, ob * g), Step(t, nb, ob), k, g);
  }

  /** The numbering of every offset by its quotient and remainder. */
  ghost function SlotNumbering(g: int, nb: int, ob: int, u: int): (w: Numbering)
    requires 0 < g && 0 < nb && 0 < ob
  {
    assert 0 <= nb * g && 0 <= ob * g;
    Numbering(nb * g, ob * g, g, nb + ob,
              seq(nb * g + ob * g, q => q % g), seq(nb * g + ob * g, q => Turn(q / g, nb, ob, u)))
  }

  lemma SlotNumberingStep(g: int, nb: int, ob: int, u: int, v: int, q: int)
    requires 0 < g && Coprime(nb, ob, u, v) && 0 <= q < nb * g + ob * g
    ensures
      var w := SlotNumbering(g, nb, ob, u);
      var to := Step(q, nb * g, ob * g);
      && 0 <= to < |w.turn|
      && 0 <= w.turn[q] < nb + ob
      && w.cycle[to] == w.cycle[q]
      && w.turn[to] == if w.turn[q] + 1 == nb + ob then 0 else w.turn[q] + 1
  {
    OffsetStep(q, g, nb, ob);
    StepTurn(q / g, nb, ob, u, v);
  }

  lemma QuotientAndRemainder(q: int, g: int)
    requires 0 < g
    ensures q == (q / g) * g + q % g
  {
  }

  lemma SlotNumberingInjective(g: int, nb: int, ob: int, u: int, v: int, p: int, q: int)
    requires 0 < g && Coprime(nb, ob, u, v) && 0 <= p < nb * g + ob * g && 0 <= q < nb * g + ob * g
    requires
      var w := SlotNumbering(g, nb, ob, u);
      w.cycle[p] == w.cycle[q] && w.turn[p] == w.turn[q]
    ensures p == q
  {
    OffsetStep(p, g, nb, ob);
    OffsetStep(q, g, nb, ob);
    TurnInjective(p / g, q / g, nb, ob, u, v);
    QuotientAndRemainder(p, g);
    QuotientAndRemainder(q, g);
  }

  lemma SlotNumberingStarts(g: int, nb: int, ob: int, u: int, q: int)
    requires 0 < g && 0 < nb && 0 < ob && nb * g <= q < nb * g + g && q < nb * g + ob * g
    ensures
      var w := SlotNumbering(g, nb, ob, u);
      w.cycle[q] == q - nb * g && w.turn[q] == 0
  {
    ModUnique(q, nb, q - nb * g, g);
    assert u * (nb - nb) == 0;
  }

  /** The numbering exists for all block lengths: this is where the number theory is used. */
  lemma NumberSlots(nn: int, no: int, g: int, nb: int, ob: int, u: int, v: int) returns (w: Walk)
    requires 0 < g && Coprime(nb, ob, u, v) && nn == nb * g && no == ob * g
    ensures w.nn == nn && w.no == no && w.g == g && w.len == nb + ob
  {
    MultipleIsFar(nb, g);
    MultipleIsFar(ob, g);
    var w' := SlotNumbering(g, nb, ob, u);
    forall q | 0 <= q < nn + no
      ensures 0 <= w'.turn[q] < nb + ob && w'.cycle[Step(q, nn, no)] == w'.cycle[q]
      ensures w'.turn[Step(q, nn, no)] == if w'.turn[q] + 1 == nb + ob then 0 else w'.turn[q] + 1
    {
      SlotNumberingStep(g, nb, ob, u, v, q);
    }
    forall p, q | 0 <= p < nn + no && 0 <= q < nn + no && w'.turn[p] == w'.turn[q] && w'.cycle[p] == w'.cycle[q]
      ensures p == q
    {
      SlotNumberingInjective(g, nb, ob, u, v, p, q);
    }
    forall q | nn <= q < nn + g
      ensures w'.cycle[q] == q - nn && w'.turn[q] == 0
    {
      SlotNumberingStarts(g, nb, ob, u, q);
    }
    w := w';
  }

  // ----- the exchange

  /** The sequence with the adjacent blocks [start, mid) and [mid, end) exchanged, each keeping its own order. */
  function Exchanged<T>(a: seq<T>, start: int, mid: int, end: int): (r: seq<T>)
    requires 0 <= start <= mid <= end <= |a|
  {
    a[..start] + a[mid..end] + a[start..mid] + a[end..]
  }

  /**
    The offset whose old value sits at offset q while cycle i has taken j steps
    and stands at offset at: finished slots hold their Back, the cycle's first
    slot holds whatever was swapped out last, and the rest is untouched.
   */
  ghost function Source(w: Walk, i: int, j: int, at: int, q: int): (r: int)
    requires 0 <= q < w.nn + w.no
  {
    if w.cycle[q] < i then Back(q, w.nn, w.no)
    else if w.cycle[q] > i then q
    else if w.turn[q] == 0 then (if j == 0 then q else if j == w.len then Back(q, w.nn, w.no) else at)
    else if w.turn[q] <= j then Back(q, w.nn, w.no)
    else q
  }

  /** The whole vector at that moment. */
  ghost function During<T>(was: seq<T>, start: int, w: Walk, i: int, j: int, at: int): (r: seq<T>)
    requires 0 <= at < w.nn + w.no && 0 <= start && start + w.nn + w.no <= |was|
    ensures |r| == |was|
  {
    seq(|was|, p requires 0 <= p < |was| =>
          if start <= p < start + w.nn + w.no then was[start + Source(w, i, j, at, p - start)] else was[p])
  }

  lemma DuringAt<T>(was: seq<T>, start: int, w: Walk, i: int, j: int, at: int, q: int)
    requires 0 <= at < w.nn + w.no && 0 <= start && start + w.nn + w.no <= |was| && 0 <= q < w.nn + w.no
    ensures During(was, start, w, i, j, at)[start + q] == was[start + Source(w, i, j, at, q)]
  {
  }

  lemma SameDuring<T>(was: seq<T>, start: int, w: Walk, i: int, j: int, at: int, i': int, j': int, at': int)
    requires 0 <= at < w.nn + w.no && 0 <= at' < w.nn + w.no && 0 <= start && start + w.nn + w.no <= |was|
    requires forall q :: 0 <= q < w.nn + w.no ==> Source(w, i, j, at, q) == Source(w, i', j', at', q)
    ensures During(was, start, w, i, j, at) == During(was, start, w, i', j', at')
  {
    var now, now' := During(was, start, w, i, j, at), During(was, start, w, i', j', at');
    forall p | 0 <= p < |was|
      ensures now[p] == now'[p]
    {
      if start <= p < start + w.nn + w.no {
        var q := p - start;
        assert Source(w, i, j, at, q) == Source(w, i', j', at', q);
      }
    }
  }

  /** At first nothing has moved. */
  lemma StartsUntouched<T>(was: seq<T>, start: int, w: Walk)
    requires 0 <= start && start + w.nn + w.no <= |was|
    ensures During(was, start, w, 0, 0, w.nn) == was
  {
    var now := During(was, start, w, 0, 0, w.nn);
    forall p | 0 <= p < |was|
      ensures now[p] == was[p]
    {
      if start <= p < start + w.nn + w.no {
        var q := p - start;
        assert 0 <= w.cycle[q] && 0 <= w.turn[q];
        DuringAt(was, start, w, 0, 0, w.nn, q);
      }
    }
  }

  /** A cycle begins at its first slot, with nothing of it moved. */
  lemma CycleStarts<T>(was: seq<T>, start: int, w: Walk, i: int)
    requires 0 <= i < w.g && 0 <= start && start + w.nn + w.no <= |was|
    ensures During(was, start, w, i, 0, w.nn + i) == During(was, start, w, i, 0, w.nn)
    ensures w.cycle[w.nn + i] == i && w.turn[w.nn + i] == 0
  {
    assert w.cycle[w.nn + i] == i;
    SameDuring(was, start, w, i, 0, w.nn + i, i, 0, w.nn);
  }

  /** After its last step a cycle is finished and the next one may start. */
  lemma CycleFinished<T>(was: seq<T>, start: int, w: Walk, i: int, at: int)
    requires 0 <= at < w.nn + w.no && 0 <= start && start + w.nn + w.no <= |was|
    ensures During(was, start, w, i, w.len, at) == During(was, start, w, i + 1, 0, w.nn)
  {
    SameDuring(was, start, w, i, w.len, at, i + 1, 0, w.nn);
  }

  /** What one swap through the cycle's first slot does to the Source of each offset. */
  lemma SwapSource(w: Walk, i: int, j: int, at: int, q: int)
    requires 0 <= at < w.nn + w.no && 0 <= q < w.nn + w.no
    requires 0 <= i < w.g && 0 <= j < w.len && w.cycle[at] == i && w.turn[at] == j
    ensures
      var to, first := Step(at, w.nn, w.no), w.nn + i;
      Source(w, i, j + 1, to, q) ==
        if q == first then Source(w, i, j, at, to)
        else if q == to then Source(w, i, j, at, first)
        else Source(w, i, j, at, q)
  {
    var to, first := Step(at, w.nn, w.no), w.nn + i;
    assert Back(to, w.nn, w.no) == at;
    assert w.cycle[to] == i && w.cycle[first] == i && w.turn[first] == 0;
    assert 0 <= w.turn[q] < w.len;
    if j == 0 {
      assert at == first;
    }
    if j + 1 == w.len {
      assert to == first;
    }
    if w.cycle[q] == i && w.turn[q] == 0 {
      assert q == first;
    } else if w.cycle[q] == i && w.turn[q] == j + 1 {
      assert q == to;
    }
  }

  /** The walk stays in its cycle and comes back to the cycle's first slot. */
  lemma StepStays(w: Walk, at: int)
    requires 0 <= at < w.nn + w.no
    ensures
      var to := Step(at, w.nn, w.no);
      && 0 <= to < w.nn + w.no && w.cycle[to] == w.cycle[at]
      && w.turn[to] == if w.turn[at] + 1 == w.len then 0 else w.turn[at] + 1
  {
  }

  /** Swapping the next slot of the walk with the cycle's first slot takes the cycle one step on. */
  lemma SwapAdvances<T>(was: seq<T>, start: int, w: Walk, i: int, j: int, at: int)
    requires 0 <= at < w.nn + w.no && 0 <= start && start + w.nn + w.no <= |was|
    requires 0 <= i < w.g && 0 <= j < w.len && w.cycle[at] == i && w.turn[at] == j
    ensures
      var now, to := During(was, start, w, i, j, at), Step(at, w.nn, w.no);
      var p, f := start + to, start + w.nn + i;
      && now[p := now[f]][f := now[p]] == During(was, start, w, i, j + 1, to)
      && w.cycle[to] == i
      && w.turn[to] == if j + 1 == w.len then 0 else j + 1
  {
    hide Source, Step;
    StepStays(w, at);
    var now, to := During(was, start, w, i, j, at), Step(at, w.nn, w.no);
    var next := During(was, start, w, i, j + 1, to);
    var p, f := start + to, start + w.nn + i;
    forall x | 0 <= x < |was|
      ensures now[p := now[f]][f := now[p]][x] == next[x]
    {
      if start <= x < start + w.nn + w.no {
        SwapSource(w, i, j, at, x - start);
      }
    }
  }

  /** With all cycles finished, the two blocks have changed places. */
  lemma CyclesExchange<T>(was: seq<T>, start: int, mid: int, end: int, w: Walk)
    requires 0 <= start && mid == start + w.nn && end == mid + w.no <= |was|
    ensures During(was, start, w, w.g, 0, w.nn) == Exchanged(was, start, mid, end)
  {
    var now, want := During(was, start, w, w.g, 0, w.nn), Exchanged(was, start, mid, end);
    forall p | 0 <= p < |was|
      ensures now[p] == want[p]
    {
      if start <= p < end {
        DuringAt(was, start, w, w.g, 0, w.nn, p - start);
        assert w.cycle[p - start] < w.g;
      }
    }
  }

  /** The numbering for the quantities the method has computed. */
  lemma CycleLayout(nn: int, no: int, g: int) returns (w: Walk)
    requires 0 < nn && 0 < no && IsGcd(g, nn, no) && Combines(g, nn, no)
    ensures w.nn == nn && w.no == no && w.g == g && w.len == (nn + no) / g
  {
    var nb :| Times(nb, g, nn);
    var ob :| Times(ob, g, no);
    var x, y :| Combination(x, y, nn, no) == g;
    BezoutInverse(g, nb, ob, x, y);
    assert 0 < nb && 0 < ob;
    assert nn + no == (nb + ob) * g;
    ModUnique(nn + no, nb + ob, 0, g);
    w := NumberSlots(nn, no, g, nb, ob, y - x, -x);
  }

  /**
    Exchange the non-options [nonoptStart, nonoptEnd) with the options
    [nonoptEnd, optEnd), in place.
   */
  method PermuteArgs<T>(nonoptStart: int, nonoptEnd: int, optEnd: int, argv: array<T>)
    requires 0 <= nonoptStart < nonoptEnd < optEnd <= argv.Length
    modifies argv
    ensures argv[..] == Exchanged(old(argv[..]), nonoptStart, nonoptEnd, optEnd)
  {
    hide During, Exchanged, IsGcd, Combines;
    var nnonopts := nonoptEnd - nonoptStart;
    var nopts := optEnd - nonoptEnd;
    var ncycle := Gcd(nnonopts, nopts);
    var cyclelen := (optEnd - nonoptStart) / ncycle;
    ghost var w := CycleLayout(nnonopts, nopts, ncycle);
    ghost var was := argv[..];
    StartsUntouched(was, nonoptStart, w);
    var i := 0;
    while i < ncycle
      invariant 0 <= i <= ncycle
      invariant argv[..] == During(was, nonoptStart, w, i, 0, nnonopts)
    {
      var cstart := nonoptEnd + i;
      var pos := cstart;
      var j := 0;
      CycleStarts(was, nonoptStart, w, i);
      while j < cyclelen
        invariant 0 <= j <= cyclelen
        invariant nonoptStart <= pos < optEnd
        invariant w.cycle[pos - nonoptStart] == i
        invariant w.turn[pos - nonoptStart] == if j == cyclelen then 0 else j
        invariant argv[..] == During(was, nonoptStart, w, i, j, pos - nonoptStart)
      {
        SwapAdvances(was, nonoptStart, w, i, j, pos - nonoptStart);
        if pos >= nonoptEnd {
          pos := pos - nnonopts;
        } else {
          pos := pos + nopts;
        }
        var swap := argv[pos];
        argv[pos] := argv[cstart];
        argv[cstart] := swap;
        j := j + 1;
      }
      CycleFinished(was, nonoptStart, w, i, pos - nonoptStart);
      i := i + 1;
    }
    CyclesExchange(was, nonoptStart, nonoptEnd, optEnd, w);
  }
}
