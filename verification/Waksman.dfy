/** The fixed network of adjacent swap gates: `size` phases of odd-even transposition. */
module Waksman {
  import opened Permutations

  datatype Gate = Gate(i: nat, j: nat, bitIdx: nat)

  // ----- the network -----

  function PhaseGates(size: nat, i: nat, bitIdx: nat): seq<Gate>
    decreases size - i
  {
    if i + 1 < size then [Gate(i, i + 1, bitIdx)] + PhaseGates(size, i + 2, bitIdx + 1) else []
  }

  /** The gates of the phases from `phase` on. */
  function Network(size: nat, phase: nat, bitIdx: nat): seq<Gate>
    decreases size - phase
  {
    if phase >= size then [] else
      var gates := PhaseGates(size, phase % 2, bitIdx);
      gates + Network(size, phase + 1, bitIdx + |gates|)
  }

  predicate Adjacent(gates: seq<Gate>, size: nat)
  {
    forall g :: g in gates ==> g.j == g.i + 1 < size
  }

  predicate Numbered(gates: seq<Gate>, bitIdx: nat)
  {
    forall k :: 0 <= k < |gates| ==> gates[k].bitIdx == bitIdx + k
  }

  lemma {:induction false} PhaseShape(size: nat, i: nat, bitIdx: nat)
    ensures Adjacent(PhaseGates(size, i, bitIdx), size)
    ensures Numbered(PhaseGates(size, i, bitIdx), bitIdx)
    ensures i <= size ==> |PhaseGates(size, i, bitIdx)| == (size - i) / 2
    decreases size - i
  {
    if i + 1 < size { PhaseShape(size, i + 2, bitIdx + 1); }
  }

  lemma {:induction false} NetworkShape(size: nat, phase: nat, bitIdx: nat)
    ensures Adjacent(Network(size, phase, bitIdx), size)
    ensures Numbered(Network(size, phase, bitIdx), bitIdx)
    decreases size - phase
  {
    hide Network, PhaseGates;
    NetworkUnfolds(size, phase, bitIdx);
    if phase < size {
      var gates := PhaseGates(size, phase % 2, bitIdx);
      PhaseShape(size, phase % 2, bitIdx);
      NetworkShape(size, phase + 1, bitIdx + |gates|);
      ShapeConcat(gates, Network(size, phase + 1, bitIdx + |gates|), size, bitIdx);
    }
  }

  lemma {:induction false} ShapeConcat(a: seq<Gate>, b: seq<Gate>, size: nat, bitIdx: nat)
    ensures Adjacent(a, size) && Adjacent(b, size) ==> Adjacent(a + b, size)
    ensures Numbered(a, bitIdx) && Numbered(b, bitIdx + |a|) ==> Numbered(a + b, bitIdx)
  {
  }

  /** Two consecutive phases hold size - 1 gates. */
  lemma {:induction false} TwoPhases(size: nat, phase: nat, bitIdx: nat) returns (next: nat)
    requires phase + 1 < size && phase % 2 == 0
    ensures |Network(size, phase, bitIdx)| == size - 1 + |Network(size, phase + 2, next)|
  {
    hide Network, PhaseGates, Adjacent, Numbered;
    PhaseShape(size, 0, bitIdx);
    var bit1 := bitIdx + |PhaseGates(size, 0, bitIdx)|;
    PhaseShape(size, 1, bit1);
    next := bit1 + |PhaseGates(size, 1, bit1)|;
    NetworkUnfolds(size, phase, bitIdx);
    NetworkUnfolds(size, phase + 1, bit1);
  }

  lemma {:induction false} LastPhase(size: nat, bitIdx: nat)
    requires size % 2 == 1
    ensures |Network(size, size - 1, bitIdx)| == size / 2
  {
    PhaseShape(size, 0, bitIdx);
    assert Network(size, size, bitIdx + |PhaseGates(size, 0, bitIdx)|) == [];
  }

  lemma {:induction false} GatesFrom(size: nat, phase: nat, bitIdx: nat)
    requires phase <= size && phase % 2 == 0
    ensures 2 * |Network(size, phase, bitIdx)| == (size - phase) * (size - 1)
    decreases size - phase
  {
    hide Network;
    NetworkUnfolds(size, size, bitIdx);
    if phase + 1 < size {
      var next := TwoPhases(size, phase, bitIdx);
      GatesFrom(size, phase + 2, next);
      assert (size - phase) * (size - 1) == (size - phase - 2) * (size - 1) + 2 * (size - 1);
    } else if phase + 1 == size {
      LastPhase(size, bitIdx);
    }
  }

  /** The network has one gate for every pair of positions. */
  lemma {:induction false} GateCount(size: nat)
    ensures |Network(size, 0, 0)| == size * (size - 1) / 2
  {
    GatesFrom(size, 0, 0);
  }

  /** Building a phase: the gates built so far, the rest of the phase, and the phases to come. */
  ghost predicate Building(all: seq<Gate>, built: seq<Gate>, size: nat, i: nat, bitIdx: nat, rest: seq<Gate>, end: nat)
  {
    all == built + (PhaseGates(size, i, bitIdx) + rest) && end == bitIdx + |PhaseGates(size, i, bitIdx)|
  }

  lemma {:induction false} BuildingStart(all: seq<Gate>, built: seq<Gate>, size: nat, phase: nat, bitIdx: nat)
    returns (end: nat)
    requires all == built + Network(size, phase, bitIdx) && phase < size
    ensures Building(all, built, size, phase % 2, bitIdx, Network(size, phase + 1, end), end)
  {
    hide Network, PhaseGates;
    NetworkUnfolds(size, phase, bitIdx);
    end := bitIdx + |PhaseGates(size, phase % 2, bitIdx)|;
  }

  lemma {:induction false} BuildingNext(all: seq<Gate>, built: seq<Gate>, size: nat, i: nat, bitIdx: nat,
                                        rest: seq<Gate>, end: nat)
    requires Building(all, built, size, i, bitIdx, rest, end)
    ensures i + 1 < size ==> Building(all, built + [Gate(i, i + 1, bitIdx)], size, i + 2, bitIdx + 1, rest, end)
    ensures i + 1 >= size ==> all == built + rest && end == bitIdx
  {
    hide Network;
  }

  lemma {:induction false} NetworkUnfolds(size: nat, phase: nat, bitIdx: nat)
    ensures phase < size ==>
              Network(size, phase, bitIdx) == PhaseGates(size, phase % 2, bitIdx)
                + Network(size, phase + 1, bitIdx + |PhaseGates(size, phase % 2, bitIdx)|)
    ensures phase >= size ==> Network(size, phase, bitIdx) == []
  {
  }

  // ----- what gates do to a vector -----

  function Swap<T>(s: seq<T>, g: Gate): (r: seq<T>)
    requires g.i < |s| && g.j < |s|
    ensures |r| == |s|
  {
    s[g.i := s[g.j]][g.j := s[g.i]]
  }

  /** Routes a vector through gates with the given control bits. */
  function Route<T>(s: seq<T>, gates: seq<Gate>, bits: seq<bool>): (r: seq<T>)
    requires Adjacent(gates, |s|) && |bits| == |gates|
    ensures |r| == |s|
    decreases |gates|
  {
    if gates == [] then s else
      Route(if bits[0] then Swap(s, gates[0]) else s, gates[1..], bits[1..])
  }

  lemma {:induction false} RouteStep<T>(s: seq<T>, gates: seq<Gate>, bits: seq<bool>, k: nat)
    requires Adjacent(gates, |s|) && |bits| == |gates| && k < |gates|
    ensures gates[k].i < |s| && gates[k].j < |s|
    ensures Route(s, gates[k..], bits[k..])
         == Route(if bits[k] then Swap(s, gates[k]) else s, gates[k + 1..], bits[k + 1..])
  {
    assert gates[k..][1..] == gates[k + 1..] && bits[k..][1..] == bits[k + 1..];
  }

  lemma {:induction false} RouteNothing<T>(s: seq<T>)
    ensures Route(s, [], []) == s
  {
  }

  lemma {:induction false} SwapIsTwoWrites<T>(s: seq<T>, g: Gate)
    requires g.i < |s| && g.j < |s|
    ensures Swap(s, g) == s[g.i := s[g.j]][g.j := s[g.i]]
  {
  }

  /** Control bits that swap a pair whenever it is out of order. */
  function SortBits(w: seq<int>, gates: seq<Gate>): (bits: seq<bool>)
    requires Adjacent(gates, |w|)
    ensures |bits| == |gates|
    decreases |gates|
  {
    if gates == [] then [] else
      var swap := w[gates[0].i] > w[gates[0].j];
      [swap] + SortBits(if swap then Swap(w, gates[0]) else w, gates[1..])
  }

  function Sort(w: seq<int>, gates: seq<Gate>): (r: seq<int>)
    requires Adjacent(gates, |w|)
    ensures |r| == |w|
  {
    Route(w, gates, SortBits(w, gates))
  }

  function Compare(w: seq<int>, g: Gate): (r: seq<int>)
    requires g.i < |w| && g.j < |w|
    ensures |r| == |w|
  {
    if w[g.i] > w[g.j] then Swap(w, g) else w
  }

  lemma {:induction false} SortStep(w: seq<int>, gates: seq<Gate>)
    requires Adjacent(gates, |w|)
    ensures gates != [] ==> Sort(w, gates) == Sort(Compare(w, gates[0]), gates[1..])
    ensures gates == [] ==> Sort(w, gates) == w
  {
    if gates != [] {
      var bits := SortBits(w, gates);
      assert bits[1..] == SortBits(Compare(w, gates[0]), gates[1..]);
    }
  }

  lemma {:induction false} SortConcat(w: seq<int>, a: seq<Gate>, b: seq<Gate>)
    requires Adjacent(a, |w|) && Adjacent(b, |w|)
    ensures Adjacent(a + b, |w|)
    ensures Sort(w, a + b) == Sort(Sort(w, a), b)
    decreases |a|
  {
    if a == [] {
      assert a + b == b;
      SortStep(w, a);
    } else {
      assert (a + b)[1..] == a[1..] + b;
      SortStep(w, a + b);
      SortStep(w, a);
      SortConcat(Compare(w, a[0]), a[1..], b);
    }
  }

  // ----- the network sorts -----

  /** How many entries at position q or later are at least k. */
  function Count(w: seq<int>, q: nat, k: int): (c: nat)
    decreases |w| - q
  {
    if q >= |w| then 0 else (if w[q] >= k then 1 else 0) + Count(w, q + 1, k)
  }

  lemma {:induction false} CountBounds(w: seq<int>, p: nat, q: nat, k: int)
    requires p <= q <= |w|
    ensures Count(w, p, k) - (q - p) <= Count(w, q, k) <= Count(w, p, k)
    ensures Count(w, q, k) <= |w| - q
    decreases |w| - p
  {
    if p < q {
      CountBounds(w, p + 1, q, k);
    } else if q < |w| {
      CountBounds(w, q + 1, q + 1, k);
    }
  }

  lemma {:induction false} CountSuffix(v: seq<int>, w: seq<int>, q: nat, k: int)
    requires |v| == |w|
    requires forall x :: q <= x < |v| ==> v[x] == w[x]
    ensures Count(v, q, k) == Count(w, q, k)
    decreases |v| - q
  {
    if q < |v| { CountSuffix(v, w, q + 1, k); }
  }

  lemma {:induction false} CountPrefix(v: seq<int>, w: seq<int>, p: nat, q: nat, k: int)
    requires |v| == |w| && p <= q <= |v|
    requires forall x :: p <= x < q ==> v[x] == w[x]
    requires Count(v, q, k) == Count(w, q, k)
    ensures Count(v, p, k) == Count(w, p, k)
    decreases q - p
  {
    if p < q { CountPrefix(v, w, p + 1, q, k); }
  }

  function Either(w: seq<int>, q: nat, k: int): nat
    requires q + 1 < |w|
  {
    if w[q] >= k || w[q + 1] >= k then 1 else 0
  }

  /** One gate: only the count that starts between its two positions can change. */
  lemma {:induction false} GateEffect(w: seq<int>, g: Gate, k: int)
    requires g.j == g.i + 1 < |w|
    ensures var r := Compare(w, g);
            && (forall x :: 0 <= x < |w| && x != g.i && x != g.j ==> r[x] == w[x])
            && Count(r, g.i + 2, k) == Count(w, g.i + 2, k)
            && Count(r, g.i + 1, k) == Count(w, g.i + 2, k) + Either(w, g.i, k)
            && Count(r, g.i, k) == Count(w, g.i, k)
  {
    CountSuffix(w, Compare(w, g), g.i + 2, k);
    assert Count(w, g.i + 1, k) == (if w[g.j] >= k then 1 else 0) + Count(w, g.i + 2, k);
  }

  /** A phase is its first gate followed by the phase that starts two positions later. */
  lemma {:induction false} PhaseSplit(w: seq<int>, i: nat, bitIdx: nat)
    ensures Adjacent(PhaseGates(|w|, i, bitIdx), |w|) && Adjacent(PhaseGates(|w|, i + 2, bitIdx + 1), |w|)
    ensures i + 1 < |w| ==> Sort(w, PhaseGates(|w|, i, bitIdx))
                            == Sort(Compare(w, Gate(i, i + 1, bitIdx)), PhaseGates(|w|, i + 2, bitIdx + 1))
    ensures i + 1 >= |w| ==> Sort(w, PhaseGates(|w|, i, bitIdx)) == w
  {
    hide Sort, Compare;
    var gates := PhaseGates(|w|, i, bitIdx);
    PhaseShape(|w|, i, bitIdx);
    PhaseShape(|w|, i + 2, bitIdx + 1);
    SortStep(w, gates);
    if i + 1 < |w| {
      assert gates[1..] == PhaseGates(|w|, i + 2, bitIdx + 1);
    }
  }

  /** A phase that starts at i leaves everything before i alone. */
  lemma {:induction false} PhaseFrame(w: seq<int>, i: nat, bitIdx: nat)
    ensures Adjacent(PhaseGates(|w|, i, bitIdx), |w|)
    ensures forall x :: 0 <= x < i && x < |w| ==> Sort(w, PhaseGates(|w|, i, bitIdx))[x] == w[x]
    decreases |w| - i
  {
    hide Sort, PhaseGates, Adjacent;
    PhaseSplit(w, i, bitIdx);
    if i + 1 < |w| {
      PhaseFrame(Compare(w, Gate(i, i + 1, bitIdx)), i + 2, bitIdx + 1);
    }
  }

  /** A phase does not change the counts that start at its left gate ends. */
  lemma {:induction false} PhaseKeeps(w: seq<int>, i: nat, bitIdx: nat, q: nat, k: int)
    requires i <= q <= |w| && (q - i) % 2 == 0
    ensures Adjacent(PhaseGates(|w|, i, bitIdx), |w|)
    ensures Count(Sort(w, PhaseGates(|w|, i, bitIdx)), q, k) == Count(w, q, k)
    decreases |w| - i
  {
    hide Sort, PhaseGates, Adjacent, Count, Compare, Either;
    PhaseSplit(w, i, bitIdx);
    if i + 1 < |w| {
      var g := Gate(i, i + 1, bitIdx);
      var u := Compare(w, g);
      GateEffect(w, g, k);
      if q == i {
        PhaseKeeps(u, i + 2, bitIdx + 1, i + 2, k);
        PhaseFrame(u, i + 2, bitIdx + 1);
        CountPrefix(Sort(u, PhaseGates(|w|, i + 2, bitIdx + 1)), u, i, i + 2, k);
      } else {
        PhaseKeeps(u, i + 2, bitIdx + 1, q, k);
        CountSuffix(w, u, q, k);
      }
    }
  }

  /** At the right end of a gate the count becomes the best the pair allows. */
  lemma {:induction false} PhaseLifts(w: seq<int>, i: nat, bitIdx: nat, q: nat, k: int)
    requires i <= q && q + 1 < |w| && (q - i) % 2 == 0
    ensures Adjacent(PhaseGates(|w|, i, bitIdx), |w|)
    ensures Count(Sort(w, PhaseGates(|w|, i, bitIdx)), q + 1, k) == Count(w, q + 2, k) + Either(w, q, k)
    decreases |w| - i
  {
    hide Sort, PhaseGates, Adjacent, Count, Compare;
    PhaseSplit(w, i, bitIdx);
    var g := Gate(i, i + 1, bitIdx);
    var u := Compare(w, g);
    GateEffect(w, g, k);
    if q == i {
      PhaseKeeps(u, i + 2, bitIdx + 1, i + 2, k);
      PhaseFrame(u, i + 2, bitIdx + 1);
      CountPrefix(Sort(u, PhaseGates(|w|, i + 2, bitIdx + 1)), u, i + 1, i + 2, k);
    } else {
      PhaseLifts(u, i + 2, bitIdx + 1, q, k);
      CountSuffix(w, u, q + 2, k);
    }
  }

  /** Where at least i of the m entries that are at least k have arrived before phase t: they start
      no further left than the front of the vector and then advance one position per phase. */
  function Target(size: nat, m: nat, t: nat, i: nat): nat
    requires i <= size
  {
    var moving := 2 * ((m + 1) / 2) + t - 2 * i;
    if moving < 0 then 0 else if moving < size - i then moving else size - i
  }

  predicate Arrived(w: seq<int>, t: nat, k: int, i: nat)
  {
    i <= |w| ==> Count(w, Target(|w|, Count(w, 0, k), t, i), k) >= i
  }

  ghost predicate Advanced(w: seq<int>, t: nat, k: int)
  {
    forall i: nat :: 1 <= i <= Count(w, 0, k) ==> Arrived(w, t, k, i)
  }

  lemma {:induction false} AdvancedAtStart(w: seq<int>, k: int)
    ensures Advanced(w, 0, k)
  {
    var m := Count(w, 0, k);
    forall i: nat | 1 <= i <= m
      ensures Arrived(w, 0, k, i)
    {
      if i <= |w| { CountBounds(w, 0, Target(|w|, m, 0, i), k); }
    }
  }

  /** What one phase does to the counts of one threshold. */
  ghost predicate PhaseCounts(w: seq<int>, r: seq<int>, t: nat, k: int)
  {
    && |r| == |w|
    && Count(r, 0, k) == Count(w, 0, k)
    && (forall q :: t % 2 <= q <= |w| ==> Count(r, q, k) >= Count(w, q, k))
    && (forall q :: t % 2 <= q && q + 1 < |w| && (q - t % 2) % 2 == 0 ==>
          Count(r, q + 1, k) == Count(w, q + 2, k) + Either(w, q, k))
  }

  lemma {:induction false} PhaseTotal(w: seq<int>, t: nat, bitIdx: nat, k: int)
    ensures Adjacent(PhaseGates(|w|, t % 2, bitIdx), |w|)
    ensures Count(Sort(w, PhaseGates(|w|, t % 2, bitIdx)), 0, k) == Count(w, 0, k)
  {
    PhaseShape(|w|, t % 2, bitIdx);
    var r := Sort(w, PhaseGates(|w|, t % 2, bitIdx));
    if t % 2 <= |w| {
      PhaseKeeps(w, t % 2, bitIdx, t % 2, k);
      PhaseFrame(w, t % 2, bitIdx);
      CountPrefix(w, r, 0, t % 2, k);
    } else {
      assert w == [] && r == [];
    }
  }

  lemma {:induction false} PhaseHasCounts(w: seq<int>, t: nat, bitIdx: nat, k: int)
    ensures Adjacent(PhaseGates(|w|, t % 2, bitIdx), |w|)
    ensures PhaseCounts(w, Sort(w, PhaseGates(|w|, t % 2, bitIdx)), t, k)
  {
    hide Sort, PhaseGates, Adjacent;
    var i := t % 2;
    PhaseShape(|w|, i, bitIdx);
    var r := Sort(w, PhaseGates(|w|, i, bitIdx));
    PhaseTotal(w, t, bitIdx, k);
    forall q | i <= q && q + 1 < |w| && (q - i) % 2 == 0
      ensures Count(r, q + 1, k) == Count(w, q + 2, k) + Either(w, q, k)
    {
      PhaseLifts(w, i, bitIdx, q, k);
    }
    forall q | i <= q <= |w|
      ensures Count(r, q, k) >= Count(w, q, k)
    {
      if (q - i) % 2 == 0 {
        PhaseKeeps(w, i, bitIdx, q, k);
      } else if q < |w| {
        PhaseLifts(w, i, bitIdx, q - 1, k);
      }
    }
  }

  /** A phase advances the i-th entry from the right by one position, until it has arrived. */
  lemma {:induction false} PhaseAdvances(w: seq<int>, r: seq<int>, t: nat, k: int, i: nat)
    requires PhaseCounts(w, r, t, k) && Advanced(w, t, k)
    requires 1 <= i <= Count(w, 0, k) && i <= |w|
    ensures Arrived(r, t + 1, k, i)
  {
    hide Count;
    var m := Count(w, 0, k);
    var moving := 2 * ((m + 1) / 2) + t - 2 * i;
    var goal := Target(|w|, m, t + 1, i);
    assert Arrived(w, t, k, i);
    if goal <= m - i {
      CountBounds(r, 0, goal, k);
    } else if moving >= |w| - i {
      assert Target(|w|, m, t, i) == goal;
    } else {
      assert goal == moving + 1 && t % 2 <= moving && (moving - t % 2) % 2 == 0;
      Overtakes(w, r, t, k, i, moving);
    }
  }

  lemma {:induction false} Overtakes(w: seq<int>, r: seq<int>, t: nat, k: int, i: nat, q: nat)
    requires PhaseCounts(w, r, t, k) && Advanced(w, t, k)
    requires 1 <= i <= Count(w, 0, k)
    requires q + i < |w| && q == 2 * ((Count(w, 0, k) + 1) / 2) + t - 2 * i
    requires t % 2 <= q && (q - t % 2) % 2 == 0
    ensures Count(r, q + 1, k) >= i
  {
    assert Target(|w|, Count(w, 0, k), t, i) == q;
    assert Arrived(w, t, k, i);
    assert Count(r, q + 1, k) == Count(w, q + 2, k) + Either(w, q, k);
    assert Count(w, q + 1, k) == (if w[q + 1] >= k then 1 else 0) + Count(w, q + 2, k);
    if i > 1 {
      assert Target(|w|, Count(w, 0, k), t, i - 1) == q + 2;
      assert Arrived(w, t, k, i - 1);
    }
  }

  lemma {:induction false} PhaseAdvancesAll(w: seq<int>, r: seq<int>, t: nat, k: int)
    requires PhaseCounts(w, r, t, k) && Advanced(w, t, k)
    ensures Advanced(r, t + 1, k)
  {
    var t' := t + 1;
    forall i: nat | 1 <= i <= Count(r, 0, k)
      ensures Arrived(r, t', k, i)
    {
      if i <= |w| { PhaseAdvances(w, r, t, k, i); }
    }
  }

  ghost predicate Gathered(r: seq<int>, m: nat, k: int)
  {
    m <= |r| && Count(r, 0, k) == m && Count(r, |r| - m, k) == m
  }

  lemma {:induction false} AdvancedAtEnd(w: seq<int>, k: int)
    requires Advanced(w, |w|, k)
    ensures Gathered(w, Count(w, 0, k), k)
  {
    var m := Count(w, 0, k);
    CountBounds(w, 0, 0, k);
    CountBounds(w, 0, |w| - m, k);
    if m > 0 {
      assert Arrived(w, |w|, k, m);
    }
  }

  /** After the last phase the m entries that are at least k fill the last m positions. */
  lemma {:induction false} NetworkGathers(w: seq<int>, t: nat, bitIdx: nat, k: int)
    requires t <= |w| && Advanced(w, t, k)
    ensures Adjacent(Network(|w|, t, bitIdx), |w|)
    ensures Gathered(Sort(w, Network(|w|, t, bitIdx)), Count(w, 0, k), k)
    decreases |w| - t
  {
    NetworkShape(|w|, t, bitIdx);
    if t == |w| {
      AdvancedAtEnd(w, k);
      assert Sort(w, Network(|w|, t, bitIdx)) == w;
    } else {
      var gates := PhaseGates(|w|, t % 2, bitIdx);
      PhaseHasCounts(w, t, bitIdx, k);
      var r := Sort(w, gates);
      PhaseAdvancesAll(w, r, t, k);
      NetworkGathers(r, t + 1, bitIdx + |gates|, k);
      SortConcat(w, gates, Network(|w|, t + 1, bitIdx + |gates|));
    }
  }

  predicate Ascending(w: seq<int>)
  {
    forall x, y :: 0 <= x < y < |w| ==> w[x] <= w[y]
  }

  lemma {:induction false} CountFull(w: seq<int>, q: nat, x: nat, k: int)
    requires q <= x < |w| && Count(w, q, k) == |w| - q
    ensures w[x] >= k
    decreases x - q
  {
    CountBounds(w, q, q + 1, k);
    CountBounds(w, q + 1, q + 1, k);
    if q < x { CountFull(w, q + 1, x, k); }
  }

  lemma {:induction false} CountNone(w: seq<int>, p: nat, q: nat, x: nat, k: int)
    requires p <= x < q <= |w| && Count(w, p, k) == Count(w, q, k)
    ensures w[x] < k
    decreases x - p
  {
    CountBounds(w, p + 1, q, k);
    if p < x { CountNone(w, p + 1, q, x, k); }
  }

  lemma {:induction false} GatheredOrders(r: seq<int>, m: nat, x: nat, y: nat)
    requires x < y < |r| && Gathered(r, m, r[x])
    ensures r[x] <= r[y]
  {
    if x < |r| - m { CountNone(r, 0, |r| - m, x, r[x]); }
    CountFull(r, |r| - m, y, r[x]);
  }

  /** `size` phases of adjacent compare-and-swap sort every vector of that size. */
  lemma {:induction false} NetworkSorts(w: seq<int>)
    ensures Adjacent(Network(|w|, 0, 0), |w|)
    ensures Ascending(Sort(w, Network(|w|, 0, 0)))
  {
    NetworkShape(|w|, 0, 0);
    var r := Sort(w, Network(|w|, 0, 0));
    forall x: nat, y: nat | x < y < |r|
      ensures r[x] <= r[y]
    {
      AdvancedAtStart(w, r[x]);
      NetworkGathers(w, 0, 0, r[x]);
      GatheredOrders(r, Count(w, 0, r[x]), x, y);
    }
  }

  // ----- control bits for a permutation -----

  /** rank is the inverse of p. */
  ghost predicate InverseOf(rank: seq<nat>, p: seq<nat>)
  {
    && |rank| == |p|
    && (forall d :: 0 <= d < |p| ==> p[d] < |p| && rank[p[d]] == d)
    && (forall x :: 0 <= x < |p| ==> rank[x] < |p| && p[rank[x]] == x)
  }

  lemma {:induction false} DistinctFromRanks(p: seq<nat>, rank: seq<nat>)
    requires |rank| == |p|
    requires forall d :: 0 <= d < |p| ==> p[d] < |p| && rank[p[d]] == d
    ensures IsPermutation(p)
  {
  }

  /** Gates move the entries of a vector the same way whatever the entries are. */
  lemma {:induction false} RouteNatural<T>(s: seq<T>, c: seq<nat>, gates: seq<Gate>, bits: seq<bool>)
    requires Adjacent(gates, |c|) && |bits| == |gates|
    requires Within(c, |s|)
    ensures Within(Route(c, gates, bits), |s|)
    ensures Permuted(s, Route(c, gates, bits)) == Route(Permuted(s, c), gates, bits)
    decreases |gates|
  {
    if gates != [] {
      var c' := if bits[0] then Swap(c, gates[0]) else c;
      assert Permuted(s, c') == if bits[0] then Swap(Permuted(s, c), gates[0]) else Permuted(s, c);
      RouteNatural(s, c', gates[1..], bits[1..]);
    }
  }

  /** Routing keeps entries distinct. */
  lemma {:induction false} RouteDistinct(c: seq<int>, gates: seq<Gate>, bits: seq<bool>)
    requires Adjacent(gates, |c|) && |bits| == |gates|
    requires IsPermutation(c)
    ensures IsPermutation(Route(c, gates, bits))
    decreases |gates|
  {
    if gates != [] {
      var c' := if bits[0] then Swap(c, gates[0]) else c;
      RouteDistinct(c', gates[1..], bits[1..]);
    }
  }

  lemma {:induction false} SortedPermutationAt(p: seq<int>, d: nat)
    requires IsPermutation(p) && Ascending(p) && d < |p|
    ensures d <= p[d]
  {
    if d > 0 {
      SortedPermutationAt(p, d - 1);
      assert p[d - 1] != p[d];
    }
  }

  lemma {:induction false} SortedPermutationFromEnd(p: seq<int>, d: nat)
    requires IsPermutation(p) && Ascending(p) && d < |p|
    ensures p[d] <= d
    decreases |p| - d
  {
    if d + 1 < |p| {
      SortedPermutationFromEnd(p, d + 1);
      assert p[d] != p[d + 1];
    }
  }

  lemma {:induction false} SortedPermutationIsIota(p: seq<int>)
    requires IsPermutation(p) && Ascending(p)
    ensures p == Iota(|p|)
  {
    forall d: nat | d < |p|
      ensures p[d] == d
    {
      SortedPermutationAt(p, d);
      SortedPermutationFromEnd(p, d);
    }
  }

  lemma {:induction false} InverseIsPermutation(rank: seq<nat>, permutation: seq<nat>)
    requires InverseOf(rank, permutation)
    ensures IsPermutation(rank)
  {
    forall d, e | 0 <= d < e < |rank|
      ensures rank[d] != rank[e]
    {
      assert permutation[rank[d]] == d && permutation[rank[e]] == e;
    }
  }

  /** Sorting a permutation of the first n numbers leaves them in order. */
  lemma {:induction false} SortedRanks(rank: seq<nat>)
    requires IsPermutation(rank)
    ensures Adjacent(Network(|rank|, 0, 0), |rank|)
    ensures Sort(rank, Network(|rank|, 0, 0)) == Iota(|rank|)
  {
    NetworkSorts(rank);
    RouteDistinct(rank, Network(|rank|, 0, 0), SortBits(rank, Network(|rank|, 0, 0)));
    SortedPermutationIsIota(Sort(rank, Network(|rank|, 0, 0)));
  }

  lemma {:induction false} RanksDetermine(final: seq<nat>, permutation: seq<nat>, rank: seq<nat>)
    requires InverseOf(rank, permutation) && |final| == |rank| && Within(final, |rank|)
    requires Permuted<int>(rank, final) == Iota(|rank|)
    ensures final == permutation
  {
    forall d | 0 <= d < |final|
      ensures final[d] == permutation[d]
    {
      assert Permuted<int>(rank, final)[d] == rank[final[d]];
      assert permutation[rank[final[d]]] == final[d];
    }
  }

  /** The bits that sort the ranks route the identity to the permutation, so synthesis never fails. */
  lemma {:induction false} SynthesisSucceeds(permutation: seq<nat>, rank: seq<nat>)
    requires InverseOf(rank, permutation)
    ensures var gates := Network(|permutation|, 0, 0);
            && Adjacent(gates, |permutation|)
            && Route(Iota(|permutation|), gates, SortBits(rank, gates)) == permutation
  {
    hide Network, SortBits, Route, Sort;
    var n := |permutation|;
    var gates := Network(n, 0, 0);
    InverseIsPermutation(rank, permutation);
    SortedRanks(rank);
    var bits := SortBits(rank, gates);
    RouteNatural<int>(rank, Iota(n), gates, bits);
    assert Permuted<int>(rank, Iota(n)) == rank;
    SortIsRoute(rank, gates);
    RanksDetermine(Route(Iota(n), gates, bits), permutation, rank);
  }

  lemma {:induction false} SortIsRoute(w: seq<int>, gates: seq<Gate>)
    requires Adjacent(gates, |w|)
    ensures Sort(w, gates) == Route(w, gates, SortBits(w, gates))
  {
  }

  /** Synthesis after some gates: the bits found so far, followed by those of the gates to come. */
  ghost predicate Synthesising(rank: seq<nat>, gates: seq<Gate>, current: seq<nat>, found: seq<bool>, target: seq<nat>)
  {
    && Within(current, |rank|) && Adjacent(gates, |rank|) && |current| == |rank| && |found| <= |gates|
    && var w := Permuted<int>(rank, current);
       var todo := gates[|found|..];
       && SortBits(rank, gates) == found + SortBits(w, todo)
       && Route(current, todo, SortBits(w, todo)) == target
  }

  lemma {:induction false} SynthesisStart(rank: seq<nat>, permutation: seq<nat>)
    requires InverseOf(rank, permutation)
    ensures Synthesising(rank, Network(|rank|, 0, 0), Iota(|rank|), [], permutation)
  {
    var gates := Network(|rank|, 0, 0);
    SynthesisSucceeds(permutation, rank);
    assert Permuted<int>(rank, Iota(|rank|)) == rank && gates[0..] == gates;
  }

  lemma {:induction false} SynthesisEnd(rank: seq<nat>, gates: seq<Gate>, current: seq<nat>, found: seq<bool>,
                                        target: seq<nat>)
    requires Synthesising(rank, gates, current, found, target) && |found| == |gates|
    ensures current == target && Adjacent(gates, |rank|) && found == SortBits(rank, gates)
  {
    assert gates[|found|..] == [];
  }

  lemma {:induction false} SynthesisShape(rank: seq<nat>, gates: seq<Gate>, current: seq<nat>, found: seq<bool>,
                                          target: seq<nat>)
    requires Synthesising(rank, gates, current, found, target) && |found| < |gates|
    ensures |current| == |rank| && gates[|found|].i < |rank| && gates[|found|].j < |rank|
    ensures current[gates[|found|].i] < |rank| && current[gates[|found|].j] < |rank|
  {
  }

  lemma {:induction false} SynthesisStep(rank: seq<nat>, gates: seq<Gate>, current: seq<nat>, found: seq<bool>,
                                         target: seq<nat>)
    requires Synthesising(rank, gates, current, found, target) && |found| < |gates|
    ensures var g := gates[|found|];
            g.i < |rank| && g.j < |rank| &&
            var swap := rank[current[g.i]] > rank[current[g.j]];
            Synthesising(rank, gates, if swap then Swap(current, g) else current, found + [swap], target)
  {
    hide SortBits, Route, Permuted, Swap, Compare;
    var g, k := gates[|found|], |found|;
    var swap := rank[current[g.i]] > rank[current[g.j]];
    var current' := if swap then Swap(current, g) else current;
    SynthesisUnfold(rank, gates, current, found, target);
    PermutedSwap(rank, current, g);
    assert |found + [swap]| == k + 1;
  }

  /** The next bit taken off what is still to come. */
  lemma {:induction false} SynthesisUnfold(rank: seq<nat>, gates: seq<Gate>, current: seq<nat>, found: seq<bool>,
                                           target: seq<nat>)
    requires Synthesising(rank, gates, current, found, target) && |found| < |gates|
    ensures var g, w := gates[|found|], Permuted<int>(rank, current);
            var swap, rest := w[g.i] > w[g.j], SortBits(Compare(w, g), gates[|found| + 1..]);
            && SortBits(rank, gates) == (found + [swap]) + rest
            && Route(if swap then Swap(current, g) else current, gates[|found| + 1..], rest) == target
  {
    hide SortBits, Route, Permuted, Swap, Compare;
    var g, w, todo := gates[|found|], Permuted<int>(rank, current), gates[|found|..];
    assert todo[1..] == gates[|found| + 1..] && todo[0] == g;
    SortBitsUnfold(w, todo);
    RouteStep(current, todo, SortBits(w, todo), 0);
    assert todo[0..] == todo && SortBits(w, todo)[0..] == SortBits(w, todo);
    Regroup(found, w[g.i] > w[g.j], SortBits(Compare(w, g), todo[1..]));
  }

  lemma {:induction false} Regroup(found: seq<bool>, bit: bool, rest: seq<bool>)
    ensures found + ([bit] + rest) == (found + [bit]) + rest
  {
  }

  lemma {:induction false} SortBitsUnfold(w: seq<int>, gates: seq<Gate>)
    requires Adjacent(gates, |w|) && gates != []
    ensures var g, bits := gates[0], SortBits(w, gates);
            bits == [w[g.i] > w[g.j]] + SortBits(Compare(w, g), gates[1..])
            && bits[1..] == SortBits(Compare(w, g), gates[1..])
  {
  }

  /** Comparing the ranks of two entries and swapping the entries is a compare-and-swap of the ranks. */
  lemma {:induction false} PermutedSwap(rank: seq<nat>, current: seq<nat>, g: Gate)
    requires Within(current, |rank|) && |current| == |rank| && g.i < |rank| && g.j < |rank|
    ensures var w, swap := Permuted<int>(rank, current), rank[current[g.i]] > rank[current[g.j]];
            && (swap <==> w[g.i] > w[g.j])
            && Within(if swap then Swap(current, g) else current, |rank|)
            && Permuted<int>(rank, if swap then Swap(current, g) else current) == Compare(w, g)
  {
    hide Permuted;
    if rank[current[g.i]] > rank[current[g.j]] {
      assert Permuted<int>(rank, Swap(current, g)) == Swap(Permuted<int>(rank, current), g);
    }
  }

  /** Routing any vector with the bits of a permutation leaves entry permutation[dest] at dest. */
  lemma {:induction false} RouteRealises<T>(data: seq<T>, permutation: seq<nat>, bits: seq<bool>)
    requires |data| == |permutation| && IsPermutation(permutation)
    requires |bits| == |Network(|permutation|, 0, 0)|
    requires Adjacent(Network(|permutation|, 0, 0), |permutation|)
    requires Route(Iota(|permutation|), Network(|permutation|, 0, 0), bits) == permutation
    ensures Route(data, Network(|data|, 0, 0), bits) == Permuted(data, permutation)
  {
    var n := |data|;
    RouteNatural(data, Iota(n), Network(n, 0, 0), bits);
    assert Permuted(data, Iota(n)) == data;
  }

  // ----- how many swaps -----

  function CountTrue(bits: seq<bool>): nat
  {
    if bits == [] then 0 else (if bits[0] then 1 else 0) + CountTrue(bits[1..])
  }

  function CountBelow(w: seq<int>, x: int): nat
  {
    if w == [] then 0 else (if w[0] < x then 1 else 0) + CountBelow(w[1..], x)
  }

  /** The number of pairs that are out of order. */
  function Inversions(w: seq<int>): nat
  {
    if w == [] then 0 else CountBelow(w[1..], w[0]) + Inversions(w[1..])
  }

  lemma {:induction false} SwapKeepsCountBelow(w: seq<int>, g: Gate, x: int)
    requires g.j == g.i + 1 < |w|
    ensures CountBelow(Swap(w, g), x) == CountBelow(w, x)
    decreases |w|
  {
    var r := Swap(w, g);
    if g.i == 0 {
      assert r[1..][1..] == w[1..][1..];
    } else {
      var g' := Gate(g.i - 1, g.j - 1, g.bitIdx);
      assert r[1..] == Swap(w[1..], g');
      SwapKeepsCountBelow(w[1..], g', x);
    }
  }

  /** Swapping an adjacent pair that is in order adds one inversion. */
  lemma {:induction false} SwapAddsInversion(w: seq<int>, g: Gate)
    requires g.j == g.i + 1 < |w| && w[g.i] < w[g.j]
    ensures Inversions(Swap(w, g)) == Inversions(w) + 1
    decreases |w|
  {
    var r := Swap(w, g);
    if g.i == 0 {
      assert r[1..][1..] == w[1..][1..];
    } else {
      var g' := Gate(g.i - 1, g.j - 1, g.bitIdx);
      assert r[1..] == Swap(w[1..], g');
      SwapKeepsCountBelow(w[1..], g', w[0]);
      SwapAddsInversion(w[1..], g');
    }
  }

  /** Pairs that have been exchanged already stand in the order of their ranks. */
  ghost predicate ExchangedOnce(c: seq<nat>, w: seq<int>)
  {
    |c| == |w| && forall x, y :: 0 <= x < y < |c| && c[x] >= c[y] ==> w[x] < w[y]
  }

  lemma {:induction false} SwapsAddInversions(c: seq<nat>, w: seq<int>, gates: seq<Gate>)
    requires Adjacent(gates, |w|) && ExchangedOnce(c, w)
    ensures Inversions(Route(c, gates, SortBits(w, gates))) == Inversions(c) + CountTrue(SortBits(w, gates))
    decreases |gates|
  {
    if gates != [] {
      var g := gates[0];
      var swap := w[g.i] > w[g.j];
      var c', w' := if swap then Swap(c, g) else c, Compare(w, g);
      assert SortBits(w, gates)[1..] == SortBits(w', gates[1..]);
      if swap { SwapAddsInversion(c, g); }
      SwapKeepsExchanged(c, w, g);
      SwapsAddInversions(c', w', gates[1..]);
    }
  }

  lemma {:induction false} SwapKeepsExchanged(c: seq<nat>, w: seq<int>, g: Gate)
    requires g.j == g.i + 1 < |w| && ExchangedOnce(c, w)
    ensures ExchangedOnce(if w[g.i] > w[g.j] then Swap(c, g) else c, Compare(w, g))
  {
  }

  lemma {:induction false} IotaHasNoInversions(w: seq<int>)
    requires forall x, y :: 0 <= x < y < |w| ==> w[x] < w[y]
    ensures Inversions(w) == 0
  {
    if w != [] {
      NoneBelow(w[1..], w[0]);
      IotaHasNoInversions(w[1..]);
    }
  }

  lemma {:induction false} NoneBelow(w: seq<int>, x: int)
    requires forall y :: 0 <= y < |w| ==> w[y] >= x
    ensures CountBelow(w, x) == 0
  {
    if w != [] { NoneBelow(w[1..], x); }
  }

  /** The network swaps exactly as often as the permutation has inversions: never twice the same pair. */
  lemma {:induction false} SwapsEqualInversions(permutation: seq<nat>, rank: seq<nat>)
    requires InverseOf(rank, permutation)
    ensures Adjacent(Network(|rank|, 0, 0), |rank|)
    ensures CountTrue(SortBits(rank, Network(|rank|, 0, 0))) == Inversions(permutation)
  {
    var n := |permutation|;
    SynthesisSucceeds(permutation, rank);
    SwapsAddInversions(Iota(n), rank, Network(n, 0, 0));
    IotaHasNoInversions(Iota(n));
  }
}
