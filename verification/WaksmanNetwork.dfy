/** The swap network as an object: it holds its gate list, turns permutations into control bits and
    routes vectors of ciphertexts. */
module WaksmanNetworks {
  import opened IdealCiphertext
  import opened Permutations
  import opened Results
  import opened Waksman

  class WaksmanNetwork {
    const size: nat
    var gates: seq<Gate>

    ghost predicate Valid()
      reads this
    {
      size >= 2 && gates == Network(size, 0, 0)
    }

    constructor (size: nat)
      requires size >= 2
      ensures Valid() && this.size == size
    {
      this.size := size;
      gates := [];
      new;
      BuildNetwork();
    }

    /** Construction from an arbitrary size: fewer than two positions are refused. */
    static method Create(size: nat) returns (r: Result<WaksmanNetwork>)
      ensures r.Success? <==> size >= 2
      ensures r.Success? ==> fresh(r.value) && r.value.Valid() && r.value.size == size
    {
      if size < 2 { return Failure(InvalidArgument); }
      var network := new WaksmanNetwork(size);
      return Success(network);
    }

    method BuildNetwork()
      modifies this`gates
      ensures gates == Network(size, 0, 0)
    {
      hide *;
      gates := [];
      var bitIdx := 0;
      ghost var all := Network(size, 0, 0);
      assert all == gates + Network(size, 0, bitIdx);
      for phase := 0 to size
        invariant all == gates + Network(size, phase, bitIdx)
      {
        var i := phase % 2;
        ghost var end := BuildingStart(all, gates, size, phase, bitIdx);
        ghost var rest := Network(size, phase + 1, end);
        while i + 1 < size
          invariant Building(all, gates, size, i, bitIdx, rest, end)
          decreases size - i
        {
          BuildingNext(all, gates, size, i, bitIdx, rest, end);
          gates := gates + [Gate(i, i + 1, bitIdx)];
          i, bitIdx := i + 2, bitIdx + 1;
        }
        BuildingNext(all, gates, size, i, bitIdx, rest, end);
      }
      NetworkUnfolds(size, size, bitIdx);
    }

    /** Checks that the argument is a permutation and inverts it. */
    method Ranks(permutation: seq<nat>) returns (r: Result<seq<nat>>)
      requires |permutation| == size
      ensures r.Success? <==> IsPermutation(permutation)
      ensures r.Success? ==> InverseOf(r.value, permutation)
      ensures r.Failure? ==> r.error == InvalidArgument
    {
      var seen := seq(size, _ => false);
      var rank: seq<nat> := seq(size, _ => 0);
      for dest := 0 to size
        invariant |seen| == |rank| == size
        invariant forall d :: 0 <= d < dest ==> permutation[d] < size && seen[permutation[d]]
        invariant forall d :: 0 <= d < dest ==> permutation[d] < size && rank[permutation[d]] == d
        invariant forall x :: 0 <= x < size && seen[x] ==> rank[x] < dest && permutation[rank[x]] == x
      {
        if permutation[dest] >= size || seen[permutation[dest]] {
          return Failure(InvalidArgument);
        }
        seen := seen[permutation[dest] := true];
        rank := rank[permutation[dest] := dest];
      }
      DistinctFromRanks(permutation, rank);
      forall x | 0 <= x < size
        ensures rank[x] < size && permutation[rank[x]] == x
      {
        PermutationCovers(permutation, x);
        var d :| 0 <= d < size && permutation[d] == x;
      }
      return Success(rank);
    }

    /** Runs the gates on the identity, swapping whenever the ranks are out of order. */
    method SimulateGates(rank: seq<nat>, ghost target: seq<nat>) returns (current: seq<nat>, swapBits: seq<bool>)
      requires Valid() && |rank| == size
      requires Synthesising(rank, gates, Iota(size), [], target)
      ensures current == target
      ensures Adjacent(gates, size) && swapBits == SortBits(rank, gates)
    {
      hide *;
      ghost var net := Numbers();
      current := Iota(size);
      swapBits := seq(|gates|, _ => false);
      assert swapBits[..0] == [];
      for k := 0 to |gates|
        invariant |swapBits| == |gates|
        invariant Synthesising(rank, gates, current, swapBits[..k], target)
      {
        var gate := gates[k];
        ghost var found := swapBits[..k];
        SynthesisShape(rank, gates, current, found, target);
        SynthesisStep(rank, gates, current, found, target);
        var shouldSwap := rank[current[gate.i]] > rank[current[gate.j]];
        swapBits := swapBits[gate.bitIdx := shouldSwap];
        assert swapBits[..k + 1] == found + [shouldSwap];
        if shouldSwap {
          current := Swap(current, gate);
        }
      }
      assert swapBits[..|gates|] == swapBits;
      SynthesisEnd(rank, gates, current, swapBits, target);
    }

    ghost method Numbers() returns (net: seq<Gate>)
      requires Valid()
      ensures net == gates && forall k :: 0 <= k < |gates| ==> gates[k].bitIdx == k
    {
      NetworkShape(size, 0, 0);
      net := gates;
    }

    /** The final comparison never fails: control bits exist for every permutation, and there are as
        many swaps as the permutation has inversions. */
    method GenerateSwapBits(permutation: seq<nat>) returns (r: Result<seq<bool>>)
      requires Valid()
      ensures r.Success? <==> |permutation| == size && IsPermutation(permutation)
      ensures r.Failure? ==> r.error == InvalidArgument
      ensures r.Success? ==>
                && |r.value| == |gates| && Adjacent(gates, size)
                && Route(Iota(size), gates, r.value) == permutation
                && CountTrue(r.value) == Inversions(permutation)
    {
      if |permutation| != size { return Failure(InvalidArgument); }
      var rank :- Ranks(permutation);
      SynthesisStart(rank, permutation);
      SynthesisSucceeds(permutation, rank);
      SwapsEqualInversions(permutation, rank);
      var current, swapBits := SimulateGates(rank, permutation);
      if current != permutation {
        return Failure(RuntimeError);
      }
      return Success(swapBits);
    }

    static method ApplyGates(data: array<Ciphertext>, gates: seq<Gate>, swapBits: seq<bool>)
      requires forall i, j :: 0 <= i < j < data.Length ==> |data[i]| == |data[j]|
      requires Adjacent(gates, data.Length) && |swapBits| == |gates|
      requires forall k :: 0 <= k < |gates| ==> gates[k].bitIdx == k
      modifies data
      ensures data[..] == Route(old(data[..]), gates, swapBits)
    {
      hide Route, CMux, Swap;
      ghost var before := data[..];
      assert gates[0..] == gates && swapBits[0..] == swapBits;
      for k := 0 to |gates|
        invariant forall i, j :: 0 <= i < j < data.Length ==> |data[i]| == |data[j]|
        invariant Route(before, gates, swapBits) == Route(data[..], gates[k..], swapBits[k..])
      {
        var gate := gates[k];
        ghost var current := data[..];
        RouteStep(current, gates, swapBits, k);
        var left := CMux(swapBits[gate.bitIdx], data[gate.j], data[gate.i]);
        var right := CMux(swapBits[gate.bitIdx], data[gate.i], data[gate.j]);
        data[gate.i] := left;
        data[gate.j] := right;
        SwapIsTwoWrites(current, gate);
        assert data[..] == if swapBits[k] then Swap(current, gate) else current;
      }
      assert gates[|gates|..] == [] && swapBits[|gates|..] == [];
      RouteNothing(data[..]);
    }

    /** Routes the ciphertexts in place through a network built for their number. */
    static method EvalWaksman(data: array<Ciphertext>, swapBits: seq<bool>) returns (r: Result<()>)
      requires forall i, j :: 0 <= i < j < data.Length ==> |data[i]| == |data[j]|
      modifies data
      ensures r.Success? <==> data.Length >= 2 && |swapBits| == data.Length * (data.Length - 1) / 2
      ensures r.Failure? ==> r.error == InvalidArgument && data[..] == old(data[..])
      ensures r.Success? ==>
                && |swapBits| == |Network(data.Length, 0, 0)| && Adjacent(Network(data.Length, 0, 0), data.Length)
                && data[..] == Route(old(data[..]), Network(data.Length, 0, 0), swapBits)
    {
      if data.Length < 2 { return Failure(InvalidArgument); }
      var network := new WaksmanNetwork(data.Length);
      GateCount(data.Length);
      if |swapBits| != |network.gates| { return Failure(InvalidArgument); }
      NetworkShape(data.Length, 0, 0);
      ApplyGates(data, network.gates, swapBits);
      return Success(());
    }
  }
}
