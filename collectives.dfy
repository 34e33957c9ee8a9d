/** The collective primitives of the MoE communication layer, each given its
    meaning as a function on the global state of a group: a sequence with one
    entry per rank, in rank order. Rank k's tensor is a sequence of rows along
    dimension 0.

    AllGather and ReduceScatter work on flat tensors: for ReduceScatter a
    rank's input is a stack of slices (its leading axis) and every slice is
    the flat sequence of its numbers. */
module Collectives {
  import opened Base
  import opened Rows

  /** Every rank holds the same number of rows: the shape agreement the
      transport expects of all members of a collective call. */
  predicate SameRows<T>(xs: seq<seq<T>>)
  {
    forall k, j :: 0 <= k < |xs| && 0 <= j < |xs| ==> |xs[k]| == |xs[j]|
  }

  // ===== AllGather =====

  /** AllGather.forward: every rank receives all inputs stacked along a new
      leading axis in rank order; with one rank, only that axis is added. */
  function AllGather<T>(g: Group, xs: seq<seq<T>>): (out: seq<seq<seq<T>>>)
    requires |xs| == g.size && SameRows(xs)
    ensures |out| == g.size
    ensures forall k :: 0 <= k < g.size ==> |out[k]| == g.size && out[k] == xs
  {
    if g.size == 1 then [[xs[0]]] else seq(g.size, _ => xs)
  }

  // ===== ReduceScatter =====

  /** All slices of all ranks have the same number of elements. */
  predicate Rectangular(ys: seq<seq<seq<int>>>)
  {
    forall k, r, k', r' ::
      0 <= k < |ys| && 0 <= r < |ys[k]| && 0 <= k' < |ys| && 0 <= r' < |ys[k']| ==>
        |ys[k][r]| == |ys[k'][r']|
  }

  /** The elementwise sum over all ranks k of slice r of rank k. */
  function SliceSum(ys: seq<seq<seq<int>>>, r: nat, m: nat): (z: seq<int>)
    requires forall k :: 0 <= k < |ys| ==> r < |ys[k]| && |ys[k][r]| == m
    ensures |z| == m
  {
    seq(m, j requires 0 <= j < m => Sum(seq(|ys|, k requires 0 <= k < |ys| => ys[k][r][j])))
  }

  /** ReduceScatter.forward. With one rank the leading axis is squeezed away
      (when it is not of length 1, `squeeze(0)` keeps it: the flat data is the
      same either way). Otherwise the input is cut into `size` chunks along the
      leading axis, each of which must fill the output buffer of shape
      `inputs.shape[1:]`, so the leading axis must have exactly `size` slices;
      rank r receives the elementwise sum over ranks of slice r. */
  function ReduceScatter(g: Group, ys: seq<seq<seq<int>>>): (r: Result<seq<seq<int>>>)
    requires |ys| == g.size && SameRows(ys) && Rectangular(ys)
    ensures r.Ok? <==> g.size == 1 || |ys[0]| == g.size
    ensures r.Ok? ==> |r.value| == g.size
    ensures r.Ok? && g.size > 1 ==> forall i :: 0 <= i < g.size ==> |r.value[i]| == |ys[0][0]|
    ensures g.size == 1 ==> r == Ok([Flatten(ys[0])])
    ensures r.Ok? && g.size > 1 ==> forall i :: 0 <= i < g.size ==> r.value[i] == SliceSum(ys, i, |ys[0][0]|)
  {
    if g.size == 1 then Ok([Flatten(ys[0])])
    else if |ys[0]| != g.size then Err(ShapeMismatch)
    else
      var m := |ys[0][0]|;
      Ok(seq(g.size, r requires 0 <= r < g.size => SliceSum(ys, r, m)))
  }

  /** Inner product of two flat tensors. */
  function Dot(u: seq<int>, v: seq<int>): int
    requires |u| == |v|
  {
    Sum(seq(|u|, j requires 0 <= j < |u| => u[j] * v[j]))
  }

  /** Inner product of two stacks of flat tensors, slice by slice. */
  function StackDot(a: seq<seq<int>>, b: seq<seq<int>>): int
    requires |a| == |b| && forall r :: 0 <= r < |a| ==> |a[r]| == |b[r]|
  {
    Sum(seq(|a|, r requires 0 <= r < |a| => Dot(a[r], b[r])))
  }

  lemma DotAdd(x: seq<int>, u: seq<int>, v: seq<int>, w: seq<int>)
    requires |x| == |u| == |v| == |w| && forall j :: 0 <= j < |x| ==> w[j] == u[j] + v[j]
    ensures Dot(x, w) == Dot(x, u) + Dot(x, v)
  {
    var a := seq(|x|, j requires 0 <= j < |x| => x[j] * u[j]);
    var b := seq(|x|, j requires 0 <= j < |x| => x[j] * v[j]);
    var c := seq(|x|, j requires 0 <= j < |x| => x[j] * w[j]);
    forall j | 0 <= j < |x| ensures c[j] == a[j] + b[j] {
      assert x[j] * (u[j] + v[j]) == x[j] * u[j] + x[j] * v[j];
    }
    SumPointwiseAdd(a, b, c);
  }

  /** The elementwise sum of the first K stacks, for every slice r. */
  function PartialReduce(xs: seq<seq<int>>, ys: seq<seq<seq<int>>>): seq<seq<int>>
    requires forall k :: 0 <= k < |ys| ==> |ys[k]| == |xs| && forall r :: 0 <= r < |xs| ==> |ys[k][r]| == |xs[r]|
  {
    seq(|xs|, r requires 0 <= r < |xs| => SliceSum(ys, r, |xs[r]|))
  }

  lemma {:induction false} StackDotReduce(xs: seq<seq<int>>, ys: seq<seq<seq<int>>>)
    requires forall k :: 0 <= k < |ys| ==> |ys[k]| == |xs| && forall r :: 0 <= r < |xs| ==> |ys[k][r]| == |xs[r]|
    ensures Sum(seq(|ys|, k requires 0 <= k < |ys| => StackDot(xs, ys[k]))) == StackDot(xs, PartialReduce(xs, ys))
  {
    var z := PartialReduce(xs, ys);
    if |ys| == 0 {
      forall r | 0 <= r < |xs| ensures Dot(xs[r], z[r]) == 0 {
        assert forall j :: 0 <= j < |xs[r]| ==> z[r][j] == 0;
        assert forall j :: 0 <= j < |xs[r]| ==> xs[r][j] * z[r][j] == 0;
        SumZero(seq(|xs[r]|, j requires 0 <= j < |xs[r]| => xs[r][j] * z[r][j]));
      }
      var ds := seq(|xs|, r requires 0 <= r < |xs| => Dot(xs[r], z[r]));
      assert forall r :: 0 <= r < |xs| ==> ds[r] == 0;
      SumZero(ds);
    } else {
      var rest := ys[1..];
      StackDotReduce(xs, rest);
      var z' := PartialReduce(xs, rest);
      var lhs := seq(|ys|, k requires 0 <= k < |ys| => StackDot(xs, ys[k]));
      var rhs := seq(|rest|, k requires 0 <= k < |rest| => StackDot(xs, rest[k]));
      forall k | 0 <= k < |rest| ensures lhs[1..][k] == rhs[k] {
        assert rest[k] == ys[k + 1];
      }
      assert lhs[1..] == rhs;
      // z is slice-by-slice the sum of ys[0] and z'
      var a := seq(|xs|, r requires 0 <= r < |xs| => Dot(xs[r], ys[0][r]));
      var b := seq(|xs|, r requires 0 <= r < |xs| => Dot(xs[r], z'[r]));
      var c := seq(|xs|, r requires 0 <= r < |xs| => Dot(xs[r], z[r]));
      forall r | 0 <= r < |xs| ensures c[r] == a[r] + b[r] {
        forall j | 0 <= j < |xs[r]| ensures z[r][j] == ys[0][r][j] + z'[r][j] {
          ColumnSumStep(ys, r, j);
        }
        DotAdd(xs[r], ys[0][r], z'[r], z[r]);
      }
      SumPointwiseAdd(a, b, c);
    }
  }

  /** The sum down a column of the stacks is the first stack's entry plus
      the sum down the rest. */
  lemma ColumnSumStep(ys: seq<seq<seq<int>>>, r: nat, j: nat)
    requires |ys| > 0 && forall k :: 0 <= k < |ys| ==> r < |ys[k]| && j < |ys[k][r]|
    ensures var rest := ys[1..];
      Sum(seq(|ys|, k requires 0 <= k < |ys| => ys[k][r][j]))
        == ys[0][r][j] + Sum(seq(|rest|, k requires 0 <= k < |rest| => rest[k][r][j]))
  {
    var rest := ys[1..];
    var col := seq(|ys|, k requires 0 <= k < |ys| => ys[k][r][j]);
    var tail := seq(|rest|, k requires 0 <= k < |rest| => rest[k][r][j]);
    forall k | 0 <= k < |rest| ensures col[1..][k] == tail[k] {
      assert rest[k] == ys[k + 1];
    }
    assert col[1..] == tail;
  }

  /** AllGather and ReduceScatter are adjoint: for every global input x of
      AllGather and every global gradient y of AllGather's output shape,
      sum over ranks k of <AllGather(x)_k, y_k> equals sum over ranks r of
      <x_r, ReduceScatter(y)_r>. This is why each is the other's backward. */
  lemma AllGatherReduceScatterAdjoint(g: Group, xs: seq<seq<int>>, ys: seq<seq<seq<int>>>)
    requires |xs| == g.size == |ys| && SameRows(xs)
    requires forall k :: 0 <= k < g.size ==> |ys[k]| == g.size && forall r :: 0 <= r < g.size ==> |ys[k][r]| == |xs[r]|
    ensures SameRows(ys) && Rectangular(ys)
    ensures ReduceScatter(g, ys).Ok?
    ensures var ag := AllGather(g, xs); var rs := ReduceScatter(g, ys).value;
      (forall r :: 0 <= r < g.size ==> |rs[r]| == |xs[r]|) &&
      Sum(seq(g.size, k requires 0 <= k < g.size => StackDot(ag[k], ys[k]))) == StackDot(xs, rs)
  {
    var ag := AllGather(g, xs);
    var rs := ReduceScatter(g, ys).value;
    var z := PartialReduce(xs, ys);
    if g.size == 1 {
      FlattenSingle(ys[0][0]);
      assert ys[0] == [ys[0][0]];
      assert rs == [ys[0][0]];
      forall j | 0 <= j < |xs[0]| ensures z[0][j] == ys[0][0][j] {
        var c := seq(|ys|, k requires 0 <= k < |ys| => ys[k][0][j]);
        assert c == [ys[0][0][j]];
        assert c[1..] == [];
        assert Sum(c[1..]) == 0;
      }
      assert z[0] == ys[0][0];
      assert z == rs;
    } else {
      forall r | 0 <= r < g.size ensures z[r] == rs[r] {
        assert |xs[r]| == |xs[0]| == |ys[0][0]|;
      }
      assert z == rs;
    }
    StackDotReduce(xs, ys);
    assert seq(g.size, k requires 0 <= k < g.size => StackDot(ag[k], ys[k]))
        == seq(|ys|, k requires 0 <= k < |ys| => StackDot(xs, ys[k]));
  }

  /** Reducing what AllGather stacked gives every rank its own input scaled by
      the group size: the round trip of the two primitives through the sum. */
  lemma ReduceScatterOfAllGather(g: Group, xs: seq<seq<int>>)
    requires |xs| == g.size && SameRows(xs)
    ensures SameRows(AllGather(g, xs)) && Rectangular(AllGather(g, xs))
    ensures ReduceScatter(g, AllGather(g, xs))
         == Ok(seq(g.size, r requires 0 <= r < g.size => seq(|xs[r]|, j requires 0 <= j < |xs[r]| => g.size * xs[r][j])))
  {
    var ag := AllGather(g, xs);
    var want := seq(g.size, r requires 0 <= r < g.size => seq(|xs[r]|, j requires 0 <= j < |xs[r]| => g.size * xs[r][j]));
    if g.size == 1 {
      FlattenSingle(xs[0]);
      assert ag == [[xs[0]]];
      assert ReduceScatter(g, ag) == Ok([xs[0]]);
      assert want[0] == xs[0];
      assert want == [xs[0]];
    } else {
      var rs := ReduceScatter(g, ag).value;
      assert ag == seq(g.size, _ => xs);
      forall r | 0 <= r < g.size ensures rs[r] == want[r] {
        assert |xs[r]| == |xs[0]|;
        SliceSumOfCopies(xs, g.size, r);
      }
      assert rs == want;
    }
  }

  /** Summing n copies of the same stack multiplies slice r by n. */
  lemma SliceSumOfCopies(xs: seq<seq<int>>, n: nat, r: nat)
    requires r < |xs|
    ensures SliceSum(seq(n, _ => xs), r, |xs[r]|) == seq(|xs[r]|, j requires 0 <= j < |xs[r]| => n * xs[r][j])
  {
    var ys := seq(n, _ => xs);
    forall j | 0 <= j < |xs[r]| ensures SliceSum(ys, r, |xs[r]|)[j] == n * xs[r][j] {
      SumConstant(xs[r][j], n);
      assert seq(|ys|, k requires 0 <= k < |ys| => ys[k][r][j]) == seq(n, _ => xs[r][j]);
    }
  }

  lemma {:induction false} SumConstant(c: int, n: nat)
    ensures Sum(seq(n, _ => c)) == n * c
  {
    if n > 0 {
      assert seq(n, _ => c)[1..] == seq(n - 1, _ => c);
      SumConstant(c, n - 1);
      MulPred(n, c);
    }
  }

  // ===== all_to_all_single: the transport behind AllToAll, _all_to_all and
  //       the inter-node step of HierarchicalAllToAll =====

  /** How the transport reads one rank's split-size list for a buffer of
      `rows` rows: an omitted or empty list means an even split, which needs
      `rows` to divide by the group size; a given list needs one entry per rank
      and must add up to `rows`. */
  function ResolveSplits(opt: Option<seq<nat>>, rows: nat, size: GroupSize): (r: Result<seq<nat>>)
    ensures r.Ok? ==> |r.value| == size && Sum(r.value) == rows
    ensures (opt.None? || opt.value == []) ==> (r.Ok? <==> rows % size == 0)
    ensures opt.Some? && opt.value != [] ==> (r.Ok? <==> |opt.value| == size && Sum(opt.value) == rows)
  {
    if opt.None? || opt.value == [] then
      if rows % size == 0 then
        SumRepeat(rows / size, size);
        Ok(Repeat(rows / size, size))
      else Err(NotDivisible)
    else if |opt.value| != size then Err(SplitCountMismatch)
    else if Sum(opt.value) != rows then Err(SplitSumMismatch)
    else Ok(opt.value)
  }

  /** Every rank's list resolved; the call fails if any rank's does. */
  function ResolveAll(opts: seq<Option<seq<nat>>>, rows: seq<nat>, size: GroupSize): (r: Result<seq<seq<nat>>>)
    requires |opts| == |rows|
    ensures r.Ok? <==> forall k :: 0 <= k < |opts| ==> ResolveSplits(opts[k], rows[k], size).Ok?
    ensures r.Ok? ==> (|r.value| == |opts| &&
      forall k :: 0 <= k < |opts| ==> r.value[k] == ResolveSplits(opts[k], rows[k], size).value)
  {
    if |opts| == 0 then Ok([])
    else
      var first := ResolveSplits(opts[0], rows[0], size);
      var rest := ResolveAll(opts[1..], rows[1..], size);
      if first.Err? then Err(first.error)
      else if rest.Err? then Err(rest.error)
      else Ok([first.value] + rest.value)
  }

  /** Rank r expects from rank k exactly the rows rank k sends to rank r. */
  predicate Consistent(ins: seq<seq<nat>>, outs: seq<seq<nat>>)
  {
    |ins| == |outs| &&
    (forall k :: 0 <= k < |ins| ==> |ins[k]| == |ins| && |outs[k]| == |ins|) &&
    forall r, k :: 0 <= r < |ins| && 0 <= k < |ins| ==> outs[r][k] == ins[k][r]
  }

  predicate ExchangeReady<T>(xs: seq<seq<T>>, ins: seq<seq<nat>>, outs: seq<seq<nat>>)
  {
    |xs| == |ins| && Consistent(ins, outs) &&
    forall k :: 0 <= k < |xs| ==> Sum(ins[k]) == |xs[k]|
  }

  /** What rank r receives: piece r of every rank's input, in rank order. */
  function Received<T>(xs: seq<seq<T>>, ins: seq<seq<nat>>, outs: seq<seq<nat>>, r: nat): (y: seq<T>)
    requires ExchangeReady(xs, ins, outs) && r < |xs|
    ensures |y| == Sum(outs[r])
  {
    var col := seq(|xs|, k requires 0 <= k < |xs| => Pieces(xs[k], ins[k])[r]);
    PiecesFlatten(col, outs[r]);
    Flatten(col)
  }

  /** The data movement of all_to_all_single once sizes are resolved. */
  function Exchange<T>(xs: seq<seq<T>>, ins: seq<seq<nat>>, outs: seq<seq<nat>>): (ys: seq<seq<T>>)
    requires ExchangeReady(xs, ins, outs)
    ensures |ys| == |xs| && forall r :: 0 <= r < |xs| ==> |ys[r]| == Sum(outs[r])
  {
    seq(|xs|, r requires 0 <= r < |xs| => Received(xs, ins, outs, r))
  }

  /** Piece k of what rank r received is piece r of what rank k sent. */
  lemma ExchangeBlocks<T>(xs: seq<seq<T>>, ins: seq<seq<nat>>, outs: seq<seq<nat>>, r: nat)
    requires ExchangeReady(xs, ins, outs) && r < |xs|
    ensures var ys := Exchange(xs, ins, outs);
      Pieces(ys[r], outs[r]) == seq(|xs|, k requires 0 <= k < |xs| => Pieces(xs[k], ins[k])[r])
  {
    var col := seq(|xs|, k requires 0 <= k < |xs| => Pieces(xs[k], ins[k])[r]);
    PiecesFlatten(col, outs[r]);
  }

  /** Exchanging back with the two split lists swapped restores every rank's
      input. */
  lemma ExchangeRoundTrip<T>(xs: seq<seq<T>>, ins: seq<seq<nat>>, outs: seq<seq<nat>>)
    requires ExchangeReady(xs, ins, outs)
    ensures ExchangeReady(Exchange(xs, ins, outs), outs, ins)
    ensures Exchange(Exchange(xs, ins, outs), outs, ins) == xs
  {
    var ys := Exchange(xs, ins, outs);
    assert ExchangeReady(ys, outs, ins);
    var back := Exchange(ys, outs, ins);
    forall k | 0 <= k < |xs| ensures back[k] == xs[k] {
      var col := seq(|ys| , r requires 0 <= r < |ys| => Pieces(ys[r], outs[r])[k]);
      forall r | 0 <= r < |ys| ensures col[r] == Pieces(xs[k], ins[k])[r] {
        ExchangeBlocks(xs, ins, outs, r);
      }
      assert col == Pieces(xs[k], ins[k]);
      FlattenPieces(xs[k], ins[k]);
    }
  }

  /** `dist.all_to_all_single(output, input, output_split_sizes,
      input_split_sizes)` over a whole group: `outRows[k]` is dim 0 of rank k's
      output buffer. Both lists are checked against their buffers; a rank that
      expects a different number of rows than its peer sends makes the call
      fail. */
  function AllToAllSingle<T>(xs: seq<seq<T>>, outRows: seq<nat>,
                             inOpts: seq<Option<seq<nat>>>, outOpts: seq<Option<seq<nat>>>): (r: Result<seq<seq<T>>>)
    requires |xs| >= 1 && |outRows| == |xs| && |inOpts| == |xs| && |outOpts| == |xs|
    ensures r.Ok? ==> |r.value| == |xs| && forall k :: 0 <= k < |xs| ==> |r.value[k]| == outRows[k]
  {
    var size: GroupSize := |xs|;
    var ins :- ResolveAll(inOpts, RowCounts(xs), size);
    var outs :- ResolveAll(outOpts, outRows, size);
    if Consistent(ins, outs) then Ok(Exchange(xs, ins, outs)) else Err(SplitsDisagree)
  }

  function Nones(n: nat): seq<Option<seq<nat>>>
  {
    seq(n, _ => None)
  }

  function RowCounts<T>(xs: seq<seq<T>>): (r: seq<nat>)
    ensures |r| == |xs| && forall k :: 0 <= k < |xs| ==> r[k] == |xs[k]|
  {
    seq(|xs|, k requires 0 <= k < |xs| => |xs[k]|)
  }

  // ===== AllToAll (equal shards) =====

  /** AllToAll.forward: with one rank the input is returned as it is;
      otherwise all_to_all_single into a buffer shaped like the input, with no
      split lists. */
  function AllToAll<T>(g: Group, xs: seq<seq<T>>): (r: Result<seq<seq<T>>>)
    requires |xs| == g.size
    ensures r.Ok? ==> |r.value| == g.size && forall k :: 0 <= k < g.size ==> |r.value[k]| == |xs[k]|
  {
    if g.size == 1 then Ok(xs)
    else AllToAllSingle(xs, RowCounts(xs), Nones(g.size), Nones(g.size))
  }

  /** The chunk transpose: rank w receives chunk w of every rank's input, in
      rank order, each rank's input being cut into |xs| chunks of c rows. */
  function ChunkTranspose<T>(xs: seq<seq<T>>, c: nat): (ys: seq<seq<T>>)
    requires forall k :: 0 <= k < |xs| ==> |xs[k]| == |xs| * c
  {
    seq(|xs|, w requires 0 <= w < |xs| => Flatten(ChunkColumn(xs, c, w)))
  }

  /** Chunk w of every rank's input, in rank order. */
  function ChunkColumn<T>(xs: seq<seq<T>>, c: nat, w: nat): seq<seq<T>>
    requires forall k :: 0 <= k < |xs| ==> |xs[k]| == |xs| * c
    requires w < |xs|
  {
    SumRepeat(c, |xs|);
    seq(|xs|, k requires 0 <= k < |xs| => Pieces(xs[k], Repeat(c, |xs|))[w])
  }

  /** On a group of one rank the transport itself is the identity, so the
      shortcut of AllToAll.forward changes nothing. */
  lemma AllToAllSingleOneRank<T>(x: seq<T>)
    ensures AllToAllSingle([x], [|x|], Nones(1), Nones(1)) == Ok([x])
  {
    assert RowCounts([x]) == [|x|];
    DivExact(1, |x|);
    assert ResolveSplits(None, |x|, 1) == Ok(Repeat(|x|, 1));
    assert Repeat(|x|, 1) == [|x|];
    assert Nones(1) == [None];
    assert Nones(1)[1..] == [];
    assert ResolveSplits(Nones(1)[0], [|x|][0], 1) == Ok([|x|]);
    var r1 := ResolveAll(Nones(1), [|x|], 1);
    assert r1.Ok? && |r1.value| == 1 && r1.value[0] == [|x|];
    assert r1.value == [[|x|]];
    var ins := ResolveAll(Nones(1), RowCounts([x]), 1);
    assert ins.value == [[|x|]];
    assert Consistent(ins.value, ins.value);
    var ys := Exchange([x], ins.value, ins.value);
    assert x[..|x|] == x;
    assert Pieces(x, [|x|]) == [x[..|x|]] + Pieces(x[|x|..], []);
    assert Pieces(x, [|x|]) == [x];
    assert seq(1, k requires 0 <= k < 1 => Pieces([x][k], ins.value[k])[0]) == [x];
    ExchangeBlocks([x], ins.value, ins.value, 0);
    FlattenPieces(ys[0], [|x|]);
    FlattenSingle(x);
    assert ys == [x];
  }

  /** all_to_all_single without split lists, on inputs of a common row
      count divisible by the group size, is the chunk transpose. */
  lemma TransportIsChunkTranspose<T>(xs: seq<seq<T>>, c: nat)
    requires |xs| >= 1 && forall k :: 0 <= k < |xs| ==> |xs[k]| == |xs| * c
    ensures AllToAllSingle(xs, RowCounts(xs), Nones(|xs|), Nones(|xs|)) == Ok(ChunkTranspose(xs, c))
  {
    var size: GroupSize := |xs|;
    SumRepeat(c, size);
    var want := ChunkTranspose(xs, c);
    forall k | 0 <= k < size
      ensures ResolveSplits(Nones(size)[k], RowCounts(xs)[k], size) == Ok(Repeat(c, size))
    {
      DivExact(size, c);
    }
    var ins := ResolveAll(Nones(size), RowCounts(xs), size);
    assert ins.value == seq(size, _ => Repeat(c, size));
    assert Consistent(ins.value, ins.value);
    var ys := Exchange(xs, ins.value, ins.value);
    forall w | 0 <= w < size ensures ys[w] == want[w] {
      assert seq(size, k requires 0 <= k < size => Pieces(xs[k], ins.value[k])[w])
          == ChunkColumn(xs, c, w);
    }
    assert ys == want;
  }

  /** The equal-shard AllToAll on inputs of a common row count divisible by
      the group size is the chunk transpose. */
  lemma AllToAllIsChunkTranspose<T>(g: Group, xs: seq<seq<T>>, c: nat)
    requires |xs| == g.size && forall k :: 0 <= k < g.size ==> |xs[k]| == g.size * c
    ensures AllToAll(g, xs) == Ok(ChunkTranspose(xs, c))
  {
    SumRepeat(c, g.size);
    var want := ChunkTranspose(xs, c);
    if g.size == 1 {
      var x := xs[0];
      assert xs == [x];
      var col := ChunkColumn(xs, c, 0);
      assert Repeat(c, 1) == [c];
      assert x[..c] == x;
      assert Pieces(x, [c]) == [x[..c]] + Pieces(x[c..], []);
      assert Pieces(x, [c]) == [x];
      assert col == [x];
      FlattenSingle(x);
      assert want == [x];
    } else {
      TransportIsChunkTranspose(xs, c);
    }
  }

  // ===== _all_to_all (uneven) =====

  /** Dim 0 of _all_to_all's output buffer: the sum of the output split sizes
      when they are given, else dim 0 of the input. */
  function OutputRows<T>(x: seq<T>, outOpt: Option<seq<nat>>): nat
  {
    if outOpt.Some? then SumNonneg(outOpt.value); Sum(outOpt.value) else |x|
  }

  /** _all_to_all over a whole group. */
  function UnevenAllToAll<T>(xs: seq<seq<T>>, inOpts: seq<Option<seq<nat>>>, outOpts: seq<Option<seq<nat>>>): (r: Result<seq<seq<T>>>)
    requires |xs| >= 1 && |inOpts| == |xs| && |outOpts| == |xs|
    ensures r.Ok? ==> (|r.value| == |xs| &&
      forall k :: 0 <= k < |xs| ==> |r.value[k]| == if outOpts[k].Some? then Sum(outOpts[k].value) else |xs[k]|)
  {
    AllToAllSingle(xs, seq(|xs|, k requires 0 <= k < |xs| => OutputRows(xs[k], outOpts[k])), inOpts, outOpts)
  }

  /** Once both sides' split lists resolve, all_to_all_single succeeds
      exactly when the resolved lists agree across ranks, and then it is the
      exchange of those pieces. */
  lemma AllToAllSingleResolved<T>(xs: seq<seq<T>>, outRows: seq<nat>,
                                  inOpts: seq<Option<seq<nat>>>, outOpts: seq<Option<seq<nat>>>,
                                  ins: seq<seq<nat>>, outs: seq<seq<nat>>)
    requires |xs| >= 1 && |outRows| == |xs| && |inOpts| == |xs| && |outOpts| == |xs|
    requires ResolveAll(inOpts, RowCounts(xs), |xs|) == Ok(ins)
    requires ResolveAll(outOpts, outRows, |xs|) == Ok(outs)
    ensures var r := AllToAllSingle(xs, outRows, inOpts, outOpts);
      (r.Ok? <==> ExchangeReady(xs, ins, outs)) &&
      (r.Ok? ==> r.value == Exchange(xs, ins, outs))
  {
    forall k | 0 <= k < |xs| ensures Sum(ins[k]) == |xs[k]| {
      assert ins[k] == ResolveSplits(inOpts[k], RowCounts(xs)[k], |xs|).value;
    }
  }

  /** With a non-empty split list given on every rank for both sides,
      _all_to_all succeeds exactly when the lists add up to the input rows
      and every rank expects from each peer what that peer sends it; rank r
      then receives piece r of every rank's input, in rank order. */
  lemma UnevenGivenLists<T>(xs: seq<seq<T>>, ins: seq<seq<nat>>, outs: seq<seq<nat>>)
    requires |xs| >= 1 && |ins| == |xs| && |outs| == |xs|
    requires forall k :: 0 <= k < |xs| ==> ins[k] != [] && outs[k] != []
    ensures var r := UnevenAllToAll(xs, seq(|xs|, k requires 0 <= k < |xs| => Some(ins[k])),
                                        seq(|xs|, k requires 0 <= k < |xs| => Some(outs[k])));
      (r.Ok? <==> ExchangeReady(xs, ins, outs)) &&
      (r.Ok? ==> r.value == Exchange(xs, ins, outs))
  {
    var size: GroupSize := |xs|;
    var inOpts := seq(|xs|, k requires 0 <= k < |xs| => Some(ins[k]));
    var outOpts := seq(|xs|, k requires 0 <= k < |xs| => Some(outs[k]));
    var outRows := seq(|xs|, k requires 0 <= k < |xs| => OutputRows(xs[k], outOpts[k]));
    var ri := ResolveAll(inOpts, RowCounts(xs), size);
    var ro := ResolveAll(outOpts, outRows, size);
    if ri.Ok? && ro.Ok? {
      assert ri.value == ins;
      assert ro.value == outs;
    }
    if ExchangeReady(xs, ins, outs) {
      assert ri.Ok?;
      assert ro.Ok?;
    }
  }

  /** The backward call sizes its output buffer with the forward's input split
      list; this gives back the forward input's row count when that list is a
      non-empty list, or when it is omitted and the forward kept the row count. */
  predicate BackwardRowsMatch<T>(xs: seq<seq<T>>, inOpts: seq<Option<seq<nat>>>, outOpts: seq<Option<seq<nat>>>)
    requires |inOpts| == |xs| && |outOpts| == |xs|
  {
    forall k :: 0 <= k < |xs| ==>
      (inOpts[k].Some? && inOpts[k].value != []) ||
      (inOpts[k].None? && OutputRows(xs[k], outOpts[k]) == |xs[k]|)
  }

  /** AllToAllUneven's backward, the same call with the two split lists
      swapped, reconstructs every rank's original input. */
  lemma UnevenRoundTrip<T>(xs: seq<seq<T>>, inOpts: seq<Option<seq<nat>>>, outOpts: seq<Option<seq<nat>>>)
    requires |xs| >= 1 && |inOpts| == |xs| && |outOpts| == |xs|
    requires UnevenAllToAll(xs, inOpts, outOpts).Ok?
    requires BackwardRowsMatch(xs, inOpts, outOpts)
    ensures UnevenAllToAll(UnevenAllToAll(xs, inOpts, outOpts).value, outOpts, inOpts) == Ok(xs)
  {
    var size: GroupSize := |xs|;
    var rows := RowCounts(xs);
    var outRows := seq(size, k requires 0 <= k < size => OutputRows(xs[k], outOpts[k]));
    var ins := ResolveAll(inOpts, rows, size).value;
    var outs := ResolveAll(outOpts, outRows, size).value;
    var ys := Exchange(xs, ins, outs);
    assert UnevenAllToAll(xs, inOpts, outOpts) == Ok(ys);
    // the backward resolves the same lists against the same row counts
    assert seq(size, k requires 0 <= k < size => |ys[k]|) == outRows;
    var backRows := seq(size, k requires 0 <= k < size => OutputRows(ys[k], inOpts[k]));
    forall k | 0 <= k < size ensures backRows[k] == rows[k] {
      if inOpts[k].Some? && inOpts[k].value != [] {
        assert ResolveSplits(inOpts[k], rows[k], size).Ok?;
      }
    }
    assert backRows == rows;
    ExchangeRoundTrip(xs, ins, outs);
  }

  /** The hypothesis on the input split list cannot be dropped: with an empty
      list the forward splits evenly, but the backward sizes its buffer with
      sum([]) = 0 rows and the exchange no longer fits. */
  lemma UnevenEmptyInputSplitsBreakRoundTrip<T>(a: T)
    ensures UnevenAllToAll([[a]], [Some([])], Nones(1)) == Ok([[a]])
    ensures UnevenAllToAll([[a]], Nones(1), [Some([])]).Err?
  {
    var xs := [[a]];
    assert seq(1, k requires 0 <= k < 1 => OutputRows(xs[k], Nones(1)[k])) == [1];
    assert RowCounts(xs) == [1];
    assert ResolveSplits(Some([]), 1, 1) == Ok(Repeat(1, 1));
    assert Repeat(1, 1) == [1];
    var ins := ResolveAll([Some([])], [1], 1).value;
    assert ins == [[1]];
    assert Consistent(ins, ins);
    ExchangeRoundTrip(xs, ins, ins);
    var ys := Exchange(xs, ins, ins);
    assert |ys[0]| == 1;
    ExchangeBlocks(xs, ins, ins, 0);
    FlattenPieces(ys[0], [1]);
    FlattenPieces(xs[0], [1]);
    assert ys == xs;
    // backward: output buffer of sum([]) = 0 rows
    assert seq(1, k requires 0 <= k < 1 => OutputRows(xs[k], [Some([])][k])) == [0];
    assert ResolveSplits(Some([]), 0, 1) == Ok(Repeat(0, 1));
    assert Repeat(0, 1) == [0];
    var outs' := ResolveAll([Some([])], [0], 1).value;
    assert outs' == [[0]];
    assert !Consistent(ins, outs');
  }

  /** The equal-shard AllToAll is an involution: applied to its own output it
      restores the original global state, so its backward can reuse forward. */
  lemma AllToAllInvolution<T>(g: Group, xs: seq<seq<T>>)
    requires |xs| == g.size && AllToAll(g, xs).Ok?
    ensures AllToAll(g, AllToAll(g, xs).value) == Ok(xs)
  {
    if g.size > 1 {
      var ys := AllToAll(g, xs).value;
      assert seq(|xs|, k requires 0 <= k < |xs| => OutputRows(xs[k], Nones(g.size)[k])) == RowCounts(xs);
      assert UnevenAllToAll(xs, Nones(g.size), Nones(g.size)) == AllToAll(g, xs);
      assert seq(|ys|, k requires 0 <= k < |ys| => OutputRows(ys[k], Nones(g.size)[k])) == RowCounts(ys);
      assert UnevenAllToAll(ys, Nones(g.size), Nones(g.size)) == AllToAll(g, ys);
      UnevenRoundTrip(xs, Nones(g.size), Nones(g.size));
    }
  }
}
