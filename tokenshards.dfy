/** Tensor-parallel sharding of tokens (`_gather_tokens`, `_drop_tokens` and
    their wrappers) along the sharded dimension, over the global state of a
    tensor-parallel group: entry r is rank r's tensor. */
module TokenShards {
  import opened Base
  import opened Rows
  import opened Collectives

  /** `_gather_tokens`: an all-gather into buffers shaped like the input,
      then `torch.cat` of the gathered list; every rank receives all ranks'
      rows in rank order. */
  function GatherTokens<T>(g: Group, xs: seq<seq<T>>): (out: seq<seq<T>>)
    requires |xs| == g.size && SameRows(xs)
    ensures |out| == g.size
    ensures forall r :: 0 <= r < g.size ==> out[r] == Flatten(xs) && |out[r]| == g.size * |xs[r]|
  {
    var gathered := AllGather(g, xs);
    FlattenLength(xs, |xs[0]|);
    seq(g.size, r requires 0 <= r < g.size => Flatten(gathered[r]))
  }

  /** `_drop_tokens` on rank `rank`: the row count must be divisible by the
      group size, and the rank keeps its own equal slice. */
  function DropTokens<T>(g: Group, rank: nat, x: seq<T>): (r: Result<seq<T>>)
    requires rank < g.size
    ensures r.Ok? <==> |x| % g.size == 0
    ensures r.Ok? ==> (|r.value| == |x| / g.size && g.size * |r.value| == |x| &&
      Sum(Repeat(|r.value|, g.size)) == |x| && r.value == Pieces(x, Repeat(|r.value|, g.size))[rank])
  {
    if |x| % g.size != 0 then Err(NotDivisible)
    else
      var chunkSize := |x| / g.size;
      DivMod(|x|, g.size);
      assert g.size * chunkSize == |x|;
      SumRepeat(chunkSize, g.size);
      MulLe(rank + 1, g.size, chunkSize);
      MulPred(rank + 1, chunkSize);
      assert rank * chunkSize + chunkSize <= |x|;
      var y := Narrow(x, rank * chunkSize, chunkSize);
      forall i | 0 <= i < chunkSize ensures Pieces(x, Repeat(chunkSize, g.size))[rank][i] == y[i] {
        PiecesRepeatIndex(x, chunkSize, g.size, rank, i);
      }
      Ok(y)
  }

  /** The slice a rank keeps is the rank's chunk in `torch.chunk`'s sense. */
  lemma DropIsChunk<T>(g: Group, rank: nat, x: seq<T>)
    requires rank < g.size && |x| % g.size == 0
    ensures |TorchChunk(x, g.size)| == g.size
    ensures DropTokens(g, rank, x) == Ok(TorchChunk(x, g.size)[rank])
  {
    var y := DropTokens(g, rank, x).value;
    TorchChunkEven(x, g.size, |y|);
  }

  /** `_drop_tokens` on every rank: fails when some rank's row count is not
      divisible by the group size. */
  function DropAll<T>(g: Group, xs: seq<seq<T>>): (r: Result<seq<seq<T>>>)
    requires |xs| == g.size
    ensures r.Ok? <==> forall k :: 0 <= k < g.size ==> |xs[k]| % g.size == 0
    ensures r.Ok? ==> (|r.value| == g.size &&
      forall k :: 0 <= k < g.size ==> DropTokens(g, k, xs[k]) == Ok(r.value[k]))
  {
    if exists k :: 0 <= k < g.size && |xs[k]| % g.size != 0 then Err(NotDivisible)
    else Ok(seq(g.size, k requires 0 <= k < g.size => DropTokens(g, k, xs[k]).value))
  }

  /** Dropping from the gathered tensor gives every rank its own input back:
      this is why the backward of `_GatherTokens` is `_drop_tokens`. */
  lemma DropAfterGather<T>(g: Group, xs: seq<seq<T>>)
    requires |xs| == g.size && SameRows(xs)
    ensures DropAll(g, GatherTokens(g, xs)) == Ok(xs)
  {
    var n := |xs[0]|;
    var flat := Flatten(xs);
    var gathered := GatherTokens(g, xs);
    assert AllLength(xs, n);
    PiecesFlatten(xs, Repeat(n, g.size));
    DivExact(g.size, n);
    assert |flat| == g.size * n;
    assert forall k :: 0 <= k < g.size ==> gathered[k] == flat;
    var r := DropAll(g, gathered);
    assert r.Ok?;
    forall k | 0 <= k < g.size ensures r.value[k] == xs[k] {
      var y := r.value[k];
      assert DropTokens(g, k, flat) == Ok(y);
      assert |y| == n;
    }
    assert r.value == xs;
  }

  /** Gathering the slices of a tensor every rank holds rebuilds it on every
      rank: the backward of `_DropTokens` is `_gather_tokens`. */
  lemma GatherAfterDrop<T>(g: Group, x: seq<T>, xs: seq<seq<T>>)
    requires |xs| == g.size && |x| % g.size == 0
    requires forall k :: 0 <= k < g.size ==> xs[k] == x
    ensures DropAll(g, xs).Ok?
    ensures var parts := DropAll(g, xs).value;
      SameRows(parts) && GatherTokens(g, parts) == xs
  {
    var parts := DropAll(g, xs).value;
    var c := |x| / g.size;
    DivUnique(|x|, g.size, c, 0);
    SumRepeat(c, g.size);
    var want := Pieces(x, Repeat(c, g.size));
    forall k | 0 <= k < g.size ensures parts[k] == want[k] {
      var y := DropTokens(g, k, x).value;
      assert g.size * |y| == g.size * c;
      assert |y| == c;
    }
    assert parts == want;
    FlattenPieces(x, Repeat(c, g.size));
  }

  // ===== The public wrappers =====

  /** `drop_tokens`: the identity on a group of one rank; otherwise the input
      must require a gradient, and `_DropTokens` applies. */
  function DropTokensWrapper<T>(g: Group, requiresGrad: bool, xs: seq<seq<T>>): (r: Result<seq<seq<T>>>)
    requires |xs| == g.size
    ensures g.size == 1 ==> r == Ok(xs)
    ensures g.size > 1 && !requiresGrad ==> r == Err(GradNotRequired)
    ensures g.size > 1 && requiresGrad ==> r == DropAll(g, xs)
  {
    if g.size == 1 then Ok(xs)
    else if !requiresGrad then Err(GradNotRequired)
    else DropAll(g, xs)
  }

  /** `gather_tokens` as written: beyond one rank it applies `_GatherTokens`
      with the input and the dimension but not the group, which `forward`
      needs, so the call fails for want of an argument. */
  function GatherTokensAsWritten<T>(g: Group, requiresGrad: bool, xs: seq<seq<T>>): (r: Result<seq<seq<T>>>)
    requires |xs| == g.size
    ensures r.Ok? <==> g.size == 1
  {
    if g.size == 1 then Ok(xs)
    else if !requiresGrad then Err(GradNotRequired)
    else Err(MissingArgument)
  }

  /** `gather_tokens` as evidently intended: `_GatherTokens` applied with the
      group as well. */
  function GatherTokensWrapper<T>(g: Group, requiresGrad: bool, xs: seq<seq<T>>): (r: Result<seq<seq<T>>>)
    requires |xs| == g.size && SameRows(xs)
    ensures r.Ok? <==> g.size == 1 || requiresGrad
    ensures r.Ok? ==> |r.value| == g.size && forall k :: 0 <= k < g.size ==> r.value[k] == Flatten(xs)
  {
    if g.size == 1 then
      FlattenSingle(xs[0]);
      assert xs == [xs[0]];
      Ok(xs)
    else if !requiresGrad then Err(GradNotRequired)
    else Ok(GatherTokens(g, xs))
  }

  /** Wherever the intended wrapper succeeds and the group has several ranks,
      the wrapper as written fails where it should have gathered. */
  lemma GatherTokensAsWrittenFails<T>(g: Group, xs: seq<seq<T>>)
    requires |xs| == g.size && SameRows(xs) && g.size > 1
    ensures GatherTokensAsWritten(g, true, xs) == Err(MissingArgument)
    ensures GatherTokensWrapper(g, true, xs) == Ok(GatherTokens(g, xs))
  {
  }

  /** The intended public pair round-trips for every group size: the
      shortcut on one rank and the shard/unshard pair agree. */
  lemma WrapperRoundTrip<T>(g: Group, xs: seq<seq<T>>)
    requires |xs| == g.size && SameRows(xs)
    ensures GatherTokensWrapper(g, true, xs).Ok?
    ensures DropTokensWrapper(g, true, GatherTokensWrapper(g, true, xs).value) == Ok(xs)
  {
    if g.size > 1 {
      DropAfterGather(g, xs);
    }
  }

  /** On one rank, gathering and dropping are the identity, so the
      wrappers' shortcut changes nothing. */
  lemma ShortcutsSound<T>(xs: seq<seq<T>>)
    requires |xs| == 1
    ensures GatherTokens(Group(1), xs) == xs
    ensures DropAll(Group(1), xs) == Ok(xs)
  {
    var x := xs[0];
    assert xs == [x];
    FlattenSingle(x);
    var r := DropAll(Group(1), xs);
    var y := r.value[0];
    assert DropTokens(Group(1), 0, x) == Ok(y);
    assert |y| == |x|;
    assert Repeat(|x|, 1) == [|x|];
    assert x[..|x|] == x;
    assert Pieces(x, [|x|]) == [x[..|x|]] + Pieces(x[|x|..], []);
    assert r.value == [y];
  }
}
