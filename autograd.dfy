/** The autograd functions of the MoE operations: each forward records in its
    context what its backward needs, and each backward replays a collective on
    the gradient. A context starts with no attributes; an attribute a forward
    has not written is absent (`None`), and a backward reads only attributes
    its forward writes. A forward called without a context (`null`), as every
    backward does, writes nothing. */
module Autograd {
  import opened Base
  import opened Rows
  import opened Collectives
  import opened Hierarchical
  import opened TokenShards
  import opened GradScalers

  /** The attributes the forwards of this module set on `ctx`. */
  class Ctx {
    var commGrp: Option<Group>                     // AllGather, ReduceScatter, AllToAll
    var commGrps: Option<(Group, Option<Group>)>   // HierarchicalAllToAll: intra- and inter-node groups
    var srcRank: Option<seq<int>>                  // HierarchicalAllToAll: each node's source rank
    var inputSplitSizes: Option<seq<Option<seq<nat>>>>   // AllToAllUneven, one entry per rank
    var outputSplitSizes: Option<seq<Option<seq<nat>>>>
    var group: Option<Group>                       // AllToAllUneven
    var dim: Option<int>                           // _GatherTokens, _DropTokens
    var tpGroup: Option<Group>
    var epSize: Option<GroupSize>                  // EPGradScalerIn/Out
    var moeDpSize: Option<GroupSize>               // DPGradScalerIn/Out
    var activatedExperts: Option<nat>

    constructor()
      ensures commGrp == None && commGrps == None && srcRank == None
      ensures inputSplitSizes == None && outputSplitSizes == None && group == None
      ensures dim == None && tpGroup == None
      ensures epSize == None && moeDpSize == None && activatedExperts == None
    {
      commGrp := None;
      commGrps := None;
      srcRank := None;
      inputSplitSizes := None;
      outputSplitSizes := None;
      group := None;
      dim := None;
      tpGroup := None;
      epSize := None;
      moeDpSize := None;
      activatedExperts := None;
    }
  }

  // ===== AllGather / ReduceScatter =====

  method AllGatherForward<T>(ctx: Ctx?, g: Group, xs: seq<seq<T>>) returns (out: seq<seq<seq<T>>>)
    requires |xs| == g.size && SameRows(xs)
    modifies {ctx}`commGrp
    ensures ctx != null ==> ctx.commGrp == Some(g)
    ensures out == AllGather(g, xs)
  {
    if ctx != null {
      ctx.commGrp := Some(g);
    }
    out := AllGather(g, xs);
  }

  /** AllGather.backward: ReduceScatter.forward on the gradient, without a
      context. */
  method AllGatherBackward(ctx: Ctx, grads: seq<seq<seq<int>>>) returns (r: Result<seq<seq<int>>>)
    requires ctx.commGrp.Some? && |grads| == ctx.commGrp.value.size && SameRows(grads) && Rectangular(grads)
    ensures r == ReduceScatter(ctx.commGrp.value, grads)
  {
    r := ReduceScatterForward(null, ctx.commGrp.value, grads);
  }

  method ReduceScatterForward(ctx: Ctx?, g: Group, ys: seq<seq<seq<int>>>) returns (r: Result<seq<seq<int>>>)
    requires |ys| == g.size && SameRows(ys) && Rectangular(ys)
    modifies {ctx}`commGrp
    ensures ctx != null ==> ctx.commGrp == Some(g)
    ensures r == ReduceScatter(g, ys)
  {
    if ctx != null {
      ctx.commGrp := Some(g);
    }
    r := ReduceScatter(g, ys);
  }

  /** ReduceScatter.backward: AllGather.forward on the gradient. */
  method ReduceScatterBackward(ctx: Ctx, grads: seq<seq<int>>) returns (out: seq<seq<seq<int>>>)
    requires ctx.commGrp.Some? && |grads| == ctx.commGrp.value.size && SameRows(grads)
    ensures out == AllGather(ctx.commGrp.value, grads)
  {
    out := AllGatherForward(null, ctx.commGrp.value, grads);
  }

  // ===== AllToAll =====

  method AllToAllForward<T>(ctx: Ctx?, g: Group, xs: seq<seq<T>>) returns (r: Result<seq<seq<T>>>)
    requires |xs| == g.size
    modifies {ctx}`commGrp
    ensures ctx != null ==> ctx.commGrp == Some(g)
    ensures r == AllToAll(g, xs)
  {
    if ctx != null {
      ctx.commGrp := Some(g);
    }
    r := AllToAll(g, xs);
  }

  /** AllToAll.backward: the forward again, on the gradient. */
  method AllToAllBackward<T>(ctx: Ctx, grads: seq<seq<T>>) returns (r: Result<seq<seq<T>>>)
    requires ctx.commGrp.Some? && |grads| == ctx.commGrp.value.size
    ensures r == AllToAll(ctx.commGrp.value, grads)
  {
    r := AllToAllForward(null, ctx.commGrp.value, grads);
  }

  /** Forward, then backward on what came out, gives every rank its input
      back. */
  method AllToAllRoundTrip<T>(g: Group, xs: seq<seq<T>>) returns (fwd: Result<seq<seq<T>>>, bwd: Result<seq<seq<T>>>)
    requires |xs| == g.size
    ensures fwd == AllToAll(g, xs)
    ensures fwd.Ok? ==> bwd == Ok(xs)
  {
    var ctx := new Ctx();
    fwd := AllToAllForward(ctx, g, xs);
    bwd := fwd;
    if fwd.Ok? {
      bwd := AllToAllBackward(ctx, fwd.value);
      AllToAllInvolution(g, xs);
    }
  }

  // ===== HierarchicalAllToAll =====

  method HierarchicalForward<T>(ctx: Ctx?, intra: Group, inter: Option<Group>, leaders: seq<int>,
                                nodes: seq<seq<seq<T>>>) returns (r: Result<seq<seq<seq<T>>>>)
    requires |nodes| == NumGroup(inter) && |leaders| == NumGroup(inter)
    requires forall q :: 0 <= q < |nodes| ==> |nodes[q]| == intra.size
    modifies {ctx}`commGrps, {ctx}`srcRank
    ensures ctx != null ==> ctx.commGrps == Some((intra, inter)) && ctx.srcRank == Some(leaders)
    ensures r == HierarchicalAllToAll(intra, inter, leaders, nodes)
  {
    if ctx != null {
      ctx.commGrps := Some((intra, inter));
      ctx.srcRank := Some(leaders);
    }
    r := HierarchicalAllToAll(intra, inter, leaders, nodes);
  }

  /** HierarchicalAllToAll.backward: the forward again, with the recorded
      groups and source ranks. */
  method HierarchicalBackward<T>(ctx: Ctx, grads: seq<seq<seq<T>>>) returns (r: Result<seq<seq<seq<T>>>>)
    requires ctx.commGrps.Some? && ctx.srcRank.Some?
    requires var (intra, inter) := ctx.commGrps.value;
      |grads| == NumGroup(inter) && |ctx.srcRank.value| == NumGroup(inter) &&
      forall q :: 0 <= q < |grads| ==> |grads[q]| == intra.size
    ensures r == HierarchicalAllToAll(ctx.commGrps.value.0, ctx.commGrps.value.1, ctx.srcRank.value, grads)
  {
    var (intra, inter) := ctx.commGrps.value;
    r := HierarchicalForward(null, intra, inter, ctx.srcRank.value, grads);
  }

  /** On even inputs forward and backward round-trip. */
  method HierarchicalRoundTrip<T>(intra: Group, inter: Option<Group>, leaders: seq<int>,
                                  nodes: seq<seq<seq<T>>>, c: nat) returns (fwd: Result<seq<seq<seq<T>>>>, bwd: Result<seq<seq<seq<T>>>>)
    requires |leaders| == NumGroup(inter) && forall q :: 0 <= q < |leaders| ==> 0 <= leaders[q] < intra.size
    requires Even(nodes, intra.size, NumGroup(inter), NumGroup(inter) * intra.size * c)
    ensures fwd == HierarchicalAllToAll(intra, inter, leaders, nodes)
    ensures fwd.Ok? && bwd == Ok(nodes)
  {
    var ctx := new Ctx();
    fwd := HierarchicalForward(ctx, intra, inter, leaders, nodes);
    HierarchicalInvolution(intra, inter, leaders, nodes, c);
    bwd := HierarchicalBackward(ctx, fwd.value);
  }

  // ===== AllToAllUneven =====

  method UnevenForward<T>(ctx: Ctx?, g: Group, xs: seq<seq<T>>,
                          inOpts: seq<Option<seq<nat>>>, outOpts: seq<Option<seq<nat>>>) returns (r: Result<seq<seq<T>>>)
    requires |xs| == g.size && |inOpts| == g.size && |outOpts| == g.size
    modifies {ctx}`inputSplitSizes, {ctx}`outputSplitSizes, {ctx}`group
    ensures ctx != null ==>
      ctx.inputSplitSizes == Some(inOpts) && ctx.outputSplitSizes == Some(outOpts) && ctx.group == Some(g)
    ensures r == UnevenAllToAll(xs, inOpts, outOpts)
  {
    if ctx != null {
      ctx.inputSplitSizes := Some(inOpts);
      ctx.outputSplitSizes := Some(outOpts);
      ctx.group := Some(g);
    }
    r := UnevenAllToAll(xs, inOpts, outOpts);
  }

  /** AllToAllUneven.backward: `_all_to_all` on the gradient with the two
      split lists swapped. */
  method UnevenBackward<T>(ctx: Ctx, grads: seq<seq<T>>) returns (r: Result<seq<seq<T>>>)
    requires ctx.group.Some? && ctx.inputSplitSizes.Some? && ctx.outputSplitSizes.Some?
    requires |grads| == ctx.group.value.size
    requires |ctx.inputSplitSizes.value| == |grads| && |ctx.outputSplitSizes.value| == |grads|
    ensures r == UnevenAllToAll(grads, ctx.outputSplitSizes.value, ctx.inputSplitSizes.value)
  {
    r := UnevenAllToAll(grads, ctx.outputSplitSizes.value, ctx.inputSplitSizes.value);
  }

  /** `all_to_all_uneven`: the input must require a gradient; the call goes
      through AllToAllUneven with a fresh context. */
  method AllToAllUnevenWrapper<T>(g: Group, requiresGrad: bool, xs: seq<seq<T>>,
                                  inOpts: seq<Option<seq<nat>>>, outOpts: seq<Option<seq<nat>>>) returns (r: Result<seq<seq<T>>>)
    requires |xs| == g.size && |inOpts| == g.size && |outOpts| == g.size
    ensures !requiresGrad ==> r == Err(GradNotRequired)
    ensures requiresGrad ==> r == UnevenAllToAll(xs, inOpts, outOpts)
  {
    if !requiresGrad {
      return Err(GradNotRequired);
    }
    var ctx := new Ctx();
    r := UnevenForward(ctx, g, xs, inOpts, outOpts);
  }

  /** When the forward succeeds and each rank either names its input split
      sizes or receives as many rows as it sends, the backward restores every
      rank's input. */
  method UnevenRoundTripViaCtx<T>(g: Group, xs: seq<seq<T>>,
                                  inOpts: seq<Option<seq<nat>>>, outOpts: seq<Option<seq<nat>>>)
      returns (fwd: Result<seq<seq<T>>>, bwd: Result<seq<seq<T>>>)
    requires |xs| == g.size && |inOpts| == g.size && |outOpts| == g.size
    requires BackwardRowsMatch(xs, inOpts, outOpts)
    ensures fwd == UnevenAllToAll(xs, inOpts, outOpts)
    ensures fwd.Ok? ==> bwd == Ok(xs)
  {
    var ctx := new Ctx();
    fwd := UnevenForward(ctx, g, xs, inOpts, outOpts);
    bwd := fwd;
    if fwd.Ok? {
      bwd := UnevenBackward(ctx, fwd.value);
      UnevenRoundTrip(xs, inOpts, outOpts);
    }
  }

  // ===== _GatherTokens / _DropTokens =====

  method GatherTokensForward<T>(ctx: Ctx, dim: int, tpGroup: Group, xs: seq<seq<T>>) returns (out: seq<seq<T>>)
    requires |xs| == tpGroup.size && SameRows(xs)
    modifies ctx`dim, ctx`tpGroup
    ensures ctx.dim == Some(dim) && ctx.tpGroup == Some(tpGroup)
    ensures out == GatherTokens(tpGroup, xs)
  {
    ctx.dim := Some(dim);
    ctx.tpGroup := Some(tpGroup);
    out := GatherTokens(tpGroup, xs);
  }

  /** _GatherTokens.backward: `_drop_tokens` of the gradient. */
  method GatherTokensBackward<T>(ctx: Ctx, grads: seq<seq<T>>) returns (r: Result<seq<seq<T>>>)
    requires ctx.tpGroup.Some? && |grads| == ctx.tpGroup.value.size
    ensures r == DropAll(ctx.tpGroup.value, grads)
  {
    r := DropAll(ctx.tpGroup.value, grads);
  }

  method DropTokensForward<T>(ctx: Ctx, dim: int, tpGroup: Group, xs: seq<seq<T>>) returns (r: Result<seq<seq<T>>>)
    requires |xs| == tpGroup.size
    modifies ctx`dim, ctx`tpGroup
    ensures ctx.dim == Some(dim) && ctx.tpGroup == Some(tpGroup)
    ensures r == DropAll(tpGroup, xs)
  {
    ctx.dim := Some(dim);
    ctx.tpGroup := Some(tpGroup);
    r := DropAll(tpGroup, xs);
  }

  /** _DropTokens.backward: `_gather_tokens` of the gradient. */
  method DropTokensBackward<T>(ctx: Ctx, grads: seq<seq<T>>) returns (out: seq<seq<T>>)
    requires ctx.tpGroup.Some? && |grads| == ctx.tpGroup.value.size && SameRows(grads)
    ensures out == GatherTokens(ctx.tpGroup.value, grads)
  {
    out := GatherTokens(ctx.tpGroup.value, grads);
  }

  /** The gradient of a gathered tensor, dropped by the backward, is what
      each rank contributed. */
  method GatherTokensRoundTrip<T>(tpGroup: Group, xs: seq<seq<T>>) returns (out: seq<seq<T>>, back: Result<seq<seq<T>>>)
    requires |xs| == tpGroup.size && SameRows(xs)
    ensures |out| == tpGroup.size && forall r :: 0 <= r < tpGroup.size ==> out[r] == Flatten(xs)
    ensures back == Ok(xs)
  {
    var ctx := new Ctx();
    out := GatherTokensForward(ctx, 0, tpGroup, xs);
    back := GatherTokensBackward(ctx, out);
    DropAfterGather(tpGroup, xs);
  }

  // ===== Gradient scalers =====

  /** EPGradScalerIn.forward and EPGradScalerOut.forward. */
  method EpScalerForward(ctx: Ctx, inputs: seq<real>, epSize: GroupSize) returns (out: seq<real>)
    modifies ctx`epSize
    ensures ctx.epSize == Some(epSize) && out == inputs
  {
    ctx.epSize := Some(epSize);
    out := inputs;
  }

  method EpScalerInBackward(ctx: Ctx, grad: seq<real>) returns (out: seq<real>)
    requires ctx.epSize.Some?
    ensures |out| == |grad| && forall i :: 0 <= i < |grad| ==> out[i] == grad[i] * ctx.epSize.value as real
  {
    out := EpScaleIn(grad, ctx.epSize.value);
  }

  method EpScalerOutBackward(ctx: Ctx, grad: seq<real>) returns (out: seq<real>)
    requires ctx.epSize.Some?
    ensures |out| == |grad| && forall i :: 0 <= i < |grad| ==> out[i] * ctx.epSize.value as real == grad[i]
  {
    out := EpScaleOut(grad, ctx.epSize.value);
  }

  /** DPGradScalerIn.forward and DPGradScalerOut.forward: refused when no
      expert is activated, before anything is recorded. */
  method DpScalerForward(ctx: Ctx, inputs: seq<real>, moeDpSize: GroupSize, activatedExperts: nat)
      returns (r: Result<seq<real>>)
    modifies ctx`moeDpSize, ctx`activatedExperts
    ensures activatedExperts == 0 ==> (r == Err(NoActivatedExperts) &&
      ctx.moeDpSize == old(ctx.moeDpSize) && ctx.activatedExperts == old(ctx.activatedExperts))
    ensures activatedExperts != 0 ==> (r == Ok(inputs) &&
      ctx.moeDpSize == Some(moeDpSize) && ctx.activatedExperts == Some(activatedExperts))
  {
    if activatedExperts == 0 {
      return Err(NoActivatedExperts);
    }
    ctx.moeDpSize := Some(moeDpSize);
    ctx.activatedExperts := Some(activatedExperts);
    r := Ok(inputs);
  }

  /** DPGradScalerIn.backward: the gradient buffer is scaled in place and
      returned. */
  method DpScalerInBackward(ctx: Ctx, grad: array<real>)
    requires ctx.moeDpSize.Some? && ctx.activatedExperts.Some?
    modifies grad
    ensures grad[..] == DpScaleIn(old(grad[..]), ctx.moeDpSize.value, ctx.activatedExperts.value)
  {
    DpBackwardIn(grad, ctx.moeDpSize.value, ctx.activatedExperts.value);
  }

  /** DPGradScalerOut.backward; the forward's check keeps the divisor
      non-zero. */
  method DpScalerOutBackward(ctx: Ctx, grad: array<real>)
    requires ctx.moeDpSize.Some? && ctx.activatedExperts.Some? && ctx.activatedExperts.value != 0
    modifies grad
    ensures grad[..] == DpScaleOut(old(grad[..]), ctx.moeDpSize.value, ctx.activatedExperts.value)
  {
    DpBackwardOut(grad, ctx.moeDpSize.value, ctx.activatedExperts.value);
  }

  /** The forwards of DPGradScalerIn and then DPGradScalerOut pass the
      activations through unchanged; a gradient that passes back through
      DPGradScalerOut and then DPGradScalerIn with the same sizes leaves its
      buffer as it was. */
  method DpScalersRoundTrip(inputs: seq<real>, grad: array<real>, moeDpSize: GroupSize, activatedExperts: nat)
      returns (r: Result<seq<real>>)
    modifies grad
    ensures activatedExperts == 0 ==> r == Err(NoActivatedExperts) && grad[..] == old(grad[..])
    ensures activatedExperts != 0 ==> r == Ok(inputs) && grad[..] == old(grad[..])
  {
    var ctxIn := new Ctx();
    var ctxOut := new Ctx();
    r := DpScalerForward(ctxIn, inputs, moeDpSize, activatedExperts);
    if r.Err? {
      return;
    }
    r := DpScalerForward(ctxOut, r.value, moeDpSize, activatedExperts);
    ghost var g0 := grad[..];
    DpScalerOutBackward(ctxOut, grad);
    DpScalerInBackward(ctxIn, grad);
    DpScalersInverse(g0, moeDpSize, activatedExperts);
  }
}
