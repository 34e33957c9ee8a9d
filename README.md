# MoE communication operations, modelled in Dafny

This project models the communication and gradient-scaling layer of the
Mixture-of-Experts stage of ColossalAI (`colossalai/moe/_operation.py`).
It covers:

- the autograd functions `AllGather`, `ReduceScatter`, `AllToAll`,
  `HierarchicalAllToAll` and `AllToAllUneven`, and their helper `_all_to_all`;
- the tensor-parallel token sharding `_gather_tokens` / `_drop_tokens`, the
  functions `_GatherTokens` / `_DropTokens` and the public wrappers
  `gather_tokens`, `drop_tokens` and `all_to_all_uneven`;
- the fallback path of `moe_cumsum` and its kernel-eligibility rule;
- the four gradient scalers `EPGradScalerIn/Out` and `DPGradScalerIn/Out`.

The transport is replaced by its meaning. The state of a whole process group
is a sequence with one entry per rank, in rank order, and every collective is
a function on that state. A tensor is the sequence of its rows along the
communicated dimension; an element of that sequence is an opaque row of type
`T`. `ReduceScatter` sums numbers, so there a rank's input is a stack of
integer slices. `HierarchicalAllToAll` works on a world of nodes:
`nodes[q][l]` is the tensor of local rank `l` of node `q`, whose world rank is
`q * L + l`.

Modules:

- `Base`: `Option`, `Result`, the error kinds, and group sizes.
- `Rows`: `torch.chunk`, `torch.narrow`, `torch.cat` and `zip`, as operations
  on sequences of rows.
- `Collectives`: `AllGather`, `ReduceScatter`, and the transport
  `all_to_all_single` with its split-list checks. Also the equal-shard
  `AllToAll` and `_all_to_all`.
- `Hierarchical`: the two-level all-to-all, stage by stage, and the proof that
  it equals the flat all-to-all over the whole world.
- `TokenShards`: token gathering and dropping, and the public wrappers.
- `Cumsum`: `moe_cumsum`.
- `GradScalers`: the scalers' backwards. The in-place `grad.mul_` becomes a
  loop over an `array<real>`.
- `Autograd`: the autograd context is a class `Ctx` whose fields the forwards
  write and the backwards read. Every forward and backward is a method, and
  forward-then-backward round trips are methods that run both through one
  context.

Points where the code's behaviour is narrower than a reader might expect:

- With more than one rank, `ReduceScatter`'s output buffer has shape
  `inputs.shape[1:]` (lines 78-93), so each of the `comm_size` chunks fills it
  only when the leading length equals the group size. On any other leading
  length `Collectives.ReduceScatter` returns `Err(ShapeMismatch)`.
- An empty `input_split_sizes` is read by the transport as an even split
  (line 395), but the uneven backward sizes its buffer as `sum([]) = 0` rows
  (lines 389-391 and 421-429), so the backward does not restore the input's
  shape; see `Collectives.UnevenEmptyInputSplitsBreakRoundTrip`.
- `HierarchicalAllToAll` chunks every gathered tensor into `world_size`
  pieces (lines 170-171) without checking that the row count divides, and on
  such inputs its backward does not restore the input; see the finding
  below. `Autograd` keeps the exchange as the code writes it, and
  `Hierarchical.CheckedOnEven` shows that it equals the checked exchange on
  the inputs `Autograd.HierarchicalRoundTrip` covers.

## Model

| member | source | states |
|---|---|---|
| `Collectives.AllGather` | colossalai/moe/_operation.py:37-46 | every rank receives all ranks' inputs in rank order as `comm_size` stacked entries; for one rank only a leading axis is added |
| `Collectives.ReduceScatter` | colossalai/moe/_operation.py:78-90 | succeeds exactly when there is one rank or the leading length equals the group size; one rank gets its own data back, flattened; with more ranks rank r gets the elementwise sum over all ranks of slice r |
| `Collectives.AllGatherReduceScatterAdjoint` | colossalai/moe/_operation.py:52-57 | for all integer inputs x and gradients y of AllGather's output shape, the sum over ranks of ⟨AllGather(x)_k, y_k⟩ equals the sum over ranks of ⟨x_r, ReduceScatter(y)_r⟩, so each primitive is the other's adjoint |
| `Collectives.ReduceScatterOfAllGather` | colossalai/moe/_operation.py:96-102 | reduce-scattering what AllGather stacked gives every rank its own input multiplied by the group size |
| `Collectives.ResolveSplits` | colossalai/moe/_operation.py:395-397 | a missing or empty split list is accepted exactly when the rows divide by the group size; a given list exactly when it has one entry per rank and sums to the row count; an accepted list has one entry per rank and sums to the rows |
| `Collectives.ResolveAll` | colossalai/moe/_operation.py:395-397 | every rank's list is resolved, and the call succeeds exactly when each rank's does |
| `Collectives.Exchange` | colossalai/moe/_operation.py:395-397 | once sizes are resolved, every rank receives as many rows as its output split list adds up to |
| `Collectives.ExchangeBlocks` | colossalai/moe/_operation.py:395-397 | piece k of what rank r received is piece r of what rank k sent |
| `Collectives.ExchangeRoundTrip` | colossalai/moe/_operation.py:395-397 | exchanging back with the two split lists swapped is well formed and restores every rank's input |
| `Collectives.AllToAllSingle` | colossalai/moe/_operation.py:395-397 | on success rank k's output has the row count of its output buffer; `Collectives.AllToAllSingleResolved` gives when it succeeds and what it delivers |
| `Collectives.AllToAll` | colossalai/moe/_operation.py:124-136 | on success every rank keeps its row count |
| `Collectives.AllToAllSingleOneRank` | colossalai/moe/_operation.py:128-129 | with one rank the transport is the identity, so the forward's shortcut changes nothing |
| `Collectives.TransportIsChunkTranspose` | colossalai/moe/_operation.py:130-132 | without split lists, on inputs of `size * c` rows, the transport succeeds and is the chunk transpose: rank w receives chunk w of every rank, in rank order |
| `Collectives.AllToAllIsChunkTranspose` | colossalai/moe/_operation.py:124-136 | the equal-shard AllToAll on such inputs is the chunk transpose, for every group size |
| `Collectives.AllToAllInvolution` | colossalai/moe/_operation.py:139-144 | applied to its own output the equal-shard AllToAll restores the original global state, which justifies the backward reusing the forward |
| `Collectives.UnevenAllToAll` | colossalai/moe/_operation.py:389-397 | on success rank k's output has `sum(output_split_sizes)` rows when that list is given and its input's rows otherwise; `Collectives.UnevenGivenLists` gives when it succeeds and what it delivers |
| `Collectives.AllToAllSingleResolved` | colossalai/moe/_operation.py:395-397 | once every rank's input and output split lists resolve (given, or even when omitted), the call succeeds exactly when the lists add up to the input rows and each rank expects from every peer what that peer sends it, and rank r then receives piece r of every rank's input in rank order (`Exchange`) |
| `Collectives.UnevenGivenLists` | colossalai/moe/_operation.py:377-398 | with a non-empty split list given on every rank for both sides, `_all_to_all` succeeds exactly when the lists add up to the input rows and agree across ranks, and then is `Exchange` of those lists |
| `Collectives.UnevenRoundTrip` | colossalai/moe/_operation.py:421-429 | when the forward succeeds and each rank's backward buffer gets back its input's row count, the backward call with the split lists swapped reconstructs every rank's input |
| `Collectives.UnevenEmptyInputSplitsBreakRoundTrip` | colossalai/moe/_operation.py:389-397 | with an empty input split list the forward succeeds, but the swapped backward call fails, so the round trip's hypothesis cannot be dropped |
| `Hierarchical.Gathered` | colossalai/moe/_operation.py:165-171 | each leader holds one gathered and reordered tensor per node |
| `Hierarchical.InterExchange` | colossalai/moe/_operation.py:174-176 | the inter-node exchange keeps one tensor per node, and is skipped without an inter-node group |
| `Hierarchical.LaidOut` | colossalai/moe/_operation.py:178-181 | the second reordering keeps one tensor per node |
| `Hierarchical.Scattered` | colossalai/moe/_operation.py:183-185 | every leader's tensor is cut into one piece per local rank |
| `Hierarchical.HierarchicalAllToAll` | colossalai/moe/_operation.py:158-191 | on success every rank's output is shaped like its input, as the `empty_like` output buffer demands |
| `Hierarchical.Deliver` | colossalai/moe/_operation.py:163-185 | on success the scattered pieces are shaped like the inputs |
| `Hierarchical.TuplesEven` | colossalai/moe/_operation.py:170-171 | on gathered tensors of `world_size * c` rows, tuple j holds chunk j of every local rank, each of c rows |
| `Hierarchical.FlattenBlocks` | colossalai/moe/_operation.py:171 | concatenating the tuples equals concatenating, node block by node block, the rows bound for each node |
| `Hierarchical.InterLayoutEven` | colossalai/moe/_operation.py:179-181 | the second reordering turns what a leader received from every node into the node's local ranks' shares, local rank outermost |
| `Hierarchical.SingleNodeLayout` | colossalai/moe/_operation.py:161-176 | without an inter-node group the first reordering alone already lays out the local ranks' shares |
| `Hierarchical.ExchangedEven` | colossalai/moe/_operation.py:174-176 | on even inputs the inter-node exchange succeeds and every leader receives every node's block bound for it |
| `Hierarchical.InboxesByTransport` | colossalai/moe/_operation.py:174-176 | the leaders' all-to-all hands leader p, from every node in node order, the block that node's leader laid out for node p |
| `Hierarchical.ScatteredEven` | colossalai/moe/_operation.py:183-185 | on even inputs the piece for local rank m of node p is what arrived for world rank `p * L + m` |
| `Hierarchical.ScatteredCell` | colossalai/moe/_operation.py:179-185 | local rank m of node p receives exactly world rank `p * L + m`'s share of the flat chunk transpose |
| `Hierarchical.ScatteredIsTranspose` | colossalai/moe/_operation.py:163-185 | on even inputs the scattered pieces fit the output buffers and are the flat chunk transpose cut node by node |
| `Hierarchical.HierarchicalEvenOk` | colossalai/moe/_operation.py:158-191 | with valid source ranks and inputs of `L * G * c` rows every stage succeeds |
| `Hierarchical.HierarchicalIsFlatAllToAll` | colossalai/moe/_operation.py:158-191 | with valid source ranks and inputs of `L * G * c` rows, the two-level all-to-all succeeds, and every rank, in world-rank order `q * L + l`, gets exactly what the flat equal-shard all-to-all over all `L * G` ranks gives it; this covers G = 1 without an inter-node group |
| `Hierarchical.HierarchicalInvolution` | colossalai/moe/_operation.py:194-199 | on such inputs the hierarchical all-to-all applied to its own output restores the input, so its backward can be the forward |
| `Hierarchical.TwoRanksThreeRows` | colossalai/moe/_operation.py:167-185 | on one node of two ranks of three rows each, the uneven 2 + 1 chunks make each rank's output mix both ranks' rows |
| `Hierarchical.UnevenNotInvolution` | colossalai/moe/_operation.py:167-199 | on such an input the exchange applied to its own output does not restore the input, while the flat all-to-all and the checked exchange refuse it as not divisible |
| `Hierarchical.HierarchicalAllToAllChecked` | colossalai/moe/_operation.py:158-191 | the exchange preceded by the check the flat all-to-all makes; on success every rank's output is shaped like its input |
| `Hierarchical.CheckedInvolution` | colossalai/moe/_operation.py:158-199 | the checked exchange succeeds exactly for valid source ranks and one row count on every rank that divides by the world size, and then its second application restores the input |
| `Hierarchical.CheckedOnEven` | colossalai/moe/_operation.py:158-191 | on inputs of `L * G * c` rows the checked exchange equals the exchange as written |
| `TokenShards.GatherTokens` | colossalai/moe/_operation.py:473-487 | every rank receives all ranks' rows concatenated in rank order, `size * n` rows |
| `TokenShards.DropTokens` | colossalai/moe/_operation.py:490-499 | succeeds exactly when the row count divides by the group size; rank r then keeps `len / size` rows, which are its own equal piece starting at row `r * len / size` |
| `TokenShards.DropIsChunk` | colossalai/moe/_operation.py:497-499 | the kept slice is the rank's `torch.chunk` piece |
| `TokenShards.DropAll` | colossalai/moe/_operation.py:490-499 | over the whole group, succeeds exactly when every rank's row count divides, and agrees rank by rank with DropTokens |
| `TokenShards.DropAfterGather` | colossalai/moe/_operation.py:512-513 | dropping from the gathered tensor gives every rank its own input back, the pairing of `_GatherTokens` with its backward |
| `TokenShards.GatherAfterDrop` | colossalai/moe/_operation.py:526-527 | gathering the slices of a tensor that every rank holds rebuilds it on every rank, the pairing of `_DropTokens` with its backward |
| `TokenShards.DropTokensWrapper` | colossalai/moe/_operation.py:538-543 | identity for one rank; otherwise fails when the input does not require a gradient, and drops tokens when it does |
| `TokenShards.GatherTokensAsWritten` | colossalai/moe/_operation.py:530-535 | as written, succeeds exactly for a group of one rank |
| `TokenShards.GatherTokensWrapper` | colossalai/moe/_operation.py:530-535 | as intended, succeeds exactly for one rank or an input that requires a gradient, and then every rank holds all ranks' rows in rank order |
| `TokenShards.GatherTokensAsWrittenFails` | colossalai/moe/_operation.py:535 | on more than one rank with an input requiring a gradient, the wrapper as written fails where the intended one gathers |
| `TokenShards.WrapperRoundTrip` | colossalai/moe/_operation.py:530-543 | the intended `gather_tokens` followed by `drop_tokens` gives every rank its input back, for every group size |
| `TokenShards.ShortcutsSound` | colossalai/moe/_operation.py:530-543 | on one rank gathering and dropping are the identity, so the wrappers' shortcut changes nothing |
| `Cumsum.RunningSum` | colossalai/moe/_operation.py:290 | entry i of `torch.cumsum` is the sum of the first i + 1 inputs |
| `Cumsum.CumsumSubOne` | colossalai/moe/_operation.py:290 | the fallback keeps the length, and entry i is `inputs[0] + … + inputs[i] - 1` |
| `Cumsum.CumsumSubOneSteps` | colossalai/moe/_operation.py:290 | the first entry is `inputs[0] - 1`, and consecutive entries differ by the input at the later position |
| `Cumsum.CumsumSubOneMonotone` | colossalai/moe/_operation.py:290 | on non-negative counts the result never decreases and never goes below -1 |
| `Cumsum.KernelIneligible` | colossalai/moe/_operation.py:284 | the kernel is refused exactly for odd row counts above 1024 and for row counts above 2048 that are 2 modulo 4 |
| `Cumsum.MoeCumsum` | colossalai/moe/_operation.py:282-290 | the kernel is used exactly when kernel use is asked for and the row count is eligible; otherwise the result is the running sum minus one |
| `Cumsum.MoeCumsumPathIrrelevant` | colossalai/moe/_operation.py:282-290 | with a kernel that computes the running sum minus one, both paths give entry i = `inputs[0] + … + inputs[i] - 1` |
| `GradScalers.Scaled` | colossalai/moe/_operation.py:309 | each entry multiplied by the factor, length kept |
| `GradScalers.EpScaleIn` | colossalai/moe/_operation.py:305-310 | every gradient entry is multiplied by `ep_size` (the skip for `ep_size == 1` changes nothing) |
| `GradScalers.EpScaleOut` | colossalai/moe/_operation.py:325-330 | every gradient entry is divided by `ep_size`: the result times `ep_size` is the input |
| `GradScalers.EpScalersInverse` | colossalai/moe/_operation.py:293-330 | with equal `ep_size` the two backwards undo each other in either order |
| `GradScalers.DpInFactor` | colossalai/moe/_operation.py:351 | the factor times `moe_dp_size` is `activated_experts` |
| `GradScalers.DpOutFactor` | colossalai/moe/_operation.py:373 | the factor times `activated_experts` is `moe_dp_size` |
| `GradScalers.DpScaleIn` | colossalai/moe/_operation.py:347-352 | every entry times `moe_dp_size` is the input entry times `activated_experts`, also on the skip path |
| `GradScalers.DpScaleOut` | colossalai/moe/_operation.py:369-374 | every entry times `activated_experts` is the input entry times `moe_dp_size`, also on the skip path |
| `GradScalers.DpScalersInverse` | colossalai/moe/_operation.py:333-374 | with equal sizes and at least one activated expert the two backwards undo each other in either order |
| `GradScalers.MulInPlace` | colossalai/moe/_operation.py:351 | `grad.mul_(f)`: the buffer afterwards holds every old entry times f |
| `GradScalers.DpBackwardIn` | colossalai/moe/_operation.py:350-351 | the buffer afterwards holds DpScaleIn of its old contents |
| `GradScalers.DpBackwardOut` | colossalai/moe/_operation.py:372-373 | the buffer afterwards holds DpScaleOut of its old contents |
| `Autograd.Ctx.constructor` | colossalai/moe/_operation.py:35 | a fresh context has none of the attributes the forwards record |
| `Autograd.AllGatherForward` | colossalai/moe/_operation.py:21-49 | records the group when there is a context, and returns AllGather |
| `Autograd.AllGatherBackward` | colossalai/moe/_operation.py:52-57 | the gradient is ReduceScatter over the recorded group |
| `Autograd.ReduceScatterForward` | colossalai/moe/_operation.py:62-93 | records the group when there is a context, and returns ReduceScatter |
| `Autograd.ReduceScatterBackward` | colossalai/moe/_operation.py:96-102 | the gradient is AllGather over the recorded group |
| `Autograd.AllToAllForward` | colossalai/moe/_operation.py:111-136 | records the group when there is a context, and returns AllToAll |
| `Autograd.AllToAllBackward` | colossalai/moe/_operation.py:139-144 | the gradient is AllToAll over the recorded group |
| `Autograd.AllToAllRoundTrip` | colossalai/moe/_operation.py:111-144 | forward then backward through one context gives every rank its input back whenever the forward succeeds |
| `Autograd.HierarchicalForward` | colossalai/moe/_operation.py:149-191 | records both groups and the source ranks when there is a context, and returns HierarchicalAllToAll |
| `Autograd.HierarchicalBackward` | colossalai/moe/_operation.py:194-199 | the gradient is HierarchicalAllToAll with the recorded groups and source ranks |
| `Autograd.HierarchicalRoundTrip` | colossalai/moe/_operation.py:149-199 | on inputs of `L * G * c` rows the forward is HierarchicalAllToAll and succeeds, and the backward through the same context restores the input |
| `Autograd.UnevenForward` | colossalai/moe/_operation.py:403-419 | records both split lists and the group, and returns `_all_to_all` |
| `Autograd.UnevenBackward` | colossalai/moe/_operation.py:421-429 | the gradient is `_all_to_all` with the recorded split lists swapped |
| `Autograd.AllToAllUnevenWrapper` | colossalai/moe/_operation.py:432-442 | fails when the input does not require a gradient, and is `_all_to_all` otherwise |
| `Autograd.UnevenRoundTripViaCtx` | colossalai/moe/_operation.py:403-429 | when the forward succeeds and each rank's backward buffer gets back its input's row count, the backward restores every rank's input |
| `Autograd.GatherTokensForward` | colossalai/moe/_operation.py:506-509 | records the dimension and the group, and returns the gathered tokens |
| `Autograd.GatherTokensBackward` | colossalai/moe/_operation.py:512-513 | the gradient is dropped with the recorded group |
| `Autograd.DropTokensForward` | colossalai/moe/_operation.py:520-523 | records the dimension and the group, and returns the dropped tokens |
| `Autograd.DropTokensBackward` | colossalai/moe/_operation.py:526-527 | the gradient is gathered with the recorded group |
| `Autograd.GatherTokensRoundTrip` | colossalai/moe/_operation.py:502-513 | every rank holds all ranks' rows, and the backward of that gives each rank its own input back |
| `Autograd.EpScalerForward` | colossalai/moe/_operation.py:300-302 | records `ep_size` and returns the input unchanged |
| `Autograd.EpScalerInBackward` | colossalai/moe/_operation.py:305-310 | every gradient entry multiplied by the recorded `ep_size` |
| `Autograd.EpScalerOutBackward` | colossalai/moe/_operation.py:325-330 | every gradient entry divided by the recorded `ep_size` |
| `Autograd.DpScalerForward` | colossalai/moe/_operation.py:340-344 | with no activated expert fails and records nothing; otherwise records both sizes and returns the input unchanged |
| `Autograd.DpScalerInBackward` | colossalai/moe/_operation.py:347-352 | the gradient buffer is scaled in place to DpScaleIn with the recorded sizes |
| `Autograd.DpScalerOutBackward` | colossalai/moe/_operation.py:369-374 | the gradient buffer is scaled in place to DpScaleOut with the recorded sizes |
| `Autograd.DpScalersRoundTrip` | colossalai/moe/_operation.py:333-374 | with no activated expert fails and leaves the gradient buffer alone; otherwise the forwards return their activations unchanged, and DPGradScalerOut's backward then DPGradScalerIn's leave the buffer as it was |

## Left out

- The transport itself. The `dist.*` calls are replaced by their meaning on the global state. Completion, ordering, the `overlap`/`async_op` handles and the `ctx is not None or not overlap` assertions are concurrency concerns.
- Output buffers. The source allocates them with `torch.empty`/`empty_like`, and the transport fills them in place. The model computes them as values, sized as the source sizes them, so in-place filling and aliasing are not captured.
- `MoeDispatch` and `MoeCombine`. All of their computation happens inside the MoE kernel, which is not part of this model.
- `moe_cumsum`'s kernel. It is a parameter of `Cumsum.MoeCumsum`; only the eligibility rule and the fallback are modelled.
- `load_moe` and the lazy loading of the kernel: import-time plumbing.
- Collectives.ResolveSplits, Collectives.AllToAllSingle and Collectives.UnevenAllToAll: split sizes are modelled as natural numbers and their sums as unbounded integers; a negative entry (which the transport refuses) and int64 overflow of the sums are not modelled.
- Non-positive scaler sizes. `ep_size` and `moe_dp_size` are process-group sizes, modelled as integers of at least 1, and `activated_experts` as a natural number; zero and negative sizes are not modelled (`GradScalers.EpScaleIn`, `GradScalers.EpScaleOut`, `GradScalers.DpScaleIn`, `GradScalers.DpScaleOut`, `Autograd.EpScalerForward`, `Autograd.DpScalerForward`).
- The dtype promotion to float32 and back, and float rounding. The scalers work over `real`, so their inverse laws hold exactly.
- `.contiguous()` copies: they change memory layout, not values.
- Arbitrary `dim` and multi-dimensional tensors. Only the communicated or sharded dimension is modelled, as a sequence of opaque rows. The `dim` argument is recorded in the context but has no further role.
- `moe_cumsum` works on one column: the integer sequence along dimension 0.
- What the transport does on mismatched shapes across ranks. `Collectives.AllGather`, `Collectives.ReduceScatter` and `TokenShards.GatherTokens` require all ranks to have the same row count. `Hierarchical.HierarchicalAllToAll` returns an error for a node whose ranks disagree. `Collectives.AllToAllSingle` returns an error when split lists disagree across ranks.
- The `requires_grad` deadlock guards at lines 439-441, 534 and 542 become a boolean argument. It stands for the whole group, since every rank must make the same choice.
- The `assert len(grad_outputs) == 1` checks: the model passes exactly one gradient.
- The source rank as a global rank. `src_rank` is modelled as one local-rank index per node (`leaders[q]`), checked to lie inside the intra-node group. The non-source ranks' side of the gather and scatter (lines 188-189) is folded into the global-state semantics.
- Hierarchical.HierarchicalIsFlatAllToAll: proved only for inputs whose row count is a multiple of the world size, the case the two-level layout is designed for. On other row counts the model still computes the result, with `torch.chunk`'s uneven pieces; the backward then need not restore the input (see the finding below).
- Collectives.UnevenRoundTrip: assumes each rank's backward buffer gets back the forward input's row count. That holds when the input split list is given and non-empty, or when it is omitted and the forward kept the row count.
- Autograd.UnevenRoundTripViaCtx: carries the same hypothesis as Collectives.UnevenRoundTrip.
- Collectives.ReduceScatter: with more than one rank and a leading length other than the group size the model returns `Err(ShapeMismatch)`; what the transport does with such mismatched chunks is not modelled.
- Collectives.ReduceScatter: for one rank it returns the flattened data of `squeeze(0)`. When the leading length is not 1, `squeeze(0)` keeps the axis, but the data is the same.

## Findings

| source | as written | input that shows it | evidently intended | confidence | as-written member | corrected member |
|---|---|---|---|---|---|---|
| colossalai/moe/_operation.py:535 | `gather_tokens` calls `_GatherTokens.apply(input_, dim)` without the group, which `_GatherTokens.forward` (line 506) needs | a tensor-parallel group of 2 ranks and an input that requires a gradient: the call fails for want of an argument | `_GatherTokens.apply(input_, dim, tp_group)`, as `drop_tokens` does at line 543 | not executed | `TokenShards.GatherTokensAsWritten` (with `TokenShards.GatherTokensAsWrittenFails`) | `TokenShards.GatherTokensWrapper` (with `TokenShards.WrapperRoundTrip`) |
| colossalai/moe/_operation.py:170-171 | the leader chunks every gathered tensor into `world_size` pieces without checking that its row count divides, and the backward is the same exchange | one node of two ranks holding rows `[0, 1, 2]` and `[10, 11, 12]`: the forward gives `[0, 1, 10]` and `[11, 2, 12]`, and the backward applied to that gives `[0, 1, 11]` and `[2, 10, 12]`, not the input | refuse row counts that the flat all-to-all refuses (one count on every rank, divisible by the world size), so that the backward restores the input | not executed | `Hierarchical.HierarchicalAllToAll` (with `Hierarchical.UnevenNotInvolution`) | `Hierarchical.HierarchicalAllToAllChecked` (with `Hierarchical.CheckedInvolution`) |
