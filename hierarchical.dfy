/** HierarchicalAllToAll: the all-to-all of a world of `numGroup` nodes with
    `localSize` ranks each, carried out by one leader per node. The leader
    gathers its node's inputs, reorders them, exchanges with the other
    leaders, reorders again and scatters back.

    The global state is indexed by node and local rank: `nodes[q][l]` is the
    tensor of local rank l of node q, whose world rank is q * localSize + l,
    so `Flatten(nodes)` lists all ranks in world-rank order. */
module Hierarchical {
  import opened Base
  import opened Rows
  import opened Collectives

  /** The number of nodes: the inter-node group's size, or 1 without one. */
  function NumGroup(inter: Option<Group>): GroupSize
  {
    if inter.Some? then inter.value.size else 1
  }

  /** The tuples of the leader's first reordering: every gathered tensor is
      chunked into world-size pieces, and tuple j holds chunk j of each. */
  function Tuples<T>(gathered: seq<seq<T>>, worldSize: GroupSize): seq<seq<seq<T>>>
    requires |gathered| > 0
  {
    Zip(seq(|gathered|, l requires 0 <= l < |gathered| => TorchChunk(gathered[l], worldSize)))
  }

  /** The leader's layout before the inter-node exchange: the tuples
      concatenated in order. */
  function IntraLayout<T>(gathered: seq<seq<T>>, worldSize: GroupSize): seq<T>
    requires |gathered| > 0
  {
    Flatten(Flatten(Tuples(gathered, worldSize)))
  }

  /** The leader's layout after the inter-node exchange: the received tensor
      is chunked per source node, each of those per local rank, and the
      pieces are interleaved with the local rank outermost. */
  function InterLayout<T>(received: seq<T>, numGroup: GroupSize, localSize: GroupSize): seq<T>
  {
    var perNode := TorchChunk(received, numGroup);
    Flatten(Flatten(Zip(seq(|perNode|, p requires 0 <= p < |perNode| => TorchChunk(perNode[p], localSize)))))
  }

  /** The scattered pieces have the shapes of the output buffers, which are
      shaped like the inputs. */
  predicate Fits<T>(scattered: seq<seq<seq<T>>>, nodes: seq<seq<seq<T>>>)
  {
    |scattered| == |nodes| &&
    forall q :: 0 <= q < |nodes| ==>
      |scattered[q]| == |nodes[q]| &&
      forall l :: 0 <= l < |nodes[q]| ==> |scattered[q][l]| == |nodes[q][l]|
  }

  /** What every leader holds after the intra-node gather and the first
      reordering. */
  function Gathered<T>(nodes: seq<seq<seq<T>>>, worldSize: GroupSize): (g: seq<seq<T>>)
    requires forall q :: 0 <= q < |nodes| ==> |nodes[q]| > 0
    ensures |g| == |nodes|
  {
    seq(|nodes|, q requires 0 <= q < |nodes| => IntraLayout(nodes[q], worldSize))
  }

  /** The inter-node all-to-all among the leaders, into buffers shaped like
      their inputs and without split lists; skipped without an inter-node
      group. */
  function InterExchange<T>(inter: Option<Group>, gathered: seq<seq<T>>): (r: Result<seq<seq<T>>>)
    requires |gathered| == NumGroup(inter)
    ensures r.Ok? ==> |r.value| == |gathered|
  {
    if inter.Some? then AllToAllSingle(gathered, RowCounts(gathered), Nones(|gathered|), Nones(|gathered|))
    else Ok(gathered)
  }

  /** Every leader's second reordering; skipped without an inter-node group. */
  function LaidOut<T>(inter: Option<Group>, exchanged: seq<seq<T>>, localSize: GroupSize): (r: seq<seq<T>>)
    requires |exchanged| == NumGroup(inter)
    ensures |r| == |exchanged|
  {
    if inter.Some?
    then seq(|exchanged|, p requires 0 <= p < |exchanged| => InterLayout(exchanged[p], NumGroup(inter), localSize))
    else exchanged
  }

  /** The pieces every leader scatters to its local ranks. */
  function Scattered<T>(laid: seq<seq<T>>, localSize: GroupSize): (r: seq<seq<seq<T>>>)
    ensures |r| == |laid|
  {
    seq(|laid|, p requires 0 <= p < |laid| => TorchChunk(laid[p], localSize))
  }

  /** HierarchicalAllToAll.forward over the whole world. `leaders[q]` is the
      local rank, within node q's intra-node group, of the `src_rank` that
      node passes; a rank outside the group cannot be the root of the gather.
      The gather fills buffers shaped like the leader's input, and the scatter
      needs one piece per local rank shaped like that rank's output. */
  function HierarchicalAllToAll<T>(intra: Group, inter: Option<Group>, leaders: seq<int>,
                                   nodes: seq<seq<seq<T>>>): (r: Result<seq<seq<seq<T>>>>)
    requires |nodes| == NumGroup(inter) && |leaders| == NumGroup(inter)
    requires forall q :: 0 <= q < |nodes| ==> |nodes[q]| == intra.size
    ensures r.Ok? ==> Fits(r.value, nodes)
  {
    var localSize := intra.size;
    var numGroup := NumGroup(inter);
    if exists q :: 0 <= q < numGroup && !(0 <= leaders[q] < localSize) then Err(NotInGroup)
    else if exists q :: 0 <= q < numGroup && !SameRows(nodes[q]) then Err(ShapeMismatch)
    else Deliver(inter, localSize, nodes)
  }

  /** The stages after the leaders have been checked: gather and first
      reordering, inter-node exchange, second reordering, scatter. */
  function Deliver<T>(inter: Option<Group>, localSize: GroupSize, nodes: seq<seq<seq<T>>>): (r: Result<seq<seq<seq<T>>>>)
    requires |nodes| == NumGroup(inter) && forall q :: 0 <= q < |nodes| ==> |nodes[q]| == localSize
    ensures r.Ok? ==> Fits(r.value, nodes)
  {
    var exchanged := InterExchange(inter, Gathered(nodes, NumGroup(inter) * localSize));
    if exchanged.Err? then Err(exchanged.error)
    else
      var scattered := Scattered(LaidOut(inter, exchanged.value, localSize), localSize);
      if Fits(scattered, nodes) then Ok(scattered) else Err(ShapeMismatch)
  }

  // ===== The layouts on evenly divisible inputs =====

  /** Node q has localSize ranks, each of n rows. */
  predicate Even<T>(nodes: seq<seq<seq<T>>>, localSize: nat, numGroup: nat, n: nat)
  {
    |nodes| == numGroup &&
    forall q :: 0 <= q < numGroup ==> |nodes[q]| == localSize && AllLength(nodes[q], n)
  }

  /** The tuples of every node's first reordering. */
  function NodeTuples<T>(nodes: seq<seq<seq<T>>>, worldSize: GroupSize): (ts: seq<seq<seq<seq<T>>>>)
    requires forall q :: 0 <= q < |nodes| ==> |nodes[q]| > 0
    ensures |ts| == |nodes|
  {
    seq(|nodes|, q requires 0 <= q < |nodes| => Tuples(nodes[q], worldSize))
  }

  /** Tuple j of a node's first reordering holds chunk j of each of its ranks'
      inputs, of c rows each. */
  lemma TuplesEven<T>(gathered: seq<seq<T>>, worldSize: GroupSize, c: nat)
    requires |gathered| > 0 && AllLength(gathered, worldSize * c)
    ensures Sum(Repeat(c, worldSize)) == worldSize * c
    ensures var t := Tuples(gathered, worldSize);
      |t| == worldSize &&
      forall j :: 0 <= j < worldSize ==>
        |t[j]| == |gathered| && AllLength(t[j], c) &&
        forall l :: 0 <= l < |gathered| ==> t[j][l] == Pieces(gathered[l], Repeat(c, worldSize))[j]
  {
    SumRepeat(c, worldSize);
    var chunks := seq(|gathered|, l requires 0 <= l < |gathered| => TorchChunk(gathered[l], worldSize));
    forall l | 0 <= l < |gathered| ensures chunks[l] == Pieces(gathered[l], Repeat(c, worldSize)) {
      TorchChunkEven(gathered[l], worldSize, c);
    }
    assert forall l :: 0 <= l < |gathered| ==> |chunks[l]| == worldSize;
    var n := MinLen(chunks);
    assert n <= |chunks[0]| == worldSize;
    assert n == worldSize;
  }

  /** What a leader sends for local rank m of node p: tuple p * localSize + m
      of its first reordering, concatenated. */
  function BlockRows<T>(t: seq<seq<seq<T>>>, localSize: nat, numGroup: nat, p: nat, m: nat): seq<T>
    requires |t| == numGroup * localSize && p < numGroup && m < localSize
  {
    SumRepeat(localSize, numGroup);
    Flatten(Pieces(t, Repeat(localSize, numGroup))[p][m])
  }

  /** Everything a leader sends to node p. */
  function Block<T>(t: seq<seq<seq<T>>>, localSize: nat, numGroup: nat, p: nat): seq<T>
    requires |t| == numGroup * localSize && p < numGroup
  {
    Flatten(seq(localSize, m requires 0 <= m < localSize => BlockRows(t, localSize, numGroup, p, m)))
  }

  lemma BlockRowsIndex<T>(t: seq<seq<seq<T>>>, localSize: nat, numGroup: nat, p: nat, m: nat)
    requires |t| == numGroup * localSize && p < numGroup && m < localSize
    ensures p * localSize + m < |t| && BlockRows(t, localSize, numGroup, p, m) == Flatten(t[p * localSize + m])
  {
    PiecesRepeatIndex(t, localSize, numGroup, p, m);
  }

  /** The first reordering flattened is the blocks for the nodes, in order. */
  lemma FlattenBlocks<T>(t: seq<seq<seq<T>>>, localSize: nat, numGroup: nat)
    requires |t| == numGroup * localSize
    ensures Flatten(Flatten(t)) == Flatten(seq(numGroup, p requires 0 <= p < numGroup => Block(t, localSize, numGroup, p)))
  {
    SumRepeat(localSize, numGroup);
    var y := Pieces(t, Repeat(localSize, numGroup));
    FlattenPieces(t, Repeat(localSize, numGroup));
    FlattenAssoc(y);
    var u := seq(numGroup, p requires 0 <= p < numGroup => Flatten(y[p]));
    assert seq(|y|, p requires 0 <= p < |y| => Flatten(y[p])) == u;
    FlattenAssoc(u);
    var blocks := seq(numGroup, p requires 0 <= p < numGroup => Block(t, localSize, numGroup, p));
    forall p | 0 <= p < numGroup ensures Flatten(u[p]) == blocks[p] {
      BlockIsFlatPiece(t, localSize, numGroup, p);
    }
    assert seq(|u|, p requires 0 <= p < |u| => Flatten(u[p])) == blocks;
  }

  /** The block for node p is piece p of the first reordering, flattened twice. */
  lemma BlockIsFlatPiece<T>(t: seq<seq<seq<T>>>, localSize: nat, numGroup: nat, p: nat)
    requires |t| == numGroup * localSize && p < numGroup
    ensures Sum(Repeat(localSize, numGroup)) == |t|
    ensures Flatten(Flatten(Pieces(t, Repeat(localSize, numGroup))[p])) == Block(t, localSize, numGroup, p)
  {
    SumRepeat(localSize, numGroup);
    var yp := Pieces(t, Repeat(localSize, numGroup))[p];
    FlattenAssoc(yp);
    assert seq(|yp|, m requires 0 <= m < |yp| => Flatten(yp[m]))
        == seq(localSize, m requires 0 <= m < localSize => BlockRows(t, localSize, numGroup, p, m));
  }

  /** Tuples of localSize pieces of c rows. */
  predicate TupleShape<T>(t: seq<seq<seq<T>>>, localSize: nat, c: nat)
  {
    forall j :: 0 <= j < |t| ==> |t[j]| == localSize && AllLength(t[j], c)
  }

  lemma BlockRowsLength<T>(t: seq<seq<seq<T>>>, localSize: nat, numGroup: nat, c: nat, p: nat, m: nat)
    requires |t| == numGroup * localSize && TupleShape(t, localSize, c) && p < numGroup && m < localSize
    ensures |BlockRows(t, localSize, numGroup, p, m)| == localSize * c
  {
    BlockRowsIndex(t, localSize, numGroup, p, m);
    FlattenLength(t[p * localSize + m], c);
  }

  /** A block consists of localSize rows-for-a-rank of localSize * c rows
      each, and chunking it per local rank recovers them. */
  lemma BlockChunks<T>(t: seq<seq<seq<T>>>, localSize: GroupSize, numGroup: nat, c: nat, p: nat)
    requires |t| == numGroup * localSize && TupleShape(t, localSize, c) && p < numGroup
    ensures |Block(t, localSize, numGroup, p)| == localSize * (localSize * c)
    ensures TorchChunk(Block(t, localSize, numGroup, p), localSize)
         == seq(localSize, m requires 0 <= m < localSize => BlockRows(t, localSize, numGroup, p, m))
  {
    var rows := seq(localSize, m requires 0 <= m < localSize => BlockRows(t, localSize, numGroup, p, m));
    forall m | 0 <= m < localSize ensures |rows[m]| == localSize * c {
      BlockRowsLength(t, localSize, numGroup, c, p, m);
    }
    TorchChunkFlatten(rows, localSize * c);
  }

  /** Zipping lists of equal length and flattening twice groups the lists'
      entries by position. */
  lemma FlattenZip<T>(lists: seq<seq<seq<T>>>, len: nat)
    requires |lists| > 0 && forall q :: 0 <= q < |lists| ==> |lists[q]| == len
    ensures Flatten(Flatten(Zip(lists)))
         == Flatten(seq(len, m requires 0 <= m < len =>
              Flatten(seq(|lists|, q requires 0 <= q < |lists| => lists[q][m]))))
  {
    var z := Zip(lists);
    assert MinLen(lists) == len;
    FlattenAssoc(z);
    forall m | 0 <= m < len ensures z[m] == seq(|lists|, q requires 0 <= q < |lists| => lists[q][m]) {
    }
    assert seq(|z|, i requires 0 <= i < |z| => Flatten(z[i]))
        == seq(len, m requires 0 <= m < len => Flatten(seq(|lists|, q requires 0 <= q < |lists| => lists[q][m])));
  }

  /** What leader p receives: from every node in order, the block that
      node's leader sent to it. */
  function Inbox<T>(ts: seq<seq<seq<seq<T>>>>, localSize: nat, numGroup: nat, p: nat): seq<T>
    requires |ts| == numGroup && forall q :: 0 <= q < numGroup ==> |ts[q]| == numGroup * localSize
    requires p < numGroup
  {
    Flatten(seq(numGroup, q requires 0 <= q < numGroup => Block(ts[q], localSize, numGroup, p)))
  }

  /** What local rank m of node p ends up with: from every node in order, the
      rows that node's leader sent for it. */
  function Arrived<T>(ts: seq<seq<seq<seq<T>>>>, localSize: nat, numGroup: nat, p: nat, m: nat): seq<T>
    requires |ts| == numGroup && forall q :: 0 <= q < numGroup ==> |ts[q]| == numGroup * localSize
    requires p < numGroup && m < localSize
  {
    Flatten(seq(numGroup, q requires 0 <= q < numGroup => BlockRows(ts[q], localSize, numGroup, p, m)))
  }

  /** Given that leader p holds the blocks sent to it in node order, its second
      layout lists what each local rank is to receive, in local-rank order. */
  lemma InterLayoutEven<T>(ts: seq<seq<seq<seq<T>>>>, localSize: GroupSize, numGroup: GroupSize, c: nat,
                           exchanged: seq<T>, p: nat)
    requires |ts| == numGroup && p < numGroup
    requires forall q :: 0 <= q < numGroup ==> |ts[q]| == numGroup * localSize && TupleShape(ts[q], localSize, c)
    requires exchanged == Inbox(ts, localSize, numGroup, p)
    ensures InterLayout(exchanged, numGroup, localSize)
         == Flatten(seq(localSize, m requires 0 <= m < localSize => Arrived(ts, localSize, numGroup, p, m)))
  {
    var rows := RowsFor(ts, localSize, numGroup, p);
    InterLayoutRows(ts, localSize, numGroup, c, exchanged, p);
    FlattenZip(rows, localSize);
    RowsColumns(ts, localSize, numGroup, p);
  }

  /** For every node q, the rows node q's leader sent to node p, one entry
      per local rank. */
  function RowsFor<T>(ts: seq<seq<seq<seq<T>>>>, localSize: nat, numGroup: nat, p: nat): (rows: seq<seq<seq<T>>>)
    requires |ts| == numGroup && p < numGroup
    requires forall q :: 0 <= q < numGroup ==> |ts[q]| == numGroup * localSize
    ensures |rows| == numGroup && forall q :: 0 <= q < numGroup ==> |rows[q]| == localSize
  {
    seq(numGroup, q requires 0 <= q < numGroup =>
      seq(localSize, m requires 0 <= m < localSize => BlockRows(ts[q], localSize, numGroup, p, m)))
  }

  /** The second layout's chunks are the rows sent to node p. */
  lemma InterLayoutRows<T>(ts: seq<seq<seq<seq<T>>>>, localSize: GroupSize, numGroup: GroupSize, c: nat,
                           exchanged: seq<T>, p: nat)
    requires |ts| == numGroup && p < numGroup
    requires forall q :: 0 <= q < numGroup ==> |ts[q]| == numGroup * localSize && TupleShape(ts[q], localSize, c)
    requires exchanged == Inbox(ts, localSize, numGroup, p)
    ensures InterLayout(exchanged, numGroup, localSize) == Flatten(Flatten(Zip(RowsFor(ts, localSize, numGroup, p))))
  {
    var rows := RowsFor(ts, localSize, numGroup, p);
    var perNode := TorchChunk(exchanged, numGroup);
    var blocks := seq(numGroup, q requires 0 <= q < numGroup => Block(ts[q], localSize, numGroup, p));
    forall q | 0 <= q < numGroup
      ensures |blocks[q]| == localSize * (localSize * c) && TorchChunk(blocks[q], localSize) == rows[q]
    {
      BlockChunks(ts[q], localSize, numGroup, c, p);
    }
    TorchChunkFlatten(blocks, localSize * (localSize * c));
    assert perNode == blocks;
    assert seq(|perNode|, p' requires 0 <= p' < |perNode| => TorchChunk(perNode[p'], localSize)) == rows;
  }

  /** Gathering the rows for local rank m from every node gives what arrived
      for it. */
  lemma RowsColumns<T>(ts: seq<seq<seq<seq<T>>>>, localSize: nat, numGroup: nat, p: nat)
    requires |ts| == numGroup && p < numGroup
    requires forall q :: 0 <= q < numGroup ==> |ts[q]| == numGroup * localSize
    ensures var rows := RowsFor(ts, localSize, numGroup, p);
      Flatten(seq(localSize, m requires 0 <= m < localSize =>
        Flatten(seq(|rows|, q requires 0 <= q < |rows| => rows[q][m]))))
      == Flatten(seq(localSize, m requires 0 <= m < localSize => Arrived(ts, localSize, numGroup, p, m)))
  {
    var rows := RowsFor(ts, localSize, numGroup, p);
    var out := seq(localSize, m requires 0 <= m < localSize => Arrived(ts, localSize, numGroup, p, m));
    forall m | 0 <= m < localSize
      ensures Flatten(seq(|rows|, q requires 0 <= q < |rows| => rows[q][m])) == out[m]
    {
      assert seq(|rows|, q requires 0 <= q < |rows| => rows[q][m])
          == seq(numGroup, q requires 0 <= q < numGroup => BlockRows(ts[q], localSize, numGroup, p, m));
    }
    assert seq(localSize, m requires 0 <= m < localSize =>
             Flatten(seq(|rows|, q requires 0 <= q < |rows| => rows[q][m]))) == out;
  }

  /** Without an inter-node group the world is one node, and what the leader
      gathered, reordered, is already in local-rank order. */
  lemma SingleNodeLayout<T>(ts: seq<seq<seq<seq<T>>>>, localSize: GroupSize, c: nat, gathered: seq<T>)
    requires |ts| == 1 && |ts[0]| == 1 * localSize && TupleShape(ts[0], localSize, c)
    requires gathered == Inbox(ts, localSize, 1, 0)
    ensures gathered == Flatten(seq(localSize, m requires 0 <= m < localSize => Arrived(ts, localSize, 1, 0, m)))
  {
    var block := Block(ts[0], localSize, 1, 0);
    assert seq(1, q requires 0 <= q < 1 => Block(ts[q], localSize, 1, 0)) == [block];
    FlattenSingle(block);
    forall m | 0 <= m < localSize ensures Arrived(ts, localSize, 1, 0, m) == BlockRows(ts[0], localSize, 1, 0, m) {
      var b := BlockRows(ts[0], localSize, 1, 0, m);
      assert seq(1, q requires 0 <= q < 1 => BlockRows(ts[q], localSize, 1, 0, m)) == [b];
      FlattenSingle(b);
    }
    assert seq(localSize, m requires 0 <= m < localSize => Arrived(ts, localSize, 1, 0, m))
        == seq(localSize, m requires 0 <= m < localSize => BlockRows(ts[0], localSize, 1, 0, m));
  }

  // ===== Equivalence with the flat all-to-all =====

  lemma {:induction false} FlattenAllLength<T>(nodes: seq<seq<seq<T>>>, n: nat)
    requires forall q :: 0 <= q < |nodes| ==> AllLength(nodes[q], n)
    ensures AllLength(Flatten(nodes), n)
  {
    if |nodes| > 0 {
      FlattenAllLength(nodes[1..], n);
    }
  }

  /** World rank q * localSize + l is local rank l of node q. */
  lemma FlattenIndex<T>(nodes: seq<seq<seq<T>>>, localSize: nat, numGroup: nat, q: nat, l: nat)
    requires |nodes| == numGroup && AllLength(nodes, localSize) && q < numGroup && l < localSize
    ensures |Flatten(nodes)| == numGroup * localSize
    ensures q * localSize + l < |Flatten(nodes)| && Flatten(nodes)[q * localSize + l] == nodes[q][l]
  {
    FlattenLength(nodes, localSize);
    SumRepeat(localSize, numGroup);
    PiecesFlatten(nodes, Repeat(localSize, numGroup));
    PiecesRepeatIndex(Flatten(nodes), localSize, numGroup, q, l);
  }

  /** Every node's tuples have localSize pieces of c rows. */
  predicate TuplesShape<T>(ts: seq<seq<seq<seq<T>>>>, localSize: nat, numGroup: nat, c: nat)
  {
    |ts| == numGroup &&
    forall q :: 0 <= q < numGroup ==> |ts[q]| == numGroup * localSize && TupleShape(ts[q], localSize, c)
  }

  lemma NodeTuplesEven<T>(nodes: seq<seq<seq<T>>>, localSize: GroupSize, numGroup: GroupSize, c: nat)
    requires Even(nodes, localSize, numGroup, numGroup * localSize * c)
    ensures TuplesShape(NodeTuples(nodes, numGroup * localSize), localSize, numGroup, c)
  {
    forall q | 0 <= q < numGroup
      ensures var t := Tuples(nodes[q], numGroup * localSize);
        |t| == numGroup * localSize && TupleShape(t, localSize, c)
    {
      TuplesEven(nodes[q], numGroup * localSize, c);
    }
  }

  /** Column j of the flat chunk transpose, cut node by node: entry q holds,
      for every local rank of node q, chunk j of that rank's input. */
  function NodeColumns<T>(nodes: seq<seq<seq<T>>>, localSize: GroupSize, numGroup: GroupSize, c: nat, j: nat): (cs: seq<seq<seq<T>>>)
    requires Even(nodes, localSize, numGroup, numGroup * localSize * c) && j < numGroup * localSize
    ensures |cs| == numGroup && forall q :: 0 <= q < numGroup ==> |cs[q]| == localSize
  {
    FlattenAllLength(nodes, numGroup * localSize * c);
    FlattenLength(nodes, localSize);
    SumRepeat(localSize, numGroup);
    Pieces(ChunkColumn(Flatten(nodes), c, j), Repeat(localSize, numGroup))
  }

  /** Tuple j of node q's first reordering is the slice, for node q, of chunk
      j of every rank's input. */
  lemma TupleIsColumn<T>(nodes: seq<seq<seq<T>>>, localSize: GroupSize, numGroup: GroupSize, c: nat, q: nat, j: nat)
    requires Even(nodes, localSize, numGroup, numGroup * localSize * c) && q < numGroup && j < numGroup * localSize
    ensures |Tuples(nodes[q], numGroup * localSize)| == numGroup * localSize
    ensures NodeColumns(nodes, localSize, numGroup, c, j)[q] == Tuples(nodes[q], numGroup * localSize)[j]
  {
    var w: GroupSize := numGroup * localSize;
    var cs := NodeColumns(nodes, localSize, numGroup, c, j);
    TuplesEven(nodes[q], w, c);
    var t := Tuples(nodes[q], w);
    forall l | 0 <= l < localSize ensures cs[q][l] == t[j][l] {
      TupleIsColumnAt(nodes, localSize, numGroup, c, q, j, l);
    }
  }

  /** Row l of tuple j of node q is row l of the node-q slice of column j. */
  lemma TupleIsColumnAt<T>(nodes: seq<seq<seq<T>>>, localSize: GroupSize, numGroup: GroupSize, c: nat, q: nat, j: nat, l: nat)
    requires Even(nodes, localSize, numGroup, numGroup * localSize * c)
    requires q < numGroup && j < numGroup * localSize && l < localSize
    ensures |Tuples(nodes[q], numGroup * localSize)| == numGroup * localSize
    ensures |Tuples(nodes[q], numGroup * localSize)[j]| == localSize
    ensures NodeColumns(nodes, localSize, numGroup, c, j)[q][l] == Tuples(nodes[q], numGroup * localSize)[j][l]
  {
    var w: GroupSize := numGroup * localSize;
    var flat := Flatten(nodes);
    FlattenAllLength(nodes, w * c);
    FlattenIndex(nodes, localSize, numGroup, q, l);
    SumRepeat(localSize, numGroup);
    var col := ChunkColumn(flat, c, j);
    var k := q * localSize + l;
    SumRepeat(c, w);
    assert col[k] == Pieces(nodes[q][l], Repeat(c, w))[j];
    PiecesRepeatIndex(col, localSize, numGroup, q, l);
    assert NodeColumns(nodes, localSize, numGroup, c, j)[q][l] == col[k];
    TuplesEven(nodes[q], w, c);
  }

  /** What local rank m of node p ends up with is what the flat all-to-all
      over the whole world, the chunk transpose, gives world rank
      p * localSize + m. */
  lemma ArrivedIsFlat<T>(nodes: seq<seq<seq<T>>>, localSize: GroupSize, numGroup: GroupSize, c: nat, p: nat, m: nat)
    requires Even(nodes, localSize, numGroup, numGroup * localSize * c) && p < numGroup && m < localSize
    ensures AllLength(Flatten(nodes), numGroup * localSize * c) && |Flatten(nodes)| == numGroup * localSize
    ensures TuplesShape(NodeTuples(nodes, numGroup * localSize), localSize, numGroup, c)
    ensures p * localSize + m < numGroup * localSize
    ensures Arrived(NodeTuples(nodes, numGroup * localSize), localSize, numGroup, p, m)
         == ChunkTranspose(Flatten(nodes), c)[p * localSize + m]
  {
    var w: GroupSize := numGroup * localSize;
    var flat := Flatten(nodes);
    var ts := NodeTuples(nodes, w);
    NodeTuplesEven(nodes, localSize, numGroup, c);
    FlattenAllLength(nodes, w * c);
    FlattenIndex(nodes, localSize, numGroup, p, m);
    var j := p * localSize + m;
    ArrivedIsColumn(nodes, localSize, numGroup, c, p, m, j);
  }

  /** The rows local rank m of node p ends up with are column
      j = p * localSize + m of the flat chunk transpose. */
  lemma ArrivedIsColumn<T>(nodes: seq<seq<seq<T>>>, localSize: GroupSize, numGroup: GroupSize, c: nat, p: nat, m: nat, j: nat)
    requires Even(nodes, localSize, numGroup, numGroup * localSize * c) && p < numGroup && m < localSize
    requires j == p * localSize + m && j < numGroup * localSize
    requires AllLength(Flatten(nodes), numGroup * localSize * c) && |Flatten(nodes)| == numGroup * localSize
    requires TuplesShape(NodeTuples(nodes, numGroup * localSize), localSize, numGroup, c)
    ensures Arrived(NodeTuples(nodes, numGroup * localSize), localSize, numGroup, p, m)
         == ChunkTranspose(Flatten(nodes), c)[j]
  {
    var w: GroupSize := numGroup * localSize;
    var ts := NodeTuples(nodes, w);
    var col := ChunkColumn(Flatten(nodes), c, j);
    SumRepeat(localSize, numGroup);
    var cols := NodeColumns(nodes, localSize, numGroup, c, j);
    var parts := seq(numGroup, q requires 0 <= q < numGroup => BlockRows(ts[q], localSize, numGroup, p, m));
    forall q | 0 <= q < numGroup ensures parts[q] == Flatten(cols[q]) {
      ArrivedPart(nodes, localSize, numGroup, c, p, m, q, j);
    }
    assert cols == Pieces(col, Repeat(localSize, numGroup));
    FlattenByPieces(parts, col, Repeat(localSize, numGroup));
    assert ChunkTranspose(Flatten(nodes), c)[j] == Flatten(col);
  }

  /** What node q's leader sent for local rank m of node p is node q's slice
      of column p * localSize + m of the flat chunk transpose. */
  lemma ArrivedPart<T>(nodes: seq<seq<seq<T>>>, localSize: GroupSize, numGroup: GroupSize, c: nat, p: nat, m: nat, q: nat, j: nat)
    requires Even(nodes, localSize, numGroup, numGroup * localSize * c)
    requires p < numGroup && m < localSize && q < numGroup
    requires j == p * localSize + m && j < numGroup * localSize
    ensures |NodeTuples(nodes, numGroup * localSize)[q]| == numGroup * localSize
    ensures BlockRows(NodeTuples(nodes, numGroup * localSize)[q], localSize, numGroup, p, m)
         == Flatten(NodeColumns(nodes, localSize, numGroup, c, j)[q])
  {
    var w: GroupSize := numGroup * localSize;
    var t := Tuples(nodes[q], w);
    TupleIsColumn(nodes, localSize, numGroup, c, q, j);
    assert NodeTuples(nodes, w)[q] == t;
    BlockRowsIndex(t, localSize, numGroup, p, m);
  }

  /** What arrives for each local rank of node p has numGroup * localSize * c rows. */
  lemma ArrivedRowsLength<T>(ts: seq<seq<seq<seq<T>>>>, localSize: nat, numGroup: nat, c: nat, p: nat)
    requires |ts| == numGroup && p < numGroup
    requires forall q :: 0 <= q < numGroup ==> |ts[q]| == numGroup * localSize && TupleShape(ts[q], localSize, c)
    ensures AllLength(seq(localSize, m requires 0 <= m < localSize => Arrived(ts, localSize, numGroup, p, m)), numGroup * localSize * c)
  {
    var out := seq(localSize, m requires 0 <= m < localSize => Arrived(ts, localSize, numGroup, p, m));
    forall m | 0 <= m < localSize ensures |out[m]| == numGroup * localSize * c {
      ArrivedLength(ts, localSize, numGroup, c, p, m);
    }
  }

  lemma ArrivedLength<T>(ts: seq<seq<seq<seq<T>>>>, localSize: nat, numGroup: nat, c: nat, p: nat, m: nat)
    requires |ts| == numGroup && p < numGroup && m < localSize
    requires forall q :: 0 <= q < numGroup ==> |ts[q]| == numGroup * localSize && TupleShape(ts[q], localSize, c)
    ensures |Arrived(ts, localSize, numGroup, p, m)| == numGroup * localSize * c
  {
    var parts := seq(numGroup, q requires 0 <= q < numGroup => BlockRows(ts[q], localSize, numGroup, p, m));
    forall q | 0 <= q < numGroup ensures |parts[q]| == localSize * c {
      BlockRowsLength(ts[q], localSize, numGroup, c, p, m);
    }
    FlattenLength(parts, localSize * c);
    MulAssoc(numGroup, localSize, c);
  }

  lemma MulAssoc(a: int, b: int, c: int)
    ensures a * (b * c) == (a * b) * c
  {
  }


  /** All blocks a leader sends, in node order. */
  function NodeBlocks<T>(t: seq<seq<seq<T>>>, localSize: nat, numGroup: nat): (bs: seq<seq<T>>)
    requires |t| == numGroup * localSize
    ensures |bs| == numGroup
  {
    seq(numGroup, p requires 0 <= p < numGroup => Block(t, localSize, numGroup, p))
  }

  /** A leader's first layout cuts evenly into the blocks for the nodes. */
  lemma NodeBlocksEven<T>(t: seq<seq<seq<T>>>, localSize: GroupSize, numGroup: nat, c: nat)
    requires |t| == numGroup * localSize && TupleShape(t, localSize, c)
    ensures AllLength(NodeBlocks(t, localSize, numGroup), localSize * (localSize * c))
    ensures Flatten(Flatten(t)) == Flatten(NodeBlocks(t, localSize, numGroup))
    ensures |Flatten(Flatten(t))| == numGroup * (localSize * (localSize * c))
    ensures Sum(Repeat(localSize * (localSize * c), numGroup)) == numGroup * (localSize * (localSize * c))
    ensures Pieces(Flatten(Flatten(t)), Repeat(localSize * (localSize * c), numGroup)) == NodeBlocks(t, localSize, numGroup)
  {
    var d := localSize * (localSize * c);
    var bs := NodeBlocks(t, localSize, numGroup);
    FlattenBlocks(t, localSize, numGroup);
    NodeBlocksShape(t, localSize, numGroup, c);
    FlattenLength(bs, d);
    SumRepeat(d, numGroup);
    PiecesFlatten(bs, Repeat(d, numGroup));
  }

  /** Every block has localSize pieces of localSize * c rows. */
  lemma NodeBlocksShape<T>(t: seq<seq<seq<T>>>, localSize: GroupSize, numGroup: nat, c: nat)
    requires |t| == numGroup * localSize && TupleShape(t, localSize, c)
    ensures AllLength(NodeBlocks(t, localSize, numGroup), localSize * (localSize * c))
  {
    var bs := NodeBlocks(t, localSize, numGroup);
    forall p | 0 <= p < numGroup ensures |bs[p]| == localSize * (localSize * c) {
      BlockChunks(t, localSize, numGroup, c, p);
    }
  }

  /** Leader q's first layout, cut into blocks, on even inputs. */
  lemma GatheredEven<T>(nodes: seq<seq<seq<T>>>, localSize: GroupSize, numGroup: GroupSize, c: nat, q: nat)
    requires Even(nodes, localSize, numGroup, numGroup * localSize * c) && q < numGroup
    ensures localSize * (localSize * c) >= 0
    ensures TuplesShape(NodeTuples(nodes, numGroup * localSize), localSize, numGroup, c)
    ensures var g := Gathered(nodes, numGroup * localSize); var d := localSize * (localSize * c);
      |g[q]| == numGroup * d && Sum(Repeat(d, numGroup)) == numGroup * d &&
      Pieces(g[q], Repeat(d, numGroup)) == NodeBlocks(NodeTuples(nodes, numGroup * localSize)[q], localSize, numGroup)
  {
    var w: GroupSize := numGroup * localSize;
    var ts := NodeTuples(nodes, w);
    NodeTuplesEven(nodes, localSize, numGroup, c);
    assert Gathered(nodes, w)[q] == Flatten(Flatten(ts[q]));
    NodeBlocksEven(ts[q], localSize, numGroup, c);
  }

  /** After the inter-node step, leader p holds its inbox. */
  lemma ExchangedEven<T>(inter: Option<Group>, nodes: seq<seq<seq<T>>>, localSize: GroupSize, c: nat)
    requires Even(nodes, localSize, NumGroup(inter), NumGroup(inter) * localSize * c)
    ensures TuplesShape(NodeTuples(nodes, NumGroup(inter) * localSize), localSize, NumGroup(inter), c)
    ensures var numGroup := NumGroup(inter);
      InterExchange(inter, Gathered(nodes, numGroup * localSize))
      == Ok(seq(numGroup, p requires 0 <= p < numGroup => Inbox(NodeTuples(nodes, numGroup * localSize), localSize, numGroup, p)))
  {
    if inter.Some? {
      ExchangedEvenMulti(inter, nodes, localSize, c);
    } else {
      ExchangedEvenSingle(inter, nodes, localSize, c);
    }
  }

  lemma ExchangedEvenMulti<T>(inter: Option<Group>, nodes: seq<seq<seq<T>>>, localSize: GroupSize, c: nat)
    requires inter.Some? && Even(nodes, localSize, NumGroup(inter), NumGroup(inter) * localSize * c)
    ensures TuplesShape(NodeTuples(nodes, NumGroup(inter) * localSize), localSize, NumGroup(inter), c)
    ensures var numGroup := NumGroup(inter);
      InterExchange(inter, Gathered(nodes, numGroup * localSize))
      == Ok(seq(numGroup, p requires 0 <= p < numGroup => Inbox(NodeTuples(nodes, numGroup * localSize), localSize, numGroup, p)))
  {
    var numGroup := NumGroup(inter);
    var w: GroupSize := numGroup * localSize;
    var ts := NodeTuples(nodes, w);
    NodeTuplesEven(nodes, localSize, numGroup, c);
    var gathered := Gathered(nodes, w);
    var d := localSize * (localSize * c);
    SumRepeat(d, numGroup);
    forall q | 0 <= q < numGroup
      ensures |gathered[q]| == numGroup * d
      ensures Pieces(gathered[q], Repeat(d, numGroup)) == NodeBlocks(ts[q], localSize, numGroup)
    {
      GatheredEven(nodes, localSize, numGroup, c, q);
    }
    InboxesByTransport(gathered, ts, localSize, numGroup, c);
  }

  lemma ExchangedEvenSingle<T>(inter: Option<Group>, nodes: seq<seq<seq<T>>>, localSize: GroupSize, c: nat)
    requires inter.None? && Even(nodes, localSize, NumGroup(inter), NumGroup(inter) * localSize * c)
    ensures TuplesShape(NodeTuples(nodes, NumGroup(inter) * localSize), localSize, NumGroup(inter), c)
    ensures var numGroup := NumGroup(inter);
      InterExchange(inter, Gathered(nodes, numGroup * localSize))
      == Ok(seq(numGroup, p requires 0 <= p < numGroup => Inbox(NodeTuples(nodes, numGroup * localSize), localSize, numGroup, p)))
  {
    assert NumGroup(inter) == 1;
    assert NumGroup(inter) * localSize == localSize;
    OneNodeExchanged(nodes, localSize, c);
  }

  lemma OneNodeExchanged<T>(nodes: seq<seq<seq<T>>>, localSize: GroupSize, c: nat)
    requires Even(nodes, localSize, 1, localSize * c)
    ensures TuplesShape(NodeTuples(nodes, localSize), localSize, 1, c)
    ensures Gathered(nodes, localSize)
      == seq(1, p requires 0 <= p < 1 => Inbox(NodeTuples(nodes, localSize), localSize, 1, p))
  {
    var ts := NodeTuples(nodes, localSize);
    NodeTuplesEven(nodes, localSize, 1, c);
    var gathered := Gathered(nodes, localSize);
    var d := localSize * (localSize * c);
    SumRepeat(d, 1);
    GatheredEven(nodes, localSize, 1, c, 0);
    InboxOfSingleNode(gathered, ts, localSize, c);
  }

  /** With one node, the leader's inbox is its own first layout. */
  lemma InboxOfSingleNode<T>(gathered: seq<seq<T>>, ts: seq<seq<seq<seq<T>>>>, localSize: GroupSize, c: nat)
    requires TuplesShape(ts, localSize, 1, c) && |gathered| == 1
    requires Sum(Repeat(localSize * (localSize * c), 1)) == |gathered[0]|
    requires Pieces(gathered[0], Repeat(localSize * (localSize * c), 1)) == NodeBlocks(ts[0], localSize, 1)
    ensures gathered == seq(1, p requires 0 <= p < 1 => Inbox(ts, localSize, 1, p))
  {
    var d := localSize * (localSize * c);
    assert seq(1, q requires 0 <= q < 1 => Block(ts[q], localSize, 1, 0)) == NodeBlocks(ts[0], localSize, 1);
    FlattenPieces(gathered[0], Repeat(d, 1));
  }

  /** The leaders' all-to-all hands every leader its inbox. */
  lemma InboxesByTransport<T>(gathered: seq<seq<T>>, ts: seq<seq<seq<seq<T>>>>, localSize: GroupSize, numGroup: GroupSize, c: nat)
    requires TuplesShape(ts, localSize, numGroup, c) && |gathered| == numGroup
    requires Sum(Repeat(localSize * (localSize * c), numGroup)) == numGroup * (localSize * (localSize * c))
    requires forall q :: 0 <= q < numGroup ==>
      |gathered[q]| == numGroup * (localSize * (localSize * c)) &&
      Pieces(gathered[q], Repeat(localSize * (localSize * c), numGroup)) == NodeBlocks(ts[q], localSize, numGroup)
    ensures AllToAllSingle(gathered, RowCounts(gathered), Nones(numGroup), Nones(numGroup))
         == Ok(seq(numGroup, p requires 0 <= p < numGroup => Inbox(ts, localSize, numGroup, p)))
  {
    var d := localSize * (localSize * c);
    TransportIsChunkTranspose(gathered, d);
    var ct := ChunkTranspose(gathered, d);
    forall p | 0 <= p < numGroup ensures ct[p] == Inbox(ts, localSize, numGroup, p) {
      assert ChunkColumn(gathered, d, p)
          == seq(numGroup, q requires 0 <= q < numGroup => Block(ts[q], localSize, numGroup, p));
    }
    assert ct == seq(numGroup, p requires 0 <= p < numGroup => Inbox(ts, localSize, numGroup, p));
  }

  /** After the second reordering and the scatter, local rank m of node p
      holds what arrived for it. */
  lemma ScatteredEven<T>(inter: Option<Group>, nodes: seq<seq<seq<T>>>, localSize: GroupSize, c: nat, p: nat)
    requires Even(nodes, localSize, NumGroup(inter), NumGroup(inter) * localSize * c) && p < NumGroup(inter)
    ensures TuplesShape(NodeTuples(nodes, NumGroup(inter) * localSize), localSize, NumGroup(inter), c)
    ensures var numGroup := NumGroup(inter); var ts := NodeTuples(nodes, numGroup * localSize);
      var inboxes := seq(numGroup, p' requires 0 <= p' < numGroup => Inbox(ts, localSize, numGroup, p'));
      Scattered(LaidOut(inter, inboxes, localSize), localSize)[p]
      == seq(localSize, m requires 0 <= m < localSize => Arrived(ts, localSize, numGroup, p, m))
  {
    var numGroup := NumGroup(inter);
    var w: GroupSize := numGroup * localSize;
    var ts := NodeTuples(nodes, w);
    NodeTuplesEven(nodes, localSize, numGroup, c);
    var inboxes := seq(numGroup, p' requires 0 <= p' < numGroup => Inbox(ts, localSize, numGroup, p'));
    var out := seq(localSize, m requires 0 <= m < localSize => Arrived(ts, localSize, numGroup, p, m));
    LaidOutEven(inter, ts, localSize, c, p);
    ArrivedRowsLength(ts, localSize, numGroup, c, p);
    TorchChunkFlatten(out, w * c);
  }

  /** Before the scatter, leader p's layout lists what each of its local
      ranks is to receive, in local-rank order. */
  lemma LaidOutEven<T>(inter: Option<Group>, ts: seq<seq<seq<seq<T>>>>, localSize: GroupSize, c: nat, p: nat)
    requires TuplesShape(ts, localSize, NumGroup(inter), c) && p < NumGroup(inter)
    ensures var numGroup := NumGroup(inter);
      var inboxes := seq(numGroup, p' requires 0 <= p' < numGroup => Inbox(ts, localSize, numGroup, p'));
      LaidOut(inter, inboxes, localSize)[p]
      == Flatten(seq(localSize, m requires 0 <= m < localSize => Arrived(ts, localSize, numGroup, p, m)))
  {
    var numGroup := NumGroup(inter);
    var inboxes := seq(numGroup, p' requires 0 <= p' < numGroup => Inbox(ts, localSize, numGroup, p'));
    if inter.Some? {
      InterLayoutEven(ts, localSize, numGroup, c, inboxes[p], p);
    } else {
      SingleNodeLayout(ts, localSize, c, inboxes[0]);
    }
  }

  /** The pieces the leaders scatter on even inputs. */
  function EvenScattered<T>(inter: Option<Group>, nodes: seq<seq<seq<T>>>, localSize: GroupSize, c: nat): (s: seq<seq<seq<T>>>)
    requires Even(nodes, localSize, NumGroup(inter), NumGroup(inter) * localSize * c)
    ensures |s| == NumGroup(inter)
  {
    var numGroup := NumGroup(inter);
    NodeTuplesEven(nodes, localSize, numGroup, c);
    var ts := NodeTuples(nodes, numGroup * localSize);
    Scattered(LaidOut(inter, seq(numGroup, p requires 0 <= p < numGroup => Inbox(ts, localSize, numGroup, p)), localSize), localSize)
  }

  lemma ScatteredArrived<T>(inter: Option<Group>, nodes: seq<seq<seq<T>>>, localSize: GroupSize, c: nat, p: nat, m: nat)
    requires Even(nodes, localSize, NumGroup(inter), NumGroup(inter) * localSize * c)
    requires p < NumGroup(inter) && m < localSize
    ensures TuplesShape(NodeTuples(nodes, NumGroup(inter) * localSize), localSize, NumGroup(inter), c)
    ensures var s := EvenScattered(inter, nodes, localSize, c);
      |s[p]| == localSize && |s[p][m]| == NumGroup(inter) * localSize * c &&
      s[p][m] == Arrived(NodeTuples(nodes, NumGroup(inter) * localSize), localSize, NumGroup(inter), p, m)
  {
    var numGroup := NumGroup(inter);
    var ts := NodeTuples(nodes, numGroup * localSize);
    var s := EvenScattered(inter, nodes, localSize, c);
    ScatteredEven(inter, nodes, localSize, c, p);
    var row := seq(localSize, m requires 0 <= m < localSize => Arrived(ts, localSize, numGroup, p, m));
    assert s[p] == row;
    assert s[p][m] == Arrived(ts, localSize, numGroup, p, m);
    ArrivedLength(ts, localSize, numGroup, c, p, m);
  }

  /** Local rank m of node p receives world rank p * localSize + m's share of
      the flat all-to-all. */
  lemma ScatteredCell<T>(inter: Option<Group>, nodes: seq<seq<seq<T>>>, localSize: GroupSize, c: nat, p: nat, m: nat)
    requires Even(nodes, localSize, NumGroup(inter), NumGroup(inter) * localSize * c)
    requires p < NumGroup(inter) && m < localSize
    ensures var s := EvenScattered(inter, nodes, localSize, c);
      |s[p]| == localSize && |s[p][m]| == |nodes[p][m]| &&
      s[p][m] == FlatScattered(nodes, localSize, NumGroup(inter), c)[p][m]
  {
    var numGroup := NumGroup(inter);
    ScatteredArrived(inter, nodes, localSize, c, p, m);
    ArrivedIsFlat(nodes, localSize, numGroup, c, p, m);
    PiecesRepeatIndex(ChunkTranspose(Flatten(nodes), c), localSize, numGroup, p, m);
  }

  /** The flat all-to-all's result over the whole world, the chunk transpose,
      cut node by node. */
  function FlatScattered<T>(nodes: seq<seq<seq<T>>>, localSize: GroupSize, numGroup: GroupSize, c: nat): (r: seq<seq<seq<T>>>)
    requires Even(nodes, localSize, numGroup, numGroup * localSize * c)
    ensures |r| == numGroup && forall p :: 0 <= p < numGroup ==> |r[p]| == localSize
  {
    FlattenAllLength(nodes, numGroup * localSize * c);
    FlattenLength(nodes, localSize);
    SumRepeat(localSize, numGroup);
    Pieces(ChunkTranspose(Flatten(nodes), c), Repeat(localSize, numGroup))
  }

  /** On even inputs the scattered pieces fit the output buffers and are the
      flat all-to-all's result cut node by node. */
  lemma ScatteredIsTranspose<T>(inter: Option<Group>, nodes: seq<seq<seq<T>>>, localSize: GroupSize, c: nat)
    requires Even(nodes, localSize, NumGroup(inter), NumGroup(inter) * localSize * c)
    ensures |Flatten(nodes)| == NumGroup(inter) * localSize && Sum(Repeat(localSize, NumGroup(inter))) == |Flatten(nodes)|
    ensures AllLength(Flatten(nodes), NumGroup(inter) * localSize * c)
    ensures var s := EvenScattered(inter, nodes, localSize, c);
      Fits(s, nodes) && FlatScattered(nodes, localSize, NumGroup(inter), c) == s
  {
    var numGroup := NumGroup(inter);
    var s := EvenScattered(inter, nodes, localSize, c);
    FlattenAllLength(nodes, numGroup * localSize * c);
    FlattenLength(nodes, localSize);
    SumRepeat(localSize, numGroup);
    var want := FlatScattered(nodes, localSize, numGroup, c);
    assert |s| == |nodes| == |want|;
    forall p | 0 <= p < |nodes| ensures |s[p]| == |nodes[p]| == |want[p]| {
      ScatteredCell(inter, nodes, localSize, c, p, 0);
    }
    forall p, m | 0 <= p < |nodes| && 0 <= m < |nodes[p]|
      ensures |s[p][m]| == |nodes[p][m]| && s[p][m] == want[p][m]
    {
      ScatteredCell(inter, nodes, localSize, c, p, m);
    }
    CellsEqual(s, want, nodes);
  }

  /** Nested sequences that agree cell by cell, with the cell lengths of
      `nodes`, are equal and fit `nodes`. */
  lemma CellsEqual<T>(s: seq<seq<seq<T>>>, want: seq<seq<seq<T>>>, nodes: seq<seq<seq<T>>>)
    requires |s| == |nodes| == |want|
    requires forall p :: 0 <= p < |nodes| ==> |s[p]| == |nodes[p]| == |want[p]|
    requires forall p, m :: 0 <= p < |nodes| && 0 <= m < |nodes[p]| ==> |s[p][m]| == |nodes[p][m]| && s[p][m] == want[p][m]
    ensures Fits(s, nodes) && s == want
  {
    forall p | 0 <= p < |nodes| ensures s[p] == want[p] {
      assert forall m :: 0 <= m < |nodes[p]| ==> s[p][m] == want[p][m];
    }
  }

  /** On even inputs every stage succeeds. */
  lemma HierarchicalEvenOk<T>(intra: Group, inter: Option<Group>, leaders: seq<int>,
                              nodes: seq<seq<seq<T>>>, c: nat)
    requires |leaders| == NumGroup(inter) && forall q :: 0 <= q < |leaders| ==> 0 <= leaders[q] < intra.size
    requires Even(nodes, intra.size, NumGroup(inter), NumGroup(inter) * intra.size * c)
    ensures HierarchicalAllToAll(intra, inter, leaders, nodes) == Ok(EvenScattered(inter, nodes, intra.size, c))
  {
    var localSize := intra.size;
    var numGroup := NumGroup(inter);
    var w: GroupSize := numGroup * localSize;
    EvenSameRows(nodes, localSize, numGroup, w * c);
    DeliverEven(inter, nodes, localSize, c);
  }

  lemma DeliverEven<T>(inter: Option<Group>, nodes: seq<seq<seq<T>>>, localSize: GroupSize, c: nat)
    requires Even(nodes, localSize, NumGroup(inter), NumGroup(inter) * localSize * c)
    ensures Deliver(inter, localSize, nodes) == Ok(EvenScattered(inter, nodes, localSize, c))
  {
    ExchangedEven(inter, nodes, localSize, c);
    ScatteredIsTranspose(inter, nodes, localSize, c);
  }

  lemma EvenSameRows<T>(nodes: seq<seq<seq<T>>>, localSize: nat, numGroup: nat, n: nat)
    requires Even(nodes, localSize, numGroup, n)
    ensures !exists q :: 0 <= q < numGroup && !SameRows(nodes[q])
  {
    forall q | 0 <= q < numGroup ensures SameRows(nodes[q]) {
      assert AllLength(nodes[q], n);
    }
  }

  /** On inputs of a common row count divisible by the world size, the
      hierarchical all-to-all succeeds and every rank receives what the flat
      all-to-all over the whole world gives it. */
  lemma HierarchicalIsFlatAllToAll<T>(intra: Group, inter: Option<Group>, leaders: seq<int>,
                                      nodes: seq<seq<seq<T>>>, c: nat)
    requires |leaders| == NumGroup(inter) && forall q :: 0 <= q < |leaders| ==> 0 <= leaders[q] < intra.size
    requires Even(nodes, intra.size, NumGroup(inter), NumGroup(inter) * intra.size * c)
    ensures |Flatten(nodes)| == NumGroup(inter) * intra.size
    ensures var h := HierarchicalAllToAll(intra, inter, leaders, nodes);
      h.Ok? && AllToAll(Group(NumGroup(inter) * intra.size), Flatten(nodes)) == Ok(Flatten(h.value))
  {
    var localSize := intra.size;
    var numGroup := NumGroup(inter);
    var w: GroupSize := numGroup * localSize;
    var flat := Flatten(nodes);
    HierarchicalEvenOk(intra, inter, leaders, nodes, c);
    ScatteredIsTranspose(inter, nodes, localSize, c);
    AllToAllIsChunkTranspose(Group(w), flat, c);
    FlattenPieces(ChunkTranspose(flat, c), Repeat(localSize, numGroup));
  }

  /** On even inputs the output is shaped like the input. */
  lemma HierarchicalEvenOutput<T>(intra: Group, inter: Option<Group>, leaders: seq<int>,
                                  nodes: seq<seq<seq<T>>>, c: nat)
    requires |leaders| == NumGroup(inter) && forall q :: 0 <= q < |leaders| ==> 0 <= leaders[q] < intra.size
    requires Even(nodes, intra.size, NumGroup(inter), NumGroup(inter) * intra.size * c)
    ensures var h := HierarchicalAllToAll(intra, inter, leaders, nodes);
      h.Ok? && Even(h.value, intra.size, NumGroup(inter), NumGroup(inter) * intra.size * c)
  {
    HierarchicalEvenOk(intra, inter, leaders, nodes, c);
    ScatteredIsTranspose(inter, nodes, intra.size, c);
    var s := EvenScattered(inter, nodes, intra.size, c);
    FitsEven(s, nodes, intra.size, NumGroup(inter), NumGroup(inter) * intra.size * c);
  }

  /** Sequences shaped like even inputs are even. */
  lemma FitsEven<T>(s: seq<seq<seq<T>>>, nodes: seq<seq<seq<T>>>, localSize: nat, numGroup: nat, n: nat)
    requires Fits(s, nodes) && Even(nodes, localSize, numGroup, n)
    ensures Even(s, localSize, numGroup, n)
  {
    forall q | 0 <= q < numGroup ensures |s[q]| == localSize && AllLength(s[q], n) {
      assert AllLength(nodes[q], n);
    }
  }

  /** The hierarchical all-to-all is an involution on such inputs, which is
      why its backward is the forward applied to the gradient. */
  lemma HierarchicalInvolution<T>(intra: Group, inter: Option<Group>, leaders: seq<int>,
                                  nodes: seq<seq<seq<T>>>, c: nat)
    requires |leaders| == NumGroup(inter) && forall q :: 0 <= q < |leaders| ==> 0 <= leaders[q] < intra.size
    requires Even(nodes, intra.size, NumGroup(inter), NumGroup(inter) * intra.size * c)
    ensures var h := HierarchicalAllToAll(intra, inter, leaders, nodes);
      h.Ok? && HierarchicalAllToAll(intra, inter, leaders, h.value) == Ok(nodes)
  {
    var localSize := intra.size;
    var numGroup := NumGroup(inter);
    var g := Group(numGroup * localSize);
    HierarchicalIsFlatAllToAll(intra, inter, leaders, nodes, c);
    var h := HierarchicalAllToAll(intra, inter, leaders, nodes).value;
    HierarchicalEvenOutput(intra, inter, leaders, nodes, c);
    HierarchicalIsFlatAllToAll(intra, inter, leaders, h, c);
    var h2 := HierarchicalAllToAll(intra, inter, leaders, h).value;
    AllToAllInvolution(g, Flatten(nodes));
    assert Flatten(h2) == Flatten(nodes);
    SumRepeat(localSize, numGroup);
    PiecesFlatten(h2, Repeat(localSize, numGroup));
    PiecesFlatten(nodes, Repeat(localSize, numGroup));
  }

  // ===== Row counts that are not a multiple of the world size =====

  /** Three rows in two chunks: the chunk size is two. */
  lemma ChunkThreeInTwo<T>(a: T, b: T, c: T)
    ensures TorchChunk([a, b, c], 2) == [[a, b], [c]]
  {
    var x := [a, b, c];
    assert (3 + 2 - 1) / 2 == 2;
    assert x[..2] == [a, b] && x[2..] == [c];
    assert SplitBy(x[2..], 2) == [x[2..]];
  }

  /** Six rows in two chunks: the chunk size is three. */
  lemma ChunkSixInTwo<T>(x: seq<T>)
    requires |x| == 6
    ensures TorchChunk(x, 2) == [x[..3], x[3..]]
  {
    assert (6 + 2 - 1) / 2 == 3;
    assert SplitBy(x[3..], 3) == [x[3..]];
  }

  /** The leader's first reordering of two ranks of three rows. */
  lemma IntraTwoRanksThreeRows<T>(a: T, b: T, c: T, d: T, e: T, f: T)
    ensures IntraLayout([[a, b, c], [d, e, f]], 2) == [a, b, d, e, c, f]
  {
    var g := [[a, b, c], [d, e, f]];
    ChunkThreeInTwo(a, b, c);
    ChunkThreeInTwo(d, e, f);
    var cs: seq<seq<seq<T>>> := seq(|g|, l requires 0 <= l < |g| => TorchChunk(g[l], 2));
    assert cs == [[[a, b], [c]], [[d, e], [f]]];
    assert MinLen(cs) == 2;
    var z: seq<seq<seq<T>>> := Zip(cs);
    assert z[0] == [[a, b], [d, e]] && z[1] == [[c], [f]];
    assert z == [[[a, b], [d, e]], [[c], [f]]];
    assert z[1..] == [[[c], [f]]];
    assert Flatten(z) == [[a, b], [d, e], [c], [f]] by {
      assert Flatten(z[1..]) == [[c], [f]] by {
        assert |z[1..][1..]| == 0;
      }
    }
    var fl: seq<seq<T>> := [[a, b], [d, e], [c], [f]];
    assert |fl[1..][1..][1..][1..]| == 0;
    assert Flatten(fl[1..][1..][1..]) == [f];
    assert Flatten(fl[1..][1..]) == [c, f];
    assert Flatten(fl[1..]) == [d, e, c, f];
  }

  /** One node of two ranks with three rows each: `torch.chunk` cuts every
      rank's rows 2 + 1, so the leader's layout interleaves the pieces
      unevenly and each rank's output mixes both ranks' rows. */
  lemma TwoRanksThreeRows<T>(a: T, b: T, c: T, d: T, e: T, f: T)
    ensures HierarchicalAllToAll(Group(2), None, [0], [[[a, b, c], [d, e, f]]]) == Ok([[[a, b, d], [e, c, f]]])
  {
    var nodes := [[[a, b, c], [d, e, f]]];
    var laid := [a, b, d, e, c, f];
    IntraTwoRanksThreeRows(a, b, c, d, e, f);
    assert Gathered(nodes, 2) == [laid];
    ChunkSixInTwo(laid);
    assert laid[..3] == [a, b, d] && laid[3..] == [e, c, f];
    assert Scattered(LaidOut(None, [laid], 2), 2) == [[[a, b, d], [e, c, f]]];
  }

  /** On such a node the backward (the same exchange again) does not restore
      the input, while the flat all-to-all over the same two ranks, and the
      checked exchange, refuse it: three rows do not divide by two. */
  lemma UnevenNotInvolution()
    ensures var nodes := [[[0, 1, 2], [10, 11, 12]]];
      var h := HierarchicalAllToAll(Group(2), None, [0], nodes);
      h == Ok([[[0, 1, 10], [11, 2, 12]]]) &&
      HierarchicalAllToAll(Group(2), None, [0], h.value) == Ok([[[0, 1, 11], [2, 10, 12]]]) &&
      h.value != nodes &&
      AllToAll(Group(2), Flatten(nodes)) == Err(NotDivisible) &&
      HierarchicalAllToAllChecked(Group(2), None, [0], nodes) == Err(NotDivisible)
  {
    TwoRanksThreeRows(0, 1, 2, 10, 11, 12);
    TwoRanksThreeRows(0, 1, 10, 11, 2, 12);
    var xs := [[0, 1, 2], [10, 11, 12]];
    assert Flatten([[[0, 1, 2], [10, 11, 12]]]) == xs;
    assert ResolveSplits(None, 3, 2) == Err(NotDivisible);
    assert RowCounts(xs) == [3, 3];
    assert Nones(2) == [None, None];
  }

  // ===== The exchange with the check the flat all-to-all makes =====

  /** Every rank of every node holds n rows. */
  predicate UniformRows<T>(nodes: seq<seq<seq<T>>>, n: nat)
  {
    forall q :: 0 <= q < |nodes| ==> AllLength(nodes[q], n)
  }

  /** Every node's source rank lies inside its intra-node group. */
  predicate LeadersInGroup(intra: Group, leaders: seq<int>)
  {
    forall q :: 0 <= q < |leaders| ==> 0 <= leaders[q] < intra.size
  }

  /** HierarchicalAllToAll as its backward needs it: the flat all-to-all it
      stands for demands one row count on every rank, a multiple of the world
      size, and this one refuses other inputs before exchanging. */
  function HierarchicalAllToAllChecked<T>(intra: Group, inter: Option<Group>, leaders: seq<int>,
                                          nodes: seq<seq<seq<T>>>): (r: Result<seq<seq<seq<T>>>>)
    requires |nodes| == NumGroup(inter) && |leaders| == NumGroup(inter)
    requires forall q :: 0 <= q < |nodes| ==> |nodes[q]| == intra.size
    ensures r.Ok? ==> Fits(r.value, nodes)
  {
    assert |nodes[0]| == intra.size;
    var n := |nodes[0][0]|;
    if !UniformRows(nodes, n) then Err(ShapeMismatch)
    else if n % (NumGroup(inter) * intra.size) != 0 then Err(NotDivisible)
    else HierarchicalAllToAll(intra, inter, leaders, nodes)
  }

  /** The checked exchange succeeds exactly on valid source ranks and one
      row count that divides by the world size, and then its second
      application gives the input back: the backward restores the input. */
  lemma CheckedInvolution<T>(intra: Group, inter: Option<Group>, leaders: seq<int>, nodes: seq<seq<seq<T>>>)
    requires |nodes| == NumGroup(inter) && |leaders| == NumGroup(inter)
    requires forall q :: 0 <= q < |nodes| ==> |nodes[q]| == intra.size
    ensures var h := HierarchicalAllToAllChecked(intra, inter, leaders, nodes);
      h.Ok? <==> LeadersInGroup(intra, leaders) && UniformRows(nodes, |nodes[0][0]|) &&
                 |nodes[0][0]| % (NumGroup(inter) * intra.size) == 0
    ensures var h := HierarchicalAllToAllChecked(intra, inter, leaders, nodes);
      h.Ok? ==> HierarchicalAllToAllChecked(intra, inter, leaders, h.value) == Ok(nodes)
  {
    var w: GroupSize := NumGroup(inter) * intra.size;
    var n := |nodes[0][0]|;
    if LeadersInGroup(intra, leaders) && UniformRows(nodes, n) && n % w == 0 {
      var c := n / w;
      DivMod(n, w);
      assert Even(nodes, intra.size, NumGroup(inter), NumGroup(inter) * intra.size * c);
      HierarchicalInvolution(intra, inter, leaders, nodes, c);
      HierarchicalEvenOutput(intra, inter, leaders, nodes, c);
      var h := HierarchicalAllToAll(intra, inter, leaders, nodes).value;
      assert |h[0][0]| == n;
      assert UniformRows(h, n);
    } else if !LeadersInGroup(intra, leaders) {
      var q :| 0 <= q < |leaders| && !(0 <= leaders[q] < intra.size);
      assert HierarchicalAllToAll(intra, inter, leaders, nodes) == Err(NotInGroup);
    }
  }

  /** On the evenly divisible inputs the two-level layout is designed for, the
      checked exchange is the exchange as written. */
  lemma CheckedOnEven<T>(intra: Group, inter: Option<Group>, leaders: seq<int>,
                         nodes: seq<seq<seq<T>>>, c: nat)
    requires |leaders| == NumGroup(inter) && LeadersInGroup(intra, leaders)
    requires Even(nodes, intra.size, NumGroup(inter), NumGroup(inter) * intra.size * c)
    ensures HierarchicalAllToAllChecked(intra, inter, leaders, nodes) == HierarchicalAllToAll(intra, inter, leaders, nodes)
  {
    DivExact(NumGroup(inter) * intra.size, c);
    assert |nodes[0][0]| == NumGroup(inter) * intra.size * c;
  }
}
