/** Tensors viewed along dimension 0 as sequences of opaque rows, and the
    torch layout operations the collectives use on them: `torch.cat`
    (concatenation), `torch.chunk`, `torch.narrow`, Python's `zip(*lists)` and
    `sum(tuples, ())`. */
module Rows {
  import opened Base

  /** Concatenation in order: `torch.cat` of a list of tensors along dim 0, and
      equally `sum(tuples, ())` flattening a list of tuples. */
  function Flatten<T>(xss: seq<seq<T>>): seq<T>
  {
    if |xss| == 0 then [] else xss[0] + Flatten(xss[1..])
  }

  /** The consecutive pieces of `x` whose lengths are `s`, the way a split-size
      list cuts a buffer. */
  function Pieces<T>(x: seq<T>, s: seq<nat>): (r: seq<seq<T>>)
    requires Sum(s) == |x|
    ensures |r| == |s|
    ensures forall i :: 0 <= i < |s| ==> |r[i]| == s[i]
  {
    if |s| == 0 then []
    else
      SumNonneg(s[1..]);
      [x[..s[0]]] + Pieces(x[s[0]..], s[1..])
  }

  /** `tensor.split(size)` for a non-empty tensor: pieces of `size` rows, the
      last one possibly shorter. */
  function SplitBy<T>(x: seq<T>, size: nat): (r: seq<seq<T>>)
    requires size > 0
    ensures |r| > 0
    decreases |x|
  {
    if |x| <= size then [x] else [x[..size]] + SplitBy(x[size..], size)
  }

  /** `torch.chunk(x, chunks, dim=0)`: split size ceil(n / chunks); a tensor
      with no rows gives `chunks` empty pieces. */
  function TorchChunk<T>(x: seq<T>, chunks: GroupSize): (r: seq<seq<T>>)
    ensures |r| > 0
  {
    var n := |x|;
    var size := (n + chunks - 1) / chunks;
    if n == 0 then seq(chunks, _ => []) else SplitBy(x, size)
  }

  /** `torch.narrow(x, 0, start, length)`. */
  function Narrow<T>(x: seq<T>, start: nat, length: nat): (r: seq<T>)
    requires start + length <= |x|
    ensures |r| == length && forall i :: 0 <= i < length ==> r[i] == x[start + i]
  {
    x[start..start + length]
  }

  /** The length of the shortest list, which is how far `zip` runs. */
  function MinLen<T>(lists: seq<seq<T>>): (m: nat)
    requires |lists| > 0
    ensures forall l :: 0 <= l < |lists| ==> m <= |lists[l]|
    ensures exists l :: 0 <= l < |lists| && m == |lists[l]|
  {
    if |lists| == 1 then |lists[0]|
    else
      var rest := MinLen(lists[1..]);
      assert forall l :: 1 <= l < |lists| ==> lists[l] == lists[1..][l - 1];
      if |lists[0]| <= rest then |lists[0]| else rest
  }

  /** `list(zip(*lists))`: tuple j holds element j of every list, in order,
      for as many j as the shortest list allows. */
  function Zip<T>(lists: seq<seq<T>>): (r: seq<seq<T>>)
    requires |lists| > 0
    ensures |r| == MinLen(lists)
    ensures forall j :: 0 <= j < |r| ==> |r[j]| == |lists|
  {
    seq(MinLen(lists), j requires 0 <= j < MinLen(lists) => seq(|lists|, l requires 0 <= l < |lists| => lists[l][j]))
  }

  predicate AllLength<T>(xss: seq<seq<T>>, m: nat)
  {
    forall i :: 0 <= i < |xss| ==> |xss[i]| == m
  }

  // ----- Flatten -----

  lemma {:induction false} FlattenAppend<T>(a: seq<seq<T>>, b: seq<seq<T>>)
    ensures Flatten(a + b) == Flatten(a) + Flatten(b)
  {
    if |a| > 0 {
      assert (a + b)[1..] == a[1..] + b;
      FlattenAppend(a[1..], b);
    } else {
      assert a + b == b;
    }
  }

  lemma {:induction false} FlattenLength<T>(xss: seq<seq<T>>, m: nat)
    requires AllLength(xss, m)
    ensures |Flatten(xss)| == |xss| * m
  {
    if |xss| > 0 {
      FlattenLength(xss[1..], m);
    }
  }

  lemma FlattenSingle<T>(x: seq<T>)
    ensures Flatten([x]) == x
  {
    assert [x][1..] == [];
  }

  /** Flattening twice is flattening each group, then the groups. */
  lemma {:induction false} FlattenAssoc<T>(s: seq<seq<seq<T>>>)
    ensures Flatten(Flatten(s)) == Flatten(seq(|s|, i requires 0 <= i < |s| => Flatten(s[i])))
  {
    var m := seq(|s|, i requires 0 <= i < |s| => Flatten(s[i]));
    if |s| > 0 {
      FlattenAppend(s[0], Flatten(s[1..]));
      FlattenAssoc(s[1..]);
      assert m[1..] == seq(|s[1..]|, i requires 0 <= i < |s[1..]| => Flatten(s[1..][i]));
    }
  }

  // ----- Pieces -----

  /** Cutting into pieces and concatenating each piece's parts gives the
      whole concatenation. */
  lemma FlattenByPieces<T>(parts: seq<seq<T>>, col: seq<seq<T>>, s: seq<nat>)
    requires Sum(s) == |col| && |parts| == |s|
    requires forall q :: 0 <= q < |s| ==> parts[q] == Flatten(Pieces(col, s)[q])
    ensures Flatten(parts) == Flatten(col)
  {
    var cols := Pieces(col, s);
    FlattenPieces(col, s);
    FlattenAssoc(cols);
    assert seq(|cols|, q requires 0 <= q < |cols| => Flatten(cols[q])) == parts;
  }

  /** Cutting into pieces and concatenating them again gives the buffer back. */
  lemma {:induction false} FlattenPieces<T>(x: seq<T>, s: seq<nat>)
    requires Sum(s) == |x|
    ensures Flatten(Pieces(x, s)) == x
  {
    if |s| > 0 {
      SumNonneg(s[1..]);
      FlattenPieces(x[s[0]..], s[1..]);
      assert Pieces(x, s)[1..] == Pieces(x[s[0]..], s[1..]);
    }
  }

  /** Concatenating pieces of the given lengths and cutting again gives the
      pieces back. */
  lemma {:induction false} PiecesFlatten<T>(r: seq<seq<T>>, s: seq<nat>)
    requires |r| == |s| && forall i :: 0 <= i < |s| ==> |r[i]| == s[i]
    ensures Sum(s) == |Flatten(r)| && Pieces(Flatten(r), s) == r
  {
    if |s| > 0 {
      PiecesFlatten(r[1..], s[1..]);
      assert Flatten(r)[..s[0]] == r[0];
      assert Flatten(r)[s[0]..] == Flatten(r[1..]);
    }
  }

  /** Piece p of an even division into groups of `m`. */
  lemma {:induction false} PiecesRepeatIndex<T>(x: seq<T>, m: nat, k: nat, p: nat, i: nat)
    requires |x| == k * m && p < k && i < m
    ensures Sum(Repeat(m, k)) == |x|
    ensures p * m + i < |x| && Pieces(x, Repeat(m, k))[p][i] == x[p * m + i]
  {
    SumRepeat(m, k);
    var s := Repeat(m, k);
    PiecesIndex(x, s, p, i);
    assert s[..p] == Repeat(m, p);
    SumRepeat(m, p);
    assert Offset(s, p) == p * m;
  }

  /** The rows of the first p pieces. */
  function Offset(s: seq<nat>, p: nat): nat
    requires p <= |s|
  {
    SumNonneg(s[..p]);
    Sum(s[..p])
  }

  /** Row i of piece p sits after the rows of the pieces before it. */
  lemma {:induction false} PiecesIndex<T>(x: seq<T>, s: seq<nat>, p: nat, i: nat)
    requires Sum(s) == |x| && p < |s| && i < s[p]
    ensures Offset(s, p) + i < |x| && Pieces(x, s)[p][i] == x[Offset(s, p) + i]
  {
    SumNonneg(s[1..]);
    if p == 0 {
      assert s[..0] == [];
    } else {
      var rest, t := x[s[0]..], s[1..];
      PiecesIndex(rest, t, p - 1, i);
      assert s[..p][1..] == t[..p - 1];
      assert Offset(s, p) == s[0] + Offset(t, p - 1);
      assert Pieces(x, s)[p] == Pieces(rest, t)[p - 1];
    }
  }

  lemma MulPred(k: int, m: int)
    ensures (k - 1) * m == k * m - m
  {
  }

  // ----- torch.chunk on evenly divisible tensors -----

  lemma {:induction false} SplitByEven<T>(x: seq<T>, k: nat, s: nat)
    requires k >= 1 && s >= 1 && |x| == k * s
    ensures Sum(Repeat(s, k)) == |x| && SplitBy(x, s) == Pieces(x, Repeat(s, k))
  {
    SumRepeat(s, k);
    assert Repeat(s, k)[1..] == Repeat(s, k - 1);
    if k == 1 {
      assert x[..s] == x && x[s..] == [];
      assert Pieces(x, Repeat(s, k)) == [x[..s]] + Pieces(x[s..], []);
    } else {
      MulPred(k, s);
      MulLe(2, k, s);
      SplitByEven(x[s..], k - 1, s);
    }
  }

  /** A tensor of k*s rows chunks into k pieces of s rows. */
  lemma TorchChunkEven<T>(x: seq<T>, k: GroupSize, s: nat)
    requires |x| == k * s
    ensures Sum(Repeat(s, k)) == |x| && TorchChunk(x, k) == Pieces(x, Repeat(s, k))
  {
    SumRepeat(s, k);
    if s == 0 {
      assert |x| == 0;
      PiecesOfNothing(x, k);
    } else {
      DivUnique(|x| + k - 1, k, s, k - 1);
      SplitByEven(x, k, s);
    }
  }

  /** Cutting a tensor with no rows into k pieces of no rows. */
  lemma PiecesOfNothing<T>(x: seq<T>, k: nat)
    requires |x| == 0
    ensures Sum(Repeat(0, k)) == 0 && Pieces(x, Repeat(0, k)) == seq(k, _ => x)
  {
    SumRepeat(0, k);
    var ps := Pieces(x, Repeat(0, k));
    assert forall i :: 0 <= i < k ==> ps[i] == x;
  }

  /** Chunking a concatenation of k equal-length tensors gives them back. */
  lemma TorchChunkFlatten<T>(r: seq<seq<T>>, s: nat)
    requires |r| >= 1 && AllLength(r, s)
    ensures |Flatten(r)| == |r| * s && TorchChunk(Flatten(r), |r|) == r
  {
    FlattenLength(r, s);
    TorchChunkEven(Flatten(r), |r|, s);
    PiecesFlatten(r, Repeat(s, |r|));
  }
}
