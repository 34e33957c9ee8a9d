/** The gradient scalers of the MoE stage. Their forwards pass the input
    through; their backwards rescale the gradient by the expert-parallel size
    (`EPGradScalerIn/Out`) or by the ratio of activated experts to the
    data-parallel size (`DPGradScalerIn/Out`). Gradients are sequences of
    reals, so the rescalings are exact. */
module GradScalers {
  import opened Base

  /** Every entry multiplied by f. */
  function Scaled(grad: seq<real>, f: real): (r: seq<real>)
    ensures |r| == |grad| && forall i :: 0 <= i < |grad| ==> r[i] == grad[i] * f
  {
    seq(|grad|, i requires 0 <= i < |grad| => grad[i] * f)
  }

  // ===== Expert parallelism: a new tensor is built =====

  /** EPGradScalerIn.backward: skipped for one expert-parallel rank, since
      multiplying by one changes nothing. */
  function EpScaleIn(grad: seq<real>, epSize: GroupSize): (r: seq<real>)
    ensures |r| == |grad| && forall i :: 0 <= i < |grad| ==> r[i] == grad[i] * epSize as real
  {
    if epSize != 1 then Scaled(grad, epSize as real) else grad
  }

  /** EPGradScalerOut.backward: division by the expert-parallel size,
      skipped for one rank. */
  function EpScaleOut(grad: seq<real>, epSize: GroupSize): (r: seq<real>)
    ensures |r| == |grad| && forall i :: 0 <= i < |grad| ==> r[i] * epSize as real == grad[i]
  {
    if epSize != 1 then seq(|grad|, i requires 0 <= i < |grad| => grad[i] / epSize as real) else grad
  }

  /** With equal expert-parallel sizes, the two backwards undo each other in
      either order. */
  lemma EpScalersInverse(grad: seq<real>, epSize: GroupSize)
    ensures EpScaleOut(EpScaleIn(grad, epSize), epSize) == grad
    ensures EpScaleIn(EpScaleOut(grad, epSize), epSize) == grad
  {
    var e := epSize as real;
    var a := EpScaleOut(EpScaleIn(grad, epSize), epSize);
    forall i | 0 <= i < |grad| ensures a[i] == grad[i] {
      CancelMul(a[i], grad[i], e);
    }
  }

  /** x * e == y * e with e non-zero means x == y. */
  lemma CancelMul(x: real, y: real, e: real)
    requires e != 0.0 && x * e == y * e
    ensures x == y
  {
    assert (x - y) * e == 0.0;
  }

  // ===== Data parallelism: the gradient buffer is scaled in place =====

  /** The factor DPGradScalerIn.backward applies: activated / dp. */
  function DpInFactor(moeDpSize: GroupSize, activatedExperts: nat): (f: real)
    ensures f * moeDpSize as real == activatedExperts as real
  {
    activatedExperts as real / moeDpSize as real
  }

  /** The factor DPGradScalerOut.backward applies: dp / activated, which the
      forward's assertion keeps well defined. */
  function DpOutFactor(moeDpSize: GroupSize, activatedExperts: nat): (f: real)
    requires activatedExperts != 0
    ensures f * activatedExperts as real == moeDpSize as real
  {
    moeDpSize as real / activatedExperts as real
  }

  /** The gradient DPGradScalerIn.backward leaves in the buffer; nothing is
      done when the sizes agree, as the factor would then be one. */
  function DpScaleIn(grad: seq<real>, moeDpSize: GroupSize, activatedExperts: nat): (r: seq<real>)
    ensures |r| == |grad|
    ensures forall i :: 0 <= i < |grad| ==> r[i] * moeDpSize as real == grad[i] * activatedExperts as real
  {
    var d := moeDpSize as real;
    var a := activatedExperts as real;
    var r := if moeDpSize != activatedExperts then Scaled(grad, DpInFactor(moeDpSize, activatedExperts)) else grad;
    assert forall i :: 0 <= i < |grad| ==> r[i] * d == grad[i] * a by {
      forall i | 0 <= i < |grad| ensures r[i] * d == grad[i] * a {
        if moeDpSize != activatedExperts {
          MulAssocReal(grad[i], DpInFactor(moeDpSize, activatedExperts), d);
        }
      }
    }
    r
  }

  /** The gradient DPGradScalerOut.backward leaves in the buffer. */
  function DpScaleOut(grad: seq<real>, moeDpSize: GroupSize, activatedExperts: nat): (r: seq<real>)
    requires activatedExperts != 0
    ensures |r| == |grad|
    ensures forall i :: 0 <= i < |grad| ==> r[i] * activatedExperts as real == grad[i] * moeDpSize as real
  {
    var d := moeDpSize as real;
    var a := activatedExperts as real;
    var r := if moeDpSize != activatedExperts then Scaled(grad, DpOutFactor(moeDpSize, activatedExperts)) else grad;
    assert forall i :: 0 <= i < |grad| ==> r[i] * a == grad[i] * d by {
      forall i | 0 <= i < |grad| ensures r[i] * a == grad[i] * d {
        if moeDpSize != activatedExperts {
          MulAssocReal(grad[i], DpOutFactor(moeDpSize, activatedExperts), a);
        }
      }
    }
    r
  }

  lemma MulAssocReal(x: real, y: real, z: real)
    ensures (x * y) * z == x * (y * z)
  {
  }

  /** With equal sizes and at least one activated expert, the two
      data-parallel backwards undo each other in either order. */
  lemma DpScalersInverse(grad: seq<real>, moeDpSize: GroupSize, activatedExperts: nat)
    requires activatedExperts != 0
    ensures DpScaleOut(DpScaleIn(grad, moeDpSize, activatedExperts), moeDpSize, activatedExperts) == grad
    ensures DpScaleIn(DpScaleOut(grad, moeDpSize, activatedExperts), moeDpSize, activatedExperts) == grad
  {
    var d := moeDpSize as real;
    var a := activatedExperts as real;
    var u := DpScaleIn(grad, moeDpSize, activatedExperts);
    var b := DpScaleOut(u, moeDpSize, activatedExperts);
    forall i | 0 <= i < |grad| ensures b[i] == grad[i] {
      // b[i] * a == u[i] * d == grad[i] * a
      CancelMul(b[i], grad[i], a);
    }
    var v := DpScaleOut(grad, moeDpSize, activatedExperts);
    var c := DpScaleIn(v, moeDpSize, activatedExperts);
    forall i | 0 <= i < |grad| ensures c[i] == grad[i] {
      // c[i] * d == v[i] * a == grad[i] * d
      CancelMul(c[i], grad[i], d);
    }
  }

  /** `grad.mul_(f)`: the buffer scaled in place, entry by entry. */
  method MulInPlace(grad: array<real>, f: real)
    modifies grad
    ensures grad[..] == Scaled(old(grad[..]), f)
  {
    var i := 0;
    while i < grad.Length
      invariant 0 <= i <= grad.Length
      invariant forall k :: 0 <= k < i ==> grad[k] == old(grad[k]) * f
      invariant forall k :: i <= k < grad.Length ==> grad[k] == old(grad[k])
    {
      grad[i] := grad[i] * f;
      i := i + 1;
    }
    assert forall k :: 0 <= k < grad.Length ==> grad[..][k] == Scaled(old(grad[..]), f)[k];
  }

  /** DPGradScalerIn.backward on the gradient buffer. */
  method DpBackwardIn(grad: array<real>, moeDpSize: GroupSize, activatedExperts: nat)
    modifies grad
    ensures grad[..] == DpScaleIn(old(grad[..]), moeDpSize, activatedExperts)
  {
    if moeDpSize != activatedExperts {
      MulInPlace(grad, DpInFactor(moeDpSize, activatedExperts));
    }
  }

  /** DPGradScalerOut.backward on the gradient buffer. */
  method DpBackwardOut(grad: array<real>, moeDpSize: GroupSize, activatedExperts: nat)
    requires activatedExperts != 0
    modifies grad
    ensures grad[..] == DpScaleOut(old(grad[..]), moeDpSize, activatedExperts)
  {
    if moeDpSize != activatedExperts {
      MulInPlace(grad, DpOutFactor(moeDpSize, activatedExperts));
    }
  }
}
