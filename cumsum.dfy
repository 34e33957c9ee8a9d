/** `moe_cumsum`: the running sum minus one of an integer column, computed by
    the MoE kernel when the row count suits it and kernel use is requested,
    and by `torch.cumsum(inputs, dim=0) - 1` otherwise. */
module Cumsum {
  import opened Base

  /** `torch.cumsum` along the only dimension: entry i is the sum of the
      first i + 1 entries. */
  function RunningSum(s: seq<int>): (r: seq<int>)
    ensures |r| == |s|
    ensures forall i :: 0 <= i < |s| ==> r[i] == Sum(s[..i + 1])
  {
    if |s| == 0 then []
    else
      var rest := RunningSum(s[..|s| - 1]);
      forall i | 0 <= i < |s| - 1 ensures rest[i] == Sum(s[..i + 1]) {
        assert s[..|s| - 1][..i + 1] == s[..i + 1];
      }
      SumPrefixStep(s, |s| - 1);
      assert s[..|s|] == s;
      rest + [Sum(s)]
  }

  /** The fallback `torch.cumsum(inputs, dim=0) - 1`. */
  function CumsumSubOne(s: seq<int>): (r: seq<int>)
    ensures |r| == |s|
    ensures forall i :: 0 <= i < |s| ==> r[i] == Sum(s[..i + 1]) - 1
  {
    var c := RunningSum(s);
    seq(|s|, i requires 0 <= i < |s| => c[i] - 1)
  }

  /** The first entry is one less than the first input, and each later
      entry exceeds the one before it by the input at its position. */
  lemma CumsumSubOneSteps(s: seq<int>)
    ensures |s| > 0 ==> CumsumSubOne(s)[0] == s[0] - 1
    ensures forall i :: 0 < i < |s| ==> CumsumSubOne(s)[i] - CumsumSubOne(s)[i - 1] == s[i]
  {
    var r := CumsumSubOne(s);
    if |s| > 0 {
      assert s[..1] == [s[0]] && s[..1][1..] == [];
      assert Sum(s[..1]) == s[0];
    }
    forall i | 0 < i < |s| ensures r[i] - r[i - 1] == s[i] {
      assert r[i - 1] == Sum(s[..i]) - 1;
      SumPrefixStep(s, i);
    }
  }

  /** On non-negative inputs (token counts) the result never decreases and
      is never below -1. */
  lemma CumsumSubOneMonotone(s: seq<int>)
    requires forall i :: 0 <= i < |s| ==> s[i] >= 0
    ensures forall i, j :: 0 <= i <= j < |s| ==> -1 <= CumsumSubOne(s)[i] <= CumsumSubOne(s)[j]
  {
    var r := CumsumSubOne(s);
    CumsumSubOneSteps(s);
    forall i, j | 0 <= i <= j < |s| ensures -1 <= r[i] <= r[j] {
      MonotoneBetween(s, r, i, j);
    }
  }

  lemma {:induction false} MonotoneBetween(s: seq<int>, r: seq<int>, i: nat, j: nat)
    requires |r| == |s| && i <= j < |s|
    requires forall k :: 0 <= k < |s| ==> s[k] >= 0
    requires r[0] == s[0] - 1 && forall k :: 0 < k < |s| ==> r[k] - r[k - 1] == s[k]
    ensures -1 <= r[i] <= r[j]
    decreases j
  {
    if j > i {
      MonotoneBetween(s, r, i, j - 1);
    } else if i > 0 {
      MonotoneBetween(s, r, i - 1, i - 1);
    }
  }

  /** The row counts for which the kernel is used. */
  predicate KernelEligible(dim0: nat)
  {
    dim0 <= 1024 || (dim0 <= 2048 && dim0 % 2 == 0) || dim0 % 4 == 0
  }

  /** Exactly the odd row counts above 1024 and the even non-multiples of
      four above 2048 are refused the kernel. */
  lemma KernelIneligible(dim0: nat)
    ensures !KernelEligible(dim0) <==> (dim0 > 1024 && dim0 % 2 == 1) || (dim0 > 2048 && dim0 % 4 == 2)
  {
    if dim0 % 4 == 2 || dim0 % 4 == 0 {
      assert dim0 % 2 == 0 by { DivMod(dim0, 4); DivMod(dim0, 2); ParityOfQuarter(dim0); }
    } else {
      assert dim0 % 2 == 1 by { DivMod(dim0, 4); DivMod(dim0, 2); ParityOfQuarter(dim0); }
    }
  }

  lemma ParityOfQuarter(n: nat)
    ensures n % 2 == (n % 4) % 2
  {
    DivMod(n, 4);
    var q := n / 4;
    DivUnique(n, 2, 2 * q + (n % 4) / 2, (n % 4) % 2);
  }

  /** `moe_cumsum(inputs, use_kernel)`. The kernel is not part of this model
      and is a parameter. */
  function MoeCumsum(inputs: seq<int>, useKernel: bool, kernel: seq<int> -> seq<int>): (r: seq<int>)
    ensures !(useKernel && KernelEligible(|inputs|)) ==> r == CumsumSubOne(inputs)
    ensures useKernel && KernelEligible(|inputs|) ==> r == kernel(inputs)
  {
    var flag := KernelEligible(|inputs|);
    if flag && useKernel then kernel(inputs) else CumsumSubOne(inputs)
  }

  /** A kernel that computes the running sum minus one makes the choice of
      path invisible. */
  lemma MoeCumsumPathIrrelevant(inputs: seq<int>, useKernel: bool, kernel: seq<int> -> seq<int>)
    requires kernel(inputs) == CumsumSubOne(inputs)
    ensures |MoeCumsum(inputs, useKernel, kernel)| == |inputs|
    ensures forall i :: 0 <= i < |inputs| ==> MoeCumsum(inputs, useKernel, kernel)[i] == Sum(inputs[..i + 1]) - 1
  {
  }
}
