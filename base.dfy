/** Shared vocabulary of the model: optional values, the errors a collective
    call can raise, process-group sizes, and integer sums. */
module Base {

  datatype Option<T> = None | Some(value: T)

  /** The ways a call fails. Each is raised by the transport or by an
      assertion of the operation layer; none is recovered from. */
  datatype CommError =
    | NotDivisible        // dim 0 does not split evenly across the group
    | SplitCountMismatch  // a split-size list does not have one entry per rank
    | SplitSumMismatch    // a split-size list does not add up to dim 0 of its buffer
    | SplitsDisagree      // a rank expects a different number of rows than its peer sends
    | ShapeMismatch       // a buffer does not have the shape the transport expects
    | NotInGroup          // the designated source rank is not a member of the group
    | NoActivatedExperts  // a data-parallel scaler was called with activated_experts == 0
    | GradNotRequired     // the deadlock-avoidance assertion on requires_grad failed
    | MissingArgument     // a function was applied with too few arguments

  datatype Result<T> = Ok(value: T) | Err(error: CommError) {
    predicate IsFailure() { Err? }
    function PropagateFailure<U>(): Result<U> requires Err? { Err(error) }
    function Extract(): T requires Ok? { value }
  }

  /** The number of ranks of a process group: never zero. */
  type GroupSize = n: int | 1 <= n witness 1

  /** A communication group, known to the model by its size. Rank i of the
      group is index i of every global state over it. */
  datatype Group = Group(size: GroupSize)

  function Sum(s: seq<int>): int
  {
    if |s| == 0 then 0 else s[0] + Sum(s[1..])
  }

  /** A sum of non-negative numbers is non-negative. */
  lemma {:induction false} SumNonneg(s: seq<int>)
    requires forall i :: 0 <= i < |s| ==> s[i] >= 0
    ensures Sum(s) >= 0
  {
    if |s| > 0 {
      SumNonneg(s[1..]);
    }
  }

  /** A sum of zeros is zero. */
  lemma {:induction false} SumZero(s: seq<int>)
    requires forall i :: 0 <= i < |s| ==> s[i] == 0
    ensures Sum(s) == 0
  {
    if |s| > 0 {
      SumZero(s[1..]);
    }
  }

  lemma {:induction false} SumAppend(a: seq<int>, b: seq<int>)
    ensures Sum(a + b) == Sum(a) + Sum(b)
  {
    if |a| == 0 {
      assert a + b == b;
    } else {
      assert (a + b)[1..] == a[1..] + b;
      SumAppend(a[1..], b);
    }
  }

  /** Adding one more element at the end of a prefix. */
  lemma SumPrefixStep(s: seq<int>, i: nat)
    requires i < |s|
    ensures Sum(s[..i + 1]) == Sum(s[..i]) + s[i]
  {
    assert s[..i + 1] == s[..i] + [s[i]];
    SumAppend(s[..i], [s[i]]);
  }

  /** Sums of two sequences that agree pointwise up to an added pair. */
  lemma {:induction false} SumPointwiseAdd(a: seq<int>, b: seq<int>, c: seq<int>)
    requires |a| == |b| == |c|
    requires forall i :: 0 <= i < |a| ==> c[i] == a[i] + b[i]
    ensures Sum(c) == Sum(a) + Sum(b)
  {
    if |a| > 0 {
      SumPointwiseAdd(a[1..], b[1..], c[1..]);
    }
  }

  /** k copies of c: the split list of an even division. */
  function Repeat(c: nat, k: nat): (r: seq<nat>)
    ensures |r| == k && forall i :: 0 <= i < k ==> r[i] == c
  {
    seq(k, _ => c)
  }

  lemma {:induction false} SumRepeat(c: nat, k: nat)
    ensures Sum(Repeat(c, k)) == k * c
  {
    if k > 0 {
      assert Repeat(c, k)[1..] == Repeat(c, k - 1);
      SumRepeat(c, k - 1);
      assert (k - 1) * c + c == k * c;
    }
  }

  // ----- arithmetic helpers -----

  lemma MulLe(a: nat, b: nat, c: nat)
    requires a <= b
    ensures a * c <= b * c
  {
  }

  /** Euclidean division is determined by quotient and remainder. */
  lemma DivUnique(a: int, b: int, q: int, r: int)
    requires b > 0 && 0 <= r < b && a == q * b + r
    ensures a / b == q && a % b == r
  {
    var q', r' := a / b, a % b;
    assert a == q' * b + r';
    assert (q - q') * b == r' - r;
    if q > q' {
      MulLe(1, q - q', b);
    } else if q < q' {
      MulLe(1, q' - q, b);
    }
  }

  lemma DivMod(a: int, b: int)
    requires b > 0
    ensures a == b * (a / b) + a % b
  {
  }

  lemma DivExact(k: int, s: int)
    requires k > 0 && s >= 0
    ensures (k * s) / k == s && (k * s) % k == 0
  {
    DivUnique(k * s, k, s, 0);
  }
}
