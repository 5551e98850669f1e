/** Small shared vocabulary: optional values, results, and the "is a subsequence of" relation
    that every order-preserving filter in the dashboard satisfies. */
module Base {

  datatype Option<+T> = None | Some(value: T) {
    /** The JavaScript idiom `x || default` for a value that is present or undefined. */
    function GetOr(default: T): T {
      if Some? then value else default
    }
  }

  datatype Result<+T, +E> = Ok(value: T) | Err(error: E)

  /** `a` is obtained from `b` by deleting elements, keeping the order of those that remain.
      Stated by matching last elements greedily, which fits functions that grow their result
      at the end, the way `Array.prototype.push` and `filter` do. */
  predicate IsSubsequence<T(==)>(a: seq<T>, b: seq<T>)
    decreases |b|
  {
    if a == [] then true
    else if b == [] then false
    else if a[|a| - 1] == b[|b| - 1] then IsSubsequence(a[..|a| - 1], b[..|b| - 1])
    else IsSubsequence(a, b[..|b| - 1])
  }

  /** Appending the same element to both sides keeps the relation. */
  lemma {:induction false} SubsequenceExtendBoth<T>(a: seq<T>, b: seq<T>, x: T)
    requires IsSubsequence(a, b)
    ensures IsSubsequence(a + [x], b + [x])
  {
    assert (a + [x])[..|a|] == a;
    assert (b + [x])[..|b|] == b;
  }

  /** Appending to the larger side only keeps the relation. */
  lemma {:induction false} SubsequenceExtendRight<T>(a: seq<T>, b: seq<T>, x: T)
    requires IsSubsequence(a, b)
    ensures IsSubsequence(a, b + [x])
    decreases |b|, 1
  {
    assert (b + [x])[..|b|] == b;
    if a != [] && a[|a| - 1] == x {
      SubsequenceDropLast(a, b);
    }
  }

  /** Dropping the last element of the smaller side keeps the relation. */
  lemma {:induction false} SubsequenceDropLast<T>(a: seq<T>, b: seq<T>)
    requires a != [] && IsSubsequence(a, b)
    ensures IsSubsequence(a[..|a| - 1], b)
    decreases |b|, 0
  {
    var a', b' := a[..|a| - 1], b[..|b| - 1];
    if a[|a| - 1] == b[|b| - 1] {
      if a' != [] {
        assert b == b' + [b[|b| - 1]];
        SubsequenceExtendRight(a', b', b[|b| - 1]);
      }
    } else {
      SubsequenceDropLast(a, b');
      assert b == b' + [b[|b| - 1]];
      SubsequenceExtendRight(a', b', b[|b| - 1]);
    }
  }

  /** Every element of a subsequence is an element of the sequence it was taken from. */
  lemma {:induction false} SubsequenceElements<T>(a: seq<T>, b: seq<T>)
    requires IsSubsequence(a, b)
    ensures forall x :: x in a ==> x in b
    decreases |b|
  {
    if a != [] {
      var b' := b[..|b| - 1];
      if a[|a| - 1] == b[|b| - 1] {
        SubsequenceElements(a[..|a| - 1], b');
        assert a == a[..|a| - 1] + [a[|a| - 1]];
        assert b == b' + [b[|b| - 1]];
      } else {
        SubsequenceElements(a, b');
        assert b == b' + [b[|b| - 1]];
      }
    }
  }

  /** `Array.prototype.find`, by position: the first element at or after `from` that satisfies
      `p`. */
  function FindIndex<T>(s: seq<T>, p: T -> bool, from: nat := 0): Option<nat>
    requires from <= |s|
    decreases |s| - from
  {
    if from == |s| then None
    else if p(s[from]) then Some(from)
    else FindIndex(s, p, from + 1)
  }

  /** The search finds nothing exactly when no element satisfies `p`, and otherwise it finds
      the first element that does. */
  lemma {:induction false} FindIndexSpec<T>(s: seq<T>, p: T -> bool, from: nat)
    requires from <= |s|
    ensures FindIndex(s, p, from).None? <==> forall k :: from <= k < |s| ==> !p(s[k])
    ensures FindIndex(s, p, from).Some? ==>
      var r := FindIndex(s, p, from).value;
      && from <= r < |s| && p(s[r])
      && forall k :: from <= k < r ==> !p(s[k])
    decreases |s| - from
  {
    if from < |s| && !p(s[from]) {
      FindIndexSpec(s, p, from + 1);
    }
  }

  /** The values `f(i)` of the positions `i < n` that satisfy `p`, in increasing order: the
      shape of an output that a loop over positions grows with `push`. */
  function Pick<T>(n: nat, p: nat -> bool, f: nat -> T): seq<T> {
    if n == 0 then [] else Pick(n - 1, p, f) + (if p(n - 1) then [f(n - 1)] else [])
  }

  /** What was picked is exactly the positions that satisfy `p`: `idx` gives, in increasing
      order, the position of each picked value, and every such position below `n` is among them. */
  lemma {:induction false} PickIndices<T>(n: nat, p: nat -> bool, f: nat -> T) returns (idx: seq<nat>)
    ensures |idx| == |Pick(n, p, f)|
    ensures forall k :: 0 <= k < |idx| ==> idx[k] < n && p(idx[k]) && Pick(n, p, f)[k] == f(idx[k])
    ensures forall a, b :: 0 <= a < b < |idx| ==> idx[a] < idx[b]
    ensures forall i :: 0 <= i < n && p(i) ==> i in idx
  {
    if n == 0 {
      idx := [];
    } else {
      var prev := PickIndices(n - 1, p, f);
      idx := if p(n - 1) then prev + [n - 1] else prev;
      forall i | 0 <= i < n && p(i) ensures i in idx {
        if i < n - 1 {
          assert i in prev;
        }
      }
    }
  }
}
