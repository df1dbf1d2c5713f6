/**
 * Order-preserving filtering of a sequence by a predicate.
 *
 * Both filters of the program are instances of this one: `sanitizeString`
 * drops every character outside a whitelist and `SaveNotes` drops every bomb
 * event (`List.FindAll`).  `Positions` names the input indices that survive,
 * which is how "every kept element, in the original order" is stated.
 */
module Filtering {

  /** The elements of `s` that satisfy `keep`, in their original order. */
  function Filter<T>(keep: T -> bool, s: seq<T>): (r: seq<T>)
    ensures |r| <= |s|
    ensures forall i :: 0 <= i < |r| ==> keep(r[i])
  {
    if s == [] then []
    else (if keep(s[0]) then [s[0]] else []) + Filter(keep, s[1..])
  }

  /** The indices `j >= from` of `s` whose element satisfies `keep`, ascending. */
  function Positions<T>(keep: T -> bool, s: seq<T>, from: nat): (q: seq<nat>)
    requires from <= |s|
    ensures forall k :: 0 <= k < |q| ==> from <= q[k] < |s| && keep(s[q[k]])
    ensures forall k, l :: 0 <= k < l < |q| ==> q[k] < q[l]
    ensures forall j :: from <= j < |s| && keep(s[j]) ==> j in q
    decreases |s| - from
  {
    if from == |s| then []
    else (if keep(s[from]) then [from] else []) + Positions(keep, s, from + 1)
  }

  /** The k-th surviving element is the element of `s` at the k-th surviving index. */
  lemma {:induction false} FilterAtPositions<T>(keep: T -> bool, s: seq<T>, from: nat)
    requires from <= |s|
    ensures |Positions(keep, s, from)| == |Filter(keep, s[from..])|
    ensures forall k :: 0 <= k < |Positions(keep, s, from)| ==>
              s[Positions(keep, s, from)[k]] == Filter(keep, s[from..])[k]
    decreases |s| - from
  {
    if from < |s| {
      FilterAtPositions(keep, s, from + 1);
      var q, q' := Positions(keep, s, from), Positions(keep, s, from + 1);
      var f, f' := Filter(keep, s[from..]), Filter(keep, s[from + 1..]);
      assert s[from..][0] == s[from];
      assert s[from..][1..] == s[from + 1..];
      if keep(s[from]) {
        assert q == [from] + q';
        assert f == [s[from]] + f';
        forall k | 0 < k < |q| ensures s[q[k]] == f[k] {
          assert q[k] == q'[k - 1] && f[k] == f'[k - 1];
        }
      } else {
        assert q == q';
        assert f == f';
      }
    }
  }

  /**
   * Filtering keeps exactly the elements that satisfy `keep`, in order: the
   * result lines up with the strictly ascending list of all indices of `s`
   * whose element satisfies `keep`.
   */
  lemma FilterIsOrderedSelection<T>(keep: T -> bool, s: seq<T>)
    ensures |Filter(keep, s)| == |Positions(keep, s, 0)|
    ensures forall k :: 0 <= k < |Filter(keep, s)| ==>
              Filter(keep, s)[k] == s[Positions(keep, s, 0)[k]]
  {
    FilterAtPositions(keep, s, 0);
    assert s[0..] == s;
  }

  /** The filter leaves a sequence unchanged exactly when all its elements satisfy `keep`. */
  lemma {:induction false} FilterUnchangedIff<T>(keep: T -> bool, s: seq<T>)
    ensures Filter(keep, s) == s <==> forall i :: 0 <= i < |s| ==> keep(s[i])
  {
    if s != [] {
      FilterUnchangedIff(keep, s[1..]);
      if forall i :: 0 <= i < |s| ==> keep(s[i]) {
        assert forall i :: 0 <= i < |s[1..]| ==> keep(s[1..][i]) by {
          forall i | 0 <= i < |s[1..]| ensures keep(s[1..][i]) { assert s[1..][i] == s[i + 1]; }
        }
        assert s == [s[0]] + s[1..];
      }
    }
  }

  /** The filter is empty exactly when no element satisfies `keep`. */
  lemma FilterEmptyIff<T>(keep: T -> bool, s: seq<T>)
    ensures Filter(keep, s) == [] <==> forall i :: 0 <= i < |s| ==> !keep(s[i])
  {
    FilterIsOrderedSelection(keep, s);
  }

  /** Filtering twice by the same predicate is the same as filtering once. */
  lemma FilterIdempotent<T>(keep: T -> bool, s: seq<T>)
    ensures Filter(keep, Filter(keep, s)) == Filter(keep, s)
  {
    FilterUnchangedIff(keep, Filter(keep, s));
  }
}
