/**
 * List helpers that reproduce, on Dafny sequences, the exact effect of the
 * Python list idioms used by the tracker: `range(n)`, building an index list
 * by appending in a loop, `del s[k]` inside a loop over a list of positions,
 * and Python's negative indexing `s[-1]`.
 */
module Seqs {

  /** The list `range(n)`. */
  function Range(n: nat): (r: seq<nat>)
    ensures |r| == n
    ensures forall i :: 0 <= i < n ==> r[i] == i
  {
    seq(n, i => i)
  }

  /** Every index below `n` occurs in `range(n)`. */
  lemma RangeMembers(n: nat)
    ensures forall i :: 0 <= i < n ==> i in Range(n)
  {
    forall i | 0 <= i < n ensures i in Range(n) {
      assert Range(n)[i] == i;
    }
  }

  predicate StrictlyIncreasing(s: seq<nat>) {
    forall i, j :: 0 <= i < j < |s| ==> s[i] < s[j]
  }

  predicate Distinct<T(==)>(s: seq<T>) {
    forall i, j :: 0 <= i < j < |s| ==> s[i] != s[j]
  }

  /**
   * The positions `k` with `p[k]`, in ascending order: the list a loop
   * `for k in range(len(p)): if p[k]: out.append(k)` builds.
   */
  function Where(p: seq<bool>): (r: seq<nat>)
    ensures |r| <= |p|
    ensures forall i :: 0 <= i < |r| ==> r[i] < |p| && p[r[i]]
  {
    if p == [] then []
    else Where(p[..|p| - 1]) + (if p[|p| - 1] then [|p| - 1] else [])
  }

  /** `Where` lists every selected position, each once, in ascending order. */
  lemma {:induction false} WhereExact(p: seq<bool>)
    ensures forall k :: k in Where(p) <==> 0 <= k < |p| && p[k]
    ensures StrictlyIncreasing(Where(p))
  {
    if p != [] {
      var q := p[..|p| - 1];
      WhereExact(q);
      assert forall k :: 0 <= k < |q| ==> q[k] == p[k];
    }
  }

  /** Scanning one more position appends it to `Where` exactly when it is selected. */
  lemma WhereStep(p: seq<bool>, i: nat)
    requires i < |p|
    ensures Where(p[..i + 1]) == Where(p[..i]) + (if p[i] then [i] else [])
  {
    assert p[..i + 1][..i] == p[..i];
  }

  /** When every position is selected, `Where` is `range(n)`. */
  lemma {:induction false} WhereAll(p: seq<bool>)
    requires forall k :: 0 <= k < |p| ==> p[k]
    ensures Where(p) == Range(|p|)
  {
    if p != [] {
      WhereAll(p[..|p| - 1]);
    }
  }

  /** `del s[k]`. */
  function RemoveAt<T>(s: seq<T>, k: nat): (r: seq<T>)
    requires k < |s|
    ensures |r| == |s| - 1
    ensures forall i :: 0 <= i < k ==> r[i] == s[i]
    ensures forall i :: k <= i < |r| ==> r[i] == s[i + 1]
  {
    s[..k] + s[k + 1..]
  }

  /**
   * The loop `for k in ks: if k < len(s): del s[k]`: every deletion is done at
   * the raw position `k` of the list as it stands after the earlier
   * deletions of the same loop.
   */
  function DeleteEach<T>(s: seq<T>, ks: seq<nat>): (r: seq<T>)
    ensures |r| <= |s|
    decreases |ks|
  {
    if ks == [] then s
    else DeleteEach(if ks[0] < |s| then RemoveAt(s, ks[0]) else s, ks[1..])
  }

  /** Every element left by `DeleteEach` was in the list before. */
  lemma {:induction false} DeleteEachSubset<T>(s: seq<T>, ks: seq<nat>)
    ensures forall x :: x in DeleteEach(s, ks) ==> x in s
    decreases |ks|
  {
    if ks != [] {
      var s' := if ks[0] < |s| then RemoveAt(s, ks[0]) else s;
      DeleteEachSubset(s', ks[1..]);
      assert forall x :: x in s' ==> x in s;
    }
  }

  /** Two lists of equal length stay of equal length under the same deletions. */
  lemma {:induction false} DeleteEachLockstep<T, U>(s: seq<T>, a: seq<U>, ks: seq<nat>)
    requires |s| == |a|
    ensures |DeleteEach(s, ks)| == |DeleteEach(a, ks)|
    decreases |ks|
  {
    if ks != [] {
      var s' := if ks[0] < |s| then RemoveAt(s, ks[0]) else s;
      var a' := if ks[0] < |a| then RemoveAt(a, ks[0]) else a;
      DeleteEachLockstep(s', a', ks[1..]);
    }
  }

  /** Deleting distinct-valued lists keeps them distinct. */
  lemma {:induction false} DeleteEachDistinct<T>(s: seq<T>, ks: seq<nat>)
    requires Distinct(s)
    ensures Distinct(DeleteEach(s, ks))
    decreases |ks|
  {
    if ks != [] {
      var s' := if ks[0] < |s| then RemoveAt(s, ks[0]) else s;
      assert Distinct(s') by {
        if ks[0] < |s| {
          var k := ks[0];
          forall i, j | 0 <= i < j < |s'| ensures s'[i] != s'[j] {
            var i' := if i < k then i else i + 1;
            var j' := if j < k then j else j + 1;
            assert s'[i] == s[i'] && s'[j] == s[j'] && i' < j';
          }
        }
      }
      DeleteEachDistinct(s', ks[1..]);
    }
  }

  /**
   * Python's `s[k]` for `-len(s) <= k < len(s)`: a negative index counts from
   * the end, so `s[-1]` is the last element.
   */
  function PyIndex(n: nat, k: int): (r: nat)
    requires -(n as int) <= k < n
    ensures r < n
    ensures k >= 0 ==> r == k
    ensures k == -1 ==> r == n - 1
  {
    if k >= 0 then k else n + k
  }
}
