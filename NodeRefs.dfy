/**
 * Sequences of node references, as the linked lists keep them: the live
 * nodes of a list in order, each a position in the list's arena of nodes.
 */
module NodeRefs {
  import opened Errors

  /** The first of a sequence of node references, or null if there is none. */
  function First(refs: seq<int>): int {
    if refs == [] then Null else refs[0]
  }

  /** The last of a sequence of node references, or null if there is none. */
  function Last(refs: seq<int>): int {
    if refs == [] then Null else refs[|refs| - 1]
  }

  /** s with x inserted so that it lands at position k. */
  function InsertAt<T>(s: seq<T>, k: int, x: T): (r: seq<T>)
    requires 0 <= k <= |s|
    ensures |r| == |s| + 1 && r[k] == x
    ensures forall i :: 0 <= i < k ==> r[i] == s[i]
    ensures forall i :: k < i < |r| ==> r[i] == s[i - 1]
  {
    s[..k] + [x] + s[k..]
  }

  /** Positions i and j of refs hold different nodes. */
  ghost predicate Apart(refs: seq<int>, i: int, j: int)
    requires 0 <= i < |refs| && 0 <= j < |refs|
  {
    refs[i] != refs[j]
  }

  /**
   * No node occurs twice. The comparison of two positions is `Apart`, so a
   * proof compares only the positions it names.
   */
  ghost predicate Distinct(refs: seq<int>) {
    forall i, j :: 0 <= i < |refs| && 0 <= j < |refs| && i != j ==> Apart(refs, i, j)
  }

  /** The node at position k occurs nowhere else. */
  lemma DistinctAt(s: seq<int>, k: int)
    requires Distinct(s) && 0 <= k < |s|
    ensures forall i :: 0 <= i < |s| && i != k ==> s[i] != s[k]
  {
    forall i | 0 <= i < |s| && i != k
      ensures s[i] != s[k]
    {
      assert Apart(s, i, k);
    }
  }

  /** A node not yet in the sequence can go anywhere in it. */
  lemma DistinctInsert(s: seq<int>, k: int, m: int)
    requires Distinct(s) && 0 <= k <= |s|
    requires forall i :: 0 <= i < |s| ==> s[i] != m
    ensures Distinct(InsertAt(s, k, m))
  {
    var o := InsertAt(s, k, m);
    forall i, j | 0 <= i < |o| && 0 <= j < |o| && i != j
      ensures Apart(o, i, j)
    {
      if i != k && j != k {
        var i', j' := if i < k then i else i - 1, if j < k then j else j - 1;
        assert Apart(s, i', j');
      }
    }
  }

  /** A slice of a sequence without repeats has none. */
  lemma DistinctSlice(s: seq<int>, lo: int, hi: int)
    requires Distinct(s) && 0 <= lo <= hi <= |s|
    ensures Distinct(s[lo..hi])
    ensures lo == 0 ==> Distinct(s[..hi])
    ensures hi == |s| ==> Distinct(s[lo..])
  {
    var o := s[lo..hi];
    forall i, j | 0 <= i < |o| && 0 <= j < |o| && i != j
      ensures Apart(o, i, j)
    {
      assert Apart(s, lo + i, lo + j);
    }
    assert s[..hi] == s[0..hi] && s[lo..] == s[lo..|s|];
  }
}
