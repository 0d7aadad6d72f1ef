/**
 * The value side of PriorityQueue's secondary index: a map from each value to
 * the set of heap positions recorded for it, how that map relates to the heap,
 * and the closed forms of the updates `mapSwap`, `mapAdd` and `mapRemove` make.
 */
module PositionIndex {
  import opened HeapOrder

  type Index = map<int, set<nat>>

  /** Every recorded position is in range and holds its key; no key has an empty set. */
  ghost predicate Sound(h: seq<int>, m: Index) {
    forall v :: v in m ==> m[v] != {} && forall p :: p in m[v] ==> p < |h| && h[p] == v
  }

  /** Position p is recorded under the value it holds. */
  predicate Tracked(h: seq<int>, m: Index, p: nat)
    requires p < |h|
  {
    h[p] in m && p in m[h[p]]
  }

  /** The positions of the heap that the index does not record. */
  ghost function Untracked(h: seq<int>, m: Index): set<int> {
    set p | 0 <= p < |h| && !Tracked(h, m, p)
  }

  /** The index records exactly the positions of every value. */
  ghost predicate IndexConsistent(h: seq<int>, m: Index) {
    Sound(h, m) && forall p :: 0 <= p < |h| ==> Tracked(h, m, p)
  }

  /** The index a heap determines: each value to the set of positions holding it. */
  function PositionsOf(h: seq<int>): Index {
    map v | v in h :: set p: nat | p < |h| && h[p] == v
  }

  /**
   * The map after `mapSwap(x, y, i, j)`. When x == y both names denote the same
   * TreeSet, so the four updates leave it holding both i and j.
   */
  function SwappedIndex(m: Index, x: int, y: int, i: nat, j: nat): Index
    requires x in m && y in m
  {
    if x == y then m[x := m[x] + {i, j}]
    else m[x := m[x] - {i} + {j}][y := m[y] - {j} + {i}]
  }

  /** The map after `mapAdd(v, p)`. */
  function AddedIndex(m: Index, v: int, p: nat): Index {
    m[v := (if v in m then m[v] else {}) + {p}]
  }

  /** The map after `mapRemove(v, p)`: the key goes once its set is empty. */
  function RemovedIndex(m: Index, v: int, p: nat): Index
    requires v in m
  {
    if m[v] - {p} == {} then m - {v} else m[v := m[v] - {p}]
  }

  /** Consistency holds exactly when the sound index leaves no position untracked. */
  lemma ConsistentIffNoneUntracked(h: seq<int>, m: Index)
    ensures IndexConsistent(h, m) <==> Sound(h, m) && Untracked(h, m) == {}
  {
    if Sound(h, m) && Untracked(h, m) == {} {
      forall p | 0 <= p < |h|
        ensures Tracked(h, m, p)
      {
        assert p !in Untracked(h, m);
      }
    }
  }

  /** The consistent index is unique: it is the one the heap determines. */
  lemma ConsistentIffPositions(h: seq<int>, m: Index)
    ensures IndexConsistent(h, m) <==> m == PositionsOf(h)
  {
    var pm := PositionsOf(h);
    if IndexConsistent(h, m) {
      forall v | v in m
        ensures v in pm && m[v] == pm[v]
      {
        var p :| p in m[v];
        assert h[p] == v;
        assert v in h;
        forall q: nat | q < |h| && h[q] == v
          ensures q in m[v]
        {
          assert Tracked(h, m, q);
        }
      }
      forall v | v in pm
        ensures v in m
      {
        var p :| 0 <= p < |h| && h[p] == v;
        assert Tracked(h, m, p);
      }
      assert m == pm;
    }
    if m == pm {
      forall p | 0 <= p < |h|
        ensures Tracked(h, m, p)
      {
        assert h[p] in h;
      }
      forall v | v in m
        ensures m[v] != {}
      {
        var p :| 0 <= p < |h| && h[p] == v;
        assert p in m[v];
      }
    }
  }

  /** Every key of a sound index is a value of the heap. */
  lemma SoundKeys(h: seq<int>, m: Index)
    requires Sound(h, m)
    ensures forall v :: v in m ==> v in h
  {
    forall v | v in m
      ensures v in h
    {
      var p :| p in m[v];
      assert h[p] == v;
    }
  }

  /** So a sound index of an empty heap is empty. */
  lemma SoundEmpty(h: seq<int>, m: Index)
    requires |h| == 0 && Sound(h, m)
    ensures m == map[]
  {
    SoundKeys(h, m);
    assert forall v :: v !in m;
    assert m.Keys == {};
  }

  /** In a consistent index, a value is a key exactly when the heap holds it. */
  lemma ConsistentKeys(h: seq<int>, m: Index, v: int)
    ensures IndexConsistent(h, m) ==> (v in m <==> v in h)
  {
    if IndexConsistent(h, m) && v in m {
      var p :| p in m[v];
    }
    if IndexConsistent(h, m) && v in h {
      var p :| 0 <= p < |h| && h[p] == v;
      assert Tracked(h, m, p);
    }
  }

  /**
   * `swap(i, j)` on the heap together with `mapSwap` on the index keeps the index
   * sound and records both i and j afterwards; every other position keeps its
   * status. So a consistent index stays consistent, also when i == j or the two
   * values are equal.
   */
  lemma SwapIndex(h: seq<int>, m: Index, i: nat, j: nat)
    requires i < |h| && j < |h| && h[i] in m && h[j] in m && Sound(h, m)
    ensures var h', m' := SwapSeq(h, i, j), SwappedIndex(m, h[i], h[j], i, j);
      && Sound(h', m')
      && m'.Keys == m.Keys
      && Untracked(h', m') == Untracked(h, m) - {i, j}
      && (IndexConsistent(h, m) ==> IndexConsistent(h', m'))
  {
    var h', m' := SwapSeq(h, i, j), SwappedIndex(m, h[i], h[j], i, j);
    var x, y := h[i], h[j];
    forall v | v in m'
      ensures m'[v] != {} && forall p :: p in m'[v] ==> p < |h'| && h'[p] == v
    {
      forall p | p in m'[v]
        ensures p < |h'| && h'[p] == v
      {
        if v != x && v != y {
          assert p in m[v];
        } else if p != i && p != j {
          assert p in m[v];
        }
      }
      if v == x {
        assert j in m'[v];
      } else if v == y {
        assert i in m'[v];
      } else {
        assert m'[v] == m[v];
      }
    }
    forall p | 0 <= p < |h'|
      ensures Tracked(h', m', p) <==> (p == i || p == j || Tracked(h, m, p))
    {
      if p != i && p != j {
        assert h'[p] == h[p];
        if h[p] == x && p in m[x] {
          assert p in m'[x];
        }
        if h[p] == y && p in m[y] {
          assert p in m'[y];
        }
      }
    }
    assert Untracked(h', m') == Untracked(h, m) - {i, j};
    if IndexConsistent(h, m) {
      ConsistentIffNoneUntracked(h, m);
      ConsistentIffNoneUntracked(h', m');
    }
  }

  /** Appending a slot the index does not record leaves it sound and adds one untracked position. */
  lemma AppendIndex(h: seq<int>, m: Index, v: int)
    requires Sound(h, m)
    ensures Sound(h + [v], m)
    ensures Untracked(h + [v], m) == Untracked(h, m) + {|h|}
  {
    var h' := h + [v];
    forall w | w in m
      ensures m[w] != {} && forall p :: p in m[w] ==> p < |h'| && h'[p] == w
    {
      forall p | p in m[w]
        ensures p < |h'| && h'[p] == w
      {
        assert h'[p] == h[p];
      }
    }
    forall p | 0 <= p < |h'|
      ensures Tracked(h', m, p) <==> p < |h| && Tracked(h, m, p)
    {
    }
    assert Untracked(h', m) == Untracked(h, m) + {|h|};
  }

  /** The array constructor's step: appending and recording the new slot keeps consistency. */
  lemma AppendAddedIndex(h: seq<int>, m: Index, v: int)
    requires IndexConsistent(h, m)
    ensures IndexConsistent(h + [v], AddedIndex(m, v, |h|))
  {
    var h', m' := h + [v], AddedIndex(m, v, |h|);
    forall w | w in m'
      ensures m'[w] != {} && forall p :: p in m'[w] ==> p < |h'| && h'[p] == w
    {
      forall p | p in m'[w]
        ensures p < |h'| && h'[p] == w
      {
        if p != |h| {
          assert p in m[w];
        }
      }
    }
    forall p | 0 <= p < |h'|
      ensures Tracked(h', m', p)
    {
      if p < |h| {
        assert Tracked(h, m, p);
        assert h'[p] == h[p];
      }
    }
  }

  /**
   * Dropping the last slot and removing its recorded position keeps the index
   * sound; the remaining positions keep their status.
   */
  lemma RemoveLastIndex(h: seq<int>, m: Index)
    requires |h| > 0 && Sound(h, m) && h[|h| - 1] in m
    ensures var last := |h| - 1; var h', m' := h[..last], RemovedIndex(m, h[last], last);
      && Sound(h', m')
      && Untracked(h', m') == Untracked(h, m) - {last}
      && (IndexConsistent(h, m) ==> IndexConsistent(h', m'))
  {
    var last := |h| - 1;
    var h', m' := h[..last], RemovedIndex(m, h[last], last);
    forall w | w in m'
      ensures m'[w] != {} && forall p :: p in m'[w] ==> p < |h'| && h'[p] == w
    {
      forall p | p in m'[w]
        ensures p < |h'| && h'[p] == w
      {
        assert p in m[w];
        assert p != last;
      }
    }
    forall p | 0 <= p < |h'|
      ensures Tracked(h', m', p) <==> Tracked(h, m, p)
    {
      assert h'[p] == h[p];
      if Tracked(h, m, p) && h[p] == h[last] {
        assert p in m[h[last]] - {last};
      }
    }
    assert Untracked(h', m') == Untracked(h, m) - {last};
    if IndexConsistent(h, m) {
      ConsistentIffNoneUntracked(h, m);
      ConsistentIffNoneUntracked(h', m');
    }
  }

  /**
   * `removeAt(i)`'s update of the index: swapping slot i with the last, then
   * dropping the last slot and its recorded position, keeps the index sound
   * and leaves i and the old last position unaccounted for no longer.
   */
  lemma SwapRemoveIndex(h: seq<int>, m: Index, i: nat)
    requires i < |h| && h[i] in m && h[|h| - 1] in m && Sound(h, m)
    ensures var last := |h| - 1;
      var h1, m1 := SwapSeq(h, i, last), SwappedIndex(m, h[i], h[last], i, last);
      var h', m' := h1[..last], RemovedIndex(m1, h1[last], last);
      && Sound(h', m')
      && Untracked(h', m') == Untracked(h, m) - {i, last}
      && (IndexConsistent(h, m) ==> IndexConsistent(h', m'))
  {
    var last := |h| - 1;
    SwapIndex(h, m, i, last);
    var h1, m1 := SwapSeq(h, i, last), SwappedIndex(m, h[i], h[last], i, last);
    assert h1[last] == h[i];
    RemoveLastIndex(h1, m1);
  }
}
