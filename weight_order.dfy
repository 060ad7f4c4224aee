/** The ordering the engine sorts user lists by: `sort((a, b) => b.seedWeight - a.seedWeight)`
    (lib/calculations.ts:37, lib/graph.ts:25-31). `Array.prototype.sort` is stable, so the result
    is the unique stable non-increasing arrangement, here built by insertion. */
module WeightOrder {
  import opened Types

  /** Non-increasing by `seedWeight`. */
  predicate SortedByWeight(s: seq<UserNode>)
  {
    forall i, j :: 0 <= i < j < |s| ==> s[i].seedWeight >= s[j].seedWeight
  }

  /** Places `x` after every element of `s` whose weight is at least its own, scanning from the
      back: `x` lands behind the elements of equal weight already placed. */
  function Insert(x: UserNode, s: seq<UserNode>): (r: seq<UserNode>)
    ensures |r| == |s| + 1
  {
    if s == [] || s[|s| - 1].seedWeight >= x.seedWeight then s + [x]
    else Insert(x, s[..|s| - 1]) + [s[|s| - 1]]
  }

  /** The stable non-increasing arrangement of `s`: each element inserted in input order. */
  function WeightSorted(s: seq<UserNode>): (r: seq<UserNode>)
    ensures |r| == |s|
  {
    if s == [] then [] else Insert(s[|s| - 1], WeightSorted(s[..|s| - 1]))
  }

  lemma {:induction false} InsertPermutes(x: UserNode, s: seq<UserNode>)
    ensures |Insert(x, s)| == |s| + 1
    ensures multiset(Insert(x, s)) == multiset(s) + multiset{x}
  {
    if !(s == [] || s[|s| - 1].seedWeight >= x.seedWeight) {
      assert s == s[..|s| - 1] + [s[|s| - 1]];
      InsertPermutes(x, s[..|s| - 1]);
    }
  }

  lemma {:induction false} InsertKeepsSorted(x: UserNode, s: seq<UserNode>)
    requires SortedByWeight(s)
    ensures SortedByWeight(Insert(x, s))
  {
    if s == [] || s[|s| - 1].seedWeight >= x.seedWeight {
      var r := s + [x];
      forall i, j | 0 <= i < j < |r| ensures r[i].seedWeight >= r[j].seedWeight {
        if j == |s| {
          assert r[i] == s[i] && s[i].seedWeight >= s[|s| - 1].seedWeight;
        }
      }
    } else {
      var init, last := s[..|s| - 1], s[|s| - 1];
      assert SortedByWeight(init);
      InsertKeepsSorted(x, init);
      InsertPermutes(x, init);
      var front := Insert(x, init);
      var r := front + [last];
      forall i, j | 0 <= i < j < |r| ensures r[i].seedWeight >= r[j].seedWeight {
        if j == |front| {
          assert r[i] == front[i] && front[i] in multiset(front);
          assert front[i] in multiset(init) || front[i] == x;
          if front[i] != x {
            var k :| 0 <= k < |init| && init[k] == front[i];
            assert s[k] == init[k];
          }
        } else {
          assert r[i] == front[i] && r[j] == front[j];
        }
      }
    }
  }

  /** Sorting neither loses nor adds nor duplicates an element. */
  lemma {:induction false} WeightSortedPermutes(s: seq<UserNode>)
    ensures |WeightSorted(s)| == |s|
    ensures multiset(WeightSorted(s)) == multiset(s)
  {
    if s != [] {
      assert s == s[..|s| - 1] + [s[|s| - 1]];
      WeightSortedPermutes(s[..|s| - 1]);
      InsertPermutes(s[|s| - 1], WeightSorted(s[..|s| - 1]));
    }
  }

  /** The result is non-increasing by weight. */
  lemma {:induction false} WeightSortedIsSorted(s: seq<UserNode>)
    ensures SortedByWeight(WeightSorted(s))
  {
    if s != [] {
      WeightSortedIsSorted(s[..|s| - 1]);
      InsertKeepsSorted(s[|s| - 1], WeightSorted(s[..|s| - 1]));
    }
  }

  /** The elements of weight `w`, in order: what stability is about. */
  function WithWeight(s: seq<UserNode>, w: int): seq<UserNode>
  {
    if s == [] then []
    else WithWeight(s[..|s| - 1], w) + (if s[|s| - 1].seedWeight == w then [s[|s| - 1]] else [])
  }

  lemma WithWeightSnoc(a: seq<UserNode>, y: UserNode, w: int)
    ensures WithWeight(a + [y], w) == WithWeight(a, w) + (if y.seedWeight == w then [y] else [])
  {
    assert (a + [y])[..|a|] == a;
  }

  /** Inserting `x` does not reorder anything of any weight, and appends `x` to its own weight class. */
  lemma {:induction false} InsertWithWeight(x: UserNode, s: seq<UserNode>, w: int)
    ensures WithWeight(Insert(x, s), w)
         == WithWeight(s, w) + (if x.seedWeight == w then [x] else [])
  {
    if s == [] || s[|s| - 1].seedWeight >= x.seedWeight {
      WithWeightSnoc(s, x, w);
    } else {
      var init, last := s[..|s| - 1], s[|s| - 1];
      assert s == init + [last];
      assert Insert(x, s) == Insert(x, init) + [last];
      InsertWithWeight(x, init, w);
      WithWeightSnoc(Insert(x, init), last, w);
      WithWeightSnoc(init, last, w);
      // `last` is lighter than `x`, so at most one of the two has weight `w`.
      if last.seedWeight == w {
        assert x.seedWeight != w;
      }
    }
  }

  /** Stability: for every weight, the elements of that weight keep their input order. */
  lemma {:induction false} WeightSortedIsStable(s: seq<UserNode>, w: int)
    ensures WithWeight(WeightSorted(s), w) == WithWeight(s, w)
  {
    if s != [] {
      var init, last := s[..|s| - 1], s[|s| - 1];
      WeightSortedIsStable(init, w);
      InsertWithWeight(last, WeightSorted(init), w);
    }
  }

  /** One round of the insertion sort: if `before` is the sorted first `i` elements of `s`
      followed by the rest, inserting `before[i]` into that prefix gives the sorted first
      `i + 1` elements followed by the rest. */
  lemma SortStep(s: seq<UserNode>, i: nat, before: seq<UserNode>, after: seq<UserNode>)
    requires i < |s|
    requires before == WeightSorted(s[..i]) + s[i..]
    requires after == Insert(before[i], before[..i]) + before[i + 1..]
    ensures after == WeightSorted(s[..i + 1]) + s[i + 1..]
  {
    var done := WeightSorted(s[..i]);
    assert s[..i + 1][..i] == s[..i] && s[..i + 1][i] == s[i];
    assert WeightSorted(s[..i + 1]) == Insert(s[i], done);
    assert before[..i] == done && before[i..] == s[i..];
    assert before[i + 1..] == before[i..][1..] && s[i + 1..] == s[i..][1..];
  }

  /** Sorts `a` in place into the stable non-increasing arrangement of its old contents. */
  method SortByWeight(a: array<UserNode>)
    modifies a
    ensures a[..] == WeightSorted(old(a[..]))
  {
    ghost var input := a[..];
    var i := 0;
    while i < a.Length
      invariant 0 <= i <= a.Length
      invariant a[..] == WeightSorted(input[..i]) + input[i..]
    {
      ghost var before := a[..];
      InsertIntoPrefix(a, i);
      SortStep(input, i, before, a[..]);
      i := i + 1;
    }
    assert input == input[..a.Length];
  }

  /** One step of the insertion sort: moves `a[i]` into the prefix `a[..i]`, shifting every
      lighter element one place right. */
  method InsertIntoPrefix(a: array<UserNode>, i: nat)
    requires i < a.Length
    modifies a
    ensures a[..] == Insert(old(a[i]), old(a[..i])) + old(a[i + 1..])
  {
    var x := a[i];
    ghost var sorted, rest := a[..i], a[i + 1..];
    ghost var others := sorted + rest;
    var j := i;
    while j > 0 && a[j - 1].seedWeight < x.seedWeight
      invariant 0 <= j <= i
      invariant forall k :: 0 <= k < j ==> a[k] == others[k]
      invariant forall k :: j < k < a.Length ==> a[k] == others[k - 1]
      invariant forall k :: j <= k < i ==> sorted[k].seedWeight < x.seedWeight
    {
      a[j] := a[j - 1];
      j := j - 1;
    }
    a[j] := x;
    InsertPlaced(x, sorted, rest, a[..], j);
  }

  /** The array shape the shifting loop leaves is `Insert` of the element into the prefix:
      the other elements in their old order with `x` at position `j`. */
  lemma InsertPlaced(x: UserNode, sorted: seq<UserNode>, rest: seq<UserNode>, after: seq<UserNode>, j: nat)
    requires j <= |sorted| && |after| == |sorted| + 1 + |rest|
    requires j == 0 || sorted[j - 1].seedWeight >= x.seedWeight
    requires forall k :: j <= k < |sorted| ==> sorted[k].seedWeight < x.seedWeight
    requires forall k :: 0 <= k < j ==> after[k] == (sorted + rest)[k]
    requires after[j] == x
    requires forall k :: j < k < |after| ==> after[k] == (sorted + rest)[k - 1]
    ensures after == Insert(x, sorted) + rest
  {
    InsertLandsAt(x, sorted, j);
    var placed := sorted[..j] + [x] + sorted[j..] + rest;
    assert forall k | 0 <= k < |after| :: after[k] == placed[k];
  }

  /** `x` lands right behind the last element at least as heavy as itself. */
  lemma {:induction false} InsertLandsAt(x: UserNode, s: seq<UserNode>, j: nat)
    requires j <= |s|
    requires j == 0 || s[j - 1].seedWeight >= x.seedWeight
    requires forall k :: j <= k < |s| ==> s[k].seedWeight < x.seedWeight
    ensures Insert(x, s) == s[..j] + [x] + s[j..]
    decreases |s|
  {
    if j < |s| {
      var init, last := s[..|s| - 1], s[|s| - 1];
      assert s == init + [last];
      assert last.seedWeight < x.seedWeight;
      assert Insert(x, s) == Insert(x, init) + [last];
      assert init[..j] == s[..j];
      InsertLandsAt(x, init, j);
      assert s[j..] == s[j..|s| - 1] + [last];
      assert s[j..|s| - 1] == init[j..];
    } else {
      assert s[..j] == s && s[j..] == [];
    }
  }

  /** Returns the stable non-increasing arrangement of `s`, sorting an array copy in place. */
  method SortedCopy(s: seq<UserNode>) returns (r: seq<UserNode>)
    ensures r == WeightSorted(s)
  {
    var a := new UserNode[|s|](i requires 0 <= i < |s| => s[i]);
    assert a[..] == s;
    SortByWeight(a);
    r := a[..];
  }
}
