/** How the pieces compose when the page runs them in order: weights from the edges, the weight
    filter with minimum 2, anchor marking with the threshold for the seed count, clustering. */
module Pipeline {
  import opened Types
  import opened WeightOrder
  import opened Calculations
  import opened Graph

  /** The users `filterBySeedWeight(computeSeedWeights(edges), minWeight)` returns. */
  function Candidates(edges: seq<Edge>, minWeight: int): seq<UserNode>
  {
    var m := SeedWeights(edges);
    SeedWeightsWellFormed(edges);
    WeightSorted(Selected(m.order, m.entries, minWeight))
  }

  /** `enriched` has the weights of `users`, one for one: the page only adds profile data to
      the candidates before marking them. */
  predicate SameWeights(enriched: seq<UserNode>, users: seq<UserNode>)
  {
    |enriched| == |users| && forall i :: 0 <= i < |users| ==> enriched[i].seedWeight == users[i].seedWeight
  }

  /** Every marked user weighs at least the minimum of the weight filter. */
  lemma MarkedCandidatesWeigh(edges: seq<Edge>, minWeight: int, enriched: seq<UserNode>, t: int)
    requires SameWeights(enriched, Candidates(edges, minWeight))
    ensures forall x :: x in MarkAnchors(enriched, t) ==> x.seedWeight >= minWeight
  {
    var m := SeedWeights(edges);
    SeedWeightsWellFormed(edges);
    FilterBySeedWeightSpec(m, minWeight);
    var users := Candidates(edges, minWeight);
    var marked := MarkAnchors(enriched, t);
    forall x | x in marked ensures x.seedWeight >= minWeight {
      var i :| 0 <= i < |marked| && marked[i] == x;
      assert marked[i].(isAnchor := enriched[i].isAnchor) == enriched[i];
      assert users[i] in users;
    }
  }

  /** With the fixed minimum weight 2, the long tail of the clustered results is always empty:
      the third branch of the clustering loop is unreachable from the page's pipeline. */
  lemma LongTailUnreachable(edges: seq<Edge>, enriched: seq<UserNode>, t: int)
    requires SameWeights(enriched, Candidates(edges, 2))
    ensures Clustered(MarkAnchors(enriched, t)).longTail == []
  {
    MarkedCandidatesWeigh(edges, 2, enriched, t);
    LongTailEmptyWhenHeavy(MarkAnchors(enriched, t));
  }

  /** The three-seed run: seeds a, b, c follow x; a and b follow y; only a follows z. */
  const ExampleEdges: seq<Edge> :=
    [Edge("a", "x"), Edge("b", "x"), Edge("c", "x"), Edge("a", "y"), Edge("b", "y"), Edge("a", "z")]

  /** The weight map after the first `k` example edges. */
  function ExampleMap(k: nat): WeightMap
  {
    if k == 0 then WeightMap([], map[])
    else if k == 1 then WeightMap(["x"], map["x" := SeedEntry(1, ["a"])])
    else if k == 2 then WeightMap(["x"], map["x" := SeedEntry(2, ["a", "b"])])
    else if k == 3 then WeightMap(["x"], map["x" := SeedEntry(3, ["a", "b", "c"])])
    else if k == 4 then WeightMap(["x", "y"], map["x" := SeedEntry(3, ["a", "b", "c"]), "y" := SeedEntry(1, ["a"])])
    else if k == 5 then WeightMap(["x", "y"], map["x" := SeedEntry(3, ["a", "b", "c"]), "y" := SeedEntry(2, ["a", "b"])])
    else WeightMap(["x", "y", "z"], map["x" := SeedEntry(3, ["a", "b", "c"]), "y" := SeedEntry(2, ["a", "b"]), "z" := SeedEntry(1, ["a"])])
  }

  lemma ExampleStep(k: nat)
    requires k < 6
    ensures RecordEdge(ExampleMap(k), ExampleEdges[k]) == ExampleMap(k + 1)
  {
    var r := RecordEdge(ExampleMap(k), ExampleEdges[k]);
    assert "a" != "b" && "a" != "c" && "b" != "c" && "x" != "y" && "x" != "z" && "y" != "z";
    if k == 0 {
      assert r.entries["x"] == SeedEntry(1, ["a"]);
      assert r.entries.Keys == {"x"};
    } else if k == 1 {
      assert r.entries["x"] == SeedEntry(2, ["a", "b"]);
      assert r.entries.Keys == {"x"};
    } else if k == 2 {
      assert r.entries["x"] == SeedEntry(3, ["a", "b", "c"]);
      assert r.entries.Keys == {"x"};
    } else if k == 3 {
      assert r.order == ["x", "y"];
      assert r.entries["y"] == SeedEntry(1, ["a"]);
      assert r.entries.Keys == {"x", "y"};
    } else if k == 4 {
      assert r.entries["y"] == SeedEntry(2, ["a", "b"]);
      assert r.entries.Keys == {"x", "y"};
    } else {
      assert r.order == ["x", "y", "z"];
      assert r.entries["z"] == SeedEntry(1, ["a"]);
      assert r.entries.Keys == {"x", "y", "z"};
    }
  }

  lemma {:induction false} ExamplePrefix(k: nat)
    requires k <= 6
    ensures SeedWeights(ExampleEdges[..k]) == ExampleMap(k)
  {
    if k > 0 {
      ExamplePrefix(k - 1);
      assert ExampleEdges[..k][..k - 1] == ExampleEdges[..k - 1];
      ExampleStep(k - 1);
    }
  }

  /** No example edge comes from x, so none counts towards x as an anchor. */
  lemma NoEdgeFromX()
    ensures AnchorEdgesInto(ExampleEdges, "y", {"x"}) == []
  {
    forall i | 0 <= i < |ExampleEdges| ensures ExampleEdges[i].seed !in {"x"} {
      assert ExampleEdges[i].seed in ["a", "b", "c"];
    }
    NonAnchorSeedsCountZero(ExampleEdges, "y", {"x"});
  }

  /** Weights x = 3, y = 2, z = 1, users in order of first observation and seeds in order of
      observation; the threshold for three seeds is 3; no edge into y comes from x, which is
      not a seed. */
  lemma ExampleWeights()
    ensures SeedWeights(ExampleEdges) == ExampleMap(6)
    ensures AnchorThreshold(3) == 3
    ensures |AnchorEdgesInto(ExampleEdges, "y", {"x"})| == 0
  {
    ExamplePrefix(6);
    NoEdgeFromX();
    assert ExampleEdges[..6] == ExampleEdges;
  }

  function ExampleX(): UserNode { NodeFor("x", SeedEntry(3, ["a", "b", "c"])) }
  function ExampleY(): UserNode { NodeFor("y", SeedEntry(2, ["a", "b"])) }

  lemma ExampleSelected()
    ensures Selected(ExampleMap(6).order, ExampleMap(6).entries, 2) == [ExampleX(), ExampleY()]
  {
    var m := ExampleMap(6);
    assert m.order[..2] == ["x", "y"] && ["x", "y"][..1] == ["x"] && ["x"][..0] == [];
    assert Selected(["x"], m.entries, 2) == [ExampleX()];
    assert Selected(["x", "y"], m.entries, 2) == [ExampleX(), ExampleY()];
  }

  lemma ExampleSorted()
    ensures WeightSorted([ExampleX(), ExampleY()]) == [ExampleX(), ExampleY()]
  {
    assert [ExampleX(), ExampleY()][..1] == [ExampleX()];
    assert WeightSorted([ExampleX()]) == [ExampleX()];
  }

  lemma ExampleMarked()
    ensures MarkAnchors([ExampleX(), ExampleY()], 3) == [ExampleX().(isAnchor := true), ExampleY()]
  {
  }

  lemma ExampleTiers()
    ensures Clustered(MarkAnchors([ExampleX(), ExampleY()], 3))
         == ClusteredGraph([ExampleX().(isAnchor := true)], [ExampleY()], [])
  {
    var x, y := ExampleX().(isAnchor := true), ExampleY();
    ExampleMarked();
    assert [x, y][..1] == [x];
    assert InTier([x, y], AnchorTier) == [x] && WeightSorted([x]) == [x] by {
      assert InTier([x], AnchorTier) == [x];
    }
    assert InTier([x, y], HighWeightTier) == [y] && WeightSorted([y]) == [y] by {
      assert InTier([x], HighWeightTier) == [];
    }
    assert InTier([x, y], LongTailTier) == [] by {
      assert InTier([x], LongTailTier) == [];
    }
  }

  /** The rest of the run: the weight filter keeps x and y, heaviest first; with threshold 3 the
      anchors are [x], highWeight is [y] and the long tail is empty. */
  lemma ExampleClusters()
    ensures Candidates(ExampleEdges, 2) == [ExampleX(), ExampleY()]
    ensures Clustered(MarkAnchors(Candidates(ExampleEdges, 2), 3))
         == ClusteredGraph([ExampleX().(isAnchor := true)], [ExampleY()], [])
  {
    ExampleWeights();
    ExampleSelected();
    ExampleSorted();
    ExampleTiers();
  }
}
