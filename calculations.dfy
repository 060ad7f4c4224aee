/** Edge weighting, the weight floor, the anchor threshold and the anchor-following count
    (lib/calculations.ts). */
module Calculations {
  import opened Types
  import opened Collections
  import opened WeightOrder

  /** A value of the weight map: the distinct seeds following a user, and their number. */
  datatype SeedEntry = SeedEntry(weight: int, seeds: seq<string>)

  /** A JavaScript `Map<string, SeedEntry>`: `entries` gives the lookup, `order` the insertion
      order in which `entries()` visits the keys. */
  datatype WeightMap = WeightMap(order: seq<string>, entries: map<string, SeedEntry>)

  /** Every key is listed once in the insertion order. */
  ghost predicate WellFormed(m: WeightMap)
  {
    NoDuplicates(m.order) && forall u :: u in m.order <==> u in m.entries
  }

  // ---------------------------------------------------------------------------------------------
  // computeSeedWeights (lib/calculations.ts:3-18)

  /** The map after the loop body has handled one more edge: a seed not yet recorded against
      the followed user raises the weight by one and is appended; a new key goes to the end. */
  function RecordEdge(m: WeightMap, e: Edge): WeightMap
  {
    var existing := if e.followedUser in m.entries then m.entries[e.followedUser] else SeedEntry(0, []);
    var updated := if e.seed in existing.seeds then existing
                   else SeedEntry(existing.weight + 1, existing.seeds + [e.seed]);
    var order := if e.followedUser in m.entries then m.order else m.order + [e.followedUser];
    WeightMap(order, m.entries[e.followedUser := updated])
  }

  /** The weight map after all of `edges`, in order. */
  function SeedWeights(edges: seq<Edge>): WeightMap
  {
    if edges == [] then WeightMap([], map[])
    else RecordEdge(SeedWeights(edges[..|edges| - 1]), edges[|edges| - 1])
  }

  method ComputeSeedWeights(edges: seq<Edge>) returns (weightMap: WeightMap)
    ensures weightMap == SeedWeights(edges)
  {
    weightMap := WeightMap([], map[]);
    for i := 0 to |edges|
      invariant weightMap == SeedWeights(edges[..i])
    {
      var edge := edges[i];
      var existing := if edge.followedUser in weightMap.entries then weightMap.entries[edge.followedUser]
                      else SeedEntry(0, []);
      if edge.seed !in existing.seeds {
        existing := SeedEntry(existing.weight + 1, existing.seeds + [edge.seed]);
      }
      var order := if edge.followedUser in weightMap.entries then weightMap.order
                   else weightMap.order + [edge.followedUser];
      assert edges[..i + 1][..i] == edges[..i];
      assert SeedWeights(edges[..i + 1]) == RecordEdge(weightMap, edge);
      weightMap := WeightMap(order, weightMap.entries[edge.followedUser := existing]);
    }
    assert edges[..|edges|] == edges;
  }

  /** The followed user of every edge, in edge order. */
  function Targets(edges: seq<Edge>): seq<string>
  {
    if edges == [] then [] else Targets(edges[..|edges| - 1]) + [edges[|edges| - 1].followedUser]
  }

  /** The seed of every edge into `u`, in edge order, repeats included. */
  function SeedsInto(edges: seq<Edge>, u: string): seq<string>
  {
    if edges == [] then []
    else
      var e := edges[|edges| - 1];
      SeedsInto(edges[..|edges| - 1], u) + (if e.followedUser == u then [e.seed] else [])
  }

  lemma {:induction false} TargetsMembership(edges: seq<Edge>)
    ensures forall u :: u in Targets(edges) <==> exists e :: e in edges && e.followedUser == u
  {
    if edges != [] {
      var init := edges[..|edges| - 1];
      TargetsMembership(init);
      assert edges == init + [edges[|edges| - 1]];
    }
  }

  lemma {:induction false} SeedsIntoMembership(edges: seq<Edge>, u: string)
    ensures forall s :: s in SeedsInto(edges, u) <==> Edge(s, u) in edges
  {
    if edges != [] {
      var init := edges[..|edges| - 1];
      SeedsIntoMembership(init, u);
      assert edges == init + [edges[|edges| - 1]];
    }
  }

  /** The keys, in insertion order, are the distinct followed users in order of first
      appearance. */
  lemma {:induction false} SeedWeightsOrder(edges: seq<Edge>)
    ensures SeedWeights(edges).order == Distinct(Targets(edges))
    ensures forall u :: u in SeedWeights(edges).entries <==> u in Targets(edges)
  {
    if edges != [] {
      var init, e := edges[..|edges| - 1], edges[|edges| - 1];
      SeedWeightsOrder(init);
      DistinctSnoc(Targets(init), e.followedUser);
    }
  }

  /** The weight map is a well-formed insertion-ordered map. */
  lemma SeedWeightsWellFormed(edges: seq<Edge>)
    ensures WellFormed(SeedWeights(edges))
  {
    SeedWeightsOrder(edges);
  }

  /** One edge keeps the closed form of an entry: the distinct seeds of the edges into the
      user so far, in order of first observation, with their number as weight. */
  lemma RecordEdgeEntry(before: WeightMap, e: Edge, u: string, prior: seq<string>)
    requires u in before.entries ==> before.entries[u] == SeedEntry(|Distinct(prior)|, Distinct(prior))
    requires u !in before.entries ==> prior == []
    ensures var now := prior + (if e.followedUser == u then [e.seed] else []);
      u in RecordEdge(before, e).entries ==>
        RecordEdge(before, e).entries[u] == SeedEntry(|Distinct(now)|, Distinct(now))
  {
    if e.followedUser == u {
      DistinctSnoc(prior, e.seed);
    } else {
      assert prior + [] == prior;
    }
  }

  /** Each user's seed list is the distinct seeds of the edges into it, in order of first
      observation, and its weight is that list's length; a user that is not a key has no
      edges into it. */
  lemma {:induction false} SeedWeightsEntries(edges: seq<Edge>, u: string)
    ensures u in SeedWeights(edges).entries ==>
      SeedWeights(edges).entries[u] == SeedEntry(|Distinct(SeedsInto(edges, u))|, Distinct(SeedsInto(edges, u)))
    ensures u !in SeedWeights(edges).entries ==> SeedsInto(edges, u) == []
  {
    if edges != [] {
      var init, e := edges[..|edges| - 1], edges[|edges| - 1];
      SeedWeightsEntries(init, u);
      assert SeedWeights(edges) == RecordEdge(SeedWeights(init), e);
      assert SeedsInto(edges, u) == SeedsInto(init, u) + (if e.followedUser == u then [e.seed] else []);
      RecordEdgeEntry(SeedWeights(init), e, u, SeedsInto(init, u));
    }
  }

  /** A user's weight is the number of distinct seeds with an edge into it. */
  lemma WeightIsDistinctSeedCount(edges: seq<Edge>, u: string)
    requires u in SeedWeights(edges).entries
    ensures SeedWeights(edges).entries[u].weight == |set e | e in edges && e.followedUser == u :: e.seed|
  {
    SeedWeightsEntries(edges, u);
    SeedsIntoMembership(edges, u);
    DistinctCardinality(SeedsInto(edges, u));
    assert Elements(SeedsInto(edges, u)) == set e | e in edges && e.followedUser == u :: e.seed;
  }

  /** The entries satisfy `weight == |seeds|`, seed lists repeat no seed, a seed is listed for
      `u` exactly when some edge goes from it to `u`, and the keys are exactly the followed users
      (a name seen only as a seed is not a key; no edges give an empty map). */
  lemma SeedWeightsInvariant(edges: seq<Edge>)
    ensures forall u :: u in SeedWeights(edges).entries <==> exists e :: e in edges && e.followedUser == u
    ensures forall u :: u in SeedWeights(edges).entries ==>
      && SeedWeights(edges).entries[u].weight == |SeedWeights(edges).entries[u].seeds|
      && NoDuplicates(SeedWeights(edges).entries[u].seeds)
      && forall s :: s in SeedWeights(edges).entries[u].seeds <==> Edge(s, u) in edges
  {
    SeedWeightsOrder(edges);
    TargetsMembership(edges);
    forall u | u in SeedWeights(edges).entries
      ensures SeedWeights(edges).entries[u].weight == |SeedWeights(edges).entries[u].seeds|
      ensures NoDuplicates(SeedWeights(edges).entries[u].seeds)
      ensures forall s :: s in SeedWeights(edges).entries[u].seeds <==> Edge(s, u) in edges
    {
      SeedWeightsEntries(edges, u);
      SeedsIntoMembership(edges, u);
    }
  }

  /** Seeing an edge a second time changes nothing. */
  lemma RepeatedEdgeIsNoOp(edges: seq<Edge>, e: Edge)
    requires e in edges
    ensures SeedWeights(edges + [e]) == SeedWeights(edges)
  {
    var m := SeedWeights(edges);
    assert (edges + [e])[..|edges|] == edges;
    SeedWeightsInvariant(edges);
    assert e.followedUser in m.entries;
    assert e.seed in m.entries[e.followedUser].seeds;
    assert m.entries[e.followedUser := m.entries[e.followedUser]] == m.entries;
  }

  // ---------------------------------------------------------------------------------------------
  // filterBySeedWeight (lib/calculations.ts:20-38)

  /** The node pushed for a kept entry. */
  function NodeFor(username: string, entry: SeedEntry): UserNode
  {
    UserNode(username, entry.weight, false, entry.seeds, None, None, None, None)
  }

  /** The nodes pushed by the loop, before sorting: one per key of `order` whose weight is at
      least `minWeight`, in key order. */
  function Selected(order: seq<string>, entries: map<string, SeedEntry>, minWeight: int): seq<UserNode>
    requires forall u :: u in order ==> u in entries
  {
    if order == [] then []
    else
      var u := order[|order| - 1];
      Selected(order[..|order| - 1], entries, minWeight)
        + (if entries[u].weight >= minWeight then [NodeFor(u, entries[u])] else [])
  }

  method FilterBySeedWeight(weightMap: WeightMap, minWeight: int) returns (users: seq<UserNode>)
    requires WellFormed(weightMap)
    ensures users == WeightSorted(Selected(weightMap.order, weightMap.entries, minWeight))
  {
    var pushed: seq<UserNode> := [];
    for i := 0 to |weightMap.order|
      invariant pushed == Selected(weightMap.order[..i], weightMap.entries, minWeight)
    {
      var username := weightMap.order[i];
      var data := weightMap.entries[username];
      if data.weight >= minWeight {
        pushed := pushed + [UserNode(username, data.weight, false, data.seeds, None, None, None, None)];
      }
      assert weightMap.order[..i + 1][..i] == weightMap.order[..i];
    }
    assert weightMap.order[..|weightMap.order|] == weightMap.order;
    users := SortedCopy(pushed);
  }

  lemma {:induction false} SelectedMembers(order: seq<string>, entries: map<string, SeedEntry>, minWeight: int)
    requires forall u :: u in order ==> u in entries
    ensures forall x :: x in Selected(order, entries, minWeight) ==>
      x.username in order && x == NodeFor(x.username, entries[x.username])
      && entries[x.username].weight >= minWeight
  {
    if order != [] {
      SelectedMembers(order[..|order| - 1], entries, minWeight);
    }
  }

  lemma {:induction false} SelectedCount(order: seq<string>, entries: map<string, SeedEntry>, minWeight: int, u: string)
    requires forall v :: v in order ==> v in entries
    requires NoDuplicates(order) && u in entries
    ensures multiset(Selected(order, entries, minWeight))[NodeFor(u, entries[u])]
         == if u in order && entries[u].weight >= minWeight then 1 else 0
  {
    if order != [] {
      var init, last := order[..|order| - 1], order[|order| - 1];
      assert order == init + [last];
      assert NoDuplicates(init);
      SelectedCount(init, entries, minWeight, u);
    }
  }

  /** The result of filterBySeedWeight: sorted by weight, non-increasing; every node is the
      projection of an entry whose weight reaches `minWeight` (not an anchor, weight and seed
      list copied); and each such entry yields exactly one node. */
  lemma FilterBySeedWeightSpec(m: WeightMap, minWeight: int)
    requires WellFormed(m)
    ensures SortedByWeight(WeightSorted(Selected(m.order, m.entries, minWeight)))
    ensures forall x :: x in WeightSorted(Selected(m.order, m.entries, minWeight)) ==>
      && x.username in m.entries
      && x.seedWeight == m.entries[x.username].weight >= minWeight
      && x.followedBySeeds == m.entries[x.username].seeds
      && !x.isAnchor
      && x == NodeFor(x.username, m.entries[x.username])
    ensures forall u :: u in m.entries && m.entries[u].weight >= minWeight ==>
      multiset(WeightSorted(Selected(m.order, m.entries, minWeight)))[NodeFor(u, m.entries[u])] == 1
  {
    var picked := Selected(m.order, m.entries, minWeight);
    WeightSortedIsSorted(picked);
    WeightSortedPermutes(picked);
    SelectedMembers(m.order, m.entries, minWeight);
    forall x | x in WeightSorted(picked) ensures x in picked {
      assert x in multiset(WeightSorted(picked));
    }
    forall u | u in m.entries && m.entries[u].weight >= minWeight
      ensures multiset(WeightSorted(picked))[NodeFor(u, m.entries[u])] == 1
    {
      SelectedCount(m.order, m.entries, minWeight, u);
    }
  }

  // ---------------------------------------------------------------------------------------------
  // calculateAnchorThreshold (lib/calculations.ts:40-42)

  /** `max(3, ceil(0.4 * seedCount))`, in integers: the least value of at least 3 that is at
      least two fifths of `seedCount`. */
  function AnchorThreshold(seedCount: nat): (t: nat)
    ensures t >= 3
    ensures 5 * t >= 2 * seedCount
    ensures t == 3 || 5 * (t - 1) < 2 * seedCount
  {
    var ceiling := (2 * seedCount + 4) / 5;
    if ceiling > 3 then ceiling else 3
  }

  lemma AnchorThresholdMonotone(n: nat, m: nat)
    requires n <= m
    ensures AnchorThreshold(n) <= AnchorThreshold(m)
  {
  }

  /** Over the 1 to 10 seeds the input form admits, the threshold is 3 up to 7 seeds and 4 above. */
  lemma AnchorThresholdForAdmittedSeeds(n: nat)
    requires 1 <= n <= 10
    ensures AnchorThreshold(n) == if n <= 7 then 3 else 4
  {
  }

  // ---------------------------------------------------------------------------------------------
  // countAnchorsFollowing (lib/calculations.ts:44-58)

  predicate IsAnchorEdgeInto(e: Edge, username: string, anchors: set<string>)
  {
    e.followedUser == username && e.seed in anchors
  }

  /** The edges into `username` whose seed is an anchor, in order, repeats included. */
  function AnchorEdgesInto(edges: seq<Edge>, username: string, anchors: set<string>): seq<Edge>
  {
    if edges == [] then []
    else
      var e := edges[|edges| - 1];
      AnchorEdgesInto(edges[..|edges| - 1], username, anchors)
        + (if IsAnchorEdgeInto(e, username, anchors) then [e] else [])
  }

  method CountAnchorsFollowing(username: string, edges: seq<Edge>, anchors: set<string>) returns (count: nat)
    ensures count == |AnchorEdgesInto(edges, username, anchors)|
  {
    count := 0;
    for i := 0 to |edges|
      invariant count == |AnchorEdgesInto(edges[..i], username, anchors)|
    {
      if edges[i].followedUser == username && edges[i].seed in anchors {
        count := count + 1;
      }
      assert edges[..i + 1][..i] == edges[..i];
    }
    assert edges[..|edges|] == edges;
  }

  /** The count is taken with multiplicity: each matching edge counts as often as it occurs,
      every other edge not at all. */
  lemma {:induction false} AnchorEdgesMultiplicity(edges: seq<Edge>, username: string, anchors: set<string>, e: Edge)
    ensures multiset(AnchorEdgesInto(edges, username, anchors))[e]
         == if IsAnchorEdgeInto(e, username, anchors) then multiset(edges)[e] else 0
  {
    if edges != [] {
      var init := edges[..|edges| - 1];
      AnchorEdgesMultiplicity(init, username, anchors, e);
      assert edges == init + [edges[|edges| - 1]];
    }
  }

  lemma {:induction false} AnchorCountAtMostEdges(edges: seq<Edge>, username: string, anchors: set<string>)
    ensures |AnchorEdgesInto(edges, username, anchors)| <= |edges|
  {
    if edges != [] {
      AnchorCountAtMostEdges(edges[..|edges| - 1], username, anchors);
    }
  }

  /** With no anchors nothing is counted. */
  lemma {:induction false} NoAnchorsCountZero(edges: seq<Edge>, username: string)
    ensures |AnchorEdgesInto(edges, username, {})| == 0
  {
    if edges != [] {
      NoAnchorsCountZero(edges[..|edges| - 1], username);
    }
  }

  /** Edges whose seeds are all outside the anchor set count nothing, whatever user they
      point to. */
  lemma {:induction false} NonAnchorSeedsCountZero(edges: seq<Edge>, username: string, anchors: set<string>)
    requires forall i :: 0 <= i < |edges| ==> edges[i].seed !in anchors
    ensures AnchorEdgesInto(edges, username, anchors) == []
  {
    if edges != [] {
      var init := edges[..|edges| - 1];
      assert forall i :: 0 <= i < |init| ==> init[i] == edges[i];
      NonAnchorSeedsCountZero(init, username, anchors);
      assert !IsAnchorEdgeInto(edges[|edges| - 1], username, anchors);
    }
  }

  /** Unlike the seed weight, a duplicate anchor edge is counted again. */
  lemma DuplicateAnchorEdgeCountsAgain(edges: seq<Edge>, e: Edge, anchors: set<string>)
    requires e in edges && e.seed in anchors
    ensures |AnchorEdgesInto(edges + [e], e.followedUser, anchors)|
         == |AnchorEdgesInto(edges, e.followedUser, anchors)| + 1
  {
    assert (edges + [e])[..|edges|] == edges;
  }
}
