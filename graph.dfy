/** Anchor marking, the three-tier clustering and the presentation filters (lib/graph.ts). */
module Graph {
  import opened Types
  import opened Collections
  import opened WeightOrder

  // ---------------------------------------------------------------------------------------------
  // markAnchors (lib/graph.ts:3-8)

  /** Every user, in order, with `isAnchor` recomputed as `seedWeight >= threshold`. */
  function MarkAnchors(users: seq<UserNode>, threshold: int): (marked: seq<UserNode>)
    ensures |marked| == |users|
    ensures forall i :: 0 <= i < |users| ==> marked[i].isAnchor == (users[i].seedWeight >= threshold)
    ensures forall i :: 0 <= i < |users| ==> marked[i].(isAnchor := users[i].isAnchor) == users[i]
  {
    if users == [] then []
    else [users[0].(isAnchor := users[0].seedWeight >= threshold)] + MarkAnchors(users[1..], threshold)
  }

  /** Marking depends only on the weights: marking again with the same threshold changes nothing. */
  lemma MarkAnchorsIdempotent(users: seq<UserNode>, threshold: int)
    ensures MarkAnchors(MarkAnchors(users, threshold), threshold) == MarkAnchors(users, threshold)
  {
    var once := MarkAnchors(users, threshold);
    var twice := MarkAnchors(once, threshold);
    forall i | 0 <= i < |users| ensures twice[i] == once[i] {
      assert twice[i].(isAnchor := once[i].isAnchor) == once[i];
    }
  }

  // ---------------------------------------------------------------------------------------------
  // clusterByWeight (lib/graph.ts:10-32)

  datatype Tier = AnchorTier | HighWeightTier | LongTailTier

  /** The tier the loop pushes a user into: anchors first, then weight at least 2, then the rest. */
  function TierOf(u: UserNode): Tier
  {
    if u.isAnchor then AnchorTier else if u.seedWeight >= 2 then HighWeightTier else LongTailTier
  }

  /** The users of tier `t`, in input order. */
  function InTier(users: seq<UserNode>, t: Tier): seq<UserNode>
  {
    if users == [] then []
    else
      var u := users[|users| - 1];
      InTier(users[..|users| - 1], t) + (if TierOf(u) == t then [u] else [])
  }

  /** The clustered graph: each tier in input order, then sorted stably by weight, heaviest first. */
  function Clustered(users: seq<UserNode>): ClusteredGraph
  {
    ClusteredGraph(
      WeightSorted(InTier(users, AnchorTier)),
      WeightSorted(InTier(users, HighWeightTier)),
      WeightSorted(InTier(users, LongTailTier)))
  }

  /** The threshold argument is accepted and not used: the tiers follow from `isAnchor`. */
  method ClusterByWeight(users: seq<UserNode>, anchorThreshold: int) returns (graph: ClusteredGraph)
    ensures graph == Clustered(users)
  {
    var anchors: seq<UserNode> := [];
    var highWeight: seq<UserNode> := [];
    var longTail: seq<UserNode> := [];
    for i := 0 to |users|
      invariant anchors == InTier(users[..i], AnchorTier)
      invariant highWeight == InTier(users[..i], HighWeightTier)
      invariant longTail == InTier(users[..i], LongTailTier)
    {
      var user := users[i];
      if user.isAnchor {
        anchors := anchors + [user];
      } else if user.seedWeight >= 2 {
        highWeight := highWeight + [user];
      } else {
        longTail := longTail + [user];
      }
      assert users[..i + 1][..i] == users[..i];
    }
    assert users[..|users|] == users;
    var sortedAnchors := SortedCopy(anchors);
    var sortedHighWeight := SortedCopy(highWeight);
    var sortedLongTail := SortedCopy(longTail);
    graph := ClusteredGraph(sortedAnchors, sortedHighWeight, sortedLongTail);
  }

  lemma {:induction false} InTierMembers(users: seq<UserNode>, t: Tier)
    ensures forall x :: x in InTier(users, t) <==> x in users && TierOf(x) == t
  {
    if users != [] {
      InTierMembers(users[..|users| - 1], t);
      assert users == users[..|users| - 1] + [users[|users| - 1]];
    }
  }

  lemma InTierSnoc(users: seq<UserNode>, u: UserNode, t: Tier)
    ensures InTier(users + [u], t) == InTier(users, t) + (if TierOf(u) == t then [u] else [])
  {
    assert (users + [u])[..|users|] == users;
  }

  /** The three tier multisets, summed. */
  function TierTotal(users: seq<UserNode>): multiset<UserNode>
  {
    multiset(InTier(users, AnchorTier)) + multiset(InTier(users, HighWeightTier))
      + multiset(InTier(users, LongTailTier))
  }

  lemma TierTotalSnoc(users: seq<UserNode>, u: UserNode)
    ensures TierTotal(users + [u]) == TierTotal(users) + multiset{u}
  {
    InTierSnoc(users, u, AnchorTier);
    InTierSnoc(users, u, HighWeightTier);
    InTierSnoc(users, u, LongTailTier);
  }

  lemma {:induction false} InTierPartition(users: seq<UserNode>)
    ensures TierTotal(users) == multiset(users)
  {
    if users != [] {
      var init, last := users[..|users| - 1], users[|users| - 1];
      InTierPartition(init);
      assert users == init + [last];
      TierTotalSnoc(init, last);
    }
  }

  /** The three tiers together hold every input user exactly as often as the input does. */
  lemma ClusterIsPartition(users: seq<UserNode>)
    ensures var g := Clustered(users);
      multiset(g.anchors) + multiset(g.highWeight) + multiset(g.longTail) == multiset(users)
  {
    InTierPartition(users);
    WeightSortedPermutes(InTier(users, AnchorTier));
    WeightSortedPermutes(InTier(users, HighWeightTier));
    WeightSortedPermutes(InTier(users, LongTailTier));
  }

  /** Tier membership: a user is in the anchors iff it is marked, in highWeight iff it is not
      marked and weighs at least 2, in longTail iff neither; nothing else is in a tier. */
  lemma ClusterTierMembership(users: seq<UserNode>)
    ensures var g := Clustered(users);
      && (forall x :: x in g.anchors <==> x in users && x.isAnchor)
      && (forall x :: x in g.highWeight <==> x in users && !x.isAnchor && x.seedWeight >= 2)
      && (forall x :: x in g.longTail <==> x in users && !x.isAnchor && x.seedWeight < 2)
  {
    var g := Clustered(users);
    InTierMembers(users, AnchorTier);
    InTierMembers(users, HighWeightTier);
    InTierMembers(users, LongTailTier);
    WeightSortedPermutes(InTier(users, AnchorTier));
    WeightSortedPermutes(InTier(users, HighWeightTier));
    WeightSortedPermutes(InTier(users, LongTailTier));
    forall x ensures x in g.anchors <==> x in InTier(users, AnchorTier) {
      assert x in g.anchors <==> x in multiset(g.anchors);
    }
    forall x ensures x in g.highWeight <==> x in InTier(users, HighWeightTier) {
      assert x in g.highWeight <==> x in multiset(g.highWeight);
    }
    forall x ensures x in g.longTail <==> x in InTier(users, LongTailTier) {
      assert x in g.longTail <==> x in multiset(g.longTail);
    }
  }

  /** Each tier is non-increasing by weight, and users of equal weight keep their input order. */
  lemma ClusterTiersSortedStably(users: seq<UserNode>, w: int)
    ensures var g := Clustered(users);
      && SortedByWeight(g.anchors) && SortedByWeight(g.highWeight) && SortedByWeight(g.longTail)
      && WithWeight(g.anchors, w) == WithWeight(InTier(users, AnchorTier), w)
      && WithWeight(g.highWeight, w) == WithWeight(InTier(users, HighWeightTier), w)
      && WithWeight(g.longTail, w) == WithWeight(InTier(users, LongTailTier), w)
  {
    WeightSortedIsSorted(InTier(users, AnchorTier));
    WeightSortedIsSorted(InTier(users, HighWeightTier));
    WeightSortedIsSorted(InTier(users, LongTailTier));
    WeightSortedIsStable(InTier(users, AnchorTier), w);
    WeightSortedIsStable(InTier(users, HighWeightTier), w);
    WeightSortedIsStable(InTier(users, LongTailTier), w);
  }

  /** After marking with threshold `t`, the anchors are the users weighing at least `t` and
      highWeight those weighing from 2 up to `t - 1`. */
  lemma MarkedClusterTiers(users: seq<UserNode>, t: int)
    ensures var g := Clustered(MarkAnchors(users, t));
      && (forall x :: x in g.anchors ==> x.seedWeight >= t)
      && (forall x :: x in g.highWeight ==> 2 <= x.seedWeight < t)
      && (forall x :: x in g.longTail ==> x.seedWeight < 2 && x.seedWeight < t)
  {
    var marked := MarkAnchors(users, t);
    ClusterTierMembership(marked);
    forall x | x in marked ensures x.isAnchor <==> x.seedWeight >= t {
      var i :| 0 <= i < |marked| && marked[i] == x;
      assert marked[i].(isAnchor := users[i].isAnchor) == users[i];
    }
  }

  lemma {:induction false} NoLongTailWhenHeavy(users: seq<UserNode>)
    requires forall x :: x in users ==> x.seedWeight >= 2
    ensures InTier(users, LongTailTier) == []
  {
    if users != [] {
      assert users[|users| - 1] in users;
      assert forall x :: x in users[..|users| - 1] ==> x in users;
      NoLongTailWhenHeavy(users[..|users| - 1]);
    }
  }

  /** When every user weighs at least 2, the long tail is empty: the third branch of the loop is
      never taken. */
  lemma LongTailEmptyWhenHeavy(users: seq<UserNode>)
    requires forall x :: x in users ==> x.seedWeight >= 2
    ensures Clustered(users).longTail == []
  {
    NoLongTailWhenHeavy(users);
  }

  // ---------------------------------------------------------------------------------------------
  // applyFilters (lib/graph.ts:34-59)

  /** The optional filter settings; an absent or empty keyword and a non-positive or absent
      ceiling impose nothing. */
  datatype Filters = Filters(usernameKeyword: Option<string>, bioKeyword: Option<string>, maxFollowers: Option<int>)

  /** `toLowerCase` on ASCII letters; every other character is left as it is. */
  function LowerChar(c: char): char
  {
    if 'A' <= c <= 'Z' then (c as int - 'A' as int + 'a' as int) as char else c
  }

  function Lower(s: string): (r: string)
    ensures |r| == |s| && forall i :: 0 <= i < |s| ==> r[i] == LowerChar(s[i])
  {
    if s == [] then [] else [LowerChar(s[0])] + Lower(s[1..])
  }

  /** `String.prototype.includes`: `k` is a prefix of `s` or of one of its suffixes. */
  predicate Contains(s: string, k: string)
  {
    k <= s || (s != [] && Contains(s[1..], k))
  }

  /** `k` occurs in `s` starting at offset `i`. */
  predicate OccursAt(s: string, k: string, i: int)
  {
    0 <= i && i + |k| <= |s| && s[i..i + |k|] == k
  }

  /** `Contains` is substring search: it holds iff `k` occurs in `s` at some offset. */
  lemma ContainsIffOccurs(s: string, k: string)
    ensures Contains(s, k) <==> exists i :: OccursAt(s, k, i)
  {
    if Contains(s, k) {
      var i := Occurrence(s, k);
    }
    forall i | OccursAt(s, k, i) ensures Contains(s, k) {
      OccurrenceIsContained(s, k, i);
    }
  }

  /** An occurrence in the tail is an occurrence one place further on in `s`. */
  lemma OccursAtShift(s: string, k: string, i: nat)
    requires s != []
    ensures OccursAt(s[1..], k, i) <==> OccursAt(s, k, i + 1)
  {
    if i + 1 + |k| <= |s| {
      assert s[1..][i..i + |k|] == s[i + 1..i + 1 + |k|];
    }
  }

  /** Where `includes` finds the keyword: an offset at which it occurs. */
  lemma {:induction false} Occurrence(s: string, k: string) returns (i: nat)
    requires Contains(s, k)
    ensures OccursAt(s, k, i)
    decreases |s|
  {
    if k <= s {
      assert s[0..|k|] == k;
      i := 0;
    } else {
      var j := Occurrence(s[1..], k);
      OccursAtShift(s, k, j);
      i := j + 1;
    }
  }

  /** An occurrence at any offset makes `includes` hold. */
  lemma {:induction false} OccurrenceIsContained(s: string, k: string, i: int)
    requires OccursAt(s, k, i)
    ensures Contains(s, k)
    decreases i
  {
    if i == 0 {
      assert s[..|k|] == s[0..|k|] == k;
    } else {
      OccursAtShift(s, k, i - 1);
      OccurrenceIsContained(s[1..], k, i - 1);
    }
  }

  /** A keyword is a filter when it is present and non-empty (JavaScript truthiness). */
  predicate IsSet(keyword: Option<string>)
  {
    keyword.Some? && keyword.value != []
  }

  /** The ceiling is a filter when it is present and positive. */
  predicate HasCeiling(f: Filters)
  {
    f.maxFollowers.Some? && f.maxFollowers.value > 0
  }

  /** `u.followerCount || 0`. */
  function FollowersOrZero(u: UserNode): int
  {
    if u.followerCount.Some? then u.followerCount.value else 0
  }

  predicate NameMatches(u: UserNode, keyword: string)
  {
    Contains(Lower(u.username), Lower(keyword))
  }

  /** A user without a bio never matches. */
  predicate BioMatches(u: UserNode, keyword: string)
  {
    u.bio.Some? && Contains(Lower(u.bio.value), Lower(keyword))
  }

  function ByName(keyword: string): UserNode -> bool { u => NameMatches(u, keyword) }
  function ByBio(keyword: string): UserNode -> bool { u => BioMatches(u, keyword) }
  function ByCeiling(ceiling: int): UserNode -> bool { u => FollowersOrZero(u) <= ceiling }

  /** The three filters applied one after the other, each only when it is set: the result is
      never longer than the input and holds only input users meeting every set condition. */
  function ApplyFilters(users: seq<UserNode>, f: Filters): (r: seq<UserNode>)
    ensures |r| <= |users|
    ensures forall u :: u in r ==> u in users && Admits(f, u)
  {
    var byName := if IsSet(f.usernameKeyword) then Filter(users, ByName(f.usernameKeyword.value)) else users;
    var byBio := if IsSet(f.bioKeyword) then Filter(byName, ByBio(f.bioKeyword.value)) else byName;
    if HasCeiling(f) then Filter(byBio, ByCeiling(f.maxFollowers.value)) else byBio
  }

  /** The conjunction of the three conditions, each vacuous when its filter is not set. */
  predicate Admits(f: Filters, u: UserNode)
  {
    && (IsSet(f.usernameKeyword) ==> NameMatches(u, f.usernameKeyword.value))
    && (IsSet(f.bioKeyword) ==> BioMatches(u, f.bioKeyword.value))
    && (HasCeiling(f) ==> FollowersOrZero(u) <= f.maxFollowers.value)
  }

  function Admission(f: Filters): UserNode -> bool { u => Admits(f, u) }

  /** Each stage as a condition on every user, vacuous when its filter is not set. */
  function NameStage(f: Filters): UserNode -> bool
  {
    u => IsSet(f.usernameKeyword) ==> NameMatches(u, f.usernameKeyword.value)
  }

  function BioStage(f: Filters): UserNode -> bool
  {
    u => IsSet(f.bioKeyword) ==> BioMatches(u, f.bioKeyword.value)
  }

  function CeilingStage(f: Filters): UserNode -> bool
  {
    u => HasCeiling(f) ==> FollowersOrZero(u) <= f.maxFollowers.value
  }

  function NameAndBioStage(f: Filters): UserNode -> bool
  {
    u => NameStage(f)(u) && BioStage(f)(u)
  }

  lemma NameStageFilters(users: seq<UserNode>, f: Filters)
    ensures (if IsSet(f.usernameKeyword) then Filter(users, ByName(f.usernameKeyword.value)) else users)
         == Filter(users, NameStage(f))
  {
    if IsSet(f.usernameKeyword) {
      FilterSame(users, ByName(f.usernameKeyword.value), NameStage(f));
    } else {
      FilterKeepsAll(users, NameStage(f));
    }
  }

  lemma BioStageFilters(users: seq<UserNode>, f: Filters)
    ensures (if IsSet(f.bioKeyword) then Filter(users, ByBio(f.bioKeyword.value)) else users)
         == Filter(users, BioStage(f))
  {
    if IsSet(f.bioKeyword) {
      FilterSame(users, ByBio(f.bioKeyword.value), BioStage(f));
    } else {
      FilterKeepsAll(users, BioStage(f));
    }
  }

  lemma CeilingStageFilters(users: seq<UserNode>, f: Filters)
    ensures (if HasCeiling(f) then Filter(users, ByCeiling(f.maxFollowers.value)) else users)
         == Filter(users, CeilingStage(f))
  {
    if HasCeiling(f) {
      FilterSame(users, ByCeiling(f.maxFollowers.value), CeilingStage(f));
    } else {
      FilterKeepsAll(users, CeilingStage(f));
    }
  }

  /** The chain of filters is one filter by the conjunction: a user is kept iff its lower-cased
      name contains the lower-cased name keyword (if set), it has a bio whose lower-cased form
      contains the lower-cased bio keyword (if set), and its follower count, 0 when unknown, is
      at most the ceiling (if positive). */
  lemma ApplyFiltersIsConjunction(users: seq<UserNode>, f: Filters)
    ensures ApplyFilters(users, f) == Filter(users, Admission(f))
  {
    var byName := if IsSet(f.usernameKeyword) then Filter(users, ByName(f.usernameKeyword.value)) else users;
    var byBio := if IsSet(f.bioKeyword) then Filter(byName, ByBio(f.bioKeyword.value)) else byName;
    assert ApplyFilters(users, f)
        == if HasCeiling(f) then Filter(byBio, ByCeiling(f.maxFollowers.value)) else byBio;
    NameStageFilters(users, f);
    BioStageFilters(byName, f);
    CeilingStageFilters(byBio, f);
    StagesCompose(f);
    FilterSequential(users, NameStage(f), BioStage(f), NameAndBioStage(f));
    FilterSequential(users, NameAndBioStage(f), CeilingStage(f), Admission(f));
  }

  /** The stages, applied in turn, admit what their conjunction admits. */
  lemma StagesCompose(f: Filters)
    ensures forall u :: NameAndBioStage(f)(u) == (NameStage(f)(u) && BioStage(f)(u))
    ensures forall u :: Admission(f)(u) == (NameAndBioStage(f)(u) && CeilingStage(f)(u))
  {
  }

  /** Filtering is a view: the result is a subsequence of the input (order kept, elements
      unchanged, nothing added) and holds exactly the admitted users. */
  lemma ApplyFiltersIsView(users: seq<UserNode>, f: Filters)
    ensures IsSubsequence(ApplyFilters(users, f), users)
    ensures forall u :: u in ApplyFilters(users, f) <==> u in users && Admits(f, u)
  {
    ApplyFiltersIsConjunction(users, f);
    FilterIsSubsequence(users, Admission(f));
  }

  /** With no keyword set and no positive ceiling, filtering is the identity. */
  lemma ApplyFiltersIdentity(users: seq<UserNode>, f: Filters)
    requires !IsSet(f.usernameKeyword) && !IsSet(f.bioKeyword) && !HasCeiling(f)
    ensures ApplyFilters(users, f) == users
  {
  }

  /** A user whose follower count is unknown is never dropped by the follower filter: if it
      meets the set keyword conditions it is kept, whatever `maxFollowers` is, zero and
      negative values included. */
  lemma UnknownFollowerCountPasses(users: seq<UserNode>, u: UserNode, f: Filters)
    requires u in users && u.followerCount.None?
    requires IsSet(f.usernameKeyword) ==> NameMatches(u, f.usernameKeyword.value)
    requires IsSet(f.bioKeyword) ==> BioMatches(u, f.bioKeyword.value)
    ensures u in ApplyFilters(users, f)
  {
    ApplyFiltersIsView(users, f);
  }

  /** Filtering a tier never changes what counts as an anchor: what remains of the anchors are
      anchors of the input, what remains of the other tiers are not. */
  lemma FilteredTiersKeepClassification(users: seq<UserNode>, f: Filters)
    ensures var g := Clustered(users);
      && (forall x :: x in ApplyFilters(g.anchors, f) ==> x in users && x.isAnchor)
      && (forall x :: x in ApplyFilters(g.highWeight, f) ==> x in users && !x.isAnchor)
      && (forall x :: x in ApplyFilters(g.longTail, f) ==> x in users && !x.isAnchor)
  {
    var g := Clustered(users);
    ClusterTierMembership(users);
    ApplyFiltersIsView(g.anchors, f);
    ApplyFiltersIsView(g.highWeight, f);
    ApplyFiltersIsView(g.longTail, f);
  }
}
