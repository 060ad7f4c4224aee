/** The saved-analysis store (lib/storage.ts): a list of records persisted under one key, pruned
    of records older than seven days whenever it is read. The persisted list is the `value`
    field of an `AnalysisStore`; the clock reading and the generated id are parameters. */
module Storage {
  import opened Types
  import opened Collections

  /** Seven days in milliseconds. */
  const MaxAgeMs: int := 7 * 24 * 60 * 60 * 1000

  /** What the storage key holds: nothing (or the empty text), text that does not parse as a
      list of records, or a list of records. */
  datatype StoredValue = Missing | Unreadable | Stored(analyses: seq<SavedAnalysis>)

  /** A record is kept while strictly less than `MaxAgeMs` has passed since it was saved. */
  predicate IsLive(a: SavedAnalysis, now: int)
  {
    now - a.timestamp < MaxAgeMs
  }

  function LiveAt(now: int): SavedAnalysis -> bool { (a: SavedAnalysis) => IsLive(a, now) }

  function HasOtherId(id: string): SavedAnalysis -> bool { (a: SavedAnalysis) => a.id != id }

  /** The records a load returns from a list: the live ones, in stored order. */
  function Unexpired(analyses: seq<SavedAnalysis>, now: int): seq<SavedAnalysis>
  {
    Filter(analyses, LiveAt(now))
  }

  /** The list a stored value stands for; a load treats missing and unreadable text as empty. */
  function Readable(v: StoredValue): seq<SavedAnalysis>
  {
    if v.Stored? then v.analyses else []
  }

  /** The records of a list without the given id. */
  function WithoutId(analyses: seq<SavedAnalysis>, id: string): seq<SavedAnalysis>
  {
    Filter(analyses, HasOtherId(id))
  }

  /** `Array.prototype.find` by id: the first record with the id, if any. */
  function FindById(analyses: seq<SavedAnalysis>, id: string): (found: Option<SavedAnalysis>)
    ensures found.None? <==> forall a :: a in analyses ==> a.id != id
    ensures found.Some? ==>
      found.value.id == id
      && exists k :: (0 <= k < |analyses| && analyses[k] == found.value
                      && forall j :: 0 <= j < k ==> analyses[j].id != id)
  {
    if analyses == [] then None
    else if analyses[0].id == id then Some(analyses[0])
    else
      var found := FindById(analyses[1..], id);
      assert forall a :: a in analyses <==> a == analyses[0] || a in analyses[1..];
      if found.Some? then
        var k :| 0 <= k < |analyses[1..]| && analyses[1..][k] == found.value
          && forall j :: 0 <= j < k ==> analyses[1..][j].id != id;
        assert analyses[k + 1] == found.value;
        found
      else found
  }

  /** The stored value after a load: rewritten to the live records only when one was pruned.
      Either way it then reads as the live records, and missing or unreadable text stays so. */
  function AfterLoad(v: StoredValue, now: int): (after: StoredValue)
    ensures Readable(after) == Unexpired(Readable(v), now)
    ensures after.Stored? <==> v.Stored?
  {
    if v.Stored? && |Unexpired(v.analyses, now)| != |v.analyses| then Stored(Unexpired(v.analyses, now))
    else if v.Stored? then
      FilterKeepsLength(v.analyses, LiveAt(now));
      FilterKeepsAll(v.analyses, LiveAt(now));
      v
    else v
  }

  /** The stored value after a save: the new record, then the live records of before. */
  function AfterSave(v: StoredValue, analysis: SavedAnalysis, now: int): (after: StoredValue)
    ensures after.Stored?
    ensures forall a :: a in after.analyses <==> a == analysis || (a in Readable(v) && IsLive(a, now))
  {
    Stored([analysis] + Unexpired(Readable(v), now))
  }

  /** The stored value after a delete: the live records of before without the id. */
  function AfterDelete(v: StoredValue, id: string, now: int): (after: StoredValue)
    ensures after.Stored?
    ensures forall a :: a in after.analyses <==> a in Readable(v) && IsLive(a, now) && a.id != id
  {
    Stored(WithoutId(Unexpired(Readable(v), now), id))
  }

  class AnalysisStore {
    var value: StoredValue

    constructor (initial: StoredValue)
      ensures value == initial
    {
      value := initial;
    }

    /** `loadAnalyses`: the live records; the stored list is rewritten only if one expired. */
    method LoadAnalyses(now: int) returns (valid: seq<SavedAnalysis>)
      modifies this
      ensures valid == Unexpired(Readable(old(value)), now)
      ensures value == AfterLoad(old(value), now)
    {
      match value {
        case Stored(analyses) =>
          valid := Unexpired(analyses, now);
          if |valid| != |analyses| {
            value := Stored(valid);
          }
        case Missing =>
          valid := [];
        case Unreadable =>
          valid := [];
      }
    }

    /** `saveAnalysis`: prepends a record stamped `now` to the loaded list and stores the result. */
    method SaveAnalysis(id: string, now: int, seeds: seq<string>, edges: seq<Edge>,
                        results: seq<UserNode>, anchorThreshold: int)
      modifies this
      ensures value == AfterSave(old(value), SavedAnalysis(id, now, seeds, edges, results, anchorThreshold), now)
    {
      var analysis := SavedAnalysis(id, now, seeds, edges, results, anchorThreshold);
      var existing := LoadAnalyses(now);
      value := Stored([analysis] + existing);
    }

    /** `deleteAnalysis`: stores the loaded list without the records of the id. */
    method DeleteAnalysis(id: string, now: int)
      modifies this
      ensures value == AfterDelete(old(value), id, now)
    {
      var existing := LoadAnalyses(now);
      value := Stored(WithoutId(existing, id));
    }

    /** `getAnalysis`: the first live record with the id; loading may prune the store. */
    method GetAnalysis(id: string, now: int) returns (found: Option<SavedAnalysis>)
      modifies this
      ensures found == FindById(Unexpired(Readable(old(value)), now), id)
      ensures value == AfterLoad(old(value), now)
    {
      var analyses := LoadAnalyses(now);
      found := FindById(analyses, id);
    }
  }

  /** Seven days are 604800000 ms: a record is still live one millisecond before that age,
      expired at it, and live at every moment up to its own timestamp. */
  lemma ExpiryBoundary(a: SavedAnalysis)
    ensures MaxAgeMs == 604800000
    ensures IsLive(a, a.timestamp + 604799999) && !IsLive(a, a.timestamp + 604800000)
    ensures forall now :: now <= a.timestamp ==> IsLive(a, now)
  {
  }

  /** A load keeps exactly the live records, in stored order. */
  lemma UnexpiredIsLiveSubsequence(analyses: seq<SavedAnalysis>, now: int)
    ensures IsSubsequence(Unexpired(analyses, now), analyses)
    ensures forall a :: a in Unexpired(analyses, now) <==> a in analyses && now - a.timestamp < MaxAgeMs
  {
    FilterIsSubsequence(analyses, LiveAt(now));
  }

  /** The store is rewritten by a load iff it holds a list with a record that expired; a record
      saved at most seven days minus one millisecond ago always survives. */
  lemma LoadRewritesOnlyWhenPruned(v: StoredValue, now: int)
    ensures AfterLoad(v, now) != v <==> v.Stored? && exists a :: a in v.analyses && !IsLive(a, now)
    ensures Readable(AfterLoad(v, now)) == Unexpired(Readable(v), now)
  {
    if v.Stored? {
      FilterKeepsLength(v.analyses, LiveAt(now));
      if |Unexpired(v.analyses, now)| == |v.analyses| {
        FilterKeepsAll(v.analyses, LiveAt(now));
      }
    } else {
      assert Readable(v) == [];
    }
  }

  /** A second load at the same moment changes nothing and returns the same records. */
  lemma LoadIsIdempotent(v: StoredValue, now: int)
    ensures AfterLoad(AfterLoad(v, now), now) == AfterLoad(v, now)
    ensures Unexpired(Readable(AfterLoad(v, now)), now) == Unexpired(Readable(v), now)
  {
    LoadRewritesOnlyWhenPruned(v, now);
    LoadRewritesOnlyWhenPruned(AfterLoad(v, now), now);
    FilterSequential(Readable(v), LiveAt(now), LiveAt(now), LiveAt(now));
  }

  /** Expiry only moves forward: pruning at `now` and then at a later moment is pruning at the
      later moment. */
  lemma PruningIsMonotone(analyses: seq<SavedAnalysis>, now: int, later: int)
    requires now <= later
    ensures Unexpired(Unexpired(analyses, now), later) == Unexpired(analyses, later)
  {
    FilterSequential(analyses, LiveAt(now), LiveAt(later), LiveAt(later));
  }

  /** After a save the store is the new record, carrying exactly the given data and stamped
      `now`, followed by the previously live records. */
  lemma SaveShape(v: StoredValue, id: string, now: int, seeds: seq<string>, edges: seq<Edge>,
                  results: seq<UserNode>, anchorThreshold: int)
    ensures var after := Readable(AfterSave(v, SavedAnalysis(id, now, seeds, edges, results, anchorThreshold), now));
      && |after| == |Unexpired(Readable(v), now)| + 1
      && after[0] == SavedAnalysis(id, now, seeds, edges, results, anchorThreshold)
      && after[1..] == Unexpired(Readable(v), now)
  {
  }

  /** A record just saved is found by its id until it expires. */
  lemma SaveThenGet(v: StoredValue, id: string, now: int, seeds: seq<string>, edges: seq<Edge>,
                    results: seq<UserNode>, anchorThreshold: int, later: int)
    requires now <= later && later - now < MaxAgeMs
    ensures var saved := SavedAnalysis(id, now, seeds, edges, results, anchorThreshold);
      FindById(Unexpired(Readable(AfterSave(v, saved, now)), later), id) == Some(saved)
  {
    var saved := SavedAnalysis(id, now, seeds, edges, results, anchorThreshold);
    var stored := [saved] + Unexpired(Readable(v), now);
    assert Unexpired(stored, later) == [saved] + Unexpired(stored[1..], later);
  }

  /** After a delete no record with the id is found, at that moment or later, and every other
      live record is still there, in order. */
  lemma DeleteThenGet(v: StoredValue, id: string, now: int, later: int)
    ensures FindById(Unexpired(Readable(AfterDelete(v, id, now)), later), id).None?
    ensures forall a :: a in Readable(AfterDelete(v, id, now)) <==> a in Readable(v) && IsLive(a, now) && a.id != id
    ensures IsSubsequence(Readable(AfterDelete(v, id, now)), Unexpired(Readable(v), now))
  {
    FilterIsSubsequence(Unexpired(Readable(v), now), HasOtherId(id));
  }
}
