/** The plain records the engine works on (lib/types.ts). */
module Types {

  /** An optional field of a record (`field?: T` in the source). */
  datatype Option<T> = None | Some(value: T)

  /** "seed follows followedUser". */
  datatype Edge = Edge(seed: string, followedUser: string)

  /** A followed account with its seed weight, anchor flag and optional profile data. */
  datatype UserNode = UserNode(
    username: string,
    seedWeight: int,
    isAnchor: bool,
    followedBySeeds: seq<string>,
    bio: Option<string>,
    followerCount: Option<int>,
    profilePicUrl: Option<string>,
    isVerified: Option<bool>)

  /** The three tiers the graph view shows. */
  datatype ClusteredGraph = ClusteredGraph(
    anchors: seq<UserNode>,
    highWeight: seq<UserNode>,
    longTail: seq<UserNode>)

  /** One saved run; `timestamp` is in milliseconds since the epoch. */
  datatype SavedAnalysis = SavedAnalysis(
    id: string,
    timestamp: int,
    seeds: seq<string>,
    edges: seq<Edge>,
    results: seq<UserNode>,
    anchorThreshold: int)
}
