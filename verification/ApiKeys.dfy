/**
 The actions an API key can allow and the patterns of index names
 (crates/meilisearch-types/src/keys.rs and index_uid_pattern.rs).
 */
module ApiKeys {
  import opened Basics

  datatype Action =
    | All | Search | DocumentsAll | DocumentsAdd | DocumentsGet | DocumentsDelete | IndexesAll | IndexesAdd
    | IndexesGet | IndexesUpdate | IndexesDelete | IndexesSwap | TasksAll | TasksCancel | TasksDelete
    | TasksGet | SettingsAll | SettingsGet | SettingsUpdate | StatsAll | StatsGet | MetricsAll | MetricsGet
    | DumpsAll | DumpsCreate | SnapshotsAll | SnapshotsCreate | Version | KeysAdd | KeysGet | KeysUpdate
    | KeysDelete | ExperimentalFeaturesGet | ExperimentalFeaturesUpdate | NetworkGet | NetworkUpdate

  /** `Action::repr`. */
  function Repr(a: Action): (n: nat)
    ensures n < 36
  {
    match a
    case All => 0
    case Search => 1
    case DocumentsAll => 2
    case DocumentsAdd => 3
    case DocumentsGet => 4
    case DocumentsDelete => 5
    case IndexesAll => 6
    case IndexesAdd => 7
    case IndexesGet => 8
    case IndexesUpdate => 9
    case IndexesDelete => 10
    case IndexesSwap => 11
    case TasksAll => 12
    case TasksCancel => 13
    case TasksDelete => 14
    case TasksGet => 15
    case SettingsAll => 16
    case SettingsGet => 17
    case SettingsUpdate => 18
    case StatsAll => 19
    case StatsGet => 20
    case MetricsAll => 21
    case MetricsGet => 22
    case DumpsAll => 23
    case DumpsCreate => 24
    case SnapshotsAll => 25
    case SnapshotsCreate => 26
    case Version => 27
    case KeysAdd => 28
    case KeysGet => 29
    case KeysUpdate => 30
    case KeysDelete => 31
    case ExperimentalFeaturesGet => 32
    case ExperimentalFeaturesUpdate => 33
    case NetworkGet => 34
    case NetworkUpdate => 35
  }

  /** `Action::from_repr`, which knows every action but one. */
  function FromRepr(n: nat): Option<Action> {
    if n == 0 then Some(All)
    else if n == 1 then Some(Search)
    else if n == 2 then Some(DocumentsAll)
    else if n == 3 then Some(DocumentsAdd)
    else if n == 4 then Some(DocumentsGet)
    else if n == 5 then Some(DocumentsDelete)
    else if n == 6 then Some(IndexesAll)
    else if n == 7 then Some(IndexesAdd)
    else if n == 8 then Some(IndexesGet)
    else if n == 9 then Some(IndexesUpdate)
    else if n == 10 then Some(IndexesDelete)
    else if n == 11 then Some(IndexesSwap)
    else if n == 12 then Some(TasksAll)
    else if n == 13 then Some(TasksCancel)
    else if n == 14 then Some(TasksDelete)
    else if n == 15 then Some(TasksGet)
    else if n == 16 then Some(SettingsAll)
    else if n == 17 then Some(SettingsGet)
    else if n == 18 then Some(SettingsUpdate)
    else if n == 19 then Some(StatsAll)
    else if n == 20 then Some(StatsGet)
    else if n == 21 then Some(MetricsAll)
    else if n == 22 then Some(MetricsGet)
    else if n == 23 then Some(DumpsAll)
    else if n == 24 then Some(DumpsCreate)
    else if n == 26 then Some(SnapshotsCreate)
    else if n == 27 then Some(Version)
    else if n == 28 then Some(KeysAdd)
    else if n == 29 then Some(KeysGet)
    else if n == 30 then Some(KeysUpdate)
    else if n == 31 then Some(KeysDelete)
    else if n == 32 then Some(ExperimentalFeaturesGet)
    else if n == 33 then Some(ExperimentalFeaturesUpdate)
    else if n == 34 then Some(NetworkGet)
    else if n == 35 then Some(NetworkUpdate)
    else None
  }

  lemma FromReprInverts(a: Action)
    ensures FromRepr(Repr(a)) == if a == SnapshotsAll then None else Some(a)
  {
  }

  /** The actions in the order of their numbers. */
  const ACTIONS: seq<Action> := [
    All, Search, DocumentsAll, DocumentsAdd, DocumentsGet, DocumentsDelete, IndexesAll, IndexesAdd, IndexesGet,
    IndexesUpdate, IndexesDelete, IndexesSwap, TasksAll, TasksCancel, TasksDelete, TasksGet, SettingsAll, SettingsGet,
    SettingsUpdate, StatsAll, StatsGet, MetricsAll, MetricsGet, DumpsAll, DumpsCreate, SnapshotsAll, SnapshotsCreate,
    Version, KeysAdd, KeysGet, KeysUpdate, KeysDelete, ExperimentalFeaturesGet, ExperimentalFeaturesUpdate, NetworkGet,
    NetworkUpdate]

  lemma ReprIsPosition(a: Action)
    ensures Repr(a) < |ACTIONS| && ACTIONS[Repr(a)] == a
  {
  }

  /** The byte that stands for an action in a database key. */
  function ActionByte(a: Action): char {
    Repr(a) as char
  }

  lemma ActionByteInjective(a: Action, b: Action)
    requires ActionByte(a) == ActionByte(b)
    ensures a == b
  {
    FromReprInverts(a);
    FromReprInverts(b);
    assert ActionByte(a) as int == Repr(a) && ActionByte(b) as int == Repr(b);
  }

  /** What an action written in a key stands for (the match of `put_api_key`). */
  function Expand(a: Action): set<Action> {
    match a
    case All => set x: Action | Repr(x) < 36
    case DocumentsAll => {DocumentsGet, DocumentsDelete, DocumentsAdd}
    case IndexesAll => {IndexesAdd, IndexesDelete, IndexesGet, IndexesUpdate, IndexesSwap}
    case SettingsAll => {SettingsGet, SettingsUpdate}
    case DumpsAll => {DumpsCreate}
    case SnapshotsAll => {SnapshotsCreate}
    case TasksAll => {TasksGet, TasksDelete, TasksCancel}
    case StatsAll => {StatsGet}
    case MetricsAll => {MetricsGet}
    case other => {other}
  }

  /** What an action is about, as its written name says before the dot. */
  datatype Resource = Everything | OnSearch | OnDocuments | OnIndexes | OnTasks | OnSettings | OnStats | OnMetrics |
    OnDumps | OnSnapshots | OnVersion | OnKeys | OnExperimental | OnNetwork

  function ResourceOf(a: Action): Resource {
    match a
    case All => Everything
    case Search => OnSearch
    case DocumentsAll => OnDocuments case DocumentsAdd => OnDocuments
    case DocumentsGet => OnDocuments case DocumentsDelete => OnDocuments
    case IndexesAll => OnIndexes case IndexesAdd => OnIndexes case IndexesGet => OnIndexes
    case IndexesUpdate => OnIndexes case IndexesDelete => OnIndexes case IndexesSwap => OnIndexes
    case TasksAll => OnTasks case TasksCancel => OnTasks case TasksDelete => OnTasks case TasksGet => OnTasks
    case SettingsAll => OnSettings case SettingsGet => OnSettings case SettingsUpdate => OnSettings
    case StatsAll => OnStats case StatsGet => OnStats
    case MetricsAll => OnMetrics case MetricsGet => OnMetrics
    case DumpsAll => OnDumps case DumpsCreate => OnDumps
    case SnapshotsAll => OnSnapshots case SnapshotsCreate => OnSnapshots
    case Version => OnVersion
    case KeysAdd => OnKeys case KeysGet => OnKeys case KeysUpdate => OnKeys case KeysDelete => OnKeys
    case ExperimentalFeaturesGet => OnExperimental case ExperimentalFeaturesUpdate => OnExperimental
    case NetworkGet => OnNetwork case NetworkUpdate => OnNetwork
  }

  /** The actions whose written name ends in a star. */
  predicate IsWildcard(a: Action) {
    || a.All? || a.DocumentsAll? || a.IndexesAll? || a.TasksAll? || a.SettingsAll? || a.StatsAll?
    || a.MetricsAll? || a.DumpsAll? || a.SnapshotsAll?
  }

  /**
   The wildcard of a resource stands for all other actions on that resource, the wildcard of
   everything for every action, and any other action for itself.
   */
  lemma ExpansionFollowsNames(a: Action, b: Action)
    ensures b in Expand(a) <==>
            a == All || (if IsWildcard(a) then ResourceOf(b) == ResourceOf(a) && !IsWildcard(b) else b == a)
  {
    if a == All {
      AllExpansion(b);
    } else if IsWildcard(a) {
      WildcardExpansion(a, b);
      hide Expand, ResourceOf, IsWildcard;
    } else {
      PlainExpansion(a, b);
      hide Expand, ResourceOf, IsWildcard;
    }
  }

  lemma AllExpansion(b: Action)
    ensures b in Expand(All)
  {
    assert Repr(b) < 36;
  }

  lemma PlainExpansion(a: Action, b: Action)
    requires !IsWildcard(a)
    ensures b in Expand(a) <==> b == a
  {
    hide Repr;
  }

  /** The wildcard stands for the plain actions on its resource. */
  predicate StandsForItsResource(a: Action, b: Action) {
    b in Expand(a) <==> ResourceOf(b) == ResourceOf(a) && !IsWildcard(b)
  }

  lemma WildcardExpansion(a: Action, b: Action)
    requires IsWildcard(a) && a != All
    ensures StandsForItsResource(a, b)
  {
    hide StandsForItsResource;
    match a
    case DocumentsAll => DocumentsExpansion(b);
    case IndexesAll => IndexesExpansion(b);
    case TasksAll => TasksExpansion(b);
    case SettingsAll => SettingsExpansion(b);
    case StatsAll => StatsExpansion(b);
    case MetricsAll => MetricsExpansion(b);
    case DumpsAll => DumpsExpansion(b);
    case SnapshotsAll => SnapshotsExpansion(b);
  }

  lemma DocumentsExpansion(b: Action)
    ensures StandsForItsResource(DocumentsAll, b)
  {
    hide Repr;
  }

  lemma IndexesExpansion(b: Action)
    ensures StandsForItsResource(IndexesAll, b)
  {
    hide Repr;
  }

  lemma TasksExpansion(b: Action)
    ensures StandsForItsResource(TasksAll, b)
  {
    hide Repr;
  }

  lemma SettingsExpansion(b: Action)
    ensures StandsForItsResource(SettingsAll, b)
  {
    hide Repr;
  }

  lemma StatsExpansion(b: Action)
    ensures StandsForItsResource(StatsAll, b)
  {
    hide Repr;
  }

  lemma MetricsExpansion(b: Action)
    ensures StandsForItsResource(MetricsAll, b)
  {
    hide Repr;
  }

  lemma DumpsExpansion(b: Action)
    ensures StandsForItsResource(DumpsAll, b)
  {
    hide Repr;
  }

  lemma SnapshotsExpansion(b: Action)
    ensures StandsForItsResource(SnapshotsAll, b)
  {
    hide Repr;
  }

  /** The action is among those the list stands for. */
  predicate Allows(actions: seq<Action>, a: Action) {
    exists i :: 0 <= i < |actions| && a in Expand(actions[i])
  }

  // ---------- Index patterns ----------

  predicate IsUidChar(c: char) {
    'a' <= c <= 'z' || 'A' <= c <= 'Z' || '0' <= c <= '9' || c == '-' || c == '_'
  }

  predicate ValidIndexUid(s: string) {
    0 < |s| <= 400 && forall i :: 0 <= i < |s| ==> IsUidChar(s[i])
  }

  predicate EndsWithStar(s: string) {
    s != "" && s[|s| - 1] == '*'
  }

  /** What `IndexUidPattern::from_str` accepts. */
  predicate ValidPattern(s: string) {
    if EndsWithStar(s) then s == "*" || ValidIndexUid(s[..|s| - 1]) else ValidIndexUid(s)
  }

  type Pattern = s: string | ValidPattern(s) witness "*"

  /** `matches_str`. */
  predicate Matches(pattern: string, index: string) {
    if EndsWithStar(pattern) then pattern[..|pattern| - 1] <= index else pattern == index
  }

  predicate MatchesAll(pattern: string) {
    pattern == "*"
  }

  /** A pattern that ends in a star matches exactly the names that start with the rest of it. */
  lemma StarMatchesPrefix(u: string, name: string)
    ensures Matches(u + "*", name) <==> exists rest :: name == u + rest
  {
    var p := u + "*";
    assert p[..|p| - 1] == u && EndsWithStar(p);
    if u <= name {
      assert name == u + name[|u|..];
    }
  }

  /** A pattern without a star matches its own text only. */
  lemma PlainMatchesItself(u: string, name: string)
    requires u == "" || u[|u| - 1] != '*'
    ensures Matches(u, name) <==> u == name
  {
  }

  /** Names have up to 400 characters, and patterns a star more. */
  lemma LongestPattern(u: string)
    requires u != "" && forall i :: 0 <= i < |u| ==> IsUidChar(u[i])
    ensures ValidPattern(u) <==> |u| <= 400
    ensures ValidPattern(u + "*") <==> |u| <= 400
  {
    var p := u + "*";
    assert p[..|p| - 1] == u && EndsWithStar(p);
    assert IsUidChar(u[|u| - 1]);
  }

  /** Only the star matches every index. */
  lemma MatchesAllIff(p: Pattern)
    ensures MatchesAll(p) <==> forall uid: string :: ValidIndexUid(uid) ==> Matches(p, uid)
  {
    if !MatchesAll(p) {
      var other := if p[0] == 'a' then "b" else "a";
      assert ValidIndexUid(other) && !Matches(p, other);
    }
  }
}
