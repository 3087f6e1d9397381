/**
 The API-key store and its inverted index (crates/meilisearch-auth/src/store.rs and lib.rs).

 Databases are maps; the keys of the inverted index are byte strings, a byte being written as the
 character with its code.  Times are integers.
 */
module AuthStore {
  import opened Basics
  import opened ApiKeys

  type Uid = s: string | |s| == 16 witness "0123456789abcdef"

  /** `None` is a key that never expires. */
  type Expiration = Option<int>

  datatype Key = Key(uid: Uid, actions: seq<Action>, indexes: seq<Pattern>, expiresAt: Expiration)

  datatype Result<+T> = Ok(value: T) | Err

  // ---------- The codec ----------

  /** `KeyIdActionCodec::bytes_encode`. */
  function Encode(uid: Uid, action: Action, index: Option<string>): string {
    uid + [ActionByte(action)] + if index.Some? then index.value else ""
  }

  /** `KeyIdActionCodec::bytes_decode`. */
  function Decode(bytes: string): Option<(Uid, Action, Option<string>)> {
    if |bytes| < 17 then None
    else match FromRepr(bytes[16] as int)
      case None => None
      case Some(action) => Some((bytes[..16], action, if |bytes| == 17 then None else Some(bytes[17..])))
  }

  lemma EncodeParts(uid: Uid, action: Action, index: Option<string>)
    ensures var k := Encode(uid, action, index);
            && |k| >= 17 && k[..16] == uid && k[16] == ActionByte(action)
            && k[17..] == if index.Some? then index.value else ""
  {
  }

  /** The codec loses exactly `SnapshotsAll` and the difference between no index and an empty one. */
  lemma CodecRoundTrip(uid: Uid, action: Action, index: Option<string>)
    ensures Decode(Encode(uid, action, index)) == Some((uid, action, index)) <==>
            action != SnapshotsAll && index != Some("")
  {
    EncodeParts(uid, action, index);
    FromReprInverts(action);
  }

  // ---------- The meaning of a key ----------

  predicate Unrestricted(key: Key) {
    exists i :: 0 <= i < |key.indexes| && MatchesAll(key.indexes[i])
  }

  /** The key covers the index, or any index at all if none is named. */
  predicate Covers(key: Key, index: Option<string>) {
    match index
    case Some(name) => exists i :: 0 <= i < |key.indexes| && Matches(key.indexes[i], name)
    case None => key.indexes != []
  }

  predicate Unexpired(e: Expiration, now: int) {
    e.None? || now < e.value
  }

  predicate Authorized(key: Key, action: Action, index: Option<string>, now: int) {
    Allows(key.actions, action) && Covers(key, index) && Unexpired(key.expiresAt, now)
  }

  /**
   What is answered for a key: as its record says, except that entries of `SnapshotsAll`, which the
   codec cannot decode, are an error unless both lookups find theirs without decoding any.
   */
  function Verdict(key: Key, action: Action, index: Option<string>, now: int): Result<bool> {
    if action == SnapshotsAll && Allows(key.actions, action) && key.indexes != [] &&
       !(Unrestricted(key) && index == Some(""))
    then Err
    else Ok(Authorized(key, action, index, now))
  }

  /** A key for a prefix covers every name with that prefix, a key for a name that name, and no key any other. */
  lemma CoversNames(key: Key, name: string)
    ensures Covers(key, Some(name)) <==>
            || (exists prefix, rest :: prefix + "*" in key.indexes && name == prefix + rest)
            || name in key.indexes
  {
    if prefix, rest: string :| prefix + "*" in key.indexes && name == prefix + rest {
      StarMatchesPrefix(prefix, name);
      var i :| 0 <= i < |key.indexes| && key.indexes[i] == prefix + "*";
      assert Matches(key.indexes[i], name);
    } else if name in key.indexes {
      var i :| 0 <= i < |key.indexes| && key.indexes[i] == name;
      ValidPatternCoversItself(name);
      assert Matches(key.indexes[i], name);
    } else if Covers(key, Some(name)) {
      var i :| 0 <= i < |key.indexes| && Matches(key.indexes[i], name);
      UncoveredName(key, name, i);
    }
  }

  lemma ValidPatternCoversItself(p: string)
    ensures Matches(p, p)
  {
    if EndsWithStar(p) {
      var u := p[..|p| - 1];
      assert p == u + "*";
      StarMatchesPrefix(u, p);
    } else {
      PlainMatchesItself(p, p);
    }
  }

  lemma UncoveredName(key: Key, name: string, i: nat)
    requires i < |key.indexes| && name !in key.indexes
    requires forall prefix, rest :: !(prefix + "*" in key.indexes && name == prefix + rest)
    ensures !Matches(key.indexes[i], name)
  {
    var p: string := key.indexes[i];
    assert p in key.indexes;
    if EndsWithStar(p) {
      var u := p[..|p| - 1];
      assert p == u + "*";
      StarMatchesPrefix(u, name);
    } else {
      PlainMatchesItself(p, name);
    }
  }

  /** What a stored key may do: on the names it covers, until it expires and not at that moment any more. */
  lemma AuthorizedUntil(key: Key, action: Action, index: Option<string>, now: int)
    requires Allows(key.actions, action) && Covers(key, index)
    ensures key.expiresAt == None ==> Authorized(key, action, index, now)
    ensures forall e :: key.expiresAt == Some(e) ==> (Authorized(key, action, index, now) <==> now + 1 <= e)
  {
  }

  /** The verdict on a named index, in terms of names and times only. */
  lemma VerdictOnName(key: Key, action: Action, name: string, now: int)
    requires action != SnapshotsAll
    ensures Verdict(key, action, Some(name), now) ==
            Ok(&& Allows(key.actions, action)
               && ((exists prefix, rest :: prefix + "*" in key.indexes && name == prefix + rest) || name in key.indexes)
               && (key.expiresAt.Some? ==> now < key.expiresAt.value))
  {
    CoversNames(key, name);
  }

  // ---------- The inverted index ----------

  /** The suffixes stored for each allowed action: the empty one, or one for each pattern. */
  predicate HasSuffix(key: Key, suffix: string) {
    if Unrestricted(key) then suffix == "" else suffix in key.indexes
  }

  function Raw(uid: Uid, action: Action, suffix: string): string {
    Encode(uid, action, Some(suffix))
  }

  /** The entries of a key are exactly those its record calls for. */
  ghost predicate Reflects(inverted: map<string, Expiration>, key: Key) {
    forall a: Action, suffix: string ::
      && (Raw(key.uid, a, suffix) in inverted <==> Allows(key.actions, a) && HasSuffix(key, suffix))
      && (Raw(key.uid, a, suffix) in inverted ==> inverted[Raw(key.uid, a, suffix)] == key.expiresAt)
  }

  /** Every database key was made from an action and a pattern, or from an action alone. */
  ghost predicate WellFormed(k: string) {
    |k| >= 17 && (k[17..] == "" || ValidPattern(k[17..])) && exists a: Action :: ActionByte(a) == k[16]
  }

  ghost function ActionOf(k: string): (a: Action)
    requires WellFormed(k)
    ensures k == Raw(k[..16], a, k[17..])
  {
    var a: Action :| ActionByte(a) == k[16];
    assert k == k[..16] + [k[16]] + k[17..];
    a
  }

  lemma RawInjective(u: Uid, a: Action, s: string, v: Uid, b: Action, t: string)
    requires Raw(u, a, s) == Raw(v, b, t)
    ensures u == v && a == b && s == t
  {
    EncodeParts(u, a, Some(s));
    EncodeParts(v, b, Some(t));
    ActionByteInjective(a, b);
  }

  /** An entry starts with a key id exactly when it is an entry of that key. */
  lemma UidPrefix(u: Uid, a: Action, s: string, v: Uid)
    ensures v <= Raw(u, a, s) <==> u == v
  {
    EncodeParts(u, a, Some(s));
    hide Encode;
  }

  lemma PrefixByParts(p: string, k: string)
    requires |p| == 17 && |k| >= 17
    ensures p <= k <==> p[..16] == k[..16] && p[16] == k[16]
  {
    assert p == p[..16] + [p[16]] && k[..17] == k[..16] + [k[16]];
    assert p <= k <==> p == k[..17];
  }

  /** An entry starts with a key id and an action exactly when it is an entry of that key and action. */
  lemma RawPrefix(u: Uid, a: Action, s: string, v: Uid, b: Action)
    ensures Encode(v, b, None) <= Raw(u, a, s) <==> u == v && a == b
  {
    EncodeParts(u, a, Some(s));
    EncodeParts(v, b, None);
    assert |Encode(v, b, None)| == 17;
    hide Encode, ActionByte;
    PrefixByParts(Encode(v, b, None), Raw(u, a, s));
    if ActionByte(a) == ActionByte(b) {
      ActionByteInjective(a, b);
    }
  }

  // ---------- Writing the index ----------

  /** The index without the entries of a key. */
  function Purge(m: map<string, Expiration>, uid: Uid): map<string, Expiration> {
    map k | k in m && !(uid <= k) :: m[k]
  }

  function Fill(m: map<string, Expiration>, ks: set<string>, e: Expiration): map<string, Expiration> {
    m + map k | k in ks :: e
  }

  lemma FillUnion(m: map<string, Expiration>, s: set<string>, t: set<string>, e: Expiration)
    ensures Fill(Fill(m, s, e), t, e) == Fill(m, s + t, e)
  {
  }

  lemma FillOne(m: map<string, Expiration>, s: set<string>, k: string, e: Expiration)
    ensures Fill(m, s, e)[k := e] == Fill(m, s + {k}, e)
    ensures Fill(m, {}, e) == m
  {
  }

  function Suffixes(key: Key): set<string> {
    if Unrestricted(key) then {""} else set i | 0 <= i < |key.indexes| :: key.indexes[i]
  }

  function Entries(key: Key, actions: set<Action>): set<string> {
    set a, suffix | a in actions && suffix in Suffixes(key) :: Raw(key.uid, a, suffix)
  }

  function AllowedActions(actions: seq<Action>): set<Action> {
    set a: Action | Repr(a) < 36 && Allows(actions, a)
  }

  lemma EntriesAre(key: Key, actions: set<Action>, u: Uid, a: Action, suffix: string)
    ensures Raw(u, a, suffix) in Entries(key, actions) <==> u == key.uid && a in actions && HasSuffix(key, suffix)
  {
    if Raw(u, a, suffix) in Entries(key, actions) {
      var b, t :| b in actions && t in Suffixes(key) && Raw(u, a, suffix) == Raw(key.uid, b, t);
      RawInjective(u, a, suffix, key.uid, b, t);
    }
  }

  /** Storing a key makes the index reflect it. */
  lemma PutReflects(m: map<string, Expiration>, key: Key)
    ensures Reflects(Fill(Purge(m, key.uid), Entries(key, AllowedActions(key.actions)), key.expiresAt), key)
  {
    var actions := AllowedActions(key.actions);
    var filled := Fill(Purge(m, key.uid), Entries(key, actions), key.expiresAt);
    forall a: Action, suffix: string
      ensures Raw(key.uid, a, suffix) in filled <==> Allows(key.actions, a) && HasSuffix(key, suffix)
      ensures Raw(key.uid, a, suffix) in filled ==> filled[Raw(key.uid, a, suffix)] == key.expiresAt
    {
      EntriesAre(key, actions, key.uid, a, suffix);
      UidPrefix(key.uid, a, suffix, key.uid);
    }
  }

  /** Storing or deleting a key leaves the entries of the others alone. */
  lemma OthersKeepReflecting(m: map<string, Expiration>, uid: Uid, ks: set<string>, e: Expiration, other: Key)
    requires Reflects(m, other) && other.uid != uid
    requires forall k :: k in ks ==> uid <= k
    ensures Reflects(Purge(m, uid), other) && Reflects(Fill(Purge(m, uid), ks, e), other)
  {
  }

  lemma EntriesHavePrefix(key: Key, actions: set<Action>)
    ensures forall k :: k in Entries(key, actions) ==> key.uid <= k && WellFormed(k) && k[..16] == key.uid
  {
  }

  function PatternEntries(key: Key, action: Action, n: nat): set<string>
    requires n <= |key.indexes|
  {
    set j | 0 <= j < n :: Encode(key.uid, action, Some(key.indexes[j]))
  }

  lemma NoPatternEntries(key: Key, action: Action)
    ensures PatternEntries(key, action, 0) == {}
  {
  }

  lemma OnePatternMore(key: Key, action: Action, i: nat)
    requires i < |key.indexes|
    ensures PatternEntries(key, action, i + 1) ==
            PatternEntries(key, action, i) + {Encode(key.uid, action, Some(key.indexes[i]))}
  {
  }

  lemma OneActionEntries(key: Key, action: Action)
    ensures Entries(key, {action}) ==
            if Unrestricted(key) then {Encode(key.uid, action, None)} else PatternEntries(key, action, |key.indexes|)
  {
    if Unrestricted(key) {
      assert Encode(key.uid, action, None) == Raw(key.uid, action, "");
      hide Encode, Raw, Unrestricted;
      assert Suffixes(key) == {""};
    } else {
      RestrictedEntries(key, action);
    }
  }

  lemma RestrictedEntries(key: Key, action: Action)
    requires !Unrestricted(key)
    ensures Entries(key, {action}) == PatternEntries(key, action, |key.indexes|)
  {
    hide Encode, Unrestricted;
    forall k | k in PatternEntries(key, action, |key.indexes|) ensures k in Entries(key, {action}) {
      var j :| 0 <= j < |key.indexes| && k == Encode(key.uid, action, Some(key.indexes[j]));
      assert key.indexes[j] in Suffixes(key);
      assert k == Raw(key.uid, action, key.indexes[j]);
    }
    forall k | k in Entries(key, {action}) ensures k in PatternEntries(key, action, |key.indexes|) {
      var suffix :| suffix in Suffixes(key) && k == Raw(key.uid, action, suffix);
      var j :| 0 <= j < |key.indexes| && suffix == key.indexes[j];
    }
  }

  // ---------- Reading the index ----------

  /** An entry found by its action prefix belongs to that key and action. */
  lemma PrefixEntry(k: string, uid: Uid, action: Action)
    requires WellFormed(k) && Encode(uid, action, None) <= k
    ensures k == Raw(uid, action, k[17..])
    ensures Decode(k) ==
            if action == SnapshotsAll then None
            else Some((uid, action, if k[17..] == "" then None else Some(k[17..])))
  {
    var a := ActionOf(k);
    RawPrefix(k[..16], a, k[17..], uid, action);
    EncodeParts(uid, action, Some(k[17..]));
    FromReprInverts(action);
  }

  /** What a lookup for an index answers: the wildcard entry is only found by asking for no index. */
  predicate Listed(key: Key, index: Option<string>) {
    match index
    case None => Unrestricted(key)
    case Some(name) => if Unrestricted(key) then name == "" else Covers(key, index)
  }

  lemma NoEmptyPattern(key: Key)
    ensures "" !in key.indexes
  {
  }

  /** The entry with the very name asked for. */
  lemma ExactEntry(key: Key, index: Option<string>)
    requires HasSuffix(key, if index.Some? then index.value else "")
    ensures Listed(key, index)
  {
  }

  lemma MatchingEntry(key: Key, suffix: string, name: string)
    requires HasSuffix(key, suffix) && suffix != "" && Matches(suffix, name)
    ensures Listed(key, Some(name))
  {
  }

  /** If the index is listed, either the exact entry or a matching one is there. */
  lemma ListedEntry(key: Key, index: Option<string>) returns (suffix: string)
    requires Listed(key, index)
    ensures HasSuffix(key, suffix)
    ensures suffix == (if index.Some? then index.value else "") ||
            (suffix != "" && index.Some? && Matches(suffix, index.value))
  {
    NoEmptyPattern(key);
    suffix := "";
    if index.Some? && !Unrestricted(key) {
      var i :| 0 <= i < |key.indexes| && Matches(key.indexes[i], index.value);
      suffix := key.indexes[i];
    }
  }

  /** Asking for all indexes first and for the index itself next covers exactly what the key covers. */
  lemma TwoLookupsCover(key: Key, index: Option<string>)
    ensures index.Some? ==> (Covers(key, index) <==> Listed(key, None) || Listed(key, index))
    ensures index.None? && Listed(key, None) ==> Covers(key, index)
  {
  }

  /** An entry of the key for the action. */
  predicate Candidate(inverted: map<string, Expiration>, uid: Uid, action: Action, k: string) {
    k in inverted && Encode(uid, action, None) <= k
  }

  function Candidates(inverted: map<string, Expiration>, uid: Uid, action: Action): (r: set<string>)
    ensures forall k :: k in r <==> Candidate(inverted, uid, action, k)
  {
    set k | k in inverted && Candidate(inverted, uid, action, k)
  }

  predicate PatternMatches(k: string, index: Option<string>) {
    |k| > 17 && index.Some? && Matches(k[17..], index.value)
  }

  lemma CandidateFound(inverted: map<string, Expiration>, key: Key, action: Action, k: string)
    requires Reflects(inverted, key) && Candidate(inverted, key.uid, action, k) && WellFormed(k)
    ensures Allows(key.actions, action) && HasSuffix(key, k[17..]) && key.indexes != []
    ensures inverted[k] == key.expiresAt
  {
    PrefixEntry(k, key.uid, action);
    assert Raw(key.uid, action, k[17..]) in inverted;
  }

  lemma NoCandidate(inverted: map<string, Expiration>, key: Key, action: Action)
    requires Reflects(inverted, key) && forall k :: !Candidate(inverted, key.uid, action, k)
    ensures !(Allows(key.actions, action) && key.indexes != [])
  {
    if key.indexes != [] {
      var suffix := if Unrestricted(key) then "" else key.indexes[0];
      RawPrefix(key.uid, action, suffix, key.uid, action);
      assert !Candidate(inverted, key.uid, action, Raw(key.uid, action, suffix));
    }
  }

  lemma ExactFound(inverted: map<string, Expiration>, key: Key, action: Action, index: Option<string>)
    requires Reflects(inverted, key) && Encode(key.uid, action, index) in inverted
    ensures Allows(key.actions, action) && HasSuffix(key, SuffixOf(index)) && Listed(key, index)
    ensures inverted[Encode(key.uid, action, index)] == key.expiresAt
  {
    var suffix := if index.Some? then index.value else "";
    assert Encode(key.uid, action, index) == Raw(key.uid, action, suffix);
    ExactEntry(key, index);
  }

  lemma PatternFound(inverted: map<string, Expiration>, key: Key, action: Action, index: Option<string>, k: string)
    requires Reflects(inverted, key) && Candidate(inverted, key.uid, action, k) && WellFormed(k)
    requires PatternMatches(k, index)
    ensures Allows(key.actions, action) && Listed(key, index) && inverted[k] == key.expiresAt
  {
    CandidateFound(inverted, key, action, k);
    MatchingEntry(key, k[17..], index.value);
  }

  lemma NothingFound(inverted: map<string, Expiration>, key: Key, action: Action, index: Option<string>)
    requires Reflects(inverted, key) && Encode(key.uid, action, index) !in inverted
    requires forall k :: Candidate(inverted, key.uid, action, k) ==> !PatternMatches(k, index)
    ensures !(Allows(key.actions, action) && Listed(key, index))
  {
    if Listed(key, index) {
      var suffix := ListedEntry(key, index);
      var k := Raw(key.uid, action, suffix);
      RawPrefix(key.uid, action, suffix, key.uid, action);
      EncodeParts(key.uid, action, Some(suffix));
      assert Candidate(inverted, key.uid, action, k) ==> !PatternMatches(k, index);
      assert Encode(key.uid, action, index) == Raw(key.uid, action, if index.Some? then index.value else "");
    }
  }

  function SuffixOf(index: Option<string>): string {
    if index.Some? then index.value else ""
  }

  /** A scan fails at the first entry it cannot decode, and else finds some entry whose pattern matches. */
  ghost predicate ScanResult(inverted: map<string, Expiration>, uid: Uid, action: Action, index: Option<string>,
                             r: Result<Option<Expiration>>)
  {
    if action == SnapshotsAll then r == if exists k :: Candidate(inverted, uid, action, k) then Err else Ok(None)
    else
      && r.Ok?
      && match r.value
         case Some(e) => exists k :: Candidate(inverted, uid, action, k) && PatternMatches(k, index) && inverted[k] == e
         case None => forall k :: Candidate(inverted, uid, action, k) ==> !PatternMatches(k, index)
  }

  /** The entry could be decoded and does not match. */
  predicate PassedOver(action: Action, index: Option<string>, k: string) {
    action != SnapshotsAll && !PatternMatches(k, index)
  }

  lemma ScanFails(inverted: map<string, Expiration>, uid: Uid, action: Action, index: Option<string>, k: string)
    requires action == SnapshotsAll && Candidate(inverted, uid, action, k)
    ensures ScanResult(inverted, uid, action, index, Err)
  {
  }

  lemma ScanFinds(inverted: map<string, Expiration>, uid: Uid, action: Action, index: Option<string>, k: string)
    requires action != SnapshotsAll && Candidate(inverted, uid, action, k) && PatternMatches(k, index)
    ensures ScanResult(inverted, uid, action, index, Ok(Some(inverted[k])))
  {
  }

  lemma ScanEnds(inverted: map<string, Expiration>, uid: Uid, action: Action, index: Option<string>)
    requires forall k :: Candidate(inverted, uid, action, k) ==> PassedOver(action, index, k)
    ensures ScanResult(inverted, uid, action, index, Ok(None))
  {
    hide Candidate, PatternMatches;
  }

  /** What a lookup for an index finds for a key: an exact entry, or a pattern if the entries can be decoded. */
  function Lookup(key: Key, action: Action, index: Option<string>): Result<Option<Expiration>> {
    if !Allows(key.actions, action) || key.indexes == [] then Ok(None)
    else if action == SnapshotsAll && !HasSuffix(key, SuffixOf(index)) then Err
    else Ok(if Listed(key, index) then Some(key.expiresAt) else None)
  }

  /** What the first entry of an action tells for a key. */
  function LookupAny(key: Key, action: Action): Result<Option<Expiration>> {
    if !Allows(key.actions, action) || key.indexes == [] then Ok(None)
    else if action == SnapshotsAll then Err
    else Ok(Some(key.expiresAt))
  }

  lemma ListedHasIndexes(key: Key, index: Option<string>)
    ensures Listed(key, index) ==> key.indexes != []
  {
  }

  /** The index reflects every key of the map. */
  ghost predicate Consistent(keys: map<Uid, Key>, inverted: map<string, Expiration>) {
    && (forall k :: k in inverted ==> WellFormed(k) && k[..16] in keys)
    && (forall u :: u in keys ==> keys[u].uid == u && Reflects(inverted, keys[u]))
  }

  lemma AfterPut(keys: map<Uid, Key>, inverted: map<string, Expiration>, key: Key)
    requires Consistent(keys, inverted)
    ensures Consistent(keys[key.uid := key],
                       Fill(Purge(inverted, key.uid), Entries(key, AllowedActions(key.actions)), key.expiresAt))
  {
    hide WellFormed, Reflects, Entries, AllowedActions;
    var entries := Entries(key, AllowedActions(key.actions));
    EntriesHavePrefix(key, AllowedActions(key.actions));
    PutReflects(inverted, key);
    forall u | u in keys && u != key.uid
      ensures Reflects(Fill(Purge(inverted, key.uid), entries, key.expiresAt), keys[u])
    {
      OthersKeepReflecting(inverted, key.uid, entries, key.expiresAt, keys[u]);
    }
  }

  lemma AfterDelete(keys: map<Uid, Key>, inverted: map<string, Expiration>, uid: Uid)
    requires Consistent(keys, inverted)
    ensures Consistent(keys - {uid}, Purge(inverted, uid))
  {
    hide WellFormed, Reflects;
    forall k | k in Purge(inverted, uid) ensures WellFormed(k) && |k| >= 17 && k[..16] in keys - {uid} {
      assert WellFormed(k);
      WellFormedParts(k);
      assert !(uid <= k);
    }
    forall u | u in keys && u != uid ensures Reflects(Purge(inverted, uid), keys[u]) {
      OthersKeepReflecting(inverted, uid, {}, None, keys[u]);
    }
  }

  /** A key without a record has no entries. */
  lemma Unrecorded(keys: map<Uid, Key>, inverted: map<string, Expiration>, uid: Uid, action: Action,
                   index: Option<string>)
    requires Consistent(keys, inverted) && uid !in keys
    ensures Encode(uid, action, index) !in inverted
    ensures forall k :: !Candidate(inverted, uid, action, k)
  {
    EncodeParts(uid, action, index);
    EncodeParts(uid, action, None);
    forall k | k in inverted ensures !(Encode(uid, action, None) <= k) {
      assert WellFormed(k);
      WellFormedParts(k);
      PrefixByParts(Encode(uid, action, None), k);
    }
  }

  /** What the scan sees of an entry of the action. */
  lemma ScannedEntry(inverted: map<string, Expiration>, keys: map<Uid, Key>, uid: Uid, action: Action,
                     index: Option<string>, k: string)
    requires Consistent(keys, inverted) && Candidate(inverted, uid, action, k)
    ensures k in inverted
    ensures Decode(k).None? <==> action == SnapshotsAll
    ensures Decode(k).Some? ==>
              var pattern := Decode(k).value.2;
              && (pattern.Some? ==> ValidPattern(pattern.value))
              && (PatternMatches(k, index) <==> pattern.Some? && index.Some? && Matches(pattern.value, index.value))
  {
    hide Encode, WellFormed, Decode, Matches, ValidPattern, Reflects;
    assert WellFormed(k);
    PrefixEntry(k, uid, action);
    WellFormedParts(k);
  }

  lemma ExactLookup(inverted: map<string, Expiration>, keys: map<Uid, Key>, uid: Uid, action: Action,
                    index: Option<string>)
    requires Consistent(keys, inverted) && uid in keys && Encode(uid, action, index) in inverted
    ensures Lookup(keys[uid], action, index) == Ok(Some(inverted[Encode(uid, action, index)]))
  {
    hide Encode, WellFormed, Reflects, Listed, Allows, HasSuffix;
    ExactFound(inverted, keys[uid], action, index);
    ListedHasIndexes(keys[uid], index);
  }

  lemma ScanLookup(inverted: map<string, Expiration>, keys: map<Uid, Key>, uid: Uid, action: Action,
                   index: Option<string>, r: Result<Option<Expiration>>)
    requires Consistent(keys, inverted) && uid in keys && Encode(uid, action, index) !in inverted
    requires ScanResult(inverted, uid, action, index, r)
    ensures r == Lookup(keys[uid], action, index)
  {
    hide Encode, WellFormed, Reflects, Listed, Allows, HasSuffix, Candidate, PatternMatches;
    ExactMissing(inverted, keys[uid], action, index);
    ListedHasIndexes(keys[uid], index);
    CandidatesIff(inverted, keys, uid, action);
    if action != SnapshotsAll && r.value.Some? {
      FoundByPattern(inverted, keys, uid, action, index, r.value.value);
    } else if action != SnapshotsAll {
      NothingFound(inverted, keys[uid], action, index);
    }
  }

  lemma FoundByPattern(inverted: map<string, Expiration>, keys: map<Uid, Key>, uid: Uid, action: Action,
                       index: Option<string>, e: Expiration)
    requires Consistent(keys, inverted) && uid in keys
    requires exists k :: Candidate(inverted, uid, action, k) && PatternMatches(k, index) && inverted[k] == e
    ensures Allows(keys[uid].actions, action) && Listed(keys[uid], index) && e == keys[uid].expiresAt
  {
    hide Encode, WellFormed, Reflects, Listed, Allows, PatternMatches;
    var k :| Candidate(inverted, uid, action, k) && PatternMatches(k, index) && inverted[k] == e;
    PatternFound(inverted, keys[uid], action, index, k);
  }

  lemma NoLookup(inverted: map<string, Expiration>, keys: map<Uid, Key>, uid: Uid, action: Action)
    requires Consistent(keys, inverted) && uid in keys && forall k :: !Candidate(inverted, uid, action, k)
    ensures LookupAny(keys[uid], action) == Ok(None)
  {
    hide Encode, Consistent, Allows, Candidate;
    CandidatesIff(inverted, keys, uid, action);
  }

  /** What the first entry of the action tells. */
  lemma FirstLookup(inverted: map<string, Expiration>, keys: map<Uid, Key>, uid: Uid, action: Action, k: string)
    requires Consistent(keys, inverted) && Candidate(inverted, uid, action, k)
    ensures uid in keys
    ensures LookupAny(keys[uid], action) == if Decode(k).None? then Err else Ok(Some(inverted[k]))
  {
    hide Encode, WellFormed, Allows, Decode, Reflects;
    assert WellFormed(k);
    PrefixEntry(k, uid, action);
    if uid !in keys {
      Unrecorded(keys, inverted, uid, action, None);
    }
    CandidateFound(inverted, keys[uid], action, k);
  }

  /** The loop that turns the actions of a key into the set they stand for. */
  method ExpandActions(actions: seq<Action>) returns (expanded: set<Action>)
    ensures expanded == AllowedActions(actions)
  {
    expanded := {};
    var i := 0;
    while i < |actions|
      invariant 0 <= i <= |actions|
      invariant expanded == AllowedActions(actions[..i])
    {
      assert actions[..i + 1] == actions[..i] + [actions[i]];
      AllowedExtends(actions[..i], actions[i]);
      expanded := expanded + Expand(actions[i]);
      i := i + 1;
    }
    assert actions[..i] == actions;
  }

  class HeedAuthStore {
    var keys: map<Uid, Key>
    var inverted: map<string, Expiration>

    /** The keys the index has entries for: those stored, and those that `delete_all_keys` left behind. */
    ghost var recorded: map<Uid, Key>

    ghost predicate Valid()
      reads this
    {
      Consistent(recorded, inverted) && forall u :: u in keys ==> u in recorded && recorded[u] == keys[u]
    }

    constructor ()
      ensures Valid() && keys == map[] && recorded == map[]
    {
      keys, inverted, recorded := map[], map[], map[];
    }

    method DeleteKeyFromInvertedDb(uid: Uid)
      modifies this`inverted
      ensures inverted == Purge(old(inverted), uid)
    {
      var doomed := set k | k in inverted && uid <= k;
      while doomed != {}
        invariant doomed == set k | k in inverted && uid <= k
        invariant Purge(inverted, uid) == Purge(old(inverted), uid)
        decreases |doomed|
      {
        var k :| k in doomed;
        inverted := inverted - {k};
        doomed := doomed - {k};
      }
      forall k | k in inverted ensures !(uid <= k) {
        assert k !in doomed;
      }
      assert Purge(inverted, uid) == inverted;
    }

    /** The entries of one action: one without index, or one for each pattern. */
    method PutEntries(key: Key, action: Action)
      modifies this`inverted
      ensures inverted == Fill(old(inverted), Entries(key, {action}), key.expiresAt)
    {
      hide Encode, Raw, Unrestricted, Entries, Fill, PatternEntries;
      ghost var before := inverted;
      OneActionEntries(key, action);
      NoPatternEntries(key, action);
      FillOne(before, {}, Encode(key.uid, action, None), key.expiresAt);
      if Unrestricted(key) {
        assert {} + {Encode(key.uid, action, None)} == {Encode(key.uid, action, None)};
        inverted := inverted[Encode(key.uid, action, None) := key.expiresAt];
      } else {
        var i := 0;
        while i < |key.indexes|
          invariant 0 <= i <= |key.indexes|
          invariant inverted == Fill(before, PatternEntries(key, action, i), key.expiresAt)
        {
          inverted := inverted[Encode(key.uid, action, Some(key.indexes[i])) := key.expiresAt];
          OnePatternMore(key, action, i);
          FillOne(before, PatternEntries(key, action, i), Encode(key.uid, action, Some(key.indexes[i])), key.expiresAt);
          i := i + 1;
        }
      }
    }

    /** The entries of all actions, in any order. */
    method PutAllEntries(key: Key, actions: set<Action>)
      modifies this`inverted
      ensures inverted == Fill(old(inverted), Entries(key, actions), key.expiresAt)
    {
      ghost var before := inverted;
      var left := actions;
      NoEntries(key, before, key.expiresAt);
      assert actions - left == {};
      hide Entries, Fill;
      while left != {}
        invariant left <= actions
        invariant inverted == Fill(before, Entries(key, actions - left), key.expiresAt)
        decreases |left|
      {
        var action :| action in left;
        PutEntries(key, action);
        EntriesUnion(key, actions - left, {action}, before, key.expiresAt);
        assert actions - left + {action} == actions - (left - {action});
        left := left - {action};
      }
      assert actions - left == actions;
    }

    method PutApiKey(key: Key)
      requires Valid()
      modifies this
      ensures Valid() && keys == old(keys)[key.uid := key] && recorded == old(recorded)[key.uid := key]
    {
      hide Consistent, Fill, Purge, Entries, AllowedActions;
      keys := keys[key.uid := key];
      DeleteKeyFromInvertedDb(key.uid);
      var actions := ExpandActions(key.actions);
      PutAllEntries(key, actions);
      AfterPut(recorded, old(inverted), key);
      recorded := recorded[key.uid := key];
    }

    method DeleteApiKey(uid: Uid) returns (existing: bool)
      requires Valid()
      modifies this
      ensures Valid() && keys == old(keys) - {uid} && recorded == old(recorded) - {uid}
      ensures existing <==> uid in old(keys)
    {
      existing := uid in keys;
      keys := keys - {uid};
      DeleteKeyFromInvertedDb(uid);
      recorded := recorded - {uid};
      AfterDelete(old(recorded), old(inverted), uid);
    }

    /** The scan of an action's entries, in any order, for a pattern that matches. */
    method ScanPatterns(uid: Uid, action: Action, index: Option<string>) returns (r: Result<Option<Expiration>>)
      requires Valid()
      ensures ScanResult(inverted, uid, action, index, r)
    {
      hide Encode, Consistent, Candidate, Decode, Matches, ValidPattern, PatternMatches, ScanResult;
      var rest := Candidates(inverted, uid, action);
      while rest != {}
        invariant forall k :: k in rest ==> Candidate(inverted, uid, action, k)
        invariant forall k :: Candidate(inverted, uid, action, k) ==> k in rest || PassedOver(action, index, k)
        decreases |rest|
      {
        var k :| k in rest;
        ScannedEntry(inverted, recorded, uid, action, index, k);
        var decoded := Decode(k);
        if decoded.None? {
          ScanFails(inverted, uid, action, index, k);
          return Err;
        }
        var pattern := decoded.value.2;
        if pattern.Some? && index.Some? {
          if !ValidPattern(pattern.value) {
            return Err;
          }
          if Matches(pattern.value, index.value) {
            ScanFinds(inverted, uid, action, index, k);
            return Ok(Some(inverted[k]));
          }
        }
        rest := rest - {k};
      }
      ScanEnds(inverted, uid, action, index);
      r := Ok(None);
    }

    /** An index or all of them, by an exact lookup and then by the patterns. */
    method GetExpirationDate(uid: Uid, action: Action, index: Option<string>) returns (r: Result<Option<Expiration>>)
      requires Valid()
      ensures r == if uid in recorded then Lookup(recorded[uid], action, index) else Ok(None)
    {
      hide Encode, Consistent, Candidate, PatternMatches, Lookup;
      if uid !in recorded {
        Unrecorded(recorded, inverted, uid, action, index);
      }
      if Encode(uid, action, index) in inverted {
        ExactLookup(inverted, recorded, uid, action, index);
        return Ok(Some(inverted[Encode(uid, action, index)]));
      }
      r := ScanPatterns(uid, action, index);
      if uid in recorded {
        ScanLookup(inverted, recorded, uid, action, index, r);
      }
    }

    /** The first entry of the action, whichever it is. */
    method PrefixFirstExpirationDate(uid: Uid, action: Action) returns (r: Result<Option<Expiration>>)
      requires Valid()
      ensures r == if uid in recorded then LookupAny(recorded[uid], action) else Ok(None)
    {
      hide Encode, Consistent, Decode, LookupAny;
      var found := Candidates(inverted, uid, action);
      if found == {} {
        if uid in recorded {
          NoLookup(inverted, recorded, uid, action);
        }
        return Ok(None);
      }
      var k :| k in found;
      FirstLookup(inverted, recorded, uid, action, k);
      r := if Decode(k).None? then Err else Ok(Some(inverted[k]));
    }

    /** `AuthController::is_key_authorized`; a key without entries is authorized to nothing. */
    method IsKeyAuthorized(uid: Uid, action: Action, index: Option<string>, now: int) returns (r: Result<bool>)
      requires Valid()
      ensures r == if uid in recorded then Verdict(recorded[uid], action, index, now) else Ok(false)
      ensures uid in keys && action != SnapshotsAll ==> r == Ok(Authorized(keys[uid], action, index, now))
    {
      var all := GetExpirationDate(uid, action, None);
      var other;
      if index.Some? {
        other := GetExpirationDate(uid, action, index);
      } else {
        other := PrefixFirstExpirationDate(uid, action);
      }
      if uid in recorded {
        LookupsDecide(recorded[uid], action, index, now, all, other);
      }
      if all.Err? || other.Err? {
        return Err;
      }
      var expiration := if all.value.Some? then all.value else other.value;
      r := Ok(expiration.Some? && Unexpired(expiration.value, now));
    }

    /** Clears the keys only; the index keeps what it had. */
    method DeleteAllKeys()
      requires Valid()
      modifies this`keys
      ensures Valid() && keys == map[]
    {
      keys := map[];
    }
  }

  /** The two lookups together give the verdict. */
  lemma LookupsDecide(key: Key, action: Action, index: Option<string>, now: int,
                      all: Result<Option<Expiration>>, other: Result<Option<Expiration>>)
    requires all == Lookup(key, action, None)
    requires other == if index.Some? then Lookup(key, action, index) else LookupAny(key, action)
    ensures Verdict(key, action, index, now) ==
            if all.Err? || other.Err? then Err
            else
              var expiration := if all.value.Some? then all.value else other.value;
              Ok(expiration.Some? && Unexpired(expiration.value, now))
  {
    TwoLookupsCover(key, index);
    CoversNone(key);
    ListedHasIndexes(key, index);
    ListedHasIndexes(key, None);
    NoEmptyPattern(key);
    hide Allows, Covers, Listed, Unrestricted;
    assert Listed(key, None) <==> Unrestricted(key) by { ListedNone(key); }
    if index.Some? {
      ListedEmpty(key, index.value);
    }
  }

  lemma ListedNone(key: Key)
    ensures Listed(key, None) <==> Unrestricted(key)
  {
  }

  lemma ListedEmpty(key: Key, name: string)
    ensures Unrestricted(key) ==> (Listed(key, Some(name)) <==> name == "")
    ensures Unrestricted(key) ==> Covers(key, Some(name))
  {
    if Unrestricted(key) {
      var i :| 0 <= i < |key.indexes| && MatchesAll(key.indexes[i]);
      assert Matches(key.indexes[i], name);
    }
  }

  lemma CandidatesIff(inverted: map<string, Expiration>, keys: map<Uid, Key>, uid: Uid, action: Action)
    requires Consistent(keys, inverted) && uid in keys
    ensures (exists k :: Candidate(inverted, uid, action, k)) <==>
            Allows(keys[uid].actions, action) && keys[uid].indexes != []
  {
    hide Reflects, Encode, WellFormed, Allows;
    if k :| Candidate(inverted, uid, action, k) {
      CandidateFound(inverted, keys[uid], action, k);
    } else {
      NoCandidate(inverted, keys[uid], action);
    }
  }

  lemma ExactMissing(inverted: map<string, Expiration>, key: Key, action: Action, index: Option<string>)
    requires Reflects(inverted, key) && Encode(key.uid, action, index) !in inverted
    ensures !(Allows(key.actions, action) && HasSuffix(key, SuffixOf(index)))
  {
    assert Encode(key.uid, action, index) == Raw(key.uid, action, SuffixOf(index));
  }

  lemma AllowedExtends(actions: seq<Action>, a: Action)
    ensures AllowedActions(actions + [a]) == AllowedActions(actions) + Expand(a)
  {
    var more := actions + [a];
    forall x: Action ensures Allows(more, x) <==> Allows(actions, x) || x in Expand(a) {
      if Allows(actions, x) {
        var i :| 0 <= i < |actions| && x in Expand(actions[i]);
        assert more[i] == actions[i];
      }
      if x in Expand(a) {
        assert more[|actions|] == a;
      }
    }
    assert forall x: Action :: Repr(x) < 36;
  }

  lemma NoEntries(key: Key, m: map<string, Expiration>, e: Expiration)
    ensures Entries(key, {}) == {} && Fill(m, Entries(key, {}), e) == m
  {
  }

  lemma EntriesUnion(key: Key, a: set<Action>, b: set<Action>, m: map<string, Expiration>, e: Expiration)
    ensures Fill(Fill(m, Entries(key, a), e), Entries(key, b), e) == Fill(m, Entries(key, a + b), e)
  {
    assert Entries(key, a + b) == Entries(key, a) + Entries(key, b) by { hide Raw, Suffixes; }
    hide Entries, Fill;
    FillUnion(m, Entries(key, a), Entries(key, b), e);
  }

  lemma WellFormedParts(k: string)
    requires WellFormed(k)
    ensures |k| >= 17 && (k[17..] == "" || ValidPattern(k[17..]))
  {
  }

  lemma CoversNone(key: Key)
    ensures Covers(key, None) <==> key.indexes != []
  {
  }

  // ---------- Whole histories ----------

  datatype Change = Put(key: Key) | Delete(uid: Uid) | DeleteAll

  function KeysAfter(history: seq<Change>): map<Uid, Key> {
    if history == [] then map[]
    else
      var before := KeysAfter(history[..|history| - 1]);
      match history[|history| - 1]
      case Put(key) => before[key.uid := key]
      case Delete(uid) => before - {uid}
      case DeleteAll => map[]
  }

  /** The last put of every key that has not been deleted since; clearing all keys is no deletion here. */
  function RecordedAfter(history: seq<Change>): map<Uid, Key> {
    if history == [] then map[]
    else
      var before := RecordedAfter(history[..|history| - 1]);
      match history[|history| - 1]
      case Put(key) => before[key.uid := key]
      case Delete(uid) => before - {uid}
      case DeleteAll => before
  }

  predicate Concerns(change: Change, uid: Uid) {
    match change
    case Put(key) => key.uid == uid
    case Delete(u) => u == uid
    case DeleteAll => false
  }

  /** A key is stored exactly if its record is and the keys have not been cleared since. */
  lemma {:induction false} StoredIsLastPut(history: seq<Change>, uid: Uid, key: Key)
    ensures uid in KeysAfter(history) && KeysAfter(history)[uid] == key <==>
            exists i :: 0 <= i < |history| && history[i] == Put(key) && key.uid == uid && LastOf(history, i, uid) &&
                        NotClearedSince(history, i)
    decreases |history|
  {
    if history != [] {
      var n := |history| - 1;
      var before := history[..n];
      StoredIsLastPut(before, uid, key);
      assert forall i :: 0 <= i < n ==> before[i] == history[i];
      assert LastOf(history, n, uid) && NotClearedSince(history, n);
      if Concerns(history[n], uid) {
        assert forall i :: 0 <= i < n ==> !LastOf(history, i, uid);
      } else {
        assert forall i :: 0 <= i < n ==> (LastOf(before, i, uid) <==> LastOf(history, i, uid));
        assert forall i :: 0 <= i < n ==>
          (NotClearedSince(history, i) <==> NotClearedSince(before, i) && history[n] != DeleteAll);
      }
    }
  }

  predicate NotClearedSince(history: seq<Change>, i: nat) {
    forall j :: i < j < |history| ==> history[j] != DeleteAll
  }

  /** No later change is about the key. */
  predicate LastOf(history: seq<Change>, i: nat, uid: Uid) {
    forall j :: i < j < |history| ==> !Concerns(history[j], uid)
  }

  /** The record of a key is its last put, unless a later change deletes the key. */
  lemma {:induction false} RecordIsLastPut(history: seq<Change>, uid: Uid, key: Key)
    ensures uid in RecordedAfter(history) && RecordedAfter(history)[uid] == key <==>
            exists i :: 0 <= i < |history| && history[i] == Put(key) && key.uid == uid && LastOf(history, i, uid)
    decreases |history|
  {
    if history != [] {
      var n := |history| - 1;
      var before := history[..n];
      RecordIsLastPut(before, uid, key);
      if Concerns(history[n], uid) {
        assert LastOf(history, n, uid) && forall i :: 0 <= i < n ==> !LastOf(history, i, uid);
      } else {
        assert forall i :: 0 <= i < n ==> before[i] == history[i];
        assert forall i :: 0 <= i < n ==> (LastOf(before, i, uid) <==> LastOf(history, i, uid));
      }
    }
  }

  /**
   After any history of puts, deletes and delete-alls, every key is judged by its last record; in
   particular a stored key is authorized exactly when its record says so.
   */
  method AuthorizedAfter(history: seq<Change>, uid: Uid, action: Action, index: Option<string>, now: int)
    returns (r: Result<bool>)
    ensures r == if uid in RecordedAfter(history) then Verdict(RecordedAfter(history)[uid], action, index, now)
                 else Ok(false)
    ensures uid in KeysAfter(history) && action != SnapshotsAll ==>
              r == Ok(Authorized(KeysAfter(history)[uid], action, index, now))
  {
    var store := new HeedAuthStore();
    var i := 0;
    while i < |history|
      invariant 0 <= i <= |history|
      invariant store.Valid() && fresh(store)
      invariant store.keys == KeysAfter(history[..i]) && store.recorded == RecordedAfter(history[..i])
    {
      assert history[..i + 1][..i] == history[..i];
      match history[i] {
        case Put(key) => store.PutApiKey(key);
        case Delete(u) => var existing := store.DeleteApiKey(u);
        case DeleteAll => store.DeleteAllKeys();
      }
      i := i + 1;
    }
    assert history[..i] == history;
    r := store.IsKeyAuthorized(uid, action, index, now);
  }
}
