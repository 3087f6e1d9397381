/**
 Swapping index names in tasks (crates/index-scheduler/src/utils.rs) and the names a task is about
 (crates/meilisearch-types/src/tasks.rs).

 The contents of a task other than index names are opaque.
 */
module IndexSwaps {
  import opened Basics

  type Name = string
  type Content = string

  datatype Swap = Swap(lhs: Name, rhs: Name)

  datatype KindWithContent =
    | DocumentAdditionOrUpdate(indexUid: Name, content: Content)
    | DocumentDeletion(indexUid: Name, content: Content)
    | DocumentDeletionByFilter(indexUid: Name, content: Content)
    | DocumentEdition(indexUid: Name, content: Content)
    | DocumentClear(indexUid: Name)
    | SettingsUpdate(indexUid: Name, content: Content)
    | IndexDeletion(indexUid: Name)
    | IndexCreation(indexUid: Name, content: Content)
    | IndexUpdate(indexUid: Name, content: Content)
    | IndexSwap(swaps: seq<Swap>)
    | TaskCancelation(content: Content)
    | TaskDeletion(content: Content)
    | DumpCreation(content: Content)
    | SnapshotCreation
    | UpgradeDatabase(content: Content)
  {
    /** `Task::index_uid` is `Some`. */
    predicate HasIndexUid() {
      || DocumentAdditionOrUpdate? || DocumentDeletion? || DocumentDeletionByFilter? || DocumentEdition?
      || DocumentClear? || SettingsUpdate? || IndexDeletion? || IndexCreation? || IndexUpdate?
    }
  }

  datatype Details = SwapDetails(swaps: seq<Swap>) | OtherDetails(content: Content)

  predicate Mentions(s: Swap, name: Name) {
    s.lhs == name || s.rhs == name
  }

  /** The names in the order in which they are written. */
  function Names(swaps: seq<Swap>): (r: seq<Name>)
    ensures |r| == 2 * |swaps|
    ensures forall i :: 0 <= i < |swaps| ==> r[2 * i] == swaps[i].lhs && r[2 * i + 1] == swaps[i].rhs
  {
    seq(2 * |swaps|, i requires 0 <= i < 2 * |swaps| => if i % 2 == 0 then swaps[i / 2].lhs else swaps[i / 2].rhs)
  }

  /** `KindWithContent::indexes`, as a set. */
  function Indexes(kind: KindWithContent): set<Name> {
    if kind.HasIndexUid() then {kind.indexUid}
    else if kind.IndexSwap? then Elements(Names(kind.swaps))
    else {}
  }

  method CollectIndexes(kind: KindWithContent) returns (indexes: set<Name>)
    ensures indexes == Indexes(kind)
    ensures forall n :: n in indexes <==>
              || (kind.HasIndexUid() && n == kind.indexUid)
              || (kind.IndexSwap? && exists k :: 0 <= k < |kind.swaps| && Mentions(kind.swaps[k], n))
  {
    if kind.HasIndexUid() {
      return {kind.indexUid};
    }
    indexes := {};
    if kind.IndexSwap? {
      var i := 0;
      while i < |kind.swaps|
        invariant 0 <= i <= |kind.swaps|
        invariant forall n :: n in indexes <==> exists k :: 0 <= k < i && Mentions(kind.swaps[k], n)
      {
        indexes := indexes + {kind.swaps[i].lhs} + {kind.swaps[i].rhs};
        i := i + 1;
      }
      MentionedNames(kind.swaps);
    }
  }

  lemma MentionedNames(swaps: seq<Swap>)
    ensures forall n :: n in Elements(Names(swaps)) <==> exists k :: 0 <= k < |swaps| && Mentions(swaps[k], n)
  {
  }

  // ---------- Renaming ----------

  function Rename(a: Name, b: Name, name: Name): Name {
    if name == a then b else if name == b then a else name
  }

  /** The first name becomes the second one and the other way round, any other name stays. */
  predicate Exchanged(a: Name, b: Name, before: Name, after: Name) {
    && (before == a ==> after == b)
    && (before == b ==> after == a)
    && (before != a && before != b ==> after == before)
  }

  predicate AllExchanged(a: Name, b: Name, before: seq<Swap>, after: seq<Swap>) {
    && |before| == |after|
    && forall i :: 0 <= i < |before| ==>
         Exchanged(a, b, before[i].lhs, after[i].lhs) && Exchanged(a, b, before[i].rhs, after[i].rhs)
  }

  /** The kinds without index name. */
  lemma KindsWithoutIndex(kind: KindWithContent)
    ensures !kind.HasIndexUid() <==>
            || kind.IndexSwap? || kind.TaskCancelation? || kind.TaskDeletion? || kind.DumpCreation?
            || kind.SnapshotCreation? || kind.UpgradeDatabase?
  {
  }

  /** Nothing but names changes: the kind stays of the same sort and keeps its content. */
  predicate KindExchanged(a: Name, b: Name, before: KindWithContent, after: KindWithContent) {
    if before.HasIndexUid() then
      && after.HasIndexUid()
      && Exchanged(a, b, before.indexUid, after.indexUid)
      && after == before.(indexUid := after.indexUid)
    else if before.IndexSwap? then after.IndexSwap? && AllExchanged(a, b, before.swaps, after.swaps)
    else after == before
  }

  predicate DetailsExchanged(a: Name, b: Name, before: Option<Details>, after: Option<Details>) {
    if before.Some? && before.value.SwapDetails? then
      after.Some? && after.value.SwapDetails? && AllExchanged(a, b, before.value.swaps, after.value.swaps)
    else after == before
  }

  lemma RenameExchanges(a: Name, b: Name, kind: KindWithContent, details: Option<Details>)
    ensures KindExchanged(a, b, kind, RenameKind(a, b, kind))
    ensures DetailsExchanged(a, b, details, RenameDetails(a, b, details))
  {
  }

  function RenameSwaps(a: Name, b: Name, swaps: seq<Swap>): (r: seq<Swap>)
    ensures |r| == |swaps|
    ensures forall i :: 0 <= i < |r| ==> r[i] == Swap(Rename(a, b, swaps[i].lhs), Rename(a, b, swaps[i].rhs))
  {
    seq(|swaps|, i requires 0 <= i < |swaps| => Swap(Rename(a, b, swaps[i].lhs), Rename(a, b, swaps[i].rhs)))
  }

  function RenameKind(a: Name, b: Name, kind: KindWithContent): KindWithContent {
    match kind
    case DocumentAdditionOrUpdate(n, c) => DocumentAdditionOrUpdate(Rename(a, b, n), c)
    case DocumentDeletion(n, c) => DocumentDeletion(Rename(a, b, n), c)
    case DocumentDeletionByFilter(n, c) => DocumentDeletionByFilter(Rename(a, b, n), c)
    case DocumentEdition(n, c) => DocumentEdition(Rename(a, b, n), c)
    case DocumentClear(n) => DocumentClear(Rename(a, b, n))
    case SettingsUpdate(n, c) => SettingsUpdate(Rename(a, b, n), c)
    case IndexDeletion(n) => IndexDeletion(Rename(a, b, n))
    case IndexCreation(n, c) => IndexCreation(Rename(a, b, n), c)
    case IndexUpdate(n, c) => IndexUpdate(Rename(a, b, n), c)
    case IndexSwap(swaps) => IndexSwap(RenameSwaps(a, b, swaps))
    case _ => kind
  }

  function RenameDetails(a: Name, b: Name, details: Option<Details>): Option<Details> {
    if details.Some? && details.value.SwapDetails? then Some(SwapDetails(RenameSwaps(a, b, details.value.swaps)))
    else details
  }

  /** The loop over the pairs of a swap list. */
  method RenameInSwaps(a: Name, b: Name, swaps: seq<Swap>) returns (r: seq<Swap>)
    ensures r == RenameSwaps(a, b, swaps)
  {
    r := swaps;
    var i := 0;
    while i < |r|
      invariant 0 <= i <= |r| == |swaps|
      invariant forall k :: 0 <= k < i ==> r[k] == RenameSwaps(a, b, swaps)[k]
      invariant forall k :: i <= k < |r| ==> r[k] == swaps[k]
    {
      var lhs, rhs := r[i].lhs, r[i].rhs;
      if lhs == a || lhs == b {
        lhs := if lhs == a then b else a;
      }
      if rhs == a || rhs == b {
        rhs := if rhs == a then b else a;
      }
      r := r[i := Swap(lhs, rhs)];
      i := i + 1;
    }
  }

  class Task {
    var kind: KindWithContent
    var details: Option<Details>

    /** `swap_index_uid_in_task`. */
    method SwapIndexUid(a: Name, b: Name)
      modifies this
      ensures kind == RenameKind(a, b, old(kind))
      ensures details == RenameDetails(a, b, old(details))
      ensures KindExchanged(a, b, old(kind), kind) && DetailsExchanged(a, b, old(details), details)
    {
      if kind.IndexSwap? {
        var swaps := RenameInSwaps(a, b, kind.swaps);
        kind := IndexSwap(swaps);
      } else if kind.HasIndexUid() {
        var name := if kind.indexUid == a then b else if kind.indexUid == b then a else kind.indexUid;
        kind := kind.(indexUid := name);
      }
      if details.Some? && details.value.SwapDetails? {
        var swaps := RenameInSwaps(a, b, details.value.swaps);
        details := Some(SwapDetails(swaps));
      }
      assert kind == RenameKind(a, b, old(kind)) && details == RenameDetails(a, b, old(details));
      hide *;
      RenameExchanges(a, b, old(kind), old(details));
    }
  }

  /** Swapping twice restores the task. */
  lemma SwapIsInvolution(a: Name, b: Name, kind: KindWithContent, details: Option<Details>)
    ensures RenameKind(a, b, RenameKind(a, b, kind)) == kind
    ensures RenameDetails(a, b, RenameDetails(a, b, details)) == details
  {
    if kind.IndexSwap? {
      RenameSwapsInvolutive(a, b, kind.swaps);
    }
    if details.Some? && details.value.SwapDetails? {
      RenameSwapsInvolutive(a, b, details.value.swaps);
    }
  }

  lemma RenameSwapsInvolutive(a: Name, b: Name, swaps: seq<Swap>)
    ensures RenameSwaps(a, b, RenameSwaps(a, b, swaps)) == swaps
  {
  }

  lemma NamesRenamed(a: Name, b: Name, swaps: seq<Swap>)
    ensures var n, m := Names(swaps), Names(RenameSwaps(a, b, swaps));
            |m| == |n| && forall i :: 0 <= i < |n| ==> m[i] == Rename(a, b, n[i])
  {
  }

  /** A list of swaps is valid exactly when the renamed list is. */
  lemma RenamedValidity(a: Name, b: Name, swaps: seq<Swap>)
    ensures NoDuplicates(Names(swaps)) <==> NoDuplicates(Names(RenameSwaps(a, b, swaps)))
  {
    NamesRenamed(a, b, swaps);
    var n, m := Names(swaps), Names(RenameSwaps(a, b, swaps));
    hide Names, RenameSwaps;
    if !NoDuplicates(n) {
      var i, j :| 0 <= i < j < |n| && n[i] == n[j];
      assert m[i] == m[j];
    }
    if !NoDuplicates(m) {
      var i, j :| 0 <= i < j < |m| && m[i] == m[j];
      assert n[i] == n[j];
    }
  }

  /** The transposition acts on the names a task is about. */
  lemma SwapActsOnIndexes(a: Name, b: Name, kind: KindWithContent)
    ensures Indexes(RenameKind(a, b, kind)) == set n | n in Indexes(kind) :: Rename(a, b, n)
  {
  }

  /** A swap task and its details keep listing the same swaps, and stay valid or invalid. */
  lemma SwapKeepsAgreement(a: Name, b: Name, kind: KindWithContent, details: Option<Details>)
    requires kind.IndexSwap? && details == Some(SwapDetails(kind.swaps))
    ensures var kind', details' := RenameKind(a, b, kind), RenameDetails(a, b, details);
            && kind'.IndexSwap? && details' == Some(SwapDetails(kind'.swaps))
            && (NoDuplicates(Names(kind'.swaps)) <==> NoDuplicates(Names(kind.swaps)))
  {
    hide Names, RenameSwaps, NoDuplicates;
    RenamedValidity(a, b, kind.swaps);
  }

  // ---------- Validity ----------

  datatype Validity = Accepted | DuplicateFound(name: Name) | DuplicatesFound(names: set<Name>) {
    function Reported(): set<Name> {
      match this
      case Accepted => {}
      case DuplicateFound(name) => {name}
      case DuplicatesFound(names) => names
    }
  }

  /** The names that are written more than once. */
  function Repeated(names: seq<Name>): set<Name> {
    set i, j | 0 <= i < j < |names| && names[i] == names[j] :: names[i]
  }

  /** `check_index_swap_validity`. */
  method CheckIndexSwapValidity(kind: KindWithContent) returns (r: Validity)
    ensures !kind.IndexSwap? ==> r == Accepted
    ensures kind.IndexSwap? ==> r.Reported() == Repeated(Names(kind.swaps))
    ensures kind.IndexSwap? ==> (r == Accepted <==> NoDuplicates(Names(kind.swaps)))
    ensures kind.IndexSwap? ==>
              var names := Names(kind.swaps);
              forall n :: n in r.Reported() <==> exists i, j :: 0 <= i < j < |names| && n == names[i] == names[j]
    ensures r.DuplicatesFound? ==> |r.names| > 1
  {
    if !kind.IndexSwap? {
      return Accepted;
    }
    var names := Names(kind.swaps);
    var duplicates := FindDuplicates(names);
    RepeatedIffDuplicates(names);
    if duplicates == {} {
      return Accepted;
    } else if |duplicates| == 1 {
      var name :| name in duplicates;
      assert |duplicates - {name}| == 0;
      assert duplicates == {name};
      return DuplicateFound(name);
    }
    return DuplicatesFound(duplicates);
  }

  method FindDuplicates(names: seq<Name>) returns (duplicates: set<Name>)
    ensures duplicates == Repeated(names)
  {
    var all: set<Name> := {};
    duplicates := {};
    var i := 0;
    while i < |names|
      invariant 0 <= i <= |names|
      invariant forall x :: x in all <==> exists k :: 0 <= k < i && names[k] == x
      invariant duplicates == Repeated(names[..i])
    {
      RepeatedExtends(names, i);
      if names[i] in all {
        duplicates := duplicates + {names[i]};
      }
      all := all + {names[i]};
      i := i + 1;
    }
    assert names[..i] == names;
  }

  lemma RepeatedExtends(names: seq<Name>, i: nat)
    requires i < |names|
    ensures Repeated(names[..i + 1]) ==
            Repeated(names[..i]) + if exists k :: 0 <= k < i && names[k] == names[i] then {names[i]} else {}
  {
  }

  lemma RepeatedIffDuplicates(names: seq<Name>)
    ensures Repeated(names) == {} <==> NoDuplicates(names)
  {
    if !NoDuplicates(names) {
      var i, j :| 0 <= i < j < |names| && names[i] == names[j];
      assert names[i] in Repeated(names);
    }
  }

  // ---------- Swap lists as permutations ----------

  /** The swaps applied one after the other to a name. */
  function ApplyAll(swaps: seq<Swap>, name: Name): Name {
    if swaps == [] then name else ApplyAll(swaps[1..], Rename(swaps[0].lhs, swaps[0].rhs, name))
  }

  /** No name is in two swaps, nor twice in one. */
  predicate Disjoint(swaps: seq<Swap>) {
    && (forall i :: 0 <= i < |swaps| ==> swaps[i].lhs != swaps[i].rhs)
    && (forall i, j :: 0 <= i < j < |swaps| ==>
         {swaps[i].lhs, swaps[i].rhs} !! {swaps[j].lhs, swaps[j].rhs})
  }

  lemma AcceptedIsDisjoint(swaps: seq<Swap>)
    requires NoDuplicates(Names(swaps))
    ensures Disjoint(swaps)
  {
  }

  lemma {:induction false} ApplyAllUnmentioned(swaps: seq<Swap>, name: Name)
    requires forall i :: 0 <= i < |swaps| ==> !Mentions(swaps[i], name)
    ensures ApplyAll(swaps, name) == name
    decreases |swaps|
  {
    if swaps != [] {
      assert !Mentions(swaps[0], name);
      ApplyAllUnmentioned(swaps[1..], name);
    }
  }

  /** In a disjoint list the one swap that mentions a name decides. */
  lemma {:induction false} ApplyAllMentioned(swaps: seq<Swap>, k: nat, name: Name)
    requires Disjoint(swaps) && k < |swaps| && Mentions(swaps[k], name)
    ensures ApplyAll(swaps, name) == Rename(swaps[k].lhs, swaps[k].rhs, name)
    decreases |swaps|
  {
    if k == 0 {
      var renamed := Rename(swaps[0].lhs, swaps[0].rhs, name);
      forall i | 0 <= i < |swaps[1..]| ensures !Mentions(swaps[1..][i], renamed) {
        assert {swaps[0].lhs, swaps[0].rhs} !! {swaps[i + 1].lhs, swaps[i + 1].rhs};
        assert renamed in {swaps[0].lhs, swaps[0].rhs};
      }
      ApplyAllUnmentioned(swaps[1..], renamed);
    } else {
      assert {swaps[0].lhs, swaps[0].rhs} !! {swaps[k].lhs, swaps[k].rhs};
      assert name in {swaps[k].lhs, swaps[k].rhs};
      ApplyAllMentioned(swaps[1..], k - 1, name);
    }
  }

  lemma DisjointPermuted(s: seq<Swap>, t: seq<Swap>)
    requires Disjoint(s) && multiset(s) == multiset(t)
    ensures Disjoint(t)
  {
    forall i | 0 <= i < |t| ensures t[i] in s {
      assert t[i] in multiset(s);
    }
    forall i, j | 0 <= i < j < |t| ensures {t[i].lhs, t[i].rhs} !! {t[j].lhs, t[j].rhs} {
      var k :| 0 <= k < |s| && s[k] == t[i];
      var l :| 0 <= l < |s| && s[l] == t[j];
      if k == l {
        TwiceInMultiset(t, i, j);
        OnceInMultiset(s, k);
        assert false;
      }
    }
    forall i | 0 <= i < |t| ensures t[i].lhs != t[i].rhs {
      var k :| 0 <= k < |s| && s[k] == t[i];
    }
  }

  lemma TwiceInMultiset(t: seq<Swap>, i: nat, j: nat)
    requires i < j < |t| && t[i] == t[j]
    ensures multiset(t)[t[i]] >= 2
  {
    assert t == t[..i] + [t[i]] + t[i + 1..j] + [t[j]] + t[j + 1..];
  }

  lemma OnceInMultiset(s: seq<Swap>, k: nat)
    requires Disjoint(s) && k < |s|
    ensures multiset(s)[s[k]] == 1
  {
    assert s == s[..k] + [s[k]] + s[k + 1..];
    assert s[k] !in s[..k] && s[k] !in s[k + 1..];
  }

  /** Accepted swaps take each name of a pair to the other one and every other name to itself. */
  lemma AcceptedSwapsExchange(s: seq<Swap>, name: Name)
    requires NoDuplicates(Names(s))
    ensures forall k :: 0 <= k < |s| ==> ApplyAll(s, s[k].lhs) == s[k].rhs && ApplyAll(s, s[k].rhs) == s[k].lhs
    ensures name !in Names(s) ==> ApplyAll(s, name) == name
  {
    AcceptedIsDisjoint(s);
    forall k | 0 <= k < |s| ensures ApplyAll(s, s[k].lhs) == s[k].rhs && ApplyAll(s, s[k].rhs) == s[k].lhs {
      ApplyAllMentioned(s, k, s[k].lhs);
      ApplyAllMentioned(s, k, s[k].rhs);
    }
    if name !in Names(s) {
      forall i | 0 <= i < |s| ensures !Mentions(s[i], name) {
        assert Names(s)[2 * i] == s[i].lhs && Names(s)[2 * i + 1] == s[i].rhs;
      }
      ApplyAllUnmentioned(s, name);
    }
  }

  /** Accepted swaps commute: applied in any order they rename every name in the same way, and twice restore it. */
  lemma AcceptedSwapsCommute(s: seq<Swap>, t: seq<Swap>, name: Name)
    requires NoDuplicates(Names(s)) && multiset(s) == multiset(t)
    ensures ApplyAll(s, name) == ApplyAll(t, name)
    ensures ApplyAll(s, ApplyAll(s, name)) == name
  {
    AcceptedIsDisjoint(s);
    DisjointPermuted(s, t);
    if k: nat :| k < |s| && Mentions(s[k], name) {
      assert s[k] in multiset(t);
      var l :| 0 <= l < |t| && t[l] == s[k];
      ApplyAllMentioned(s, k, name);
      ApplyAllMentioned(t, l, name);
      ApplyAllMentioned(s, k, ApplyAll(s, name));
    } else {
      forall i | 0 <= i < |t| ensures !Mentions(t[i], name) {
        assert t[i] in multiset(s);
      }
      ApplyAllUnmentioned(s, name);
      ApplyAllUnmentioned(t, name);
    }
  }

  // ---------- Swap lists applied to tasks ----------

  function SwapKindAll(swaps: seq<Swap>, kind: KindWithContent): KindWithContent
    decreases |swaps|
  {
    if swaps == [] then kind else SwapKindAll(swaps[1..], RenameKind(swaps[0].lhs, swaps[0].rhs, kind))
  }

  function SwapDetailsAll(swaps: seq<Swap>, details: Option<Details>): Option<Details>
    decreases |swaps|
  {
    if swaps == [] then details else SwapDetailsAll(swaps[1..], RenameDetails(swaps[0].lhs, swaps[0].rhs, details))
  }

  /** Every name of a list taken through all the swaps. */
  function ApplyToSwaps(swaps: seq<Swap>, list: seq<Swap>): (r: seq<Swap>)
    ensures |r| == |list|
    ensures forall i :: 0 <= i < |r| ==> r[i] == Swap(ApplyAll(swaps, list[i].lhs), ApplyAll(swaps, list[i].rhs))
  {
    seq(|list|, i requires 0 <= i < |list| => Swap(ApplyAll(swaps, list[i].lhs), ApplyAll(swaps, list[i].rhs)))
  }

  function ApplyToKind(swaps: seq<Swap>, kind: KindWithContent): KindWithContent {
    if kind.HasIndexUid() then kind.(indexUid := ApplyAll(swaps, kind.indexUid))
    else if kind.IndexSwap? then IndexSwap(ApplyToSwaps(swaps, kind.swaps))
    else kind
  }

  function ApplyToDetails(swaps: seq<Swap>, details: Option<Details>): Option<Details> {
    if details.Some? && details.value.SwapDetails? then Some(SwapDetails(ApplyToSwaps(swaps, details.value.swaps)))
    else details
  }

  lemma ApplyToNone(list: seq<Swap>)
    ensures ApplyToSwaps([], list) == list
  {
  }

  lemma ApplyToOneMore(swaps: seq<Swap>, list: seq<Swap>)
    requires swaps != []
    ensures ApplyToSwaps(swaps, list) == ApplyToSwaps(swaps[1..], RenameSwaps(swaps[0].lhs, swaps[0].rhs, list))
  {
  }

  /** Swapping a task again and again takes each of its names through the swaps. */
  lemma {:induction false} SwapKindAllNames(swaps: seq<Swap>, kind: KindWithContent)
    ensures SwapKindAll(swaps, kind) == ApplyToKind(swaps, kind)
    decreases |swaps|
  {
    if swaps == [] {
      if kind.IndexSwap? {
        ApplyToNone(kind.swaps);
      }
    } else {
      SwapKindAllNames(swaps[1..], RenameKind(swaps[0].lhs, swaps[0].rhs, kind));
      if kind.IndexSwap? {
        ApplyToOneMore(swaps, kind.swaps);
      }
    }
  }

  lemma {:induction false} SwapDetailsAllNames(swaps: seq<Swap>, details: Option<Details>)
    ensures SwapDetailsAll(swaps, details) == ApplyToDetails(swaps, details)
    decreases |swaps|
  {
    var swapped := details.Some? && details.value.SwapDetails?;
    if swaps == [] {
      if swapped {
        ApplyToNone(details.value.swaps);
      }
    } else {
      SwapDetailsAllNames(swaps[1..], RenameDetails(swaps[0].lhs, swaps[0].rhs, details));
      if swapped {
        ApplyToOneMore(swaps, details.value.swaps);
      }
    }
  }

  lemma AcceptedSwapsCommuteOnLists(s: seq<Swap>, t: seq<Swap>, list: seq<Swap>)
    requires NoDuplicates(Names(s)) && multiset(s) == multiset(t)
    ensures ApplyToSwaps(s, list) == ApplyToSwaps(t, list)
    ensures ApplyToSwaps(s, ApplyToSwaps(s, list)) == list
  {
    hide Names, ApplyAll;
    forall i | 0 <= i < |list|
      ensures ApplyToSwaps(s, list)[i] == ApplyToSwaps(t, list)[i]
      ensures ApplyToSwaps(s, ApplyToSwaps(s, list))[i] == list[i]
    {
      AcceptedSwapsCommute(s, t, list[i].lhs);
      AcceptedSwapsCommute(s, t, list[i].rhs);
    }
  }

  /** Accepted swaps carried out on a task in any order give the same task, and twice restore it. */
  lemma AcceptedSwapsCommuteOnTasks(s: seq<Swap>, t: seq<Swap>, kind: KindWithContent, details: Option<Details>)
    requires NoDuplicates(Names(s)) && multiset(s) == multiset(t)
    ensures SwapKindAll(s, kind) == SwapKindAll(t, kind) && SwapDetailsAll(s, details) == SwapDetailsAll(t, details)
    ensures SwapKindAll(s, SwapKindAll(s, kind)) == kind && SwapDetailsAll(s, SwapDetailsAll(s, details)) == details
  {
    hide Names, ApplyAll, SwapKindAll, SwapDetailsAll, ApplyToSwaps;
    SwapKindAllNames(s, kind);
    SwapKindAllNames(t, kind);
    SwapKindAllNames(s, ApplyToKind(s, kind));
    SwapDetailsAllNames(s, details);
    SwapDetailsAllNames(t, details);
    SwapDetailsAllNames(s, ApplyToDetails(s, details));
    if kind.HasIndexUid() {
      AcceptedSwapsCommute(s, t, kind.indexUid);
    } else if kind.IndexSwap? {
      AcceptedSwapsCommuteOnLists(s, t, kind.swaps);
    }
    if details.Some? && details.value.SwapDetails? {
      AcceptedSwapsCommuteOnLists(s, t, details.value.swaps);
    }
  }
}
