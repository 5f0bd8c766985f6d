/** Planning the edits of one hook (build_updated_dependency_map) and of the
    whole document (the collection loops of main). */
module Planner {
  import opened Types
  import opened Pins

  /** hook_config.get("additional_dependencies", ()) */
  function HookDeps(h: HookConfig): seq<LocatedToken> {
    match h.additionalDependencies
    case None => []
    case Some(deps) => deps
  }

  // ---------------------------------------------------------------------
  // The dict `new_deps`, keyed by the dependency string.

  /** A dict in insertion order: one entry per distinct key string. */
  predicate DistinctKeys(d: seq<Edit>) {
    forall i, j :: 0 <= i < j < |d| ==> d[i].token.value != d[j].token.value
  }

  /** `new_deps[current] = new`. The key compares by its string value: when
      an equal key is present, that entry keeps its original key (and so its
      location) and place, and only its value changes. */
  function DictAssign(d: seq<Edit>, t: LocatedToken, v: string): (r: seq<Edit>)
    ensures |r| == |d| || |r| == |d| + 1
    ensures forall i :: 0 <= i < |d| ==> r[i].token == d[i].token
    ensures |r| == |d| + 1 <==> forall i :: 0 <= i < |d| ==> d[i].token.value != t.value
    ensures |r| == |d| + 1 ==> r[|d|] == Edit(t, v)
  {
    if d == [] then [Edit(t, v)]
    else if d[0].token.value == t.value then
      var r := [Edit(d[0].token, v)] + d[1..];
      assert forall i :: 1 <= i < |d| ==> r[i] == d[i];
      r
    else
      var rest := DictAssign(d[1..], t, v);
      var r := [d[0]] + rest;
      assert forall i :: 1 <= i < |r| ==> r[i] == rest[i - 1];
      r
  }

  /** On a dict, the assignment keeps one entry per key string and changes
      exactly the value stored under `t`'s string. */
  lemma DictAssignUpdates(d: seq<Edit>, t: LocatedToken, v: string)
    requires DistinctKeys(d)
    ensures DistinctKeys(DictAssign(d, t, v))
    ensures forall i :: 0 <= i < |d| ==>
              DictAssign(d, t, v)[i].replacement == (if d[i].token.value == t.value then v else d[i].replacement)
  {
    DictAssignDistinct(d, t, v);
    DictAssignValues(d, t, v);
  }

  lemma {:induction false} DictAssignDistinct(d: seq<Edit>, t: LocatedToken, v: string)
    requires DistinctKeys(d)
    ensures DistinctKeys(DictAssign(d, t, v))
  {
    if d != [] && d[0].token.value != t.value {
      DictAssignDistinct(d[1..], t, v);
      var rest := DictAssign(d[1..], t, v);
      assert DictAssign(d, t, v) == [d[0]] + rest;
      forall j | 0 <= j < |rest| ensures d[0].token.value != rest[j].token.value {
        if j < |d| - 1 {
          assert rest[j].token == d[j + 1].token;
        }
      }
    } else if d != [] {
      var r := DictAssign(d, t, v);
      assert forall i :: 1 <= i < |d| ==> r[i] == d[i];
    }
  }

  lemma {:induction false} DictAssignValues(d: seq<Edit>, t: LocatedToken, v: string)
    requires DistinctKeys(d)
    ensures forall i :: 0 <= i < |d| ==>
              DictAssign(d, t, v)[i].replacement == (if d[i].token.value == t.value then v else d[i].replacement)
  {
    if d != [] && d[0].token.value != t.value {
      DictAssignValues(d[1..], t, v);
      var rest := DictAssign(d[1..], t, v);
      assert DictAssign(d, t, v) == [d[0]] + rest;
      assert forall i :: 1 <= i < |d| ==> d[1..][i - 1] == d[i];
    } else if d != [] {
      var r := DictAssign(d, t, v);
      assert forall i :: 1 <= i < |d| ==> r[i] == d[i] && d[i].token.value != t.value;
    }
  }

  /** The dict after the loop of build_updated_dependency_map over `deps`,
      or the KeyError of the first unknown package. */
  function UpdatedDependencies(deps: seq<LocatedToken>, versions: VersionMap): Result<seq<Edit>>
  {
    if deps == [] then Ok([])
    else AssignUpdate(UpdatedDependencies(deps[..|deps| - 1], versions), deps[|deps| - 1], versions)
  }

  /** One turn of that loop, for the dependency `current`. */
  function AssignUpdate(acc: Result<seq<Edit>>, current: LocatedToken, versions: VersionMap): Result<seq<Edit>>
  {
    match acc
    case Err(f) => Err(f)
    case Ok(d) =>
      match UpdateDependency(current.value, versions)
      case Err(f) => Err(f)
      case Ok(None) => Ok(d)
      case Ok(Some(n)) => Ok(DictAssign(d, current, n))
  }

  /** Index of the first dependency whose update fails, if any. */
  predicate FailsFirstAt(deps: seq<LocatedToken>, versions: VersionMap, i: int) {
    && 0 <= i < |deps|
    && UpdateDependency(deps[i].value, versions).Err?
    && forall j :: 0 <= j < i ==> UpdateDependency(deps[j].value, versions).Ok?
  }

  /** The loop stops at the first unknown package and reports it; otherwise
      it succeeds. */
  lemma {:induction false} UpdatedDependenciesOutcome(deps: seq<LocatedToken>, versions: VersionMap)
    ensures UpdatedDependencies(deps, versions).Ok? <==>
              forall i :: 0 <= i < |deps| ==> UpdateDependency(deps[i].value, versions).Ok?
    ensures UpdatedDependencies(deps, versions).Err? ==>
              exists i :: FailsFirstAt(deps, versions, i) &&
                          UpdatedDependencies(deps, versions).error == UpdateDependency(deps[i].value, versions).error
  {
    if deps != [] {
      var init := deps[..|deps| - 1];
      var t := deps[|deps| - 1];
      UpdatedDependenciesOutcome(init, versions);
      if UpdatedDependencies(init, versions).Err? {
        var i :| FailsFirstAt(init, versions, i) &&
                 UpdatedDependencies(init, versions).error == UpdateDependency(init[i].value, versions).error;
        FailsFirstExtends(deps, versions, i);
      } else {
        OutcomeLast(deps, init, versions);
      }
    }
  }

  lemma FailsFirstExtends(deps: seq<LocatedToken>, versions: VersionMap, i: int)
    requires deps != [] && FailsFirstAt(deps[..|deps| - 1], versions, i)
    ensures FailsFirstAt(deps, versions, i) && deps[..|deps| - 1][i] == deps[i]
  {
    var init := deps[..|deps| - 1];
    forall j | 0 <= j < i ensures UpdateDependency(deps[j].value, versions).Ok? {
      assert init[j] == deps[j];
    }
  }

  /** The last dependency decides the outcome once the others passed. */
  lemma OutcomeLast(deps: seq<LocatedToken>, init: seq<LocatedToken>, versions: VersionMap)
    requires deps != [] && init == deps[..|deps| - 1] && UpdatedDependencies(init, versions).Ok?
    requires forall i :: 0 <= i < |init| ==> UpdateDependency(init[i].value, versions).Ok?
    ensures UpdatedDependencies(deps, versions).Ok? <==>
              forall i :: 0 <= i < |deps| ==> UpdateDependency(deps[i].value, versions).Ok?
    ensures UpdatedDependencies(deps, versions).Err? ==>
              FailsFirstAt(deps, versions, |deps| - 1) &&
              UpdatedDependencies(deps, versions).error == UpdateDependency(deps[|deps| - 1].value, versions).error
  {
    var t := deps[|deps| - 1];
    assert UpdatedDependencies(deps, versions) == AssignUpdate(UpdatedDependencies(init, versions), t, versions);
    forall i | 0 <= i < |init| ensures UpdateDependency(deps[i].value, versions).Ok? {
      assert init[i] == deps[i];
    }
    if UpdateDependency(t.value, versions).Ok? {
      forall i | 0 <= i < |deps| ensures UpdateDependency(deps[i].value, versions).Ok? {
        if i == |init| {
          assert deps[i] == t;
        }
      }
    }
  }

  /** The first dependency in `deps` with string value v. */
  predicate FirstWithValue(deps: seq<LocatedToken>, j: int, v: string) {
    0 <= j < |deps| && deps[j].value == v && forall i :: 0 <= i < j ==> deps[i].value != v
  }

  /** update_dependency rewrites the string s. */
  predicate Stale(s: string, versions: VersionMap) {
    UpdateDependency(s, versions).Ok? && UpdateDependency(s, versions).value.Some?
  }

  /** Some entry of the dict has key s. */
  ghost predicate HasKey(d: seq<Edit>, s: string) {
    exists i :: 0 <= i < |d| && d[i].token.value == s
  }

  /** k is the first dependency token carrying its string. */
  ghost predicate FirstToken(deps: seq<LocatedToken>, k: LocatedToken) {
    exists j :: FirstWithValue(deps, j, k.value) && deps[j] == k
  }

  /** Each key is the first dependency token carrying its string. */
  ghost predicate KeysFirst(deps: seq<LocatedToken>, d: seq<Edit>) {
    forall i :: 0 <= i < |d| ==> FirstToken(deps, d[i].token)
  }

  /** Each value is the rewrite update_dependency gives for its key. */
  predicate ValuesUpdated(versions: VersionMap, d: seq<Edit>) {
    forall i :: 0 <= i < |d| ==> UpdateDependency(d[i].token.value, versions) == Ok(Some(d[i].replacement))
  }

  /** Every stale dependency has an entry. */
  ghost predicate CoversStale(deps: seq<LocatedToken>, versions: VersionMap, d: seq<Edit>) {
    forall k :: 0 <= k < |deps| && Stale(deps[k].value, versions) ==> HasKey(d, deps[k].value)
  }

  /** What the dict holds: one entry per distinct dependency string that
      update_dependency rewrites, keyed by the first token carrying that
      string, and mapped to the rewritten pin. */
  ghost predicate DictMeaning(deps: seq<LocatedToken>, versions: VersionMap, d: seq<Edit>) {
    DistinctKeys(d) && KeysFirst(deps, d) && ValuesUpdated(versions, d) && CoversStale(deps, versions, d)
  }

  lemma FirstWithValueExtends(deps: seq<LocatedToken>, j: int, v: string, t: LocatedToken)
    requires FirstWithValue(deps, j, v)
    ensures FirstWithValue(deps + [t], j, v)
  {
  }

  lemma KeysFirstExtends(deps: seq<LocatedToken>, d: seq<Edit>, t: LocatedToken)
    requires KeysFirst(deps, d)
    ensures KeysFirst(deps + [t], d)
  {
    var deps' := deps + [t];
    forall i | 0 <= i < |d| ensures FirstToken(deps', d[i].token) {
      var j :| FirstWithValue(deps, j, d[i].token.value) && deps[j] == d[i].token;
      FirstWithValueExtends(deps, j, d[i].token.value, t);
      assert deps'[j] == deps[j];
    }
    assert KeysFirst(deps', d);
  }

  /** A rewritten string that has no entry yet was never seen before. */
  lemma NewKeyIsFirst(deps: seq<LocatedToken>, versions: VersionMap, d: seq<Edit>, t: LocatedToken)
    requires CoversStale(deps, versions, d) && !HasKey(d, t.value) && Stale(t.value, versions)
    ensures FirstWithValue(deps + [t], |deps|, t.value)
  {
    forall k | 0 <= k < |deps| ensures deps[k].value != t.value {
      assert Stale(deps[k].value, versions) ==> HasKey(d, deps[k].value);
    }
  }

  /** A rewritten dependency either joins the dict as a new key (no earlier
      dependency had its string) or updates the entry already there. */
  lemma KeysFirstAssign(deps: seq<LocatedToken>, versions: VersionMap, d: seq<Edit>, t: LocatedToken, n: string)
    requires KeysFirst(deps, d) && CoversStale(deps, versions, d)
    requires UpdateDependency(t.value, versions) == Ok(Some(n))
    ensures KeysFirst(deps + [t], DictAssign(d, t, n))
  {
    var d' := DictAssign(d, t, n);
    KeysFirstExtends(deps, d, t);
    if |d'| == |d| + 1 {
      assert !HasKey(d, t.value);
      NewKeyIsFirst(deps, versions, d, t);
      assert d'[|d|].token == (deps + [t])[|deps|];
    }
    forall i | 0 <= i < |d'| ensures FirstToken(deps + [t], d'[i].token) {
      if i < |d| {
        assert d'[i].token == d[i].token;
      } else {
        assert FirstWithValue(deps + [t], |deps|, d'[i].token.value);
      }
    }
  }

  lemma CoversAssign(deps: seq<LocatedToken>, versions: VersionMap, d: seq<Edit>, t: LocatedToken, n: string)
    requires CoversStale(deps, versions, d)
    requires UpdateDependency(t.value, versions) == Ok(Some(n))
    ensures CoversStale(deps + [t], versions, DictAssign(d, t, n))
  {
    var d' := DictAssign(d, t, n);
    forall k | 0 <= k < |deps| + 1 && Stale((deps + [t])[k].value, versions)
      ensures HasKey(d', (deps + [t])[k].value)
    {
      if k < |deps| {
        var i :| 0 <= i < |d| && d[i].token.value == deps[k].value;
        assert d'[i].token.value == deps[k].value;
      } else if |d'| == |d| + 1 {
        assert d'[|d|].token.value == t.value;
      } else {
        var i :| 0 <= i < |d| && d[i].token.value == t.value;
        assert d'[i].token.value == t.value;
      }
    }
  }

  lemma CoversSkip(deps: seq<LocatedToken>, versions: VersionMap, d: seq<Edit>, t: LocatedToken)
    requires CoversStale(deps, versions, d)
    requires UpdateDependency(t.value, versions) == Ok(None)
    ensures CoversStale(deps + [t], versions, d)
  {
    assert forall k :: 0 <= k < |deps| ==> (deps + [t])[k] == deps[k];
  }

  /** build_updated_dependency_map holds an entry exactly for the
      dependency strings update_dependency rewrites, mapped to the result. */
  lemma {:induction false} UpdatedDependenciesMeaning(deps: seq<LocatedToken>, versions: VersionMap)
    requires UpdatedDependencies(deps, versions).Ok?
    ensures DictMeaning(deps, versions, UpdatedDependencies(deps, versions).value)
  {
    if deps != [] {
      var init := deps[..|deps| - 1];
      var t := deps[|deps| - 1];
      UpdatedDependenciesMeaning(init, versions);
      assert deps == init + [t];
      MeaningStep(init, versions, UpdatedDependencies(init, versions).value, t);
    }
  }

  /** One turn of the loop keeps the dict's meaning. */
  lemma MeaningStep(init: seq<LocatedToken>, versions: VersionMap, d: seq<Edit>, t: LocatedToken)
    requires DictMeaning(init, versions, d) && UpdateDependency(t.value, versions).Ok?
    ensures DictMeaning(init + [t], versions, AssignUpdate(Ok(d), t, versions).value)
  {
    match UpdateDependency(t.value, versions).value
    case None =>
      KeysFirstExtends(init, d, t);
      CoversSkip(init, versions, d, t);
    case Some(n) =>
      MeaningAssign(init, versions, d, t, n);
  }

  lemma MeaningAssign(init: seq<LocatedToken>, versions: VersionMap, d: seq<Edit>, t: LocatedToken, n: string)
    requires DictMeaning(init, versions, d) && UpdateDependency(t.value, versions) == Ok(Some(n))
    ensures DictMeaning(init + [t], versions, DictAssign(d, t, n))
  {
    KeysFirstAssign(init, versions, d, t, n);
    CoversAssign(init, versions, d, t, n);
    ValuesAssign(versions, d, t, n);
    DictAssignUpdates(d, t, n);
  }

  lemma ValuesAssign(versions: VersionMap, d: seq<Edit>, t: LocatedToken, n: string)
    requires DistinctKeys(d) && ValuesUpdated(versions, d)
    requires UpdateDependency(t.value, versions) == Ok(Some(n))
    ensures ValuesUpdated(versions, DictAssign(d, t, n))
  {
    var d' := DictAssign(d, t, n);
    DictAssignUpdates(d, t, n);
    forall i | 0 <= i < |d'| ensures UpdateDependency(d'[i].token.value, versions) == Ok(Some(d'[i].replacement)) {
      if i < |d| {
        assert d'[i].token == d[i].token;
      }
    }
  }

  /** build_updated_dependency_map */
  method BuildUpdatedDependencyMap(hook: HookConfig, versions: VersionMap) returns (r: Result<seq<Edit>>)
    ensures r == UpdatedDependencies(HookDeps(hook), versions)
  {
    var deps := HookDeps(hook);
    var newDeps: seq<Edit> := [];
    var k := 0;
    while k < |deps|
      invariant 0 <= k <= |deps|
      invariant UpdatedDependencies(deps[..k], versions) == Ok(newDeps)
    {
      var current := deps[k];
      UpdatedPrefixStep(deps, versions, k);
      var newDependency := UpdateDependency(current.value, versions);
      if newDependency.Err? {
        UpdatedErrorPersists(deps, versions, k + 1);
        return Err(newDependency.error);
      }
      if newDependency.value.Some? {
        newDeps := DictAssign(newDeps, current, newDependency.value.value);
      }
      k := k + 1;
    }
    assert deps[..k] == deps;
    return Ok(newDeps);
  }

  /** Extending the prefix by one dependency is one turn of the loop. */
  lemma UpdatedPrefixStep(deps: seq<LocatedToken>, versions: VersionMap, k: nat)
    requires k < |deps|
    ensures UpdatedDependencies(deps[..k + 1], versions) ==
            AssignUpdate(UpdatedDependencies(deps[..k], versions), deps[k], versions)
  {
    assert deps[..k + 1][..k] == deps[..k];
  }

  lemma {:induction false} UpdatedErrorPersists(deps: seq<LocatedToken>, versions: VersionMap, k: nat)
    requires k <= |deps| && UpdatedDependencies(deps[..k], versions).Err?
    ensures UpdatedDependencies(deps, versions) == UpdatedDependencies(deps[..k], versions)
    decreases |deps| - k
  {
    if k < |deps| {
      assert deps[..k + 1][..k] == deps[..k];
      UpdatedErrorPersists(deps, versions, k + 1);
    } else {
      assert deps[..k] == deps;
    }
  }

  lemma UpdateExample()
    ensures UpdateDependency("a==1", map["a" := "2"]) == Ok(Some("a==2"))
  {
    assert "a==1"[1..] == "==1";
    assert FirstSep("==1") == Some(0);
    assert FirstSep("a==1") == Some(1);
    assert "a==1"[..1] == "a" && "a==1"[3..] == "1";
    assert ParsePin("a==1") == Some(Pin("a", "1"));
    assert PinText(Pin("a", "2")) == "a==2";
  }

  /** A hook that lists the same stale pin twice gets one edit, at the first
      occurrence: the second stays stale. */
  lemma DuplicatePinKeepsOneEdit()
    ensures var first := LocatedToken("a==1", 3, 6);
            var second := LocatedToken("a==1", 4, 6);
            var versions := map["a" := "2"];
            UpdatedDependencies([first, second], versions) == Ok([Edit(first, "a==2")])
  {
    var first := LocatedToken("a==1", 3, 6);
    var second := LocatedToken("a==1", 4, 6);
    var versions := map["a" := "2"];
    UpdateExample();
    assert [first, second][..1] == [first];
    assert [first][..0] == [];
    assert UpdatedDependencies([first], versions) == Ok([Edit(first, "a==2")]);
    assert DictAssign([Edit(first, "a==2")], second, "a==2") == [Edit(first, "a==2")];
  }

  // ---------------------------------------------------------------------
  // One edit per stale token.

  /** The edits a hook needs: one per dependency token update_dependency
      rewrites, in the hook's order. */
  function PinEdits(deps: seq<LocatedToken>, versions: VersionMap): Result<seq<Edit>>
  {
    if deps == [] then Ok([])
    else AppendUpdate(PinEdits(deps[..|deps| - 1], versions), deps[|deps| - 1], versions)
  }

  /** One dependency's contribution: its own edit when it is stale. */
  function AppendUpdate(acc: Result<seq<Edit>>, current: LocatedToken, versions: VersionMap): Result<seq<Edit>>
  {
    match acc
    case Err(f) => Err(f)
    case Ok(es) =>
      match UpdateDependency(current.value, versions)
      case Err(f) => Err(f)
      case Ok(None) => Ok(es)
      case Ok(Some(n)) => Ok(es + [Edit(current, n)])
  }

  /** Every stale pin of the hook gets its own edit, at its own location, and
      every edit is such a rewrite; the errors are those of the dict. */
  lemma {:induction false} PinEditsMeaning(deps: seq<LocatedToken>, versions: VersionMap)
    ensures PinEdits(deps, versions).Err? <==> UpdatedDependencies(deps, versions).Err?
    ensures PinEdits(deps, versions).Err? ==> PinEdits(deps, versions).error == UpdatedDependencies(deps, versions).error
    ensures PinEdits(deps, versions).Ok? ==>
              forall e :: e in PinEdits(deps, versions).value <==>
                e.token in deps && UpdateDependency(e.token.value, versions) == Ok(Some(e.replacement))
  {
    if deps != [] {
      var init := deps[..|deps| - 1];
      var t := deps[|deps| - 1];
      PinEditsMeaning(init, versions);
      assert deps == init + [t];
      if PinEdits(deps, versions).Ok? {
        var es := PinEdits(init, versions).value;
        forall e ensures e in PinEdits(deps, versions).value <==>
                         e.token in deps && UpdateDependency(e.token.value, versions) == Ok(Some(e.replacement)) {
          assert e.token in deps <==> e.token in init || e.token == t;
        }
      }
    }
  }

  /** When no two dependencies of the hook are the same string, the dict
      holds exactly these edits, in the same order. */
  lemma {:induction false} PinEditsAgreeOnDistinct(deps: seq<LocatedToken>, versions: VersionMap)
    requires DistinctPins(deps)
    ensures PinEdits(deps, versions) == UpdatedDependencies(deps, versions)
  {
    if deps != [] {
      var init := deps[..|deps| - 1];
      var t := deps[|deps| - 1];
      PinEditsAgreeOnDistinct(init, versions);
      if UpdatedDependencies(init, versions).Ok? && Stale(t.value, versions) {
        AssignFreshKey(deps, versions);
      }
    }
  }

  /** A string no earlier dependency carries joins the dict at its end. */
  lemma AssignFreshKey(deps: seq<LocatedToken>, versions: VersionMap)
    requires deps != [] && UpdatedDependencies(deps[..|deps| - 1], versions).Ok?
    requires forall j :: 0 <= j < |deps| - 1 ==> deps[j].value != deps[|deps| - 1].value
    requires Stale(deps[|deps| - 1].value, versions)
    ensures var d := UpdatedDependencies(deps[..|deps| - 1], versions).value;
            var t := deps[|deps| - 1];
            DictAssign(d, t, UpdateDependency(t.value, versions).value.value) ==
              d + [Edit(t, UpdateDependency(t.value, versions).value.value)]
  {
    var init := deps[..|deps| - 1];
    var t := deps[|deps| - 1];
    var d := UpdatedDependencies(init, versions).value;
    UpdatedDependenciesMeaning(init, versions);
    forall i | 0 <= i < |d| ensures d[i].token.value != t.value {
      assert FirstToken(init, d[i].token);
      var j :| FirstWithValue(init, j, d[i].token.value) && init[j] == d[i].token;
      assert deps[j] == init[j];
    }
    DictAssignAbsent(d, t, UpdateDependency(t.value, versions).value.value);
  }

  /** Assigning a key string the dict does not hold appends the entry. */
  lemma {:induction false} DictAssignAbsent(d: seq<Edit>, t: LocatedToken, v: string)
    requires forall i :: 0 <= i < |d| ==> d[i].token.value != t.value
    ensures DictAssign(d, t, v) == d + [Edit(t, v)]
  {
    if d != [] {
      DictAssignAbsent(d[1..], t, v);
      assert d == [d[0]] + d[1..];
    }
  }

  // ---------------------------------------------------------------------
  // Selecting hooks: the repo URL as upadup's configuration spells it.

  function AsciiLower(c: char): char {
    if 'A' <= c <= 'Z' then (c as int - 'A' as int + 'a' as int) as char else c
  }

  /** str.casefold(), restricted to ASCII letters. */
  function AsciiCasefold(s: string): (r: string)
    ensures |r| == |s|
    ensures forall i :: 0 <= i < |r| ==> !('A' <= r[i] <= 'Z')
    ensures forall i :: 0 <= i < |s| ==> r[i] == AsciiLower(s[i])
  {
    if s == [] then [] else [AsciiLower(s[0])] + AsciiCasefold(s[1..])
  }

  /** Casefolding twice is casefolding once. */
  lemma CasefoldIdempotent(s: string)
    ensures AsciiCasefold(AsciiCasefold(s)) == AsciiCasefold(s)
  {
  }

  predicate EndsWithGit(s: string) {
    |s| >= 4 && s[|s| - 4..] == ".git"
  }

  /** `repo_str[:-4]` when repo_str ends with ".git". */
  function StripGitSuffix(s: string): (r: string)
  {
    if EndsWithGit(s) then s[..|s| - 4] else s
  }

  /** Exactly the four characters of a ".git" suffix are removed; any other
      string is kept. */
  lemma StripGitSuffixMeaning(s: string)
    ensures EndsWithGit(s) ==> StripGitSuffix(s) + ".git" == s
    ensures !EndsWithGit(s) ==> StripGitSuffix(s) == s
    ensures StripGitSuffix(s + ".git") == s
  {
    assert (s + ".git")[|s + ".git"| - 4..] == ".git";
    assert (s + ".git")[..|s|] == s;
    if EndsWithGit(s) {
      assert s == s[..|s| - 4] + s[|s| - 4..];
    }
  }

  function RepoKey(repo: string): string {
    StripGitSuffix(AsciiCasefold(repo))
  }

  /** The hook is one upadup's configuration asks to check. */
  predicate Selected(cfg: UpadupConfig, repo: RepoConfig, hook: HookConfig) {
    RepoKey(repo.repo) in cfg && hook.id in cfg[RepoKey(repo.repo)]
  }

  // ---------------------------------------------------------------------
  // What generate_updates yields for one hook.

  /** How a hook's edits are keyed. `ByString` is what generate_updates
      yields: the entries of build_updated_dependency_map, one per distinct
      dependency string. `ByToken` gives every stale dependency token its own
      edit, so that a pin listed twice is rewritten at both places. */
  datatype Keying = ByString | ByToken

  /** The (old token, new pin) pairs generate_updates yields for a hook. */
  function GenerateUpdates(h: HookConfig, versions: VersionMap, keying: Keying): Result<seq<Edit>>
  {
    match keying
    case ByString => UpdatedDependencies(HookDeps(h), versions)
    case ByToken => PinEdits(HookDeps(h), versions)
  }

  /** No two dependencies of a hook are the same string. */
  predicate DistinctPins(deps: seq<LocatedToken>) {
    forall i, j :: 0 <= i < j < |deps| ==> deps[i].value != deps[j].value
  }

  /** Every yielded pair rewrites one of the hook's own dependencies into
      the pin update_dependency gives for it. */
  lemma GenerateUpdatesGenuine(h: HookConfig, versions: VersionMap, keying: Keying)
    requires GenerateUpdates(h, versions, keying).Ok?
    ensures forall e :: e in GenerateUpdates(h, versions, keying).value ==>
              e.token in HookDeps(h) && UpdateDependency(e.token.value, versions) == Ok(Some(e.replacement))
  {
    var deps := HookDeps(h);
    match keying
    case ByToken =>
      PinEditsMeaning(deps, versions);
    case ByString =>
      var d := UpdatedDependencies(deps, versions).value;
      UpdatedDependenciesMeaning(deps, versions);
      forall e | e in d ensures e.token in deps && UpdateDependency(e.token.value, versions) == Ok(Some(e.replacement)) {
        var i :| 0 <= i < |d| && d[i] == e;
        assert FirstToken(deps, d[i].token);
        var j :| FirstWithValue(deps, j, d[i].token.value) && deps[j] == d[i].token;
      }
  }

  /** Every stale dependency string of the hook is rewritten by some yielded
      pair; the pair sits at that very dependency when edits are keyed by
      token, or when the hook lists no pin string twice. */
  lemma GenerateUpdatesComplete(h: HookConfig, versions: VersionMap, keying: Keying, t: LocatedToken)
    requires GenerateUpdates(h, versions, keying).Ok?
    requires t in HookDeps(h) && Stale(t.value, versions)
    ensures exists e :: e in GenerateUpdates(h, versions, keying).value &&
              e.token.value == t.value && e.replacement == UpdateDependency(t.value, versions).value.value
    ensures keying == ByToken || DistinctPins(HookDeps(h)) ==>
              Edit(t, UpdateDependency(t.value, versions).value.value) in GenerateUpdates(h, versions, keying).value
  {
    var deps := HookDeps(h);
    var n := UpdateDependency(t.value, versions).value.value;
    PinEditsMeaning(deps, versions);
    if keying == ByString {
      if DistinctPins(deps) {
        PinEditsAgreeOnDistinct(deps, versions);
      }
      var d := UpdatedDependencies(deps, versions).value;
      UpdatedDependenciesMeaning(deps, versions);
      var k :| 0 <= k < |deps| && deps[k] == t;
      assert HasKey(d, deps[k].value);
      var i :| 0 <= i < |d| && d[i].token.value == t.value;
      assert d[i] in d;
    } else {
      assert Edit(t, n) in PinEdits(deps, versions).value;
    }
  }

  // ---------------------------------------------------------------------
  // The collection loops of main.

  /** The edits of the selected hooks among `hooks`, in order. */
  function HookEdits(cfg: UpadupConfig, repo: RepoConfig, hooks: seq<HookConfig>, versions: VersionMap,
                     keying: Keying): Result<seq<Edit>>
  {
    if hooks == [] then Ok([])
    else
      var h := hooks[|hooks| - 1];
      match HookEdits(cfg, repo, hooks[..|hooks| - 1], versions, keying)
      case Err(f) => Err(f)
      case Ok(es) =>
        if !Selected(cfg, repo, h) then Ok(es)
        else
          match GenerateUpdates(h, versions, keying)
          case Err(f) => Err(f)
          case Ok(more) => Ok(es + more)
  }

  /** `all_updates` after the loops over `repos`. */
  function PlannedEdits(cfg: UpadupConfig, repos: seq<RepoConfig>, versions: VersionMap, keying: Keying): Result<seq<Edit>>
  {
    if repos == [] then Ok([])
    else
      var repo := repos[|repos| - 1];
      match PlannedEdits(cfg, repos[..|repos| - 1], versions, keying)
      case Err(f) => Err(f)
      case Ok(es) =>
        match HookEdits(cfg, repo, repo.hooks, versions, keying)
        case Err(f) => Err(f)
        case Ok(more) => Ok(es + more)
  }

  /** A dependency of a hook the configuration selects. */
  ghost predicate SelectedDep(cfg: UpadupConfig, repos: seq<RepoConfig>, t: LocatedToken) {
    exists r, h :: r in repos && h in r.hooks && Selected(cfg, r, h) && t in HookDeps(h)
  }

  lemma {:induction false} HookEditsGenuine(cfg: UpadupConfig, repo: RepoConfig, hooks: seq<HookConfig>, versions: VersionMap,
                                            keying: Keying)
    requires HookEdits(cfg, repo, hooks, versions, keying).Ok?
    ensures forall e :: e in HookEdits(cfg, repo, hooks, versions, keying).value ==>
              (exists h :: h in hooks && Selected(cfg, repo, h) && e.token in HookDeps(h)) &&
              UpdateDependency(e.token.value, versions) == Ok(Some(e.replacement))
  {
    if hooks != [] {
      var init := hooks[..|hooks| - 1];
      var h := hooks[|hooks| - 1];
      HookEditsGenuine(cfg, repo, init, versions, keying);
      if Selected(cfg, repo, h) {
        GenerateUpdatesGenuine(h, versions, keying);
      }
      assert forall x :: x in init ==> x in hooks;
    }
  }

  /** Every planned edit rewrites a dependency of a selected hook into the
      pin update_dependency produces for it. */
  lemma {:induction false} PlannedEditsGenuine(cfg: UpadupConfig, repos: seq<RepoConfig>, versions: VersionMap, keying: Keying)
    requires PlannedEdits(cfg, repos, versions, keying).Ok?
    ensures forall e :: e in PlannedEdits(cfg, repos, versions, keying).value ==>
              SelectedDep(cfg, repos, e.token) &&
              UpdateDependency(e.token.value, versions) == Ok(Some(e.replacement))
  {
    if repos != [] {
      var init := repos[..|repos| - 1];
      var r := repos[|repos| - 1];
      PlannedEditsGenuine(cfg, init, versions, keying);
      HookEditsGenuine(cfg, r, r.hooks, versions, keying);
      assert forall x :: x in init ==> x in repos;
    }
  }

  lemma {:induction false} HookEditsComplete(cfg: UpadupConfig, repo: RepoConfig, hooks: seq<HookConfig>, versions: VersionMap,
                                             keying: Keying, h: HookConfig, t: LocatedToken)
    requires HookEdits(cfg, repo, hooks, versions, keying).Ok?
    requires h in hooks && Selected(cfg, repo, h) && t in HookDeps(h) && Stale(t.value, versions)
    ensures exists e :: e in HookEdits(cfg, repo, hooks, versions, keying).value &&
              e.token.value == t.value && e.replacement == UpdateDependency(t.value, versions).value.value
    ensures keying == ByToken || DistinctPins(HookDeps(h)) ==>
              Edit(t, UpdateDependency(t.value, versions).value.value) in HookEdits(cfg, repo, hooks, versions, keying).value
  {
    var init := hooks[..|hooks| - 1];
    var last := hooks[|hooks| - 1];
    if h in init {
      HookEditsComplete(cfg, repo, init, versions, keying, h, t);
    } else {
      assert h == last;
      GenerateUpdatesComplete(h, versions, keying, t);
    }
  }

  /** Every stale dependency string of a selected hook is rewritten by some
      planned edit. Keyed by token, every stale dependency gets its own edit;
      keyed by string, as main collects, it does when its hook lists no pin
      string twice. */
  lemma {:induction false} PlannedEditsComplete(cfg: UpadupConfig, repos: seq<RepoConfig>, versions: VersionMap, keying: Keying,
                                                r: RepoConfig, h: HookConfig, t: LocatedToken)
    requires PlannedEdits(cfg, repos, versions, keying).Ok?
    requires r in repos && h in r.hooks && Selected(cfg, r, h) && t in HookDeps(h) && Stale(t.value, versions)
    ensures exists e :: e in PlannedEdits(cfg, repos, versions, keying).value &&
              e.token.value == t.value && e.replacement == UpdateDependency(t.value, versions).value.value
    ensures keying == ByToken || DistinctPins(HookDeps(h)) ==>
              Edit(t, UpdateDependency(t.value, versions).value.value) in PlannedEdits(cfg, repos, versions, keying).value
  {
    var init := repos[..|repos| - 1];
    var last := repos[|repos| - 1];
    if r in init {
      PlannedEditsComplete(cfg, init, versions, keying, r, h, t);
    } else {
      assert r == last;
      HookEditsComplete(cfg, r, r.hooks, versions, keying, h, t);
    }
  }

  /** When no hook lists the same pin string twice, main's collection and
      the one keyed by token are the same list. */
  lemma {:induction false} PlannedEditsAgreeOnDistinct(cfg: UpadupConfig, repos: seq<RepoConfig>, versions: VersionMap)
    requires forall r, h :: r in repos && h in r.hooks ==> DistinctPins(HookDeps(h))
    ensures PlannedEdits(cfg, repos, versions, ByString) == PlannedEdits(cfg, repos, versions, ByToken)
  {
    if repos != [] {
      var init := repos[..|repos| - 1];
      var r := repos[|repos| - 1];
      assert forall x :: x in init ==> x in repos;
      PlannedEditsAgreeOnDistinct(cfg, init, versions);
      HookEditsAgreeOnDistinct(cfg, r, r.hooks, versions);
    }
  }

  lemma {:induction false} HookEditsAgreeOnDistinct(cfg: UpadupConfig, repo: RepoConfig, hooks: seq<HookConfig>, versions: VersionMap)
    requires forall h :: h in hooks ==> DistinctPins(HookDeps(h))
    ensures HookEdits(cfg, repo, hooks, versions, ByString) == HookEdits(cfg, repo, hooks, versions, ByToken)
  {
    if hooks != [] {
      var init := hooks[..|hooks| - 1];
      var h := hooks[|hooks| - 1];
      assert forall x :: x in init ==> x in hooks;
      HookEditsAgreeOnDistinct(cfg, repo, init, versions);
      assert h in hooks;
      PinEditsAgreeOnDistinct(HookDeps(h), versions);
    }
  }

  /** When every selected pin is already at its recommended version (or is
      no pin at all), nothing is planned. */
  lemma {:induction false} UpToDatePlansNothing(cfg: UpadupConfig, repos: seq<RepoConfig>, versions: VersionMap, keying: Keying)
    requires forall t :: SelectedDep(cfg, repos, t) ==> UpdateDependency(t.value, versions) == Ok(None)
    ensures PlannedEdits(cfg, repos, versions, keying) == Ok([])
  {
    if repos != [] {
      var init := repos[..|repos| - 1];
      var r := repos[|repos| - 1];
      assert forall t :: SelectedDep(cfg, init, t) ==> SelectedDep(cfg, repos, t) by {
        assert forall x :: x in init ==> x in repos;
      }
      UpToDatePlansNothing(cfg, init, versions, keying);
      assert r in repos;
      HookUpToDate(cfg, r, r.hooks, versions, keying, repos);
      var none: seq<Edit> := [];
      assert none + none == none;
    }
  }

  lemma {:induction false} HookUpToDate(cfg: UpadupConfig, repo: RepoConfig, hooks: seq<HookConfig>, versions: VersionMap,
                                        keying: Keying, repos: seq<RepoConfig>)
    requires repo in repos && forall h :: h in hooks ==> h in repo.hooks
    requires forall t :: SelectedDep(cfg, repos, t) ==> UpdateDependency(t.value, versions) == Ok(None)
    ensures HookEdits(cfg, repo, hooks, versions, keying) == Ok([])
  {
    if hooks != [] {
      var init := hooks[..|hooks| - 1];
      var h := hooks[|hooks| - 1];
      assert forall x :: x in init ==> x in hooks;
      HookUpToDate(cfg, repo, init, versions, keying, repos);
      assert h in hooks;
      if Selected(cfg, repo, h) {
        DepsUpToDate(HookDeps(h), versions, cfg, repos, repo, h);
        var none: seq<Edit> := [];
        assert none + none == none;
      }
    }
  }

  lemma {:induction false} DepsUpToDate(deps: seq<LocatedToken>, versions: VersionMap, cfg: UpadupConfig,
                                        repos: seq<RepoConfig>, repo: RepoConfig, h: HookConfig)
    requires repo in repos && h in repo.hooks && Selected(cfg, repo, h)
    requires forall t :: t in deps ==> t in HookDeps(h)
    requires forall t :: SelectedDep(cfg, repos, t) ==> UpdateDependency(t.value, versions) == Ok(None)
    ensures PinEdits(deps, versions) == Ok([]) && UpdatedDependencies(deps, versions) == Ok([])
  {
    if deps != [] {
      var t := deps[|deps| - 1];
      DepsUpToDate(deps[..|deps| - 1], versions, cfg, repos, repo, h);
      assert SelectedDep(cfg, repos, t);
    }
  }

  /** The inner loop of main: the edits of one repository's selected hooks. */
  method CollectRepoEdits(cfg: UpadupConfig, repo: RepoConfig, versions: VersionMap) returns (r: Result<seq<Edit>>)
    ensures r == HookEdits(cfg, repo, repo.hooks, versions, ByString)
  {
    var repoStr := AsciiCasefold(repo.repo);
    if EndsWithGit(repoStr) {
      repoStr := repoStr[..|repoStr| - 4];
    }
    var updates: seq<Edit> := [];
    var j := 0;
    assert repo.hooks[..0] == [];
    while j < |repo.hooks|
      invariant 0 <= j <= |repo.hooks|
      invariant repoStr == RepoKey(repo.repo)
      invariant HookEdits(cfg, repo, repo.hooks[..j], versions, ByString) == Ok(updates)
    {
      var hook := repo.hooks[j];
      assert repo.hooks[..j + 1][..j] == repo.hooks[..j];
      if repoStr in cfg && hook.id in cfg[repoStr] {
        var more := BuildUpdatedDependencyMap(hook, versions);
        if more.Err? {
          HookErrorPersists(cfg, repo, repo.hooks, versions, ByString, j + 1);
          return Err(more.error);
        }
        updates := updates + more.value;
      }
      j := j + 1;
    }
    assert repo.hooks[..j] == repo.hooks;
    return Ok(updates);
  }

  /** The loops of main that collect `all_updates`. */
  method CollectEdits(cfg: UpadupConfig, repos: seq<RepoConfig>, versions: VersionMap) returns (r: Result<seq<Edit>>)
    ensures r == PlannedEdits(cfg, repos, versions, ByString)
  {
    var allUpdates: seq<Edit> := [];
    var i := 0;
    while i < |repos|
      invariant 0 <= i <= |repos|
      invariant PlannedEdits(cfg, repos[..i], versions, ByString) == Ok(allUpdates)
    {
      assert repos[..i + 1][..i] == repos[..i];
      var more := CollectRepoEdits(cfg, repos[i], versions);
      if more.Err? {
        PlannedErrorPersists(cfg, repos, versions, ByString, i + 1);
        return Err(more.error);
      }
      allUpdates := allUpdates + more.value;
      i := i + 1;
    }
    assert repos[..i] == repos;
    return Ok(allUpdates);
  }

  lemma {:induction false} HookErrorPersists(cfg: UpadupConfig, repo: RepoConfig, hooks: seq<HookConfig>, versions: VersionMap,
                                             keying: Keying, k: nat)
    requires k <= |hooks| && HookEdits(cfg, repo, hooks[..k], versions, keying).Err?
    ensures HookEdits(cfg, repo, hooks, versions, keying) == HookEdits(cfg, repo, hooks[..k], versions, keying)
    decreases |hooks| - k
  {
    if k < |hooks| {
      assert hooks[..k + 1][..k] == hooks[..k];
      HookErrorPersists(cfg, repo, hooks, versions, keying, k + 1);
    } else {
      assert hooks[..k] == hooks;
    }
  }

  lemma {:induction false} PlannedErrorPersists(cfg: UpadupConfig, repos: seq<RepoConfig>, versions: VersionMap,
                                                keying: Keying, k: nat)
    requires k <= |repos| && PlannedEdits(cfg, repos[..k], versions, keying).Err?
    ensures PlannedEdits(cfg, repos, versions, keying) == PlannedEdits(cfg, repos[..k], versions, keying)
    decreases |repos| - k
  {
    if k < |repos| {
      assert repos[..k + 1][..k] == repos[..k];
      PlannedErrorPersists(cfg, repos, versions, keying, k + 1);
    } else {
      assert repos[..k] == repos;
    }
  }

  /** A hook listing the same stale pin twice, in a selected repository:
      main plans one edit, at the first occurrence, where one edit per token
      rewrites both. */
  lemma DuplicatePinPlannedOnce(cfg: UpadupConfig, repos: seq<RepoConfig>, versions: VersionMap,
                                first: LocatedToken, second: LocatedToken)
    requires first == LocatedToken("a==1", 3, 6) && second == LocatedToken("a==1", 4, 6)
    requires versions == map["a" := "2"] && cfg == map["r" := {"h"}]
    requires repos == [RepoConfig("r", [HookConfig("h", Some([first, second]))])]
    ensures PlannedEdits(cfg, repos, versions, ByString) == Ok([Edit(first, "a==2")])
    ensures PlannedEdits(cfg, repos, versions, ByToken) == Ok([Edit(first, "a==2"), Edit(second, "a==2")])
  {
    var h := repos[0].hooks[0];
    DuplicateHookSelected(cfg, repos[0]);
    DuplicatePinKeepsOneEdit();
    DuplicatePinTwoEdits(versions, first, second);
    SingleHookPlan(cfg, repos, versions, ByString);
    SingleHookPlan(cfg, repos, versions, ByToken);
  }

  lemma DuplicateHookSelected(cfg: UpadupConfig, r: RepoConfig)
    requires cfg == map["r" := {"h"}] && r.repo == "r" && |r.hooks| == 1 && r.hooks[0].id == "h"
    ensures Selected(cfg, r, r.hooks[0])
  {
    assert AsciiCasefold("r") == "r";
    assert !EndsWithGit("r");
    assert RepoKey(r.repo) == "r";
    assert cfg["r"] == {"h"};
    assert RepoKey(r.repo) in cfg;
    assert r.hooks[0].id in cfg[RepoKey(r.repo)];
  }

  lemma DuplicatePinTwoEdits(versions: VersionMap, first: LocatedToken, second: LocatedToken)
    requires first == LocatedToken("a==1", 3, 6) && second == LocatedToken("a==1", 4, 6)
    requires versions == map["a" := "2"]
    ensures PinEdits([first, second], versions) == Ok([Edit(first, "a==2"), Edit(second, "a==2")])
  {
    UpdateExample();
    var none: seq<Edit> := [];
    assert [first][..0] == [] && [first, second][..1] == [first];
    assert PinEdits([first], versions) == AppendUpdate(Ok(none), first, versions);
    assert none + [Edit(first, "a==2")] == [Edit(first, "a==2")];
    assert PinEdits([first], versions) == Ok([Edit(first, "a==2")]);
    assert UpdateDependency(second.value, versions) == Ok(Some("a==2"));
    assert [Edit(first, "a==2")] + [Edit(second, "a==2")] == [Edit(first, "a==2"), Edit(second, "a==2")];
    assert PinEdits([first, second], versions) ==
           AppendUpdate(Ok([Edit(first, "a==2")]), second, versions);
  }

  /** With one repository holding one selected hook, the plan is that
      hook's yield. */
  lemma SingleHookPlan(cfg: UpadupConfig, repos: seq<RepoConfig>, versions: VersionMap, keying: Keying)
    requires |repos| == 1 && |repos[0].hooks| == 1 && Selected(cfg, repos[0], repos[0].hooks[0])
    ensures PlannedEdits(cfg, repos, versions, keying) == GenerateUpdates(repos[0].hooks[0], versions, keying)
  {
    var r := repos[0];
    var none: seq<Edit> := [];
    assert repos[..0] == [] && r.hooks[..0] == [];
    assert HookEdits(cfg, r, r.hooks[..0], versions, keying) == Ok(none);
    assert PlannedEdits(cfg, repos[..0], versions, keying) == Ok(none);
    match GenerateUpdates(r.hooks[0], versions, keying)
    case Err(f) =>
      assert HookEdits(cfg, r, r.hooks, versions, keying) == Err(f);
    case Ok(es) =>
      assert none + es == es;
      assert HookEdits(cfg, r, r.hooks, versions, keying) == Ok(es);
  }
}
