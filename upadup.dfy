/** The decision flow of main: collect the edits of the selected hooks, sort
    them, and either show them (--check) or write the patched file. */
module Upadup {
  import opened Types
  import opened Pins
  import opened Planner
  import opened Ordering
  import opened Patcher
  import opened Writer

  /** "".join(file_content) */
  function Join(lines: seq<string>): string {
    if lines == [] then [] else Join(lines[..|lines| - 1]) + lines[|lines| - 1]
  }

  /** What a run leaves behind: the exit status, the text written to the
      config file (if any), and the old and new lines a diff was shown for
      (if any). */
  datatype Outcome = Outcome(exitCode: int, written: Option<string>, diffed: Option<(seq<string>, seq<string>)>)

  /** A run of main over the parsed pre-commit config `repos` whose file
      holds `lines`; `seen` is what the reader reported about line endings.
      main itself collects with `keying == ByString`. */
  function Run(check: bool, keying: Keying, cfg: UpadupConfig, repos: seq<RepoConfig>, versions: VersionMap,
               lines: seq<string>, seen: NewlineSeen, platformDefault: string): Result<Outcome>
  {
    match PlannedEdits(cfg, repos, versions, keying)
    case Err(f) => Err(f)
    case Ok(all) => Decide(check, SortUpdates(all), lines, seen, platformDefault)
  }

  /** main from `if all_updates:` on, for the sorted edits. */
  function Decide(check: bool, updates: seq<Edit>, lines: seq<string>, seen: NewlineSeen,
                  platformDefault: string): Result<Outcome>
  {
    if updates == [] then Ok(Outcome(0, None, None))
    else
      match NewContent(lines, updates)
      case Err(f) => Err(f)
      case Ok(content) =>
        if check then Ok(Outcome(1, None, Some((lines, content))))
        else
          match ChooseNewline(seen, platformDefault)
          case Err(f) => Err(f)
          case Ok(nl) => Ok(Outcome(0, Some(Encode(Join(content), nl)), None))
  }

  /** main, with the configuration, the version lookup and the file's lines
      as inputs. */
  method RunUpadup(check: bool, cfg: UpadupConfig, repos: seq<RepoConfig>, versions: VersionMap,
                   lines: seq<string>, seen: NewlineSeen, platformDefault: string) returns (r: Result<Outcome>)
    ensures r == Run(check, ByString, cfg, repos, versions, lines, seen, platformDefault)
    ensures r.Ok? && check ==> r.value.written.None?
    ensures r.Ok? ==> (r.value.exitCode != 0 <==> check && PlannedEdits(cfg, repos, versions, ByString).value != [])
  {
    var all := CollectEdits(cfg, repos, versions);
    if all.Err? {
      return Err(all.error);
    }
    var updates := SortUpdates(all.value);
    if updates == [] {
      return Ok(Outcome(0, None, None));
    }
    var content := CreateNewContent(lines, updates);
    if content.Err? {
      return Err(content.error);
    }
    if check {
      return Ok(Outcome(1, None, Some((lines, content.value))));
    }
    var nl := ChooseNewline(seen, platformDefault);
    if nl.Err? {
      return Err(nl.error);
    }
    return Ok(Outcome(0, Some(Encode(Join(content.value), nl.value)), None));
  }

  /** When every selected pin is current, both modes do nothing and succeed. */
  lemma UpToDateRunDoesNothing(check: bool, keying: Keying, cfg: UpadupConfig, repos: seq<RepoConfig>, versions: VersionMap,
                               lines: seq<string>, seen: NewlineSeen, platformDefault: string)
    requires forall t :: SelectedDep(cfg, repos, t) ==> UpdateDependency(t.value, versions) == Ok(None)
    ensures Run(check, keying, cfg, repos, versions, lines, seen, platformDefault) == Ok(Outcome(0, None, None))
  {
    UpToDatePlansNothing(cfg, repos, versions, keying);
  }

  /** The order in which repositories and hooks are visited does not matter:
      two configurations planning the same edits, at distinct positions, run
      alike. */
  lemma RunIgnoresCollectionOrder(check: bool, keying: Keying, cfg1: UpadupConfig, repos1: seq<RepoConfig>,
                                  cfg2: UpadupConfig, repos2: seq<RepoConfig>, versions: VersionMap,
                                  lines: seq<string>, seen: NewlineSeen, platformDefault: string)
    requires PlannedEdits(cfg1, repos1, versions, keying).Ok? && PlannedEdits(cfg2, repos2, versions, keying).Ok?
    requires multiset(PlannedEdits(cfg1, repos1, versions, keying).value) == multiset(PlannedEdits(cfg2, repos2, versions, keying).value)
    requires DistinctPositions(PlannedEdits(cfg1, repos1, versions, keying).value)
    requires DistinctPositions(PlannedEdits(cfg2, repos2, versions, keying).value)
    ensures Run(check, keying, cfg1, repos1, versions, lines, seen, platformDefault) ==
            Run(check, keying, cfg2, repos2, versions, lines, seen, platformDefault)
  {
    SortForgetsCollectionOrder(PlannedEdits(cfg1, repos1, versions, keying).value, PlannedEdits(cfg2, repos2, versions, keying).value);
  }

  /** When no hook lists the same pin string twice, main behaves exactly as
      a run that gives every stale pin its own edit. */
  lemma RunAgreesOnDistinctPins(check: bool, cfg: UpadupConfig, repos: seq<RepoConfig>, versions: VersionMap,
                                lines: seq<string>, seen: NewlineSeen, platformDefault: string)
    requires forall r, h :: r in repos && h in r.hooks ==> DistinctPins(HookDeps(h))
    ensures Run(check, ByString, cfg, repos, versions, lines, seen, platformDefault) ==
            Run(check, ByToken, cfg, repos, versions, lines, seen, platformDefault)
  {
    PlannedEditsAgreeOnDistinct(cfg, repos, versions);
  }

  lemma EditsOccurPermuted(lines: seq<string>, a: seq<Edit>, b: seq<Edit>)
    requires EditsOccur(lines, a) && multiset(a) == multiset(b)
    ensures EditsOccur(lines, b)
  {
    forall i | 0 <= i < |b| ensures b[i].token.line < |lines| && Occurs(lines[b[i].token.line], b[i]) {
      assert b[i] in multiset(a);
      var j :| 0 <= j < |a| && a[j] == b[i];
    }
  }

  /** Every planned edit's old value is a pin, so it is never empty. */
  lemma PlannedOldValuesNonEmpty(cfg: UpadupConfig, repos: seq<RepoConfig>, versions: VersionMap, keying: Keying)
    requires PlannedEdits(cfg, repos, versions, keying).Ok?
    ensures forall e :: e in PlannedEdits(cfg, repos, versions, keying).value ==> e.token.value != []
  {
    PlannedEditsGenuine(cfg, repos, versions, keying);
  }

  /** Apply mode on a file where every planned pin sits at its recorded place
      and no two overlap: each line is the original with exactly its edits'
      spans replaced, and the result is written with the chosen line ending. */
  lemma ApplyRewritesExactlyTheSpans(keying: Keying, cfg: UpadupConfig, repos: seq<RepoConfig>, versions: VersionMap,
                                     lines: seq<string>, seen: NewlineSeen, platformDefault: string)
    requires PlannedEdits(cfg, repos, versions, keying).Ok?
    requires EditsOccur(lines, PlannedEdits(cfg, repos, versions, keying).value)
    requires PairwiseApart(PlannedEdits(cfg, repos, versions, keying).value)
    requires PlannedEdits(cfg, repos, versions, keying).value != []
    requires ChooseNewline(seen, platformDefault).Ok?
    ensures var updates := SortUpdates(PlannedEdits(cfg, repos, versions, keying).value);
            var content := NewContent(lines, updates);
            && content.Ok? && |content.value| == |lines|
            && (forall l :: 0 <= l < |lines| ==>
                  Fits(lines[l], OnLine(updates, l)) && content.value[l] == Replaced(lines[l], OnLine(updates, l)))
            && Run(false, keying, cfg, repos, versions, lines, seen, platformDefault) ==
                 Ok(Outcome(0, Some(Encode(Join(content.value), ChooseNewline(seen, platformDefault).value)), None))
  {
    var all := PlannedEdits(cfg, repos, versions, keying).value;
    var updates := SortUpdates(all);
    PlannedOldValuesNonEmpty(cfg, repos, versions, keying);
    SortUpdatesInPatchOrder(all);
    EditsOccurPermuted(lines, all, updates);
    PatchOutcome(lines, updates);
    forall l | 0 <= l < |lines|
      ensures Fits(lines[l], OnLine(updates, l)) && NewContent(lines, updates).value[l] == Replaced(lines[l], OnLine(updates, l))
    {
      PatchPerLine(lines, updates, l);
      PatchedIsReplaced(lines, updates, l);
    }
  }

  /** Two pins in one flow list, both rewritten: the text between and around
      them is kept. */
  lemma TwoPinsOnOneLine(line: string, a: Edit, b: Edit)
    requires line == "[a==1.0.0, b==2.0]"
    requires a == Edit(LocatedToken("a==1.0.0", 0, 1), "a==1.2.0")
    requires b == Edit(LocatedToken("b==2.0", 0, 11), "b==2.0.1")
    ensures Patched([line], [a, b], 0) == "[a==1.2.0, b==2.0.1]"
  {
    TwoPinsOccur(line, a, b);
    PatchedIsReplaced([line], [a, b], 0);
    TwoPinsOnLine(a, b);
    TwoPinsReplaced(line, a, b);
  }

  lemma TwoPinsOccur(line: string, a: Edit, b: Edit)
    requires line == "[a==1.0.0, b==2.0]"
    requires a == Edit(LocatedToken("a==1.0.0", 0, 1), "a==1.2.0")
    requires b == Edit(LocatedToken("b==2.0", 0, 11), "b==2.0.1")
    ensures EditsOccur([line], [a, b]) && InPatchOrder([a, b])
  {
    assert line[1..9] == a.token.value && line[11..17] == b.token.value;
  }

  lemma TwoPinsOnLine(a: Edit, b: Edit)
    requires a.token.line == 0 && b.token.line == 0
    ensures OnLine([a, b], 0) == [a, b]
  {
    assert [a, b][..1] == [a] && [a][..0] == [];
    assert OnLine([a], 0) == [a];
  }

  lemma TwoPinsFirst(line: string, a: Edit)
    requires line == "[a==1.0.0, b==2.0]"
    requires a == Edit(LocatedToken("a==1.0.0", 0, 1), "a==1.2.0")
    ensures Fits(line, [a]) && Rewritten(line, [a]) == "[a==1.2.0" && Covered([a]) == 9
  {
    assert [a][..0] == [];
    assert line[0..1] == "[";
  }

  lemma TwoPinsReplaced(line: string, a: Edit, b: Edit)
    requires line == "[a==1.0.0, b==2.0]"
    requires a == Edit(LocatedToken("a==1.0.0", 0, 1), "a==1.2.0")
    requires b == Edit(LocatedToken("b==2.0", 0, 11), "b==2.0.1")
    ensures Fits(line, [a, b]) && Replaced(line, [a, b]) == "[a==1.2.0, b==2.0.1]"
  {
    TwoPinsFirst(line, a);
    assert [a, b][..1] == [a];
    assert line[9..11] == ", " && line[17..] == "]";
    assert Rewritten(line, [a, b]) == "[a==1.2.0" + ", " + "b==2.0.1";
  }
}
