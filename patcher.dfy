/** The text patcher (create_new_content): splices sorted edits into the
    original line list, tracking per line how far earlier replacements have
    shifted the text. */
module Patcher {
  import opened Types

  /** A Python slice bound `k` on a sequence of length n, as Python resolves
      it: negative bounds count from the end, and everything is clamped. */
  function PyBound(k: int, n: nat): (r: nat)
    ensures r <= n
  {
    if k < 0 then (if n + k < 0 then 0 else n + k)
    else if k > n then n
    else k
  }

  /** A bound inside the sequence is taken as it is; a negative one that
      does not reach past the start counts back from the end. */
  lemma PyBoundResolves(k: int, n: nat)
    ensures 0 <= k <= n ==> PyBound(k, n) == k
    ensures k < 0 && -k <= n ==> PyBound(k, n) == n + k
  {
  }

  /** `"".join((line[:begin], text, line[end:]))` */
  function Splice(line: string, begin: int, end: int, text: string): string {
    line[..PyBound(begin, |line|)] + text + line[PyBound(end, |line|)..]
  }

  /** The value `line_offsets[lineno]` reads from a defaultdict(int). */
  function OffsetOf(offsets: map<nat, int>, line: nat): int {
    if line in offsets then offsets[line] else 0
  }

  /** A line's text and its cumulative shift after some of its edits. */
  datatype LineState = LineState(text: string, offset: int)

  /** The patch loop seen from one line: its edits applied in the given order
      through the offset-tracked splice. */
  function LineApply(line: string, es: seq<Edit>): LineState
    decreases es, 1
  {
    if es == [] then LineState(line, 0) else ApplyLast(line, es)
  }

  /** One turn of the loop, for the last of the edits: the splice lands at the
      recorded column moved by the line's shift so far. */
  function ApplyLast(line: string, es: seq<Edit>): LineState
    requires es != []
    decreases es, 0
  {
    var prev := LineApply(line, es[..|es| - 1]);
    var e := es[|es| - 1];
    var begin := e.token.col + prev.offset;
    LineState(Splice(prev.text, begin, begin + |e.token.value|, e.replacement),
              prev.offset + |e.replacement| - |e.token.value|)
  }

  /** The edits that land on line l, in their order in `updates`. */
  function OnLine(updates: seq<Edit>, l: nat): (r: seq<Edit>)
  {
    if updates == [] then []
    else
      var last := updates[|updates| - 1];
      OnLine(updates[..|updates| - 1], l) + (if last.token.line == l then [last] else [])
  }

  // ---------------------------------------------------------------------
  // The reference meaning: replace each span of the original line.

  /** One past the last original column an edit covers. */
  function SpanEnd(e: Edit): nat {
    e.token.col + |e.token.value|
  }

  /** Edits that fit a line: every span lies inside it and spans follow one
      another in column order without overlapping. */
  predicate Fits(line: string, es: seq<Edit>) {
    && (forall i :: 0 <= i < |es| ==> SpanEnd(es[i]) <= |line|)
    && (forall i, j :: 0 <= i < j < |es| ==> SpanEnd(es[i]) <= es[j].token.col)
  }

  /** The edit's old value sits at its recorded column of the original line. */
  predicate Occurs(line: string, e: Edit) {
    SpanEnd(e) <= |line| && line[e.token.col..SpanEnd(e)] == e.token.value
  }

  /** Where the original text resumes after the edits. */
  function Covered(es: seq<Edit>): nat {
    if es == [] then 0 else SpanEnd(es[|es| - 1])
  }

  /** The rewritten text up to Covered(es): everything before, between the
      spans kept from the original, each span replaced by its new value. */
  function Rewritten(line: string, es: seq<Edit>): string
    requires Fits(line, es)
  {
    if es == [] then []
    else
      var init := es[..|es| - 1];
      var e := es[|es| - 1];
      assert Fits(line, init);
      Rewritten(line, init) + line[Covered(init)..e.token.col] + e.replacement
  }

  /** The original line with every edit's span [col, col + len(old)) replaced
      by its new value and all other text preserved. */
  function Replaced(line: string, es: seq<Edit>): string
    requires Fits(line, es)
  {
    Rewritten(line, es) + line[Covered(es)..]
  }

  /** The total change of length the edits make. */
  function Delta(es: seq<Edit>): int {
    if es == [] then 0
    else Delta(es[..|es| - 1]) + |es[|es| - 1].replacement| - |es[|es| - 1].token.value|
  }

  lemma FitsPrefix(line: string, es: seq<Edit>, k: nat)
    requires Fits(line, es) && k <= |es|
    ensures Fits(line, es[..k])
  {
  }

  /** Splicing a line whose text is `head` followed by the original from
      column `from` on, at an original column at or after `from`. */
  lemma SpliceAfterHead(cur: string, begin: int, head: string, line: string, from: nat, col: nat, len: nat, text: string)
    requires from <= col && col + len <= |line|
    requires cur == head + line[from..] && begin == |head| + (col - from)
    ensures 0 <= begin && begin + len <= |cur|
    ensures cur[begin..begin + len] == line[col..col + len]
    ensures Splice(cur, begin, begin + len, text) == head + line[from..col] + text + line[col + len..]
  {
    PyBoundResolves(begin, |cur|);
    PyBoundResolves(begin + len, |cur|);
    assert cur[..begin] == head + line[from..col];
    assert cur[begin + len..] == line[col + len..];
  }

  /** How the reference meaning grows by one edit. */
  lemma RewrittenStep(line: string, es: seq<Edit>)
    requires Fits(line, es) && es != []
    ensures Fits(line, es[..|es| - 1])
    ensures Covered(es[..|es| - 1]) <= es[|es| - 1].token.col
    ensures SpanEnd(es[|es| - 1]) <= |line|
    ensures Covered(es) == SpanEnd(es[|es| - 1])
    ensures Rewritten(line, es) ==
            Rewritten(line, es[..|es| - 1]) + line[Covered(es[..|es| - 1])..es[|es| - 1].token.col] + es[|es| - 1].replacement
  {
    FitsPrefix(line, es, |es| - 1);
    assert |es| > 1 ==> Covered(es[..|es| - 1]) == SpanEnd(es[|es| - 2]);
  }

  /** How the patch loop on one line grows by one edit. */
  lemma LineApplyUnfold(line: string, es: seq<Edit>, prev: LineState)
    requires es != [] && prev == LineApply(line, es[..|es| - 1])
    ensures var e := es[|es| - 1];
            var begin := e.token.col + prev.offset;
            LineApply(line, es) ==
              LineState(Splice(prev.text, begin, begin + |e.token.value|, e.replacement),
                        prev.offset + |e.replacement| - |e.token.value|)
  {
  }

  /** The shift the loop has recorded for a line is exactly how much longer
      the rewritten head is than the original text it stands for. */
  lemma {:induction false} OffsetIsHeadGrowth(line: string, es: seq<Edit>)
    requires Fits(line, es)
    ensures Covered(es) <= |line|
    ensures |Rewritten(line, es)| == Covered(es) + LineApply(line, es).offset
  {
    if es != [] {
      RewrittenStep(line, es);
      OffsetIsHeadGrowth(line, es[..|es| - 1]);
      LineApplyUnfold(line, es, LineApply(line, es[..|es| - 1]));
    }
  }

  /** One splice at the shifted column turns the reference text of the
      first edits into that of one edit more. */
  lemma ReplacedStep(line: string, es: seq<Edit>, prev: LineState)
    requires Fits(line, es) && es != []
    requires Fits(line, es[..|es| - 1])
    requires prev.text == Replaced(line, es[..|es| - 1])
    requires |Rewritten(line, es[..|es| - 1])| == Covered(es[..|es| - 1]) + prev.offset
    ensures var e := es[|es| - 1];
            var begin := e.token.col + prev.offset;
            Splice(prev.text, begin, begin + |e.token.value|, e.replacement) == Replaced(line, es)
  {
    var init := es[..|es| - 1];
    var e := es[|es| - 1];
    RewrittenStep(line, es);
    SpliceAfterHead(prev.text, e.token.col + prev.offset, Rewritten(line, init), line, Covered(init),
                    e.token.col, |e.token.value|, e.replacement);
  }

  /** The offset-tracked loop computes the original-coordinates replacement. */
  lemma {:induction false} LineApplyIsReplaced(line: string, es: seq<Edit>)
    requires Fits(line, es)
    ensures LineApply(line, es).text == Replaced(line, es)
  {
    if es != [] {
      var init := es[..|es| - 1];
      FitsPrefix(line, es, |es| - 1);
      LineApplyIsReplaced(line, init);
      OffsetIsHeadGrowth(line, init);
      var prev := LineApply(line, init);
      LineApplyUnfold(line, es, prev);
      ReplacedStep(line, es, prev);
    } else {
      assert Replaced(line, es) == line;
    }
  }

  /** Each splice removes exactly the original span of its edit: when the old
      value occurs at its column, the text cut out is that old value. */
  lemma {:induction false} SpliceHitsOriginalSpan(line: string, es: seq<Edit>, k: nat)
    requires Fits(line, es) && k < |es|
    requires Occurs(line, es[k])
    ensures var prev := LineApply(line, es[..k]);
            var begin := es[k].token.col + prev.offset;
            && 0 <= begin
            && begin + |es[k].token.value| <= |prev.text|
            && prev.text[begin..begin + |es[k].token.value|] == es[k].token.value
  {
    var init := es[..k];
    var e := es[k];
    FitsPrefix(line, es, k);
    LineApplyIsReplaced(line, init);
    OffsetIsHeadGrowth(line, init);
    assert init != [] ==> Covered(init) == SpanEnd(es[k - 1]);
    var prev := LineApply(line, init);
    SpliceAfterHead(prev.text, e.token.col + prev.offset, Rewritten(line, init), line, Covered(init), e.token.col, |e.token.value|, e.replacement);
  }

  /** Each edited line's length changes by the sum of len(new) - len(old). */
  lemma {:induction false} ReplacedLength(line: string, es: seq<Edit>)
    requires Fits(line, es)
    ensures |Replaced(line, es)| == |line| + Delta(es)
  {
    if es != [] {
      var init := es[..|es| - 1];
      FitsPrefix(line, es, |es| - 1);
      ReplacedLength(line, init);
      OffsetIsHeadGrowth(line, init);
      OffsetIsHeadGrowth(line, es);
      assert init != [] ==> Covered(init) == SpanEnd(es[|es| - 2]);
    }
  }

  // ---------------------------------------------------------------------
  // Whole-file conditions, as the sorted edit list from the planner meets them.

  /** Every edit names an existing line and its old value sits at its column. */
  predicate EditsOccur(lines: seq<string>, updates: seq<Edit>) {
    forall i :: 0 <= i < |updates| ==>
      updates[i].token.line < |lines| && Occurs(lines[updates[i].token.line], updates[i])
  }

  /** On every line, later edits start at or after the end of earlier ones. */
  predicate InPatchOrder(updates: seq<Edit>) {
    forall i, j :: 0 <= i < j < |updates| && updates[i].token.line == updates[j].token.line ==>
      SpanEnd(updates[i]) <= updates[j].token.col
  }

  /** The edits on line l are exactly the edits of `updates` that name l. */
  lemma {:induction false} OnLineMembers(updates: seq<Edit>, l: nat)
    ensures forall e :: e in OnLine(updates, l) <==> e in updates && e.token.line == l
  {
    if updates != [] {
      var init := updates[..|updates| - 1];
      OnLineMembers(init, l);
      assert updates == init + [updates[|updates| - 1]];
    }
  }

  /** Whole-file conditions give the per-line ones of every line. */
  lemma {:induction false} OnLineFits(lines: seq<string>, updates: seq<Edit>, l: nat)
    requires EditsOccur(lines, updates) && InPatchOrder(updates) && l < |lines|
    ensures Fits(lines[l], OnLine(updates, l))
    ensures forall e :: e in OnLine(updates, l) ==> Occurs(lines[l], e)
  {
    if updates != [] {
      var init := updates[..|updates| - 1];
      var last := updates[|updates| - 1];
      assert EditsOccur(lines, init) && InPatchOrder(init);
      OnLineFits(lines, init, l);
      OnLineMembers(init, l);
      var es := OnLine(init, l);
      if last.token.line == l {
        assert OnLine(updates, l) == es + [last];
        forall x | x in es ensures SpanEnd(x) <= last.token.col {
          var i :| 0 <= i < |init| && init[i] == x;
          assert updates[i] == x;
        }
      }
    }
  }

  // ---------------------------------------------------------------------

  lemma OnLineStep(updates: seq<Edit>, k: nat, l: nat)
    requires k < |updates|
    ensures OnLine(updates[..k + 1], l) ==
            OnLine(updates[..k], l) + (if updates[k].token.line == l then [updates[k]] else [])
  {
    assert updates[..k + 1][..k] == updates[..k];
  }

  /** The line an edit names: its state advances by that edit. */
  lemma EditedLineStep(line: string, done: seq<Edit>, text: string, offset: int, e: Edit)
    requires LineApply(line, OnLine(done, e.token.line)) == LineState(text, offset)
    ensures var begin := e.token.col + offset;
            LineApply(line, OnLine(done + [e], e.token.line)) ==
              LineState(Splice(text, begin, begin + |e.token.value|, e.replacement),
                        offset + |e.replacement| - |e.token.value|)
  {
    var es := OnLine(done, e.token.line);
    assert (done + [e])[..|done|] == done;
    assert OnLine(done + [e], e.token.line) == es + [e];
    assert (es + [e])[..|es|] == es;
    LineApplyUnfold(line, es + [e], LineState(text, offset));
  }

  /** Any other line: its edits do not change. */
  lemma OtherLineStep(done: seq<Edit>, e: Edit, l: nat)
    requires l != e.token.line
    ensures OnLine(done + [e], l) == OnLine(done, l)
  {
    assert (done + [e])[..|done|] == done;
  }

  // ---------------------------------------------------------------------
  // The loop of create_new_content over the whole file.

  /** The loop's variables: `file_content` and `line_offsets`. */
  datatype PatchState = PatchState(content: seq<string>, offsets: map<nat, int>)

  /** One turn of the loop (lines 82-89) for an edit on an existing line. */
  function Turn(st: PatchState, e: Edit): PatchState
    requires e.token.line < |st.content|
  {
    var lineno := e.token.line;
    var begin := e.token.col + OffsetOf(st.offsets, lineno);
    var end := begin + |e.token.value|;
    PatchState(st.content[lineno := Splice(st.content[lineno], begin, end, e.replacement)],
               st.offsets[lineno := OffsetOf(st.offsets, lineno) + |e.replacement| - |e.token.value|])
  }

  /** The loop run over `updates` from the lines `readlines()` returned; an
      edit naming a line past the file stops it with IndexError. */
  function Patch(lines: seq<string>, updates: seq<Edit>): Result<PatchState>
  {
    if updates == [] then Ok(PatchState(lines, map[]))
    else
      var e := updates[|updates| - 1];
      match Patch(lines, updates[..|updates| - 1])
      case Err(f) => Err(f)
      case Ok(st) =>
        if e.token.line < |st.content| then Ok(Turn(st, e)) else Err(LineOutOfRange(e.token.line))
  }

  /** What create_new_content returns. */
  function NewContent(lines: seq<string>, updates: seq<Edit>): Result<seq<string>>
  {
    match Patch(lines, updates)
    case Ok(st) => Ok(st.content)
    case Err(f) => Err(f)
  }

  /** The loop fails exactly when some edit names a line past the file, and
      then with the first such line; otherwise every line is kept. */
  lemma {:induction false} PatchOutcome(lines: seq<string>, updates: seq<Edit>)
    ensures Patch(lines, updates).Ok? <==> forall i :: 0 <= i < |updates| ==> updates[i].token.line < |lines|
    ensures Patch(lines, updates).Ok? ==> |Patch(lines, updates).value.content| == |lines|
    ensures Patch(lines, updates).Err? ==>
              exists i :: 0 <= i < |updates| && updates[i].token.line >= |lines| &&
                          (forall j :: 0 <= j < i ==> updates[j].token.line < |lines|) &&
                          Patch(lines, updates).error == LineOutOfRange(updates[i].token.line)
  {
    if updates != [] {
      var init := updates[..|updates| - 1];
      PatchOutcome(lines, init);
      assert forall i :: 0 <= i < |init| ==> init[i] == updates[i];
      if Patch(lines, init).Err? {
        var i :| 0 <= i < |init| && init[i].token.line >= |lines| &&
                 (forall j :: 0 <= j < i ==> init[j].token.line < |lines|) &&
                 Patch(lines, init).error == LineOutOfRange(init[i].token.line);
        assert updates[i] == init[i];
      }
    }
  }

  /** Seen from one line, the loop is that line's own edits applied in order:
      its text and recorded shift are LineApply's. */
  lemma {:induction false} PatchPerLine(lines: seq<string>, updates: seq<Edit>, l: nat)
    requires Patch(lines, updates).Ok? && l < |lines|
    ensures l < |Patch(lines, updates).value.content|
    ensures var st := Patch(lines, updates).value;
            LineApply(lines[l], OnLine(updates, l)) == LineState(st.content[l], OffsetOf(st.offsets, l))
  {
    PatchOutcome(lines, updates);
    if updates != [] {
      var init := updates[..|updates| - 1];
      var e := updates[|updates| - 1];
      assert updates == init + [e];
      PatchPerLine(lines, init, l);
      var st := Patch(lines, init).value;
      if e.token.line == l {
        EditedLineStep(lines[l], init, st.content[l], OffsetOf(st.offsets, l), e);
      } else {
        OtherLineStep(init, e, l);
      }
    }
  }

  /** The text create_new_content leaves on line l: the line's own edits
      applied in order by the offset-tracked splice. */
  function Patched(lines: seq<string>, updates: seq<Edit>, l: nat): string
    requires l < |lines|
  {
    LineApply(lines[l], OnLine(updates, l)).text
  }

  /** A line no edit names keeps its text. */
  lemma PatchedUntouched(lines: seq<string>, updates: seq<Edit>, l: nat)
    requires l < |lines| && forall e :: e in updates ==> e.token.line != l
    ensures Patched(lines, updates, l) == lines[l]
  {
    OnLineMembers(updates, l);
    assert OnLine(updates, l) == [] by {
      if OnLine(updates, l) != [] {
        assert OnLine(updates, l)[0] in OnLine(updates, l);
      }
    }
  }

  /** On well-formed input every line is the original with exactly the spans
      of its edits replaced, and its length moves by the edits' deltas. */
  lemma PatchedIsReplaced(lines: seq<string>, updates: seq<Edit>, l: nat)
    requires EditsOccur(lines, updates) && InPatchOrder(updates) && l < |lines|
    ensures Fits(lines[l], OnLine(updates, l))
    ensures Patched(lines, updates, l) == Replaced(lines[l], OnLine(updates, l))
    ensures |Patched(lines, updates, l)| == |lines[l]| + Delta(OnLine(updates, l))
  {
    OnLineFits(lines, updates, l);
    LineApplyIsReplaced(lines[l], OnLine(updates, l));
    ReplacedLength(lines[l], OnLine(updates, l));
  }

  /** create_new_content over the lines `readlines()` returned: applies the
      edits in the given order; a line index past the file raises IndexError. */
  method CreateNewContent(lines: seq<string>, updates: seq<Edit>) returns (r: Result<seq<string>>)
    ensures r == NewContent(lines, updates)
    ensures r.Ok? <==> forall i :: 0 <= i < |updates| ==> updates[i].token.line < |lines|
    ensures r.Ok? ==> |r.value| == |lines| &&
                      forall l :: 0 <= l < |lines| ==> r.value[l] == Patched(lines, updates, l)
  {
    var content := lines;
    var lineOffsets: map<nat, int> := map[];
    var k := 0;
    while k < |updates|
      invariant 0 <= k <= |updates|
      invariant Patch(lines, updates[..k]) == Ok(PatchState(content, lineOffsets))
    {
      var e := updates[k];
      var lineno, column := e.token.line, e.token.col;
      var begin := column + OffsetOf(lineOffsets, lineno);
      var end := begin + |e.token.value|;
      assert updates[..k + 1][..k] == updates[..k];
      if lineno >= |content| {
        ErrorPersists(lines, updates, k + 1);
        PatchOutcome(lines, updates);
        return Err(LineOutOfRange(lineno));
      }
      lineOffsets := lineOffsets[lineno := OffsetOf(lineOffsets, lineno) + |e.replacement| - |e.token.value|];
      var oldLine := content[lineno];
      content := content[lineno := Splice(oldLine, begin, end, e.replacement)];
      k := k + 1;
    }
    assert updates[..k] == updates;
    PatchOutcome(lines, updates);
    forall l | 0 <= l < |lines| ensures content[l] == Patched(lines, updates, l) {
      PatchPerLine(lines, updates, l);
    }
    return Ok(content);
  }

  /** Once the loop has failed, the edits after it do not matter. */
  lemma {:induction false} ErrorPersists(lines: seq<string>, updates: seq<Edit>, k: nat)
    requires k <= |updates| && Patch(lines, updates[..k]).Err?
    ensures Patch(lines, updates) == Patch(lines, updates[..k])
    decreases |updates| - k
  {
    if k < |updates| {
      assert updates[..k + 1][..k] == updates[..k];
      ErrorPersists(lines, updates, k + 1);
    } else {
      assert updates[..k] == updates;
    }
  }
}
