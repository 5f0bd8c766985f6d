/** The line ending apply_updates writes with, and what text-mode files do
    with line endings on the way in and out. */
module Writer {
  import opened Types

  /** What a text-mode reader reports in `newlines` after reading a file:
      nothing, one kind of line ending, or several. */
  datatype NewlineSeen = NoneSeen | One(style: string) | Several(styles: seq<string>)

  /** The newline policy of apply_updates: no line ending seen gives the
      platform's, one kind is reused, several give the first reported. */
  function ChooseNewline(seen: NewlineSeen, platformDefault: string): (r: Result<string>)
    ensures r.Err? <==> seen == Several([])
    ensures r.Err? ==> r.error == NoNewlineVariant
    ensures r.Ok? ==> r.value == platformDefault || r.value in Reported(seen)
    ensures r.Ok? && r.value != platformDefault ==> !seen.NoneSeen?
    ensures seen.NoneSeen? ==> r == Ok(platformDefault)
    ensures seen.One? ==> r == Ok(seen.style)
    ensures seen.Several? && seen.styles != [] ==> r == Ok(seen.styles[0])
  {
    match seen
    case NoneSeen => Ok(platformDefault)
    case One(s) => Ok(s)
    case Several(ts) => if ts == [] then Err(NoNewlineVariant) else Ok(ts[0])
  }

  /** The line endings a reader reported. */
  function Reported(seen: NewlineSeen): seq<string> {
    match seen
    case NoneSeen => []
    case One(s) => [s]
    case Several(ts) => ts
  }

  // ---------------------------------------------------------------------
  // Writing: open(path, "w", newline=nl).write(text)

  /** Every "\n" written becomes nl; newline="" translates nothing. */
  function Encode(s: string, nl: string): string
  {
    if s == [] then []
    else (if s[0] == '\n' && nl != "" then nl else [s[0]]) + Encode(s[1..], nl)
  }

  lemma {:induction false} EncodeAppend(a: string, b: string, nl: string)
    ensures Encode(a + b, nl) == Encode(a, nl) + Encode(b, nl)
  {
    if a != [] {
      assert (a + b)[1..] == a[1..] + b;
      EncodeAppend(a[1..], b, nl);
    } else {
      assert a + b == b;
    }
  }

  /** Text without line breaks is written as it is. */
  lemma {:induction false} EncodeNoBreak(s: string, nl: string)
    requires forall i :: 0 <= i < |s| ==> s[i] != '\n'
    ensures Encode(s, nl) == s
  {
    if s != [] {
      EncodeNoBreak(s[1..], nl);
    }
  }

  /** With newline "\n" (or "") the text is written unchanged. */
  lemma {:induction false} EncodeLinefeed(s: string)
    ensures Encode(s, "\n") == s && Encode(s, "") == s
  {
    if s != [] {
      EncodeLinefeed(s[1..]);
    }
  }

  // ---------------------------------------------------------------------
  // Reading: open(path, "r") with universal newlines.

  /** "\r\n" and a lone "\r" are read as "\n". */
  function Decode(b: string): string
  {
    if b == [] then []
    else if b[0] == '\r' && |b| > 1 && b[1] == '\n' then "\n" + Decode(b[2..])
    else if b[0] == '\r' then "\n" + Decode(b[1..])
    else [b[0]] + Decode(b[1..])
  }

  datatype Kinds = Kinds(cr: bool, lf: bool, crlf: bool)

  /** Which kinds of line ending occur in b. */
  function KindsIn(b: string): Kinds
  {
    if b == [] then Kinds(false, false, false)
    else if b[0] == '\r' && |b| > 1 && b[1] == '\n' then KindsIn(b[2..]).(crlf := true)
    else if b[0] == '\r' then KindsIn(b[1..]).(cr := true)
    else if b[0] == '\n' then KindsIn(b[1..]).(lf := true)
    else KindsIn(b[1..])
  }

  /** The reader's `newlines`: the kinds seen, reported in the fixed order
      "\r", "\n", "\r\n" when there are several. */
  function Observed(b: string): NewlineSeen
  {
    var k := KindsIn(b);
    var styles := (if k.cr then ["\r"] else []) + (if k.lf then ["\n"] else []) + (if k.crlf then ["\r\n"] else []);
    if |styles| == 0 then NoneSeen
    else if |styles| == 1 then One(styles[0])
    else Several(styles)
  }

  /** The line endings a text-mode file can be written with. */
  predicate LineEnding(nl: string) {
    nl == "\n" || nl == "\r" || nl == "\r\n"
  }

  predicate NoCarriageReturn(s: string) {
    forall i :: 0 <= i < |s| ==> s[i] != '\r'
  }

  predicate HasBreak(s: string) {
    exists i :: 0 <= i < |s| && s[i] == '\n'
  }

  /** With "\r" as line ending, the written text holds no "\n". */
  lemma {:induction false} EncodeCarriageOnly(s: string)
    requires NoCarriageReturn(s)
    ensures forall i :: 0 <= i < |Encode(s, "\r")| ==> Encode(s, "\r")[i] != '\n'
  {
    if s != [] {
      EncodeCarriageOnly(s[1..]);
      var head := if s[0] == '\n' then "\r" else [s[0]];
      assert Encode(s, "\r") == head + Encode(s[1..], "\r");
    }
  }

  /** Reading back what was written gives the text back. */
  lemma {:induction false} DecodeEncode(s: string, nl: string)
    requires LineEnding(nl) && NoCarriageReturn(s)
    ensures Decode(Encode(s, nl)) == s
  {
    if s != [] {
      var rest := Encode(s[1..], nl);
      DecodeEncode(s[1..], nl);
      if s[0] == '\n' {
        assert Encode(s, nl) == nl + rest;
        if nl == "\r" {
          EncodeCarriageOnly(s[1..]);
          assert rest == [] || rest[0] != '\n';
          assert (nl + rest)[1..] == rest;
        } else if nl == "\r\n" {
          assert (nl + rest)[2..] == rest;
        } else {
          assert (nl + rest)[1..] == rest;
        }
      } else {
        assert Encode(s, nl) == [s[0]] + rest;
        assert ([s[0]] + rest)[1..] == rest;
      }
    }
  }

  /** The kinds of line ending in written text: only nl's kind, and that one
      exactly when the text has a line break. */
  lemma {:induction false} KindsOfEncode(s: string, nl: string)
    requires LineEnding(nl) && NoCarriageReturn(s)
    ensures KindsIn(Encode(s, nl)) ==
              if !HasBreak(s) then Kinds(false, false, false)
              else Kinds(nl == "\r", nl == "\n", nl == "\r\n")
  {
    if s != [] {
      var rest := Encode(s[1..], nl);
      KindsOfEncode(s[1..], nl);
      assert HasBreak(s) <==> s[0] == '\n' || HasBreak(s[1..]) by {
        assert forall i :: 1 <= i < |s| ==> s[i] == s[1..][i - 1];
        if HasBreak(s[1..]) {
          var i :| 0 <= i < |s[1..]| && s[1..][i] == '\n';
          assert s[i + 1] == '\n';
        }
      }
      if s[0] == '\n' {
        assert Encode(s, nl) == nl + rest;
        if nl == "\r" {
          EncodeCarriageOnly(s[1..]);
          assert rest == [] || rest[0] != '\n';
          assert (nl + rest)[1..] == rest;
        } else if nl == "\r\n" {
          assert (nl + rest)[2..] == rest;
        } else {
          assert (nl + rest)[1..] == rest;
        }
      } else {
        assert Encode(s, nl) == [s[0]] + rest;
        assert ([s[0]] + rest)[1..] == rest;
      }
    } else {
      assert !HasBreak(s);
    }
  }

  /** A file written with one line ending is read back as that text, and
      the reader reports that one line ending (or none, for a file without
      line breaks). */
  lemma SingleStyleRoundTrip(s: string, nl: string)
    requires LineEnding(nl) && NoCarriageReturn(s)
    ensures Decode(Encode(s, nl)) == s
    ensures Observed(Encode(s, nl)) == if HasBreak(s) then One(nl) else NoneSeen
  {
    DecodeEncode(s, nl);
    KindsOfEncode(s, nl);
  }

  /** Such a file is written back with its own line ending. */
  lemma SingleStyleKept(s: string, nl: string, platformDefault: string)
    requires LineEnding(nl) && NoCarriageReturn(s) && HasBreak(s)
    ensures ChooseNewline(Observed(Encode(s, nl)), platformDefault) == Ok(nl)
  {
    SingleStyleRoundTrip(s, nl);
  }
}
