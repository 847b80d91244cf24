/** The custom voices of the settings dialog: one voice per line, written
    `name | id`, or the id alone for a voice named by its id. Saving the
    settings parses the lines; opening the dialog prints the list back. */
module Voices {
  import opened JsString

  datatype Voice = Voice(name: String, id: String)

  predicate IsBar(c: char) {
    c == '|'
  }

  predicate IsNewline(c: char) {
    c == '\n'
  }

  /** `parts.map(p => p.trim())` */
  function TrimAll(parts: seq<String>): (r: seq<String>)
    ensures |r| == |parts|
    ensures forall k :: 0 <= k < |parts| ==> r[k] == Trim(parts[k])
  {
    seq(|parts|, k requires 0 <= k < |parts| => Trim(parts[k]))
  }

  /** One line: two parts give a name and an id, one non-empty part gives
      both, anything else gives no voice. */
  function ParseVoiceLine(line: String): Option<Voice> {
    var parts := TrimAll(Split(line, IsBar));
    if |parts| == 2 then Some(Voice(parts[0], parts[1]))
    else if |parts| == 1 && parts[0] != [] then Some(Voice(parts[0], parts[0]))
    else None
  }

  /** `lines.filter(line => line.trim())` */
  function NonBlank(lines: seq<String>): (r: seq<String>)
    ensures |r| <= |lines|
    decreases |lines|
  {
    if lines == [] then []
    else (if Trim(lines[0]) != [] then [lines[0]] else []) + NonBlank(lines[1..])
  }

  /** The lines that are parsed: the trimmed text split at each newline,
      blank lines dropped. */
  function VoiceLines(text: String): seq<String> {
    NonBlank(Split(Trim(text), IsNewline))
  }

  /** The voices of the lines, in order. */
  function ParseLines(lines: seq<String>): (vs: seq<Voice>)
    ensures |vs| <= |lines|
    decreases |lines|
  {
    if lines == [] then []
    else
      (match ParseVoiceLine(lines[0])
       case Some(v) => [v]
       case None => []) + ParseLines(lines[1..])
  }

  /** The voices a text of the dialog stands for. */
  function ParsedVoices(text: String): seq<Voice> {
    ParseLines(VoiceLines(text))
  }

  /** The parse loop of `saveSettings`, building `newCustomVoices`. */
  method ParseCustomVoices(text: String) returns (newCustomVoices: seq<Voice>)
    ensures newCustomVoices == ParsedVoices(text)
  {
    var lines := VoiceLines(text);
    newCustomVoices := [];
    for i := 0 to |lines|
      invariant newCustomVoices == ParseLines(lines[..i])
    {
      ParseLinesSnoc(lines, i);
      ParseLinesSingle(lines[i]);
      var parts := TrimAll(Split(lines[i], IsBar));
      if |parts| == 2 {
        newCustomVoices := newCustomVoices + [Voice(parts[0], parts[1])];
      } else if |parts| == 1 && parts[0] != [] {
        newCustomVoices := newCustomVoices + [Voice(parts[0], parts[0])];
      }
    }
    assert lines[..|lines|] == lines;
  }

  /** `${v.name} | ${v.id}` */
  function VoiceLine(v: Voice): String {
    v.name + " | " + v.id
  }

  /** `customVoices.map(v => `${v.name} | ${v.id}`).join('\n')` */
  function PrintVoices(vs: seq<Voice>): String {
    Join(seq(|vs|, k requires 0 <= k < |vs| => VoiceLine(vs[k])), "\n")
  }

  // ---------------------------------------------------------------------

  /** The lines keep their order: the voices of two blocks of lines are
      those of the first block followed by those of the second. */
  lemma {:induction false} ParseLinesConcat(a: seq<String>, b: seq<String>)
    ensures ParseLines(a + b) == ParseLines(a) + ParseLines(b)
    decreases |a|
  {
    if a == [] {
      assert a + b == b;
    } else {
      assert (a + b)[1..] == a[1..] + b;
      ParseLinesConcat(a[1..], b);
    }
  }

  lemma ParseLinesSnoc(lines: seq<String>, i: nat)
    requires i < |lines|
    ensures ParseLines(lines[..i + 1]) == ParseLines(lines[..i]) + ParseLines([lines[i]])
  {
    assert lines[..i + 1] == lines[..i] + [lines[i]];
    ParseLinesConcat(lines[..i], [lines[i]]);
  }

  /** A single line gives its voice, or nothing when it gives none. */
  lemma ParseLinesSingle(line: String)
    ensures ParseLines([line]) == if ParseVoiceLine(line).Some? then [ParseVoiceLine(line).value] else []
  {
    assert [line][1..] == [];
  }

  /** A line without `|` names a voice by its id: the trimmed line is both
      name and id, and a blank line gives no voice. */
  lemma ParseLineNoBar(line: String)
    requires forall i :: 0 <= i < |line| ==> !IsBar(line[i])
    ensures ParseVoiceLine(line) == if Trim(line) != [] then Some(Voice(Trim(line), Trim(line))) else None
  {
    SplitNoSep(line, IsBar);
  }

  /** A line with one `|` gives the trimmed text before it as the name and
      the trimmed text after it as the id. */
  lemma ParseLineOneBar(a: String, b: String)
    requires forall i :: 0 <= i < |a| ==> !IsBar(a[i])
    requires forall i :: 0 <= i < |b| ==> !IsBar(b[i])
    ensures ParseVoiceLine(a + "|" + b) == Some(Voice(Trim(a), Trim(b)))
  {
    assert a + "|" + b == a + ['|'] + b;
    SplitConcat(a, '|', b, IsBar);
    SplitNoSep(a, IsBar);
    SplitNoSep(b, IsBar);
  }

  /** A line with two or more `|` gives no voice. */
  lemma ParseLineManyBars(line: String)
    requires Count(line, IsBar) >= 2
    ensures ParseVoiceLine(line) == None
  {
    SplitCount(line, IsBar);
  }

  // ---------------------------------------------------------------------
  // printing and parsing back
  // ---------------------------------------------------------------------

  /** A part that survives printing and parsing: non-empty, without `|` or
      a newline, and without a space at either edge. */
  predicate GoodPart(s: String) {
    s != [] && !IsSpace(s[0]) && !IsSpace(s[|s| - 1])
    && forall i :: 0 <= i < |s| ==> !IsBar(s[i]) && !IsNewline(s[i])
  }

  predicate GoodVoice(v: Voice) {
    GoodPart(v.name) && GoodPart(v.id)
  }

  lemma TrimGoodEdges(p: String)
    requires GoodPart(p)
    ensures Trim(p + " ") == p && Trim(" " + p) == p
  {
    TrimStartOf([], p + " ");
    assert [] + (p + " ") == p + " ";
    TrimEndOf(p, " ");
    TrimStartOf(" ", p);
    TrimEndOf(p, []);
    assert p + [] == p;
  }

  lemma PaddedNoBar(p: String)
    requires GoodPart(p)
    ensures forall i :: 0 <= i < |p + " "| ==> !IsBar((p + " ")[i]) && !IsNewline((p + " ")[i])
    ensures forall i :: 0 <= i < |" " + p| ==> !IsBar((" " + p)[i]) && !IsNewline((" " + p)[i])
  {
    var a, b := p + " ", " " + p;
    assert forall i :: 0 <= i < |a| ==> a[i] == ' ' || a[i] == p[i];
    assert forall i :: 0 <= i < |b| ==> b[i] == ' ' || b[i] == p[i - 1];
  }

  /** A printed line parses back to its voice. */
  lemma VoiceLineParses(v: Voice)
    requires GoodVoice(v)
    ensures ParseVoiceLine(VoiceLine(v)) == Some(v)
  {
    var a, b := v.name + " ", " " + v.id;
    assert VoiceLine(v) == a + "|" + b;
    PaddedNoBar(v.name);
    PaddedNoBar(v.id);
    ParseLineOneBar(a, b);
    TrimGoodEdges(v.name);
    TrimGoodEdges(v.id);
  }

  /** A printed line is neither blank nor broken by a newline. */
  lemma VoiceLineShape(v: Voice)
    requires GoodVoice(v)
    ensures Trim(VoiceLine(v)) == VoiceLine(v) != []
    ensures forall i :: 0 <= i < |VoiceLine(v)| ==> !IsNewline(VoiceLine(v)[i])
  {
    var a, b := v.name + " ", " " + v.id;
    var l := VoiceLine(v);
    assert l == a + "|" + b;
    PaddedNoBar(v.name);
    PaddedNoBar(v.id);
    assert l[0] == v.name[0] && l[|l| - 1] == v.id[|v.id| - 1];
    TrimTrimmed(l);
  }

  lemma VoiceLineRoundTrip(v: Voice)
    requires GoodVoice(v)
    ensures ParseVoiceLine(VoiceLine(v)) == Some(v)
    ensures Trim(VoiceLine(v)) == VoiceLine(v) != []
    ensures forall i :: 0 <= i < |VoiceLine(v)| ==> !IsNewline(VoiceLine(v)[i])
  {
    VoiceLineParses(v);
    VoiceLineShape(v);
  }

  /** Lines that are each non-blank are all kept. */
  lemma {:induction false} NonBlankKeepsAll(lines: seq<String>)
    requires forall k :: 0 <= k < |lines| ==> Trim(lines[k]) != []
    ensures NonBlank(lines) == lines
    decreases |lines|
  {
    if lines != [] {
      NonBlankKeepsAll(lines[1..]);
      assert lines == [lines[0]] + lines[1..];
    }
  }

  /** A single line is kept exactly when it is not blank. */
  lemma NonBlankOne(line: String)
    ensures NonBlank([line]) == if Trim(line) != [] then [line] else []
  {
    assert [line][1..] == [];
  }

  /** Filtering a joined list filters each part, so the kept lines stay in
      their order. */
  lemma {:induction false} NonBlankConcat(a: seq<String>, b: seq<String>)
    ensures NonBlank(a + b) == NonBlank(a) + NonBlank(b)
    decreases |a|
  {
    if a != [] {
      var head := if Trim(a[0]) != [] then [a[0]] else [];
      assert (a + b)[0] == a[0];
      assert (a + b)[1..] == a[1..] + b;
      assert NonBlank(a + b) == head + NonBlank(a[1..] + b);
      NonBlankConcat(a[1..], b);
      assert NonBlank(a) == head + NonBlank(a[1..]);
    } else {
      assert a + b == b;
    }
  }

  /** Every kept line is one of the lines and is not blank. */
  lemma {:induction false} NonBlankDropsBlank(lines: seq<String>)
    ensures forall k :: 0 <= k < |NonBlank(lines)| ==>
      NonBlank(lines)[k] in lines && Trim(NonBlank(lines)[k]) != []
    decreases |lines|
  {
    if lines != [] {
      var tail := lines[1..];
      NonBlankDropsBlank(tail);
      var t := NonBlank(tail);
      if Trim(lines[0]) != [] {
        assert NonBlank(lines) == [lines[0]] + t;
      } else {
        assert NonBlank(lines) == t;
      }
      forall k | 0 <= k < |t|
        ensures t[k] in lines
      {
        TailMember(lines, t[k]);
      }
    }
  }

  lemma TailMember(lines: seq<String>, x: String)
    requires lines != [] && x in lines[1..]
    ensures x in lines
  {
    var j :| 0 <= j < |lines| - 1 && lines[1..][j] == x;
    assert lines[j + 1] == x;
  }

  /** Lines that each give a voice give those voices, in order. */
  lemma {:induction false} ParseGoodLines(vs: seq<Voice>, lines: seq<String>)
    requires |lines| == |vs|
    requires forall k :: 0 <= k < |vs| ==> ParseVoiceLine(lines[k]) == Some(vs[k])
    ensures ParseLines(lines) == vs
    decreases |vs|
  {
    if vs != [] {
      ParseGoodLines(vs[1..], lines[1..]);
      ParseLineCons(lines[0], vs[0], lines[1..]);
      assert lines == [lines[0]] + lines[1..];
      assert vs == [vs[0]] + vs[1..];
    }
  }

  lemma ParseLineCons(l: String, v: Voice, rest: seq<String>)
    requires ParseVoiceLine(l) == Some(v)
    ensures ParseLines([l] + rest) == [v] + ParseLines(rest)
  {
    assert ([l] + rest)[1..] == rest;
  }

  /** Each printed line is non-blank, its own trim, free of newlines, and
      gives its voice. */
  lemma PrintedLinesGood(vs: seq<Voice>, lines: seq<String>)
    requires forall k :: 0 <= k < |vs| ==> GoodVoice(vs[k])
    requires |lines| == |vs| && forall k :: 0 <= k < |vs| ==> lines[k] == VoiceLine(vs[k])
    ensures forall k :: 0 <= k < |lines| ==> lines[k] != [] && Trim(lines[k]) == lines[k]
    ensures forall k :: 0 <= k < |lines| ==> ParseVoiceLine(lines[k]) == Some(vs[k])
    ensures forall k, i :: 0 <= k < |lines| && 0 <= i < |lines[k]| ==> !IsNewline(lines[k][i])
  {
    forall k | 0 <= k < |vs| ensures lines[k] != [] && Trim(lines[k]) == lines[k]
      && ParseVoiceLine(lines[k]) == Some(vs[k])
      && forall i :: 0 <= i < |lines[k]| ==> !IsNewline(lines[k][i])
    {
      VoiceLineRoundTrip(vs[k]);
    }
  }

  /** Non-blank trimmed lines without newlines, joined by newlines, are the
      lines of the trimmed text. */
  lemma JoinedLinesSplit(lines: seq<String>)
    requires lines != []
    requires forall k :: 0 <= k < |lines| ==> lines[k] != [] && Trim(lines[k]) == lines[k]
    requires forall k, i :: 0 <= k < |lines| && 0 <= i < |lines[k]| ==> !IsNewline(lines[k][i])
    ensures Split(Trim(Join(lines, "\n")), IsNewline) == lines
  {
    var text := Join(lines, "\n");
    JoinEdges(lines, "\n");
    var l0, ln := lines[0], lines[|lines| - 1];
    TrimEdges(l0);
    TrimEdges(ln);
    assert !IsSpace(text[0]) && !IsSpace(text[|text| - 1]);
    TrimTrimmed(text);
    SplitJoin(lines, '\n', IsNewline);
  }

  /** Parsing the printed list gives the list back when every name and id
      is a good part. */
  lemma PrintParseRoundTrip(vs: seq<Voice>)
    requires forall k :: 0 <= k < |vs| ==> GoodVoice(vs[k])
    ensures ParsedVoices(PrintVoices(vs)) == vs
  {
    var lines := seq(|vs|, k requires 0 <= k < |vs| => VoiceLine(vs[k]));
    var text := Join(lines, "\n");
    assert PrintVoices(vs) == text;
    PrintedLinesGood(vs, lines);
    if vs == [] {
      assert text == [];
      assert Split(Trim(text), IsNewline) == [[]];
      assert VoiceLines(text) == [];
    } else {
      JoinedLinesSplit(lines);
      assert VoiceLines(text) == NonBlank(lines);
      NonBlankKeepsAll(lines);
      ParseGoodLines(vs, lines);
    }
  }
}
