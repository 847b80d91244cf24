/** Tags in a markup text: the pattern `\[[^\]]+\]` read left to right,
    as `replace` with the global flag reads it. A tag is a `[`, at least one
    character other than `]`, and the first `]` after them. */
module TagMarkup {
  import opened JsString

  /** A markup text read as plain characters and tags. */
  datatype Piece = Char(c: char) | Tag(body: String)

  /** The index of the first `]` of `s`, or `|s|` when there is none. */
  function CloseIndex(s: String): (j: nat)
    ensures j <= |s|
    ensures j < |s| ==> s[j] == ']'
    decreases |s|
  {
    if s == [] || s[0] == ']' then 0 else 1 + CloseIndex(s[1..])
  }

  /** No `]` comes before the first one. */
  lemma {:induction false} CloseIndexFirst(s: String)
    ensures forall i :: 0 <= i < CloseIndex(s) ==> s[i] != ']'
    decreases |s|
  {
    if s != [] && s[0] != ']' {
      CloseIndexFirst(s[1..]);
      assert forall i :: 1 <= i < CloseIndex(s) ==> s[i] == s[1..][i - 1];
    }
  }

  /** A tag starts `s`: `s` opens with `[`, and the first `]` after it
      closes a non-empty body. */
  predicate TagFirst(s: String) {
    s != [] && s[0] == '[' && 1 <= CloseIndex(s[1..]) < |s| - 1
  }

  /** The length of the body of the tag `s` starts with. */
  function BodyLength(s: String): nat
    requires TagFirst(s)
  {
    CloseIndex(s[1..])
  }

  /** The piece `s` starts with: its tag when the pattern matches at the
      start, otherwise its first character. */
  function Next(s: String): Piece
    requires s != []
  {
    if TagFirst(s) then Tag(s[1..BodyLength(s) + 1]) else Char(s[0])
  }

  /** What follows the first piece of `s`. */
  function Rest(s: String): (r: String)
    requires s != []
    ensures |r| < |s|
  {
    if TagFirst(s) then s[BodyLength(s) + 2..] else s[1..]
  }

  /** The pieces of `s`, left to right: a tag wherever the pattern matches,
      otherwise one character. */
  function Scan(s: String): seq<Piece>
    decreases |s|
  {
    if s == [] then [] else [Next(s)] + Scan(Rest(s))
  }

  /** How a tag is written back: as it was, removed, or wrapped in the
      highlighting span. */
  datatype TagStyle = Bracketed | Removed | Highlighted

  /** The text a tag with body `b` is written as. */
  function TagText(style: TagStyle, b: String): String {
    match style
    case Bracketed => "[" + b + "]"
    case Removed => ""
    case Highlighted => "<span class=\"tag\">[" + b + "]</span>"
  }

  /** The text of one piece. */
  function PieceText(p: Piece, style: TagStyle): String {
    match p
    case Char(c) => [c]
    case Tag(b) => TagText(style, b)
  }

  /** The text of the pieces, each tag written in the given style. */
  function Render(ps: seq<Piece>, style: TagStyle): String
    decreases |ps|
  {
    if ps == [] then [] else PieceText(ps[0], style) + Render(ps[1..], style)
  }

  /** `s.replace(/\[[^\]]+\]/g, '')` */
  function StripTags(s: String): String {
    Render(Scan(s), Removed)
  }

  /** `s.replace(/\[([^\]]+)\]/g, '<span class="tag">[$1]</span>')` */
  function Highlight(s: String): String {
    Render(Scan(s), Highlighted)
  }

  predicate NoTagPiece(ps: seq<Piece>) {
    forall k :: 0 <= k < |ps| ==> ps[k].Char?
  }

  /** The pattern matches nowhere in `s`. */
  predicate TagFree(s: String) {
    NoTagPiece(Scan(s))
  }

  /** The number of tag pieces. */
  function TagPieces(ps: seq<Piece>): nat
    decreases |ps|
  {
    if ps == [] then 0 else (if ps[0].Tag? then 1 else 0) + TagPieces(ps[1..])
  }

  /** The number of tags in `s`. */
  function TagCount(s: String): nat {
    TagPieces(Scan(s))
  }

  /** A tag body the pattern can match: non-empty, without `]`. */
  predicate GoodBody(b: String) {
    b != [] && forall i :: 0 <= i < |b| ==> b[i] != ']'
  }

  predicate GoodPieces(ps: seq<Piece>) {
    forall k :: 0 <= k < |ps| ==> ps[k].Tag? ==> GoodBody(ps[k].body)
  }

  // ---------------------------------------------------------------------
  // pieces
  // ---------------------------------------------------------------------

  lemma RenderCons(p: Piece, ps: seq<Piece>, style: TagStyle)
    ensures Render([p] + ps, style) == PieceText(p, style) + Render(ps, style)
  {
    assert ([p] + ps)[1..] == ps;
    assert ([p] + ps)[0] == p;
  }

  lemma ConsGoodPieces(p: Piece, ps: seq<Piece>)
    requires (p.Tag? ==> GoodBody(p.body)) && GoodPieces(ps)
    ensures GoodPieces([p] + ps)
  {
    forall k | 0 <= k < |[p] + ps| && ([p] + ps)[k].Tag? ensures GoodBody(([p] + ps)[k].body) {
      if k > 0 {
        assert ([p] + ps)[k] == ps[k - 1];
      }
    }
  }

  lemma ConsTagFree(p: Piece, ps: seq<Piece>)
    requires p.Char? && NoTagPiece(ps)
    ensures NoTagPiece([p] + ps)
  {
    forall k | 0 <= k < |[p] + ps| ensures ([p] + ps)[k].Char? {
      if k > 0 {
        assert ([p] + ps)[k] == ps[k - 1];
      }
    }
  }

  /** Pieces without tags are written the same in every style. */
  lemma {:induction false} RenderPlain(ps: seq<Piece>, style: TagStyle)
    requires NoTagPiece(ps)
    ensures Render(ps, style) == Render(ps, Bracketed)
    decreases |ps|
  {
    if ps != [] {
      assert ps[0].Char?;
      assert NoTagPiece(ps[1..]) by {
        forall k | 0 <= k < |ps[1..]| ensures ps[1..][k].Char? {
          assert ps[1..][k] == ps[k + 1];
        }
      }
      RenderPlain(ps[1..], style);
    }
  }

  /** The span adds 25 characters around each bracketed tag; removing a tag
      with a non-empty body takes away at least three. */
  lemma {:induction false} RenderPieceLengths(ps: seq<Piece>)
    requires GoodPieces(ps)
    ensures |Render(ps, Highlighted)| == |Render(ps, Bracketed)| + 25 * TagPieces(ps)
    ensures |Render(ps, Removed)| + 3 * TagPieces(ps) <= |Render(ps, Bracketed)|
    decreases |ps|
  {
    if ps != [] {
      assert GoodPieces(ps[1..]) by {
        forall k | 0 <= k < |ps[1..]| && ps[1..][k].Tag? ensures GoodBody(ps[1..][k].body) {
          assert ps[1..][k] == ps[k + 1];
        }
      }
      RenderPieceLengths(ps[1..]);
      if ps[0].Tag? {
        assert GoodBody(ps[0].body);
      }
    }
  }

  /** No tag is counted exactly when there is no tag piece. */
  lemma {:induction false} TagPiecesZero(ps: seq<Piece>)
    ensures TagPieces(ps) == 0 <==> NoTagPiece(ps)
    decreases |ps|
  {
    if ps != [] {
      TagPiecesZero(ps[1..]);
      if NoTagPiece(ps[1..]) && ps[0].Char? {
        assert ps == [ps[0]] + ps[1..];
        ConsTagFree(ps[0], ps[1..]);
      } else if !NoTagPiece(ps[1..]) {
        var k :| 0 <= k < |ps[1..]| && !ps[1..][k].Char?;
        assert ps[k + 1] == ps[1..][k];
      }
    }
  }

  // ---------------------------------------------------------------------
  // one step of the scan
  // ---------------------------------------------------------------------

  /** The first piece written back in brackets, then the rest, is `s`. */
  lemma NextSplit(s: String)
    requires s != []
    ensures s == PieceText(Next(s), Bracketed) + Rest(s)
  {
    if TagFirst(s) {
      var n := BodyLength(s);
      assert s == s[..1] + s[1..n + 1] + s[n + 1..n + 2] + s[n + 2..];
      assert s[..1] == "[" && s[n + 1..n + 2] == "]";
    } else {
      assert s == [s[0]] + s[1..];
    }
  }

  /** A tag found at the start has a body the pattern can match. */
  lemma NextGood(s: String)
    requires s != []
    ensures Next(s).Tag? ==> GoodBody(Next(s).body)
  {
    if TagFirst(s) {
      var n := BodyLength(s);
      CloseIndexFirst(s[1..]);
      assert s[1..n + 1] == s[1..][..n];
    }
  }

  /** Writing the pieces of `s` is writing its first piece, then the rest. */
  lemma RenderScanStep(s: String, style: TagStyle)
    requires s != []
    ensures Render(Scan(s), style) == PieceText(Next(s), style) + Render(Scan(Rest(s)), style)
  {
    RenderCons(Next(s), Scan(Rest(s)), style);
  }

  /** Scanning `c + x` when `c` starts no tag. */
  lemma ScanPlain(c: char, x: String)
    requires !TagFirst([c] + x)
    ensures Scan([c] + x) == [Char(c)] + Scan(x)
  {
    assert ([c] + x)[1..] == x;
  }

  // ---------------------------------------------------------------------
  // texts
  // ---------------------------------------------------------------------

  /** Every tag piece has a non-empty body free of `]`. */
  lemma {:induction false} ScanTagBodies(s: String)
    ensures GoodPieces(Scan(s))
    decreases |s|
  {
    if s != [] {
      ScanTagBodies(Rest(s));
      NextGood(s);
      ConsGoodPieces(Next(s), Scan(Rest(s)));
    }
  }

  /** Writing each tag back in brackets gives the text that was scanned. */
  lemma {:induction false} ScanRoundTrip(s: String)
    ensures Render(Scan(s), Bracketed) == s
    decreases |s|
  {
    if s != [] {
      RenderScanStep(s, Bracketed);
      ScanRoundTrip(Rest(s));
      NextSplit(s);
    }
  }

  /** Without tags, every rendering is the text itself. */
  lemma TagFreeRender(s: String, style: TagStyle)
    requires TagFree(s)
    ensures Render(Scan(s), style) == s
  {
    RenderPlain(Scan(s), style);
    ScanRoundTrip(s);
  }

  /** Removing the tags of `s` when no `]` is in it. */
  lemma {:induction false} StripNoClose(s: String)
    requires forall i :: 0 <= i < |s| ==> s[i] != ']'
    ensures forall i :: 0 <= i < |StripTags(s)| ==> StripTags(s)[i] != ']'
    decreases |s|
  {
    if s != [] {
      assert !TagFirst(s);
      StripNoClose(s[1..]);
      RenderScanStep(s, Removed);
      assert StripTags(s) == [s[0]] + StripTags(s[1..]);
    }
  }

  /** A `[` put before a text whose tags were removed starts no tag: the
      first `]` of the rest, if any, comes straight after it. */
  lemma BracketBeforeStripped(x: String)
    requires !TagFirst(['['] + x)
    ensures !TagFirst(['['] + StripTags(x))
  {
    var y := StripTags(x);
    if x != [] && x[0] == ']' {
      // the `]` right after this `[` survives and stops the pattern here
      RenderScanStep(x, Removed);
      assert y == [']'] + StripTags(x[1..]);
      assert CloseIndex(y) == 0;
    } else {
      // no `]` follows
      assert (['['] + x)[1..] == x;
      CloseIndexFirst(x);
      assert forall i :: 0 <= i < |x| ==> x[i] != ']';
      StripNoClose(x);
      assert CloseIndex(y) == |y|;
    }
    assert (['['] + y)[1..] == y;
  }

  /** Removing a character that starts no tag. */
  lemma StripPlainStep(s: String)
    requires s != [] && !TagFirst(s)
    ensures StripTags(s) == [s[0]] + StripTags(s[1..])
    ensures !TagFirst([s[0]] + StripTags(s[1..]))
  {
    RenderScanStep(s, Removed);
    if s[0] == '[' {
      assert s == ['['] + s[1..];
      BracketBeforeStripped(s[1..]);
    }
  }

  /** A character that starts no tag, before a tag-free text. */
  lemma ConsPlainTagFree(c: char, y: String)
    requires !TagFirst([c] + y) && TagFree(y)
    ensures TagFree([c] + y)
  {
    ScanPlain(c, y);
    ConsTagFree(Char(c), Scan(y));
  }

  /** Removing the tags leaves a text in which the pattern matches nowhere. */
  lemma {:induction false} StripTagsTagFree(s: String)
    ensures TagFree(StripTags(s))
    decreases |s|
  {
    if s != [] {
      StripTagsTagFree(Rest(s));
      if TagFirst(s) {
        RenderScanStep(s, Removed);
        assert StripTags(s) == StripTags(Rest(s));
      } else {
        StripPlainStep(s);
        ConsPlainTagFree(s[0], StripTags(s[1..]));
      }
    }
  }

  /** Removing tags twice is removing them once. */
  lemma StripTagsIdempotent(s: String)
    ensures StripTags(StripTags(s)) == StripTags(s)
  {
    StripTagsTagFree(s);
    TagFreeRender(StripTags(s), Removed);
  }

  /** Highlighting leaves a tag-free text alone. */
  lemma HighlightTagFree(s: String)
    requires TagFree(s)
    ensures Highlight(s) == s
  {
    TagFreeRender(s, Highlighted);
  }

  /** Highlighting adds the span markup, 25 characters, around each tag;
      removing the tags takes away each tag's body and its two brackets. */
  lemma RenderLengths(s: String)
    ensures |Highlight(s)| == |s| + 25 * TagCount(s)
    ensures |StripTags(s)| + 3 * TagCount(s) <= |s|
  {
    ScanRoundTrip(s);
    ScanTagBodies(s);
    RenderPieceLengths(Scan(s));
  }

  /** A text has no tags exactly when the pattern matches nowhere in it. */
  lemma TagCountZero(s: String)
    ensures TagCount(s) == 0 <==> TagFree(s)
  {
    TagPiecesZero(Scan(s));
  }

  /** Highlighting changes the text exactly when it holds a tag; so does
      removing the tags. */
  lemma RewriteChangesIffTag(s: String)
    ensures Highlight(s) == s <==> TagFree(s)
    ensures StripTags(s) == s <==> TagFree(s)
  {
    RenderLengths(s);
    TagCountZero(s);
    if TagFree(s) {
      HighlightTagFree(s);
      TagFreeRender(s, Removed);
    }
  }

  // ---------------------------------------------------------------------
  // an opening bracket without its own closing one
  // ---------------------------------------------------------------------

  /** The first `]` after a stretch without one is the one that ends it. */
  lemma {:induction false} CloseIndexAfter(b: String, r: String)
    requires forall i :: 0 <= i < |b| ==> b[i] != ']'
    ensures CloseIndex(b + "]" + r) == |b|
    decreases |b|
  {
    if b != [] {
      assert (b + "]" + r)[0] == b[0];
      assert (b + "]" + r)[1..] == b[1..] + "]" + r;
      CloseIndexAfter(b[1..], r);
    } else {
      assert (b + "]" + r)[0] == ']';
    }
  }

  /** A text without `]` has no tag: removing tags leaves it as it is. */
  lemma {:induction false} NoCloseUnchanged(s: String)
    requires forall i :: 0 <= i < |s| ==> s[i] != ']'
    ensures StripTags(s) == s
    decreases |s|
  {
    if s != [] {
      CloseIndexFirst(s[1..]);
      assert !TagFirst(s);
      RenderScanStep(s, Removed);
      NoCloseUnchanged(s[1..]);
      assert s == [s[0]] + s[1..];
    }
  }

  /** The body of a tag that starts at a `[` with no `]` of its own
      before a later `[...]`: the two brackets and what lies between them. */
  lemma JoinedBodyNoClose(a: String, t: String)
    requires forall i :: 0 <= i < |a| ==> a[i] != ']'
    requires forall i :: 0 <= i < |t| ==> t[i] != ']'
    ensures forall i :: 0 <= i < |a + "[" + t| ==> (a + "[" + t)[i] != ']'
  {
    var b := a + "[" + t;
    forall i | 0 <= i < |b| ensures b[i] != ']' {
      if i < |a| {
        assert b[i] == a[i];
      } else if i > |a| {
        assert b[i] == t[i - |a| - 1];
      }
    }
  }

  /** A `[` that has no `]` before a later tag opens a tag that runs to
      that tag's `]`: the pattern reads `[a[t]` as one tag with body
      `a[t`, so highlighting wraps the two together and removing the
      tags drops the text `a` between them. */
  lemma OpenBracketSwallowsTag(a: String, t: String, rest: String)
    requires forall i :: 0 <= i < |a| ==> a[i] != ']'
    requires forall i :: 0 <= i < |t| ==> t[i] != ']'
    ensures Next("[" + a + "[" + t + "]" + rest) == Tag(a + "[" + t)
    ensures Rest("[" + a + "[" + t + "]" + rest) == rest
  {
    var b := a + "[" + t;
    var s := "[" + b + "]" + rest;
    assert "[" + a + "[" + t + "]" + rest == s;
    JoinedBodyNoClose(a, t);
    assert s[1..] == b + "]" + rest;
    CloseIndexAfter(b, rest);
    assert s[1..|b| + 1] == b;
    assert s[|b| + 2..] == rest;
  }

  /** So removing the tags of `[a[t]rest` removes `a` with the tag, and
      highlighting wraps `[a[t]` in one span. */
  lemma OpenBracketRewrites(a: String, t: String, rest: String)
    requires forall i :: 0 <= i < |a| ==> a[i] != ']'
    requires forall i :: 0 <= i < |t| ==> t[i] != ']'
    ensures StripTags("[" + a + "[" + t + "]" + rest) == StripTags(rest)
    ensures Highlight("[" + a + "[" + t + "]" + rest) ==
      TagText(Highlighted, a + "[" + t) + Highlight(rest)
  {
    OpenBracketSwallowsTag(a, t, rest);
    RenderScanStep("[" + a + "[" + t + "]" + rest, Removed);
    RenderScanStep("[" + a + "[" + t + "]" + rest, Highlighted);
  }

  lemma NotInNoClose(s: String)
    requires ']' !in s
    ensures forall i :: 0 <= i < |s| ==> s[i] != ']'
  {
  }

  /** An instance: in `[y [pause] z w v` the tag is read as `[y [pause]`,
      so removing the tags loses the word `[y`. */
  lemma LoneBracketLosesWord()
    ensures StripTags("[y [pause] z w v") == " z w v"
  {
    var a, t, rest := "y ", "pause", " z w v";
    assert "[" + a + "[" + t + "]" + rest == "[y [pause] z w v";
    NotInNoClose(a);
    NotInNoClose(t);
    NotInNoClose(rest);
    OpenBracketRewrites(a, t, rest);
    NoCloseUnchanged(rest);
  }
}
