/** The JavaScript string built-ins the application relies on, with their
    ECMAScript meaning: `\s` and `trim`, `split` on a character and on
    `/\s+/`, `join`, `replace(/\s+/g, ' ')`, `startsWith`, `includes` and
    `toLowerCase`. Everything here is total, as the built-ins are. */
module JsString {

  type String = seq<char>

  /** A value that may be missing: `null`, a failed match, a `-1` index. */
  datatype Option<T> = None | Some(value: T)

  /** The characters `\s` matches and `trim` removes: ECMAScript's
      WhiteSpace and LineTerminator code points. */
  predicate IsSpace(c: char) {
    c == '\t' || c == '\n' || c == '\U{B}' || c == '\U{C}' || c == '\r' || c == ' '
    || c == '\U{A0}' || c == '\U{1680}' || ('\U{2000}' <= c <= '\U{200A}')
    || c == '\U{2028}' || c == '\U{2029}' || c == '\U{202F}' || c == '\U{205F}'
    || c == '\U{3000}' || c == '\U{FEFF}'
  }

  predicate NoSpace(s: String) {
    forall i :: 0 <= i < |s| ==> !IsSpace(s[i])
  }

  predicate AllSpace(s: String) {
    forall i :: 0 <= i < |s| ==> IsSpace(s[i])
  }

  /** `s.startsWith(prefix)` */
  predicate StartsWith(s: String, prefix: String) {
    |prefix| <= |s| && s[..|prefix|] == prefix
  }

  /** `s.includes(t)` */
  predicate Contains(s: String, t: String)
    decreases |s|
  {
    StartsWith(s, t) || (|s| > 0 && Contains(s[1..], t))
  }

  /** `t` occurs in `s` at offset `i`. */
  predicate OccursAt(s: String, t: String, i: nat) {
    i + |t| <= |s| && s[i..i + |t|] == t
  }

  /** `includes` holds exactly when `t` occurs at some offset of `s`. */
  lemma {:induction false} ContainsAt(s: String, t: String)
    ensures Contains(s, t) <==> exists i: nat :: OccursAt(s, t, i)
    decreases |s|
  {
    if StartsWith(s, t) {
      assert OccursAt(s, t, 0);
    } else if |s| > 0 {
      ContainsAt(s[1..], t);
      if Contains(s[1..], t) {
        var i: nat :| OccursAt(s[1..], t, i);
        assert s[i + 1..i + 1 + |t|] == s[1..][i..i + |t|];
        assert OccursAt(s, t, i + 1);
      } else {
        forall i: nat | OccursAt(s, t, i)
          ensures false
        {
          if i > 0 {
            assert s[i..i + |t|] == s[1..][i - 1..i - 1 + |t|];
            assert OccursAt(s[1..], t, i - 1);
          }
        }
      }
    } else {
      assert forall i: nat :: OccursAt(s, t, i) ==> i == 0 && t == [];
      assert OccursAt(s, [], 0);
    }
  }

  /** The upper-case letters of ASCII and of Latin-1 (À to Þ, except ×) map
      to their lower-case forms; every other character is left alone. */
  function LowerChar(c: char): char {
    if 'A' <= c <= 'Z' || ('\U{C0}' <= c <= '\U{DE}' && c != '\U{D7}') then (c as int + 32) as char else c
  }

  /** `s.toLowerCase()`, character by character */
  function ToLower(s: String): (r: String)
    ensures |r| == |s|
    ensures forall i :: 0 <= i < |s| ==> r[i] == LowerChar(s[i])
  {
    seq(|s|, i requires 0 <= i < |s| => LowerChar(s[i]))
  }

  // ---------------------------------------------------------------------
  // split and join
  // ---------------------------------------------------------------------

  /** `s.split(d)` for a one-character separator, stated for any class of
      separator characters: the pieces between separators, in order, empty
      pieces included (`"".split(d)` is `[""]`). */
  function Split(s: String, isSep: char -> bool): (parts: seq<String>)
    ensures |parts| >= 1
    decreases |s|
  {
    if s == [] then [[]]
    else
      var rest := Split(s[1..], isSep);
      if isSep(s[0]) then [[]] + rest else [[s[0]] + rest[0]] + rest[1..]
  }

  /** `parts.join(sep)` */
  function Join(parts: seq<String>, sep: String): String
    decreases |parts|
  {
    if |parts| == 0 then []
    else if |parts| == 1 then parts[0]
    else parts[0] + sep + Join(parts[1..], sep)
  }

  /** The pieces that are not empty, in order. */
  function NonEmpty(parts: seq<String>): (r: seq<String>)
    ensures |r| <= |parts|
    decreases |parts|
  {
    if parts == [] then []
    else (if parts[0] == [] then [] else [parts[0]]) + NonEmpty(parts[1..])
  }

  /** The words of `s`: its maximal runs of non-space characters, in order. */
  function Words(s: String): seq<String> {
    NonEmpty(Split(s, IsSpace))
  }

  /** `s.split(/\s+/)`: the pieces between maximal runs of spaces. The
      first piece is empty when `s` starts with a space and the last when it
      ends with one; no other piece is empty, and `"".split(/\s+/)` is `[""]`. */
  function SplitWs(s: String): (tokens: seq<String>)
    ensures |tokens| >= 1
  {
    var f := Split(s, IsSpace);
    if |f| == 1 then f else [f[0]] + NonEmpty(f[1..|f| - 1]) + [f[|f| - 1]]
  }

  /** No piece holds a separator. */
  lemma {:induction false} SplitPieces(s: String, isSep: char -> bool)
    ensures forall k, j :: 0 <= k < |Split(s, isSep)| && 0 <= j < |Split(s, isSep)[k]| ==> !isSep(Split(s, isSep)[k][j])
    decreases |s|
  {
    if s != [] {
      SplitPieces(s[1..], isSep);
      var rest := Split(s[1..], isSep);
      var f := Split(s, isSep);
      forall k, j | 0 <= k < |f| && 0 <= j < |f[k]| ensures !isSep(f[k][j]) {
        if isSep(s[0]) {
          assert k > 0 && f[k] == rest[k - 1];
        } else if k == 0 && j > 0 {
          assert f[0][j] == rest[0][j - 1];
        } else if k > 0 {
          assert f[k] == rest[k];
        }
      }
    }
  }

  /** The kept pieces are non-empty pieces of the input. */
  lemma {:induction false} NonEmptyPieces(parts: seq<String>)
    ensures forall k :: 0 <= k < |NonEmpty(parts)| ==> NonEmpty(parts)[k] != [] && NonEmpty(parts)[k] in parts
    decreases |parts|
  {
    if parts != [] {
      NonEmptyPieces(parts[1..]);
      var r := NonEmpty(parts);
      var t := NonEmpty(parts[1..]);
      var h := if parts[0] == [] then [] else [parts[0]];
      assert r == h + t;
      forall k | 0 <= k < |r| ensures r[k] != [] && r[k] in parts {
        if k >= |h| {
          assert r[k] == t[k - |h|];
          assert t[k - |h|] in parts[1..];
        }
      }
    }
  }

  /** A list of words: non-empty pieces free of spaces. */
  predicate IsWordList(w: seq<String>) {
    forall k :: 0 <= k < |w| ==> w[k] != [] && NoSpace(w[k])
  }

  /** Every word is non-empty and holds no space. */
  lemma WordsShape(s: String)
    ensures IsWordList(Words(s))
  {
    var f := Split(s, IsSpace);
    SplitPieces(s, IsSpace);
    NonEmptyPieces(f);
    var w := Words(s);
    forall k | 0 <= k < |w| ensures w[k] != [] && NoSpace(w[k]) {
      var i :| 0 <= i < |f| && f[i] == w[k];
    }
  }

  /** No token of `split(/\s+/)` holds a space. */
  lemma SplitWsPieces(s: String)
    ensures forall k :: 0 <= k < |SplitWs(s)| ==> NoSpace(SplitWs(s)[k])
  {
    var f := Split(s, IsSpace);
    SplitPieces(s, IsSpace);
    var t := SplitWs(s);
    if |f| > 1 {
      var mid := f[1..|f| - 1];
      NonEmptyPieces(mid);
      forall k | 0 <= k < |t| ensures NoSpace(t[k]) {
        if 0 < k < |t| - 1 {
          var m := NonEmpty(mid);
          assert t[k] == m[k - 1];
          var i :| 0 <= i < |mid| && mid[i] == m[k - 1];
          assert mid[i] == f[i + 1];
        }
      }
    }
  }

  lemma {:induction false} SplitNoSep(s: String, isSep: char -> bool)
    requires forall i :: 0 <= i < |s| ==> !isSep(s[i])
    ensures Split(s, isSep) == [s]
    decreases |s|
  {
    if s != [] {
      SplitNoSep(s[1..], isSep);
      assert [s[0]] + s[1..] == s;
    }
  }

  /** The first piece is empty exactly when `s` is empty or starts with a separator. */
  lemma SplitFirstPiece(s: String, isSep: char -> bool)
    ensures Split(s, isSep)[0] == [] <==> s == [] || isSep(s[0])
  {
  }

  lemma {:induction false} SplitLastPiece(s: String, isSep: char -> bool)
    ensures Split(s, isSep)[|Split(s, isSep)| - 1] == [] <==> s == [] || isSep(s[|s| - 1])
    decreases |s|
  {
    if s != [] {
      SplitLastPiece(s[1..], isSep);
      if s[1..] != [] {
        assert s[1..][|s[1..]| - 1] == s[|s| - 1];
      }
    }
  }

  /** Splitting at one separator character splits into the pieces of either side. */
  lemma {:induction false} SplitConcat(a: String, c: char, b: String, isSep: char -> bool)
    requires isSep(c)
    ensures Split(a + [c] + b, isSep) == Split(a, isSep) + Split(b, isSep)
    decreases |a|
  {
    if a == [] {
      assert a + [c] + b == [c] + b;
      assert ([c] + b)[1..] == b;
    } else {
      assert (a + [c] + b)[1..] == a[1..] + [c] + b;
      SplitConcat(a[1..], c, b, isSep);
    }
  }

  /** Splitting what was joined with a separator character gives back the pieces. */
  lemma {:induction false} SplitJoin(parts: seq<String>, c: char, isSep: char -> bool)
    requires |parts| >= 1 && isSep(c)
    requires forall k, j :: 0 <= k < |parts| && 0 <= j < |parts[k]| ==> !isSep(parts[k][j])
    ensures Split(Join(parts, [c]), isSep) == parts
    decreases |parts|
  {
    if |parts| == 1 {
      SplitNoSep(parts[0], isSep);
    } else {
      SplitJoin(parts[1..], c, isSep);
      SplitNoSep(parts[0], isSep);
      SplitConcat(parts[0], c, Join(parts[1..], [c]), isSep);
      assert [parts[0]] + parts[1..] == parts;
    }
  }

  /** `split` gives one piece more than there are separators. */
  lemma {:induction false} SplitCount(s: String, isSep: char -> bool)
    ensures |Split(s, isSep)| == 1 + Count(s, isSep)
    decreases |s|
  {
    if s != [] {
      SplitCount(s[1..], isSep);
    }
  }

  /** The number of characters of `s` in the class. */
  function Count(s: String, isSep: char -> bool): nat
    decreases |s|
  {
    if s == [] then 0 else (if isSep(s[0]) then 1 else 0) + Count(s[1..], isSep)
  }

  lemma {:induction false} NonEmptyConcat(a: seq<String>, b: seq<String>)
    ensures NonEmpty(a + b) == NonEmpty(a) + NonEmpty(b)
    decreases |a|
  {
    if a == [] {
      assert a + b == b;
    } else {
      assert (a + b)[1..] == a[1..] + b;
      NonEmptyConcat(a[1..], b);
    }
  }

  lemma {:induction false} NonEmptyAll(parts: seq<String>)
    requires forall k :: 0 <= k < |parts| ==> parts[k] != []
    ensures NonEmpty(parts) == parts
    decreases |parts|
  {
    if parts != [] {
      NonEmptyAll(parts[1..]);
      assert [parts[0]] + parts[1..] == parts;
    }
  }

  lemma JoinSingle(w: String, sep: String)
    ensures Join([w], sep) == w
  {
  }

  /** Joining two non-empty lists puts one separator between them. */
  lemma {:induction false} JoinConcat(a: seq<String>, b: seq<String>, sep: String)
    requires a != [] && b != []
    ensures Join(a + b, sep) == Join(a, sep) + sep + Join(b, sep)
    decreases |a|
  {
    if |a| == 1 {
      assert (a + b)[1..] == b;
    } else {
      assert (a + b)[1..] == a[1..] + b;
      JoinConcat(a[1..], b, sep);
    }
  }

  /** A character put in front of the first piece goes in front of the join. */
  lemma JoinConsFirst(c: char, w: seq<String>, sep: String)
    requires w != []
    ensures Join([[c] + w[0]] + w[1..], sep) == [c] + Join(w, sep)
  {
    var v := [[c] + w[0]] + w[1..];
    if |w| > 1 {
      assert v[1..] == w[1..];
    }
  }

  /** The join of non-empty words starts with the first word's first
      character and ends with the last word's last character. */
  lemma {:induction false} JoinEdges(w: seq<String>, sep: String)
    requires w != [] && forall k :: 0 <= k < |w| ==> w[k] != []
    ensures Join(w, sep) != [] && Join(w, sep)[0] == w[0][0]
    ensures Join(w, sep)[|Join(w, sep)| - 1] == w[|w| - 1][|w[|w| - 1]| - 1]
    decreases |w|
  {
    if |w| > 1 {
      JoinEdges(w[1..], sep);
    }
  }

  /** The join of pieces starts with the first piece. */
  lemma JoinStartsWithFirst(w: seq<String>, sep: String)
    requires w != []
    ensures StartsWith(Join(w, sep), w[0])
  {
    if |w| > 1 {
      assert (w[0] + sep + Join(w[1..], sep))[..|w[0]|] == w[0];
    }
  }

  // ---------------------------------------------------------------------
  // words
  // ---------------------------------------------------------------------

  /** How one leading character changes the words. */
  lemma WordsCons(c: char, x: String)
    ensures IsSpace(c) ==> Words([c] + x) == Words(x)
    ensures !IsSpace(c) && (x == [] || IsSpace(x[0])) ==> Words([c] + x) == [[c]] + Words(x)
    ensures !IsSpace(c) && x != [] && !IsSpace(x[0]) ==>
      Words(x) != [] && Words([c] + x) == [[c] + Words(x)[0]] + Words(x)[1..]
  {
    var s := [c] + x;
    assert s[1..] == x;
    var f := Split(x, IsSpace);
    assert f == [f[0]] + f[1..];
    SplitFirstPiece(x, IsSpace);
    NonEmptyConcat([f[0]], f[1..]);
    var tail := NonEmpty(f[1..]);
    if IsSpace(c) {
      assert Split(s, IsSpace) == [[]] + f;
      NonEmptyConcat([[]], f);
    } else {
      assert Split(s, IsSpace) == [[c] + f[0]] + f[1..];
      NonEmptyConcat([[c] + f[0]], f[1..]);
      assert Words(s) == [[c] + f[0]] + tail;
      if f[0] == [] {
        assert [c] + f[0] == [c];
        assert Words(x) == tail;
      } else {
        assert Words(x) == [f[0]] + tail;
        assert Words(x)[0] == f[0] && Words(x)[1..] == tail;
      }
    }
  }

  lemma WordsStartNonSpace(x: String)
    requires x != [] && !IsSpace(x[0])
    ensures Words(x) != [] && Words(x)[0][0] == x[0]
  {
    WordsCons(x[0], x[1..]);
    assert [x[0]] + x[1..] == x;
  }

  lemma {:induction false} WordsEmptyAllSpace(x: String)
    requires Words(x) == []
    ensures AllSpace(x)
    decreases |x|
  {
    if x != [] {
      if !IsSpace(x[0]) {
        WordsStartNonSpace(x);
      }
      WordsCons(x[0], x[1..]);
      assert [x[0]] + x[1..] == x;
      WordsEmptyAllSpace(x[1..]);
    }
  }

  lemma {:induction false} WordsOfAllSpace(x: String)
    requires AllSpace(x)
    ensures Words(x) == []
    decreases |x|
  {
    if x != [] {
      WordsCons(x[0], x[1..]);
      assert [x[0]] + x[1..] == x;
      WordsOfAllSpace(x[1..]);
    }
  }

  /** Leading spaces do not change the words. */
  lemma {:induction false} WordsSkipSpaces(ws: String, x: String)
    requires AllSpace(ws)
    ensures Words(ws + x) == Words(x)
    decreases |ws|
  {
    if ws != [] {
      assert ws + x == [ws[0]] + (ws[1..] + x);
      WordsCons(ws[0], ws[1..] + x);
      WordsSkipSpaces(ws[1..], x);
    } else {
      assert ws + x == x;
    }
  }

  /** A space character separates the words of either side. */
  lemma WordsConcatSpace(a: String, c: char, b: String)
    requires IsSpace(c)
    ensures Words(a + [c] + b) == Words(a) + Words(b)
  {
    SplitConcat(a, c, b, IsSpace);
    NonEmptyConcat(Split(a, IsSpace), Split(b, IsSpace));
  }

  /** Trailing spaces do not change the words. */
  lemma {:induction false} WordsDropSpaces(x: String, ws: String)
    requires AllSpace(ws)
    ensures Words(x + ws) == Words(x)
    decreases |ws|
  {
    if ws != [] {
      var n := |ws| - 1;
      assert x + ws == (x + ws[..n]) + [ws[n]] + [];
      WordsConcatSpace(x + ws[..n], ws[n], []);
      WordsDropSpaces(x, ws[..n]);
    } else {
      assert x + ws == x;
    }
  }

  lemma WordsOfWord(w: String)
    requires w != [] && NoSpace(w)
    ensures Words(w) == [w]
  {
    SplitNoSep(w, IsSpace);
  }

  /** The words of pieces free of spaces joined by a space are the non-empty pieces. */
  lemma WordsJoin(parts: seq<String>)
    requires forall k :: 0 <= k < |parts| ==> NoSpace(parts[k])
    ensures Words(Join(parts, " ")) == NonEmpty(parts)
  {
    if parts != [] {
      SplitJoin(parts, ' ', IsSpace);
    }
  }

  /** Joining words by one space and taking the words again gives them back. */
  lemma WordsJoinWords(w: seq<String>)
    requires IsWordList(w)
    ensures Words(Join(w, " ")) == w
  {
    WordsJoin(w);
    NonEmptyAll(w);
  }

  /** `split(/\s+/)` keeps the words and drops only empty pieces. */
  lemma SplitWsWords(s: String)
    ensures NonEmpty(SplitWs(s)) == Words(s)
  {
    var f := Split(s, IsSpace);
    if |f| > 1 {
      var mid := f[1..|f| - 1];
      assert f == [f[0]] + mid + [f[|f| - 1]];
      NonEmptyConcat([f[0]] + mid, [f[|f| - 1]]);
      NonEmptyConcat([f[0]], mid);
      NonEmptyConcat([f[0]] + NonEmpty(mid), [f[|f| - 1]]);
      NonEmptyConcat([f[0]], NonEmpty(mid));
      NonEmptyPieces(mid);
      NonEmptyAll(NonEmpty(mid));
    }
  }

  /** On a string with no space at either edge, `split(/\s+/)` gives exactly its words. */
  lemma SplitWsTrimmed(s: String)
    requires s != [] && !IsSpace(s[0]) && !IsSpace(s[|s| - 1])
    ensures SplitWs(s) == Words(s)
  {
    var f := Split(s, IsSpace);
    SplitFirstPiece(s, IsSpace);
    SplitLastPiece(s, IsSpace);
    SplitWsWords(s);
    var t := SplitWs(s);
    if |f| == 1 {
      NonEmptyAll(t);
    } else {
      var mid := f[1..|f| - 1];
      NonEmptyPieces(mid);
      assert t == [f[0]] + NonEmpty(mid) + [f[|f| - 1]];
      forall k | 0 <= k < |t| ensures t[k] != [] {
        if 0 < k < |t| - 1 {
          assert t[k] == NonEmpty(mid)[k - 1];
        }
      }
      NonEmptyAll(t);
    }
  }

  /** `ts.splice(p, 0, x)`: `x` put in before the token at `p`. */
  function Splice(ts: seq<String>, p: nat, x: String): (r: seq<String>)
    requires p <= |ts|
    ensures |r| == |ts| + 1 && r[p] == x
  {
    ts[..p] + [x] + ts[p..]
  }

  /** Joining the tokens with the word put in among them, the words are
      those before the place, the word, and those after. */
  lemma SpliceNoSpace(ts: seq<String>, p: nat, t: String)
    requires p <= |ts| && NoSpace(t)
    requires forall k :: 0 <= k < |ts| ==> NoSpace(ts[k])
    ensures forall k :: 0 <= k < |Splice(ts, p, t)| ==> NoSpace(Splice(ts, p, t)[k])
  {
    var ins := Splice(ts, p, t);
    forall k | 0 <= k < |ins| ensures NoSpace(ins[k]) {
      if k < p {
        assert ins[k] == ts[k];
      } else if k > p {
        assert ins[k] == ts[k - 1];
      }
    }
  }

  lemma NonEmptyInsert(a: seq<String>, t: String, b: seq<String>)
    requires t != []
    ensures NonEmpty(a + [t] + b) == NonEmpty(a) + [t] + NonEmpty(b)
  {
    NonEmptyConcat(a + [t], b);
    NonEmptyConcat(a, [t]);
    assert NonEmpty([t]) == [t] + NonEmpty([]);
  }

  lemma NonEmptySplit(ts: seq<String>, p: nat)
    requires p <= |ts|
    ensures NonEmpty(ts) == NonEmpty(ts[..p]) + NonEmpty(ts[p..])
  {
    assert ts == ts[..p] + ts[p..];
    NonEmptyConcat(ts[..p], ts[p..]);
  }

  /** Joining the tokens with a word spliced in among them, the words are
      those before the place, the word, and those after. */
  lemma SpliceWords(ts: seq<String>, p: nat, t: String)
    requires p <= |ts| && t != [] && NoSpace(t)
    requires forall k :: 0 <= k < |ts| ==> NoSpace(ts[k])
    ensures Words(Join(Splice(ts, p, t), " ")) == NonEmpty(ts[..p]) + [t] + NonEmpty(ts[p..])
    ensures NonEmpty(ts) == NonEmpty(ts[..p]) + NonEmpty(ts[p..])
  {
    SpliceNoSpace(ts, p, t);
    WordsJoin(Splice(ts, p, t));
    NonEmptyInsert(ts[..p], t, ts[p..]);
    NonEmptySplit(ts, p);
  }

  // ---------------------------------------------------------------------
  // trim and whitespace collapsing
  // ---------------------------------------------------------------------

  /** The number of spaces `s` starts with. */
  function LeadingSpaces(s: String): (k: nat)
    ensures k <= |s|
    ensures forall i :: 0 <= i < k ==> IsSpace(s[i])
    ensures k < |s| ==> !IsSpace(s[k])
    decreases |s|
  {
    if s != [] && IsSpace(s[0]) then 1 + LeadingSpaces(s[1..]) else 0
  }

  /** The number of spaces `s` ends with. */
  function TrailingSpaces(s: String): (k: nat)
    ensures k <= |s|
    ensures forall i :: |s| - k <= i < |s| ==> IsSpace(s[i])
    ensures k < |s| ==> !IsSpace(s[|s| - 1 - k])
    decreases |s|
  {
    if s != [] && IsSpace(s[|s| - 1]) then 1 + TrailingSpaces(s[..|s| - 1]) else 0
  }

  /** `s.trimStart()` */
  function TrimStart(s: String): String {
    s[LeadingSpaces(s)..]
  }

  /** `s.trimEnd()` */
  function TrimEnd(s: String): String {
    s[..|s| - TrailingSpaces(s)]
  }

  /** `s.trim()` */
  function Trim(s: String): String {
    TrimEnd(TrimStart(s))
  }

  /** `trimStart` removes exactly the leading spaces. */
  lemma TrimStartOf(ws: String, x: String)
    requires AllSpace(ws) && (x == [] || !IsSpace(x[0]))
    ensures TrimStart(ws + x) == x
  {
    var s := ws + x;
    var k := LeadingSpaces(s);
    assert forall i :: 0 <= i < |ws| ==> s[i] == ws[i];
    assert x != [] ==> s[|ws|] == x[0];
    assert k == |ws|;
    assert s[|ws|..] == x;
  }

  /** `trimEnd` removes exactly the trailing spaces. */
  lemma TrimEndOf(x: String, ws: String)
    requires AllSpace(ws) && (x == [] || !IsSpace(x[|x| - 1]))
    ensures TrimEnd(x + ws) == x
  {
    var s := x + ws;
    var k := TrailingSpaces(s);
    assert forall i :: |x| <= i < |s| ==> s[i] == ws[i - |x|];
    assert x != [] ==> s[|x| - 1] == x[|x| - 1];
    assert k == |ws|;
    assert s[..|s| - |ws|] == x;
  }

  /** Trimming keeps the words. */
  lemma WordsTrim(s: String)
    ensures Words(Trim(s)) == Words(s)
  {
    var t := TrimStart(s);
    var a := s[..LeadingSpaces(s)];
    assert s == a + t;
    var r := TrimEnd(t);
    var b := t[|r|..];
    assert t == r + b;
    WordsSkipSpaces(a, t);
    WordsDropSpaces(r, b);
  }

  /** A string with no space at either edge is its own trim. */
  lemma TrimTrimmed(s: String)
    requires s == [] || (!IsSpace(s[0]) && !IsSpace(s[|s| - 1]))
    ensures Trim(s) == s
  {
  }

  /** A trimmed string has no space at either edge. */
  lemma TrimEdges(s: String)
    ensures Trim(s) == [] || (!IsSpace(Trim(s)[0]) && !IsSpace(Trim(s)[|Trim(s)| - 1]))
  {
    var t := TrimStart(s);
    var r := TrimEnd(t);
    if r != [] {
      assert r[0] == t[0] && r[|r| - 1] == t[|t| - 1 - TrailingSpaces(t)];
    }
  }

  /** Trimming twice is trimming once. */
  lemma TrimIdempotent(s: String)
    ensures Trim(Trim(s)) == Trim(s)
  {
    TrimEdges(s);
    TrimTrimmed(Trim(s));
  }

  /** `s.replace(/\s+/g, ' ')`: every maximal run of spaces becomes one ' '. */
  function CollapseSpaces(s: String): String
    decreases |s|
  {
    if s == [] then []
    else if IsSpace(s[0]) then [' '] + CollapseSpaces(TrimStart(s))
    else [s[0]] + CollapseSpaces(s[1..])
  }

  /** `s.replace(/\s+/g, ' ').trim()` */
  function Normalize(s: String): String {
    Trim(CollapseSpaces(s))
  }

  function LeadSpace(s: String): String {
    if s != [] && IsSpace(s[0]) then " " else ""
  }

  function TrailSpace(s: String): String {
    if Words(s) != [] && IsSpace(s[|s| - 1]) then " " else ""
  }

  /** The shape collapsing gives: the words, separated by single spaces,
      with at most one space left at each edge. */
  predicate Collapsed(s: String, c: String) {
    c == LeadSpace(s) + Join(Words(s), " ") + TrailSpace(s)
  }

  lemma CollapseSpaceStep(s: String)
    requires s != [] && IsSpace(s[0])
    requires Collapsed(TrimStart(s), CollapseSpaces(TrimStart(s)))
    ensures Collapsed(s, CollapseSpaces(s))
  {
    var t := TrimStart(s);
    var ws := s[..LeadingSpaces(s)];
    assert s == ws + t;
    WordsSkipSpaces(ws, t);
    assert LeadSpace(t) == [];
    if Words(t) != [] {
      assert t != [] && t[|t| - 1] == s[|s| - 1];
    }
    var j := Join(Words(s), " ");
    var e := TrailSpace(s);
    assert TrailSpace(t) == e;
    calc {
      CollapseSpaces(s);
      [' '] + CollapseSpaces(t);
      [' '] + ([] + j + e);
      { assert [] + j == j; }
      [' '] + (j + e);
      LeadSpace(s) + j + e;
    }
  }

  lemma CollapseWordStep(s: String)
    requires s != [] && !IsSpace(s[0])
    requires Collapsed(s[1..], CollapseSpaces(s[1..]))
    ensures Collapsed(s, CollapseSpaces(s))
  {
    var c, x := s[0], s[1..];
    assert s == [c] + x;
    if x == [] {
      WordsCons(c, x);
      assert Words(s) == [[c]];
    } else if IsSpace(x[0]) {
      CollapseBreakStep(c, x);
    } else {
      CollapseJoinStep(c, x);
    }
  }

  lemma CollapseCons(c: char, x: String)
    requires !IsSpace(c)
    ensures CollapseSpaces([c] + x) == [c] + CollapseSpaces(x)
  {
    assert ([c] + x)[1..] == x;
  }

  lemma TrailSpaceCons(c: char, x: String)
    requires !IsSpace(c) && Words(x) != []
    ensures TrailSpace([c] + x) == TrailSpace(x)
  {
    WordsCons(c, x);
    assert ([c] + x)[|x|] == x[|x| - 1];
  }

  lemma CollapseBreakStep(c: char, x: String)
    requires !IsSpace(c) && x != [] && IsSpace(x[0])
    requires Collapsed(x, CollapseSpaces(x))
    ensures Collapsed([c] + x, CollapseSpaces([c] + x))
  {
    var s := [c] + x;
    var w := Words(x);
    CollapseCons(c, x);
    WordsCons(c, x);
    if w == [] {
      WordsEmptyAllSpace(x);
      assert s[|s| - 1] == x[|x| - 1];
      assert Join(Words(s), " ") == [c];
      assert CollapseSpaces(x) == " ";
      assert TrailSpace(s) == " ";
      AssembleBreak(c, CollapseSpaces(s), Join(Words(s), " "), TrailSpace(s));
    } else {
      JoinConcat([[c]], w, " ");
      assert Join(Words(s), " ") == [c] + " " + Join(w, " ");
      TrailSpaceCons(c, x);
      AssembleSpaced(c, CollapseSpaces(s), CollapseSpaces(x), Join(w, " "), TrailSpace(x), Join(Words(s), " "));
    }
  }

  lemma CollapseJoinStep(c: char, x: String)
    requires !IsSpace(c) && x != [] && !IsSpace(x[0])
    requires Collapsed(x, CollapseSpaces(x))
    ensures Collapsed([c] + x, CollapseSpaces([c] + x))
  {
    var s := [c] + x;
    var w := Words(x);
    CollapseCons(c, x);
    WordsCons(c, x);
    JoinConsFirst(c, w, " ");
    TrailSpaceCons(c, x);
    Assemble(c, CollapseSpaces(s), CollapseSpaces(x), Join(w, " "), TrailSpace(x), Join(Words(s), " "));
  }

  lemma AssembleBreak(c: char, cs: String, js: String, ts: String)
    requires cs == [c] + " " && js == [c] && ts == " "
    ensures cs == [] + js + ts
  {
  }

  lemma AssembleSpaced(c: char, cs: String, cx: String, jx: String, tx: String, js: String)
    requires cs == [c] + cx && cx == " " + jx + tx && js == [c] + " " + jx
    ensures cs == [] + js + tx
  {
    assert [] + js == js;
  }

  lemma Assemble(c: char, cs: String, cx: String, jx: String, tx: String, js: String)
    requires cs == [c] + cx && cx == [] + jx + tx && js == [c] + jx
    ensures cs == [] + js + tx
  {
    assert [] + jx == jx;
    assert [] + js == js;
  }

  /** Collapsing keeps the words, separated by single spaces, with at most
      one space left at each edge. */
  lemma {:induction false} CollapseShape(s: String)
    ensures Collapsed(s, CollapseSpaces(s))
    decreases |s|
  {
    if s == [] {
    } else if IsSpace(s[0]) {
      CollapseShape(TrimStart(s));
      CollapseSpaceStep(s);
    } else {
      CollapseShape(s[1..]);
      CollapseWordStep(s);
    }
  }

  /** Trimming a string framed by spaces leaves the part between them. */
  lemma TrimFramed(l: String, j: String, t: String)
    requires AllSpace(l) && AllSpace(t)
    requires j == [] || (!IsSpace(j[0]) && !IsSpace(j[|j| - 1]))
    ensures Trim(l + j + t) == j
  {
    if j == [] {
      assert l + j + t == (l + t) + [];
      TrimStartOf(l + t, []);
    } else {
      assert l + j + t == l + (j + t);
      TrimStartOf(l, j + t);
      TrimEndOf(j, t);
    }
  }

  /** Collapsing runs of spaces and trimming is joining the words with single spaces. */
  lemma NormalizeIsJoinedWords(s: String)
    ensures Normalize(s) == Join(Words(s), " ")
  {
    CollapseShape(s);
    WordsShape(s);
    var w := Words(s);
    if w != [] {
      JoinEdges(w, " ");
    }
    TrimFramed(LeadSpace(s), Join(w, " "), TrailSpace(s));
  }

  /** Normalising keeps the words. */
  lemma NormalizeWords(s: String)
    ensures Words(Normalize(s)) == Words(s)
  {
    NormalizeIsJoinedWords(s);
    WordsShape(s);
    WordsJoinWords(Words(s));
  }

  /** Normalising twice is normalising once. */
  lemma NormalizeIdempotent(s: String)
    ensures Normalize(Normalize(s)) == Normalize(s)
  {
    NormalizeIsJoinedWords(s);
    NormalizeIsJoinedWords(Normalize(s));
    NormalizeWords(s);
  }

  /** A text that starts with a word-like prefix still starts with it once normalised. */
  lemma {:induction false} NormalizeKeepsPrefix(s: String, p: String)
    requires StartsWith(s, p) && p != [] && NoSpace(p)
    ensures StartsWith(Normalize(s), p)
  {
    WordsPrefix(s, p);
    NormalizeIsJoinedWords(s);
    var w := Words(s);
    JoinStartsWithFirst(w, " ");
    var j := Join(w, " ");
    assert j[..|w[0]|] == w[0];
    assert j[..|p|] == w[0][..|p|];
  }

  /** The first word of a text that starts with a prefix free of spaces starts with it. */
  lemma {:induction false} WordsPrefix(s: String, p: String)
    requires StartsWith(s, p) && p != [] && NoSpace(p)
    ensures Words(s) != [] && StartsWith(Words(s)[0], p)
    decreases |p|
  {
    WordsStartNonSpace(s);
    var x := s[1..];
    assert s == [s[0]] + x;
    WordsCons(s[0], x);
    if |p| > 1 {
      assert StartsWith(x, p[1..]);
      WordsPrefix(x, p[1..]);
      WordsStartNonSpace(x);
    }
  }

  // ---------------------------------------------------------------------
  // sentences
  // ---------------------------------------------------------------------

  /** The characters after which a run of spaces ends a sentence, the
      Devanagari danda included. */
  predicate IsSentenceEnd(c: char) {
    c == '.' || c == '!' || c == '?' || c == '\U{964}'
  }

  /** `s.split(/(?<=[.!?।])\s+/)`: the pieces between the maximal runs of
      spaces that directly follow a sentence-ending mark. */
  function SplitSentences(s: String): (r: seq<String>)
    ensures |r| >= 1
  {
    SentencesAfter(false, s)
  }

  /** The split of `s`, where `afterEnd` says whether the character before
      `s` is a sentence-ending mark. */
  function SentencesAfter(afterEnd: bool, s: String): (r: seq<String>)
    ensures |r| >= 1
    ensures r[0] == [] || (s != [] && r[0][0] == s[0])
    ensures s != [] && !(afterEnd && IsSpace(s[0])) ==> r[0] != []
    decreases |s|
  {
    if s == [] then [[]]
    else if afterEnd && IsSpace(s[0]) then [[]] + SentencesAfter(false, TrimStart(s))
    else
      var rest := SentencesAfter(IsSentenceEnd(s[0]), s[1..]);
      [[s[0]] + rest[0]] + rest[1..]
  }

  /** The words of each piece, one after the other. */
  function FlatWords(ps: seq<String>): seq<String>
    decreases |ps|
  {
    if ps == [] then [] else Words(ps[0]) + FlatWords(ps[1..])
  }

  lemma {:induction false} FlatWordsConcat(a: seq<String>, b: seq<String>)
    ensures FlatWords(a + b) == FlatWords(a) + FlatWords(b)
    decreases |a|
  {
    if a == [] {
      assert a + b == b;
    } else {
      assert (a + b)[1..] == a[1..] + b;
      FlatWordsConcat(a[1..], b);
      AppendAssoc(Words(a[0]), FlatWords(a[1..]), FlatWords(b));
    }
  }

  lemma AppendAssoc(x: seq<String>, y: seq<String>, z: seq<String>)
    ensures x + (y + z) == (x + y) + z
  {
  }

  /** Joining pieces by a space keeps their words. */
  lemma {:induction false} WordsJoinPieces(ps: seq<String>)
    ensures Words(Join(ps, " ")) == FlatWords(ps)
    decreases |ps|
  {
    if |ps| > 1 {
      WordsJoinPieces(ps[1..]);
      WordsConcatSpace(ps[0], ' ', Join(ps[1..], " "));
    } else if |ps| == 1 {
      assert FlatWords(ps) == Words(ps[0]) + [];
    }
  }

  /** A character put in front of a piece changes its words as it changes
      the words of the text the piece begins. */
  lemma WordsConsPiece(c: char, y: String, x: String, tail: seq<String>)
    requires Words(x) == Words(y) + tail
    requires y == [] ==> x == [] || IsSpace(x[0])
    requires y != [] ==> x != [] && y[0] == x[0]
    ensures Words([c] + y) + tail == Words([c] + x)
  {
    WordsCons(c, x);
    WordsCons(c, y);
    if IsSpace(c) {
    } else if y == [] || IsSpace(y[0]) {
      AppendAssoc([[c]], Words(y), tail);
    } else {
      WordsStartNonSpace(y);
      var wy := Words(y);
      var wx := Words(x);
      assert wx[0] == wy[0];
      assert wx[1..] == wy[1..] + tail;
      AppendAssoc([[c] + wy[0]], wy[1..], tail);
    }
  }

  /** Splitting into sentences loses no word and reorders none. */
  lemma {:induction false} SentencesKeepWords(afterEnd: bool, s: String)
    ensures FlatWords(SentencesAfter(afterEnd, s)) == Words(s)
    decreases |s|
  {
    if s == [] {
    } else if afterEnd && IsSpace(s[0]) {
      var t := TrimStart(s);
      assert s == s[..LeadingSpaces(s)] + t;
      WordsSkipSpaces(s[..LeadingSpaces(s)], t);
      SentencesKeepWords(false, t);
      var r := SentencesAfter(false, t);
      assert ([[]] + r)[1..] == r;
      assert FlatWords([[]] + r) == [] + FlatWords(r);
    } else {
      var c, x := s[0], s[1..];
      assert s == [c] + x;
      var rest := SentencesAfter(IsSentenceEnd(c), x);
      SentencesKeepWords(IsSentenceEnd(c), x);
      var r := [[c] + rest[0]] + rest[1..];
      assert r[1..] == rest[1..];
      assert FlatWords(rest) == Words(rest[0]) + FlatWords(rest[1..]);
      WordsConsPiece(c, rest[0], x, FlatWords(rest[1..]));
      assert FlatWords(r) == Words([c] + rest[0]) + FlatWords(rest[1..]);
    }
  }
}
