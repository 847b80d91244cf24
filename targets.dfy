/** The word a piece of feedback points at, and where that word is in the
    sacred text: the first quoted passage of the feedback, otherwise the word
    after `at`, `before`, `near` or `around`, looked up among the words of
    the sacred text with its tags removed. */
module Targets {
  import opened JsString
  import TagMarkup

  predicate IsQuote(c: char) {
    c == '\'' || c == '"'
  }

  /** `\w` without the unicode flag. */
  predicate IsWordChar(c: char) {
    'a' <= c <= 'z' || 'A' <= c <= 'Z' || '0' <= c <= '9' || c == '_'
  }

  /** The first index at or after `k` holding a quote, or `|s|`. */
  function NextQuote(s: String, k: nat): (j: nat)
    requires k <= |s|
    ensures k <= j <= |s|
    ensures j < |s| ==> IsQuote(s[j])
    ensures forall m :: k <= m < j ==> !IsQuote(s[m])
    decreases |s| - k
  {
    if k == |s| || IsQuote(s[k]) then k else NextQuote(s, k + 1)
  }

  /** The first index at or after `k` that does not hold a space, or `|s|`. */
  function SpaceRunEnd(s: String, k: nat): (j: nat)
    requires k <= |s|
    ensures k <= j <= |s|
    ensures j < |s| ==> !IsSpace(s[j])
    ensures forall m :: k <= m < j ==> IsSpace(s[m])
    decreases |s| - k
  {
    if k == |s| || !IsSpace(s[k]) then k else SpaceRunEnd(s, k + 1)
  }

  /** The first index at or after `k` that does not hold a word character, or `|s|`. */
  function WordRunEnd(s: String, k: nat): (j: nat)
    requires k <= |s|
    ensures k <= j <= |s|
    ensures j < |s| ==> !IsWordChar(s[j])
    ensures forall m :: k <= m < j ==> IsWordChar(s[m])
    decreases |s| - k
  {
    if k == |s| || !IsWordChar(s[k]) then k else WordRunEnd(s, k + 1)
  }

  // ---------------------------------------------------------------------
  // the quoted passage: /['"]([^'"]+)['"]/
  // ---------------------------------------------------------------------

  /** The pattern matches at `i`: a quote, one or more other characters,
      and the next quote. */
  predicate QuoteMatchAt(s: String, i: nat) {
    i < |s| && IsQuote(s[i]) && i + 2 <= NextQuote(s, i + 1) < |s|
  }

  /** The leftmost index at or after `i` where the pattern matches, or `|s|`. */
  function FirstQuoteMatch(s: String, i: nat): (p: nat)
    requires i <= |s|
    ensures i <= p <= |s|
    ensures p < |s| ==> QuoteMatchAt(s, p)
    ensures forall j :: i <= j < p ==> !QuoteMatchAt(s, j)
    decreases |s| - i
  {
    if i == |s| || QuoteMatchAt(s, i) then i else FirstQuoteMatch(s, i + 1)
  }

  /** The captured passage of the leftmost match, if the pattern matches. */
  function QuotedPassage(s: String): (r: Option<String>)
    ensures r.Some? ==> r.value != [] && forall m :: 0 <= m < |r.value| ==> !IsQuote(r.value[m])
  {
    var p := FirstQuoteMatch(s, 0);
    if p < |s| then
      Some(s[p + 1..NextQuote(s, p + 1)])
    else None
  }

  // ---------------------------------------------------------------------
  // the preposition: /(?:at|before|near|around)\s+['"]?(\w+)['"]?/
  // ---------------------------------------------------------------------

  const Prepositions: seq<String> := ["at", "before", "near", "around"]

  /** The preposition found at `i`. No two of the alternatives can both
      occur at one index, so trying them in order and keeping the first
      that occurs is what backtracking over them does. */
  function PrepositionAt(s: String, i: nat): (r: Option<String>)
    ensures r.Some? ==> r.value in Prepositions && OccursAt(s, r.value, i)
    ensures r.None? ==> forall kw :: kw in Prepositions ==> !OccursAt(s, kw, i)
  {
    if OccursAt(s, "at", i) then Some("at")
    else if OccursAt(s, "before", i) then Some("before")
    else if OccursAt(s, "near", i) then Some("near")
    else if OccursAt(s, "around", i) then Some("around")
    else None
  }

  /** Where the captured word starts when the pattern matches at `i`: a
      preposition, one or more spaces, an optional quote and a word
      character. */
  function CaptureStart(s: String, i: nat): (r: Option<nat>)
    ensures r.Some? ==> r.value < |s| && IsWordChar(s[r.value])
  {
    match PrepositionAt(s, i)
    case None => None
    case Some(kw) =>
      var k := i + |kw|;
      if k < |s| && IsSpace(s[k]) then
        var m := SpaceRunEnd(s, k);
        if m < |s| && IsWordChar(s[m]) then Some(m)
        else if m + 1 < |s| && IsQuote(s[m]) && IsWordChar(s[m + 1]) then Some(m + 1)
        else None
      else None
  }

  /** The leftmost index at or after `i` where the pattern matches, or `|s|`. */
  function FirstPrepositionMatch(s: String, i: nat): (p: nat)
    requires i <= |s|
    ensures i <= p <= |s|
    ensures p < |s| ==> CaptureStart(s, p).Some?
    ensures forall j :: i <= j < p ==> CaptureStart(s, j).None?
    decreases |s| - i
  {
    if i == |s| || CaptureStart(s, i).Some? then i else FirstPrepositionMatch(s, i + 1)
  }

  /** The captured word of the leftmost match, if the pattern matches. */
  function PrepositionWord(s: String): (r: Option<String>)
    ensures r.Some? ==> r.value != [] && forall m :: 0 <= m < |r.value| ==> IsWordChar(r.value[m])
  {
    var p := FirstPrepositionMatch(s, 0);
    if p < |s| then
      var c := CaptureStart(s, p).value;
      Some(s[c..WordRunEnd(s, c)])
    else None
  }

  // ---------------------------------------------------------------------
  // the target word and its index
  // ---------------------------------------------------------------------

  /** The target word: the quoted passage, lowercased, if there is one;
      otherwise the word after the preposition in the lowercased feedback. */
  function TargetWord(feedback: String): Option<String> {
    match QuotedPassage(feedback)
    case Some(q) => Some(ToLower(q))
    case None => PrepositionWord(ToLower(feedback))
  }

  predicate IsPunct(c: char) {
    c == '.' || c == ',' || c == '!' || c == '?' || c == ';' || c == ':'
  }

  /** `w.replace(/[.,!?;:]/g, '')` */
  function RemovePunct(w: String): (r: String)
    ensures |r| <= |w|
    ensures forall m :: 0 <= m < |r| ==> !IsPunct(r[m])
    decreases |w|
  {
    if w == [] then []
    else (if IsPunct(w[0]) then [] else [w[0]]) + RemovePunct(w[1..])
  }

  /** The words of the sacred text as they are compared: the pieces of
      `split(/\s+/)` of the text with its tags removed and trimmed, each
      lowercased and without punctuation. */
  function ComparedWords(sacredText: String): (ws: seq<String>)
    ensures |ws| == |SplitWs(Trim(TagMarkup.StripTags(sacredText)))|
  {
    var words := SplitWs(Trim(TagMarkup.StripTags(sacredText)));
    seq(|words|, k requires 0 <= k < |words| => RemovePunct(ToLower(words[k])))
  }

  /** The word matches the target when either includes the other. */
  predicate Matches(w: String, target: String) {
    Contains(w, target) || Contains(target, w)
  }

  /** `findIndex`: the first index at or after `i` whose word matches, or `|ws|`. */
  function FindIndex(ws: seq<String>, target: String, i: nat): (k: nat)
    requires i <= |ws|
    ensures i <= k <= |ws|
    ensures k < |ws| ==> Matches(ws[k], target)
    ensures forall j :: i <= j < k ==> !Matches(ws[j], target)
    decreases |ws| - i
  {
    if i == |ws| || Matches(ws[i], target) then i else FindIndex(ws, target, i + 1)
  }

  /** `targetIndex`, with -1 as `None`. */
  function TargetIndex(sacredText: String, feedback: String): Option<nat> {
    match TargetWord(feedback)
    case None => None
    case Some(t) =>
      var ws := ComparedWords(sacredText);
      var k := FindIndex(ws, t, 0);
      if k < |ws| then Some(k) else None
  }

  // ---------------------------------------------------------------------

  lemma ContainsEmpty(s: String)
    ensures Contains(s, [])
  {
  }

  /** The index found is that of the first compared word that includes the
      target or is included in it; there is none exactly when no word does. */
  lemma TargetIndexSpec(sacredText: String, feedback: String)
    ensures TargetWord(feedback).None? ==> TargetIndex(sacredText, feedback).None?
    ensures TargetWord(feedback).Some? ==>
      var t := TargetWord(feedback).value;
      var ws := ComparedWords(sacredText);
      match TargetIndex(sacredText, feedback)
      case Some(k) => k < |ws| && Matches(ws[k], t) && forall j :: 0 <= j < k ==> !Matches(ws[j], t)
      case None => forall j :: 0 <= j < |ws| ==> !Matches(ws[j], t)
  {
  }

  /** A quoted passage takes precedence over any preposition. */
  lemma QuoteFirst(feedback: String)
    requires QuotedPassage(feedback).Some?
    ensures TargetWord(feedback) == Some(ToLower(QuotedPassage(feedback).value))
  {
  }

  /** A sacred text that is nothing but tags and spaces leaves one empty
      word to compare, and the empty word is included in every target: any
      target at all resolves to index 0. */
  lemma TagsOnlyTextMatchesAnything(sacredText: String, feedback: String)
    requires Trim(TagMarkup.StripTags(sacredText)) == []
    requires TargetWord(feedback).Some?
    ensures TargetIndex(sacredText, feedback) == Some(0)
  {
    var ws := ComparedWords(sacredText);
    assert SplitWs([]) == [[]];
    assert ws[0] == RemovePunct(ToLower([]));
    ContainsEmpty(TargetWord(feedback).value);
  }

  /** A preposition occurring at `i` is the one the pattern reads there. */
  lemma PrepositionAtOf(s: String, i: nat, kw: String)
    requires kw in Prepositions && OccursAt(s, kw, i)
    ensures PrepositionAt(s, i) == Some(kw)
  {
    assert s[i] == s[i..i + |kw|][0] == kw[0];
    assert s[i + 1] == s[i..i + |kw|][1] == kw[1];
    if kw != "at" {
      NotOccursAt(s, "at", i, if kw == "around" then 1 else 0);
    }
    if kw == "near" || kw == "around" {
      NotOccursAt(s, "before", i, 0);
    }
    if kw == "around" {
      NotOccursAt(s, "near", i, 0);
    }
  }

  /** The pattern matches at `i` when a preposition there is followed by a
      space and a word character, and the capture starts at that character. */
  lemma CaptureAfterPreposition(s: String, i: nat, kw: String)
    requires kw in Prepositions && OccursAt(s, kw, i)
    requires i + |kw| + 1 < |s| && s[i + |kw|] == ' ' && IsWordChar(s[i + |kw| + 1])
    ensures CaptureStart(s, i) == Some(i + |kw| + 1)
  {
    PrepositionAtOf(s, i, kw);
    assert SpaceRunEnd(s, i + |kw| + 1) == i + |kw| + 1;
  }

  /** `kw` does not occur at `i` when the `d`-th characters differ. */
  lemma NotOccursAt(s: String, kw: String, i: nat, d: nat)
    requires d < |kw| && i + d < |s| && s[i + d] != kw[d]
    ensures !OccursAt(s, kw, i)
  {
    if i + |kw| <= |s| {
      assert s[i..i + |kw|][d] == s[i + d];
    }
  }

  /** No preposition starts at `i` when the character there begins none. */
  lemma NoPrepositionAt(s: String, i: nat)
    requires i < |s| && s[i] != 'a' && s[i] != 'b' && s[i] != 'n'
    ensures CaptureStart(s, i).None?
  {
    NotOccursAt(s, "at", i, 0);
    NotOccursAt(s, "before", i, 0);
    NotOccursAt(s, "near", i, 0);
    NotOccursAt(s, "around", i, 0);
  }

  /** No match comes before `i` when no `a`, `b` or `n` does. */
  lemma NoPrepositionBefore(s: String, i: nat)
    requires i <= |s|
    requires forall j :: 0 <= j < i ==> s[j] != 'a' && s[j] != 'b' && s[j] != 'n'
    ensures forall j :: 0 <= j < i ==> CaptureStart(s, j).None?
  {
    forall j | 0 <= j < i ensures CaptureStart(s, j).None? {
      NoPrepositionAt(s, j);
    }
  }

  lemma ToLowerUnchanged(s: String)
    requires forall m :: 0 <= m < |s| ==> LowerChar(s[m]) == s[m]
    ensures ToLower(s) == s
  {
  }

  /** The leftmost match is the first preposition followed by a space and
      a word character, when no `a`, `b` or `n` comes before it. */
  lemma FirstPrepositionWord(s: String, i: nat, kw: String, e: nat)
    requires kw in Prepositions && OccursAt(s, kw, i)
    requires forall j :: 0 <= j < i ==> s[j] != 'a' && s[j] != 'b' && s[j] != 'n'
    requires i + |kw| + 1 < e <= |s| && s[i + |kw|] == ' '
    requires forall m :: i + |kw| + 1 <= m < e ==> IsWordChar(s[m])
    requires e == |s| || !IsWordChar(s[e])
    ensures PrepositionWord(s) == Some(s[i + |kw| + 1..e])
  {
    NoPrepositionBefore(s, i);
    CaptureAfterPreposition(s, i, kw);
    var p := FirstPrepositionMatch(s, 0);
    assert p == i;
    WordRunEndOf(s, i + |kw| + 1, e);
  }

  lemma {:induction false} WordRunEndOf(s: String, k: nat, e: nat)
    requires k <= e <= |s|
    requires forall m :: k <= m < e ==> IsWordChar(s[m])
    requires e == |s| || !IsWordChar(s[e])
    ensures WordRunEnd(s, k) == e
    decreases e - k
  {
    if k < e {
      WordRunEndOf(s, k + 1, e);
    }
  }

  /** Without quotes the quoted-passage pattern matches nowhere. */
  lemma {:induction false} NoQuoteNoMatch(s: String, i: nat)
    requires i <= |s|
    requires forall m :: i <= m < |s| ==> !IsQuote(s[m])
    ensures FirstQuoteMatch(s, i) == |s|
    decreases |s| - i
  {
    if i < |s| {
      NoQuoteNoMatch(s, i + 1);
    }
  }

  lemma WhisperCharacters(f: String)
    requires f == "whisper at the end"
    ensures forall m :: 0 <= m < |f| ==> !IsQuote(f[m]) && LowerChar(f[m]) == f[m]
    ensures forall j :: 0 <= j < 8 ==> f[j] != 'a' && f[j] != 'b' && f[j] != 'n'
  {
  }

  lemma WhisperPreposition(f: String)
    requires f == "whisper at the end"
    ensures |f| == 18 && OccursAt(f, "at", 8) && f[10] == ' '
    ensures forall m :: 11 <= m < 14 ==> IsWordChar(f[m])
    ensures !IsWordChar(f[14]) && f[11..14] == "the"
  {
    assert f[8..10] == "at";
  }

  lemma WhisperEndWord(f: String)
    requires f == "whisper at the end"
    ensures OccursAt(f, "end", 15)
  {
    assert f[15..18] == "end";
  }

  /** "whisper at the end" points at the word "the": the preposition needs
      no word boundary before it and no particular word after it. */
  lemma WhisperAtTheEnd(f: String)
    requires f == "whisper at the end"
    ensures TargetWord(f) == Some("the")
  {
    WhisperCharacters(f);
    WhisperPreposition(f);
    NoQuoteNoMatch(f, 0);
    ToLowerUnchanged(f);
    FirstPrepositionWord(f, 8, "at", 14);
  }
}
