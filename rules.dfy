/** The rule-based feedback interpreter: it picks a tag from the keyword
    table, decides where the tag goes (before a word of the text, near the
    end, or at the front), inserts one tag token there and collapses the
    whitespace of the result. */
module Rules {
  import opened JsString
  import opened TagTable
  import opened Targets

  /** The text the tag goes into: the current markup, or the sacred text
      while there is no markup (`currentMarkup || sacredText`). */
  function Base(sacredText: String, currentMarkup: String): String {
    if currentMarkup != [] then currentMarkup else sacredText
  }

  /** A token of the markup that the word count skips: `startsWith('[')`. */
  predicate IsTagToken(w: String) {
    StartsWith(w, "[")
  }

  /** The number of tokens that do not start with `[`. */
  function PlainCount(ts: seq<String>): nat
    decreases |ts|
  {
    if ts == [] then 0 else (if IsTagToken(ts[0]) then 0 else 1) + PlainCount(ts[1..])
  }

  function Shift(p: Option<nat>): Option<nat> {
    match p
    case None => None
    case Some(i) => Some(i + 1)
  }

  /** The index of the `k`-th token, counting from 0, among those that do
      not start with `[`; `None` when there are not that many. */
  function PlainPosition(ts: seq<String>, k: nat): (p: Option<nat>)
    ensures p.Some? ==> p.value < |ts| && !IsTagToken(ts[p.value]) && PlainCount(ts[..p.value]) == k
    ensures p.None? ==> PlainCount(ts) <= k
    decreases |ts|
  {
    if ts == [] then None
    else
      var r := if IsTagToken(ts[0]) then Shift(PlainPosition(ts[1..], k))
        else if k == 0 then Some(0)
        else Shift(PlainPosition(ts[1..], k - 1));
      assert r.Some? && r.value > 0 ==> ts[..r.value][1..] == ts[1..][..r.value - 1];
      r
  }

  /** Where the word loop leaves `insertPosition`: at the `k`-th plain
      token, or 0 when there is none. */
  function InsertPosition(ts: seq<String>, k: nat): nat {
    match PlainPosition(ts, k)
    case Some(i) => i
    case None => 0
  }

  /** Where the tag goes. */
  datatype Placement = BeforeToken(k: nat) | AtEnd | AtFront

  /** The feedback asks for the end: `end`, `ending` or `last`. */
  predicate WantsEnd(feedbackLower: String) {
    Contains(feedbackLower, "end") || Contains(feedbackLower, "ending") || Contains(feedbackLower, "last")
  }

  /** The feedback asks for the beginning (`beginning`, `start`, `first`)
      or for the whole text (`throughout`, `whole`, `entire`, `all`). */
  predicate WantsFront(feedbackLower: String) {
    Contains(feedbackLower, "beginning") || Contains(feedbackLower, "start") || Contains(feedbackLower, "first")
    || Contains(feedbackLower, "throughout") || Contains(feedbackLower, "whole")
    || Contains(feedbackLower, "entire") || Contains(feedbackLower, "all")
  }

  /** A target word found in the text decides first; then a request for
      the end; everything else, a request for the front included, goes to
      the front. */
  function ChoosePlacement(sacredText: String, feedback: String): Placement {
    match TargetIndex(sacredText, feedback)
    case Some(k) => BeforeToken(k)
    case None => if WantsEnd(ToLower(feedback)) then AtEnd else AtFront
  }

  /** `Math.max(0, n - 3)` */
  function EndPosition(n: nat): nat {
    if n >= 3 then n - 3 else 0
  }

  function PlaceBefore(base: String, tag: String, k: nat): String {
    var ts := SplitWs(base);
    Join(Splice(ts, InsertPosition(ts, k), tag), " ")
  }

  function PlaceAtEnd(base: String, tag: String): String {
    var sentences := SplitSentences(base);
    var n := |sentences|;
    if n > 1 then Join(sentences[n - 1 := tag + " " + sentences[n - 1]], " ")
    else
      var ts := SplitWs(base);
      Join(Splice(ts, EndPosition(|ts|), tag), " ")
  }

  function PlaceAtFront(base: String, tag: String): String {
    if StartsWith(base, tag) then base else tag + " " + base
  }

  /** The markup before its whitespace is collapsed. */
  function Place(base: String, tag: String, placement: Placement): String {
    match placement
    case BeforeToken(k) => PlaceBefore(base, tag, k)
    case AtEnd => PlaceAtEnd(base, tag)
    case AtFront => PlaceAtFront(base, tag)
  }

  /** What the interpreter returns. */
  function RulesMarkup(sacredText: String, feedback: String, currentMarkup: String): String {
    Normalize(Place(Base(sacredText, currentMarkup), TagToken(ChooseTag(feedback)),
                    ChoosePlacement(sacredText, feedback)))
  }

  // ---------------------------------------------------------------------
  // the interpreter
  // ---------------------------------------------------------------------

  /** `interpretWithRules(sacredText, feedback, currentMarkup)` */
  method InterpretWithRules(sacredText: String, feedback: String, currentMarkup: String)
    returns (result: String)
    ensures result == RulesMarkup(sacredText, feedback, currentMarkup)
  {
    result := if currentMarkup != [] then currentMarkup else sacredText;
    ghost var base := result;
    var feedbackLower := ToLower(feedback);

    var name := SelectTag(feedbackLower);
    var tag := "[" + name + "]";
    assert tag == TagToken(ChooseTag(feedback));

    var atBeginning := Contains(feedbackLower, "beginning") || Contains(feedbackLower, "start")
      || Contains(feedbackLower, "first");
    var atEnd := Contains(feedbackLower, "end") || Contains(feedbackLower, "ending")
      || Contains(feedbackLower, "last");
    var throughout := Contains(feedbackLower, "throughout") || Contains(feedbackLower, "whole")
      || Contains(feedbackLower, "entire") || Contains(feedbackLower, "all");

    var targetIndex := TargetIndex(sacredText, feedback);
    ghost var placement := ChoosePlacement(sacredText, feedback);

    if targetIndex.Some? {
      var k := targetIndex.value;
      assert placement == BeforeToken(k);
      var resultWords := SplitWs(result);
      var insertPosition := FindInsertPosition(resultWords, k);
      resultWords := resultWords[..insertPosition] + [tag] + resultWords[insertPosition..];
      result := Join(resultWords, " ");
      assert result == PlaceBefore(base, tag, k);
    } else if atEnd {
      assert placement == AtEnd;
      var sentences := SplitSentences(result);
      var n := |sentences|;
      if n > 1 {
        sentences := sentences[n - 1 := tag + " " + sentences[n - 1]];
        result := Join(sentences, " ");
      } else {
        var resultWords := SplitWs(result);
        var insertPos := if |resultWords| - 3 > 0 then |resultWords| - 3 else 0;
        resultWords := resultWords[..insertPos] + [tag] + resultWords[insertPos..];
        result := Join(resultWords, " ");
      }
      assert result == PlaceAtEnd(base, tag);
    } else if atBeginning || throughout {
      assert placement == AtFront;
      if !StartsWith(result, tag) {
        result := tag + " " + result;
      }
      assert result == PlaceAtFront(base, tag);
    } else {
      // no position asked for: the front as well
      assert placement == AtFront;
      if !StartsWith(result, tag) {
        result := tag + " " + result;
      }
      assert result == PlaceAtFront(base, tag);
    }
    assert result == Place(base, tag, placement);

    result := Normalize(result);
  }

  /** The tag loop: the first table entry one of whose keywords the
      lowercased feedback includes, else the default. */
  method SelectTag(feedbackLower: String) returns (name: String)
    ensures name == ChooseTagLower(feedbackLower)
  {
    var tagToApply: Option<String> := None;
    var row := 0;
    while row < |TableTags|
      invariant row <= |TableTags|
      invariant tagToApply == None
      invariant forall j :: 0 <= j < row ==> !RowMatches(feedbackLower, j)
    {
      if RowMatches(feedbackLower, row) {
        tagToApply := Some(TableTags[row]);
        break;
      }
      row := row + 1;
    }
    name := if tagToApply.Some? then tagToApply.value else DefaultTag;
    FirstMatchingRowIs(feedbackLower, row);
  }

  /** The word loop: the index of the `k`-th token that does not start
      with `[`, or 0 when there are fewer such tokens. */
  method FindInsertPosition(resultWords: seq<String>, k: nat) returns (insertPosition: nat)
    ensures insertPosition == InsertPosition(resultWords, k)
    ensures insertPosition <= |resultWords|
  {
    var wordCount := 0;
    insertPosition := 0;
    var i := 0;
    while i < |resultWords|
      invariant i <= |resultWords|
      invariant wordCount == PlainCount(resultWords[..i]) && wordCount <= k
      invariant insertPosition == 0
    {
      PlainCountSnoc(resultWords, i);
      if !IsTagToken(resultWords[i]) {
        if wordCount == k {
          insertPosition := i;
          break;
        }
        wordCount := wordCount + 1;
      }
      i := i + 1;
    }
    if i < |resultWords| {
      PlainPositionAt(resultWords, k, i);
    } else {
      assert resultWords[..i] == resultWords;
      PlainPositionNone(resultWords, k);
    }
  }

  // ---------------------------------------------------------------------
  // counting plain tokens
  // ---------------------------------------------------------------------

  lemma {:induction false} PlainCountAppend(a: seq<String>, b: seq<String>)
    ensures PlainCount(a + b) == PlainCount(a) + PlainCount(b)
    decreases |a|
  {
    if a == [] {
      assert a + b == b;
    } else {
      assert (a + b)[1..] == a[1..] + b;
      PlainCountAppend(a[1..], b);
    }
  }

  lemma PlainCountSnoc(ts: seq<String>, i: nat)
    requires i < |ts|
    ensures PlainCount(ts[..i + 1]) == PlainCount(ts[..i]) + (if IsTagToken(ts[i]) then 0 else 1)
  {
    assert ts[..i + 1] == ts[..i] + [ts[i]];
    PlainCountAppend(ts[..i], [ts[i]]);
  }

  /** The token at `i` is the `k`-th plain token when it is plain and `k`
      plain tokens come before it. */
  lemma {:induction false} PlainPositionAt(ts: seq<String>, k: nat, i: nat)
    requires i < |ts| && !IsTagToken(ts[i]) && PlainCount(ts[..i]) == k
    ensures PlainPosition(ts, k) == Some(i)
    decreases i
  {
    if i > 0 {
      assert ts[..i][1..] == ts[1..][..i - 1];
      if IsTagToken(ts[0]) {
        PlainPositionAt(ts[1..], k, i - 1);
      } else {
        PlainPositionAt(ts[1..], k - 1, i - 1);
      }
    }
  }

  /** There is no `k`-th plain token when at most `k` tokens are plain. */
  lemma {:induction false} PlainPositionNone(ts: seq<String>, k: nat)
    requires PlainCount(ts) <= k
    ensures PlainPosition(ts, k) == None
    decreases |ts|
  {
    if ts != [] {
      if IsTagToken(ts[0]) {
        PlainPositionNone(ts[1..], k);
      } else {
        PlainPositionNone(ts[1..], k - 1);
      }
    }
  }

  // ---------------------------------------------------------------------
  // the words of the result
  // ---------------------------------------------------------------------

  /** One word: not empty, and free of spaces. */
  predicate IsWord(t: String) {
    t != [] && NoSpace(t)
  }

  /** `out` is the list `w` with `t` put in at one place. */
  predicate InsertedOnce(out: seq<String>, w: seq<String>, t: String) {
    exists j :: 0 <= j <= |w| && out == w[..j] + [t] + w[j..]
  }

  /** The tag token is one word, and it starts with `[`. */
  lemma TagIsWord(feedback: String)
    ensures IsWord(TagToken(ChooseTag(feedback))) && IsTagToken(TagToken(ChooseTag(feedback)))
  {
    var name := ChooseTag(feedback);
    ChooseTagInTable(feedback);
    TableTagsAreWords();
    var k :| 0 <= k < |TableTags| && TableTags[k] == name;
    assert NoSpace(name);
    TagTokenIsWord(name);
  }

  /** The words of `t + ' ' + x` for a word `t`. */
  lemma SpacedWords(t: String, x: String)
    requires IsWord(t)
    ensures Words(t + " " + x) == [t] + Words(x)
  {
    assert t + " " + x == t + [' '] + x;
    WordsConcatSpace(t, ' ', x);
    WordsOfWord(t);
  }

  /** Putting the word in front of the last sentence puts it between the
      words of the other sentences and those of the last one. */
  lemma LastSentenceWords(base: String, t: String, ss: seq<String>)
    requires IsWord(t) && ss == SplitSentences(base) && |ss| > 1
    ensures Words(Join(ss[|ss| - 1 := t + " " + ss[|ss| - 1]], " "))
      == FlatWords(ss[..|ss| - 1]) + [t] + Words(ss[|ss| - 1])
    ensures Words(base) == FlatWords(ss[..|ss| - 1]) + Words(ss[|ss| - 1])
  {
    LastPieceWords(ss, t);
    SentencesKeepWords(false, base);
  }

  /** Putting the word in front of the last of the pieces puts it between
      the words of the others and those of the last. */
  lemma LastPieceWords(ps: seq<String>, t: String)
    requires IsWord(t) && |ps| > 1
    ensures Words(Join(ps[|ps| - 1 := t + " " + ps[|ps| - 1]], " "))
      == FlatWords(ps[..|ps| - 1]) + [t] + Words(ps[|ps| - 1])
    ensures FlatWords(ps) == FlatWords(ps[..|ps| - 1]) + Words(ps[|ps| - 1])
  {
    var n := |ps|;
    var x := t + " " + ps[n - 1];
    var a, b := FlatWords(ps[..n - 1]), Words(ps[n - 1]);
    UpdateLast(ps, x);
    UpdateLast(ps, ps[n - 1]);
    SameUpdate(ps, n - 1);
    FlatWordsSnoc(ps[..n - 1], x);
    FlatWordsSnoc(ps[..n - 1], ps[n - 1]);
    WordsJoinPieces(ps[n - 1 := x]);
    SpacedWords(t, ps[n - 1]);
    AppendAssoc(a, [t], b);
  }

  lemma SameUpdate(ps: seq<String>, i: nat)
    requires i < |ps|
    ensures ps[i := ps[i]] == ps
  {
  }

  /** Replacing the last element is dropping it and adding the new one. */
  lemma UpdateLast(ps: seq<String>, x: String)
    requires ps != []
    ensures ps[|ps| - 1 := x] == ps[..|ps| - 1] + [x]
  {
  }

  /** The words of pieces with one more at the end. */
  lemma FlatWordsSnoc(ps: seq<String>, x: String)
    ensures FlatWords(ps + [x]) == FlatWords(ps) + Words(x)
  {
    FlatWordsConcat(ps, [x]);
    assert FlatWords([x]) == Words(x) + FlatWords([]);
  }

  lemma InsertedAt(a: seq<String>, b: seq<String>, w: seq<String>, t: String)
    requires w == a + b
    ensures InsertedOnce(a + [t] + b, w, t)
  {
    assert w[..|a|] == a && w[|a|..] == b;
  }

  /** Before collapsing, the markup is the base unchanged when the base
      already starts with the tag and the tag goes to the front; otherwise
      its words are those of the base with the tag put in at one place. */
  lemma PlaceWords(base: String, t: String, placement: Placement)
    requires IsWord(t)
    ensures placement == AtFront && StartsWith(base, t) ==> Place(base, t, placement) == base
    ensures !(placement == AtFront && StartsWith(base, t)) ==>
      InsertedOnce(Words(Place(base, t, placement)), Words(base), t)
  {
    var ts := SplitWs(base);
    SplitWsPieces(base);
    SplitWsWords(base);
    match placement
    case BeforeToken(k) =>
      var p := InsertPosition(ts, k);
      SpliceWords(ts, p, t);
      InsertedAt(NonEmpty(ts[..p]), NonEmpty(ts[p..]), Words(base), t);
    case AtEnd =>
      var ss := SplitSentences(base);
      if |ss| > 1 {
        LastSentenceWords(base, t, ss);
        InsertedAt(FlatWords(ss[..|ss| - 1]), Words(ss[|ss| - 1]), Words(base), t);
      } else {
        var q := EndPosition(|ts|);
        SpliceWords(ts, q, t);
        InsertedAt(NonEmpty(ts[..q]), NonEmpty(ts[q..]), Words(base), t);
      }
    case AtFront =>
      if !StartsWith(base, t) {
        SpacedWords(t, base);
        InsertedAt([], Words(base), Words(base), t);
      }
  }

  /** The collapsed text is its words joined by single spaces, and has the
      words of the text collapsed. */
  lemma NormalForm(x: String)
    ensures Normalize(x) == Join(Words(Normalize(x)), " ")
    ensures Words(Normalize(x)) == Words(x)
  {
    NormalizeIsJoinedWords(x);
    NormalizeWords(x);
  }

  /** Word preservation: the result is a sequence of words separated by
      single spaces; those words are the words of the base with the tag put
      in at exactly one place, except when the tag goes to the front and
      the base already starts with it, where the words are the base's own. */
  lemma RulesKeepWords(sacredText: String, feedback: String, currentMarkup: String)
    ensures RulesMarkup(sacredText, feedback, currentMarkup)
      == Join(Words(RulesMarkup(sacredText, feedback, currentMarkup)), " ")
    ensures Words(RulesMarkup(sacredText, feedback, currentMarkup)) == Words(Base(sacredText, currentMarkup))
      <==> ChoosePlacement(sacredText, feedback) == AtFront
           && StartsWith(Base(sacredText, currentMarkup), TagToken(ChooseTag(feedback)))
    ensures Words(RulesMarkup(sacredText, feedback, currentMarkup)) != Words(Base(sacredText, currentMarkup)) ==>
      InsertedOnce(Words(RulesMarkup(sacredText, feedback, currentMarkup)),
                   Words(Base(sacredText, currentMarkup)), TagToken(ChooseTag(feedback)))
  {
    var base := Base(sacredText, currentMarkup);
    var t := TagToken(ChooseTag(feedback));
    var pl := ChoosePlacement(sacredText, feedback);
    var placed := Place(base, t, pl);
    TagIsWord(feedback);
    PlaceWords(base, t, pl);
    NormalForm(placed);
    if !(pl == AtFront && StartsWith(base, t)) {
      var w := Words(base);
      var j :| 0 <= j <= |w| && Words(placed) == w[..j] + [t] + w[j..];
      assert |Words(placed)| == |w| + 1;
    }
  }

  /** Taking the put-in word out again gives the list back. */
  lemma RemoveInserted(o: seq<String>, w: seq<String>, t: String)
    requires InsertedOnce(o, w, t)
    ensures exists j :: 0 <= j < |o| && o[j] == t && o[..j] + o[j + 1..] == w
  {
    var j :| 0 <= j <= |w| && o == w[..j] + [t] + w[j..];
    assert o[j] == t;
    assert o[..j] + o[j + 1..] == w;
  }

  /** Deleting the inserted tag token from the result gives the base with
      its whitespace collapsed; when nothing was inserted the result is
      that collapsed base. */
  lemma RemovingTagGivesNormalizedBase(sacredText: String, feedback: String, currentMarkup: String)
    ensures RulesMarkup(sacredText, feedback, currentMarkup) == Normalize(Base(sacredText, currentMarkup))
      || exists j :: 0 <= j < |Words(RulesMarkup(sacredText, feedback, currentMarkup))|
           && Words(RulesMarkup(sacredText, feedback, currentMarkup))[j] == TagToken(ChooseTag(feedback))
           && Join(Words(RulesMarkup(sacredText, feedback, currentMarkup))[..j]
                   + Words(RulesMarkup(sacredText, feedback, currentMarkup))[j + 1..], " ")
              == Normalize(Base(sacredText, currentMarkup))
  {
    var base := Base(sacredText, currentMarkup);
    var t := TagToken(ChooseTag(feedback));
    var pl := ChoosePlacement(sacredText, feedback);
    var out := RulesMarkup(sacredText, feedback, currentMarkup);
    var o := Words(out);
    var w := Words(base);
    TagIsWord(feedback);
    PlaceWords(base, t, pl);
    NormalForm(Place(base, t, pl));
    NormalizeIsJoinedWords(base);
    if !(pl == AtFront && StartsWith(base, t)) {
      RemoveInserted(o, w, t);
      var j :| 0 <= j < |o| && o[j] == t && o[..j] + o[j + 1..] == w;
      assert Join(o[..j] + o[j + 1..], " ") == Normalize(base);
    }
  }

  // ---------------------------------------------------------------------
  // where the tag goes
  // ---------------------------------------------------------------------

  /** A text with no space at either edge, like every text the rules or
      the language model return. */
  predicate Trimmed(s: String) {
    s != [] && !IsSpace(s[0]) && !IsSpace(s[|s| - 1])
  }

  /** The tokens of a trimmed text are its words. */
  lemma TrimmedTokens(s: String, ts: seq<String>, p: nat)
    requires Trimmed(s) && ts == SplitWs(s) && p <= |ts|
    ensures ts == Words(s) && NonEmpty(ts[..p]) == ts[..p] && NonEmpty(ts[p..]) == ts[p..]
  {
    SplitWsTrimmed(s);
    WordsShape(s);
    NonEmptyAll(ts[..p]);
    NonEmptyAll(ts[p..]);
  }

  /** Target branch: when a word of the sacred text matches the target,
      the tag goes before the `k`-th token of the base that does not start
      with `[` (at the front when there are fewer), whatever the feedback
      says about the end or the beginning. In a trimmed base the tokens
      are the words. */
  lemma TargetBranch(sacredText: String, feedback: String, currentMarkup: String, k: nat, ts: seq<String>, p: nat)
    requires TargetIndex(sacredText, feedback) == Some(k)
    requires ts == SplitWs(Base(sacredText, currentMarkup)) && p == InsertPosition(ts, k)
    ensures p <= |ts|
    ensures (p < |ts| && !IsTagToken(ts[p]) && PlainCount(ts[..p]) == k) || (p == 0 && PlainCount(ts) <= k)
    ensures Words(RulesMarkup(sacredText, feedback, currentMarkup))
      == NonEmpty(ts[..p]) + [TagToken(ChooseTag(feedback))] + NonEmpty(ts[p..])
    ensures Trimmed(Base(sacredText, currentMarkup)) ==>
      (ts == Words(Base(sacredText, currentMarkup))
       && Words(RulesMarkup(sacredText, feedback, currentMarkup)) == ts[..p] + [TagToken(ChooseTag(feedback))] + ts[p..])
  {
    var base := Base(sacredText, currentMarkup);
    var t := TagToken(ChooseTag(feedback));
    TagIsWord(feedback);
    assert RulesMarkup(sacredText, feedback, currentMarkup) == Normalize(PlaceBefore(base, t, k));
    BeforeWords(base, t, k, ts, p);
  }

  /** The words of the collapsed text with `t` put before the `k`-th
      plain token. */
  lemma BeforeWords(base: String, t: String, k: nat, ts: seq<String>, p: nat)
    requires IsWord(t) && ts == SplitWs(base) && p == InsertPosition(ts, k)
    ensures p <= |ts|
    ensures (p < |ts| && !IsTagToken(ts[p]) && PlainCount(ts[..p]) == k) || (p == 0 && PlainCount(ts) <= k)
    ensures Words(Normalize(PlaceBefore(base, t, k))) == NonEmpty(ts[..p]) + [t] + NonEmpty(ts[p..])
    ensures Trimmed(base) ==> ts == Words(base) && Words(Normalize(PlaceBefore(base, t, k))) == ts[..p] + [t] + ts[p..]
  {
    SplitWsPieces(base);
    SpliceWords(ts, p, t);
    NormalForm(PlaceBefore(base, t, k));
    if Trimmed(base) {
      TrimmedTokens(base, ts, p);
    }
  }

  /** End branch: without a target, feedback that says `end`, `ending` or
      `last` puts the tag in front of the last sentence when the base has
      more than one; otherwise before the token three from the end (at the
      front when there are fewer than three). */
  lemma EndBranch(sacredText: String, feedback: String, currentMarkup: String, ss: seq<String>, ts: seq<String>)
    requires TargetIndex(sacredText, feedback).None? && WantsEnd(ToLower(feedback))
    requires ss == SplitSentences(Base(sacredText, currentMarkup)) && ts == SplitWs(Base(sacredText, currentMarkup))
    ensures |ss| > 1 ==>
      Words(RulesMarkup(sacredText, feedback, currentMarkup))
        == FlatWords(ss[..|ss| - 1]) + [TagToken(ChooseTag(feedback))] + Words(ss[|ss| - 1])
      && Words(Base(sacredText, currentMarkup)) == FlatWords(ss[..|ss| - 1]) + Words(ss[|ss| - 1])
    ensures |ss| <= 1 ==>
      Words(RulesMarkup(sacredText, feedback, currentMarkup))
        == NonEmpty(ts[..EndPosition(|ts|)]) + [TagToken(ChooseTag(feedback))] + NonEmpty(ts[EndPosition(|ts|)..])
    ensures |ss| <= 1 && Trimmed(Base(sacredText, currentMarkup)) ==>
      var w := Words(Base(sacredText, currentMarkup));
      Words(RulesMarkup(sacredText, feedback, currentMarkup))
        == w[..EndPosition(|w|)] + [TagToken(ChooseTag(feedback))] + w[EndPosition(|w|)..]
  {
    var base := Base(sacredText, currentMarkup);
    var t := TagToken(ChooseTag(feedback));
    TagIsWord(feedback);
    assert RulesMarkup(sacredText, feedback, currentMarkup) == Normalize(PlaceAtEnd(base, t));
    EndWords(base, t, ss, ts);
  }

  /** The words of the collapsed text with `t` put near the end. */
  lemma EndWords(base: String, t: String, ss: seq<String>, ts: seq<String>)
    requires IsWord(t) && ss == SplitSentences(base) && ts == SplitWs(base)
    ensures |ss| > 1 ==>
      Words(Normalize(PlaceAtEnd(base, t))) == FlatWords(ss[..|ss| - 1]) + [t] + Words(ss[|ss| - 1])
      && Words(base) == FlatWords(ss[..|ss| - 1]) + Words(ss[|ss| - 1])
    ensures |ss| <= 1 ==>
      Words(Normalize(PlaceAtEnd(base, t))) == NonEmpty(ts[..EndPosition(|ts|)]) + [t] + NonEmpty(ts[EndPosition(|ts|)..])
    ensures |ss| <= 1 && Trimmed(base) ==>
      var w := Words(base);
      Words(Normalize(PlaceAtEnd(base, t))) == w[..EndPosition(|w|)] + [t] + w[EndPosition(|w|)..]
  {
    NormalForm(PlaceAtEnd(base, t));
    if |ss| > 1 {
      LastSentenceWords(base, t, ss);
    } else {
      var q := EndPosition(|ts|);
      SplitWsPieces(base);
      SpliceWords(ts, q, t);
      if Trimmed(base) {
        TrimmedTokens(base, ts, q);
      }
    }
  }

  /** Front branch: the result starts with the tag; it is the collapsed
      base when the base already starts with the tag, and otherwise its
      words are the tag followed by the words of the base. */
  lemma FrontBranch(sacredText: String, feedback: String, currentMarkup: String)
    requires ChoosePlacement(sacredText, feedback) == AtFront
    ensures StartsWith(RulesMarkup(sacredText, feedback, currentMarkup), TagToken(ChooseTag(feedback)))
    ensures StartsWith(Base(sacredText, currentMarkup), TagToken(ChooseTag(feedback))) ==>
      RulesMarkup(sacredText, feedback, currentMarkup) == Normalize(Base(sacredText, currentMarkup))
    ensures !StartsWith(Base(sacredText, currentMarkup), TagToken(ChooseTag(feedback))) ==>
      Words(RulesMarkup(sacredText, feedback, currentMarkup))
        == [TagToken(ChooseTag(feedback))] + Words(Base(sacredText, currentMarkup))
  {
    var base := Base(sacredText, currentMarkup);
    var t := TagToken(ChooseTag(feedback));
    TagIsWord(feedback);
    var placed := PlaceAtFront(base, t);
    if !StartsWith(base, t) {
      assert (t + " " + base)[..|t|] == t;
      SpacedWords(t, base);
      NormalForm(placed);
    }
    NormalizeKeepsPrefix(placed, t);
  }

  /** The same front-placed feedback given twice changes nothing the
      second time: the tag is not put in again. */
  lemma FrontIdempotent(sacredText: String, feedback: String, currentMarkup: String)
    requires ChoosePlacement(sacredText, feedback) == AtFront
    ensures RulesMarkup(sacredText, feedback, RulesMarkup(sacredText, feedback, currentMarkup))
      == RulesMarkup(sacredText, feedback, currentMarkup)
  {
    var t := TagToken(ChooseTag(feedback));
    var out := RulesMarkup(sacredText, feedback, currentMarkup);
    FrontBranch(sacredText, feedback, currentMarkup);
    TagIsWord(feedback);
    assert out != [];
    assert Base(sacredText, out) == out;
    assert PlaceAtFront(out, t) == out;
    NormalizeIdempotent(Place(Base(sacredText, currentMarkup), t, AtFront));
  }

  /** "whisper at the end" names the target word `the`, so it puts the tag
      before the first word of the sacred text that matches `the` although
      it also asks for the end; with no such word it goes to the end. */
  lemma WhisperAtTheEndPlacement(sacredText: String, feedback: String)
    requires feedback == "whisper at the end"
    ensures WantsEnd(ToLower(feedback))
    ensures var ws := ComparedWords(sacredText);
      ChoosePlacement(sacredText, feedback)
        == if FindIndex(ws, "the", 0) < |ws| then BeforeToken(FindIndex(ws, "the", 0)) else AtEnd
  {
    WhisperAtTheEnd(feedback);
    WhisperCharacters(feedback);
    ToLowerUnchanged(feedback);
    WhisperEndWord(feedback);
    ContainsAt(feedback, "end");
  }
}
