/** The performance tags and the keyword table that chooses one of them
    from a piece of feedback. */
module TagTable {
  import opened JsString

  /** Every tag the studio knows, in the order of its tag palette. */
  const EmotionTags: seq<String> := [
    "reverent", "joyful", "sorrowful", "urgent",
    "whisper", "pause", "slow", "fast", "emphasis",
    "peaceful", "awe", "warning", "gentle", "strong"]

  /** The tags the keyword table can choose, in table order. */
  const TableTags: seq<String> := [
    "reverent", "joyful", "sorrowful", "urgent", "whisper", "pause",
    "slow", "fast", "emphasis", "peaceful", "awe"]

  /** The keywords of each table entry, row for row with `TableTags`. */
  const TableKeywords: seq<seq<String>> := [
    ["reverent", "reverence", "respectful", "solemn", "holy", "sacred"],
    ["joyful", "happy", "excited", "celebration", "joy", "cheerful"],
    ["sorrowful", "sad", "grief", "lament", "mourning", "melancholy"],
    ["urgent", "pressing", "hurry", "important", "critical"],
    ["whisper", "soft", "quiet", "gentle voice", "softly"],
    ["pause", "stop", "break", "wait", "silence"],
    ["slow", "slower", "carefully", "deliberate", "drawn out"],
    ["fast", "faster", "quick", "rapid", "speed up"],
    ["emphasis", "stress", "highlight", "emphasize", "important"],
    ["peaceful", "calm", "serene", "tranquil", "restful"],
    ["awe", "wonder", "amazed", "marvel", "astonished"]]

  /** The tag used when no keyword matches. */
  const DefaultTag: String := "emphasis"

  /** `keywords.some(kw => text.includes(kw))` */
  predicate SomeIncluded(text: String, keywords: seq<String>)
    decreases |keywords|
  {
    |keywords| > 0 && (Contains(text, keywords[0]) || SomeIncluded(text, keywords[1..]))
  }

  lemma {:induction false} SomeIncludedAt(text: String, keywords: seq<String>)
    ensures SomeIncluded(text, keywords) <==> exists i :: 0 <= i < |keywords| && Contains(text, keywords[i])
    decreases |keywords|
  {
    if |keywords| > 0 {
      SomeIncludedAt(text, keywords[1..]);
      if SomeIncluded(text, keywords[1..]) {
        var i :| 0 <= i < |keywords[1..]| && Contains(text, keywords[1..][i]);
        assert Contains(text, keywords[i + 1]);
      }
      if exists i :: 0 <= i < |keywords| && Contains(text, keywords[i]) {
        var i :| 0 <= i < |keywords| && Contains(text, keywords[i]);
        if i > 0 {
          assert keywords[1..][i - 1] == keywords[i];
        }
      }
    }
  }

  /** Entry `k` of the table matches the lowercased feedback. */
  predicate RowMatches(feedbackLower: String, k: nat)
    requires k < |TableKeywords|
  {
    SomeIncluded(feedbackLower, TableKeywords[k])
  }

  /** The first table entry at or after `from` that matches, or the table
      size when none does. */
  function FirstMatchingRow(feedbackLower: String, from: nat): (k: nat)
    requires from <= |TableKeywords|
    ensures from <= k <= |TableKeywords|
    ensures k < |TableKeywords| ==> RowMatches(feedbackLower, k)
    ensures forall j :: from <= j < k ==> !RowMatches(feedbackLower, j)
    decreases |TableKeywords| - from
  {
    if from == |TableKeywords| then from
    else if RowMatches(feedbackLower, from) then from
    else FirstMatchingRow(feedbackLower, from + 1)
  }

  /** The entry `k` is the first that matches. */
  lemma FirstMatchingRowIs(feedbackLower: String, k: nat)
    requires k <= |TableKeywords|
    requires k < |TableKeywords| ==> RowMatches(feedbackLower, k)
    requires forall j :: 0 <= j < k ==> !RowMatches(feedbackLower, j)
    ensures FirstMatchingRow(feedbackLower, 0) == k
  {
  }

  /** The name of the tag chosen for the lowercased feedback. */
  function ChooseTagLower(feedbackLower: String): String {
    var k := FirstMatchingRow(feedbackLower, 0);
    if k < |TableTags| then TableTags[k] else DefaultTag
  }

  /** The name of the tag the rules apply for this feedback. */
  function ChooseTag(feedback: String): String {
    ChooseTagLower(ToLower(feedback))
  }

  /** The tag token inserted into the markup, `[name]`. */
  function TagToken(name: String): String {
    "[" + name + "]"
  }

  // ---------------------------------------------------------------------

  /** The chosen tag is the first entry, in table order, one of whose
      keywords the lowercased feedback includes; it is `emphasis` when none
      does. */
  lemma ChooseTagSpec(feedback: String)
    ensures var f := ToLower(feedback);
      (exists k :: 0 <= k < |TableTags| && RowMatches(f, k) && ChooseTag(feedback) == TableTags[k]
        && forall j :: 0 <= j < k ==> !RowMatches(f, j))
      || ((forall k :: 0 <= k < |TableTags| ==> !RowMatches(f, k)) && ChooseTag(feedback) == DefaultTag)
  {
    var f := ToLower(feedback);
    var k := FirstMatchingRow(f, 0);
    assert ChooseTag(feedback) == ChooseTagLower(f);
    if k < |TableTags| {
      assert RowMatches(f, k) && ChooseTagLower(f) == TableTags[k];
    }
  }

  /** The chosen tag is one of the eleven table tags, never `warning`,
      `gentle` or `strong`, and always a tag of the palette. */
  lemma ChooseTagInTable(feedback: String)
    ensures ChooseTag(feedback) in TableTags
    ensures ChooseTag(feedback) in EmotionTags
    ensures ChooseTag(feedback) !in ["warning", "gentle", "strong"]
  {
    var k := FirstMatchingRow(ToLower(feedback), 0);
    if k < |TableTags| {
      assert ChooseTag(feedback) == TableTags[k];
    }
  }

  /** Feedback that says `important` and none of the reverent, joyful or
      sorrowful keywords is urgent: `important` is listed both under urgent
      and under emphasis, and urgent comes first. */
  lemma ImportantIsUrgent(feedback: String)
    requires Contains(ToLower(feedback), "important")
    requires forall j :: 0 <= j < 3 ==> !RowMatches(ToLower(feedback), j)
    ensures ChooseTag(feedback) == "urgent"
  {
    var f := ToLower(feedback);
    SomeIncludedAt(f, TableKeywords[3]);
    assert TableKeywords[3][3] == "important";
    assert RowMatches(f, 3);
    var k := FirstMatchingRow(f, 0);
    assert k == 3;
  }

  /** A tag token is one word: it starts with `[` and holds no space. */
  lemma TagTokenIsWord(name: String)
    requires NoSpace(name)
    ensures TagToken(name) != [] && NoSpace(TagToken(name))
    ensures StartsWith(TagToken(name), "[")
  {
    var t := TagToken(name);
    forall i | 0 <= i < |t| ensures !IsSpace(t[i]) {
      if 0 < i < |t| - 1 {
        assert t[i] == name[i - 1];
      }
    }
  }

  /** Every table tag is a word made of lower-case letters. */
  lemma TableTagsAreWords()
    ensures forall k :: 0 <= k < |TableTags| ==>
      TableTags[k] != [] && forall i :: 0 <= i < |TableTags[k]| ==> 'a' <= TableTags[k][i] <= 'z'
  {
  }
}
