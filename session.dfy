/** The application state and the handlers that change it: editing the
    sacred text, giving feedback, the feedback history, the playback speed
    and the settings dialog. */
module Session {
  import opened JsString
  import opened Dispatch
  import opened Voices

  /** One entry of the feedback history; the time is the caller's clock. */
  datatype FeedbackItem = FeedbackItem(text: String, timestamp: int)

  datatype Settings = Settings(
    elevenLabsKey: String,
    anthropicKey: String,
    ttsModel: String,
    selectedVoiceHindi: String,
    selectedVoiceEnglishIN: String,
    selectedVoicePortuguese: String,
    customVoices: seq<Voice>)

  /** The longest the feedback history gets. */
  const MaxHistory: nat := 20

  /** The playback speeds, in hundredths: 0.5, 0.75, 1, 1.25, 1.5 and 2. */
  const Speeds: seq<int> := [50, 75, 100, 125, 150, 200]

  // ---------------------------------------------------------------------
  // the feedback history
  // ---------------------------------------------------------------------

  /** `unshift` the item, then `pop` once if the list is over the limit. */
  function PushHistory(h: seq<FeedbackItem>, item: FeedbackItem): seq<FeedbackItem> {
    var u := [item] + h;
    if |u| > MaxHistory then u[..|u| - 1] else u
  }

  /** The new item comes first and the earlier ones follow in their order;
      the list never grows past the limit, and only the oldest item is
      dropped, only when the list was full. */
  lemma PushHistorySpec(h: seq<FeedbackItem>, item: FeedbackItem)
    requires |h| <= MaxHistory
    ensures |PushHistory(h, item)| <= MaxHistory
    ensures PushHistory(h, item)[0] == item
    ensures forall i :: 1 <= i < |PushHistory(h, item)| ==> PushHistory(h, item)[i] == h[i - 1]
    ensures |h| < MaxHistory ==> PushHistory(h, item) == [item] + h
    ensures |h| == MaxHistory ==> PushHistory(h, item) == [item] + h[..MaxHistory - 1]
  {
    if |h| == MaxHistory {
      assert ([item] + h)[..MaxHistory] == [item] + h[..MaxHistory - 1];
    }
  }

  /** The history after the items are given one after the other. */
  function PushAll(h: seq<FeedbackItem>, items: seq<FeedbackItem>): seq<FeedbackItem>
    decreases |items|
  {
    if items == [] then h else PushAll(PushHistory(h, items[0]), items[1..])
  }

  /** The items, last first. */
  function Reverse(items: seq<FeedbackItem>): (r: seq<FeedbackItem>)
    ensures |r| == |items|
    decreases |items|
  {
    if items == [] then [] else Reverse(items[1..]) + [items[0]]
  }

  /** `n`, but no more than the limit. */
  function Capped(n: nat): nat {
    if n <= MaxHistory then n else MaxHistory
  }

  /** One push keeps the newest of the new item and the old list. */
  lemma PushHistoryCapped(h: seq<FeedbackItem>, item: FeedbackItem)
    requires |h| <= MaxHistory
    ensures PushHistory(h, item) == ([item] + h)[..Capped(|h| + 1)]
  {
    PushHistorySpec(h, item);
  }

  /** Cutting the tail short before cutting the whole changes nothing when
      the cut of the whole falls within the shortened tail. */
  lemma TakeOfTail(a: seq<FeedbackItem>, b: seq<FeedbackItem>, m: nat, n: nat)
    requires m <= |b| && n <= |a| + m
    ensures (a + b[..m])[..n] == (a + b)[..n]
  {
  }

  lemma ReverseCons(items: seq<FeedbackItem>, h: seq<FeedbackItem>)
    requires items != []
    ensures Reverse(items[1..]) + ([items[0]] + h) == Reverse(items) + h
  {
  }

  /** Items given in a row leave the newest of them and of the earlier
      history, newest first, at most twenty: twenty-one items leave the
      twenty newest. */
  lemma {:induction false} HistoryKeepsNewest(h: seq<FeedbackItem>, items: seq<FeedbackItem>)
    requires |h| <= MaxHistory
    ensures |PushAll(h, items)| == Capped(|h| + |items|)
    ensures PushAll(h, items) == (Reverse(items) + h)[..Capped(|h| + |items|)]
    decreases |items|
  {
    if items != [] {
      var x, rest := items[0], items[1..];
      var h1 := PushHistory(h, x);
      PushHistoryCapped(h, x);
      HistoryKeepsNewest(h1, rest);
      TakeOfTail(Reverse(rest), [x] + h, Capped(|h| + 1), Capped(|h1| + |rest|));
      ReverseCons(items, h);
    }
  }

  // ---------------------------------------------------------------------
  // the playback speed
  // ---------------------------------------------------------------------

  /** `s.indexOf(x)`: the first index holding `x`, or -1. */
  function IndexOf(s: seq<int>, x: int): (i: int)
    ensures -1 <= i < |s|
    ensures i >= 0 ==> s[i] == x && forall j :: 0 <= j < i ==> s[j] != x
    ensures i == -1 ==> x !in s
    decreases |s|
  {
    if s == [] then -1
    else if s[0] == x then 0
    else
      var k := IndexOf(s[1..], x);
      if k == -1 then -1 else k + 1
  }

  predicate Distinct(s: seq<int>) {
    forall i, j :: 0 <= i < j < |s| ==> s[i] != s[j]
  }

  /** The entry after `x` in the list `s`, round to the first: index
      `(indexOf + 1) % length`. The index is at least -1, so the sum is at
      most the length and its remainder is the sum itself, or 0 when the
      sum is the length; an entry not in the list goes to the first. */
  function NextIn(s: seq<int>, x: int): int
    requires s != []
  {
    var j := IndexOf(s, x) + 1;
    if j < |s| then s[j] else s[0]
  }

  /** The next entry is always one of the list, and an unknown entry goes
      to the first. */
  lemma NextInSpec(s: seq<int>, x: int)
    requires s != []
    ensures NextIn(s, x) in s
    ensures x !in s ==> NextIn(s, x) == s[0]
  {
  }

  /** In a list without repeats, after the `i`-th entry comes the one after
      it, after the last the first. */
  lemma NextInAt(s: seq<int>, i: nat)
    requires Distinct(s) && i < |s|
    ensures NextIn(s, s[i]) == if i + 1 < |s| then s[i + 1] else s[0]
  {
    var k := IndexOf(s, s[i]);
    assert k == i;
  }

  /** The entry after `n` steps from `x`. */
  function CycleIn(s: seq<int>, x: int, n: nat): int
    requires s != []
    decreases n
  {
    if n == 0 then x else CycleIn(s, NextIn(s, x), n - 1)
  }

  lemma {:induction false} CycleInAdd(s: seq<int>, x: int, a: nat, b: nat)
    requires s != []
    ensures CycleIn(s, x, a + b) == CycleIn(s, CycleIn(s, x, a), b)
    decreases a
  {
    if a > 0 {
      CycleInAdd(s, NextIn(s, x), a - 1, b);
    }
  }

  /** Steps that stay inside the list walk it in order. */
  lemma {:induction false} CycleInForward(s: seq<int>, i: nat, k: nat)
    requires Distinct(s) && i + k < |s|
    ensures CycleIn(s, s[i], k) == s[i + k]
    decreases k
  {
    if k > 0 {
      NextInAt(s, i);
      CycleInForward(s, i + 1, k - 1);
    }
  }

  /** From the last entry, one step goes round to the first and `i` more
      walk on to the `i`-th. */
  lemma WrapAround(s: seq<int>, i: nat)
    requires Distinct(s) && i < |s|
    ensures CycleIn(s, s[|s| - 1], 1 + i) == s[i]
  {
    NextInAt(s, |s| - 1);
    CycleInForward(s, 0, i);
    assert CycleIn(s, s[|s| - 1], 1 + i) == CycleIn(s, NextIn(s, s[|s| - 1]), i);
  }

  /** As many steps as the list is long bring every entry back to itself. */
  lemma CycleInReturns(s: seq<int>, i: nat)
    requires Distinct(s) && i < |s|
    ensures CycleIn(s, s[i], |s|) == s[i]
  {
    var a := |s| - 1 - i;
    var last := s[|s| - 1];
    CycleInForward(s, i, a);
    assert CycleIn(s, s[i], a) == last;
    WrapAround(s, i);
    CycleInAdd(s, s[i], a, 1 + i);
    calc {
      CycleIn(s, s[i], |s|);
      { assert a + (1 + i) == |s|; }
      CycleIn(s, s[i], a + (1 + i));
      CycleIn(s, last, 1 + i);
    }
  }

  /** Six presses of the speed button bring any listed speed back to
      itself, and each press from a listed speed gives the next one. */
  lemma SpeedsCycle(i: nat)
    requires i < |Speeds|
    ensures NextIn(Speeds, Speeds[i]) == if i + 1 < |Speeds| then Speeds[i + 1] else Speeds[0]
    ensures CycleIn(Speeds, Speeds[i], |Speeds|) == Speeds[i]
  {
    assert Distinct(Speeds);
    NextInAt(Speeds, i);
    CycleInReturns(Speeds, i);
  }

  // ---------------------------------------------------------------------
  // the settings
  // ---------------------------------------------------------------------

  /** `getVoiceForLanguage`: the voice selected for the language, the
      Hindi voice for any language other than `en-IN` and `pt-BR`. */
  function VoiceForLanguage(settings: Settings, langCode: String): (voice: String)
    ensures langCode == "en-IN" ==> voice == settings.selectedVoiceEnglishIN
    ensures langCode == "pt-BR" ==> voice == settings.selectedVoicePortuguese
    ensures langCode != "en-IN" && langCode != "pt-BR" ==> voice == settings.selectedVoiceHindi
  {
    if langCode == "hi-IN" then settings.selectedVoiceHindi
    else if langCode == "en-IN" then settings.selectedVoiceEnglishIN
    else if langCode == "pt-BR" then settings.selectedVoicePortuguese
    else settings.selectedVoiceHindi
  }

  /** A field set from a form control that may be missing. */
  function FromControl(old_: String, control: Option<String>): String {
    match control
    case Some(v) => v
    case None => old_
  }

  /** The settings `saveSettings` leaves: both keys trimmed, the model and
      the present selectors taken as they are, and the custom voices
      replaced only when the text area parses to at least one voice. */
  function SavedSettings(s: Settings, elevenLabsKey: String, anthropicKey: String, ttsModel: String,
                         voiceHindi: Option<String>, voiceEnglishIN: Option<String>, voicePortuguese: Option<String>,
                         customVoicesText: Option<String>): Settings {
    var custom :=
      match customVoicesText
      case Some(text) => if ParsedVoices(text) != [] then ParsedVoices(text) else s.customVoices
      case None => s.customVoices;
    Settings(Trim(elevenLabsKey), Trim(anthropicKey), ttsModel,
             FromControl(s.selectedVoiceHindi, voiceHindi),
             FromControl(s.selectedVoiceEnglishIN, voiceEnglishIN),
             FromControl(s.selectedVoicePortuguese, voicePortuguese),
             custom)
  }

  /** Saving the text the dialog shows for the custom voices keeps them,
      when each of their names and ids is a good part. */
  lemma SaveShownVoices(s: Settings, elevenLabsKey: String, anthropicKey: String, ttsModel: String,
                        voiceHindi: Option<String>, voiceEnglishIN: Option<String>, voicePortuguese: Option<String>)
    requires forall k :: 0 <= k < |s.customVoices| ==> GoodVoice(s.customVoices[k])
    ensures SavedSettings(s, elevenLabsKey, anthropicKey, ttsModel, voiceHindi, voiceEnglishIN, voicePortuguese,
                          Some(PrintVoices(s.customVoices))).customVoices == s.customVoices
  {
    PrintParseRoundTrip(s.customVoices);
  }

  // ---------------------------------------------------------------------
  // the state
  // ---------------------------------------------------------------------

  class State {
    var currentLanguage: String
    var sacredText: String
    var markedText: String
    /** In hundredths. */
    var playbackSpeed: int
    var feedbackHistory: seq<FeedbackItem>
    var settings: Settings

    predicate Valid()
      reads this
    {
      |feedbackHistory| <= MaxHistory
    }

    constructor ()
      ensures Valid()
      ensures currentLanguage == "hi-IN" && sacredText == [] && markedText == []
      ensures playbackSpeed == 100 && feedbackHistory == []
      ensures settings == Settings([], [], "eleven_multilingual_v2", [], [], [], [])
    {
      currentLanguage := "hi-IN";
      sacredText := [];
      markedText := [];
      playbackSpeed := 100;
      feedbackHistory := [];
      settings := Settings([], [], "eleven_multilingual_v2", [], [], [], []);
    }

    /** `handleTextInput`: a new text drops the markup made for the old one. */
    method HandleTextInput(value: String)
      modifies this
      ensures sacredText == value && markedText == []
      ensures currentLanguage == old(currentLanguage) && playbackSpeed == old(playbackSpeed)
      ensures feedbackHistory == old(feedbackHistory) && settings == old(settings)
    {
      sacredText := value;
      markedText := [];
    }

    /** `addFeedbackToHistory` */
    method AddFeedbackToHistory(feedbackText: String, now: int)
      requires Valid()
      modifies this
      ensures Valid()
      ensures feedbackHistory == PushHistory(old(feedbackHistory), FeedbackItem(feedbackText, now))
      ensures currentLanguage == old(currentLanguage) && sacredText == old(sacredText)
      ensures markedText == old(markedText) && playbackSpeed == old(playbackSpeed) && settings == old(settings)
    {
      var feedbackItem := FeedbackItem(feedbackText, now);
      feedbackHistory := [feedbackItem] + feedbackHistory;
      if |feedbackHistory| > MaxHistory {
        feedbackHistory := feedbackHistory[..|feedbackHistory| - 1];
      }
    }

    /** `processFeedback`: the feedback is recorded first; with no sacred
        text nothing else happens, otherwise the interpreter's markup for
        the trimmed text becomes the markup. */
    method ProcessFeedback(feedbackText: String, now: int, reply: LmReply)
      requires Valid()
      modifies this
      ensures Valid()
      ensures feedbackHistory == PushHistory(old(feedbackHistory), FeedbackItem(feedbackText, now))
      ensures Trim(sacredText) == [] ==> markedText == old(markedText)
      ensures Trim(sacredText) != [] ==>
        markedText == FeedbackMarkup(settings.anthropicKey, Trim(sacredText), feedbackText, old(markedText), reply)
      ensures currentLanguage == old(currentLanguage) && sacredText == old(sacredText)
      ensures playbackSpeed == old(playbackSpeed) && settings == old(settings)
    {
      AddFeedbackToHistory(feedbackText, now);
      var text := Trim(sacredText);
      if text == [] {
        return;
      }
      var newMarkup := InterpretFeedback(settings.anthropicKey, text, feedbackText, markedText, reply);
      markedText := newMarkup;
    }

    /** `cyclePlaybackSpeed` */
    method CyclePlaybackSpeed()
      modifies this
      ensures playbackSpeed == NextIn(Speeds, old(playbackSpeed))
      ensures currentLanguage == old(currentLanguage) && sacredText == old(sacredText)
      ensures markedText == old(markedText) && feedbackHistory == old(feedbackHistory) && settings == old(settings)
    {
      var currentIndex := IndexOf(Speeds, playbackSpeed);
      var nextIndex := (currentIndex + 1) % |Speeds|;
      assert nextIndex == if currentIndex + 1 < |Speeds| then currentIndex + 1 else 0;
      playbackSpeed := Speeds[nextIndex];
    }

    /** `saveSettings`, given what the form holds; a missing control is
        `None`. */
    method SaveSettings(elevenLabsKey: String, anthropicKey: String, ttsModel: String,
                        voiceHindi: Option<String>, voiceEnglishIN: Option<String>, voicePortuguese: Option<String>,
                        customVoicesText: Option<String>)
      modifies this
      ensures settings == SavedSettings(old(settings), elevenLabsKey, anthropicKey, ttsModel,
                                        voiceHindi, voiceEnglishIN, voicePortuguese, customVoicesText)
      ensures currentLanguage == old(currentLanguage) && sacredText == old(sacredText) && markedText == old(markedText)
      ensures playbackSpeed == old(playbackSpeed) && feedbackHistory == old(feedbackHistory)
    {
      var st := settings.(elevenLabsKey := Trim(elevenLabsKey), anthropicKey := Trim(anthropicKey),
                          ttsModel := ttsModel);
      if voiceHindi.Some? {
        st := st.(selectedVoiceHindi := voiceHindi.value);
      }
      if voiceEnglishIN.Some? {
        st := st.(selectedVoiceEnglishIN := voiceEnglishIN.value);
      }
      if voicePortuguese.Some? {
        st := st.(selectedVoicePortuguese := voicePortuguese.value);
      }
      if customVoicesText.Some? {
        var newCustomVoices := ParseCustomVoices(customVoicesText.value);
        if |newCustomVoices| > 0 {
          st := st.(customVoices := newCustomVoices);
        }
      }
      settings := st;
    }

    /** What `openSettings` puts in the custom-voices text area. */
    function CustomVoicesText(): String
      reads this
    {
      PrintVoices(settings.customVoices)
    }

    /** The voice for the current language. */
    function CurrentVoice(): String
      reads this
    {
      VoiceForLanguage(settings, currentLanguage)
    }
  }
}
