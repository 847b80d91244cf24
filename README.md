# Voice Performance Studio: feedback interpreter and session state

Voice Performance Studio is a single-page web application for recording
sacred texts. The user writes or pastes a text and asks for a spoken
performance. They then give feedback in words, for example "more reverent
at 'Lord'" or "whisper at the end". The feedback becomes a performance
tag such as `[reverent]` or `[whisper]`, placed into a *markup* copy of
the text.

This project models the parts of `app.js` that decide what the markup
becomes, together with the small pieces of state kept around them.

- **The rule-based interpreter** (`interpretWithRules`), in four steps:
  1. It picks a tag from an ordered keyword table.
  2. It looks for a target word. The target is a quoted passage of the
     feedback, or else the word after `at`, `before`, `near` or `around`.
  3. It puts the tag token in one place: before the target word, or
     towards the end, or at the front. The front has a guard against
     adding a duplicate.
  4. It collapses whitespace.

  It is modelled twice:
  - as the specification function `Rules.RulesMarkup`;
  - as the imperative method `Rules.InterpretWithRules`, with the tag loop
    and the word-counting loop of the original.
- **The dispatch** between the language model and the rules.
  - The request to the model is reduced to an outcome, `Ok(text)` or `Err`.
  - Any failure falls back to the rules.
  - A reply is trimmed and then used unchecked.
- **The session**, a `class State` holding the fields of the
  application's `state` object that these handlers touch:
  - editing the text clears the markup;
  - `processFeedback` records the feedback, then stores the markup;
  - the newest-first feedback history is bounded at 20;
  - the playback speed cycles through a list;
  - `saveSettings` stores the settings.
- **The custom voices** of the settings dialog. They are parsed from
  lines of a name, a bar and an id when the settings are saved, and printed back when the
  dialog opens. The two form a parse/print round trip.
- **Display helpers**:
  - the word count under the editor;
  - the tag-highlighting rewrite of the markup display, and the tag-removing
    rewrite the interpreter applies to the text before comparing words;
  - `formatTime`.

The JavaScript string built-ins are modelled with their ECMAScript meaning
in module `JsString`:
- `\s` and `trim` use the WhiteSpace and LineTerminator code points.
- `split` on one character.
- `split(/\s+/)`, whose first and last pieces are empty when the text
  starts or ends with a space.
- The lookbehind sentence split.
- `join`, `includes`, `startsWith`.
- `replace(/\s+/g, ' ').trim()`.

The modules and their files:

| Module | File | Contents |
|---|---|---|
| `JsString` | `jsstring.dfy` | the string built-ins |
| `TagMarkup` | `markup.dfy` | the two tag-pattern rewrites |
| `TagTable` | `tags.dfy` | the keyword table |
| `Targets` | `targets.dfy` | the target word and its index |
| `Rules` | `rules.dfy` | the interpreter |
| `Dispatch` | `dispatch.dfy` | the choice of interpreter |
| `Voices` | `voices.dfy` | the custom voices |
| `Session` | `session.dfy` | the state and its handlers |
| `Display` | `display.dfy` | the word count and the time |

Where the prompt examples in `interpretWithClaude` suggest one behaviour and
the code does another, the model follows the code:
- The preposition pattern has no word boundary. So "whisper at the end" finds
  `at` followed by the word `the`. The tag then goes before the first
  sacred-text word that includes `the` or is included in it, not towards
  the end. The end is used only when no word matches
  (`Rules.WhisperAtTheEndPlacement`).
- A keyword counts only when it is a substring of the lowercased feedback.
  `important` is listed under both `urgent` and `emphasis`. It gives
  `urgent` unless a reverent, joyful or sorrowful keyword also appears,
  since those entries come first (`TagTable.ImportantIsUrgent`).
- The "beginning or throughout" branch and the default branch do the same
  thing. So the model has a single front placement.
- A `[` with no `]` of its own, followed later by a tag, starts a tag that
  runs to that tag's `]`. A marked text such as `[y [pause] z w v` is read
  as the one tag `[y [pause]`. Highlighting then wraps both in one span,
  and removing the tags drops `[y` (`TagMarkup.OpenBracketRewrites`,
  `TagMarkup.LoneBracketLosesWord`).
- When the text being compared is nothing but tags and spaces, `split`
  leaves one empty word. The empty word is included in every target, so any
  target resolves to index 0 (`Targets.TagsOnlyTextMatchesAnything`).

The playback speed is kept as its value, in hundredths (50 for 0.5x), not
as an index into the speed list. The state stores the value, and
`indexOf` of a value not in the list is -1, which the handler sends to the
first speed. An index could not represent such a value.

## Model

| member | source | states |
|---|---|---|
| `Rules.InterpretWithRules` | app.js:744-863 | the markup built step by step (tag loop, position flags, word loop, splice, sentence split, front guard, whitespace collapse) is exactly `RulesMarkup` of the inputs |
| `Rules.SelectTag` | app.js:768-779 | the loop over the table returns the tag of the first entry one of whose keywords the lowercased feedback includes, and `emphasis` when none does |
| `Rules.FindInsertPosition` | app.js:814-827 | the word loop returns the index of the `k`-th token that does not start with `[`, or 0 when there are fewer such tokens, and never more than the number of tokens |
| `Rules.PlainPosition` | app.js:819-827 | a found index holds a token not starting with `[` with exactly `k` such tokens before it; none is found only when the tokens have at most `k` such |
| `Rules.PlaceWords` | app.js:812-857 | before the collapse, the words are the base's own when the tag goes to the front of a base that already starts with it; otherwise they are the base's words with the tag put in at one place |
| `Rules.NormalForm` | app.js:860 | the collapsed text is its own words joined by single spaces, and it has the same words as the text before collapsing |
| `Rules.RulesKeepWords` | app.js:812-860 | the result is words joined by single spaces; its words equal the base's exactly when the tag goes to the front of a base already starting with it; otherwise they are the base's words with the tag token inserted once |
| `Rules.RemovingTagGivesNormalizedBase` | app.js:746-860 | the result is the base with its whitespace collapsed, or deleting one occurrence of the tag token from its words and joining them gives that collapsed base |
| `Rules.TargetBranch` | app.js:812-830 | with a matching word at index `k`, the tag goes before the `k`-th base token not starting with `[` (at the front when there are fewer), whatever else the feedback asks; in a trimmed base the tokens are its words |
| `Rules.BeforeWords` | app.js:812-830 | putting a word before the `k`-th plain token and collapsing gives the non-empty tokens before that place, the word, and those after it |
| `Rules.EndWords` | app.js:832-844 | putting a word before the last sentence, or before token `max(0, n-3)` when there is one sentence, places it among the base's words there |
| `Rules.LastSentenceWords` | app.js:834-837 | putting the tag before the last sentence places it between the words of the other sentences and those of the last one |
| `Rules.EndBranch` | app.js:832-844 | without a target, `end`/`ending`/`last` puts the tag before the last sentence when there are several; otherwise it goes before token `max(0, n-3)` |
| `Rules.FrontBranch` | app.js:846-857 | with front placement the result starts with the tag; it is the collapsed base if the base already started with the tag, otherwise its words are the tag followed by the base's words |
| `Rules.FrontIdempotent` | app.js:846-857 | feeding the result back as the markup with the same front-placed feedback gives the same result: the duplicate guard stops a second tag |
| `Rules.WhisperAtTheEndPlacement` | app.js:786-812 | "whisper at the end" asks for the end, yet it places the tag before the first sacred-text word matching `the`, and at the end only when no word matches |
| `TagTable.FirstMatchingRow` | app.js:770-775 | the entry found matches, no earlier entry matches, and the table size means no entry matches |
| `TagTable.SomeIncludedAt` | app.js:771 | `keywords.some(kw => text.includes(kw))` holds exactly when some keyword of the list is included in the text |
| `TagTable.ChooseTagSpec` | app.js:754-779 | the tag is that of the first table entry, in listed order, with a keyword included in the lowercased feedback, and `emphasis` when there is none |
| `TagTable.ChooseTagInTable` | app.js:754-781 | the tag is always one of the eleven table tags and of the palette, and never `warning`, `gentle` or `strong` |
| `TagTable.ImportantIsUrgent` | app.js:757-763 | feedback saying `important` and no reverent, joyful or sorrowful keyword is `urgent`, although `important` is also an emphasis keyword |
| `TagTable.TagTokenIsWord` | app.js:781 | a tag token is a single word starting with `[` |
| `TagTable.TableTagsAreWords` | app.js:754-766 | every table tag is a non-empty word of lower-case letters |
| `Targets.FirstQuoteMatch` | app.js:794 | the leftmost index where a quote, one or more non-quote characters and a quote follow, and no match before it |
| `Targets.QuotedPassage` | app.js:794-797 | the captured passage is non-empty and free of quotes |
| `Targets.PrepositionAt` | app.js:800 | a preposition is read at an index exactly when one of `at`, `before`, `near`, `around` occurs there, and the one read occurs there |
| `Targets.CaptureStart` | app.js:800 | where the pattern matches, the capture starts at a word character |
| `Targets.FirstPrepositionMatch` | app.js:800 | the leftmost index where the preposition pattern matches, and no match before it |
| `Targets.PrepositionWord` | app.js:800-803 | the captured word is non-empty and made of `\w` characters |
| `Targets.PrepositionAtOf` | app.js:800 | a preposition occurring at an index is the one the pattern reads there |
| `Targets.CaptureAfterPreposition` | app.js:800 | a preposition followed by a space and a word character makes the pattern match, with the capture at that character |
| `Targets.FirstPrepositionWord` | app.js:800 | when no earlier character can start a preposition, the captured word is the run of word characters after the first preposition and its space |
| `Targets.QuoteFirst` | app.js:794-803 | a quoted passage, lowercased, is the target whatever preposition the feedback also has |
| `Targets.RemovePunct` | app.js:807 | removing `.,!?;:` never lengthens a word and leaves none of those marks |
| `Targets.ComparedWords` | app.js:750-807 | one compared word per `split(/\s+/)` piece of the tag-free, trimmed sacred text |
| `Targets.FindIndex` | app.js:808 | `findIndex` returns the first word that includes the target or is included in it, and none before it matches |
| `Targets.TargetIndexSpec` | app.js:806-809 | there is no index without a target; with one, the index is that of the first matching compared word, and there is none exactly when no word matches |
| `Targets.TagsOnlyTextMatchesAnything` | app.js:750-808 | a sacred text of tags and spaces alone resolves every target to index 0 |
| `Targets.NoQuoteNoMatch` | app.js:794 | without a quote character the quoted-passage pattern matches nowhere |
| `Targets.WhisperAtTheEnd` | app.js:794-803 | "whisper at the end" has target word `the` |
| `TagMarkup.CloseIndex` | app.js:530 | the index found is within the text, and holds a `]` unless it is the length |
| `TagMarkup.CloseIndexFirst` | app.js:530 | no `]` comes before the index found, so it is the first `]` |
| `TagMarkup.NextSplit` | app.js:530 | the first piece the pattern reads, written back in brackets, followed by the rest of the text, is the text |
| `TagMarkup.ScanTagBodies` | app.js:530 | every tag the pattern finds has a non-empty body without `]` |
| `TagMarkup.ScanRoundTrip` | app.js:530 | writing each found tag back in brackets gives the original text: the scan loses nothing |
| `TagMarkup.StripTagsTagFree` | app.js:750 | after the tags are removed, the pattern matches nowhere |
| `TagMarkup.StripTagsIdempotent` | app.js:750 | removing tags twice is removing them once |
| `TagMarkup.TagFreeRender` | app.js:530 | a text the pattern matches nowhere comes out of either rewrite unchanged |
| `TagMarkup.HighlightTagFree` | app.js:530 | highlighting leaves a text without tags unchanged |
| `TagMarkup.RenderPieceLengths` | app.js:530 | for pieces whose tag bodies are non-empty, the span adds 25 characters per tag and removal takes at least three |
| `TagMarkup.RenderLengths` | app.js:530 | highlighting adds 25 characters of span markup per tag; removing tags takes at least three characters per tag |
| `TagMarkup.TagPiecesZero` | app.js:530 | no tag is counted exactly when no piece is a tag |
| `TagMarkup.TagCountZero` | app.js:530 | a text has no tags exactly when the pattern matches nowhere in it |
| `TagMarkup.RewriteChangesIffTag` | app.js:530 | highlighting changes the text exactly when it has a tag, and so does removing the tags |
| `TagMarkup.CloseIndexAfter` | app.js:530 | after a stretch without `]`, the first `]` is the one that ends the stretch |
| `TagMarkup.NoCloseUnchanged` | app.js:750 | a text without `]` holds no tag, and removing tags leaves it as it is |
| `TagMarkup.OpenBracketSwallowsTag` | app.js:530 | in `[a[t]rest`, with no `]` in `a` or `t`, the pattern reads one tag with body `a[t`, and the rest is `rest` |
| `TagMarkup.OpenBracketRewrites` | app.js:530 | removing the tags of `[a[t]rest` drops `a` along with the tag; highlighting wraps `[a[t]` in one span |
| `TagMarkup.LoneBracketLosesWord` | app.js:750 | removing the tags of `[y [pause] z w v` leaves ` z w v` |
| `Dispatch.InterpretWithClaude` | app.js:672-742 | the result is the trimmed reply on success and the rules' markup on any failure |
| `Dispatch.InterpretFeedback` | app.js:662-670 | with an Anthropic key the language-model path is taken, without one the rules |
| `Dispatch.FallbackToRules` | app.js:662-741 | without a key, or with a key and a failed request, the markup is exactly the rules' markup |
| `Dispatch.MarkupIsTrimmed` | app.js:735-860 | whichever path is taken, the markup has no space at either edge |
| `Dispatch.ReplyIsUnchecked` | app.js:734-735 | with a key, a reply of spaces alone empties the markup: the reply is not checked against the text |
| `Voices.TrimAll` | app.js:962 | each part is trimmed, and the number of parts is kept |
| `Voices.NonBlank` | app.js:957 | no more lines are kept than were given |
| `Voices.NonBlankOne` | app.js:957 | a single line is kept exactly when its trim is not empty |
| `Voices.NonBlankConcat` | app.js:957 | filtering joined lists is filtering each list and joining, so the kept lines stay in order |
| `Voices.NonBlankDropsBlank` | app.js:957 | every kept line is one of the given lines and is not blank |
| `Voices.ParseLines` | app.js:960-967 | there are never more voices than lines |
| `Voices.ParseCustomVoices` | app.js:955-968 | the loop builds exactly the voices of the non-blank lines of the trimmed text, in order |
| `Voices.ParseLinesConcat` | app.js:960-967 | the voices of two blocks of lines are those of the first block followed by those of the second |
| `Voices.ParseLineNoBar` | app.js:965-966 | a line without a bar gives a voice whose name and id are both the trimmed line; a blank one gives none |
| `Voices.ParseLineOneBar` | app.js:962-964 | a line with one bar gives the trimmed text before it as the name and the trimmed text after it as the id |
| `Voices.ParseLineManyBars` | app.js:962-966 | a line with two or more bars gives no voice |
| `Voices.VoiceLineParses` | app.js:994-996 | a printed line of name, bar and id parses back to its voice |
| `Voices.VoiceLineRoundTrip` | app.js:994-996 | a printed line parses back to its voice, is its own trim, and holds no newline |
| `Voices.PrintParseRoundTrip` | app.js:955-996 | parsing the printed list gives the list back when every name and id is non-empty and has no bar, no newline and no space at its edges |
| `Session.PushHistorySpec` | app.js:865-877 | the new item is first, the earlier items follow in order, the list stays within 20 items, and only the oldest item is dropped, only when the list was full |
| `Session.HistoryKeepsNewest` | app.js:871-876 | after any number of items the history is the new items newest first, then the earlier history, cut to at most 20 items: twenty-one items leave the twenty newest |
| `Session.IndexOf` | app.js:409 | `indexOf` gives the first index holding the value, or -1 when the value is absent |
| `Session.NextInSpec` | app.js:408-411 | the next speed is always in the list, and a speed not in the list goes to the first |
| `Session.NextInAt` | app.js:408-411 | in a list without repeats, the entry after the `i`-th is the `(i+1)`-th, and after the last comes the first |
| `Session.CycleInForward` | app.js:408-411 | presses that stay within the list walk it in order |
| `Session.CycleInReturns` | app.js:408-411 | as many presses as there are speeds bring every listed speed back to itself |
| `Session.SpeedsCycle` | app.js:41 | for the six speeds, each press gives the next one, and six presses return to the start |
| `Session.VoiceForLanguage` | app.js:343-354 | `en-IN` and `pt-BR` get their own voices; every other language, Hindi included, gets the Hindi voice |
| `Session.SaveShownVoices` | app.js:939-997 | saving the custom-voice text the dialog shows keeps the custom voices, when each name and id is a good part |
| `Session.State.constructor` | app.js:58-85 | the initial state: language `hi-IN`, empty text and markup, speed 1x, empty history, default settings |
| `Session.State.HandleTextInput` | app.js:230-235 | the new text is stored and the markup cleared; nothing else changes |
| `Session.State.AddFeedbackToHistory` | app.js:865-879 | the history becomes `PushHistory` of the old one and stays within 20 items; nothing else changes |
| `Session.State.ProcessFeedback` | app.js:632-660 | the feedback is recorded first; with blank text the markup is kept, otherwise it becomes the interpreter's markup for the trimmed text |
| `Session.State.CyclePlaybackSpeed` | app.js:408-418 | the speed becomes the one after the old speed in the list; nothing else changes |
| `Session.State.SaveSettings` | app.js:939-980 | both keys are trimmed, the model and any present voice selectors are taken, and the custom voices are replaced only when the text parses to at least one voice |
| `Display.WordCountIsWords` | app.js:240 | the count shown is the number of maximal runs of non-space characters of the text |
| `Display.WordCountAppend` | app.js:240 | appending a space and a word adds one to the count |
| `Display.Decimal` | app.js:423 | `toString` of a whole number is a non-empty string of decimal digits, starting with `0` only for zero |
| `Display.DecimalValue` | app.js:423 | the digits of a number read back as the number |
| `Display.Pad2Value` | app.js:423 | the seconds take exactly two digits and read back as themselves |
| `Display.FormatParseRoundTrip` | app.js:420-425 | a shown time reads back as the seconds it was made from: the minutes are the whole minutes, the two digits the rest |
| `Display.NotANumberShown` | app.js:421 | a time that is not a number shows as `0:00` |
| `JsString.ToLower` | app.js:747 | `toLowerCase` keeps the length and maps each character on its own |
| `JsString.ContainsAt` | app.js:771 | `includes` holds exactly when the text occurs at some offset |
| `JsString.SplitCount` | app.js:962 | `split` on a character gives one piece more than there are separators |
| `JsString.SplitJoin` | app.js:957 | splitting lines joined by a newline gives back the lines, when none holds a newline |
| `JsString.SplitWsWords` | app.js:751 | the non-empty pieces of `split(/\s+/)` are exactly the words |
| `JsString.SplitWsTrimmed` | app.js:750-751 | on a text with no space at either edge, `split(/\s+/)` gives exactly the words |
| `JsString.WordsTrim` | app.js:750 | trimming keeps the words |
| `JsString.TrimIdempotent` | app.js:735 | trimming twice is trimming once |
| `JsString.SpliceWords` | app.js:829-830 | the words of the tokens joined after a splice are the words before the place, the tag, and the words after |
| `JsString.SentencesKeepWords` | app.js:834 | the sentence split loses no word and reorders none |
| `JsString.NormalizeIsJoinedWords` | app.js:860 | collapsing runs of spaces and trimming is joining the words with single spaces |
| `JsString.NormalizeIdempotent` | app.js:860 | collapsing twice is collapsing once |
| `JsString.NormalizeKeepsPrefix` | app.js:860 | a text that starts with a word-like prefix still starts with it after collapsing |

## Left out

- The requests to ElevenLabs and to Anthropic are network I/O. The reply of the language model is reduced to `Ok(text)` or `Err`, and the prompt text is not modelled.
- DOM reads and writes are UI plumbing: toasts, the settings modal, the history list, the clipboard, and keyboard and window listeners. The model reads the form controls as parameters, and an absent control in `saveSettings` is `None`. The exception is the sacred text: `processFeedback` reads the editor's value (app.js:637), and `State.ProcessFeedback` reads the field `sacredText` instead. The handlers keep the two in step: the field is set with the editor at app.js:157-158 and on every input at app.js:231.
- Speech recognition and recording, audio playback, the playhead and the waveform are browser media APIs, and they use floating-point sample processing. They are left out, and so is the `${speed}x` label of the speed button.
- `generatePerformance` is a network call to the speech service, and it is left out with it, together with its version list. So is the automatic call that `processFeedback` makes when an ElevenLabs key is set.
- `localStorage` loading and saving is persistence.
- `formatTimeAgo` depends on the wall clock.
- `Display.FormatTime`: whole non-negative seconds only, because the player passes media times and fractions only affect flooring. A missing number (`None`) stands for NaN.
- The character count in `updateTextCounts` is not modelled. JavaScript counts UTF-16 code units, and characters here are code points.
- `JsString.LowerChar`: only ASCII and Latin-1 capitals are lowered. The full Unicode case mapping of `toLowerCase` is not modelled.
- The time stamp of a history item is whatever clock value the caller passes.
- The default voice lists, the per-language voice arrays and the voice selectors are configuration and UI.
- Overlapping `processFeedback` calls are not modelled. They are asynchronous and can interleave, and the code has no serialisation or stale-result check.
- `Voices.ParseLinesConcat` states that voices keep the order of their lines. No separate lemma says that dropping a line drops exactly its voice.
- `Session.State.CurrentVoice` and `Session.State.CustomVoicesText` are read-only views. Their properties are stated by `Session.VoiceForLanguage` and `Voices.PrintParseRoundTrip`.
