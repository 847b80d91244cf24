/** What the page shows about the text and the audio: the word count under
    the editor and the `m:ss` times of the player. */
module Display {
  import opened JsString

  /** `text.trim() ? text.trim().split(/\s+/).length : 0` */
  function WordCount(text: String): nat {
    if Trim(text) != [] then |SplitWs(Trim(text))| else 0
  }

  /** The count shown is the number of words of the text: its maximal runs
      of non-space characters. */
  lemma WordCountIsWords(text: String)
    ensures WordCount(text) == |Words(text)|
  {
    WordsTrim(text);
    var t := Trim(text);
    if t != [] {
      TrimEdges(text);
      SplitWsTrimmed(t);
    } else {
      assert Split(t, IsSpace) == [[]];
    }
  }

  /** Adding a word after a space adds one to the count. */
  lemma WordCountAppend(text: String, w: String)
    requires w != [] && NoSpace(w)
    ensures WordCount(text + " " + w) == WordCount(text) + 1
  {
    WordCountIsWords(text);
    WordCountIsWords(text + " " + w);
    assert text + " " + w == text + [' '] + w;
    WordsConcatSpace(text, ' ', w);
    WordsOfWord(w);
  }

  // ---------------------------------------------------------------------
  // times
  // ---------------------------------------------------------------------

  predicate IsDigit(c: char) {
    '0' <= c <= '9'
  }

  predicate AllDigits(s: String) {
    forall i :: 0 <= i < |s| ==> IsDigit(s[i])
  }

  function DigitChar(d: nat): char
    requires d < 10
  {
    ['0', '1', '2', '3', '4', '5', '6', '7', '8', '9'][d]
  }

  function DigitValue(c: char): nat
    requires IsDigit(c)
  {
    (c as int - '0' as int) as nat
  }

  /** `n.toString()` for a whole number: digits only, with a leading zero
      only for zero itself. */
  function Decimal(n: nat): (r: String)
    ensures r != [] && AllDigits(r)
    ensures r[0] == '0' <==> n == 0
    decreases n
  {
    if n < 10 then [DigitChar(n)] else Decimal(n / 10) + [DigitChar(n % 10)]
  }

  /** The number a string of decimal digits stands for. */
  function DigitsValue(s: String): nat
    requires AllDigits(s)
    decreases |s|
  {
    if s == [] then 0 else 10 * DigitsValue(s[..|s| - 1]) + DigitValue(s[|s| - 1])
  }

  /** `n.toString().padStart(2, '0')` for a number below 100. */
  function Pad2(n: nat): (r: String)
    requires n < 100
    ensures AllDigits(r)
  {
    if n < 10 then "0" + Decimal(n) else Decimal(n)
  }

  /** `formatTime`: the time as minutes, a colon and two digits of seconds;
      a time that is not a number (`None`) shows as `0:00`. */
  function FormatTime(seconds: Option<nat>): String {
    match seconds
    case None => "0:00"
    case Some(s) => Decimal(s / 60) + ":" + Pad2(s % 60)
  }

  /** Reading a shown time back: the minutes before the colon, the two
      digits of seconds after it. */
  function ParseTime(t: String): Option<nat> {
    if |t| >= 4 && t[|t| - 3] == ':' && AllDigits(t[..|t| - 3]) && AllDigits(t[|t| - 2..]) then
      var mins, secs := t[..|t| - 3], t[|t| - 2..];
      Some(60 * DigitsValue(mins) + DigitsValue(secs))
    else None
  }

  // ---------------------------------------------------------------------

  /** Reading the digits of a number back gives the number. */
  lemma {:induction false} DecimalValue(n: nat)
    ensures DigitsValue(Decimal(n)) == n
    decreases n
  {
    var r := Decimal(n);
    if n < 10 {
      assert r[..0] == [];
    } else {
      DecimalValue(n / 10);
      assert r[..|r| - 1] == Decimal(n / 10);
    }
  }

  /** The seconds take exactly two digits and read back as themselves. */
  lemma Pad2Value(n: nat)
    requires n < 100
    ensures |Pad2(n)| == 2 && DigitsValue(Pad2(n)) == n
  {
    var r := Pad2(n);
    DecimalValue(n);
    if n < 10 {
      assert r[..1] == "0";
      assert r[..1][..0] == [];
    } else {
      DecimalValue(n / 10);
    }
  }

  /** Reading minutes, a colon and two digits. */
  lemma ParseJoined(t: String, m: String, p: String)
    requires m != [] && AllDigits(m)
    requires |p| == 2 && AllDigits(p)
    requires |t| >= 4 && t[..|t| - 3] == m && t[|t| - 3] == ':' && t[|t| - 2..] == p
    ensures ParseTime(t) == Some(60 * DigitsValue(m) + DigitsValue(p))
  {
  }

  /** A shown time reads back as the number of seconds it was made from:
      the minutes are the whole minutes and the two digits the seconds
      left over. */
  lemma FormatParseRoundTrip(s: nat)
    ensures ParseTime(FormatTime(Some(s))) == Some(s)
  {
    var q, r := s / 60, s % 60;
    var m, p := Decimal(q), Pad2(r);
    Pad2Value(r);
    DecimalValue(q);
    var t := FormatTime(Some(s));
    assert t == m + ":" + p;
    assert t[..|t| - 3] == m && t[|t| - 3] == ':' && t[|t| - 2..] == p;
    ParseJoined(t, m, p);
    assert 60 * q + r == s;
  }

  /** A time that is not a number shows as zero minutes and seconds. */
  lemma NotANumberShown()
    ensures FormatTime(None) == "0:00"
    ensures ParseTime(FormatTime(None)) == Some(0)
  {
    var t := FormatTime(None);
    assert t[..1] == "0" && t[2..] == "00";
    assert ("0"[..0]) == [];
    assert "00"[..1] == "0";
  }
}
