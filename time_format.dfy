/** The time-only branch of `formatTime` (src/components/calendarCard.tsx): a
    string that, once trimmed, looks like `14:30` or `2:30 PM` is shown as the
    trimmed string; everything else goes through JavaScript's Date parsing and
    locale formatting, which is not part of this model. */
module TimeFormat {
  import opened Types

  /** The characters JavaScript's `String.prototype.trim` removes and its
      regular-expression class `\s` matches: the ECMAScript WhiteSpace and
      LineTerminator characters. */
  predicate IsSpace(c: char) {
    || c == ' ' || ('\t' <= c <= '\r')
    || c == '\U{00A0}' || c == '\U{1680}' || ('\U{2000}' <= c <= '\U{200A}') || c == '\U{2028}' || c == '\U{2029}'
    || c == '\U{202F}' || c == '\U{205F}' || c == '\U{3000}' || c == '\U{FEFF}'
  }

  /** `\d` without the `u` flag: an ASCII digit. */
  predicate IsDigit(c: char) {
    '0' <= c <= '9'
  }

  /** The class `[APMapm]`. */
  predicate IsMeridiemLetter(c: char) {
    c == 'A' || c == 'P' || c == 'M' || c == 'a' || c == 'p' || c == 'm'
  }

  /** The end of the run of whitespace starting at index `i`. */
  function SkipSpace(s: string, i: nat): (j: nat)
    requires i <= |s|
    ensures i <= j <= |s|
    ensures forall k :: i <= k < j ==> IsSpace(s[k])
    ensures j == |s| || !IsSpace(s[j])
    decreases |s| - i
  {
    if i < |s| && IsSpace(s[i]) then SkipSpace(s, i + 1) else i
  }

  /** The start of the run of whitespace ending at index `j`, not going below
      `lo`. */
  function SkipSpaceBack(s: string, lo: nat, j: nat): (i: nat)
    requires lo <= j <= |s|
    ensures lo <= i <= j
    ensures forall k :: i <= k < j ==> IsSpace(s[k])
    ensures i == lo || !IsSpace(s[i - 1])
    decreases j - lo
  {
    if lo < j && IsSpace(s[j - 1]) then SkipSpaceBack(s, lo, j - 1) else j
  }

  /** Where `String.prototype.trim` cuts: the first index after the leading
      whitespace and the first index of the trailing whitespace. */
  function TrimBounds(s: string): (b: (nat, nat))
    ensures b.0 <= b.1 <= |s|
    ensures forall k :: 0 <= k < b.0 ==> IsSpace(s[k])
    ensures forall k :: b.1 <= k < |s| ==> IsSpace(s[k])
    ensures b.0 < b.1 ==> !IsSpace(s[b.0]) && !IsSpace(s[b.1 - 1])
  {
    var a := SkipSpace(s, 0);
    (a, SkipSpaceBack(s, a, |s|))
  }

  /** `String.prototype.trim`. */
  function Trim(s: string): (r: string)
    ensures r == [] || (!IsSpace(r[0]) && !IsSpace(r[|r| - 1]))
  {
    var b := TrimBounds(s);
    s[b.0..b.1]
  }

  /** When the string is all whitespace, nothing is left. */
  lemma TrimAllSpace(s: string)
    requires forall k :: 0 <= k < |s| ==> IsSpace(s[k])
    ensures Trim(s) == []
  {
    assert SkipSpace(s, 0) == |s|;
  }

  /** Trimming twice is trimming once. */
  lemma TrimIdempotent(s: string)
    ensures Trim(Trim(s)) == Trim(s)
  {
    var r := Trim(s);
    assert SkipSpace(r, 0) == 0;
    assert SkipSpaceBack(r, 0, |r|) == |r|;
  }

  // ---------------------------------------------------------------------------
  // The recognizer `^\d{1,2}:\d{2}(\s?[APMapm]{2})?$`

  /** A string of the pattern's language, cut at its parts: the hour digits,
      the minute digits, the optional separator and the optional letters. */
  datatype TimeParts = TimeParts(hours: string, minutes: string, sep: string, letters: string)

  ghost predicate WellFormed(p: TimeParts) {
    && 1 <= |p.hours| <= 2 && (forall i :: 0 <= i < |p.hours| ==> IsDigit(p.hours[i]))
    && |p.minutes| == 2 && IsDigit(p.minutes[0]) && IsDigit(p.minutes[1])
    && ((p.sep == [] && p.letters == [])
        || (|p.sep| <= 1 && (p.sep != [] ==> IsSpace(p.sep[0]))
            && |p.letters| == 2 && IsMeridiemLetter(p.letters[0]) && IsMeridiemLetter(p.letters[1])))
  }

  function Render(p: TimeParts): string {
    p.hours + ":" + p.minutes + p.sep + p.letters
  }

  /** The strings the pattern matches, as the pattern spells them. */
  ghost predicate MatchesPattern(s: string) {
    exists p :: WellFormed(p) && Render(p) == s
  }

  /** The number of hour digits before the colon, if the string starts with
      one or two digits and a colon. */
  function HourDigits(s: string): (h: nat)
    ensures h <= 2 && (h > 0 ==> |s| > h && s[h] == ':' && forall i :: 0 <= i < h ==> IsDigit(s[i]))
  {
    if |s| >= 2 && IsDigit(s[0]) && s[1] == ':' then 1
    else if |s| >= 3 && IsDigit(s[0]) && IsDigit(s[1]) && s[2] == ':' then 2
    else 0
  }

  /** The optional `\s?[APMapm]{2}` group, cut at its separator. */
  function ParseSuffix(tail: string): (r: Option<(string, string)>)
    ensures r.Some? ==> r.value.0 + r.value.1 == tail
    ensures r.Some? ==>
      ((r.value.0 == [] && r.value.1 == [])
       || (|r.value.0| <= 1 && (r.value.0 != [] ==> IsSpace(r.value.0[0]))
           && |r.value.1| == 2 && IsMeridiemLetter(r.value.1[0]) && IsMeridiemLetter(r.value.1[1])))
  {
    if tail == [] then Some(([], []))
    else if |tail| == 2 && IsMeridiemLetter(tail[0]) && IsMeridiemLetter(tail[1]) then Some(([], tail))
    else if |tail| == 3 && IsSpace(tail[0]) && IsMeridiemLetter(tail[1]) && IsMeridiemLetter(tail[2]) then
      assert [tail[0]] + tail[1..] == tail;
      Some(([tail[0]], tail[1..]))
    else None
  }

  /** The matcher: reads the hours, the colon, two minute digits and the
      optional group, and cuts the string at those parts. */
  function ParseTime(s: string): (r: Option<TimeParts>)
    ensures r.Some? ==> Render(r.value) == s
  {
    var h := HourDigits(s);
    if h == 0 || |s| < h + 3 || !IsDigit(s[h + 1]) || !IsDigit(s[h + 2]) then None
    else
      match ParseSuffix(s[h + 3..])
      case None => None
      case Some(parts) => Some(TimeParts(s[..h], s[h + 1..h + 3], parts.0, parts.1))
  }

  /** `/^\d{1,2}:\d{2}(\s?[APMapm]{2})?$/.test`. */
  predicate IsTimeOnly(s: string)
    ensures IsTimeOnly(s) ==> 4 <= |s| <= 8
  {
    ParseTime(s).Some?
  }

  /** Where the parts of a rendered string sit. */
  lemma RenderShape(p: TimeParts)
    ensures var s, h := Render(p), |p.hours|;
      && |s| == h + 3 + |p.sep| + |p.letters|
      && s[..h] == p.hours && s[h] == ':' && s[h + 1..h + 3] == p.minutes && s[h + 3..] == p.sep + p.letters
    requires |p.minutes| == 2
  {
    var s, h := Render(p), |p.hours|;
    var tail := p.sep + p.letters;
    assert s == p.hours + ([':'] + (p.minutes + tail));
    assert s[h..] == [':'] + (p.minutes + tail);
    assert s[h + 1..] == p.minutes + tail;
  }

  /** The optional group read back from its parts. */
  lemma ParseSuffixComplete(sep: string, letters: string)
    requires (sep == [] && letters == [])
      || (|sep| <= 1 && (sep != [] ==> IsSpace(sep[0]))
          && |letters| == 2 && IsMeridiemLetter(letters[0]) && IsMeridiemLetter(letters[1]))
    ensures ParseSuffix(sep + letters) == Some((sep, letters))
  {
    var tail := sep + letters;
    if sep != [] {
      assert tail[0] == sep[0] && tail[1..] == letters && sep == [sep[0]];
    } else {
      assert tail == letters;
    }
  }

  /** Putting back the parts cut from `s` at the colon at index `h`. */
  lemma RenderCut(s: string, h: nat, sep: string, letters: string)
    requires h + 3 <= |s| && s[h] == ':' && sep + letters == s[h + 3..]
    ensures Render(TimeParts(s[..h], s[h + 1..h + 3], sep, letters)) == s
  {
    var p := TimeParts(s[..h], s[h + 1..h + 3], sep, letters);
    assert Render(p) == s[..h] + ([':'] + (s[h + 1..h + 3] + s[h + 3..]));
    assert s[h + 1..] == s[h + 1..h + 3] + s[h + 3..];
    assert s[h..] == [s[h]] + s[h + 1..];
    assert s == s[..h] + s[h..];
  }

  /** What the matcher cuts out is a well-formed string of the pattern and
      puts back together to the input. */
  lemma ParseTimeSound(s: string)
    requires ParseTime(s).Some?
    ensures WellFormed(ParseTime(s).value) && Render(ParseTime(s).value) == s
  {
    var h := HourDigits(s);
    var p := ParseTime(s).value;
    RenderCut(s, h, p.sep, p.letters);
    assert forall i :: 0 <= i < h ==> p.hours[i] == s[i];
    assert p.minutes[0] == s[h + 1] && p.minutes[1] == s[h + 2];
  }

  /** A well-formed string of the pattern is read back into the same parts. */
  lemma ParseTimeComplete(p: TimeParts)
    requires WellFormed(p)
    ensures ParseTime(Render(p)) == Some(p)
  {
    var s := Render(p);
    RenderShape(p);
    ParseSuffixComplete(p.sep, p.letters);
    var h := |p.hours|;
    assert s[0] == p.hours[0];
    assert h == 2 ==> s[1] == p.hours[1];
    assert HourDigits(s) == h;
  }

  /** The matcher accepts exactly the strings of the pattern. */
  lemma IsTimeOnlyMatchesPattern(s: string)
    ensures IsTimeOnly(s) <==> MatchesPattern(s)
  {
    if IsTimeOnly(s) {
      ParseTimeSound(s);
    }
    if MatchesPattern(s) {
      var p :| WellFormed(p) && Render(p) == s;
      ParseTimeComplete(p);
    }
  }

  // ---------------------------------------------------------------------------
  // formatTime

  /** A `DateInput`: a `Date` object or a string. */
  datatype DateInput = DateObject | Text(s: string)

  /** The outcome of `formatTime`: the trimmed input, or a string produced by
      Date parsing and locale formatting (not modelled). */
  datatype Shown = Kept(text: string) | DateFormatted

  /** `formatTime`, down to which branch is taken. */
  function FormatTime(t: DateInput): (r: Shown)
    ensures r.Kept? <==> t.Text? && IsTimeOnly(Trim(t.s))
    ensures r.Kept? ==> r.text == Trim(t.s)
  {
    if t.Text? && IsTimeOnly(Trim(t.s)) then Kept(Trim(t.s)) else DateFormatted
  }

  /** What `formatTime` keeps is a string of the time pattern, four to
      eight characters long. */
  lemma KeptIsTime(t: DateInput)
    requires FormatTime(t).Kept?
    ensures MatchesPattern(FormatTime(t).text)
    ensures 4 <= |FormatTime(t).text| <= 8
  {
    var k := FormatTime(t).text;
    ParseTimeSound(k);
    var p := ParseTime(k).value;
    assert |k| == |p.hours| + 3 + |p.sep| + |p.letters|;
  }

  /** Formatting the kept string again keeps it unchanged. */
  lemma FormatIdempotent(t: DateInput)
    requires FormatTime(t).Kept?
    ensures FormatTime(Text(FormatTime(t).text)) == FormatTime(t)
  {
    TrimIdempotent(t.s);
  }

  // Strings the recognizer accepts, the hour and minute values unchecked, and
  // strings it rejects.

  lemma AcceptsTwentyFourHour()
    ensures FormatTime(Text("14:30")) == Kept("14:30")
  {
    var s := "14:30";
    assert !IsSpace(s[0]) && !IsSpace(s[4]);
    assert TrimBounds(s) == (0, 5);
    assert Trim(s) == s;
    assert HourDigits(s) == 2;
    assert s[5..] == [];
  }

  lemma AcceptsPaddedMeridiem()
    ensures FormatTime(Text(" 2:30 PM ")) == Kept("2:30 PM")
  {
    var s, k := " 2:30 PM ", "2:30 PM";
    assert IsSpace(s[0]) && !IsSpace(s[1]) && IsSpace(s[8]) && !IsSpace(s[7]);
    assert SkipSpace(s, 1) == 1;
    assert SkipSpace(s, 0) == 1;
    assert SkipSpaceBack(s, 1, 8) == 8;
    assert SkipSpaceBack(s, 1, 9) == 8;
    assert Trim(s) == s[1..8] == k;
    assert HourDigits(k) == 1;
    assert k[4..] == " PM" && IsSpace(k[4]);
    assert ParseSuffix(" PM") == Some((" ", "PM"));
  }

  lemma AcceptsLowercaseMeridiem()
    ensures FormatTime(Text("2:30pm")) == Kept("2:30pm")
  {
    var s := "2:30pm";
    assert !IsSpace(s[0]) && !IsSpace(s[5]);
    assert TrimBounds(s) == (0, 6);
    assert Trim(s) == s;
    assert HourDigits(s) == 1;
    assert s[4..] == "pm";
    assert ParseSuffix("pm") == Some(([], "pm"));
  }

  lemma AcceptsOutOfRange()
    ensures FormatTime(Text("99:99")) == Kept("99:99")
  {
    var s := "99:99";
    assert !IsSpace(s[0]) && !IsSpace(s[4]);
    assert TrimBounds(s) == (0, 5);
    assert Trim(s) == s;
    assert HourDigits(s) == 2;
    assert s[5..] == [];
  }

  lemma RejectsThreeHourDigits()
    ensures FormatTime(Text("123:45")) == DateFormatted
  {
    var s := "123:45";
    assert !IsSpace(s[0]) && !IsSpace(s[5]);
    assert TrimBounds(s) == (0, 6);
    assert Trim(s) == s;
    assert s[1] != ':' && s[2] != ':';
  }

  lemma RejectsOneMinuteDigit()
    ensures FormatTime(Text("14:3")) == DateFormatted
  {
    var s := "14:3";
    assert !IsSpace(s[0]) && !IsSpace(s[3]);
    assert TrimBounds(s) == (0, 4);
    assert Trim(s) == s;
    assert HourDigits(s) == 2;
  }

  lemma RejectsTwoSpaces()
    ensures FormatTime(Text("2:30  PM")) == DateFormatted
  {
    var s := "2:30  PM";
    assert !IsSpace(s[0]) && !IsSpace(s[7]);
    assert TrimBounds(s) == (0, 8);
    assert Trim(s) == s;
    assert HourDigits(s) == 1;
    assert |s[4..]| == 4;
  }

  /** A `Date` object never takes the time-only branch. */
  lemma DateObjectFormatted()
    ensures FormatTime(DateObject) == DateFormatted
  {
  }
}
