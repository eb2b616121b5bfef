/**
 * Duration texts of the course platform ("1h 20m", "2h", "45 min"): how the
 * tracker captures them from a page, reads them as minutes and writes minutes
 * back as text (content.js, `parseTimeToMinutes`, `formatMinutesToTime` and the
 * capture expression of `extractAndSaveModuleTime`).
 */
module Duration {
  import opened Wrappers
  import opened Matching
  import opened Text

  /** `parseInt(match[1])` for the leftmost match of a pattern whose first group is digits. */
  function GroupValue(s: string, pat: Pattern): nat
    requires DigitGroup(pat) && Search(s, pat).Some?
  {
    SearchGroupsDigits(s, pat);
    DecimalValue(Search(s, pat).value.group1)
  }

  /**
   * `parseTimeToMinutes`: the first `(\d+)h` counts sixty minutes per hour, the
   * first `(\d+)m` counts its minutes, and only when there is no `(\d+)m` at all
   * does a text containing `min` fall back to the first `(\d+)\s*min`.
   */
  function ParseTimeToMinutes(t: string): nat
  {
    var hourMatch := Search(t, DigitsBefore('h'));
    var minuteMatch := Search(t, DigitsBefore('m'));
    var fromHours := if hourMatch.Some? then GroupValue(t, DigitsBefore('h')) * 60 else 0;
    var fromMinutes := if minuteMatch.Some? then GroupValue(t, DigitsBefore('m')) else 0;
    var fromMinWord :=
      if Includes(t, "min") && minuteMatch.None? && Search(t, DigitsSpaceMin).Some?
      then GroupValue(t, DigitsSpaceMin) else 0;
    fromHours + fromMinutes + fromMinWord
  }

  /** `formatMinutesToTime`: `{n}m` below an hour, else `{h}h` or `{h}h {m}m`. */
  function FormatMinutesToTime(total: nat): string
  {
    if total < 60 then NatToString(total) + "m"
    else
      var hours := total / 60;
      var minutes := total % 60;
      if minutes == 0 then NatToString(hours) + "h"
      else NatToString(hours) + "h " + NatToString(minutes) + "m"
  }

  // ---------------------------------------------------------------------------
  // The three shapes of `\d+h\s*\d+m|\d+\s*min|\d+h`, the texts the tracker captures.

  datatype Shape =
    | HoursAndMinutes(hours: string, gap: string, minutes: string)  // \d+h\s*\d+m
    | MinutesWord(minutes: string, gap: string)                     // \d+\s*min
    | HoursOnly(hours: string)                                      // \d+h

  predicate IsDigits(d: string) { d != [] && AllIn(d, Digit) }

  predicate WellFormed(sh: Shape)
  {
    match sh
    case HoursAndMinutes(h, g, m) => IsDigits(h) && AllIn(g, Space) && IsDigits(m)
    case MinutesWord(m, g) => IsDigits(m) && AllIn(g, Space)
    case HoursOnly(h) => IsDigits(h)
  }

  function ShapeText(sh: Shape): string
  {
    match sh
    case HoursAndMinutes(h, g, m) => h + "h" + g + m + "m"
    case MinutesWord(m, g) => m + g + "min"
    case HoursOnly(h) => h + "h"
  }

  /** The number of minutes a shape stands for. */
  function ShapeMinutes(sh: Shape): nat
    requires WellFormed(sh)
  {
    match sh
    case HoursAndMinutes(h, _, m) => 60 * DecimalValue(h) + DecimalValue(m)
    case MinutesWord(m, _) => DecimalValue(m)
    case HoursOnly(h) => 60 * DecimalValue(h)
  }

  /** No `\d+h\s*\d+m` is written at `p`. */
  ghost predicate NoHoursAndMinutesAt(s: string, p: nat)
  {
    forall alt: Shape | alt.HoursAndMinutes? && WellFormed(alt) :: !LiteralAt(s, p, ShapeText(alt))
  }

  /**
   * The duration `sh` is what `\b\d+h\s*\d+m|\b\d+\s*min|\b\d+h` matches at
   * `p`: a word starts at `p`, the shape's text is written there, and a bare
   * `\d+h` is taken only when the first alternative does not match at `p`.
   * (The second alternative never matches where a digit run is followed by
   * `h`, and every digit or space run of a shape is followed by a character
   * outside its class, so the runs are the longest ones.)
   */
  ghost predicate DurationAt(s: string, p: nat, sh: Shape)
  {
    && p <= |s| && WordBoundary(s, p)
    && WellFormed(sh) && LiteralAt(s, p, ShapeText(sh))
    && (sh.HoursOnly? ==> NoHoursAndMinutesAt(s, p))
  }

  /** `sh` is at `p` and no duration starts earlier. */
  ghost predicate FirstDurationAt(s: string, p: nat, sh: Shape)
  {
    DurationAt(s, p, sh) && forall q: nat, other | q < p :: !DurationAt(s, q, other)
  }

  /**
   * `text.match(/\b\d+h\s*\d+m|\b\d+\s*min|\b\d+h/)?.[0] || ''`: the leftmost
   * duration that starts a word, or "" when the text holds none.
   */
  function CaptureDuration(text: string): (r: string)
    ensures r == "" <==> Search(text, DurationText).None?
    ensures r == "" ==> forall p: nat, sh :: !DurationAt(text, p, sh)
    ensures r != "" ==> exists p: nat, sh :: FirstDurationAt(text, p, sh) && ShapeText(sh) == r
    ensures r != "" ==> Includes(text, r)
    ensures r != "" ==> exists sh :: WellFormed(sh) && ShapeText(sh) == r
  {
    var m := Search(text, DurationText);
    if m.None? then
      DurationTextNone(text);
      ""
    else
      DurationTextFound(text);
      assert LiteralAt(text, m.value.start, text[m.value.start..m.value.end]);
      text[m.value.start..m.value.end]
  }

  /** Every match of the capture expression is a duration at its position, and ends where the duration does. */
  lemma DurationTextSound(s: string, p: nat) returns (sh: Shape)
    requires p <= |s| && MatchAt(s, p, DurationText).Some?
    ensures DurationAt(s, p, sh) && MatchAt(s, p, DurationText).value.end == p + |ShapeText(sh)|
  {
    assert MatchAt(s, p, DurationText) == DurationTextAt(s, p);
    var e1 := RunEnd(s, p, Digit);
    var end := DurationTextAt(s, p).value.end;
    if HoursMinutesEnd(s, e1).Some? {
      FirstAlternativeAt(s, p, e1);
      sh := HoursAndMinutesMatched(s, p, e1);
    } else if MinEnd(s, e1).Some? {
      SecondAlternativeAt(s, p, e1);
      sh := MinutesWordMatched(s, p, e1);
    } else {
      LastAlternativeAt(s, p, e1);
      sh := HoursOnlyMatched(s, p, e1);
    }
    DurationAtIntro(s, p, sh, end);
  }

  /** A well-formed shape written at a word start is a duration there, unless it is a bare `\d+h` the first alternative overrides. */
  lemma DurationAtIntro(s: string, p: nat, sh: Shape, end: nat)
    requires p <= end <= |s| && WordBoundary(s, p) && WellFormed(sh) && ShapeText(sh) == s[p..end]
    requires sh.HoursOnly? ==> NoHoursAndMinutesAt(s, p)
    ensures DurationAt(s, p, sh) && end == p + |ShapeText(sh)|
  {
  }

  /** The last alternative, `\d+h`, matched `s[p..]` with its digit run ending at `e1`, and the first did not. */
  lemma HoursOnlyMatched(s: string, p: nat, e1: nat) returns (sh: Shape)
    requires p < e1 < |s| && RunEnd(s, p, Digit) == e1 && s[e1] == 'h' && HoursMinutesEnd(s, e1).None?
    ensures WellFormed(sh) && ShapeText(sh) == s[p..e1 + 1] && (sh.HoursOnly? ==> NoHoursAndMinutesAt(s, p))
  {
    RunSlice(s, p, e1, Digit);
    sh := HoursOnly(s[p..e1]);
    SliceSplit(s, p, e1, e1 + 1);
    assert s[e1..e1 + 1] == "h";
    NoHoursAndMinutesBlocked(s, p, e1);
  }

  /** Where the first alternative fails after the digit run, no `\d+h\s*\d+m` is written at `p`. */
  lemma NoHoursAndMinutesBlocked(s: string, p: nat, e1: nat)
    requires p <= e1 <= |s| && RunEnd(s, p, Digit) == e1 && HoursMinutesEnd(s, e1).None?
    ensures NoHoursAndMinutesAt(s, p)
  {
    forall alt: Shape | alt.HoursAndMinutes? && WellFormed(alt)
      ensures !LiteralAt(s, p, ShapeText(alt))
    {
      if LiteralAt(s, p, ShapeText(alt)) {
        HoursAndMinutesAt(s, p, alt.hours, alt.gap, alt.minutes);
      }
    }
  }

  /** Every duration at a position is matched there by the capture expression. */
  lemma DurationTextComplete(s: string, p: nat, sh: Shape)
    requires DurationAt(s, p, sh)
    ensures MatchAt(s, p, DurationText) == Some(Match(p, p + |ShapeText(sh)|, "", ""))
  {
    DurationShapeMatched(s, p, sh);
    assert MatchAt(s, p, DurationText) == DurationTextAt(s, p);
  }

  lemma DurationShapeMatched(s: string, p: nat, sh: Shape)
    requires DurationAt(s, p, sh)
    ensures DurationTextAt(s, p) == Some(Match(p, p + |ShapeText(sh)|, "", ""))
  {
    if sh.HoursAndMinutes? {
      HoursAndMinutesDuration(s, p, sh);
    } else if sh.MinutesWord? {
      MinutesWordDuration(s, p, sh);
    } else {
      HoursOnlyDuration(s, p, sh);
    }
  }

  lemma HoursAndMinutesDuration(s: string, p: nat, sh: Shape)
    requires DurationAt(s, p, sh) && sh.HoursAndMinutes?
    ensures DurationTextAt(s, p) == Some(Match(p, p + |ShapeText(sh)|, "", ""))
  {
    assert LiteralAt(s, p, sh.hours + "h" + sh.gap + sh.minutes + "m");
    HoursAndMinutesComplete(s, p, sh.hours, sh.gap, sh.minutes);
  }

  lemma MinutesWordDuration(s: string, p: nat, sh: Shape)
    requires DurationAt(s, p, sh) && sh.MinutesWord?
    ensures DurationTextAt(s, p) == Some(Match(p, p + |ShapeText(sh)|, "", ""))
  {
    assert LiteralAt(s, p, sh.minutes + sh.gap + "min");
    MinutesWordComplete(s, p, sh.minutes, sh.gap);
  }

  lemma HoursOnlyDuration(s: string, p: nat, sh: Shape)
    requires DurationAt(s, p, sh) && sh.HoursOnly?
    ensures DurationTextAt(s, p) == Some(Match(p, p + |ShapeText(sh)|, "", ""))
  {
    assert LiteralAt(s, p, sh.hours + "h") && NoHoursAndMinutesAt(s, p);
    HoursOnlyComplete(s, p, sh.hours);
  }

  lemma HoursAndMinutesComplete(s: string, p: nat, h: string, g: string, m: string)
    requires p <= |s| && WordBoundary(s, p) && WellFormed(HoursAndMinutes(h, g, m)) && LiteralAt(s, p, h + "h" + g + m + "m")
    ensures DurationTextAt(s, p) == Some(Match(p, p + |h| + |g| + |m| + 2, "", ""))
  {
    HoursAndMinutesAt(s, p, h, g, m);
    FirstAlternativeAt(s, p, p + |h|);
  }

  lemma MinutesWordComplete(s: string, p: nat, m: string, g: string)
    requires p <= |s| && WordBoundary(s, p) && WellFormed(MinutesWord(m, g)) && LiteralAt(s, p, m + g + "min")
    ensures DurationTextAt(s, p) == Some(Match(p, p + |m| + |g| + 3, "", ""))
  {
    MinutesWordAt(s, p, m, g);
    SecondAlternativeAt(s, p, p + |m|);
  }

  /** A bare `\d+h` with no `\d+h\s*\d+m` at its position is matched by the last alternative. */
  lemma HoursOnlyComplete(s: string, p: nat, h: string)
    requires p <= |s| && WordBoundary(s, p) && IsDigits(h) && LiteralAt(s, p, h + "h") && NoHoursAndMinutesAt(s, p)
    ensures DurationTextAt(s, p) == Some(Match(p, p + |h| + 1, "", ""))
  {
    HoursOnlyAt(s, p, h);
    var a := p + |h|;
    if HoursMinutesEnd(s, a).Some? {
      var alt := HoursAndMinutesMatched(s, p, a);
    }
    LastAlternativeAt(s, p, a);
  }

  lemma FirstAlternativeAt(s: string, p: nat, e1: nat)
    requires p < e1 <= |s| && WordBoundary(s, p) && RunEnd(s, p, Digit) == e1 && HoursMinutesEnd(s, e1).Some?
    ensures DurationTextAt(s, p) == Some(Match(p, HoursMinutesEnd(s, e1).value, "", ""))
  {
  }

  lemma SecondAlternativeAt(s: string, p: nat, e1: nat)
    requires p < e1 <= |s| && WordBoundary(s, p) && RunEnd(s, p, Digit) == e1
    requires HoursMinutesEnd(s, e1).None? && MinEnd(s, e1).Some?
    ensures DurationTextAt(s, p) == Some(Match(p, MinEnd(s, e1).value, "", ""))
  {
  }

  lemma LastAlternativeAt(s: string, p: nat, e1: nat)
    requires p < e1 <= |s| && WordBoundary(s, p) && RunEnd(s, p, Digit) == e1
    requires HoursMinutesEnd(s, e1).None? && MinEnd(s, e1).None? && HoursEnd(s, e1).Some?
    ensures DurationTextAt(s, p) == Some(Match(p, e1 + 1, "", ""))
  {
  }

  /** Where the capture expression finds a match, it has found the first duration of the text. */
  lemma DurationTextFound(s: string)
    requires Search(s, DurationText).Some?
    ensures var m := Search(s, DurationText).value;
            exists sh :: FirstDurationAt(s, m.start, sh) && ShapeText(sh) == s[m.start..m.end]
  {
    var m := Search(s, DurationText).value;
    var sh := DurationTextSound(s, m.start);
    forall q: nat, other | q < m.start
      ensures !DurationAt(s, q, other)
    {
      if DurationAt(s, q, other) {
        DurationTextComplete(s, q, other);
      }
    }
    assert FirstDurationAt(s, m.start, sh);
  }

  /** Where the capture expression finds nothing, the text holds no duration. */
  lemma DurationTextNone(s: string)
    requires Search(s, DurationText).None?
    ensures forall p: nat, sh :: !DurationAt(s, p, sh)
  {
    forall p: nat, sh
      ensures !DurationAt(s, p, sh)
    {
      if DurationAt(s, p, sh) {
        DurationTextComplete(s, p, sh);
      }
    }
  }

  /** The first duration of the text is what the tracker captures. */
  lemma CaptureDurationLeftmost(text: string, p: nat, sh: Shape)
    requires FirstDurationAt(text, p, sh)
    ensures CaptureDuration(text) == ShapeText(sh)
  {
    FirstDurationSearched(text, p, sh);
    assert LiteralAt(text, p, ShapeText(sh));
  }

  /** The search of the capture expression stops at the first duration. */
  lemma FirstDurationSearched(text: string, p: nat, sh: Shape)
    requires FirstDurationAt(text, p, sh)
    ensures Search(text, DurationText) == Some(Match(p, p + |ShapeText(sh)|, "", ""))
  {
    DurationTextComplete(text, p, sh);
    NothingMatchedBefore(text, p);
    SearchFinds(text, DurationText, p);
  }

  /** Before the first duration, the capture expression matches nowhere. */
  lemma NothingMatchedBefore(text: string, p: nat)
    requires p <= |text| && forall q: nat, other | q < p :: !DurationAt(text, q, other)
    ensures forall q | 0 <= q < p :: MatchAt(text, q, DurationText).None?
  {
    forall q | 0 <= q < p
      ensures MatchAt(text, q, DurationText).None?
    {
      if MatchAt(text, q, DurationText).Some? {
        var other := DurationTextSound(text, q);
      }
    }
  }

  /** An indicator text gives its whole hours-and-minutes duration, not only the hours. */
  lemma CaptureExample()
    ensures CaptureDuration("1h 20m videos left") == "1h 20m"
  {
    var s := "1h 20m videos left";
    var sh := HoursAndMinutes("1", " ", "20");
    assert ShapeText(sh) == "1h 20m";
    assert s[0..6] == "1h 20m";
    assert AllIn(" ", Space);
    assert FirstDurationAt(s, 0, sh);
    CaptureDurationLeftmost(s, 0, sh);
  }

  /** `\d+h\s*\d+m` written at `p` is what the first alternative reads there. */
  lemma HoursAndMinutesAt(s: string, p: nat, h: string, g: string, m: string)
    requires WellFormed(HoursAndMinutes(h, g, m)) && LiteralAt(s, p, h + "h" + g + m + "m")
    ensures RunEnd(s, p, Digit) == p + |h|
    ensures HoursMinutesEnd(s, p + |h|) == Some(p + |h| + |g| + |m| + 2)
  {
    HoursAndMinutesPieces(s, p, h, g, m);
    HoursAndMinutesRuns(s, p, h, g, m);
  }

  /** The pieces of `\d+h\s*\d+m` written at `p`. */
  lemma HoursAndMinutesPieces(s: string, p: nat, h: string, g: string, m: string)
    requires LiteralAt(s, p, h + "h" + g + m + "m")
    ensures p + |h| + |g| + |m| + 2 <= |s|
    ensures LiteralAt(s, p, h) && LiteralAt(s, p + |h| + 1, g) && LiteralAt(s, p + |h| + 1 + |g|, m)
    ensures s[p + |h|] == 'h' && s[p + |h| + 1 + |g| + |m|] == 'm'
  {
    LiteralSplit(s, p, h + "h" + g + m, "m");
    LiteralSplit(s, p, h + "h" + g, m);
    LiteralSplit(s, p, h + "h", g);
    LiteralSplit(s, p, h, "h");
    LiteralChar(s, p + |h|, "h", 0);
    LiteralChar(s, p + |h| + 1 + |g| + |m|, "m", 0);
  }

  /** The runs of `\d+h\s*\d+m`, given its pieces at `p`. */
  lemma HoursAndMinutesRuns(s: string, p: nat, h: string, g: string, m: string)
    requires WellFormed(HoursAndMinutes(h, g, m))
    requires p + |h| + |g| + |m| + 2 <= |s|
    requires LiteralAt(s, p, h) && LiteralAt(s, p + |h| + 1, g) && LiteralAt(s, p + |h| + 1 + |g|, m)
    requires s[p + |h|] == 'h' && s[p + |h| + 1 + |g| + |m|] == 'm'
    ensures RunEnd(s, p, Digit) == p + |h|
    ensures HoursMinutesEnd(s, p + |h|) == Some(p + |h| + |g| + |m| + 2)
  {
    RunAtLiteral(s, p, h, Digit);
    HoursAndMinutesTail(s, p + |h|, g, m);
  }

  /** After the hours digits: `h`, the space run `g`, the digit run `m`, then `m`. */
  lemma HoursAndMinutesTail(s: string, a: nat, g: string, m: string)
    requires AllIn(g, Space) && IsDigits(m) && a + |g| + |m| + 2 <= |s|
    requires s[a] == 'h' && LiteralAt(s, a + 1, g) && LiteralAt(s, a + 1 + |g|, m) && s[a + 1 + |g| + |m|] == 'm'
    ensures HoursMinutesEnd(s, a) == Some(a + |g| + |m| + 2)
  {
    var b := a + 1 + |g|;
    var c := b + |m|;
    LiteralChar(s, b, m, 0);
    RunAtLiteral(s, a + 1, g, Space);
    RunAtLiteral(s, b, m, Digit);
    HoursMinutesEndIs(s, a, b, c);
  }

  /** `h`, a space run ending at `b` and a digit run ending at `c`, then `m`: the first alternative's tail. */
  lemma HoursMinutesEndIs(s: string, a: nat, b: nat, c: nat)
    requires a < b < c < |s| && s[a] == 'h' && s[c] == 'm'
    requires RunEnd(s, a + 1, Space) == b && RunEnd(s, b, Digit) == c
    ensures HoursMinutesEnd(s, a) == Some(c + 1)
  {
  }

  /** `\d+\s*min` written at `p` is what the second alternative reads there, and the first does not match. */
  lemma MinutesWordAt(s: string, p: nat, m: string, g: string)
    requires WellFormed(MinutesWord(m, g)) && LiteralAt(s, p, m + g + "min")
    ensures RunEnd(s, p, Digit) == p + |m|
    ensures HoursMinutesEnd(s, p + |m|).None?
    ensures MinEnd(s, p + |m|) == Some(p + |m| + |g| + 3)
  {
    LiteralSplit(s, p, m + g, "min");
    LiteralSplit(s, p, m, g);
    MinutesWordRuns(s, p, m, g);
  }

  /** The runs of `\d+\s*min`, given its pieces at `p`. */
  lemma MinutesWordRuns(s: string, p: nat, m: string, g: string)
    requires WellFormed(MinutesWord(m, g))
    requires LiteralAt(s, p, m) && LiteralAt(s, p + |m|, g) && LiteralAt(s, p + |m| + |g|, "min")
    ensures RunEnd(s, p, Digit) == p + |m|
    ensures HoursMinutesEnd(s, p + |m|).None?
    ensures MinEnd(s, p + |m|) == Some(p + |m| + |g| + 3)
  {
    MinutesWordTail(s, p + |m|, g);
    RunAtLiteral(s, p, m, Digit);
  }

  /** After the minutes digits: the space run `g`, then `min`. */
  lemma MinutesWordTail(s: string, a: nat, g: string)
    requires AllIn(g, Space) && LiteralAt(s, a, g) && LiteralAt(s, a + |g|, "min")
    ensures a < |s| && s[a] != 'h' && !InClass(s[a], Digit)
    ensures MinEnd(s, a) == Some(a + |g| + 3)
  {
    LiteralChar(s, a + |g|, "min", 0);
    if g != [] {
      LiteralChar(s, a, g, 0);
    }
    RunAtLiteral(s, a, g, Space);
  }

  /** `\d+h` written at `p` is what the last alternative reads there, and the second does not match. */
  lemma HoursOnlyAt(s: string, p: nat, h: string)
    requires IsDigits(h) && LiteralAt(s, p, h + "h")
    ensures RunEnd(s, p, Digit) == p + |h|
    ensures MinEnd(s, p + |h|).None?
    ensures HoursEnd(s, p + |h|) == Some(p + |h| + 1)
  {
    var a := p + |h|;
    LiteralSplit(s, p, h, "h");
    LiteralChar(s, a, "h", 0);
    RunAtLiteral(s, p, h, Digit);
    assert RunEnd(s, a, Space) == a;
    NotLiteralAt(s, a, "min", 0);
  }

  /** The first alternative, `\d+h\s*\d+m`, matched `s[p..]` with its digit run ending at `e1`. */
  lemma HoursAndMinutesMatched(s: string, p: nat, e1: nat) returns (sh: Shape)
    requires p < e1 <= |s| && RunEnd(s, p, Digit) == e1 && HoursMinutesEnd(s, e1).Some?
    ensures sh.HoursAndMinutes? && WellFormed(sh) && ShapeText(sh) == s[p..HoursMinutesEnd(s, e1).value]
  {
    var e2 := RunEnd(s, e1 + 1, Space);
    var e3 := RunEnd(s, e2, Digit);
    RunSlice(s, p, e1, Digit);
    RunSlice(s, e1 + 1, e2, Space);
    RunSlice(s, e2, e3, Digit);
    sh := HoursAndMinutes(s[p..e1], s[e1 + 1..e2], s[e2..e3]);
    assert HoursMinutesEnd(s, e1) == Some(e3 + 1);
    HoursAndMinutesSlices(s, p, e1, e2, e3);
  }

  /** `s[p..c + 1]` cut at an `h` at `a` and an `m` at `c`, with the minute digits from `b`. */
  lemma HoursAndMinutesSlices(s: string, p: nat, a: nat, b: nat, c: nat)
    requires p <= a && a + 1 <= b <= c < |s| && s[a] == 'h' && s[c] == 'm'
    ensures s[p..c + 1] == s[p..a] + "h" + s[a + 1..b] + s[b..c] + "m"
  {
    SliceSplit(s, p, a, c + 1);
    SliceSplit(s, a, a + 1, c + 1);
    SliceSplit(s, a + 1, b, c + 1);
    SliceSplit(s, b, c, c + 1);
    assert s[a..a + 1] == "h" && s[c..c + 1] == "m";
    ConcatFive(s[p..a], "h", s[a + 1..b], s[b..c], "m");
  }

  /** Five pieces joined from the right are the same text as joined from the left. */
  lemma ConcatFive(v: string, w: string, x: string, y: string, z: string)
    ensures v + (w + (x + (y + z))) == v + w + x + y + z
  {
  }

  /** The second alternative, `\d+\s*min`, matched `s[p..]` with its digit run ending at `e1`. */
  lemma MinutesWordMatched(s: string, p: nat, e1: nat) returns (sh: Shape)
    requires p < e1 <= |s| && RunEnd(s, p, Digit) == e1 && MinEnd(s, e1).Some?
    ensures sh.MinutesWord? && WellFormed(sh) && ShapeText(sh) == s[p..MinEnd(s, e1).value]
  {
    var e2 := RunEnd(s, e1, Space);
    RunSlice(s, p, e1, Digit);
    RunSlice(s, e1, e2, Space);
    sh := MinutesWord(s[p..e1], s[e1..e2]);
    assert MinEnd(s, e1) == Some(e2 + 3) && LiteralAt(s, e2, "min");
    MinutesWordSlices(s, p, e1, e2);
  }

  /** `s[p..c + 3]` cut where the minute digits end at `a` and `min` starts at `c`. */
  lemma MinutesWordSlices(s: string, p: nat, a: nat, c: nat)
    requires p <= a <= c && LiteralAt(s, c, "min")
    ensures s[p..c + 3] == s[p..a] + s[a..c] + "min"
  {
    SliceSplit(s, p, a, c + 3);
    SliceSplit(s, a, c, c + 3);
  }

  // ---------------------------------------------------------------------------
  // How the searches of `parseTimeToMinutes` behave on laid-out texts.

  /** Inside a maximal digit run that ends at `b`, `(\d+)c` matches iff `c` follows the run. */
  lemma DigitsBeforeInRun(s: string, q: nat, b: nat, c: char)
    requires q < b <= |s|
    requires forall k | q <= k < b :: IsDigit(s[k])
    requires b == |s| || !IsDigit(s[b])
    ensures MatchAt(s, q, DigitsBefore(c)) ==
            if b < |s| && s[b] == c then Some(Match(q, b + 1, s[q..b], "")) else None
  {
    RunEndIs(s, q, b, Digit);
  }

  /** No digit-led pattern matches where there is no digit. */
  lemma NoMatchAtNonDigit(s: string, q: nat, c: char)
    requires q <= |s| && (q == |s| || !IsDigit(s[q]))
    ensures MatchAt(s, q, DigitsBefore(c)).None?
  {
  }

  /** A text without the letter `c` has no `(\d+)c`. */
  lemma NoLetterNoMatch(s: string, c: char)
    requires forall j | 0 <= j < |s| :: s[j] != c
    ensures Search(s, DigitsBefore(c)).None?
  {
    forall q | 0 <= q <= |s|
      ensures MatchAt(s, q, DigitsBefore(c)).None?
    {
    }
    SearchFails(s, DigitsBefore(c));
  }

  /** A text that starts with digits followed by `c` has its `(\d+)c` at the start. */
  lemma LeadingDigitsBefore(s: string, d: string, c: char)
    requires IsDigits(d) && |d| < |s| && s[..|d|] == d && s[|d|] == c && !IsDigit(c)
    ensures Search(s, DigitsBefore(c)) == Some(Match(0, |d| + 1, d, ""))
  {
    assert forall k | 0 <= k < |d| :: s[k] == d[k];
    DigitsBeforeInRun(s, 0, |d|, c);
  }

  lemma ParseHoursAndMinutes(h: string, g: string, m: string)
    requires WellFormed(HoursAndMinutes(h, g, m))
    ensures ParseTimeToMinutes(h + "h" + g + m + "m") == 60 * DecimalValue(h) + DecimalValue(m)
  {
    var t := h + "h" + g + m + "m";
    var a, b := |h|, |h| + 1 + |g|;
    var z := b + |m|;
    assert forall k | 0 <= k < a :: t[k] == h[k];
    assert t[a] == 'h';
    assert forall k | a < k < b :: t[k] == g[k - a - 1];
    assert forall k | b <= k < z :: t[k] == m[k - b];
    assert t[z] == 'm' && |t| == z + 1;
    assert t[..a] == h;
    LeadingDigitsBefore(t, h, 'h');
    forall q | 0 <= q < b
      ensures MatchAt(t, q, DigitsBefore('m')).None?
    {
      if q < a {
        DigitsBeforeInRun(t, q, a, 'm');
      } else {
        NoMatchAtNonDigit(t, q, 'm');
      }
    }
    DigitsBeforeInRun(t, b, z, 'm');
    assert t[b..z] == m;
    SearchFinds(t, DigitsBefore('m'), b);
    NotIncludes(t, "min", 1);
  }

  lemma ParseMinutesWord(m: string, g: string)
    requires WellFormed(MinutesWord(m, g))
    ensures ParseTimeToMinutes(m + g + "min") == DecimalValue(m)
  {
    var t := m + g + "min";
    var a, b := |m|, |m| + |g|;
    assert forall k | 0 <= k < a :: t[k] == m[k];
    assert forall k | a <= k < b :: t[k] == g[k - a];
    assert t[b] == 'm' && t[b + 1] == 'i' && t[b + 2] == 'n' && |t| == b + 3;
    assert t[..a] == m;
    NoLetterNoMatch(t, 'h');
    assert LiteralAt(t, b, "min");
    if g == [] {
      LeadingDigitsBefore(t, m, 'm');
    } else {
      forall q | 0 <= q <= |t|
        ensures MatchAt(t, q, DigitsBefore('m')).None?
      {
        if q < a {
          DigitsBeforeInRun(t, q, a, 'm');
        } else {
          NoMatchAtNonDigit(t, q, 'm');
        }
      }
      SearchFails(t, DigitsBefore('m'));
      RunEndIs(t, 0, a, Digit);
      RunEndIs(t, a, b, Space);
      assert MatchAt(t, 0, DigitsSpaceMin) == Some(Match(0, b + 3, m, ""));
    }
  }

  lemma ParseHoursOnly(h: string)
    requires IsDigits(h)
    ensures ParseTimeToMinutes(h + "h") == 60 * DecimalValue(h)
  {
    var t := h + "h";
    assert t[..|h|] == h;
    LeadingDigitsBefore(t, h, 'h');
    NoLetterNoMatch(t, 'm');
    NotIncludes(t, "min", 0);
  }

  lemma ParseMinutesSuffix(d: string)
    requires IsDigits(d)
    ensures ParseTimeToMinutes(d + "m") == DecimalValue(d)
  {
    var t := d + "m";
    assert t[..|d|] == d;
    NoLetterNoMatch(t, 'h');
    LeadingDigitsBefore(t, d, 'm');
    NotIncludes(t, "min", 1);
  }

  // ---------------------------------------------------------------------------
  // Properties.

  /** Every captured duration reads as the minutes its shape stands for. */
  lemma ParseShape(sh: Shape)
    requires WellFormed(sh)
    ensures ParseTimeToMinutes(ShapeText(sh)) == ShapeMinutes(sh)
  {
    match sh
    case HoursAndMinutes(h, g, m) => ParseHoursAndMinutes(h, g, m);
    case MinutesWord(m, g) => ParseMinutesWord(m, g);
    case HoursOnly(h) => ParseHoursOnly(h);
  }

  /** What the tracker captures from a page is a duration that parses to its own minutes. */
  lemma CapturedParses(text: string)
    ensures var r := CaptureDuration(text);
            r != "" ==> exists sh :: WellFormed(sh) && ShapeText(sh) == r && ParseTimeToMinutes(r) == ShapeMinutes(sh)
  {
    var r := CaptureDuration(text);
    if r != "" {
      var sh :| WellFormed(sh) && ShapeText(sh) == r;
      ParseShape(sh);
    }
  }

  /** A `min` text with no space is counted once: `45min` is 45, not 90. */
  lemma MinWordCountedOnce(m: string)
    requires IsDigits(m)
    ensures ParseTimeToMinutes(m + "min") == DecimalValue(m)
  {
    ParseMinutesWord(m, "");
    assert m + "" + "min" == m + "min";
  }

  /** Reading back what `formatMinutesToTime` writes gives the same number of minutes. */
  lemma FormatRoundTrip(n: nat)
    ensures ParseTimeToMinutes(FormatMinutesToTime(n)) == n
  {
    var hours, minutes := n / 60, n % 60;
    assert n == 60 * hours + minutes;
    if n < 60 {
      ParseMinutesSuffix(NatToString(n));
    } else if minutes == 0 {
      ParseHoursOnly(NatToString(hours));
    } else {
      var dh, dm := NatToString(hours), NatToString(minutes);
      assert FormatMinutesToTime(n) == dh + "h " + dm + "m" == dh + "h" + " " + dm + "m";
      ParseHoursAndMinutes(dh, " ", dm);
    }
  }

  /** Different totals are never written the same way. */
  lemma FormatInjective(a: nat, b: nat)
    requires FormatMinutesToTime(a) == FormatMinutesToTime(b)
    ensures a == b
  {
    FormatRoundTrip(a);
    FormatRoundTrip(b);
  }

  /** The worked examples of the course platform's duration texts, read as minutes. */
  lemma ParseExamples()
    ensures ParseTimeToMinutes("1h 20m") == 80
    ensures ParseTimeToMinutes("2h") == 120
    ensures ParseTimeToMinutes("30m") == 30
  {
    FormatExamples();
    FormatRoundTrip(80);
    FormatRoundTrip(120);
    assert FormatMinutesToTime(30) == "30m";
    FormatRoundTrip(30);
  }

  /** `45 min` is forty-five minutes. */
  lemma ParseMinWordExample()
    ensures ParseTimeToMinutes("45 min") == 45
  {
    var m, g := "45", " ";
    assert DecimalValue(m) == 45 by { assert m[..1] == "4"; }
    assert m + g + "min" == "45 min";
    ParseMinutesWord(m, g);
  }

  /** `45min`, with no space, is forty-five minutes too, not ninety. */
  lemma ParseMinWordUnspacedExample()
    ensures ParseTimeToMinutes("45min") == 45
  {
    var m := "45";
    assert DecimalValue(m) == 45 by { assert m[..1] == "4"; }
    assert m + "min" == "45min";
    MinWordCountedOnce(m);
  }

  /** An empty duration text is zero minutes. */
  lemma ParseEmpty()
    ensures ParseTimeToMinutes("") == 0
  {
    NoLetterNoMatch("", 'h');
    NoLetterNoMatch("", 'm');
  }

  lemma FormatExamples()
    ensures FormatMinutesToTime(80) == "1h 20m"
    ensures FormatMinutesToTime(45) == "45m"
    ensures FormatMinutesToTime(120) == "2h"
  {
  }
}
