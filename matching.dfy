/**
 * Hand-written matchers for the fixed regular expressions the extension uses.
 *
 * A pattern is matched the way JavaScript's `String.prototype.match` matches a
 * regular expression without the `g` flag: the leftmost starting position wins,
 * and at one position the alternatives are tried in order.  Every repeated
 * character class in these patterns is followed by a character outside that
 * class (a digit run by `h`, `m`, `/`, a space or the text's end; a non-slash run
 * by `/`), so a shorter run can never succeed where the longest one fails: the
 * matchers take the longest run and never backtrack.
 */
module Matching {
  import opened Wrappers

  /** `\d`: an ASCII digit. */
  predicate IsDigit(c: char) { '0' <= c <= '9' }

  /** `\w`: an ASCII letter, digit or underscore. */
  predicate IsWordChar(c: char)
  {
    ('a' <= c <= 'z') || ('A' <= c <= 'Z') || IsDigit(c) || c == '_'
  }

  /** `\s`, which is also the set of characters `String.prototype.trim` strips. */
  predicate IsSpace(c: char)
  {
    c == ' ' || c == '\t' || c == '\n' || c == '\r' || c == '\U{000B}' || c == '\U{000C}'
    || c == '\U{00A0}' || c == '\U{1680}' || ('\U{2000}' <= c <= '\U{200A}')
    || c == '\U{2028}' || c == '\U{2029}' || c == '\U{202F}' || c == '\U{205F}'
    || c == '\U{3000}' || c == '\U{FEFF}'
  }

  /** The character classes that occur repeated in the patterns: `\d`, `\s` and `[^\/]`. */
  datatype CharClass = Digit | Space | NotSlash

  predicate InClass(c: char, cls: CharClass)
  {
    match cls
    case Digit => IsDigit(c)
    case Space => IsSpace(c)
    case NotSlash => c != '/'
  }

  predicate AllIn(s: string, cls: CharClass)
  {
    forall k | 0 <= k < |s| :: InClass(s[k], cls)
  }

  /** The index just past the longest run of `cls` characters that starts at `i`. */
  function RunEnd(s: string, i: nat, cls: CharClass): (e: nat)
    requires i <= |s|
    ensures i <= e <= |s|
    ensures forall k | i <= k < e :: InClass(s[k], cls)
    ensures e == |s| || !InClass(s[e], cls)
    decreases |s| - i
  {
    if i < |s| && InClass(s[i], cls) then RunEnd(s, i + 1, cls) else i
  }

  /** A run is determined by where it starts: any maximal run from `i` ends at `RunEnd`. */
  lemma RunEndIs(s: string, i: nat, e: nat, cls: CharClass)
    requires i <= e <= |s|
    requires forall k | i <= k < e :: InClass(s[k], cls)
    requires e == |s| || !InClass(s[e], cls)
    ensures RunEnd(s, i, cls) == e
  {
  }

  /** A run of `cls` characters, cut out of the text, is all `cls`. */
  lemma RunSlice(s: string, i: nat, e: nat, cls: CharClass)
    requires i <= e <= |s| && forall k | i <= k < e :: InClass(s[k], cls)
    ensures AllIn(s[i..e], cls)
  {
    forall k | 0 <= k < e - i
      ensures InClass(s[i..e][k], cls)
    {
      assert s[i..e][k] == s[i + k];
    }
  }

  /** Cutting a slice in two at `j`. */
  lemma SliceSplit(s: string, i: nat, j: nat, e: nat)
    requires i <= j <= e <= |s|
    ensures s[i..e] == s[i..j] + s[j..e]
  {
  }

  predicate LiteralAt(s: string, i: nat, lit: string)
  {
    i + |lit| <= |s| && s[i..i + |lit|] == lit
  }

  /** A literal found at `i` fixes the character at each of its offsets. */
  lemma LiteralChar(s: string, i: nat, lit: string, k: nat)
    requires LiteralAt(s, i, lit) && k < |lit|
    ensures s[i + k] == lit[k]
  {
    assert s[i + k] == s[i..i + |lit|][k];
  }

  /** A text whose character at offset `k` from `i` differs from `lit[k]` does not hold `lit` at `i`. */
  lemma NotLiteralAt(s: string, i: nat, lit: string, k: nat)
    requires k < |lit| && i + k < |s| && s[i + k] != lit[k]
    ensures !LiteralAt(s, i, lit)
  {
    if i + |lit| <= |s| {
      assert s[i..i + |lit|][k] == s[i + k];
    }
  }

  /** A literal run of `cls` characters, not followed by another, is the longest run from `i`. */
  lemma RunAtLiteral(s: string, i: nat, run: string, cls: CharClass)
    requires LiteralAt(s, i, run) && AllIn(run, cls)
    requires i + |run| == |s| || !InClass(s[i + |run|], cls)
    ensures RunEnd(s, i, cls) == i + |run|
  {
    forall k | i <= k < i + |run|
      ensures InClass(s[k], cls)
    {
      LiteralChar(s, i, run, k - i);
    }
    RunEndIs(s, i, i + |run|, cls);
  }

  /** `String.prototype.includes`. */
  function Includes(s: string, lit: string): (b: bool)
    ensures b <==> exists i: nat :: LiteralAt(s, i, lit)
  {
    IncludesFrom(s, lit, 0)
  }

  function IncludesFrom(s: string, lit: string, i: nat): (b: bool)
    ensures b <==> exists j: nat :: i <= j && LiteralAt(s, j, lit)
    decreases |s| - i
  {
    if i + |lit| > |s| then false
    else LiteralAt(s, i, lit) || IncludesFrom(s, lit, i + 1)
  }

  /** A text that lacks one of the characters of `lit` does not include `lit`. */
  lemma NotIncludes(s: string, lit: string, k: nat)
    requires k < |lit|
    requires forall j | 0 <= j < |s| :: s[j] != lit[k]
    ensures !Includes(s, lit)
  {
    forall i: nat
      ensures !LiteralAt(s, i, lit)
    {
      if i + |lit| <= |s| {
        assert s[i..i + |lit|][k] == s[i + k];
      }
    }
  }

  function TrimStart(s: string): (r: string)
    ensures |r| <= |s| && r == s[|s| - |r|..]
    ensures forall k | 0 <= k < |s| - |r| :: IsSpace(s[k])
    ensures r == [] || !IsSpace(r[0])
  {
    if s != [] && IsSpace(s[0]) then TrimStart(s[1..]) else s
  }

  function TrimEnd(s: string): (r: string)
    ensures |r| <= |s| && r == s[..|r|]
    ensures forall k | |r| <= k < |s| :: IsSpace(s[k])
    ensures r == [] || !IsSpace(r[|r| - 1])
  {
    if s != [] && IsSpace(s[|s| - 1]) then TrimEnd(s[..|s| - 1]) else s
  }

  /** `String.prototype.trim`: `s` without its leading and trailing white space. */
  function Trim(s: string): (r: string)
    ensures r == [] || (!IsSpace(r[0]) && !IsSpace(r[|r| - 1]))
    ensures exists a: nat ::
              && LiteralAt(s, a, r)
              && (forall k | 0 <= k < a :: IsSpace(s[k]))
              && (forall k | a + |r| <= k < |s| :: IsSpace(s[k]))
  {
    var t := TrimStart(s);
    var r := TrimEnd(t);
    var a := |s| - |t|;
    TrimmedInside(s, t, r, a);
    r
  }

  /** What is left after trimming both ends sits inside the text, with only white space around it. */
  lemma TrimmedInside(s: string, t: string, r: string, a: nat)
    requires a + |t| == |s| && t == s[a..] && |r| <= |t| && r == t[..|r|]
    requires forall k | |r| <= k < |t| :: IsSpace(t[k])
    ensures LiteralAt(s, a, r)
    ensures forall k | a + |r| <= k < |s| :: IsSpace(s[k])
  {
    assert s[a..a + |r|] == r;
    forall k | a + |r| <= k < |s|
      ensures IsSpace(s[k])
    {
      assert s[k] == t[k - a];
    }
  }

  /** `\b` at position `p`. */
  predicate WordBoundary(s: string, p: nat)
    requires p <= |s|
  {
    (p > 0 && IsWordChar(s[p - 1])) != (p < |s| && IsWordChar(s[p]))
  }

  /** The regular-expression literals of the extension. */
  datatype Pattern =
    | LearnModule           // /\/learn\/([^\/]+)\/home\/module\/(\d+)/
    | HomeModule            // /\/home\/module\/(\d+)/
    | CourseraLearn         // /coursera\.org\/learn\/([^\/]+)/
    | ModuleLabel           // /Module (\d+)/
    | DigitsBefore(letter: char)  // /(\d+)h/ and /(\d+)m/
    | DigitsSpaceMin        // /(\d+)\s*min/
    | DurationText          // /\b\d+h\s*\d+m|\b\d+\s*min|\b\d+h/

  /**
   * A successful match: `s[start..end]` is `match[0]`, and `group1`, `group2`
   * are `match[1]`, `match[2]` ("" where the pattern has no such group).
   */
  datatype Match = Match(start: nat, end: nat, group1: string, group2: string)

  /** `lit` at `i`, then a non-empty run of `cls`: the index just past the run. */
  function LiteralThenRun(s: string, i: nat, lit: string, cls: CharClass): (e: Option<nat>)
    requires i <= |s|
    ensures e.Some? ==> i + |lit| < e.value <= |s|
  {
    if LiteralAt(s, i, lit) then
      var e := RunEnd(s, i + |lit|, cls);
      if e > i + |lit| then Some(e) else None
    else None
  }

  /** `h\s*\d+m` right after a digit run that ends at `e1`. */
  function HoursMinutesEnd(s: string, e1: nat): (e: Option<nat>)
    requires e1 <= |s|
    ensures e.Some? ==> e1 < e.value <= |s|
  {
    if e1 < |s| && s[e1] == 'h' then
      var e2 := RunEnd(s, e1 + 1, Space);
      var e3 := RunEnd(s, e2, Digit);
      if e2 < e3 < |s| && s[e3] == 'm' then Some(e3 + 1) else None
    else None
  }

  /** `\s*min` right after a digit run that ends at `e1`. */
  function MinEnd(s: string, e1: nat): (e: Option<nat>)
    requires e1 <= |s|
    ensures e.Some? ==> e1 < e.value <= |s|
  {
    var e2 := RunEnd(s, e1, Space);
    if LiteralAt(s, e2, "min") then Some(e2 + 3) else None
  }

  /** `h` right after a digit run that ends at `e1`. */
  function HoursEnd(s: string, e1: nat): (e: Option<nat>)
    requires e1 <= |s|
    ensures e.Some? ==> e1 < e.value <= |s|
  {
    if e1 < |s| && s[e1] == 'h' then Some(e1 + 1) else None
  }

  /** Patterns whose first group is a run of digits. */
  predicate DigitGroup(pat: Pattern)
  {
    pat.HomeModule? || pat.ModuleLabel? || pat.DigitsBefore? || pat.DigitsSpaceMin?
  }

  /** `lit`, then a captured non-empty run of `cls`, at `p`. */
  function LiteralThenGroupAt(s: string, p: nat, lit: string, cls: CharClass): (r: Option<Match>)
    requires p <= |s|
    ensures r.Some? ==> r.value.start == p < r.value.end <= |s|
    ensures r.Some? ==> r.value.group1 != [] && AllIn(r.value.group1, cls) && r.value.group2 == ""
  {
    var e := LiteralThenRun(s, p, lit, cls);
    if e.Some? then Some(Match(p, e.value, s[p + |lit|..e.value], "")) else None
  }

  function LearnModuleAt(s: string, p: nat): (r: Option<Match>)
    requires p <= |s|
    ensures r.Some? ==> r.value.start == p < r.value.end <= |s|
    ensures r.Some? ==> r.value.group2 != [] && AllIn(r.value.group2, Digit)
  {
    var e1 := LiteralThenRun(s, p, "/learn/", NotSlash);
    if e1.None? then None
    else
      var e2 := LiteralThenRun(s, e1.value, "/home/module/", Digit);
      if e2.None? then None
      else Some(Match(p, e2.value, s[p + 7..e1.value], s[e1.value + 13..e2.value]))
  }

  function DigitsBeforeAt(s: string, p: nat, c: char): (r: Option<Match>)
    requires p <= |s|
    ensures r.Some? ==> r.value.start == p < r.value.end <= |s|
    ensures r.Some? ==> r.value.group1 != [] && AllIn(r.value.group1, Digit)
  {
    var e := RunEnd(s, p, Digit);
    if p < e < |s| && s[e] == c then Some(Match(p, e + 1, s[p..e], "")) else None
  }

  function DigitsSpaceMinAt(s: string, p: nat): (r: Option<Match>)
    requires p <= |s|
    ensures r.Some? ==> r.value.start == p < r.value.end <= |s|
    ensures r.Some? ==> r.value.group1 != [] && AllIn(r.value.group1, Digit)
  {
    var e1 := RunEnd(s, p, Digit);
    var e := MinEnd(s, e1);
    if p < e1 && e.Some? then Some(Match(p, e.value, s[p..e1], "")) else None
  }

  function DurationTextAt(s: string, p: nat): (r: Option<Match>)
    requires p <= |s|
    ensures r.Some? ==> r.value.start == p < r.value.end <= |s|
  {
    var e1 := RunEnd(s, p, Digit);
    if !WordBoundary(s, p) || e1 == p then None
    else
      var e :=
        if HoursMinutesEnd(s, e1).Some? then HoursMinutesEnd(s, e1)
        else if MinEnd(s, e1).Some? then MinEnd(s, e1)
        else HoursEnd(s, e1);
      if e.Some? then Some(Match(p, e.value, "", "")) else None
  }

  /** The match of `pat` that starts exactly at `p`, if there is one. */
  function MatchAt(s: string, p: nat, pat: Pattern): (r: Option<Match>)
    requires p <= |s|
    ensures r.Some? ==> r.value.start == p < r.value.end <= |s|
  {
    match pat
    case LearnModule => LearnModuleAt(s, p)
    case HomeModule => LiteralThenGroupAt(s, p, "/home/module/", Digit)
    case CourseraLearn => LiteralThenGroupAt(s, p, "coursera.org/learn/", NotSlash)
    case ModuleLabel => LiteralThenGroupAt(s, p, "Module ", Digit)
    case DigitsBefore(c) => DigitsBeforeAt(s, p, c)
    case DigitsSpaceMin => DigitsSpaceMinAt(s, p)
    case DurationText => DurationTextAt(s, p)
  }

  /** The digit groups of a match are non-empty runs of digits. */
  lemma MatchGroupsDigits(s: string, p: nat, pat: Pattern)
    requires p <= |s| && MatchAt(s, p, pat).Some?
    ensures DigitGroup(pat) ==> MatchAt(s, p, pat).value.group1 != [] && AllIn(MatchAt(s, p, pat).value.group1, Digit)
    ensures pat.LearnModule? ==> MatchAt(s, p, pat).value.group2 != [] && AllIn(MatchAt(s, p, pat).value.group2, Digit)
  {
  }

  /** The groups of the leftmost match, for patterns whose first group is digits. */
  lemma SearchGroupsDigits(s: string, pat: Pattern)
    requires Search(s, pat).Some?
    ensures DigitGroup(pat) ==> Search(s, pat).value.group1 != [] && AllIn(Search(s, pat).value.group1, Digit)
    ensures pat.LearnModule? ==> Search(s, pat).value.group2 != [] && AllIn(Search(s, pat).value.group2, Digit)
  {
    MatchGroupsDigits(s, Search(s, pat).value.start, pat);
  }

  /** The leftmost match of `pat` that starts at `p` or later. */
  function SearchFrom(s: string, p: nat, pat: Pattern): (r: Option<Match>)
    requires p <= |s|
    ensures r.Some? ==> p <= r.value.start < |s| && MatchAt(s, r.value.start, pat) == r
    ensures r.Some? ==> forall q | p <= q < r.value.start :: MatchAt(s, q, pat).None?
    ensures r.None? ==> forall q | p <= q <= |s| :: MatchAt(s, q, pat).None?
    decreases |s| - p
  {
    var m := MatchAt(s, p, pat);
    if m.Some? then m
    else if p == |s| then None
    else
      var r := SearchFrom(s, p + 1, pat);
      assert r.Some? ==> forall q | p <= q < r.value.start :: MatchAt(s, q, pat).None? by {
        if r.Some? {
          forall q | p <= q < r.value.start
            ensures MatchAt(s, q, pat).None?
          {
            if q == p { assert MatchAt(s, q, pat) == m; }
          }
        }
      }
      r
  }

  /** `s.match(pat)`: the leftmost match, or `None` (`null`). */
  function Search(s: string, pat: Pattern): Option<Match>
  {
    SearchFrom(s, 0, pat)
  }

  /** A match at `q` with none before it is the one `Search` returns. */
  lemma SearchFinds(s: string, pat: Pattern, q: nat)
    requires q <= |s| && MatchAt(s, q, pat).Some?
    requires forall q' | 0 <= q' < q :: MatchAt(s, q', pat).None?
    ensures Search(s, pat) == MatchAt(s, q, pat)
  {
  }

  /** Without a match at any position `Search` returns `None`. */
  lemma SearchFails(s: string, pat: Pattern)
    requires forall q | 0 <= q <= |s| :: MatchAt(s, q, pat).None?
    ensures Search(s, pat).None?
  {
  }

  // ---------------------------------------------------------------------------
  // What each URL and label pattern accepts, stated without the matcher.  The
  // duration pattern is described the same way in the Duration module, over
  // the shapes it matches.

  lemma LiteralThenRunSound(s: string, i: nat, lit: string, cls: CharClass)
    requires i <= |s| && LiteralThenRun(s, i, lit, cls).Some?
    ensures var e := LiteralThenRun(s, i, lit, cls).value;
            && LiteralAt(s, i, lit + s[i + |lit|..e])
            && AllIn(s[i + |lit|..e], cls)
            && (e == |s| || !InClass(s[e], cls))
  {
    var e := LiteralThenRun(s, i, lit, cls).value;
    assert s[i..e] == s[i..i + |lit|] + s[i + |lit|..e];
  }

  lemma LiteralThenRunComplete(s: string, i: nat, lit: string, run: string, cls: CharClass)
    requires LiteralAt(s, i, lit + run) && run != [] && AllIn(run, cls)
    requires i + |lit| + |run| == |s| || !InClass(s[i + |lit| + |run|], cls)
    ensures LiteralThenRun(s, i, lit, cls) == Some(i + |lit| + |run|)
  {
    var e := i + |lit| + |run|;
    assert s[i..e] == lit + run;
    assert s[i..i + |lit|] == s[i..e][..|lit|];
    assert forall k | i + |lit| <= k < e :: s[k] == run[k - i - |lit|];
    RunEndIs(s, i + |lit|, e, cls);
  }

  /** `/learn/{slug}/home/module/{number}` at `p`, with the whole digit run as `number`. */
  predicate CoursePathAt(s: string, p: nat, slug: string, number: string)
  {
    && LiteralAt(s, p, "/learn/" + slug)
    && LiteralAt(s, p + 7 + |slug|, "/home/module/" + number)
    && slug != [] && AllIn(slug, NotSlash)
    && number != [] && AllIn(number, Digit)
    && var e := p + 20 + |slug| + |number|; e == |s| || !IsDigit(s[e])
  }

  lemma LearnModuleSound(s: string, p: nat)
    requires p <= |s| && MatchAt(s, p, LearnModule).Some?
    ensures var m := MatchAt(s, p, LearnModule).value;
            CoursePathAt(s, p, m.group1, m.group2) && m.end == p + 20 + |m.group1| + |m.group2|
  {
    var e1 := LiteralThenRun(s, p, "/learn/", NotSlash).value;
    var e2 := LiteralThenRun(s, e1, "/home/module/", Digit).value;
    assert MatchAt(s, p, LearnModule) == Some(Match(p, e2, s[p + 7..e1], s[e1 + 13..e2]));
    LiteralThenRunSound(s, p, "/learn/", NotSlash);
    LiteralThenRunSound(s, e1, "/home/module/", Digit);
  }

  lemma LearnModuleComplete(s: string, p: nat, slug: string, number: string)
    requires CoursePathAt(s, p, slug, number)
    ensures MatchAt(s, p, LearnModule) == Some(Match(p, p + 20 + |slug| + |number|, slug, number))
  {
    var e1 := p + 7 + |slug|;
    LearnSlugComplete(s, p, slug, number);
    CoursePathModule(s, p, slug, number);
    HomeModuleComplete(s, e1, number);
    assert MatchAt(s, e1, HomeModule) == LiteralThenGroupAt(s, e1, "/home/module/", Digit);
  }

  /** The `/learn/{slug}` part of a course path. */
  lemma LearnSlugComplete(s: string, p: nat, slug: string, number: string)
    requires CoursePathAt(s, p, slug, number)
    ensures LiteralThenRun(s, p, "/learn/", NotSlash) == Some(p + 7 + |slug|)
    ensures s[p + 7..p + 7 + |slug|] == slug
  {
    LiteralChar(s, p + 7 + |slug|, "/home/module/" + number, 0);
    LiteralThenRunComplete(s, p, "/learn/", slug, NotSlash);
    LiteralSplit(s, p, "/learn/", slug);
  }

  lemma LiteralSplit(s: string, i: nat, a: string, b: string)
    requires LiteralAt(s, i, a + b)
    ensures LiteralAt(s, i, a) && LiteralAt(s, i + |a|, b)
  {
    assert s[i..i + |a|] == s[i..i + |a + b|][..|a|];
    assert s[i + |a|..i + |a| + |b|] == s[i..i + |a + b|][|a|..];
  }

  /** `/home/module/{number}` at `p`, with the whole digit run as `number`. */
  predicate ModulePathAt(s: string, p: nat, number: string)
  {
    && LiteralAt(s, p, "/home/module/" + number)
    && number != [] && AllIn(number, Digit)
    && var e := p + 13 + |number|; e == |s| || !IsDigit(s[e])
  }

  /** A course path holds a module path right after its slug. */
  lemma CoursePathModule(s: string, p: nat, slug: string, number: string)
    requires CoursePathAt(s, p, slug, number)
    ensures ModulePathAt(s, p + 7 + |slug|, number)
  {
  }

  lemma HomeModuleSound(s: string, p: nat)
    requires p <= |s| && MatchAt(s, p, HomeModule).Some?
    ensures var m := MatchAt(s, p, HomeModule).value;
            ModulePathAt(s, p, m.group1) && m.end == p + 13 + |m.group1|
  {
    LiteralThenRunSound(s, p, "/home/module/", Digit);
  }

  lemma HomeModuleComplete(s: string, p: nat, number: string)
    requires ModulePathAt(s, p, number)
    ensures MatchAt(s, p, HomeModule) == Some(Match(p, p + 13 + |number|, number, ""))
  {
    LiteralThenRunComplete(s, p, "/home/module/", number, Digit);
    var lit := "/home/module/" + number;
    assert s[p..p + |lit|] == lit;
    assert s[p + 13..p + |lit|] == lit[13..] == number;
  }

  /** `coursera.org/learn/{slug}` at `p`, with the whole non-slash run as `slug`. */
  predicate CourseSlugAt(s: string, p: nat, slug: string)
  {
    && LiteralAt(s, p, "coursera.org/learn/" + slug)
    && slug != [] && AllIn(slug, NotSlash)
    && var e := p + 19 + |slug|; e == |s| || s[e] == '/'
  }

  lemma CourseraLearnSound(s: string, p: nat)
    requires p <= |s| && MatchAt(s, p, CourseraLearn).Some?
    ensures var m := MatchAt(s, p, CourseraLearn).value;
            CourseSlugAt(s, p, m.group1) && m.end == p + 19 + |m.group1|
  {
    LiteralThenRunSound(s, p, "coursera.org/learn/", NotSlash);
  }

  lemma CourseraLearnComplete(s: string, p: nat, slug: string)
    requires CourseSlugAt(s, p, slug)
    ensures MatchAt(s, p, CourseraLearn) == Some(Match(p, p + 19 + |slug|, slug, ""))
  {
    LiteralThenRunComplete(s, p, "coursera.org/learn/", slug, NotSlash);
    var lit := "coursera.org/learn/" + slug;
    assert s[p..p + |lit|] == lit;
    assert s[p + 19..p + |lit|] == lit[19..] == slug;
  }

  /** `Module {number}` at `p`, with the whole digit run as `number`. */
  predicate ModuleLabelAt(s: string, p: nat, number: string)
  {
    && LiteralAt(s, p, "Module " + number)
    && number != [] && AllIn(number, Digit)
    && var e := p + 7 + |number|; e == |s| || !IsDigit(s[e])
  }

  lemma ModuleLabelSound(s: string, p: nat)
    requires p <= |s| && MatchAt(s, p, ModuleLabel).Some?
    ensures var m := MatchAt(s, p, ModuleLabel).value;
            ModuleLabelAt(s, p, m.group1) && m.end == p + 7 + |m.group1|
  {
    LiteralThenRunSound(s, p, "Module ", Digit);
  }

  lemma ModuleLabelComplete(s: string, p: nat, number: string)
    requires ModuleLabelAt(s, p, number)
    ensures MatchAt(s, p, ModuleLabel) == Some(Match(p, p + 7 + |number|, number, ""))
  {
    LiteralThenRunComplete(s, p, "Module ", number, Digit);
    var lit := "Module " + number;
    assert s[p..p + |lit|] == lit;
    assert s[p + 7..p + |lit|] == lit[7..] == number;
  }
}
