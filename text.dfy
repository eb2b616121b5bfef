/** String helpers that stand in for the JavaScript built-ins the extension calls. */
module Text {
  import opened Wrappers
  import opened Matching

  /** The value of one ASCII digit. */
  function DigitValue(c: char): nat
    requires IsDigit(c)
  {
    c as int - '0' as int
  }

  function DigitChar(d: nat): (c: char)
    requires d < 10
    ensures IsDigit(c) && DigitValue(c) == d
  {
    ('0' as int + d) as char
  }

  /** `parseInt` of a non-empty run of decimal digits. */
  function DecimalValue(digits: string): nat
    requires AllIn(digits, Digit)
  {
    if digits == [] then 0
    else DecimalValue(digits[..|digits| - 1]) * 10 + DigitValue(digits[|digits| - 1])
  }

  /** The decimal text of a number, as `${n}` writes it: digits only, no leading zero. */
  function NatToString(n: nat): (s: string)
    ensures s != [] && AllIn(s, Digit)
    ensures s[0] == '0' ==> n == 0
    ensures DecimalValue(s) == n
  {
    if n < 10 then [DigitChar(n)]
    else
      var prefix := NatToString(n / 10);
      var s := prefix + [DigitChar(n % 10)];
      assert s[..|s| - 1] == prefix;
      s
  }

  /** Two numbers with the same text are the same number. */
  lemma NatToStringInjective(a: nat, b: nat)
    requires NatToString(a) == NatToString(b)
    ensures a == b
  {
  }

  /** `Array.prototype.join(sep)`. */
  function Join(parts: seq<string>, sep: string): string
  {
    if parts == [] then ""
    else if |parts| == 1 then parts[0]
    else parts[0] + sep + Join(parts[1..], sep)
  }

  predicate StartsWith(s: string, prefix: string)
  {
    |prefix| <= |s| && s[..|prefix|] == prefix
  }

  /** `s.replace(/-/g, ' ')`: every hyphen becomes a space, nothing else changes. */
  function ReplaceHyphens(s: string): (r: string)
    ensures |r| == |s|
    ensures forall i | 0 <= i < |s| :: r[i] == if s[i] == '-' then ' ' else s[i]
  {
    if s == [] then []
    else [if s[0] == '-' then ' ' else s[0]] + ReplaceHyphens(s[1..])
  }

  /** `toUpperCase` of one `\w` character: only `a`..`z` change. */
  function UpperWordChar(c: char): char
  {
    if 'a' <= c <= 'z' then (c as int - 32) as char else c
  }

  /** Whether a `\b\w` match starts at an index whose preceding character is `before`. */
  predicate StartsWord(before: Option<char>, c: char)
  {
    IsWordChar(c) && (before.None? || !IsWordChar(before.value))
  }

  /**
   * `s.replace(/\b\w/g, l => l.toUpperCase())`: the first word character of
   * every word is upper-cased; the length never changes.
   */
  function CapitalizeWords(s: string): (r: string)
    ensures |r| == |s|
    ensures forall i | 0 <= i < |s| ::
              r[i] == if StartsWord(if i == 0 then None else Some(s[i - 1]), s[i])
                      then UpperWordChar(s[i]) else s[i]
  {
    CapitalizeFrom(s, None)
  }

  function CapitalizeFrom(s: string, before: Option<char>): (r: string)
    ensures |r| == |s|
    ensures forall i | 0 <= i < |s| ::
              r[i] == if StartsWord(if i == 0 then before else Some(s[i - 1]), s[i])
                      then UpperWordChar(s[i]) else s[i]
  {
    if s == [] then []
    else
      var head := if StartsWord(before, s[0]) then UpperWordChar(s[0]) else s[0];
      var rest := CapitalizeFrom(s[1..], Some(s[0]));
      [head] + rest
  }

  /**
   * The ordinal order on strings, standing in for `localeCompare`: `a` sorts
   * no later than `b`.
   */
  predicate LexLe(a: string, b: string)
  {
    a == [] || (b != [] && (a[0] < b[0] || (a[0] == b[0] && LexLe(a[1..], b[1..]))))
  }

  lemma {:induction false} LexLeTotal(a: string, b: string)
    ensures LexLe(a, b) || LexLe(b, a)
  {
    if a != [] && b != [] && a[0] == b[0] {
      LexLeTotal(a[1..], b[1..]);
    }
  }

  lemma {:induction false} LexLeTransitive(a: string, b: string, c: string)
    requires LexLe(a, b) && LexLe(b, c)
    ensures LexLe(a, c)
  {
    if a != [] && b != [] && c != [] && a[0] == b[0] == c[0] {
      LexLeTransitive(a[1..], b[1..], c[1..]);
    }
  }

  lemma {:induction false} LexLeAntisymmetric(a: string, b: string)
    requires LexLe(a, b) && LexLe(b, a)
    ensures a == b
  {
    if a != [] && b != [] {
      LexLeAntisymmetric(a[1..], b[1..]);
      assert a == [a[0]] + a[1..];
      assert b == [b[0]] + b[1..];
    }
  }
}
