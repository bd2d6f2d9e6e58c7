/**
  The few JavaScript string and number operations `invertColor` in draw.js
  relies on, with the behaviour ECMAScript defines for them: `parseInt(s, 16)`
  (leading white space, an optional sign, an optional "0x" prefix, the longest
  run of hex digits, NaN when there is none), `Number.prototype.toString(16)`,
  `String.prototype.padStart`, `substring` (indices clamped to the string) and
  `slice(1)`. A string is a sequence of characters here; the scans work by
  index, as the standard describes them.
 */
module JsText {

  /** A JavaScript number as `invertColor` can meet one: an integer or NaN. */
  datatype JsNumber = Num(n: int) | NaN

  /** The characters `parseInt` skips at the start (StrWhiteSpaceChar). */
  predicate IsJsSpace(c: char) {
    c == '\t' || c == '\n' || c == '\r' || c == ' ' ||
    c == '\U{000B}' || c == '\U{000C}' || c == '\U{00A0}' || c == '\U{1680}' ||
    ('\U{2000}' <= c <= '\U{200A}') ||
    c == '\U{2028}' || c == '\U{2029}' || c == '\U{202F}' || c == '\U{205F}' ||
    c == '\U{3000}' || c == '\U{FEFF}'
  }

  predicate IsHexDigit(c: char) {
    ('0' <= c <= '9') || ('a' <= c <= 'f') || ('A' <= c <= 'F')
  }

  predicate AllHex(s: string) {
    forall i :: 0 <= i < |s| ==> IsHexDigit(s[i])
  }

  function DigitValue(c: char): (v: nat)
    requires IsHexDigit(c)
    ensures v < 16
  {
    if '0' <= c <= '9' then c as int - '0' as int
    else if 'a' <= c <= 'f' then c as int - 'a' as int + 10
    else c as int - 'A' as int + 10
  }

  /**
    The end of the white space at the start of s[..n]: the first index below
    n that does not hold white space, or n. The scan is defined on the prefix
    so that it unfolds towards the start of the string.
   */
  function SpaceEnd(s: string, n: nat): (e: nat)
    requires n <= |s|
    ensures e <= n
  {
    if n == 0 then 0
    else
      var e := SpaceEnd(s, n - 1);
      if e == n - 1 && IsJsSpace(s[n - 1]) then n else e
  }

  /** The end of the run of hex digits that starts at k, within s[..n]. */
  function HexEnd(s: string, k: nat, n: nat): (e: nat)
    requires k <= n <= |s|
    ensures k <= e <= n
    ensures forall i :: k <= i < e ==> IsHexDigit(s[i])
    decreases n
  {
    if n == k then k
    else
      var e := HexEnd(s, k, n - 1);
      if e == n - 1 && IsHexDigit(s[n - 1]) then n else e
  }

  /** The value of the hex digits s[a..b], most significant first. */
  function HexValue(s: string, a: nat, b: nat): nat
    requires a <= b <= |s| && forall i :: a <= i < b ==> IsHexDigit(s[i])
    decreases b - a
  {
    if b == a then 0 else 16 * HexValue(s, a, b - 1) + DigitValue(s[b - 1])
  }

  /** `parseInt(s, 16)`. */
  function ParseHex(s: string): JsNumber {
    var i := SpaceEnd(s, |s|);
    var sign := if i < |s| && s[i] == '-' then -1 else 1;
    var j := if i < |s| && (s[i] == '-' || s[i] == '+') then i + 1 else i;
    var k := if j + 1 < |s| && s[j] == '0' && (s[j + 1] == 'x' || s[j + 1] == 'X') then j + 2 else j;
    var e := HexEnd(s, k, |s|);
    if e == k then NaN else Num(sign * HexValue(s, k, e))
  }

  /** White space is skipped up to the first other character. */
  lemma {:induction false} SpaceEndFacts(s: string, n: nat)
    requires n <= |s|
    ensures forall i :: 0 <= i < SpaceEnd(s, n) ==> IsJsSpace(s[i])
    ensures SpaceEnd(s, n) < n ==> !IsJsSpace(s[SpaceEnd(s, n)])
  {
    if n > 0 {
      SpaceEndFacts(s, n - 1);
    }
  }

  /** The run of hex digits stops at the first other character. */
  lemma {:induction false} HexEndStops(s: string, k: nat, n: nat)
    requires k <= n <= |s|
    ensures HexEnd(s, k, n) < n ==> !IsHexDigit(s[HexEnd(s, k, n)])
    decreases n
  {
    if n > k {
      HexEndStops(s, k, n - 1);
    }
  }

  /** In a string of hex digits the run reaches the end. */
  lemma {:induction false} HexEndAll(s: string, k: nat, n: nat)
    requires k <= n <= |s| && AllHex(s)
    ensures HexEnd(s, k, n) == n
    decreases n
  {
    if n > k {
      HexEndAll(s, k, n - 1);
    }
  }

  /** Strings agreeing on s[a..b] have the same value there. */
  lemma {:induction false} HexValueAgree(s: string, t: string, a: nat, b: nat)
    requires a <= b <= |s| && b <= |t|
    requires forall i :: a <= i < b ==> IsHexDigit(s[i]) && s[i] == t[i]
    ensures HexValue(s, a, b) == HexValue(t, a, b)
    decreases b - a
  {
    if b > a {
      HexValueAgree(s, t, a, b - 1);
    }
  }

  /** A plain run of hex digits (no sign, no "0x") parses to its value. */
  lemma ParseHexDigits(s: string)
    requires AllHex(s) && s != []
    requires !(|s| >= 2 && s[0] == '0' && (s[1] == 'x' || s[1] == 'X'))
    ensures ParseHex(s) == Num(HexValue(s, 0, |s|))
  {
    assert !IsJsSpace(s[0]);
    assert SpaceEnd(s, 1) == 0;
    SpaceEndAt(s, 1, |s|);
    HexEndAll(s, 0, |s|);
  }

  /** Once the white space at the start has ended, a longer prefix does not extend it. */
  lemma {:induction false} SpaceEndAt(s: string, m: nat, n: nat)
    requires m <= n <= |s| && SpaceEnd(s, m) < m
    ensures SpaceEnd(s, n) == SpaceEnd(s, m)
    decreases n
  {
    if n > m {
      SpaceEndAt(s, m, n - 1);
    }
  }

  /** A string with no hex digit anywhere parses to NaN. */
  lemma ParseHexNoDigits(s: string)
    requires forall i :: 0 <= i < |s| ==> !IsHexDigit(s[i])
    ensures ParseHex(s) == NaN
  {
  }

  /** JavaScript subtraction of an integer and a number. */
  function Minus(a: int, b: JsNumber): JsNumber {
    match b
    case Num(n) => Num(a - n)
    case NaN => NaN
  }

  /** The lower-case hex digit of a value below 16. */
  function HexDigit(v: nat): (c: char)
    requires v < 16
    ensures IsHexDigit(c) && DigitValue(c) == v && !('A' <= c <= 'F')
  {
    if v < 10 then ('0' as int + v) as char else ('a' as int + v - 10) as char
  }

  /** The digits of `n` in base 16, lower case, without leading zeros ("0" for 0). */
  function ToHex(n: nat): (r: string)
    ensures |r| >= 1 && AllHex(r)
    ensures |r| > 1 ==> r[0] != '0'
    ensures n < 16 <==> |r| == 1
    ensures n < 256 ==> |r| <= 2
  {
    if n < 16 then [HexDigit(n)] else ToHex(n / 16) + [HexDigit(n % 16)]
  }

  /** The digits `ToHex` prints are worth `n`. */
  lemma {:induction false} ToHexValue(n: nat)
    ensures HexValue(ToHex(n), 0, |ToHex(n)|) == n
  {
    if n >= 16 {
      var q := ToHex(n / 16);
      ToHexValue(n / 16);
      HexValueAgree(q, ToHex(n), 0, |q|);
    }
  }

  /** `parseInt(n.toString(16), 16)` gives back `n`. */
  lemma ParseToHex(n: nat)
    ensures ParseHex(ToHex(n)) == Num(n)
  {
    ToHexValue(n);
    ParseHexDigits(ToHex(n));
  }

  /** `Number.prototype.toString(16)`. */
  function NumberToHex(x: JsNumber): string {
    match x
    case NaN => "NaN"
    case Num(n) => if n >= 0 then ToHex(n) else "-" + ToHex(-n)
  }

  /** `s.padStart(n, c)` for a one-character pad string. */
  function PadStart(s: string, n: nat, c: char): string {
    if |s| >= n then s else seq(n - |s|, _ => c) + s
  }

  /** Padding fills up to `n` characters at the front with `c` and keeps `s` at the end. */
  lemma PadStartFacts(s: string, n: nat, c: char)
    ensures var r := PadStart(s, n, c);
      (|s| >= n ==> r == s) &&
      (|s| < n ==> |r| == n && (forall i :: 0 <= i < n - |s| ==> r[i] == c) &&
                   forall i :: 0 <= i < |s| ==> r[n - |s| + i] == s[i])
  {
  }

  function Clamp(i: int, len: nat): nat {
    if i < 0 then 0 else if i > len then len else i
  }

  /** `s.substring(start, end)`: the characters between the two indices, both clamped to the string. */
  function Substring(s: string, start: int, end: int): string {
    var a := Clamp(start, |s|);
    var b := Clamp(end, |s|);
    var lo, hi := if a <= b then a else b, if a <= b then b else a;
    seq(hi - lo, i requires 0 <= i < hi - lo => s[lo + i])
  }

  /**
    For indices in order and in range `substring` is the plain slice, and
    swapping the indices does not change it.
   */
  lemma SubstringFacts(s: string, start: int, end: int)
    ensures 0 <= start <= end <= |s| ==> Substring(s, start, end) == s[start..end]
    ensures Substring(s, start, end) == Substring(s, end, start)
    ensures |Substring(s, start, end)| <= |s|
  {
  }

  /** `s.slice(1)`: all but the first character. */
  function SliceFrom1(s: string): string {
    if |s| == 0 then [] else seq(|s| - 1, i requires 0 <= i < |s| - 1 => s[i + 1])
  }
}
