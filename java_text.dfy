/**
 * The pieces of `java.lang.String`, `Integer` and `int` arithmetic that the
 * modelled code relies on, written out so that their edge cases are explicit:
 * `trim`, `isBlank`, `contains`, `startsWith`, `split` with a one-char
 * pattern, `Integer.parseInt`/`Integer.valueOf` on decimal text, and the
 * wrap-around of 32-bit `int` addition.
 */
module JavaText {
  import opened Wrappers

  // ---------------------------------------------------------------------
  // 32-bit int
  // ---------------------------------------------------------------------

  const INT32_MIN: int := -0x8000_0000
  const INT32_MAX: int := 0x7FFF_FFFF

  /** Java's `int`. */
  newtype int32 = x: int | -0x8000_0000 <= x < 0x8000_0000

  /**
   * Java's `x + d` on `int`: the one 32-bit value congruent to the
   * mathematical sum modulo 2^32 (the type bounds the result).
   */
  function AddWrap(x: int32, d: int32): (r: int32)
    ensures (r as int - (x as int + d as int)) % 0x1_0000_0000 == 0
  {
    var sum := x as int + d as int;
    if sum > INT32_MAX then (sum - 0x1_0000_0000) as int32
    else if sum < INT32_MIN then (sum + 0x1_0000_0000) as int32
    else sum as int32
  }

  // ---------------------------------------------------------------------
  // String.trim and String.isBlank
  // ---------------------------------------------------------------------

  /** The chars `String.trim` strips from both ends: every code point up to U+0020. */
  predicate Trimmable(c: char) {
    c <= ' '
  }

  /** Index of the first char `trim` keeps (the first loop of `String.trim`). */
  function LeadingCount(s: string): (n: nat)
    ensures n <= |s|
    ensures forall k :: 0 <= k < n ==> Trimmable(s[k])
    ensures n < |s| ==> !Trimmable(s[n])
  {
    if s != [] && Trimmable(s[0]) then 1 + LeadingCount(s[1..]) else 0
  }

  /** End of the part `trim` keeps (its second loop), never below `lo`. */
  function TrailingEnd(s: string, lo: nat): (n: nat)
    requires lo <= |s|
    ensures lo <= n <= |s|
    ensures forall k :: n <= k < |s| ==> Trimmable(s[k])
    ensures n > lo ==> !Trimmable(s[n - 1])
    decreases |s|
  {
    if |s| > lo && Trimmable(s[|s| - 1]) then TrailingEnd(s[..|s| - 1], lo) else |s|
  }

  /** `String.trim`. */
  function Trim(s: string): (r: string)
    ensures |r| <= |s|
    ensures r != [] ==> !Trimmable(r[0]) && !Trimmable(r[|r| - 1])
    ensures r == [] <==> forall k :: 0 <= k < |s| ==> Trimmable(s[k])
  {
    var lo := LeadingCount(s);
    s[lo..TrailingEnd(s, lo)]
  }

  /** `Character.isWhitespace`: the chars `String.isBlank` accepts. */
  predicate IsJavaWhitespace(c: char) {
    || c == ' ' || c == '\t' || c == '\n' || c == '\U{000B}' || c == '\U{000C}' || c == '\r'
    || ('\U{001C}' <= c <= '\U{001F}')
    || c == '\U{1680}' || ('\U{2000}' <= c <= '\U{2006}') || ('\U{2008}' <= c <= '\U{200A}')
    || c == '\U{2028}' || c == '\U{2029}' || c == '\U{205F}' || c == '\U{3000}'
  }

  /** `String.isBlank`: empty, or whitespace only. */
  predicate IsBlank(s: string) {
    forall k :: 0 <= k < |s| ==> IsJavaWhitespace(s[k])
  }

  // ---------------------------------------------------------------------
  // startsWith, contains
  // ---------------------------------------------------------------------

  /** `String.startsWith`. */
  predicate StartsWith(s: string, prefix: string) {
    |prefix| <= |s| && s[..|prefix|] == prefix
  }

  /** `String.contains`: some suffix of `s` starts with `sub`. */
  predicate Contains(s: string, sub: string)
    decreases |s|
  {
    StartsWith(s, sub) || (s != [] && Contains(s[1..], sub))
  }

  // ---------------------------------------------------------------------
  // String.split with a one-char pattern
  // ---------------------------------------------------------------------

  /** The pieces of `s` between occurrences of `sep`, empty pieces included. */
  function SplitOn(s: string, sep: char): (parts: seq<string>)
    ensures |parts| >= 1
    ensures forall k :: 0 <= k < |parts| ==> sep !in parts[k]
  {
    if s == [] then [""]
    else
      var rest := SplitOn(s[1..], sep);
      if s[0] == sep then [""] + rest
      else [[s[0]] + rest[0]] + rest[1..]
  }

  /** The pieces put back together with `sep` between them. */
  function JoinWith(parts: seq<string>, sep: char): string
    requires |parts| >= 1
  {
    if |parts| == 1 then parts[0] else parts[0] + [sep] + JoinWith(parts[1..], sep)
  }

  /** `parts` without its trailing empty strings. */
  function DropTrailingEmpty(parts: seq<string>): (r: seq<string>)
    ensures |r| <= |parts| && r == parts[..|r|]
    ensures r == [] || r[|r| - 1] != ""
    ensures forall k :: |r| <= k < |parts| ==> parts[k] == ""
  {
    if parts == [] || parts[|parts| - 1] != "" then parts
    else DropTrailingEmpty(parts[..|parts| - 1])
  }

  /**
   * `s.split(sep)` for a one-char, non-special pattern: when `sep` does not
   * occur the string itself is the only piece; otherwise the pieces with the
   * trailing empty ones removed.
   */
  function JavaSplit(s: string, sep: char): seq<string> {
    if sep !in s then [s] else DropTrailingEmpty(SplitOn(s, sep))
  }

  // ---------------------------------------------------------------------
  // Integer.parseInt / Integer.valueOf on decimal text
  // ---------------------------------------------------------------------

  predicate IsAsciiDigit(c: char) {
    '0' <= c <= '9'
  }

  predicate AllDigits(s: string) {
    forall k :: 0 <= k < |s| ==> IsAsciiDigit(s[k])
  }

  /** Value of a run of decimal digits, most significant first. */
  function DecimalValue(ds: string): nat
    requires AllDigits(ds)
    decreases |ds|
  {
    if ds == [] then 0
    else DecimalValue(ds[..|ds| - 1]) * 10 + (ds[|ds| - 1] as int - '0' as int)
  }

  /**
   * `Integer.parseInt(s)` (and `Integer.valueOf(s)`) in radix 10: an optional
   * `+` or `-`, then at least one digit, and a value that fits an `int`;
   * anything else is a `NumberFormatException`, here `None`.
   */
  function ParseInt(s: string): (r: Option<int32>)
    ensures r.Some? ==> s != []
    ensures r.Some? && s[0] != '-' ==> r.value >= 0
  {
    if s == [] then None
    else
      var digits := if s[0] == '-' || s[0] == '+' then s[1..] else s;
      if digits == [] || !AllDigits(digits) then None
      else
        var v: int := if s[0] == '-' then 0 - DecimalValue(digits) as int else DecimalValue(digits);
        if INT32_MIN <= v <= INT32_MAX then Some(v as int32) else None
  }

  function Pow10(w: nat): (p: nat)
    ensures p >= 1
  {
    if w == 0 then 1 else 10 * Pow10(w - 1)
  }

  /** `n` written with exactly `w` decimal digits, zero-padded on the left. */
  function PadDigits(n: nat, w: nat): (r: string)
    ensures |r| == w && AllDigits(r)
  {
    if w == 0 then "" else PadDigits(n / 10, w - 1) + [('0' as int + n % 10) as char]
  }

  // ---------------------------------------------------------------------
  // Properties
  // ---------------------------------------------------------------------

  /** `trim` removes exactly the padding around a core that starts and ends with a kept char. */
  lemma TrimOfPadded(pre: string, core: string, post: string)
    requires forall k :: 0 <= k < |pre| ==> Trimmable(pre[k])
    requires forall k :: 0 <= k < |post| ==> Trimmable(post[k])
    requires core == [] || (!Trimmable(core[0]) && !Trimmable(core[|core| - 1]))
    ensures Trim(pre + core + post) == core
  {
    var s := pre + core + post;
    var lo := LeadingCount(s);
    if core == [] {
      assert forall k :: 0 <= k < |s| ==> Trimmable(s[k]) by {
        forall k | 0 <= k < |s| ensures Trimmable(s[k]) {
          if k < |pre| { assert s[k] == pre[k]; } else { assert s[k] == post[k - |pre|]; }
        }
      }
    } else {
      assert s[|pre|] == core[0];
      assert lo == |pre|;
      var hi := TrailingEnd(s, lo);
      var e := |pre| + |core|;
      assert s[e - 1] == core[|core| - 1];
      assert hi == e;
      assert s[lo..hi] == core;
    }
  }

  /** Trimming twice is trimming once. */
  lemma TrimIdempotent(s: string)
    ensures Trim(Trim(s)) == Trim(s)
  {
    var t := Trim(s);
    TrimOfPadded([], t, []);
    assert [] + t + [] == t;
  }

  /** `sub` occurs in `s` starting at index `i`. */
  predicate OccursAt(s: string, sub: string, i: int) {
    0 <= i <= |s| - |sub| && s[i..i + |sub|] == sub
  }

  /** `contains` holds exactly when `sub` occurs at some position of `s`. */
  lemma {:induction false} ContainsAt(s: string, sub: string)
    ensures Contains(s, sub) <==> exists i :: OccursAt(s, sub, i)
    decreases |s|
  {
    if StartsWith(s, sub) {
      assert OccursAt(s, sub, 0);
    } else if s != [] {
      ContainsAt(s[1..], sub);
      if exists i :: OccursAt(s, sub, i) {
        var i :| OccursAt(s, sub, i);
        assert i != 0;
        assert s[1..][i - 1..i - 1 + |sub|] == s[i..i + |sub|];
        assert OccursAt(s[1..], sub, i - 1);
      }
      if Contains(s[1..], sub) {
        var i :| OccursAt(s[1..], sub, i);
        assert s[1..][i..i + |sub|] == s[i + 1..i + 1 + |sub|];
        assert OccursAt(s, sub, i + 1);
      }
    }
  }

  /** Splitting and joining with the same separator gives the text back. */
  lemma {:induction false} JoinSplit(s: string, sep: char)
    ensures JoinWith(SplitOn(s, sep), sep) == s
  {
    if s != [] {
      JoinSplit(s[1..], sep);
      var rest := SplitOn(s[1..], sep);
      if s[0] != sep {
        var parts := [[s[0]] + rest[0]] + rest[1..];
        if |rest| == 1 {
          assert parts[0] == [s[0]] + rest[0];
        } else {
          assert parts[1..] == rest[1..];
          assert JoinWith(rest, sep) == rest[0] + [sep] + JoinWith(rest[1..], sep);
        }
      } else {
        assert ([""] + rest)[1..] == rest;
      }
    }
  }

  /** Zero-padded decimal text reads back as the number it was made from. */
  lemma {:induction false} DecimalValueOfPad(n: nat, w: nat)
    requires n < Pow10(w)
    ensures DecimalValue(PadDigits(n, w)) == n
  {
    if w > 0 {
      DecimalValueOfPad(n / 10, w - 1);
      var r := PadDigits(n, w);
      assert r[..|r| - 1] == PadDigits(n / 10, w - 1);
    }
  }

  /** `Integer.parseInt` of zero-padded digits gives the number back. */
  lemma ParseIntOfPad(n: nat, w: nat)
    requires 1 <= w && n < Pow10(w) && n <= INT32_MAX
    ensures ParseInt(PadDigits(n, w)) == Some(n as int32)
  {
    DecimalValueOfPad(n, w);
    var r := PadDigits(n, w);
    assert IsAsciiDigit(r[0]);
  }
}
