/**
 * The JavaScript string primitives the validator relies on: `String.prototype.trim`,
 * `length` in UTF-16 code units, the control-character class of the validator's
 * regular expression, and decimal rendering of integers in messages.
 */
module Text {

  /** The characters `trim` strips: ECMAScript WhiteSpace and LineTerminator. */
  predicate IsTrimmable(c: char) {
    var n := c as int;
    n == 0x09 || n == 0x0A || n == 0x0B || n == 0x0C || n == 0x0D || n == 0x20 || n == 0xA0 ||
    n == 0x1680 || (0x2000 <= n <= 0x200A) || n == 0x2028 || n == 0x2029 || n == 0x202F ||
    n == 0x205F || n == 0x3000 || n == 0xFEFF
  }

  /** The class `[\u0000-\u001F\u007F-\u009F]`. */
  predicate IsControl(c: char) {
    c as int <= 0x1F || 0x7F <= c as int <= 0x9F
  }

  predicate NoControlChars(s: string) {
    forall i :: 0 <= i < |s| ==> !IsControl(s[i])
  }

  /** Every character of `s` is stripped by `trim`. */
  predicate Blank(s: string) {
    forall i :: 0 <= i < |s| ==> IsTrimmable(s[i])
  }

  /** Strips leading trimmable characters: what remains is a suffix starting with a kept character. */
  function TrimStart(s: string): (r: string)
    ensures |r| <= |s| && r == s[|s| - |r|..]
    ensures Blank(s[..|s| - |r|])
    ensures r != [] ==> !IsTrimmable(r[0])
  {
    if s != [] && IsTrimmable(s[0]) then
      var r := TrimStart(s[1..]);
      assert s[..|s| - |r|] == [s[0]] + s[1..][..|s| - 1 - |r|];
      r
    else s
  }

  /** Strips trailing trimmable characters: what remains is a prefix ending with a kept character. */
  function TrimEnd(s: string): (r: string)
    ensures |r| <= |s| && r == s[..|r|]
    ensures Blank(s[|r|..])
    ensures r != [] ==> !IsTrimmable(r[|r| - 1])
  {
    if s != [] && IsTrimmable(s[|s| - 1]) then
      var r := TrimEnd(s[..|s| - 1]);
      assert s[|r|..] == s[..|s| - 1][|r|..] + [s[|s| - 1]];
      r
    else s
  }

  /** `trim`: what is left after stripping both ends; it starts and ends with kept characters. */
  function Trim(s: string): (r: string)
    ensures |r| <= |s|
    ensures r == [] || (!IsTrimmable(r[0]) && !IsTrimmable(r[|r| - 1]))
  {
    TrimEnd(TrimStart(s))
  }

  /** `r` is the slice of `s` from `lo`, with nothing but blanks before and after it. */
  predicate SliceBetweenBlanks(s: string, lo: int, r: string) {
    && 0 <= lo && lo + |r| <= |s|
    && r == s[lo..lo + |r|]
    && Blank(s[..lo]) && Blank(s[lo + |r|..])
  }

  /** A prefix of a blank-headed suffix, followed by blanks, is a slice between blanks. */
  lemma SliceOfSuffix(s: string, t: string, r: string)
    requires |t| <= |s| && t == s[|s| - |t|..] && Blank(s[..|s| - |t|])
    requires |r| <= |t| && r == t[..|r|] && Blank(t[|r|..])
    ensures SliceBetweenBlanks(s, |s| - |t|, r)
  {
    assert t[|r|..] == s[|s| - |t| + |r|..];
  }

  /** `trim` removes only blank runs at the two ends: the result is the slice of `s` between them. */
  lemma TrimIsSlice(s: string)
    ensures SliceBetweenBlanks(s, |s| - |TrimStart(s)|, Trim(s))
  {
    SliceOfSuffix(s, TrimStart(s), Trim(s));
  }

  /** A string trims to nothing exactly when it is blank. */
  lemma {:induction false} TrimEmptyIffBlank(s: string)
    ensures Trim(s) == [] <==> Blank(s)
  {
    var t := TrimStart(s);
    if t == [] {
      assert s[..|s|] == s;
    } else {
      assert t[0] == s[|s| - |t|];
      assert !Blank(t);
      assert t[0..] == t;
    }
  }

  /** A blank prefix is skipped up to the first kept character. */
  lemma {:induction false} TrimStartSkipsBlank(before: string, rest: string)
    requires Blank(before)
    requires rest == [] || !IsTrimmable(rest[0])
    ensures TrimStart(before + rest) == rest
  {
    if before != [] {
      assert (before + rest)[1..] == before[1..] + rest;
      TrimStartSkipsBlank(before[1..], rest);
    }
  }

  /** A blank suffix is dropped back to the last kept character. */
  lemma {:induction false} TrimEndSkipsBlank(rest: string, after: string)
    requires Blank(after)
    requires rest == [] || !IsTrimmable(rest[|rest| - 1])
    ensures TrimEnd(rest + after) == rest
  {
    if after != [] {
      var shorter := after[..|after| - 1];
      assert (rest + after)[..|rest + after| - 1] == rest + shorter;
      TrimEndSkipsBlank(rest, shorter);
    }
  }

  /** Trimming `before + core + after` gives `core` when the ends are blank and `core` starts and ends kept. */
  lemma {:induction false} TrimStripsBlankEnds(before: string, core: string, after: string)
    requires Blank(before) && Blank(after)
    requires core == [] || (!IsTrimmable(core[0]) && !IsTrimmable(core[|core| - 1]))
    ensures Trim(before + core + after) == core
  {
    assert before + core + after == before + (core + after);
    if core == [] {
      assert core + after == after;
      TrimStartSkipsBlank(before + after, []);
      assert before + after + [] == before + after;
      assert Blank(before + after);
      TrimEndSkipsBlank([], []);
    } else {
      TrimStartSkipsBlank(before, core + after);
      TrimEndSkipsBlank(core, after);
    }
  }

  /** Trimming a trimmed string changes nothing. */
  lemma {:induction false} TrimIdempotent(s: string)
    ensures Trim(Trim(s)) == Trim(s)
  {
    var r := Trim(s);
    assert TrimStart(r) == r;
    assert TrimEnd(r) == r;
  }

  /** `length`: UTF-16 code units, two for a character outside the Basic Multilingual Plane. */
  function Utf16Length(s: string): (n: nat)
    ensures |s| <= n <= 2 * |s|
    ensures n == 0 <==> s == []
  {
    if s == [] then 0 else (if s[0] as int < 0x1_0000 then 1 else 2) + Utf16Length(s[1..])
  }

  /** The number a string of decimal digits denotes, read most significant first. */
  function DigitsValue(s: string): int {
    if s == [] then 0 else DigitsValue(s[..|s| - 1]) * 10 + (s[|s| - 1] as int - '0' as int)
  }

  /** The integer an optionally `-`-prefixed string of decimal digits denotes. */
  function SignedValue(s: string): int {
    if s != [] && s[0] == '-' then -DigitsValue(s[1..]) else DigitsValue(s)
  }

  /** Decimal digits of a natural number, most significant first, without leading zeros. */
  function NatToString(n: nat): (r: string)
    ensures |r| >= 1
    ensures forall i :: 0 <= i < |r| ==> '0' <= r[i] <= '9'
    ensures |r| > 1 ==> r[0] != '0'
    ensures DigitsValue(r) == n
  {
    if n < 10 then [('0' as int + n) as char]
    else
      var front := NatToString(n / 10);
      var r := front + [('0' as int + n % 10) as char];
      assert r[..|r| - 1] == front;
      r
  }

  /** How a template literal renders an integer: a `-` for a negative one, then the digits of its magnitude. */
  function IntToString(i: int): (r: string)
    ensures |r| >= 1
    ensures r[0] == '-' <==> i < 0
    ensures forall k :: 0 < k < |r| ==> '0' <= r[k] <= '9'
    ensures SignedValue(r) == i
  {
    if i < 0 then
      var digits := NatToString(-i);
      assert ("-" + digits)[1..] == digits;
      "-" + digits
    else NatToString(i)
  }

  /** Text spliced between the same prefix and suffix is recovered from the whole. */
  lemma SpliceCancels(prefix: string, x: string, y: string, suffix: string)
    requires prefix + x + suffix == prefix + y + suffix
    ensures x == y
  {
    var whole := prefix + x + suffix;
    assert |x| == |y|;
    assert whole[|prefix|..|prefix| + |x|] == x;
    assert (prefix + y + suffix)[|prefix|..|prefix| + |y|] == y;
  }

  /** Distinct integers render differently. */
  lemma IntToStringInjective(i: int, j: int)
    requires IntToString(i) == IntToString(j)
    ensures i == j
  {
  }
}
