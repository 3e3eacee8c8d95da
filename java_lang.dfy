/**
 * The pieces of the Java platform that the utilities build on: 32-bit `int` arithmetic,
 * `String` searching and trimming, `Character.isWhitespace`, `String.hashCode`,
 * `StringJoiner`, and the exceptions the utilities throw.
 * A Java `String` is a `seq<char>`; each `char` stands for one UTF-16 unit.
 */
module JavaLang {
  import opened Wrappers

  /** The exceptions the modelled code throws. */
  datatype Exception =
    | IllegalArgument(message: Option<string>)
    | IllegalState(message: Option<string>)
    | FileNotFound(message: Option<string>)
    /** `MalformedURLException`, carrying the text passed to `toURL`. */
    | MalformedUrl(location: string)

  // ---------------------------------------------------------------------------
  // int arithmetic

  /** A Java `int`. */
  newtype i32 = x: int | -0x8000_0000 <= x < 0x8000_0000

  /** Java `int` arithmetic: the 32-bit two's-complement value congruent to `x` modulo 2^32. */
  function Wrap(x: int): (r: i32)
    ensures (r as int - x) % 0x1_0000_0000 == 0
    ensures -0x8000_0000 <= x < 0x8000_0000 ==> r as int == x
  {
    ((x + 0x8000_0000) % 0x1_0000_0000 - 0x8000_0000) as i32
  }

  /** Integers congruent modulo 2^32 wrap to the same `int`. */
  lemma WrapCongruent(a: int, b: int)
    requires (a - b) % 0x1_0000_0000 == 0
    ensures Wrap(a) == Wrap(b)
  {
    var q := (a - b) / 0x1_0000_0000;
    assert a + 0x8000_0000 == (b + 0x8000_0000) + q * 0x1_0000_0000;
  }

  /** The accumulation `h = 31 * h + x` of Java's hash codes, wrapping to `int` after every step. */
  function HashFold(seed: i32, xs: seq<i32>): i32
  {
    if xs == [] then seed
    else Wrap(31 * HashFold(seed, xs[..|xs| - 1]) as int + xs[|xs| - 1] as int)
  }

  /** The same accumulation over unbounded integers: `seed * 31^n + x0 * 31^(n-1) + ... + x(n-1)`. */
  function Polynomial(seed: int, xs: seq<i32>): int
  {
    if xs == [] then seed
    else 31 * Polynomial(seed, xs[..|xs| - 1]) + xs[|xs| - 1] as int
  }

  lemma MultipleOfModulus(c: int)
    ensures (c * 0x1_0000_0000) % 0x1_0000_0000 == 0
  {
  }

  /** One accumulation step commutes with the reduction to 32 bits. */
  lemma WrapStep(p: int, x: int)
    ensures Wrap(31 * (Wrap(p) as int) + x) == Wrap(31 * p + x)
  {
    var w := Wrap(p) as int;
    var k := (w - p) / 0x1_0000_0000;
    assert w - p == k * 0x1_0000_0000 by {
      assert (w - p) % 0x1_0000_0000 == 0;
    }
    MultipleOfModulus(31 * k);
    assert (31 * w + x) - (31 * p + x) == (31 * k) * 0x1_0000_0000;
    WrapCongruent(31 * w + x, 31 * p + x);
  }

  /** Wrapping at every step gives the unbounded polynomial reduced to 32 bits once, at the end. */
  lemma {:induction false} HashFoldIsWrappedPolynomial(seed: i32, xs: seq<i32>)
    ensures HashFold(seed, xs) == Wrap(Polynomial(seed as int, xs))
  {
    if xs != [] {
      var init := xs[..|xs| - 1];
      var x := xs[|xs| - 1] as int;
      HashFoldIsWrappedPolynomial(seed, init);
      WrapStep(Polynomial(seed as int, init), x);
    }
  }

  /** The UTF-16 units of a string as `int`s. */
  function CharCodes(s: string): (r: seq<i32>)
    ensures |r| == |s|
    ensures forall i :: 0 <= i < |s| ==> r[i] as int == s[i] as int
  {
    seq(|s|, i requires 0 <= i < |s| => s[i] as int as i32)
  }

  /** `String.hashCode`: `s[0]*31^(n-1) + ... + s[n-1]` in `int` arithmetic. */
  function StringHashCode(s: string): i32
  {
    HashFold(0, CharCodes(s))
  }

  // ---------------------------------------------------------------------------
  // String searching

  /** `pat` occurs in `s` starting at index `k`. */
  predicate OccursAt(s: string, pat: string, k: int)
  {
    0 <= k && k + |pat| <= |s| && s[k..k + |pat|] == pat
  }

  /** `s.indexOf(pat, from)`: the first index at or after `from` where `pat` occurs, or -1. */
  function IndexOf(s: string, pat: string, from: nat): (r: int)
    requires from <= |s|
    ensures r == -1 || (from <= r && r + |pat| <= |s|)
    decreases |s| - from
  {
    if from + |pat| > |s| then -1
    else if s[from..from + |pat|] == pat then from
    else IndexOf(s, pat, from + 1)
  }

  /** `indexOf` finds the first occurrence: `pat` occurs at the index it returns, and nowhere
      between `from` and that index (nowhere after `from` when it returns -1). */
  lemma {:induction false} IndexOfFirst(s: string, pat: string, from: nat)
    requires from <= |s|
    ensures IndexOf(s, pat, from) != -1 ==> OccursAt(s, pat, IndexOf(s, pat, from))
    ensures forall k :: from <= k && (IndexOf(s, pat, from) == -1 || k < IndexOf(s, pat, from))
                        ==> !OccursAt(s, pat, k)
    decreases |s| - from
  {
    if from + |pat| <= |s| && s[from..from + |pat|] != pat {
      IndexOfFirst(s, pat, from + 1);
    }
  }

  /** Conversely, the first occurrence at or after `from` is what `indexOf` returns. */
  lemma IndexOfAt(s: string, pat: string, from: nat, e: nat)
    requires from <= e && OccursAt(s, pat, e)
    requires forall k :: from <= k < e ==> !OccursAt(s, pat, k)
    ensures IndexOf(s, pat, from) == e
  {
    IndexOfFirst(s, pat, from);
  }

  /** `s.contains(pat)`. */
  predicate Contains(s: string, pat: string)
  {
    IndexOf(s, pat, 0) != -1
  }

  /** `s.lastIndexOf(c)`: the last index holding `c`, or -1. */
  function LastIndexOf(s: string, c: char): (r: int)
    ensures -1 <= r < |s|
    ensures r == -1 <==> c !in s
    ensures 0 <= r ==> s[r] == c && c !in s[r + 1..]
  {
    if s == [] then -1
    else if s[|s| - 1] == c then |s| - 1
    else
      var r := LastIndexOf(s[..|s| - 1], c);
      assert s == s[..|s| - 1] + [s[|s| - 1]];
      assert 0 <= r ==> s[r + 1..] == s[..|s| - 1][r + 1..] + [s[|s| - 1]];
      r
  }

  /** `s.startsWith(p)`. */
  predicate StartsWith(s: string, p: string)
  {
    |p| <= |s| && s[..|p|] == p
  }

  /** `s.endsWith(p)`. */
  predicate EndsWith(s: string, p: string)
  {
    |p| <= |s| && s[|s| - |p|..] == p
  }

  /** `s.replace(from, to)` for characters: every `from` becomes `to`. */
  function ReplaceChar(s: string, from: char, to: char): (r: string)
    ensures |r| == |s|
    ensures forall i :: 0 <= i < |s| ==> r[i] == if s[i] == from then to else s[i]
  {
    seq(|s|, i requires 0 <= i < |s| => if s[i] == from then to else s[i])
  }

  // ---------------------------------------------------------------------------
  // Whitespace and trimming

  /** `Character.isWhitespace`: the Unicode space, line and paragraph separators other than the
      non-breaking ones, and the control characters U+0009-U+000D and U+001C-U+001F. */
  predicate IsWhitespace(c: char)
  {
    var n := c as int;
    (0x09 <= n <= 0x0D) || (0x1C <= n <= 0x20) || n == 0x1680
    || (0x2000 <= n <= 0x2006) || (0x2008 <= n <= 0x200A)
    || n == 0x2028 || n == 0x2029 || n == 0x205F || n == 0x3000
  }

  /** `s.isBlank()`: every character is whitespace. */
  predicate IsBlank(s: string)
  {
    forall i :: 0 <= i < |s| ==> IsWhitespace(s[i])
  }

  /** The first index at or after `st` whose character is above U+0020 (as `String.trim` scans). */
  function TrimStart(s: string, st: nat): (r: nat)
    requires st <= |s|
    ensures st <= r <= |s|
    ensures forall k :: st <= k < r ==> s[k] <= ' '
    ensures r < |s| ==> ' ' < s[r]
    decreases |s| - st
  {
    if st < |s| && s[st] <= ' ' then TrimStart(s, st + 1) else st
  }

  /** The end index after dropping characters up to U+0020 from the back of `s[st..len]`. */
  function TrimEnd(s: string, st: nat, len: nat): (r: nat)
    requires st <= len <= |s|
    ensures st <= r <= len
    ensures forall k :: r <= k < len ==> s[k] <= ' '
    ensures st < r ==> ' ' < s[r - 1]
    decreases len
  {
    if st < len && s[len - 1] <= ' ' then TrimEnd(s, st, len - 1) else len
  }

  /** `s.trim()`: `s` without its leading and trailing characters up to U+0020. */
  function Trim(s: string): (r: string)
    ensures r == [] || (' ' < r[0] && ' ' < r[|r| - 1])
    ensures forall c :: c in r ==> c in s
    ensures (s == [] || (' ' < s[0] && ' ' < s[|s| - 1])) ==> r == s
  {
    var st := TrimStart(s, 0);
    var len := TrimEnd(s, st, |s|);
    assert st < |s| ==> st < len;
    s[st..len]
  }

  // ---------------------------------------------------------------------------
  // StringJoiner

  /** `String.join(delim, parts)`, what a `StringJoiner` without prefix and suffix builds. */
  function Joined(parts: seq<string>, delim: string): string
  {
    if parts == [] then ""
    else if |parts| == 1 then parts[0]
    else parts[0] + delim + Joined(parts[1..], delim)
  }
}
