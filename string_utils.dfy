/**
 * `StringUtils`: tests for text, pattern replacement, file names, path normalisation
 * (`cleanPath`), relative paths, and conversions between delimited strings and string lists.
 * Loops of the source are methods proved equal to the specification functions beside them.
 */
module StringUtils {
  import opened Wrappers
  import opened JavaLang
  import ObjectUtils

  // ===========================================================================
  // hasLength, hasText

  /** `hasLength(String)`: not null and not empty. */
  predicate HasLength(str: Option<string>)
  {
    str.Some? && |str.value| > 0
  }

  /** `hasText(String)`: not null and not blank. */
  predicate HasText(str: Option<string>)
  {
    str.Some? && !IsBlank(str.value)
  }

  /** `hasText(CharSequence)`: scans for a character that is not whitespace. */
  method HasTextChars(str: Option<string>) returns (r: bool)
    ensures r == HasText(str)
    ensures r <==> str.Some? && |str.value| > 0
                   && exists i :: 0 <= i < |str.value| && !IsWhitespace(str.value[i])
  {
    if str.None? {
      return false;
    }
    var s := str.value;
    var strLen := |s|;
    if strLen == 0 {
      return false;
    }
    for i := 0 to strLen
      invariant forall k :: 0 <= k < i ==> IsWhitespace(s[k])
    {
      if !IsWhitespace(s[i]) {
        return true;
      }
    }
    return false;
  }

  /** The documented examples: `null`, `""` and `" "` have no text, `" 12345 "` has. */
  lemma HasTextExamples()
    ensures !HasText(None) && !HasText(Some("")) && !HasText(Some(" "))
    ensures HasText(Some("12345")) && HasText(Some(" 12345 "))
    ensures HasText(Some(" 12345 ")) ==> HasLength(Some(" 12345 "))
  {
    assert !IsWhitespace("12345"[0]);
    assert !IsWhitespace(" 12345 "[1]);
  }

  /** Text implies length. */
  lemma HasTextHasLength(str: Option<string>)
    ensures HasText(str) ==> HasLength(str)
  {
  }

  // ===========================================================================
  // replace

  /** How many leftmost, non-overlapping occurrences of `pat` `s[pos..]` holds. */
  function OccurrencesFrom(s: string, pat: string, pos: nat): nat
    requires |pat| > 0 && pos <= |s|
    decreases |s| - pos
  {
    var i := IndexOf(s, pat, pos);
    if i == -1 then 0 else 1 + OccurrencesFrom(s, pat, i + |pat|)
  }

  /** `s[pos..]` with each leftmost, non-overlapping occurrence of `pat` replaced by `rep`. */
  function ReplacedFrom(s: string, pat: string, rep: string, pos: nat): string
    requires |pat| > 0 && pos <= |s|
    decreases |s| - pos
  {
    var i := IndexOf(s, pat, pos);
    if i == -1 then s[pos..] else s[pos..i] + rep + ReplacedFrom(s, pat, rep, i + |pat|)
  }

  /** `replace(inString, oldPattern, newPattern)`: the input itself when it or the old pattern is
      empty or the new pattern is null. */
  function Replaced(inString: string, oldPattern: string, newPattern: Option<string>): string
  {
    if HasLength(Some(inString)) && HasLength(Some(oldPattern)) && newPattern.Some?
    then ReplacedFrom(inString, oldPattern, newPattern.value, 0)
    else inString
  }

  /** `replace`: the input itself unless both texts are non-empty, the new pattern is non-null
      and the old pattern occurs; then the builder loop. */
  method Replace(inString: string, oldPattern: string, newPattern: Option<string>) returns (r: string)
    ensures r == Replaced(inString, oldPattern, newPattern)
    ensures !Contains(inString, oldPattern) ==> r == inString
  {
    if HasLength(Some(inString)) && HasLength(Some(oldPattern)) && newPattern.Some? {
      var index := IndexOf(inString, oldPattern, 0);
      if index == -1 {
        return inString;
      }
      r := ReplaceEach(inString, oldPattern, newPattern.value, index);
    } else {
      r := inString;
    }
  }

  /** The builder loop of `replace`: copies the text between occurrences and appends the new
      pattern for each. */
  method ReplaceEach(inString: string, oldPattern: string, rep: string, first: int) returns (r: string)
    requires |oldPattern| > 0 && first == IndexOf(inString, oldPattern, 0)
    ensures r == ReplacedFrom(inString, oldPattern, rep, 0)
  {
    var index := first;
    var sb := "";
    var pos := 0;
    var patLen := |oldPattern|;
    while index >= 0
      invariant 0 <= pos <= |inString|
      invariant index == IndexOf(inString, oldPattern, pos)
      invariant sb + ReplacedFrom(inString, oldPattern, rep, pos)
             == ReplacedFrom(inString, oldPattern, rep, 0)
      decreases |inString| - pos
    {
      ReplacedHit(inString, oldPattern, rep, pos, index, sb);
      sb := sb + inString[pos..index] + rep;
      pos := index + patLen;
      index := IndexOf(inString, oldPattern, pos);
    }
    ReplacedMiss(inString, oldPattern, rep, pos);
    r := sb + inString[pos..];
  }

  /** One step of the builder loop at an occurrence: copy up to it and append the
      replacement. */
  lemma ReplacedHit(s: string, pat: string, rep: string, pos: nat, i: nat, sb: string)
    requires |pat| > 0 && pos <= |s| && i == IndexOf(s, pat, pos)
    ensures pos <= i && i + |pat| <= |s|
    ensures sb + ReplacedFrom(s, pat, rep, pos)
            == (sb + s[pos..i] + rep) + ReplacedFrom(s, pat, rep, i + |pat|)
  {
    var rest := ReplacedFrom(s, pat, rep, i + |pat|);
    assert ReplacedFrom(s, pat, rep, pos) == s[pos..i] + rep + rest;
    AppendRegroup(sb, s[pos..i], rep, rest);
  }

  /** The last step of the builder loop: with no occurrence left, the rest is copied. */
  lemma ReplacedMiss(s: string, pat: string, rep: string, pos: nat)
    requires |pat| > 0 && pos <= |s| && IndexOf(s, pat, pos) == -1
    ensures ReplacedFrom(s, pat, rep, pos) == s[pos..]
  {
  }

  lemma AppendRegroup(a: string, b: string, c: string, d: string)
    ensures a + (b + c + d) == (a + b + c) + d
  {
  }

  lemma SlicesJoin(s: string, i: nat, j: nat)
    requires i <= j <= |s|
    ensures s[i..] == s[i..j] + s[j..]
  {
  }

  /** The text from `pos` is the part before the next occurrence, the pattern, and the rest. */
  lemma SplitAtIndexOf(s: string, pat: string, pos: nat)
    requires pos <= |s| && IndexOf(s, pat, pos) != -1
    ensures var i := IndexOf(s, pat, pos);
            s[pos..] == s[pos..i] + pat + s[i + |pat|..]
  {
    var i := IndexOf(s, pat, pos);
    IndexOfFirst(s, pat, pos);
    assert OccursAt(s, pat, i);
    SlicesJoin(s, pos, i);
    SlicesJoin(s, i, i + |pat|);
    calc {
      s[pos..];
      s[pos..i] + s[i..];
      s[pos..i] + (s[i..i + |pat|] + s[i + |pat|..]);
      { assert s[i..i + |pat|] == pat; }
      s[pos..i] + pat + s[i + |pat|..];
    }
  }

  /** Each replacement changes the length by `|rep| - |pat|`. */
  lemma {:induction false} ReplacedLength(s: string, pat: string, rep: string, pos: nat)
    requires |pat| > 0 && pos <= |s|
    ensures |ReplacedFrom(s, pat, rep, pos)|
            == |s| - pos + OccurrencesFrom(s, pat, pos) * (|rep| - |pat|)
    decreases |s| - pos
  {
    var i := IndexOf(s, pat, pos);
    if i != -1 {
      var next := i + |pat|;
      ReplacedLength(s, pat, rep, next);
      var n := OccurrencesFrom(s, pat, next);
      var d := |rep| - |pat|;
      assert OccurrencesFrom(s, pat, pos) == n + 1;
      assert |ReplacedFrom(s, pat, rep, pos)| == (i - pos) + |rep| + (|s| - next + n * d);
      MulSucc(n, d);
    }
  }

  lemma MulSucc(n: int, d: int)
    ensures (n + 1) * d == n * d + d
  {
  }

  /** Replacing a pattern by itself changes nothing. */
  lemma {:induction false} ReplacedBySelf(s: string, pat: string, pos: nat)
    requires |pat| > 0 && pos <= |s|
    ensures ReplacedFrom(s, pat, pat, pos) == s[pos..]
    decreases |s| - pos
  {
    var i := IndexOf(s, pat, pos);
    if i != -1 {
      ReplacedBySelf(s, pat, i + |pat|);
      SplitAtIndexOf(s, pat, pos);
    }
  }

  /** Replacing a single character by a text without it leaves no such character. */
  lemma {:induction false} ReplacedRemovesChar(s: string, c: char, rep: string, pos: nat)
    requires pos <= |s| && c !in rep
    ensures c !in ReplacedFrom(s, [c], rep, pos)
    decreases |s| - pos
  {
    var i := IndexOf(s, [c], pos);
    IndexOfFirst(s, [c], pos);
    var head := if i == -1 then s[pos..] else s[pos..i];
    forall k | 0 <= k < |head|
      ensures head[k] != c
    {
      assert !OccursAt(s, [c], pos + k);
      assert s[pos + k..pos + k + 1] == [s[pos + k]];
    }
    if i != -1 {
      ReplacedRemovesChar(s, c, rep, i + 1);
    }
  }

  /** `t` with each `c` written as `rep` and every other character kept, character by character. */
  function CharMapped(t: string, c: char, rep: string): string
  {
    if t == [] then [] else (if t[0] == c then rep else [t[0]]) + CharMapped(t[1..], c, rep)
  }

  lemma {:induction false} CharMappedAppend(a: string, b: string, c: char, rep: string)
    ensures CharMapped(a + b, c, rep) == CharMapped(a, c, rep) + CharMapped(b, c, rep)
  {
    if a == [] {
      assert a + b == b;
    } else {
      assert (a + b)[0] == a[0] && (a + b)[1..] == a[1..] + b;
      CharMappedAppend(a[1..], b, c, rep);
    }
  }

  lemma {:induction false} CharMappedNone(t: string, c: char, rep: string)
    requires c !in t
    ensures CharMapped(t, c, rep) == t
  {
    if t != [] {
      assert t == [t[0]] + t[1..];
      CharMappedNone(t[1..], c, rep);
    }
  }

  /** `indexOf` of a single character finds it, with none before it (none at all when it
      returns -1). */
  lemma {:induction false} IndexOfCharFound(s: string, c: char, pos: nat)
    requires pos <= |s|
    ensures var i := IndexOf(s, [c], pos);
            && (i == -1 ==> c !in s[pos..])
            && (i != -1 ==> pos <= i < |s| && s[i] == c && c !in s[pos..i])
    decreases |s| - pos
  {
    if pos < |s| {
      assert s[pos..pos + 1] == [s[pos]];
      if s[pos] != c {
        IndexOfCharFound(s, c, pos + 1);
        assert s[pos..] == [s[pos]] + s[pos + 1..];
        var i := IndexOf(s, [c], pos + 1);
        if i != -1 {
          assert s[pos..i] == [s[pos]] + s[pos + 1..i];
        }
      }
    }
  }

  /** Replacing a one-character pattern is mapping each character: the occurrences become `rep`,
      everything else stays. */
  lemma {:induction false} ReplacedCharMapped(s: string, c: char, rep: string, pos: nat)
    requires pos <= |s|
    ensures ReplacedFrom(s, [c], rep, pos) == CharMapped(s[pos..], c, rep)
    decreases |s| - pos
  {
    var i := IndexOf(s, [c], pos);
    if i == -1 {
      ReplacedCharMappedMiss(s, c, rep, pos);
    } else {
      ReplacedCharMapped(s, c, rep, i + 1);
      ReplacedCharMappedHit(s, c, rep, pos, i);
    }
  }

  lemma ReplacedCharMappedMiss(s: string, c: char, rep: string, pos: nat)
    requires pos <= |s| && IndexOf(s, [c], pos) == -1
    ensures ReplacedFrom(s, [c], rep, pos) == CharMapped(s[pos..], c, rep)
  {
    IndexOfCharFound(s, c, pos);
    ReplacedMiss(s, [c], rep, pos);
    CharMappedNone(s[pos..], c, rep);
  }

  lemma ReplacedCharMappedHit(s: string, c: char, rep: string, pos: nat, i: int)
    requires pos <= |s| && i == IndexOf(s, [c], pos) && i != -1
    requires ReplacedFrom(s, [c], rep, i + 1) == CharMapped(s[i + 1..], c, rep)
    ensures ReplacedFrom(s, [c], rep, pos) == CharMapped(s[pos..], c, rep)
  {
    IndexOfCharFound(s, c, pos);
    ReplacedHit(s, [c], rep, pos, i, "");
    assert "" + s[pos..i] + rep == s[pos..i] + rep;
    CharMappedHit(s, c, rep, pos, i);
  }

  lemma CharMappedHit(s: string, c: char, rep: string, pos: nat, i: nat)
    requires pos <= i < |s| && s[i] == c && c !in s[pos..i]
    ensures CharMapped(s[pos..], c, rep) == s[pos..i] + rep + CharMapped(s[i + 1..], c, rep)
  {
    var after := s[i + 1..];
    assert s[pos..] == s[pos..i] + ([c] + after);
    CharMappedNone(s[pos..i], c, rep);
    CharMappedAppend(s[pos..i], [c] + after, c, rep);
    assert ([c] + after)[0] == c && ([c] + after)[1..] == after;
  }

  /** `replace(s, c, rep)` for a single character `c` maps every character of `s`. */
  lemma ReplacedIsCharMapped(s: string, c: char, rep: string)
    ensures Replaced(s, [c], Some(rep)) == CharMapped(s, c, rep)
  {
    if |s| > 0 {
      ReplacedCharMapped(s, c, rep, 0);
      assert s[0..] == s;
    }
  }

  /** `replace` of one character by a text without it: no occurrence survives, and a text without
      the character comes back unchanged. */
  lemma ReplacedCharGone(s: string, c: char, rep: string)
    requires c !in rep
    ensures c !in Replaced(s, [c], Some(rep))
    ensures c !in s ==> Replaced(s, [c], Some(rep)) == s
  {
    if |s| > 0 {
      ReplacedRemovesChar(s, c, rep, 0);
      if c !in s {
        forall k | 0 <= k < |s|
          ensures !OccursAt(s, [c], k)
        {
          assert s[k..k + 1][0] == s[k];
        }
        IndexOfFirst(s, [c], 0);
        assert s[0..] == s;
      }
    }
  }

  // ===========================================================================
  // getFilename, applyRelativePath

  /** `getFilename`: the part after the last `/`, or the whole path when it has none. */
  function GetFilename(path: Option<string>): (r: Option<string>)
    ensures r.None? <==> path.None?
    ensures r.Some? ==> '/' !in r.value && EndsWith(path.value, r.value)
    ensures r.Some? && r.value != path.value
            ==> |r.value| < |path.value| && path.value[|path.value| - |r.value| - 1] == '/'
    ensures path.Some? && '/' !in path.value ==> r == path
  {
    if path.None? then None
    else
      var separatorIndex := LastIndexOf(path.value, '/');
      if separatorIndex != -1 then Some(path.value[separatorIndex + 1..]) else path
  }

  /** `applyRelativePath`: the relative path put after the last `/` of `path`, with exactly one
      slash between them; just the relative path when `path` has no `/`. */
  function ApplyRelativePath(path: string, relativePath: string): (r: string)
    ensures EndsWith(r, relativePath)
    ensures '/' !in path ==> r == relativePath
    ensures '/' in path ==>
              var dir := path[..LastIndexOf(path, '/') + 1];
              r == dir + (if StartsWith(relativePath, "/") then relativePath[1..] else relativePath)
  {
    var separatorIndex := LastIndexOf(path, '/');
    if separatorIndex != -1 then
      var newPath := path[..separatorIndex];
      var newPath := if !StartsWith(relativePath, "/") then newPath + "/" else newPath;
      newPath + relativePath
    else relativePath
  }

  // ===========================================================================
  // collectionToDelimitedString

  /** The elements, each wrapped in `prefix` and `suffix`, separated by `delim`. */
  function DelimitedString(elems: seq<string>, delim: string, prefix: string, suffix: string): string
  {
    if elems == [] then ""
    else if |elems| == 1 then prefix + elems[0] + suffix
    else prefix + elems[0] + suffix + delim + DelimitedString(elems[1..], delim, prefix, suffix)
  }

  /** `collectionToDelimitedString(coll, delim, prefix, suffix)`: a builder loop over the elements,
      each appended through `String.valueOf`. */
  method CollectionToDelimitedString(coll: Option<seq<ObjectUtils.Obj>>, delim: string, prefix: string,
                                     suffix: string)
    returns (r: string)
    ensures r == if coll.None? then "" else DelimitedString(ValueOfEach(coll.value), delim, prefix, suffix)
  {
    if coll.None? || |coll.value| == 0 {
      return "";
    }
    var elems := coll.value;
    ghost var texts := ValueOfEach(elems);
    var sb := "";
    var i := 0;
    while i < |elems|
      invariant 0 <= i <= |elems|
      invariant i < |elems| ==>
                  sb + DelimitedString(texts[i..], delim, prefix, suffix)
                  == DelimitedString(texts, delim, prefix, suffix)
      invariant i == |elems| ==> sb == DelimitedString(texts, delim, prefix, suffix)
    {
      assert texts[i..][1..] == texts[i + 1..];
      sb := sb + prefix + ObjectUtils.ValueOf(elems[i]) + suffix;
      if i + 1 < |elems| {
        sb := sb + delim;
      }
      i := i + 1;
    }
    r := sb;
  }

  /** Strings as objects: `String.valueOf` gives each string back. */
  function AsObjects(texts: seq<string>): (r: seq<ObjectUtils.Obj>)
    ensures |r| == |texts|
    ensures ValueOfEach(r) == texts
  {
    seq(|texts|, i requires 0 <= i < |texts| => ObjectUtils.Str(texts[i]))
  }

  /** Without prefix and suffix, the delimited string is what a `StringJoiner` builds. */
  lemma {:induction false} DelimitedStringIsJoined(elems: seq<string>, delim: string)
    ensures DelimitedString(elems, delim, "", "") == Joined(elems, delim)
  {
    if |elems| > 1 {
      DelimitedStringIsJoined(elems[1..], delim);
    }
  }

  // ===========================================================================
  // deleteAny

  /** The characters of `s` that are not in `chars`, in their order. */
  function Kept(s: string, chars: string): (r: string)
    ensures |r| <= |s|
  {
    if s == [] then []
    else Kept(s[..|s| - 1], chars) + (if s[|s| - 1] in chars then [] else [s[|s| - 1]])
  }

  /** `deleteAny`: the input itself when it or the set of characters to delete is empty or null. */
  function DeletedAny(inString: string, charsToDelete: Option<string>): string
  {
    if HasLength(Some(inString)) && HasLength(charsToDelete)
    then Kept(inString, charsToDelete.value)
    else inString
  }

  /** `a` is `b` with some elements left out (a subsequence, matched greedily from the back). */
  predicate IsSubsequence<T(==)>(a: seq<T>, b: seq<T>)
  {
    if a == [] then true
    else if b == [] then false
    else if a[|a| - 1] == b[|b| - 1] then IsSubsequence(a[..|a| - 1], b[..|b| - 1])
    else IsSubsequence(a, b[..|b| - 1])
  }

  /** What `deleteAny` keeps is an order-preserving subsequence of its input. */
  lemma {:induction false} KeptSubsequence(s: string, chars: string)
    ensures IsSubsequence(Kept(s, chars), s)
  {
    if s != [] {
      var init := s[..|s| - 1];
      var last := s[|s| - 1];
      KeptSubsequence(init, chars);
      var k := Kept(init, chars);
      if last !in chars {
        assert Kept(s, chars)[..|Kept(s, chars)| - 1] == k;
      } else if k != [] {
        KeptNoneDeleted(init, chars);
        assert k[|k| - 1] in k;
        assert Kept(s, chars) == k;
      }
    }
  }

  /** `deleteAny` keeps every occurrence of every character it is not asked to delete, and none
      of the others. */
  lemma {:induction false} KeptCounts(s: string, chars: string)
    ensures forall c :: multiset(Kept(s, chars))[c] == if c in chars then 0 else multiset(s)[c]
  {
    if s != [] {
      var init := s[..|s| - 1];
      var last := s[|s| - 1];
      var tail := if last in chars then [] else [last];
      KeptCounts(init, chars);
      assert s == init + [last];
      assert multiset(s) == multiset(init) + multiset{last};
      assert multiset(Kept(s, chars)) == multiset(Kept(init, chars)) + multiset(tail);
    }
  }

  /** No character `deleteAny` is asked to delete survives. */
  lemma KeptNoneDeleted(s: string, chars: string)
    ensures forall c :: c in Kept(s, chars) ==> c !in chars
  {
    KeptCounts(s, chars);
  }

  /** `deleteAny` returns its input exactly when nothing was deleted. */
  lemma {:induction false} KeptAll(s: string, chars: string)
    ensures |Kept(s, chars)| == |s| <==> (forall c :: c in s ==> c !in chars)
    ensures |Kept(s, chars)| == |s| ==> Kept(s, chars) == s
  {
    if s != [] {
      var init := s[..|s| - 1];
      KeptAll(init, chars);
      assert s == init + [s[|s| - 1]];
      if s[|s| - 1] in chars {
        assert |Kept(s, chars)| < |s|;
      }
    }
  }

  /** `deleteAny`: copies the kept characters into a char array with a cursor. */
  method DeleteAny(inString: string, charsToDelete: Option<string>) returns (r: string)
    ensures r == DeletedAny(inString, charsToDelete)
  {
    if HasLength(Some(inString)) && HasLength(charsToDelete) {
      var chars := charsToDelete.value;
      var lastCharIndex := 0;
      var result := new char[|inString|];
      for i := 0 to |inString|
        invariant lastCharIndex <= i
        invariant result[..lastCharIndex] == Kept(inString[..i], chars)
      {
        assert inString[..i + 1][..i] == inString[..i];
        var c := inString[i];
        if c !in chars {
          result[lastCharIndex] := c;
          lastCharIndex := lastCharIndex + 1;
        }
      }
      assert inString[..|inString|] == inString;
      if lastCharIndex == |inString| {
        KeptAll(inString, chars);
        r := inString;
      } else {
        r := result[..lastCharIndex];
      }
    } else {
      r := inString;
    }
  }

  // ===========================================================================
  // delimitedListToStringArray

  /** The pieces of `s[pos..]` between the occurrences of `delim`, found left to right. */
  function PiecesFrom(s: string, delim: string, pos: nat): (r: seq<string>)
    requires |delim| > 0 && pos <= |s|
    ensures |r| > 0
    decreases |s| - pos
  {
    var i := IndexOf(s, delim, pos);
    if i == -1 then [s[pos..]] else [s[pos..i]] + PiecesFrom(s, delim, i + |delim|)
  }

  /** `k` occurrences of the delimiter make `k + 1` pieces. */
  lemma {:induction false} PiecesCount(s: string, delim: string, pos: nat)
    requires |delim| > 0 && pos <= |s|
    ensures |PiecesFrom(s, delim, pos)| == OccurrencesFrom(s, delim, pos) + 1
    decreases |s| - pos
  {
    var i := IndexOf(s, delim, pos);
    if i != -1 {
      var next := i + |delim|;
      PiecesLengthStep(s, delim, pos, i);
      OccurrencesStep(s, delim, pos, i);
      PiecesCount(s, delim, next);
    } else {
      PiecesCountMiss(s, delim, pos);
    }
  }

  lemma PiecesCountMiss(s: string, delim: string, pos: nat)
    requires |delim| > 0 && pos <= |s| && IndexOf(s, delim, pos) == -1
    ensures |PiecesFrom(s, delim, pos)| == 1 && OccurrencesFrom(s, delim, pos) == 0
  {
  }

  lemma PiecesLengthStep(s: string, delim: string, pos: nat, i: int)
    requires |delim| > 0 && pos <= |s| && i == IndexOf(s, delim, pos) && i != -1
    ensures pos <= i && i + |delim| <= |s|
    ensures |PiecesFrom(s, delim, pos)| == 1 + |PiecesFrom(s, delim, i + |delim|)|
  {
    PiecesStep(s, delim, pos);
  }

  lemma OccurrencesStep(s: string, pat: string, pos: nat, i: int)
    requires |pat| > 0 && pos <= |s| && i == IndexOf(s, pat, pos) && i != -1
    ensures OccurrencesFrom(s, pat, pos) == 1 + OccurrencesFrom(s, pat, i + |pat|)
  {
  }

  /** `deleteAny` applied to every element. */
  function DeletedEach(xs: seq<string>, charsToDelete: Option<string>): (r: seq<string>)
    ensures |r| == |xs| && forall i :: 0 <= i < |xs| ==> r[i] == DeletedAny(xs[i], charsToDelete)
  {
    seq(|xs|, i requires 0 <= i < |xs| => DeletedAny(xs[i], charsToDelete))
  }

  /** `delimitedListToStringArray(str, delimiter, charsToDelete)`. */
  function DelimitedList(str: Option<string>, delimiter: Option<string>, charsToDelete: Option<string>)
    : (r: seq<string>)
    ensures str.None? ==> r == []
    ensures str.Some? && delimiter.None? ==> r == [str.value]
    ensures str.Some? && delimiter.Some? && |delimiter.value| == 0 ==>
              |r| == |str.value|
              && forall i :: 0 <= i < |r| ==> r[i] == DeletedAny(str.value[i..i + 1], charsToDelete)
    ensures str.Some? && delimiter.Some? && |delimiter.value| > 0 && |str.value| == 0 ==> r == []
  {
    if str.None? then []
    else if delimiter.None? then [str.value]
    else if |delimiter.value| == 0 then
      seq(|str.value|, i requires 0 <= i < |str.value| => DeletedAny(str.value[i..i + 1], charsToDelete))
    else if |str.value| == 0 then []
    else DeletedEach(PiecesFrom(str.value, delimiter.value, 0), charsToDelete)
  }

  /** With a non-empty delimiter, a non-empty text holding `k` occurrences of it splits into
      `k + 1` elements. */
  lemma DelimitedListCount(str: string, delimiter: string, charsToDelete: Option<string>)
    requires |delimiter| > 0 && |str| > 0
    ensures |DelimitedList(Some(str), Some(delimiter), charsToDelete)| == OccurrencesFrom(str, delimiter, 0) + 1
  {
    PiecesCount(str, delimiter, 0);
  }

  /** `delimitedListToStringArray`: dispatches on null input, null delimiter and empty delimiter. */
  method DelimitedListToStringArray(str: Option<string>, delimiter: Option<string>, charsToDelete: Option<string>)
    returns (r: seq<string>)
    ensures r == DelimitedList(str, delimiter, charsToDelete)
  {
    if str.None? {
      return [];
    }
    if delimiter.None? {
      return [str.value];
    }
    if |delimiter.value| == 0 {
      r := CharPieces(str.value, charsToDelete);
    } else {
      r := DelimitedPieces(str.value, delimiter.value, charsToDelete);
    }
  }

  /** The loop for an empty delimiter: one element per character. */
  method CharPieces(s: string, charsToDelete: Option<string>) returns (result: seq<string>)
    ensures result == DelimitedList(Some(s), Some(""), charsToDelete)
  {
    result := [];
    for i := 0 to |s|
      invariant |result| == i
      invariant forall k :: 0 <= k < i ==> result[k] == DeletedAny(s[k..k + 1], charsToDelete)
    {
      var piece := DeleteAny(s[i..i + 1], charsToDelete);
      result := result + [piece];
    }
  }

  /** The loop for a non-empty delimiter: advances `pos` past each occurrence. */
  method DelimitedPieces(s: string, delim: string, charsToDelete: Option<string>) returns (result: seq<string>)
    requires |delim| > 0
    ensures result == if |s| == 0 then [] else DeletedEach(PiecesFrom(s, delim, 0), charsToDelete)
  {
    result := [];
    var pos := 0;
    var delPos := IndexOf(s, delim, pos);
    while delPos != -1
      invariant 0 <= pos <= |s|
      invariant delPos == IndexOf(s, delim, pos)
      invariant result + DeletedEach(PiecesFrom(s, delim, pos), charsToDelete)
             == DeletedEach(PiecesFrom(s, delim, 0), charsToDelete)
      decreases |s| - pos
    {
      DeletedPiecesHit(s, delim, pos, delPos, charsToDelete, result);
      var piece := DeleteAny(s[pos..delPos], charsToDelete);
      result := result + [piece];
      pos := delPos + |delim|;
      delPos := IndexOf(s, delim, pos);
    }
    DeletedPiecesMiss(s, delim, pos, charsToDelete);
    if |s| > 0 && pos <= |s| {
      var piece := DeleteAny(s[pos..], charsToDelete);
      result := result + [piece];
    } else {
      assert pos == 0 && |result| == 0;
    }
  }

  /** One turn of the split loop: the next piece runs up to the next occurrence, and the pieces
      after it start behind that occurrence. */
  lemma DeletedPiecesHit(s: string, delim: string, pos: nat, i: int, charsToDelete: Option<string>,
                         done: seq<string>)
    requires |delim| > 0 && pos <= |s| && i == IndexOf(s, delim, pos) && i != -1
    ensures pos <= i && i + |delim| <= |s|
    ensures done + DeletedEach(PiecesFrom(s, delim, pos), charsToDelete)
            == (done + [DeletedAny(s[pos..i], charsToDelete)])
               + DeletedEach(PiecesFrom(s, delim, i + |delim|), charsToDelete)
  {
    var rest := PiecesFrom(s, delim, i + |delim|);
    PiecesStep(s, delim, pos);
    DeletedEachCons(s[pos..i], rest, charsToDelete);
  }

  /** The split loop's last piece is the rest of the text. */
  lemma DeletedPiecesMiss(s: string, delim: string, pos: nat, charsToDelete: Option<string>)
    requires |delim| > 0 && pos <= |s| && IndexOf(s, delim, pos) == -1
    ensures DeletedEach(PiecesFrom(s, delim, pos), charsToDelete) == [DeletedAny(s[pos..], charsToDelete)]
  {
  }

  /** Deleting characters element by element, one element in front. */
  lemma DeletedEachCons(x: string, xs: seq<string>, charsToDelete: Option<string>)
    ensures DeletedEach([x] + xs, charsToDelete) == [DeletedAny(x, charsToDelete)] + DeletedEach(xs, charsToDelete)
  {
  }

  /** Without characters to delete every element is kept as found. */
  lemma DeletedEachNothing(xs: seq<string>)
    ensures DeletedEach(xs, None) == xs
  {
  }

  /** Joining the pieces with the delimiter gives back the text. */
  lemma {:induction false} JoinedPieces(s: string, delim: string, pos: nat)
    requires |delim| > 0 && pos <= |s|
    ensures Joined(PiecesFrom(s, delim, pos), delim) == s[pos..]
    decreases |s| - pos
  {
    var i := IndexOf(s, delim, pos);
    if i != -1 {
      var next := i + |delim|;
      JoinedPieces(s, delim, next);
      PiecesStep(s, delim, pos);
      SplitAtIndexOf(s, delim, pos);
      JoinedCons(s[pos..i], PiecesFrom(s, delim, next), delim);
    }
  }

  lemma PiecesStep(s: string, delim: string, pos: nat)
    requires |delim| > 0 && pos <= |s| && IndexOf(s, delim, pos) != -1
    ensures var i := IndexOf(s, delim, pos);
            PiecesFrom(s, delim, pos) == [s[pos..i]] + PiecesFrom(s, delim, i + |delim|)
  {
  }

  lemma JoinedCons(x: string, xs: seq<string>, delim: string)
    requires |xs| > 0
    ensures Joined([x] + xs, delim) == x + delim + Joined(xs, delim)
  {
    assert ([x] + xs)[1..] == xs;
  }

  /** Split, then join by the same delimiter: the original text. */
  lemma JoinSplit(s: string, delim: string)
    requires |delim| > 0
    ensures DelimitedString(DelimitedList(Some(s), Some(delim), None), delim, "", "") == s
  {
    if |s| > 0 {
      DeletedEachNothing(PiecesFrom(s, delim, 0));
      JoinedPieces(s, delim, 0);
      DelimitedStringIsJoined(PiecesFrom(s, delim, 0), delim);
    }
  }

  /** `indexOf` of a single character: the first index at or after `from` holding it. */
  lemma {:induction false} IndexOfChar(s: string, c: char, from: nat, to: nat)
    requires from <= to <= |s|
    requires forall k :: from <= k < to ==> s[k] != c
    requires to < |s| ==> s[to] == c
    ensures IndexOf(s, [c], from) == (if to == |s| then -1 else to)
    decreases |s| - from
  {
    if from < to {
      assert s[from..from + 1] == [s[from]];
      IndexOfChar(s, c, from + 1, to);
    } else if to < |s| {
      assert s[to..to + 1] == [c];
    }
  }

  /** One split step: a piece `x` at `pos` free of the delimiter `c`, which ends the text or is
      followed by `c`, is the first piece, and splitting goes on after that `c`. */
  lemma FirstPiece(s: string, pos: nat, x: string, c: char)
    requires pos + |x| <= |s| && s[pos..pos + |x|] == x && c !in x
    requires pos + |x| < |s| ==> s[pos + |x|] == c
    ensures PiecesFrom(s, [c], pos)
            == [x] + (if pos + |x| == |s| then [] else PiecesFrom(s, [c], pos + |x| + 1))
  {
    var end := pos + |x|;
    forall k | pos <= k < end
      ensures s[k] != c
    {
      assert s[k] == x[k - pos];
    }
    IndexOfChar(s, c, pos, end);
    if end == |s| {
      assert s[pos..] == s[pos..end];
    }
  }

  /** Where a join of two or more pieces sits in a text: the first piece, the delimiter, and
      the join of the others. */
  lemma JoinedAt(s: string, pos: nat, xs: seq<string>, c: char)
    requires pos <= |s| && |xs| > 1 && s[pos..] == Joined(xs, [c])
    ensures pos + |xs[0]| < |s|
    ensures s[pos..pos + |xs[0]|] == xs[0] && s[pos + |xs[0]|] == c
    ensures s[pos + |xs[0]| + 1..] == Joined(xs[1..], [c])
  {
    var x := xs[0];
    var t := s[pos..];
    var rest := Joined(xs[1..], [c]);
    assert xs == [x] + xs[1..];
    JoinedCons(x, xs[1..], [c]);
    assert t == x + ([c] + rest);
    assert s[pos..pos + |x|] == t[..|x|];
    assert s[pos + |x| + 1..] == t[|x| + 1..];
  }

  /** Splitting, from `pos`, a text whose rest is the join of `xs` by a one-character delimiter
      that no element holds gives back the elements. */
  lemma {:induction false} PiecesOfJoined(s: string, pos: nat, xs: seq<string>, c: char)
    requires pos <= |s| && |xs| > 0
    requires forall k :: 0 <= k < |xs| ==> c !in xs[k]
    requires s[pos..] == Joined(xs, [c])
    ensures PiecesFrom(s, [c], pos) == xs
    decreases |xs|
  {
    var x := xs[0];
    if |xs| == 1 {
      assert s[pos..pos + |x|] == s[pos..] == x;
      FirstPiece(s, pos, x, c);
    } else {
      var next := pos + |x| + 1;
      JoinedAt(s, pos, xs, c);
      FirstPiece(s, pos, x, c);
      assert PiecesFrom(s, [c], pos) == [x] + PiecesFrom(s, [c], next);
      forall k | 0 <= k < |xs| - 1
        ensures c !in xs[1..][k]
      {
        assert xs[1..][k] == xs[k + 1];
      }
      PiecesOfJoined(s, next, xs[1..], c);
      assert xs == [x] + xs[1..];
    }
  }

  /** Join, then split by the same one-character delimiter: the original elements, when no
      element holds the delimiter and the joined text is not empty. */
  lemma SplitJoin(xs: seq<string>, c: char)
    requires forall k :: 0 <= k < |xs| ==> c !in xs[k]
    requires DelimitedString(xs, [c], "", "") != ""
    ensures DelimitedList(Some(DelimitedString(xs, [c], "", "")), Some([c]), None) == xs
  {
    var s := DelimitedString(xs, [c], "", "");
    DelimitedStringIsJoined(xs, [c]);
    assert s[0..] == s;
    PiecesOfJoined(s, 0, xs, c);
    DeletedEachNothing(PiecesFrom(s, [c], 0));
  }

  /** With a delimiter of two or more characters the round trip can fail: `["a", "b"]` joined by
      `"aa"` is `"aaab"`, which splits into `["", "ab"]`. */
  lemma SplitJoinNeedsOneCharDelimiter()
    ensures DelimitedString(["a", "b"], "aa", "", "") == "aaab"
    ensures DelimitedList(Some("aaab"), Some("aa"), None) == ["", "ab"]
  {
    var s := "aaab";
    assert s[0..2] == "aa";
    assert s[2..4][1] == 'b';
    assert IndexOf(s, "aa", 3) == -1;
    assert IndexOf(s, "aa", 2) == -1;
    assert PiecesFrom(s, "aa", 2) == ["ab"];
    assert PiecesFrom(s, "aa", 0) == [""] + ["ab"];
    DeletedEachNothing(["", "ab"]);
  }

  // ===========================================================================
  // tokenizeToStringArray

  /** No character of `t` is one of `delimiters`. */
  predicate FreeOf(t: string, delimiters: string)
  {
    forall c :: c in t ==> c !in delimiters
  }

  /** What a `java.util.StringTokenizer` hands out for `s` after the token `cur` it has started:
      the maximal runs of characters that are not delimiters. */
  function TokensFrom(s: string, delimiters: string, cur: string): seq<string>
  {
    if s == [] then (if cur == [] then [] else [cur])
    else if s[0] in delimiters then
      (if cur == [] then [] else [cur]) + TokensFrom(s[1..], delimiters, [])
    else TokensFrom(s[1..], delimiters, cur + [s[0]])
  }

  /** Tokens are non-empty and hold no delimiter. */
  lemma {:induction false} TokensFromFree(s: string, delimiters: string, cur: string)
    requires FreeOf(cur, delimiters)
    ensures forall t :: t in TokensFrom(s, delimiters, cur) ==> |t| > 0 && FreeOf(t, delimiters)
  {
    if s != [] {
      if s[0] in delimiters {
        TokensFromFree(s[1..], delimiters, []);
      } else {
        TokensFromFree(s[1..], delimiters, cur + [s[0]]);
      }
    }
  }

  /** The tokens of `s`. */
  function Tokens(s: string, delimiters: string): seq<string>
  {
    TokensFrom(s, delimiters, [])
  }

  /** The tokens, trimmed if asked, with the empty ones left out if asked. */
  function Tokenized(tokens: seq<string>, trimTokens: bool, ignoreEmptyTokens: bool): seq<string>
  {
    if tokens == [] then []
    else
      var token := if trimTokens then Trim(tokens[0]) else tokens[0];
      (if !ignoreEmptyTokens || token != [] then [token] else [])
      + Tokenized(tokens[1..], trimTokens, ignoreEmptyTokens)
  }

  /** `tokenizeToStringArray(str, delimiters, trimTokens, ignoreEmptyTokens)`: a loop over the
      tokenizer's tokens. */
  method TokenizeToStringArray(str: Option<string>, delimiters: string, trimTokens: bool, ignoreEmptyTokens: bool)
    returns (r: seq<string>)
    ensures r == if str.None? then [] else Tokenized(Tokens(str.value, delimiters), trimTokens, ignoreEmptyTokens)
  {
    if str.None? {
      return [];
    }
    var st := Tokens(str.value, delimiters);
    var tokens: seq<string> := [];
    var i := 0;
    while i < |st|
      invariant 0 <= i <= |st|
      invariant tokens + Tokenized(st[i..], trimTokens, ignoreEmptyTokens)
             == Tokenized(st, trimTokens, ignoreEmptyTokens)
    {
      var token := if trimTokens then Trim(st[i]) else st[i];
      TokenizedStep(tokens, st, i, trimTokens, ignoreEmptyTokens);
      tokens := tokens + (if !ignoreEmptyTokens || token != [] then [token] else []);
      i := i + 1;
    }
    r := tokens;
  }

  /** One step of the tokenizer loop: the `i`-th token, trimmed if asked, is appended unless it
      is empty and empty tokens are ignored. */
  lemma TokenizedStep(tokens: seq<string>, st: seq<string>, i: nat, trimTokens: bool, ignoreEmptyTokens: bool)
    requires i < |st|
    ensures var token := if trimTokens then Trim(st[i]) else st[i];
            (tokens + (if !ignoreEmptyTokens || token != [] then [token] else []))
            + Tokenized(st[i + 1..], trimTokens, ignoreEmptyTokens)
            == tokens + Tokenized(st[i..], trimTokens, ignoreEmptyTokens)
  {
    var token := if trimTokens then Trim(st[i]) else st[i];
    var head := if !ignoreEmptyTokens || token != [] then [token] else [];
    var rest := Tokenized(st[i + 1..], trimTokens, ignoreEmptyTokens);
    assert st[i..][0] == st[i] && st[i..][1..] == st[i + 1..];
    assert Tokenized(st[i..], trimTokens, ignoreEmptyTokens) == head + rest;
    assert (tokens + head) + rest == tokens + (head + rest);
  }

  /** With trimming and empty tokens ignored, every token is non-empty, starts and ends with a
      character above U+0020, and holds no delimiter. */
  lemma {:induction false} TokenizedClean(tokens: seq<string>, delimiters: string)
    requires forall t :: t in tokens ==> FreeOf(t, delimiters)
    ensures forall t :: t in Tokenized(tokens, true, true) ==>
              |t| > 0 && ' ' < t[0] && ' ' < t[|t| - 1] && FreeOf(t, delimiters)
  {
    if tokens != [] {
      var token := Trim(tokens[0]);
      var head := if token != [] then [token] else [];
      assert Tokenized(tokens, true, true) == head + Tokenized(tokens[1..], true, true);
      TokenizedClean(tokens[1..], delimiters);
      assert tokens[0] in tokens;
    }
  }

  /** `tokenizeToStringArray(str, delimiters)` (trimming, ignoring empty tokens) yields clean tokens. */
  lemma TokenizeDefaultsClean(str: string, delimiters: string)
    ensures forall t :: t in Tokenized(Tokens(str, delimiters), true, true) ==>
              |t| > 0 && ' ' < t[0] && ' ' < t[|t| - 1] && FreeOf(t, delimiters)
  {
    TokensFromFree(str, delimiters, []);
    TokenizedClean(Tokens(str, delimiters), delimiters);
  }

  // ===========================================================================
  // arrayToDelimitedString

  /** `String.valueOf` of every element. */
  function ValueOfEach(arr: seq<ObjectUtils.Obj>): (r: seq<string>)
    ensures |r| == |arr|
    ensures forall i :: 0 <= i < |arr| ==> r[i] == ObjectUtils.ValueOf(arr[i])
  {
    seq(|arr|, i requires 0 <= i < |arr| => ObjectUtils.ValueOf(arr[i]))
  }

  /** `arrayToDelimitedString(arr, delim)`: empty for a null or empty array, the lone element's
      `nullSafeToString` for one element, else the elements' `String.valueOf` joined by `delim`. */
  function ArrayDelimited(arr: Option<seq<ObjectUtils.Obj>>, delim: string): string
  {
    if ObjectUtils.IsEmptyArray(arr) then ""
    else if |arr.value| == 1 then ObjectUtils.NullSafeToString(arr.value[0])
    else Joined(ValueOfEach(arr.value), delim)
  }

  /** `arrayToDelimitedString`: adds each element to a `StringJoiner`. */
  method ArrayToDelimitedString(arr: Option<seq<ObjectUtils.Obj>>, delim: string) returns (r: string)
    ensures r == ArrayDelimited(arr, delim)
  {
    if ObjectUtils.IsEmptyArray(arr) {
      return "";
    }
    var elems := arr.value;
    if |elems| == 1 {
      return ObjectUtils.NullSafeToString(elems[0]);
    }
    var parts: seq<string> := [];
    for i := 0 to |elems|
      invariant parts == ValueOfEach(elems[..i])
    {
      assert elems[..i + 1] == elems[..i] + [elems[i]];
      parts := parts + [ObjectUtils.ValueOf(elems[i])];
    }
    assert elems[..|elems|] == elems;
    r := Joined(parts, delim);
  }

  /** For an array of strings, `arrayToDelimitedString` and `collectionToDelimitedString` agree. */
  lemma ArrayDelimitedOfStrings(texts: seq<string>, delim: string)
    ensures ArrayDelimited(Some(AsObjects(texts)), delim) == DelimitedString(texts, delim, "", "")
  {
    DelimitedStringIsJoined(texts, delim);
  }

  // ===========================================================================
  // cleanPath

  /** Windows separators turned into slashes: first each `\\` pair, then each single `\`. */
  function SlashSeparated(path: string): string
  {
    if '\\' in path then Replaced(Replaced(path, "\\\\", Some("/")), "\\", Some("/")) else path
  }

  /** A path split into what `cleanPath` keeps in front and the rest it analyses. */
  datatype PathParts = PathParts(prefix: string, rest: string)

  /** The front of a path: the text up to its first `:` when that holds no `/` (a scheme such as
      `file:`), then a `/` if the remainder starts with one. */
  function SplitPrefix(path: string): (r: PathParts)
    ensures r.prefix + r.rest == path
  {
    var prefixIndex := IndexOf(path, ":", 0);
    var scheme := if prefixIndex == -1 || '/' in path[..prefixIndex + 1] then "" else path[..prefixIndex + 1];
    var afterScheme := path[|scheme|..];
    if StartsWith(afterScheme, "/") then PathParts(scheme + "/", afterScheme[1..])
    else PathParts(scheme, afterScheme)
  }

  /** Where a scan of path elements stands: the elements kept so far and how many `..` are
      still unmatched. */
  datatype Collapsed = Collapsed(kept: seq<string>, tops: nat)

  /** `cleanPath`'s scan, last element first: `.` is dropped, `..` is counted, and any other element
      is dropped when a counted `..` is pending (consuming it) or else kept. */
  function Collapse(elements: seq<string>): Collapsed
  {
    if elements == [] then Collapsed([], 0)
    else
      var c := Collapse(elements[1..]);
      var e := elements[0];
      if e == "." then c
      else if e == ".." then Collapsed(c.kept, c.tops + 1)
      else if c.tops > 0 then Collapsed(c.kept, c.tops - 1)
      else Collapsed([e] + c.kept, c.tops)
  }

  /** `n` copies of `..`. */
  function Tops(n: nat): (r: seq<string>)
    ensures |r| == n && forall i :: 0 <= i < n ==> r[i] == ".."
  {
    seq(n, _ => "..")
  }

  /** The elements `cleanPath` joins: unmatched `..` first, then the kept elements; a lone empty
      element gets a `.` in front unless the prefix ends with a slash. */
  function Rebuilt(c: Collapsed, prefix: string): seq<string>
  {
    var elements := Tops(c.tops) + c.kept;
    if |elements| == 1 && elements[0] == "" && !EndsWith(prefix, "/") then ["."] + elements else elements
  }

  /** The path elements `cleanPath` analyses. */
  function PathElements(normalized: string): seq<string>
  {
    DelimitedList(Some(SplitPrefix(normalized).rest), Some("/"), None)
  }

  /** `cleanPath(path)`. */
  function CleanedPath(path: string): string
  {
    if !HasLength(Some(path)) then path
    else
      var normalized := SlashSeparated(path);
      if '.' !in normalized then normalized
      else
        var parts := SplitPrefix(normalized);
        var elements := PathElements(normalized);
        var c := Collapse(elements);
        if |elements| == |c.kept| then normalized
        else parts.prefix + DelimitedString(Rebuilt(c, parts.prefix), "/", "", "")
  }

  /** `cleanPath`: replaces Windows separators, strips the prefix, then walks the elements
      backwards pushing the survivors onto the front of a deque. */
  method CleanPath(path: string) returns (r: string)
    ensures r == CleanedPath(path)
  {
    if !HasLength(Some(path)) {
      return path;
    }
    var normalizedPath := NormalizeSeparators(path);
    if '.' !in normalizedPath {
      return normalizedPath;
    }
    var prefix, pathToUse := StripPrefix(normalizedPath);
    var pathArray := DelimitedListToStringArray(Some(pathToUse), Some("/"), None);
    var pathElements, tops := CollapseBackward(pathArray);
    if |pathArray| == |pathElements| {
      return normalizedPath;
    }
    pathElements := PrependTops(pathElements, tops);
    if |pathElements| == 1 && pathElements[|pathElements| - 1] == "" && !EndsWith(prefix, "/") {
      pathElements := ["."] + pathElements;
    }
    var joined := CollectionToDelimitedString(Some(AsObjects(pathElements)), "/", "", "");
    r := if |prefix| == 0 then joined else prefix + joined;
  }

  /** The separator normalisation at the start of `cleanPath`: the `\\` pairs, then the single
      backslashes, become slashes; a path without a backslash is left alone. */
  method NormalizeSeparators(path: string) returns (r: string)
    ensures r == SlashSeparated(path)
  {
    if '\\' in path {
      r := Replace(path, "\\\\", Some("/"));
      r := Replace(r, "\\", Some("/"));
    } else {
      r := path;
    }
  }

  /** The prefix stripping of `cleanPath`. */
  method StripPrefix(path: string) returns (prefix: string, pathToUse: string)
    ensures PathParts(prefix, pathToUse) == SplitPrefix(path)
  {
    pathToUse := path;
    var prefixIndex := IndexOf(pathToUse, ":", 0);
    prefix := "";
    if prefixIndex != -1 {
      prefix := pathToUse[..prefixIndex + 1];
      if '/' in prefix {
        prefix := "";
      } else {
        pathToUse := pathToUse[prefixIndex + 1..];
      }
    }
    if StartsWith(pathToUse, "/") {
      prefix := prefix + "/";
      pathToUse := pathToUse[1..];
    }
  }

  /** The backward loop of `cleanPath` over the path elements. */
  method CollapseBackward(pathArray: seq<string>) returns (pathElements: seq<string>, tops: nat)
    ensures Collapsed(pathElements, tops) == Collapse(pathArray)
  {
    pathElements := [];
    tops := 0;
    var i := |pathArray|;
    while i > 0
      invariant 0 <= i <= |pathArray|
      invariant Collapsed(pathElements, tops) == Collapse(pathArray[i..])
    {
      i := i - 1;
      assert pathArray[i..][1..] == pathArray[i + 1..];
      var element := pathArray[i];
      if element == ".." {
        tops := tops + 1;
      } else if element != "." {
        if tops > 0 {
          tops := tops - 1;
        } else {
          pathElements := [element] + pathElements;
        }
      }
    }
    assert pathArray[0..] == pathArray;
  }

  /** The loop of `cleanPath` that puts the unmatched `..` back in front. */
  method PrependTops(kept: seq<string>, tops: nat) returns (pathElements: seq<string>)
    ensures pathElements == Tops(tops) + kept
  {
    pathElements := kept;
    for k := 0 to tops
      invariant pathElements == Tops(k) + kept
    {
      assert [".."] + Tops(k) == Tops(k + 1);
      pathElements := [".."] + pathElements;
    }
  }

  // ---------------------------------------------------------------------------
  // cleanPath: the backward scan is the left-to-right stack reading

  /** One element read left to right: `.` is skipped, `..` cancels the nearest preceding element
      still kept (or stays unmatched when none is left), any other element is kept. */
  function Step(c: Collapsed, e: string): Collapsed
  {
    if e == "." then c
    else if e == ".." then
      (if |c.kept| > 0 then Collapsed(c.kept[..|c.kept| - 1], c.tops) else Collapsed(c.kept, c.tops + 1))
    else Collapsed(c.kept + [e], c.tops)
  }

  /** Reading `elements` left to right from `start`. */
  function Resolve(start: Collapsed, elements: seq<string>): Collapsed
  {
    if elements == [] then start
    else Step(Resolve(start, elements[..|elements| - 1]), elements[|elements| - 1])
  }

  /** The state after reading something that ends in `a`, then something that reads as `b` from
      the empty state. */
  function Then(a: Collapsed, b: Collapsed): Collapsed
  {
    if b.tops <= |a.kept| then Collapsed(a.kept[..|a.kept| - b.tops] + b.kept, a.tops)
    else Collapsed(b.kept, a.tops + b.tops - |a.kept|)
  }

  lemma StepThen(a: Collapsed, b: Collapsed, e: string)
    ensures Step(Then(a, b), e) == Then(a, Step(b, e))
  {
    if e == ".." && |b.kept| > 0 && b.tops <= |a.kept| {
      var x := a.kept[..|a.kept| - b.tops];
      assert (x + b.kept)[..|x + b.kept| - 1] == x + b.kept[..|b.kept| - 1];
    } else if e == ".." && |b.kept| == 0 && b.tops + 1 <= |a.kept| {
      assert a.kept[..|a.kept| - b.tops][..|a.kept| - b.tops - 1] == a.kept[..|a.kept| - (b.tops + 1)];
    } else if e != "." && e != ".." && b.tops <= |a.kept| {
      assert a.kept[..|a.kept| - b.tops] + (b.kept + [e]) == (a.kept[..|a.kept| - b.tops] + b.kept) + [e];
    }
  }

  /** Reading from any start is reading from the empty state, then composing. */
  lemma {:induction false} ResolveThen(a: Collapsed, s: seq<string>)
    ensures Resolve(a, s) == Then(a, Resolve(Collapsed([], 0), s))
  {
    if s == [] {
      assert a.kept[..|a.kept|] == a.kept;
    } else {
      var init := s[..|s| - 1];
      ResolveThen(a, init);
      StepThen(a, Resolve(Collapsed([], 0), init), s[|s| - 1]);
    }
  }

  /** Reading `[e] + t` is reading `e`, then `t`. */
  lemma {:induction false} ResolveFirst(a: Collapsed, e: string, t: seq<string>)
    ensures Resolve(a, [e] + t) == Resolve(Step(a, e), t)
  {
    if t == [] {
      assert ([e] + t)[..0] == [];
    } else {
      var t' := t[..|t| - 1];
      ResolveFirst(a, e, t');
      assert ([e] + t)[..|[e] + t| - 1] == [e] + t';
    }
  }

  /** `cleanPath`'s backward scan keeps and counts exactly what the left-to-right stack reading
      does: each `..` cancels the nearest preceding element not already cancelled, and the `..`
      left unmatched are those with no such element before them. */
  lemma {:induction false} CollapseIsResolve(s: seq<string>)
    ensures Collapse(s) == Resolve(Collapsed([], 0), s)
  {
    if s != [] {
      var e := s[0];
      var t := s[1..];
      assert s == [e] + t;
      CollapseIsResolve(t);
      ResolveFirst(Collapsed([], 0), e, t);
      ResolveThen(Step(Collapsed([], 0), e), t);
      var c := Collapse(t);
      if e != "." && e != ".." && c.tops <= 1 {
        assert [e][..1 - c.tops] == if c.tops == 0 then [e] else [];
      }
    }
  }

  /** The elements kept by the scan are elements of the input and are neither `.` nor `..`. */
  lemma {:induction false} CollapseKept(s: seq<string>)
    ensures forall x :: x in Collapse(s).kept ==> x in s && x != "." && x != ".."
  {
    if s != [] {
      CollapseKept(s[1..]);
    }
  }

  /** The scan keeps at most every element, and drops one whenever there is a `.` or `..`. */
  lemma {:induction false} CollapseDrops(s: seq<string>)
    ensures |Collapse(s).kept| <= |s|
    ensures (exists i :: 0 <= i < |s| && (s[i] == "." || s[i] == "..")) ==> |Collapse(s).kept| < |s|
  {
    if s != [] {
      CollapseDrops(s[1..]);
      if exists i :: 0 <= i < |s| && (s[i] == "." || s[i] == "..") {
        var i :| 0 <= i < |s| && (s[i] == "." || s[i] == "..");
        if i > 0 {
          assert s[1..][i - 1] == s[i];
        }
      }
    }
  }

  /** Without `.` and `..` elements the scan keeps everything. */
  lemma {:induction false} CollapsePlain(s: seq<string>)
    requires forall i :: 0 <= i < |s| ==> s[i] != "." && s[i] != ".."
    ensures Collapse(s) == Collapsed(s, 0)
  {
    if s != [] {
      CollapsePlain(s[1..]);
      assert [s[0]] + s[1..] == s;
    }
  }

  // ---------------------------------------------------------------------------
  // cleanPath: properties of the result

  /** Every element of `xs` lacks `c`. */
  predicate AllFree(xs: seq<string>, c: char)
  {
    forall i :: 0 <= i < |xs| ==> c !in xs[i]
  }

  lemma {:induction false} PiecesFree(s: string, delim: string, pos: nat, c: char)
    requires |delim| > 0 && pos <= |s| && c !in s
    ensures AllFree(PiecesFrom(s, delim, pos), c)
    decreases |s| - pos
  {
    var i := IndexOf(s, delim, pos);
    if i != -1 {
      PiecesFree(s, delim, i + |delim|, c);
      assert forall k :: pos <= k < i ==> s[k] in s;
    } else {
      assert forall k :: pos <= k < |s| ==> s[k] in s;
    }
  }

  lemma {:induction false} DelimitedFree(xs: seq<string>, delim: string, c: char)
    requires AllFree(xs, c) && c !in delim
    ensures c !in DelimitedString(xs, delim, "", "")
  {
    if |xs| > 1 {
      DelimitedFree(xs[1..], delim, c);
    }
  }

  /** `cleanPath`'s separator normalisation leaves no backslash. */
  lemma SlashSeparatedNoBackslash(path: string)
    ensures '\\' !in SlashSeparated(path)
  {
    if '\\' in path {
      ReplacedCharGone(Replaced(path, "\\\\", Some("/")), '\\', "/");
    }
  }

  /** The elements split from a path that lacks a character lack it too. */
  lemma ElementsFree(normalized: string, c: char)
    requires c !in normalized
    ensures AllFree(PathElements(normalized), c)
  {
    var parts := SplitPrefix(normalized);
    assert c !in parts.rest by {
      assert forall k :: 0 <= k < |parts.rest| ==> parts.rest[k] == normalized[|parts.prefix| + k];
    }
    if |parts.rest| > 0 {
      PiecesFree(parts.rest, "/", 0, c);
      DeletedEachNothing(PiecesFrom(parts.rest, "/", 0));
    }
  }

  /** Rebuilding from elements without a backslash adds none. */
  lemma RebuiltNoBackslash(elements: seq<string>, prefix: string)
    requires AllFree(elements, '\\')
    ensures AllFree(Rebuilt(Collapse(elements), prefix), '\\')
  {
    var c := Collapse(elements);
    CollapseKept(elements);
    forall i | 0 <= i < |Tops(c.tops) + c.kept|
      ensures '\\' !in (Tops(c.tops) + c.kept)[i]
    {
      if i >= c.tops {
        assert (Tops(c.tops) + c.kept)[i] in c.kept;
      }
    }
  }

  /** `cleanPath` never leaves a backslash in its output. */
  lemma CleanedPathNoBackslash(path: string)
    ensures '\\' !in CleanedPath(path)
  {
    if |path| > 0 {
      var normalized := SlashSeparated(path);
      SlashSeparatedNoBackslash(path);
      if '.' in normalized {
        var parts := SplitPrefix(normalized);
        var elements := PathElements(normalized);
        if |elements| != |Collapse(elements).kept| {
          assert '\\' !in parts.prefix by {
            assert forall k :: 0 <= k < |parts.prefix| ==> parts.prefix[k] == normalized[k];
          }
          ElementsFree(normalized, '\\');
          RebuiltNoBackslash(elements, parts.prefix);
          DelimitedFree(Rebuilt(Collapse(elements), parts.prefix), "/", '\\');
        }
      }
    }
  }

  /** `cleanPath` keeps a scheme prefix such as `file:` in front. */
  lemma CleanedPathKeepsScheme(path: string)
    requires |path| > 0
    ensures var normalized := SlashSeparated(path);
            var i := IndexOf(normalized, ":", 0);
            i != -1 && '/' !in normalized[..i + 1] ==> StartsWith(CleanedPath(path), normalized[..i + 1])
  {
    var normalized := SlashSeparated(path);
    var i := IndexOf(normalized, ":", 0);
    if i != -1 && '/' !in normalized[..i + 1] {
      var scheme := normalized[..i + 1];
      var prefix := SplitPrefix(normalized).prefix;
      assert prefix[..|scheme|] == scheme;
      var r := CleanedPath(path);
      if r != normalized {
        var tail := r[|prefix|..];
        assert r == prefix + tail;
        assert r[..|scheme|] == prefix[..|scheme|];
      }
    }
  }

  /** Replacing a pattern that does not start with the text's first character keeps that
      character in front. */
  lemma ReplacedKeepsFirst(s: string, pat: string, rep: string)
    requires |s| > 0 && |pat| > 0 && s[0] != pat[0]
    ensures var r := ReplacedFrom(s, pat, rep, 0); |r| > 0 && r[0] == s[0]
  {
    var i := IndexOf(s, pat, 0);
    IndexOfFirst(s, pat, 0);
    if |pat| <= |s| {
      assert s[0..|pat|][0] == s[0];
    }
    if i == -1 {
      ReplacedMiss(s, pat, rep, 0);
    } else {
      ReplacedHit(s, pat, rep, 0, i, "");
      assert s[0..i][0] == s[0];
    }
  }

  /** `\` separators turned into `/` keep a leading `/`. */
  lemma SlashSeparatedKeepsRoot(path: string)
    requires StartsWith(path, "/")
    ensures StartsWith(SlashSeparated(path), "/")
  {
    assert path[0] == path[..1][0] == '/';
    if '\\' in path {
      var once := Replaced(path, "\\\\", Some("/"));
      ReplacedKeepsFirst(path, "\\\\", "/");
      ReplacedKeepsFirst(once, "\\", "/");
      var r := SlashSeparated(path);
      assert r[..1] == [r[0]];
    }
  }

  /** An absolute path stays absolute: `cleanPath` keeps a leading `/`. */
  lemma CleanedPathKeepsRoot(path: string)
    requires StartsWith(path, "/")
    ensures StartsWith(CleanedPath(path), "/")
  {
    var normalized := SlashSeparated(path);
    SlashSeparatedKeepsRoot(path);
    assert normalized[0] == normalized[..1][0] == '/';
    var i := IndexOf(normalized, ":", 0);
    if i != -1 {
      assert normalized[..i + 1][0] == '/';
    }
    var parts := SplitPrefix(normalized);
    assert parts.prefix == "/";
    var r := CleanedPath(path);
    if r != normalized {
      assert r[..1] == parts.prefix;
    }
  }

  /** A path none of whose elements is `.` or `..` comes back with only its separators normalised. */
  lemma CleanedPathPlain(path: string)
    requires |path| > 0
    requires var elements := PathElements(SlashSeparated(path));
             forall i :: 0 <= i < |elements| ==> elements[i] != "." && elements[i] != ".."
    ensures CleanedPath(path) == SlashSeparated(path)
  {
    var normalized := SlashSeparated(path);
    if '.' in normalized {
      CollapsePlain(PathElements(normalized));
    }
  }

  /** A path with a `.` or `..` element comes back as the prefix followed by the left-to-right
      stack reading of the elements: `.` dropped, each `..` cancelling the nearest kept element
      before it, the unmatched `..` first. */
  lemma CleanedPathResolves(path: string)
    ensures var normalized := SlashSeparated(path);
            var elements := PathElements(normalized);
            var prefix := SplitPrefix(normalized).prefix;
            (exists i :: 0 <= i < |elements| && (elements[i] == "." || elements[i] == ".."))
            ==> CleanedPath(path)
                == prefix + DelimitedString(Rebuilt(Resolve(Collapsed([], 0), elements), prefix), "/", "", "")
  {
    var normalized := SlashSeparated(path);
    var elements := PathElements(normalized);
    if exists i :: 0 <= i < |elements| && (elements[i] == "." || elements[i] == "..") {
      DotElementTakesWork(normalized);
      assert |path| > 0;
      CollapseIsResolve(elements);
    }
  }

  /** A `.` or `..` element rules out both of `cleanPath`'s shortcuts: the path holds a `.`, and
      the scan drops an element. */
  lemma DotElementTakesWork(normalized: string)
    requires var elements := PathElements(normalized);
             exists i :: 0 <= i < |elements| && (elements[i] == "." || elements[i] == "..")
    ensures '.' in normalized
    ensures |Collapse(PathElements(normalized)).kept| < |PathElements(normalized)|
  {
    var elements := PathElements(normalized);
    var i :| 0 <= i < |elements| && (elements[i] == "." || elements[i] == "..");
    assert '.' in elements[i];
    if '.' !in normalized {
      ElementsFree(normalized, '.');
      assert false;
    }
    CollapseDrops(elements);
  }
}
