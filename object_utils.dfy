/**
 * `ObjectUtils`: emptiness, null-safe equality with element-wise comparison of arrays, the
 * 31-multiplier hash fold, and string rendering, over a small model of Java objects.
 */
module ObjectUtils {
  import opened Wrappers
  import opened JavaLang

  /** The nine kinds of Java array the utilities tell apart; `ObjectArray` is any reference array. */
  datatype ArrayKind =
    | ObjectArray | BooleanArray | ByteArray | CharArray | DoubleArray
    | FloatArray | IntArray | LongArray | ShortArray

  /** What `isEmpty(Object)` can learn about an object that is neither a `String` nor an array. */
  datatype Shape =
    | Plain
    | OptionalShape(present: bool)
    | CharSequenceShape(length: nat)
    | CollectionShape(size: nat)
    | MapShape(size: nat)

  /**
   * A Java reference. Arrays carry their elements (the elements of a primitive array are its
   * boxed values) and their identity: `identityHash` and `identityText` are what `Object.hashCode`
   * and `Object.toString` give for them. Any other object carries an `equalityKey` that its
   * `equals` compares, its `hashCode`, and its `toString` (which may be null).
   */
  datatype Obj =
    | Null
    | Str(chars: string)
    | Arr(kind: ArrayKind, elems: seq<Obj>, identity: nat, identityHash: i32, identityText: string)
    | Other(shape: Shape, identity: nat, equalityKey: int, hash: i32, text: Option<string>)

  // ===========================================================================
  // isEmpty

  /** `isEmpty(Object[])`: null or of length zero. */
  predicate IsEmptyArray(arr: Option<seq<Obj>>)
  {
    arr.None? || |arr.value| == 0
  }

  /** `isEmpty(Object)`: null, or an `Optional`, `CharSequence`, array, `Collection` or `Map` with
      nothing in it; any other object is not empty. */
  predicate IsEmpty(obj: Obj)
  {
    match obj
    case Null => true
    case Str(s) => |s| == 0
    case Arr(_, elems, _, _, _) => |elems| == 0
    case Other(shape, _, _, _, _) =>
      match shape
      case Plain => false
      case OptionalShape(present) => !present
      case CharSequenceShape(length) => length == 0
      case CollectionShape(size) => size == 0
      case MapShape(size) => size == 0
  }

  /** The two `isEmpty` overloads agree on arrays, and a non-null object of no supported type is
      never empty. */
  lemma IsEmptyAgrees(kind: ArrayKind, elems: seq<Obj>, id: nat, h: i32, t: string)
    ensures IsEmpty(Arr(kind, elems, id, h, t)) == IsEmptyArray(Some(elems))
    ensures IsEmptyArray(None)
    ensures forall id', key, hash, text :: !IsEmpty(Other(Plain, id', key, hash, text))
  {
  }

  // ===========================================================================
  // nullSafeEquals, arrayEquals

  /** `o1.equals(o2)` for a non-null `o1`: strings by content, arrays by identity, other objects
      by their equality key. */
  predicate JavaEquals(o1: Obj, o2: Obj)
  {
    match o1
    case Null => false
    case Str(s) => o2.Str? && o2.chars == s
    case Arr(_, _, _, _, _) => o1 == o2
    case Other(_, _, key, _, _) => o2.Other? && o2.equalityKey == key
  }

  /** `Objects.equals`, which `Arrays.equals` applies to each pair of elements. */
  predicate ObjectsEquals(a: Obj, b: Obj)
  {
    a == b || (a != Null && JavaEquals(a, b))
  }

  /** `arrayEquals`: arrays of the same kind compared element by element (`Arrays.equals`);
      arrays of different kinds are unequal. */
  predicate ArrayEquals(o1: Obj, o2: Obj)
    requires o1.Arr? && o2.Arr?
  {
    o1.kind == o2.kind && |o1.elems| == |o2.elems|
    && forall i :: 0 <= i < |o1.elems| ==> ObjectsEquals(o1.elems[i], o2.elems[i])
  }

  /** `nullSafeEquals(o1, o2)`. */
  function NullSafeEquals(o1: Obj, o2: Obj): (r: bool)
    ensures o1 == o2 ==> r
    ensures o1.Null? != o2.Null? ==> !r
    ensures o1 != Null && JavaEquals(o1, o2) ==> r
    ensures o1.Arr? && o2.Arr? ==> (r <==> o1 == o2 || ArrayEquals(o1, o2))
    ensures !(o1.Arr? && o2.Arr?) ==> (r <==> ObjectsEquals(o1, o2))
  {
    if o1 == o2 then true
    else if o1.Null? || o2.Null? then false
    else if JavaEquals(o1, o2) then true
    else if o1.Arr? && o2.Arr? then ArrayEquals(o1, o2)
    else false
  }

  /** `nullSafeEquals` is symmetric. */
  lemma NullSafeEqualsSymmetric(o1: Obj, o2: Obj)
    ensures NullSafeEquals(o1, o2) == NullSafeEquals(o2, o1)
  {
    if o1.Arr? && o2.Arr? && ArrayEquals(o1, o2) {
      assert forall i :: 0 <= i < |o2.elems| ==> ObjectsEquals(o2.elems[i], o1.elems[i]);
    }
  }

  /** Arrays of the same kind holding equal strings are equal, though they are distinct objects;
      arrays of different kinds never are. */
  lemma ArraysCompareByContent(s: string, id1: nat, id2: nat, h: i32, t: string)
    requires id1 != id2
    ensures NullSafeEquals(Arr(ObjectArray, [Str(s)], id1, h, t), Arr(ObjectArray, [Str(s)], id2, h, t))
    ensures !NullSafeEquals(Arr(ObjectArray, [Str(s)], id1, h, t), Arr(CharArray, [Str(s)], id2, h, t))
    ensures !JavaEquals(Arr(ObjectArray, [Str(s)], id1, h, t), Arr(ObjectArray, [Str(s)], id2, h, t))
  {
  }

  // ===========================================================================
  // nullSafeHash, nullSafeHashCode

  /** `o.hashCode()`, and 0 for null (what `Arrays.hashCode` takes for each element). */
  function HashCode(o: Obj): i32
  {
    match o
    case Null => 0
    case Str(s) => StringHashCode(s)
    case Arr(_, _, _, identityHash, _) => identityHash
    case Other(_, _, _, hash, _) => hash
  }

  /** The hash codes of the elements. */
  function ElementHashes(elems: seq<Obj>): (r: seq<i32>)
    ensures |r| == |elems| && forall i :: 0 <= i < |elems| ==> r[i] == HashCode(elems[i])
  {
    seq(|elems|, i requires 0 <= i < |elems| => HashCode(elems[i]))
  }

  /** `nullSafeHashCode(obj)`: 0 for null, `Arrays.hashCode` (the fold from 1) for an array, and
      `hashCode()` for anything else. */
  function NullSafeHashCode(obj: Obj): i32
  {
    match obj
    case Null => 0
    case Arr(_, elems, _, _, _) => HashFold(1, ElementHashes(elems))
    case _ => HashCode(obj)
  }

  /** `nullSafeHashCode` of every element. */
  function NullSafeHashCodes(elements: seq<Obj>): (r: seq<i32>)
    ensures |r| == |elements| && forall i :: 0 <= i < |elements| ==> r[i] == NullSafeHashCode(elements[i])
  {
    seq(|elements|, i requires 0 <= i < |elements| => NullSafeHashCode(elements[i]))
  }

  /** `nullSafeHash(elements...)`: the accumulator loop `result = 31 * result + nullSafeHashCode(e)`
      in `int` arithmetic. */
  method NullSafeHash(elements: Option<seq<Obj>>) returns (r: i32)
    ensures elements.None? ==> r == 0
    ensures elements.Some? ==> r == HashFold(1, NullSafeHashCodes(elements.value))
    ensures elements.Some? ==> r == Wrap(Polynomial(1, NullSafeHashCodes(elements.value)))
    ensures elements == Some([]) ==> r == 1
  {
    if elements.None? {
      return 0;
    }
    var elems := elements.value;
    ghost var hashes := NullSafeHashCodes(elems);
    var result: i32 := 1;
    for i := 0 to |elems|
      invariant result == HashFold(1, hashes[..i])
    {
      assert hashes[..i + 1][..i] == hashes[..i];
      result := Wrap(31 * result as int + NullSafeHashCode(elems[i]) as int);
    }
    assert hashes[..|elems|] == hashes;
    HashFoldIsWrappedPolynomial(1, hashes);
    r := result;
  }

  /** Java's contract between `equals` and `hashCode` for two objects other than strings and arrays. */
  predicate HashContract(a: Obj, b: Obj)
  {
    a.Other? && b.Other? && a.equalityKey == b.equalityKey ==> a.hash == b.hash
  }

  /** Objects that `nullSafeEquals` finds equal have equal `nullSafeHashCode`s, given the
      `equals`/`hashCode` contract of the objects compared (for arrays: of their elements). */
  lemma EqualObjectsHashEqual(o1: Obj, o2: Obj)
    requires HashContract(o1, o2)
    requires o1.Arr? && o2.Arr? && |o1.elems| == |o2.elems| ==>
               forall i :: 0 <= i < |o1.elems| ==> HashContract(o1.elems[i], o2.elems[i])
    ensures NullSafeEquals(o1, o2) ==> NullSafeHashCode(o1) == NullSafeHashCode(o2)
  {
    if NullSafeEquals(o1, o2) && o1.Arr? && o2.Arr? && o1 != o2 {
      var h1 := ElementHashes(o1.elems);
      var h2 := ElementHashes(o2.elems);
      forall i | 0 <= i < |h1|
        ensures h1[i] == h2[i]
      {
        assert ObjectsEquals(o1.elems[i], o2.elems[i]);
        assert HashContract(o1.elems[i], o2.elems[i]);
      }
      assert h1 == h2;
    }
  }

  // ===========================================================================
  // String.valueOf, nullSafeToString

  /** `String.valueOf(obj)` as a `StringJoiner` adds it: `"null"` for null or for a null
      `toString()`. */
  function ValueOf(o: Obj): string
  {
    match o
    case Null => "null"
    case Str(s) => s
    case Arr(_, _, _, _, identityText) => identityText
    case Other(_, _, _, _, text) => if text.Some? then text.value else "null"
  }

  /** The text of one array element: a `char` in single quotes, anything else as `String.valueOf`. */
  function ElementText(kind: ArrayKind, e: Obj): string
  {
    if kind == CharArray then "'" + ValueOf(e) + "'" else ValueOf(e)
  }

  /** The texts of the elements. */
  function ElementTexts(kind: ArrayKind, elems: seq<Obj>): (r: seq<string>)
    ensures |r| == |elems| && forall i :: 0 <= i < |elems| ==> r[i] == ElementText(kind, elems[i])
  {
    seq(|elems|, i requires 0 <= i < |elems| => ElementText(kind, elems[i]))
  }

  /** `nullSafeToString(obj)`, with arrays rendered as the typed overloads it evidently means to
      call would render them: the elements between braces, separated by `", "`. */
  function NullSafeToString(obj: Obj): (r: string)
    ensures obj.Null? ==> r == "null"
    ensures obj.Str? ==> r == obj.chars
    ensures obj.Other? ==> r == if obj.text.Some? then obj.text.value else ""
    ensures obj.Arr? ==> |r| >= 2 && r[0] == '{' && r[|r| - 1] == '}'
    ensures obj.Arr? && obj.elems == [] ==> r == "{}"
  {
    match obj
    case Null => "null"
    case Str(s) => s
    case Arr(kind, elems, _, _, _) => "{" + Joined(ElementTexts(kind, elems), ", ") + "}"
    case Other(_, _, _, _, text) => if text.Some? then text.value else ""
  }

  /** `nullSafeToString(obj)` as written, run with a budget of `fuel` nested calls: each array
      branch hands the array back to `nullSafeToString(Object)`, since the typed overloads it
      names are not defined, so an array never gets a text. */
  function NullSafeToStringAsWritten(obj: Obj, fuel: nat): Option<string>
    decreases fuel
  {
    match obj
    case Null => Some("null")
    case Str(s) => Some(s)
    case Arr(_, _, _, _, _) => if fuel == 0 then None else NullSafeToStringAsWritten(obj, fuel - 1)
    case Other(_, _, _, _, text) => Some(if text.Some? then text.value else "")
  }

  /** As written, `nullSafeToString` of an array never returns, however many calls it is allowed. */
  lemma {:induction false} AsWrittenNeverRendersArrays(obj: Obj, fuel: nat)
    requires obj.Arr?
    ensures NullSafeToStringAsWritten(obj, fuel) == None
    decreases fuel
  {
    if fuel > 0 {
      AsWrittenNeverRendersArrays(obj, fuel - 1);
    }
  }

  /** The corrected rendering agrees with the code as written wherever the latter returns. */
  lemma {:induction false} AsWrittenAgreesWhenItReturns(obj: Obj, fuel: nat)
    ensures NullSafeToStringAsWritten(obj, fuel).Some? ==> NullSafeToStringAsWritten(obj, fuel) == Some(NullSafeToString(obj))
    ensures !obj.Arr? ==> NullSafeToStringAsWritten(obj, fuel) == Some(NullSafeToString(obj))
    decreases fuel
  {
    if obj.Arr? {
      AsWrittenNeverRendersArrays(obj, fuel);
    }
  }
}
