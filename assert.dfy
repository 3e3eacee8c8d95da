/**
 * `Assert`: argument and state guards. A guard that returns normally is `Pass`; a guard that
 * throws is `Fail` with the exception it throws. Every guard exists twice in the source, with a
 * message and with a message supplier; both are one function here, over a `Message`.
 */
module Assert {
  import opened Wrappers
  import opened JavaLang
  import StringUtils
  import ObjectUtils
  import opened ClassUtils

  /** A `Supplier<String>` together with what its `get` returns. */
  datatype Supplier = Supplier(get: Option<string>)

  /** The last argument of a guard: a message (possibly `null`) or a supplier of one (possibly
      `null`). */
  datatype Message = Given(text: Option<string>) | Supplied(supplier: Option<Supplier>)

  /** `nullSafeGet(messageSupplier)`. */
  function NullSafeGet(supplier: Option<Supplier>): Option<string>
  {
    if supplier.Some? then supplier.value.get else None
  }

  /** The text a failing guard puts into its exception. */
  function MessageText(m: Message): (r: Option<string>)
    ensures m.Given? ==> r == m.text
    ensures m.Supplied? && m.supplier.None? ==> r.None?
  {
    match m
    case Given(text) => text
    case Supplied(supplier) => NullSafeGet(supplier)
  }

  // ===========================================================================
  // Guards on values

  /** `state(expression, message)`: `IllegalStateException` exactly when the expression is false. */
  function State(expression: bool, m: Message): (r: Outcome<Exception>)
    ensures r.Pass? <==> expression
    ensures r.Fail? ==> r.error == IllegalState(MessageText(m))
  {
    if !expression then Fail(IllegalState(MessageText(m))) else Pass
  }

  /** `isTrue(expression, message)`: `IllegalArgumentException` exactly when the expression is
      false. */
  function IsTrue(expression: bool, m: Message): (r: Outcome<Exception>)
    ensures r.Pass? <==> expression
    ensures r.Fail? ==> r.error == IllegalArgument(MessageText(m))
  {
    if !expression then Fail(IllegalArgument(MessageText(m))) else Pass
  }

  /** `isNull(object, message)`: fails exactly when the object is not `null`. */
  function IsNull(obj: ObjectUtils.Obj, m: Message): (r: Outcome<Exception>)
    ensures r.Pass? <==> obj.Null?
    ensures r.Fail? ==> r.error == IllegalArgument(MessageText(m))
  {
    if obj != ObjectUtils.Null then Fail(IllegalArgument(MessageText(m))) else Pass
  }

  /** `notNull(object, message)`: fails exactly when the object is `null`. */
  function NotNull(obj: ObjectUtils.Obj, m: Message): (r: Outcome<Exception>)
    ensures r.Pass? <==> !obj.Null?
    ensures r.Fail? ==> r.error == IllegalArgument(MessageText(m))
  {
    if obj == ObjectUtils.Null then Fail(IllegalArgument(MessageText(m))) else Pass
  }

  /** `isNull` and `notNull` fail on complementary sets of objects. */
  lemma NullGuardsComplementary(obj: ObjectUtils.Obj, m: Message)
    ensures IsNull(obj, m).Pass? != NotNull(obj, m).Pass?
  {
  }

  // ===========================================================================
  // Guards on text

  /** `hasLength(text, message)`: fails exactly when `StringUtils.hasLength` is false. */
  function HasLength(text: Option<string>, m: Message): (r: Outcome<Exception>)
    ensures r.Pass? <==> text.Some? && |text.value| > 0
    ensures r.Fail? ==> r.error == IllegalArgument(MessageText(m))
  {
    if !StringUtils.HasLength(text) then Fail(IllegalArgument(MessageText(m))) else Pass
  }

  /** `hasText(text, message)`: fails exactly when `StringUtils.hasText` is false. */
  function HasText(text: Option<string>, m: Message): (r: Outcome<Exception>)
    ensures r.Pass? <==> StringUtils.HasText(text)
    ensures r.Fail? ==> r.error == IllegalArgument(MessageText(m))
  {
    if !StringUtils.HasText(text) then Fail(IllegalArgument(MessageText(m))) else Pass
  }

  /** `hasText` passes exactly for a text holding a character that is not whitespace. */
  lemma HasTextPasses(text: Option<string>, m: Message)
    ensures HasText(text, m).Pass? <==>
              text.Some? && exists i :: 0 <= i < |text.value| && !IsWhitespace(text.value[i])
  {
    if text.Some? && !IsBlank(text.value) {
      var i :| 0 <= i < |text.value| && !IsWhitespace(text.value[i]);
    }
  }

  /** `doesNotContain(textToSearch, substring, message)`: fails when both are non-empty and the
      text contains the substring. */
  function DoesNotContain(textToSearch: Option<string>, substring: Option<string>, m: Message)
    : (r: Outcome<Exception>)
    ensures r.Fail? ==> r.error == IllegalArgument(MessageText(m))
  {
    if StringUtils.HasLength(textToSearch) && StringUtils.HasLength(substring)
       && Contains(textToSearch.value, substring.value)
    then Fail(IllegalArgument(MessageText(m)))
    else Pass
  }

  /** `doesNotContain` fails exactly when the substring occurs somewhere in the text, both being
      non-empty. */
  lemma DoesNotContainFails(textToSearch: string, substring: string, m: Message)
    ensures DoesNotContain(Some(textToSearch), Some(substring), m).Fail? <==>
              |substring| > 0 && exists k :: OccursAt(textToSearch, substring, k)
  {
    IndexOfFirst(textToSearch, substring, 0);
    if |substring| > 0 && exists k :: OccursAt(textToSearch, substring, k) {
      var k :| OccursAt(textToSearch, substring, k);
      assert 0 <= k;
    }
  }

  /** An empty text or an empty substring never fails `doesNotContain`. */
  lemma DoesNotContainEmpty(textToSearch: Option<string>, substring: Option<string>, m: Message)
    requires !StringUtils.HasLength(textToSearch) || !StringUtils.HasLength(substring)
    ensures DoesNotContain(textToSearch, substring, m) == Pass
  {
  }

  // ===========================================================================
  // Guards on arrays, collections and maps

  /** `notEmpty(array, message)`: fails exactly when the array is `null` or has no element. */
  function NotEmpty(arr: Option<seq<ObjectUtils.Obj>>, m: Message): (r: Outcome<Exception>)
    ensures r.Pass? <==> arr.Some? && |arr.value| > 0
    ensures r.Fail? ==> r.error == IllegalArgument(MessageText(m))
  {
    if ObjectUtils.IsEmptyArray(arr) then Fail(IllegalArgument(MessageText(m))) else Pass
  }

  /** `notEmpty(collection, message)`: fails exactly when the collection is `null` or empty. */
  function NotEmptyCollection(collection: Option<seq<ObjectUtils.Obj>>, m: Message)
    : (r: Outcome<Exception>)
    ensures r.Pass? <==> collection.Some? && collection.value != []
    ensures r.Fail? ==> r.error == IllegalArgument(MessageText(m))
  {
    if collection.None? || |collection.value| == 0 then Fail(IllegalArgument(MessageText(m))) else Pass
  }

  /** `notEmpty(map, message)`: fails exactly when the map is `null` or has no entry. */
  function NotEmptyMap(entries: Option<map<ObjectUtils.Obj, ObjectUtils.Obj>>, m: Message)
    : (r: Outcome<Exception>)
    ensures r.Pass? <==> entries.Some? && entries.value != map[]
    ensures r.Fail? ==> r.error == IllegalArgument(MessageText(m))
  {
    if entries.None? || |entries.value| == 0 then Fail(IllegalArgument(MessageText(m))) else Pass
  }

  /** The for-each scan of `noNullElements`: true when it reaches the end without meeting `null`. */
  predicate ScanPassesNoNull(elements: seq<ObjectUtils.Obj>)
  {
    elements == [] || (elements[0] != ObjectUtils.Null && ScanPassesNoNull(elements[1..]))
  }

  /** `noNullElements(array or collection, message)`: a `null` argument passes; otherwise the
      elements are scanned in order and the first `null` throws. */
  function NoNullElements(elements: Option<seq<ObjectUtils.Obj>>, m: Message): (r: Outcome<Exception>)
    ensures r.Fail? ==> r.error == IllegalArgument(MessageText(m))
    ensures elements.Some? && elements.value == [] ==> r == Pass
  {
    if elements.Some? && !ScanPassesNoNull(elements.value) then Fail(IllegalArgument(MessageText(m)))
    else Pass
  }

  /** The scan passes exactly when no element is `null`. */
  lemma {:induction false} ScanPassesIff(elements: seq<ObjectUtils.Obj>)
    ensures ScanPassesNoNull(elements) <==> forall i :: 0 <= i < |elements| ==> elements[i] != ObjectUtils.Null
  {
    if elements != [] {
      ScanPassesIff(elements[1..]);
      assert forall i :: 1 <= i < |elements| ==> elements[i] == elements[1..][i - 1];
    }
  }

  /** `noNullElements` fails exactly when the argument holds a `null` element. */
  lemma NoNullElementsFails(elements: Option<seq<ObjectUtils.Obj>>, m: Message)
    ensures NoNullElements(elements, m).Fail? <==>
              elements.Some? && exists i :: 0 <= i < |elements.value| && elements.value[i] == ObjectUtils.Null
  {
    if elements.Some? {
      ScanPassesIff(elements.value);
    }
  }

  // ===========================================================================
  // Type checks and their messages

  /** `endsWithSeparator(msg)`: the message ends in `:`, `;`, `,` or `.`. */
  predicate EndsWithSeparator(msg: string)
  {
    EndsWith(msg, ":") || EndsWith(msg, ";") || EndsWith(msg, ",") || EndsWith(msg, ".")
  }

  /** `messageWithTypeName(msg, typeName)`: the type name after the message, joined by `": "`
      unless the message already ends with a space. */
  function MessageWithTypeName(msg: string, typeName: string): (r: string)
    ensures StartsWith(r, msg) && EndsWith(r, typeName)
    ensures |r| == |msg| + |typeName| + (if EndsWith(msg, " ") then 0 else 2)
    ensures EndsWith(msg, " ") ==> r == msg + typeName
    ensures !EndsWith(msg, " ") ==> r[|msg|..|msg| + 2] == ": "
  {
    var r := msg + (if EndsWith(msg, " ") then "" else ": ") + typeName;
    assert r[..|msg|] == msg;
    assert r[|r| - |typeName|..] == typeName;
    r
  }

  /** The message of a failed type check: a message ending in a separator gets a space and the
      default text after it, any other non-empty message gets the type name appended, and a
      missing or empty message is replaced by the default text. */
  function CheckFailedMessage(msg: Option<string>, typeName: string, defaultText: string): (r: string)
    ensures !StringUtils.HasLength(msg) ==> r == defaultText
    ensures StringUtils.HasLength(msg) && EndsWithSeparator(msg.value)
            ==> r == msg.value + " " + defaultText
    ensures StringUtils.HasLength(msg) && !EndsWithSeparator(msg.value)
            ==> StartsWith(r, msg.value) && EndsWith(r, typeName)
    ensures StringUtils.HasLength(msg) && !EndsWithSeparator(msg.value)
            ==> r == MessageWithTypeName(msg.value, typeName)
  {
    var defaultMessage := !StringUtils.HasLength(msg) || EndsWithSeparator(msg.value);
    var result :=
      if !StringUtils.HasLength(msg) then ""
      else if EndsWithSeparator(msg.value) then msg.value + " "
      else MessageWithTypeName(msg.value, typeName);
    if defaultMessage then result + defaultText else result
  }

  /** `instanceCheckFailed(type, obj, msg)`'s message; `objClass` is the object's class, `None`
      for `null`. */
  function InstanceCheckFailedMessage(tpe: JClass, objClass: Option<JClass>, msg: Option<string>): string
  {
    var className := if objClass.Some? then objClass.value.name else "null";
    CheckFailedMessage(msg, className,
      "Object of class [" + className + "] must be an instance of " + ClassToString(tpe))
  }

  /** `assignableCheckFailed(superType, subType, msg)`'s message. */
  function AssignableCheckFailedMessage(superType: JClass, subType: Option<JClass>, msg: Option<string>): string
  {
    var subTypeText := if subType.Some? then ClassToString(subType.value) else "null";
    CheckFailedMessage(msg, subTypeText, subTypeText + " is not assignable to " + ClassToString(superType))
  }

  /** `isInstanceOf(type, obj, message)`; `objClass` is the class of `obj` (`None` for `null`) and
      `instance` whether that class is `type` or a subtype of it (`Class.isInstance`). */
  function IsInstanceOf(tpe: Option<JClass>, objClass: Option<JClass>, instance: bool, m: Message)
    : (r: Outcome<Exception>)
    ensures tpe.None? ==> r == Fail(IllegalArgument(Some("Type to check against must not be null")))
    ensures tpe.Some? ==> (r.Pass? <==> objClass.Some? && instance)
    ensures tpe.Some? && r.Fail? ==>
              r.error == IllegalArgument(Some(InstanceCheckFailedMessage(tpe.value, objClass, MessageText(m))))
  {
    if tpe.None? then Fail(IllegalArgument(Some("Type to check against must not be null")))
    else if !(objClass.Some? && instance) then
      Fail(IllegalArgument(Some(InstanceCheckFailedMessage(tpe.value, objClass, MessageText(m)))))
    else Pass
  }

  /** `isAssignable(superType, subType, message)`; `assignable` is
      `superType.isAssignableFrom(subType)`. */
  function IsAssignable(superType: Option<JClass>, subType: Option<JClass>, assignable: bool, m: Message)
    : (r: Outcome<Exception>)
    ensures superType.None? ==> r == Fail(IllegalArgument(Some("Supertype to check against must not be null")))
    ensures superType.Some? ==> (r.Pass? <==> subType.Some? && assignable)
    ensures superType.Some? && r.Fail? ==>
              r.error == IllegalArgument(Some(AssignableCheckFailedMessage(superType.value, subType, MessageText(m))))
  {
    if superType.None? then Fail(IllegalArgument(Some("Supertype to check against must not be null")))
    else if subType.None? || !assignable then
      Fail(IllegalArgument(Some(AssignableCheckFailedMessage(superType.value, subType, MessageText(m)))))
    else Pass
  }

  /** `isInstanceOf(type, obj)` without a message reports the default text, naming the object's
      class and the expected type. */
  lemma InstanceOfWithoutMessage(tpe: JClass, objClass: JClass)
    ensures IsInstanceOf(Some(tpe), Some(objClass), false, Given(Some("")))
            == Fail(IllegalArgument(Some("Object of class [" + objClass.name + "] must be an instance of "
                                         + ClassToString(tpe))))
  {
  }

  /** A message not ending in a separator names the offending type after the caller's text. */
  lemma InstanceMessageNamesClass(tpe: JClass, objClass: Option<JClass>, msg: string)
    requires |msg| > 0 && !EndsWithSeparator(msg)
    ensures var text := InstanceCheckFailedMessage(tpe, objClass, Some(msg));
            StartsWith(text, msg) && EndsWith(text, if objClass.Some? then objClass.value.name else "null")
  {
  }
}
