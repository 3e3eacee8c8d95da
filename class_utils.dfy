/**
 * `ClassUtils`: the resource path of a class's package. Classes and class loaders are values:
 * a class is known by its fully qualified name and the loader that defined it.
 */
module ClassUtils {
  import opened Wrappers
  import opened JavaLang

  /** A class loader, known only by its identity. */
  datatype ClassLoader = ClassLoader(id: nat)

  /** What a `Class` object stands for, which decides how `Class.toString` renders it. */
  datatype ClassKind = ClassType | InterfaceType | PrimitiveType

  /** A `Class<?>`: its fully qualified name (`Class.getName`), its defining class loader
      (`None` for the bootstrap loader) and its kind. */
  datatype JClass = JClass(name: string, classLoader: Option<ClassLoader>, kind: ClassKind)

  /** `Class.toString`: `class ` or `interface ` before the name; a primitive type is its name. */
  function ClassToString(c: JClass): (r: string)
    ensures EndsWith(r, c.name)
    ensures c.kind == PrimitiveType <==> r == c.name
  {
    var front := match c.kind
      case ClassType => "class "
      case InterfaceType => "interface "
      case PrimitiveType => "";
    assert (front + c.name)[|front|..] == c.name;
    front + c.name
  }

  /** `classPackageAsResourcePath(clazz)`: the package name of the class, with every `.` turned
      into a `/`; empty for `null` and for a class in the default package. */
  function ClassPackageAsResourcePath(clazz: Option<JClass>): (r: string)
    ensures clazz.None? ==> r == ""
    ensures '.' !in r
    ensures clazz.Some? ==> |r| == if '.' in clazz.value.name then LastIndexOf(clazz.value.name, '.') else 0
    ensures clazz.Some? ==> forall i :: 0 <= i < |r| ==>
              r[i] == if clazz.value.name[i] == '.' then '/' else clazz.value.name[i]
  {
    if clazz.None? then ""
    else
      var className := clazz.value.name;
      var packageEndIndex := LastIndexOf(className, '.');
      if packageEndIndex == -1 then ""
      else ReplaceChar(className[..packageEndIndex], '.', '/')
  }

  /** Turning the slashes of the resource path back into dots gives the package name, the class
      name up to its last `.`, when the class name holds no `/` of its own. */
  lemma PackagePathRoundTrip(clazz: JClass)
    requires '/' !in clazz.name && '.' in clazz.name
    ensures ReplaceChar(ClassPackageAsResourcePath(Some(clazz)), '/', '.')
            == clazz.name[..LastIndexOf(clazz.name, '.')]
  {
    var name := clazz.name;
    var r := ClassPackageAsResourcePath(Some(clazz));
    forall i | 0 <= i < |r|
      ensures ReplaceChar(r, '/', '.')[i] == name[i]
    {
      assert name[i] in name;
    }
  }
}
