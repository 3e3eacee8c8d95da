/**
 * `ClassPathResource`: a resource on the class path, located by a cleaned path relative to a
 * class loader or to a class. All its fields are fixed by its constructors, so it is a value.
 */
module ClassPathResource {
  import opened Wrappers
  import opened JavaLang
  import StringUtils
  import opened ClassUtils

  /** The fields of a `ClassPathResource`: the cleaned path as given, the absolute path within
      the class path, and the class loader or the class it resolves against. */
  datatype Resource = Resource(
    path: string,
    absolutePath: string,
    classLoader: Option<ClassLoader>,
    clazz: Option<JClass>)

  /** A path with one leading `/` removed, if it has one. */
  function WithoutLeadingSlash(p: string): (r: string)
    ensures p == r || p == "/" + r
    ensures StartsWith(p, "/") <==> p == "/" + r
  {
    if StartsWith(p, "/") then
      assert p == "/" + p[1..];
      p[1..]
    else p
  }

  /** `new ClassPathResource(path, classLoader)`: the cleaned path without one leading `/` is
      both the path and the absolute path; a `null` class loader is replaced by the default
      class loader, which is a parameter here. */
  function WithClassLoader(path: Option<string>, classLoader: Option<ClassLoader>,
                           defaultClassLoader: Option<ClassLoader>): (r: Result<Resource, Exception>)
    ensures path.None? <==> r.Failure?
    ensures path.None? ==> r.error == IllegalArgument(Some("Path must not be null"))
    ensures path.Some? ==>
              && r.value.path == r.value.absolutePath
              && r.value.classLoader == (if classLoader.Some? then classLoader else defaultClassLoader)
              && r.value.clazz.None?
    ensures path.Some? ==>
              var cleaned := StringUtils.CleanedPath(path.value);
              && (StartsWith(cleaned, "/") ==> cleaned == "/" + r.value.path)
              && (!StartsWith(cleaned, "/") ==> cleaned == r.value.path)
  {
    if path.None? then Failure(IllegalArgument(Some("Path must not be null")))
    else
      var pathToUse := WithoutLeadingSlash(StringUtils.CleanedPath(path.value));
      Success(Resource(pathToUse, pathToUse,
                       if classLoader.Some? then classLoader else defaultClassLoader, None))
  }

  /** `new ClassPathResource(path, clazz)`: the path is the cleaned path; a relative path of a
      class resource is prefixed with the class's package path, any other path loses one
      leading `/`. */
  function WithClass(path: Option<string>, clazz: Option<JClass>): (r: Result<Resource, Exception>)
    ensures path.None? <==> r.Failure?
    ensures path.None? ==> r.error == IllegalArgument(Some("Path must not be null"))
    ensures path.Some? ==> r.value.path == StringUtils.CleanedPath(path.value)
                           && r.value.clazz == clazz && r.value.classLoader.None?
  {
    if path.None? then Failure(IllegalArgument(Some("Path must not be null")))
    else
      var cleaned := StringUtils.CleanedPath(path.value);
      var absolutePath :=
        if clazz.Some? && !StartsWith(cleaned, "/") then ClassPackageAsResourcePath(clazz) + "/" + cleaned
        else WithoutLeadingSlash(cleaned);
      Success(Resource(cleaned, absolutePath, None, clazz))
  }

  /** A class resource given a relative path lives under the class's package directory; one
      given an absolute path, or without a class, lives at that path without its leading `/`. */
  lemma WithClassAbsolutePath(path: string, clazz: Option<JClass>)
    ensures var r := WithClass(Some(path), clazz).value;
            var cleaned := StringUtils.CleanedPath(path);
            if clazz.Some? && !StartsWith(cleaned, "/") then
              StartsWith(r.absolutePath, ClassPackageAsResourcePath(clazz) + "/")
              && EndsWith(r.absolutePath, cleaned)
              && |r.absolutePath| == |ClassPackageAsResourcePath(clazz)| + 1 + |cleaned|
            else (StartsWith(cleaned, "/") ==> cleaned == "/" + r.absolutePath)
                 && (!StartsWith(cleaned, "/") ==> cleaned == r.absolutePath)
  {
    var cleaned := StringUtils.CleanedPath(path);
    if clazz.Some? && !StartsWith(cleaned, "/") {
      var pkg := ClassPackageAsResourcePath(clazz) + "/";
      var a := pkg + cleaned;
      assert a[..|pkg|] == pkg;
      assert a[|a| - |cleaned|..] == cleaned;
    }
  }

  /** `getPath()`: the absolute path. */
  function GetPath(r: Resource): string
  {
    r.absolutePath
  }

  /** `getClassLoader()`: the class's loader for a class resource, else the resource's loader. */
  function GetClassLoader(r: Resource): Option<ClassLoader>
  {
    if r.clazz.Some? then r.clazz.value.classLoader else r.classLoader
  }

  /** `getFilename()`: the file name of the absolute path. */
  function GetFilename(r: Resource): (f: Option<string>)
    ensures f.Some? && '/' !in f.value && EndsWith(r.absolutePath, f.value)
    ensures f.value != r.absolutePath ==> r.absolutePath[|r.absolutePath| - |f.value| - 1] == '/'
  {
    StringUtils.GetFilename(Some(r.absolutePath))
  }

  /** `getDescription()`. */
  function GetDescription(r: Resource): string
  {
    "class path resource [" + r.absolutePath + "]"
  }

  /** The description determines the absolute path. */
  lemma DescriptionDeterminesPath(a: Resource, b: Resource)
    requires GetDescription(a) == GetDescription(b)
    ensures a.absolutePath == b.absolutePath
  {
    var front := "class path resource [";
    assert GetDescription(a)[|front|..|GetDescription(a)| - 1] == a.absolutePath;
    assert GetDescription(b)[|front|..|GetDescription(b)| - 1] == b.absolutePath;
  }

  /** `equals(other)`: another class path resource with the same absolute path and the same
      effective class loader (`None` stands for `null` or an object of another class). */
  predicate Equals(a: Resource, other: Option<Resource>)
  {
    other.Some? && a.absolutePath == other.value.absolutePath
    && GetClassLoader(a) == GetClassLoader(other.value)
  }

  /** `hashCode()`: the hash of the absolute path. */
  function HashCode(r: Resource): i32
  {
    StringHashCode(r.absolutePath)
  }

  /** `equals` is an equivalence, and equal resources have equal hash codes. */
  lemma EqualsIsEquivalence(a: Resource, b: Resource, c: Resource)
    ensures Equals(a, Some(a))
    ensures Equals(a, Some(b)) <==> Equals(b, Some(a))
    ensures Equals(a, Some(b)) && Equals(b, Some(c)) ==> Equals(a, Some(c))
    ensures Equals(a, Some(b)) ==> HashCode(a) == HashCode(b)
    ensures !Equals(a, None)
  {
  }

  /** A class resource and a loader resource with the same absolute path are equal exactly when
      the class was defined by that loader. */
  lemma ClassAndLoaderResources(path: string, clazz: JClass, loader: ClassLoader)
    requires StartsWith(StringUtils.CleanedPath(path), "/")
    ensures Equals(WithClass(Some(path), Some(clazz)).value,
                   Some(WithClassLoader(Some(path), Some(loader), None).value))
            <==> clazz.classLoader == Some(loader)
  {
  }

  /** `createRelative(relativePath)`: a resource on the relative path applied to `path` (not
      the absolute path), for the same class or class loader. */
  function CreateRelative(r: Resource, relativePath: string, defaultClassLoader: Option<ClassLoader>)
    : Resource
  {
    var pathToUse := StringUtils.ApplyRelativePath(r.path, relativePath);
    if r.clazz.Some? then WithClass(Some(pathToUse), r.clazz).value
    else WithClassLoader(Some(pathToUse), r.classLoader, defaultClassLoader).value
  }

  /** A relative resource keeps the class or the class loader of its origin (a loader resource
      without a loader picks up the default one), and its path is the cleaned relative path. */
  lemma CreateRelativeKeepsLoader(r: Resource, relativePath: string, defaultClassLoader: Option<ClassLoader>)
    ensures var rel := CreateRelative(r, relativePath, defaultClassLoader);
            && rel.clazz == r.clazz
            && GetClassLoader(rel)
               == (if r.clazz.Some? || r.classLoader.Some? then GetClassLoader(r) else defaultClassLoader)
            && var cleaned := StringUtils.CleanedPath(StringUtils.ApplyRelativePath(r.path, relativePath));
               if r.clazz.Some? then rel.path == cleaned
               else (StartsWith(cleaned, "/") ==> "/" + rel.path == cleaned)
                    && (!StartsWith(cleaned, "/") ==> rel.path == cleaned)
  {
  }
}
