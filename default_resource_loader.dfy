/**
 * `DefaultResourceLoader`: turns a location text into a resource. Registered protocol resolvers
 * are asked first, in registration order; then a leading `/` names a class path resource in the
 * loader's context, a `classpath:` prefix a class path resource, a location that parses as a URL
 * a URL resource, and anything else again a context resource. The loader also keeps one cache
 * map per value type.
 */
module DefaultResourceLoader {
  import opened Wrappers
  import opened JavaLang
  import StringUtils
  import opened ClassUtils
  import ResourceUtils
  import CPR = ClassPathResource

  /** The resources `getResource` hands out. */
  datatype Resource =
    /** A `ClassPathResource`. */
    | ClassPath(resource: CPR.Resource)
    /** A `ClassPathContextResource`: a class path resource whose path is relative to the loader. */
    | ClassPathContext(resource: CPR.Resource)
    /** A `FileUrlResource`. */
    | FileUrl(url: ResourceUtils.Url)
    /** A `UrlResource`. */
    | UrlResource(url: ResourceUtils.Url)
    /** A resource some protocol resolver built, known by its identity. */
    | Resolved(id: nat)

  /** A `ProtocolResolver`: an object whose `resolve` maps a location to a resource or `null`.
      Resolvers are compared by reference, as the loader's `LinkedHashSet` does. */
  class ProtocolResolver {
    const resolve: string -> Option<Resource>

    constructor(resolve: string -> Option<Resource>)
      ensures this.resolve == resolve
    {
      this.resolve := resolve;
    }
  }

  /** A per-type resource cache: a map from resources to cached values. */
  class ResourceCache {
    var entries: map<Resource, nat>

    constructor()
      ensures entries == map[]
    {
      entries := map[];
    }
  }

  // ===========================================================================
  // Resolution, as functions of the loader's state

  /** The first non-`null` answer of the resolvers, asked in order. */
  function FirstHit(resolvers: seq<ProtocolResolver>, location: string): Option<Resource>
  {
    if resolvers == [] then None
    else if resolvers[0].resolve(location).Some? then resolvers[0].resolve(location)
    else FirstHit(resolvers[1..], location)
  }

  /** Resolvers that answer `null` can be skipped. */
  lemma {:induction false} FirstHitSkips(resolvers: seq<ProtocolResolver>, location: string, i: nat)
    requires i <= |resolvers|
    requires forall k :: 0 <= k < i ==> resolvers[k].resolve(location).None?
    ensures FirstHit(resolvers, location) == FirstHit(resolvers[i..], location)
  {
    if i > 0 {
      assert resolvers[1..][i - 1..] == resolvers[i..];
      FirstHitSkips(resolvers[1..], location, i - 1);
    }
  }

  /** `FirstHit` is the answer of the earliest resolver that answers, and `None` exactly when
      none does. */
  lemma {:induction false} FirstHitIsFirst(resolvers: seq<ProtocolResolver>, location: string)
    ensures FirstHit(resolvers, location).None? <==>
              forall k :: 0 <= k < |resolvers| ==> resolvers[k].resolve(location).None?
    ensures FirstHit(resolvers, location).Some? ==>
              exists i :: 0 <= i < |resolvers|
                && FirstHit(resolvers, location) == resolvers[i].resolve(location)
                && forall k :: 0 <= k < i ==> resolvers[k].resolve(location).None?
  {
    if resolvers != [] && resolvers[0].resolve(location).None? {
      var rest := resolvers[1..];
      FirstHitIsFirst(rest, location);
      assert forall k :: 1 <= k < |resolvers| ==> resolvers[k] == rest[k - 1];
      if FirstHit(rest, location).Some? {
        var j :| 0 <= j < |rest| && FirstHit(rest, location) == rest[j].resolve(location)
                 && forall k :: 0 <= k < j ==> rest[k].resolve(location).None?;
        assert resolvers[j + 1] == rest[j];
      }
    }
  }

  /** `getResourceByPath(path)`: a context resource on the path, for the loader's class loader. */
  function ByPath(path: string, classLoader: Option<ClassLoader>, defaultClassLoader: Option<ClassLoader>)
    : Resource
  {
    ClassPathContext(CPR.WithClassLoader(Some(path), classLoader, defaultClassLoader).value)
  }

  /** What `getResource` does when no resolver answers. */
  function Dispatch(location: string, net: ResourceUtils.Net, classLoader: Option<ClassLoader>,
                    defaultClassLoader: Option<ClassLoader>): Resource
  {
    if StartsWith(location, "/") then ByPath(location, classLoader, defaultClassLoader)
    else if StartsWith(location, ResourceUtils.ClasspathUrlPrefix) then
      ClassPath(CPR.WithClassLoader(Some(location[|ResourceUtils.ClasspathUrlPrefix|..]),
                                    classLoader, defaultClassLoader).value)
    else
      var url := ResourceUtils.ToUrl(net, location);
      if url.Success? then
        if ResourceUtils.IsFileUrl(url.value) then FileUrl(url.value) else UrlResource(url.value)
      else ByPath(location, classLoader, defaultClassLoader)
  }

  /** `getResource(location)` for the given resolvers and effective class loader. */
  function ResourceFor(resolvers: seq<ProtocolResolver>, location: Option<string>, net: ResourceUtils.Net,
                       classLoader: Option<ClassLoader>, defaultClassLoader: Option<ClassLoader>)
    : Result<Resource, Exception>
  {
    if location.None? then Failure(IllegalArgument(Some("Location must not be null")))
    else
      var hit := FirstHit(resolvers, location.value);
      if hit.Some? then Success(hit.value)
      else Success(Dispatch(location.value, net, classLoader, defaultClassLoader))
  }

  /** Only a `null` location is rejected, and a resolver's answer wins over every built-in rule:
      the earliest resolver that answers decides, and its resource is returned unchanged. */
  lemma ResolversComeFirst(resolvers: seq<ProtocolResolver>, location: Option<string>, net: ResourceUtils.Net,
                           classLoader: Option<ClassLoader>, defaultClassLoader: Option<ClassLoader>)
    ensures var r := ResourceFor(resolvers, location, net, classLoader, defaultClassLoader);
            && (r.Failure? <==> location.None?)
            && (location.None? ==> r.error == IllegalArgument(Some("Location must not be null")))
            && (location.Some? ==>
                  (exists i :: 0 <= i < |resolvers| && resolvers[i].resolve(location.value).Some?
                     && r == Success(resolvers[i].resolve(location.value).value)
                     && forall k :: 0 <= k < i ==> resolvers[k].resolve(location.value).None?)
                  || ((forall k :: 0 <= k < |resolvers| ==> resolvers[k].resolve(location.value).None?)
                      && r == Success(Dispatch(location.value, net, classLoader, defaultClassLoader))))
  {
    if location.Some? {
      FirstHitIsFirst(resolvers, location.value);
    }
  }

  /** The first built-in rule: a location with a leading `/` is a context resource for the
      loader's effective class loader, on the cleaned location (which keeps its leading `/`) less
      that `/`, whatever URL parsing would make of it. */
  lemma DispatchLeadingSlash(location: string, net: ResourceUtils.Net, classLoader: Option<ClassLoader>,
                             defaultClassLoader: Option<ClassLoader>)
    requires StartsWith(location, "/")
    ensures var r := Dispatch(location, net, classLoader, defaultClassLoader);
            r.ClassPathContext?
            && "/" + r.resource.path == StringUtils.CleanedPath(location)
            && CPR.GetClassLoader(r.resource) == (if classLoader.Some? then classLoader else defaultClassLoader)
  {
    StringUtils.CleanedPathKeepsRoot(location);
  }

  /** The second rule: a `classpath:` location is a class path resource on the cleaned text
      after the prefix, less one leading `/` exactly when it has one, for the loader's effective
      class loader. */
  lemma DispatchClasspath(location: string, net: ResourceUtils.Net, classLoader: Option<ClassLoader>,
                          defaultClassLoader: Option<ClassLoader>)
    requires StartsWith(location, "classpath:")
    ensures var r := Dispatch(location, net, classLoader, defaultClassLoader);
            var cleaned := StringUtils.CleanedPath(location[10..]);
            r.ClassPath?
            && CPR.GetClassLoader(r.resource) == (if classLoader.Some? then classLoader else defaultClassLoader)
            && (StartsWith(cleaned, "/") ==> "/" + r.resource.path == cleaned)
            && (!StartsWith(cleaned, "/") ==> r.resource.path == cleaned)
  {
    assert location[..1][0] == location[0] == 'c';
    assert !StartsWith(location, "/");
    var rest := location[|ResourceUtils.ClasspathUrlPrefix|..];
    assert rest == location[10..];
    var made := CPR.WithClassLoader(Some(rest), classLoader, defaultClassLoader);
    assert Dispatch(location, net, classLoader, defaultClassLoader) == ClassPath(made.value);
  }

  /** The remaining rules: a location that converts to a URL is a file URL resource for the
      `file`, `vfsfile` and `vfs` protocols and a URL resource for any other; a location that
      does not convert falls back to the context resource. */
  lemma DispatchUrl(location: string, net: ResourceUtils.Net, classLoader: Option<ClassLoader>,
                    defaultClassLoader: Option<ClassLoader>)
    requires !StartsWith(location, "/") && !StartsWith(location, "classpath:")
    ensures var r := Dispatch(location, net, classLoader, defaultClassLoader);
            var url := ResourceUtils.ToUrl(net, location);
            && (url.Success? && ResourceUtils.IsFileUrl(url.value) ==> r == FileUrl(url.value))
            && (url.Success? && !ResourceUtils.IsFileUrl(url.value) ==> r == UrlResource(url.value))
            && (url.Failure? ==> r == ByPath(location, classLoader, defaultClassLoader))
  {
  }

  // ===========================================================================
  // ClassPathContextResource

  /** `getPathWithinContext()`: the path of the context resource, which is its absolute path. */
  function GetPathWithinContext(r: CPR.Resource): (p: string)
    ensures p == CPR.GetPath(r)
  {
    r.absolutePath
  }

  /** `ClassPathContextResource.createRelative(relativePath)`: a context resource on the relative
      path applied to `getPath()`, for the same effective class loader. */
  function ContextCreateRelative(r: CPR.Resource, relativePath: string, defaultClassLoader: Option<ClassLoader>)
    : CPR.Resource
  {
    CPR.WithClassLoader(Some(StringUtils.ApplyRelativePath(CPR.GetPath(r), relativePath)),
                        CPR.GetClassLoader(r), defaultClassLoader).value
  }

  /** For a context resource, which the loader always builds with a class loader, the context
      `createRelative` agrees with the inherited one. */
  lemma ContextCreateRelativeAgrees(path: string, classLoader: Option<ClassLoader>,
                                    defaultClassLoader: Option<ClassLoader>, relativePath: string)
    ensures var r := CPR.WithClassLoader(Some(path), classLoader, defaultClassLoader).value;
            ContextCreateRelative(r, relativePath, defaultClassLoader)
            == CPR.CreateRelative(r, relativePath, defaultClassLoader)
  {
  }

  // ===========================================================================
  // The loader

  /** A `DefaultResourceLoader`: its class loader (`None` for the default one), the registered
      protocol resolvers in registration order, and the resource caches by value type. The
      platform's default class loader is fixed when the loader is made. */
  class DefaultResourceLoader {
    var classLoader: Option<ClassLoader>
    const defaultClassLoader: Option<ClassLoader>
    var protocolResolvers: seq<ProtocolResolver>
    var resourceCaches: map<JClass, ResourceCache>

    /** The no-duplicates invariant of the `LinkedHashSet` of resolvers: no resolver is
        registered twice. */
    predicate Valid()
      reads this
    {
      forall i, j :: 0 <= i < j < |protocolResolvers| ==> protocolResolvers[i] != protocolResolvers[j]
    }

    /** `new DefaultResourceLoader(classLoader)`; `new DefaultResourceLoader()` passes `None`. */
    constructor(classLoader: Option<ClassLoader>, defaultClassLoader: Option<ClassLoader>)
      ensures Valid()
      ensures this.classLoader == classLoader && this.defaultClassLoader == defaultClassLoader
      ensures protocolResolvers == [] && resourceCaches == map[]
    {
      this.classLoader := classLoader;
      this.defaultClassLoader := defaultClassLoader;
      protocolResolvers := [];
      resourceCaches := map[];
    }

    /** `setClassLoader(classLoader)`. */
    method SetClassLoader(classLoader: Option<ClassLoader>)
      requires Valid()
      modifies this
      ensures Valid()
      ensures this.classLoader == classLoader
      ensures protocolResolvers == old(protocolResolvers) && resourceCaches == old(resourceCaches)
    {
      this.classLoader := classLoader;
    }

    /** `getClassLoader()`: the loader's class loader, else the default one. */
    function GetClassLoader(): (r: Option<ClassLoader>)
      reads this
      ensures classLoader.Some? ==> r == classLoader
      ensures classLoader.None? ==> r == defaultClassLoader
    {
      if classLoader.Some? then classLoader else defaultClassLoader
    }

    /** `addProtocolResolver(resolver)`: rejects `null`; appends a resolver not yet registered
      and leaves the registration unchanged for one already there. */
    method AddProtocolResolver(resolver: ProtocolResolver?) returns (o: Outcome<Exception>)
      requires Valid()
      modifies this
      ensures Valid()
      ensures resolver == null ==>
                o == Fail(IllegalArgument(Some("ProtocolResolver must not be null")))
                && protocolResolvers == old(protocolResolvers)
      ensures resolver != null ==>
                o == Pass
                && resolver in protocolResolvers
                && protocolResolvers == if resolver in old(protocolResolvers) then old(protocolResolvers)
                                        else old(protocolResolvers) + [resolver]
      ensures classLoader == old(classLoader) && resourceCaches == old(resourceCaches)
    {
      if resolver == null {
        return Fail(IllegalArgument(Some("ProtocolResolver must not be null")));
      }
      if resolver !in protocolResolvers {
        protocolResolvers := protocolResolvers + [resolver];
      }
      return Pass;
    }

    /** `getProtocolResolvers()`: the registered resolvers, in registration order. */
    function GetProtocolResolvers(): (r: seq<ProtocolResolver>)
      reads this
      ensures r == protocolResolvers
    {
      protocolResolvers
    }

    /** `getResourceCache(valueType)`: the cache of the value type, made empty and registered on
      first request; every later request returns that same cache. */
    method GetResourceCache(valueType: JClass) returns (cache: ResourceCache)
      requires Valid()
      modifies this
      ensures Valid()
      ensures valueType in resourceCaches && resourceCaches[valueType] == cache
      ensures valueType in old(resourceCaches) ==>
                cache == old(resourceCaches)[valueType] && resourceCaches == old(resourceCaches)
      ensures valueType !in old(resourceCaches) ==>
                fresh(cache) && cache.entries == map[] && resourceCaches == old(resourceCaches)[valueType := cache]
      ensures classLoader == old(classLoader) && protocolResolvers == old(protocolResolvers)
    {
      if valueType in resourceCaches {
        cache := resourceCaches[valueType];
      } else {
        cache := new ResourceCache();
        resourceCaches := resourceCaches[valueType := cache];
      }
    }

    /** `clearResourceCaches()`: forgets every cache. */
    method ClearResourceCaches()
      requires Valid()
      modifies this
      ensures Valid()
      ensures resourceCaches == map[]
      ensures classLoader == old(classLoader) && protocolResolvers == old(protocolResolvers)
    {
      resourceCaches := map[];
    }

    /** `getResource(location)`: asks the resolvers in order, then applies the built-in rules. */
    method GetResource(location: Option<string>, net: ResourceUtils.Net) returns (r: Result<Resource, Exception>)
      ensures r == ResourceFor(protocolResolvers, location, net, GetClassLoader(), defaultClassLoader)
    {
      if location.None? {
        return Failure(IllegalArgument(Some("Location must not be null")));
      }
      var resolvers := GetProtocolResolvers();
      for i := 0 to |resolvers|
        invariant forall k :: 0 <= k < i ==> resolvers[k].resolve(location.value).None?
      {
        var resource := resolvers[i].resolve(location.value);
        if resource.Some? {
          FirstHitSkips(resolvers, location.value, i);
          return Success(resource.value);
        }
      }
      FirstHitSkips(resolvers, location.value, |resolvers|);
      r := Success(Dispatch(location.value, net, GetClassLoader(), defaultClassLoader));
    }
  }
}
