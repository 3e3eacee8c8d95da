/**
 * `ResourceUtils`: classification of URL protocols, conversions between location texts, URIs and
 * URLs, extraction of the archive URL from a jar or war URL, and resolution to a file.
 * Parsing of URIs and URLs belongs to the Java platform; it enters as the abstract functions of
 * a `Net` value, and only what this class does around those parsers is modelled.
 */
module ResourceUtils {
  import opened Wrappers
  import opened JavaLang
  import StringUtils

  /** A `java.net.URL`: its protocol, its file part (`getFile`) and its `toString` form. */
  datatype Url = Url(protocol: string, file: string, text: string)

  /** A `java.net.URI`: its scheme (`None` for a relative URI), its scheme-specific part and its
      `toString` form. */
  datatype Uri = Uri(scheme: Option<string>, schemeSpecificPart: string, text: string)

  /** Why `URI.toURL` throws: `IllegalArgumentException` for a URI that is not absolute,
      `MalformedURLException` for one whose protocol has no handler. */
  datatype UriToUrlError = NotAbsolute | NoHandler

  /** The platform's parsers: `new URI(text)` (`None`: `URISyntaxException`), `URI.toURL` and
      `new URL(text)` (`None`: `MalformedURLException`). */
  datatype Net = Net(
    parseUri: string -> Option<Uri>,
    uriToUrl: Uri -> Result<Url, UriToUrlError>,
    parseUrl: string -> Option<Url>)

  /** A `java.io.File` by its path. */
  datatype File = File(path: string)

  /** The pseudo URL prefix for class path locations. */
  const ClasspathUrlPrefix := "classpath:"
  const FileUrlPrefix := "file:"
  const WarUrlPrefix := "war:"
  const JarUrlSeparator := "!/"
  const WarUrlSeparator := "*/"

  // ===========================================================================
  // Protocols

  /** `isFileURL(url)`: the protocol is `file`, `vfsfile` or `vfs`. */
  predicate IsFileUrl(url: Url)
  {
    url.protocol == "file" || url.protocol == "vfsfile" || url.protocol == "vfs"
  }

  /** `isJarURL(url)`: the protocol is `jar`, `war`, `zip`, `vfszip` or `wsjar`. */
  predicate IsJarUrl(url: Url)
  {
    url.protocol == "jar" || url.protocol == "war" || url.protocol == "zip"
    || url.protocol == "vfszip" || url.protocol == "wsjar"
  }

  /** No URL is both a file-system URL and a jar URL. */
  lemma FileAndJarDisjoint(url: Url)
    ensures !(IsFileUrl(url) && IsJarUrl(url))
  {
    if url.protocol == "vfs" {
      assert url.protocol[0] == 'v';
    }
  }

  // ===========================================================================
  // Conversions

  /** A location with each space replaced by `%20`: character by character, a space becomes
      `%20` and any other character stays. */
  function SpacesEncoded(location: string): (r: string)
    ensures r == StringUtils.CharMapped(location, ' ', "%20")
    ensures ' ' !in r
    ensures ' ' !in location ==> r == location
  {
    StringUtils.ReplacedIsCharMapped(location, ' ', "%20");
    StringUtils.ReplacedCharGone(location, ' ', "%20");
    StringUtils.Replaced(location, " ", Some("%20"))
  }

  /** `toURI(location)`: the URI parsed from the location with its spaces encoded. */
  function ToUri(net: Net, location: string): Option<Uri>
  {
    net.parseUri(SpacesEncoded(location))
  }

  /** `toURI(url)`: `toURI` of the URL's text. */
  function UrlToUri(net: Net, url: Url): Option<Uri>
  {
    ToUri(net, url.text)
  }

  /** `toURL(location)`: the URL of the URI of the cleaned location; when that URI does not
      parse or is not absolute, the URL parsed from the location as given. Only
      `MalformedURLException` escapes. */
  function ToUrl(net: Net, location: string): (r: Result<Url, Exception>)
    ensures r.Failure? ==> r.error == MalformedUrl(location)
  {
    var uri := ToUri(net, StringUtils.CleanedPath(location));
    var viaUri := if uri.Some? then net.uriToUrl(uri.value) else Failure(NotAbsolute);
    if viaUri.Success? then Success(viaUri.value)
    else if viaUri.error == NoHandler then Failure(MalformedUrl(location))
    else
      var url := net.parseUrl(location);
      if url.Some? then Success(url.value) else Failure(MalformedUrl(location))
  }

  /** The location `toRelativeURL` converts: the relative path, with each `#` replaced by `%23`,
      applied to the root URL's text. */
  function RelativeLocation(root: Url, relativePath: string): (r: string)
    ensures var encoded := StringUtils.Replaced(relativePath, "#", Some("%23"));
            EndsWith(r, encoded) && '#' !in encoded
  {
    StringUtils.ReplacedCharGone(relativePath, '#', "%23");
    StringUtils.ApplyRelativePath(root.text, StringUtils.Replaced(relativePath, "#", Some("%23")))
  }

  /** `toRelativeURL(root, relativePath)`. */
  function ToRelativeUrl(net: Net, root: Url, relativePath: string): Result<Url, Exception>
  {
    ToUrl(net, RelativeLocation(root, relativePath))
  }

  /** Below a root whose text has a `/`, a relative path without `#` is placed after the root's
      last `/`. */
  lemma RelativeLocationBelowRoot(root: Url, relativePath: string)
    requires '/' in root.text && '#' !in relativePath && !StartsWith(relativePath, "/")
    ensures RelativeLocation(root, relativePath)
            == root.text[..LastIndexOf(root.text, '/') + 1] + relativePath
  {
    StringUtils.ReplacedCharGone(relativePath, '#', "%23");
  }

  // ===========================================================================
  // Archive URLs

  /** The location `extractJarFileURL` tries when the text before `!/` is not a URL: a `file:`
      URL of that text, with a leading slash added when it has none. */
  function FileLocation(jarFile: string): (r: string)
    ensures StartsWith(r, "file:/") && EndsWith(r, jarFile)
    ensures StartsWith(jarFile, "/") ==> r == FileUrlPrefix + jarFile
    ensures |r| <= |jarFile| + 6
  {
    var jarFile' := if !StartsWith(jarFile, "/") then "/" + jarFile else jarFile;
    var r := FileUrlPrefix + jarFile';
    assert r[..6] == "file:/";
    assert r[|r| - |jarFile|..] == jarFile;
    r
  }

  /** `extractJarFileURL(jarUrl)`: the URL of the text before the first `!/` of the URL's file
      part (as a `file:` URL if it is not a URL itself); the URL itself when there is no `!/`. */
  function ExtractJarFileUrl(net: Net, jarUrl: Url): Result<Url, Exception>
  {
    var separatorIndex := IndexOf(jarUrl.file, JarUrlSeparator, 0);
    if separatorIndex != -1 then
      var jarFile := jarUrl.file[..separatorIndex];
      var direct := ToUrl(net, jarFile);
      if direct.Success? then direct else ToUrl(net, FileLocation(jarFile))
    else Success(jarUrl)
  }

  /** Without `!/` the URL is its own jar file URL; with it, the text converted is the file part
      up to its first `!/`, which holds no `!/` itself. */
  lemma ExtractJarFileUrlCases(net: Net, jarUrl: Url)
    ensures !Contains(jarUrl.file, JarUrlSeparator) ==> ExtractJarFileUrl(net, jarUrl) == Success(jarUrl)
    ensures Contains(jarUrl.file, JarUrlSeparator) ==>
              exists i :: OccursAt(jarUrl.file, JarUrlSeparator, i)
                && (forall k :: 0 <= k < i ==> !OccursAt(jarUrl.file, JarUrlSeparator, k))
                && var jarFile := jarUrl.file[..i];
                   ExtractJarFileUrl(net, jarUrl) ==
                     if ToUrl(net, jarFile).Success? then ToUrl(net, jarFile)
                     else ToUrl(net, FileLocation(jarFile))
  {
    IndexOfFirst(jarUrl.file, JarUrlSeparator, 0);
  }

  // `extractArchiveURL(jarUrl)`: for a file part with `*/`, the text before it when the
  // protocol is `war`, else the text after the first `war:` in it when there is one; in every
  // other case `extractJarFileURL`.
  function ExtractArchiveUrl(net: Net, jarUrl: Url): Result<Url, Exception>
  {
    var urlFile := jarUrl.file;
    var endIndex := IndexOf(urlFile, WarUrlSeparator, 0);
    if endIndex != -1 then
      var warFile := urlFile[..endIndex];
      if jarUrl.protocol == "war" then ToUrl(net, warFile)
      else
        var startIndex := IndexOf(warFile, WarUrlPrefix, 0);
        if startIndex != -1 then ToUrl(net, warFile[startIndex + |WarUrlPrefix|..])
        else ExtractJarFileUrl(net, jarUrl)
    else ExtractJarFileUrl(net, jarUrl)
  }

  // `extractArchiveURL` agrees with `extractJarFileURL` whenever the file part has no `*/`, or
  // has one but the URL is not a `war` URL and no `war:` comes before it.
  lemma ExtractArchiveUrlFallsBack(net: Net, jarUrl: Url)
    requires !Contains(jarUrl.file, WarUrlSeparator)
             || (jarUrl.protocol != "war"
                 && !Contains(jarUrl.file[..IndexOf(jarUrl.file, WarUrlSeparator, 0)], WarUrlPrefix))
    ensures ExtractArchiveUrl(net, jarUrl) == ExtractJarFileUrl(net, jarUrl)
  {
  }

  // A Tomcat `war` URL such as `war:file:/app.war*/WEB-INF/lib/x.jar!/entry` gives the URL of
  // the war file: the text before the first `*/`.
  lemma ExtractArchiveUrlOfWar(net: Net, jarUrl: Url)
    requires jarUrl.protocol == "war" && Contains(jarUrl.file, WarUrlSeparator)
    ensures exists i :: OccursAt(jarUrl.file, WarUrlSeparator, i)
              && (forall k :: 0 <= k < i ==> !OccursAt(jarUrl.file, WarUrlSeparator, k))
              && ExtractArchiveUrl(net, jarUrl) == ToUrl(net, jarUrl.file[..i])
  {
    IndexOfFirst(jarUrl.file, WarUrlSeparator, 0);
  }

  // A jar URL nested in a war, such as `jar:war:file:/app.war*/lib/x.jar!/entry`, gives the URL
  // of the text after the first `war:` and before the first `*/`.
  lemma ExtractArchiveUrlNestedWar(net: Net, jarUrl: Url, e: nat, i: nat)
    requires jarUrl.protocol != "war"
    requires OccursAt(jarUrl.file, WarUrlSeparator, e)
    requires forall k :: 0 <= k < e ==> !OccursAt(jarUrl.file, WarUrlSeparator, k)
    requires OccursAt(jarUrl.file[..e], WarUrlPrefix, i)
    requires forall k :: 0 <= k < i ==> !OccursAt(jarUrl.file[..e], WarUrlPrefix, k)
    ensures ExtractArchiveUrl(net, jarUrl) == ToUrl(net, jarUrl.file[i + |WarUrlPrefix|..e])
  {
    IndexOfAt(jarUrl.file, WarUrlSeparator, 0, e);
    var warFile := jarUrl.file[..e];
    IndexOfAt(warFile, WarUrlPrefix, 0, i);
    assert warFile[i + |WarUrlPrefix|..] == jarUrl.file[i + |WarUrlPrefix|..e];
  }

  // ===========================================================================
  // Files

  /** The text of the `FileNotFoundException` for a location outside the file system. */
  function NotInFileSystem(description: string, location: string): string
  {
    description + " cannot be resolved to absolute file path because it does not reside in the file system: "
    + location
  }

  /** `getFile(resourceUrl, description)`: only a `file` URL resolves, to the scheme-specific
      part of its URI, or to its file part when the URL is not a valid URI. */
  function GetFile(net: Net, resourceUrl: Option<Url>, description: string): (r: Result<File, Exception>)
    ensures resourceUrl.None? ==> r == Failure(IllegalArgument(Some("Resource URL must not be null")))
    ensures resourceUrl.Some? && resourceUrl.value.protocol != "file" ==>
              r == Failure(FileNotFound(Some(NotInFileSystem(description, resourceUrl.value.text))))
  {
    if resourceUrl.None? then Failure(IllegalArgument(Some("Resource URL must not be null")))
    else
      var url := resourceUrl.value;
      if url.protocol != "file" then Failure(FileNotFound(Some(NotInFileSystem(description, url.text))))
      else
        var uri := UrlToUri(net, url);
        if uri.Some? then Success(File(uri.value.schemeSpecificPart)) else Success(File(url.file))
  }

  /** `getFile(resourceUri, description)`: only a URI with scheme `file` resolves, to its
      scheme-specific part. */
  function GetFileOfUri(resourceUri: Option<Uri>, description: string): (r: Result<File, Exception>)
    ensures resourceUri.None? ==> r == Failure(IllegalArgument(Some("Resource URI must not be null")))
    ensures resourceUri.Some? && resourceUri.value.scheme != Some("file") ==>
              r == Failure(FileNotFound(Some(NotInFileSystem(description, resourceUri.value.text))))
  {
    if resourceUri.None? then Failure(IllegalArgument(Some("Resource URI must not be null")))
    else
      var uri := resourceUri.value;
      if uri.scheme != Some("file") then Failure(FileNotFound(Some(NotInFileSystem(description, uri.text))))
      else Success(File(uri.schemeSpecificPart))
  }

  /** `getFile(url, …)` succeeds exactly for a `file` URL. */
  lemma GetFileOnlyForFileUrls(net: Net, url: Option<Url>, description: string)
    ensures GetFile(net, url, description).Success? <==> url.Some? && url.value.protocol == "file"
  {
  }

  /** `getFile(uri, …)` succeeds exactly for a URI with scheme `file`. */
  lemma GetFileOnlyForFileUris(uri: Option<Uri>, description: string)
    ensures GetFileOfUri(uri, description).Success? <==> uri.Some? && uri.value.scheme == Some("file")
  {
  }

  /** A jar URL never resolves to a file. */
  lemma JarUrlIsNoFile(net: Net, url: Url, description: string)
    requires IsJarUrl(url)
    ensures GetFile(net, Some(url), description).Failure?
  {
    FileAndJarDisjoint(url);
  }
}
