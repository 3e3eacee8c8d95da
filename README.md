# i18n-resource-bundle: resource locations and string utilities in Dafny

This project models the resource-location layer of the i18n-resource-bundle library, and the
string and path utilities under it. Each module follows one source file:

- `StringUtils`: `hasText`/`hasLength`, `replace`, `getFilename`, `cleanPath`, `applyRelativePath`,
  `collectionToDelimitedString`, `delimitedListToStringArray`, `deleteAny`,
  `tokenizeToStringArray` and `arrayToDelimitedString`. The loops of the source (`replace`,
  `cleanPath`, the split, `deleteAny` over a `char` array, the tokenizer and the builders) are
  methods, each proved equal to a function. The properties are lemmas about those functions.
- `ResourceUtils`: the protocol tests, `toURI`, `toURL`, `toRelativeURL`, the extraction of the
  jar and war URLs, and the protocol checks of `getFile`.
- `ClassPathResource`: an immutable datatype with its two constructors, its accessors,
  `equals`/`hashCode` and `createRelative`.
- `DefaultResourceLoader`: a class holding the loader's mutable state, which is the class loader,
  the ordered duplicate-free set of protocol resolvers and the per-type resource caches.
  `getResource` is a method proved against a function that states its priority chain. The
  module also holds `ClassPathContextResource`.
- `ClassUtils`: `classPackageAsResourcePath`.
- `ObjectUtils`: `isEmpty`, `nullSafeEquals`/`arrayEquals`, `nullSafeHash`/`nullSafeHashCode`
  and `nullSafeToString`.
- `Assert`: each guard returns `Pass` or `Fail(exception)`. The type checks also build their
  failure messages.

Two support modules hold modelled parts of the Java platform:

- `Wrappers` holds `Option`, `Result` and `Outcome`.
- `JavaLang` holds:
  - 32-bit `int` wrap-around and `String.hashCode`;
  - `indexOf`, `lastIndexOf`, `startsWith`/`endsWith`, `trim` and `Character.isWhitespace`;
  - `String.join`;
  - the exceptions the code throws.

Java `null` is `None` wherever the source tests for it. URL and URI parsing are the total
functions of a `Net` value: `parseUri`, `uriToUrl` and `parseUrl`. A class loader is an opaque
identity. `ClassUtils.getDefaultClassLoader()` is a parameter.

## Model

| member | source | states |
|---|---|---|
| StringUtils.HasTextChars | src/main/java/io/github/jelilio/i18nresourcebundle/util/StringUtils.java:98-136 | The `CharSequence` scan for a non-whitespace character agrees with `hasText(String)`. It is true iff the string is non-null, non-empty and not blank. |
| StringUtils.HasTextExamples | src/main/java/io/github/jelilio/i18nresourcebundle/util/StringUtils.java:98-140 | Documented cases: `null`, `""` and `" "` have no text. `"12345"` and `" 12345 "` have text. |
| StringUtils.HasTextHasLength | src/main/java/io/github/jelilio/i18nresourcebundle/util/StringUtils.java:98-140 | A string with text has length. |
| StringUtils.Replace | src/main/java/io/github/jelilio/i18nresourcebundle/util/StringUtils.java:146-172 | The builder loop over `indexOf` computes the left-to-right replacement function. The input comes back unchanged when the pattern does not occur. |
| StringUtils.ReplaceEach | src/main/java/io/github/jelilio/i18nresourcebundle/util/StringUtils.java:157-167 | Starting from the first occurrence, the `StringBuilder` loop copies the text between occurrences and appends the new pattern for each. The result is the left-to-right replacement of the whole input. |
| StringUtils.ReplacedLength | src/main/java/io/github/jelilio/i18nresourcebundle/util/StringUtils.java:158-167 | The length changes by k·(\|new\| − \|old\|), where k counts the non-overlapping leftmost occurrences. |
| StringUtils.ReplacedBySelf | src/main/java/io/github/jelilio/i18nresourcebundle/util/StringUtils.java:158-167 | Replacing a pattern by itself gives back the input. |
| StringUtils.ReplacedRemovesChar | src/main/java/io/github/jelilio/i18nresourcebundle/util/StringUtils.java:158-167 | Replacing every occurrence of a character by text without that character leaves no occurrence of it. |
| StringUtils.ReplacedCharGone | src/main/java/io/github/jelilio/i18nresourcebundle/util/StringUtils.java:146-172 | The same for the whole of `replace`, which returns a string without the character unchanged. |
| StringUtils.IndexOfCharFound | src/main/java/io/github/jelilio/i18nresourcebundle/util/StringUtils.java:148 | `indexOf` of a single character returns an index that holds it, with none before it. When it returns -1, the character does not occur. |
| StringUtils.ReplacedCharMapped | src/main/java/io/github/jelilio/i18nresourcebundle/util/StringUtils.java:157-167 | From any position, the builder loop's replacement of one character equals the per-character map of the rest of the text. |
| StringUtils.ReplacedIsCharMapped | src/main/java/io/github/jelilio/i18nresourcebundle/util/StringUtils.java:146-172 | `replace` with a one-character pattern equals an independent per-character map: each occurrence becomes the new pattern and every other character stays. |
| StringUtils.GetFilename | src/main/java/io/github/jelilio/i18nresourcebundle/util/StringUtils.java:175-182 | The result is `null` iff the input is. Otherwise it has no `/` and is a suffix of the path. When it is shorter than the path it follows a `/`. A path without `/` is its own file name. |
| StringUtils.ApplyRelativePath | src/main/java/io/github/jelilio/i18nresourcebundle/util/StringUtils.java:280-292 | The result always ends with the relative path. A path without `/` gives the relative path itself. Otherwise the result is the path up to its last `/`, then the relative path with no second slash between them. |
| StringUtils.CollectionToDelimitedString | src/main/java/io/github/jelilio/i18nresourcebundle/util/StringUtils.java:304-325 | The iterator loop builds the delimited string of prefix+element+suffix over the elements' `String.valueOf` texts, so a `null` element is rendered `"null"`. A `null` collection gives `""`. |
| StringUtils.DelimitedStringIsJoined | src/main/java/io/github/jelilio/i18nresourcebundle/util/StringUtils.java:304-329 | With empty prefix and suffix the result is `String.join(delim, elements)`. |
| StringUtils.KeptSubsequence | src/main/java/io/github/jelilio/i18nresourcebundle/util/StringUtils.java:384-404 | The characters `deleteAny` keeps are an order-preserving subsequence of the input. |
| StringUtils.KeptCounts | src/main/java/io/github/jelilio/i18nresourcebundle/util/StringUtils.java:389-394 | Every character to delete is gone. Every other character keeps its number of occurrences. |
| StringUtils.KeptNoneDeleted | src/main/java/io/github/jelilio/i18nresourcebundle/util/StringUtils.java:389-394 | No character of `charsToDelete` survives. |
| StringUtils.KeptAll | src/main/java/io/github/jelilio/i18nresourcebundle/util/StringUtils.java:396-400 | Nothing is deleted iff no character of the input is to be deleted. In that case the kept text is the input, which is the `lastCharIndex == length` shortcut. |
| StringUtils.DeleteAny | src/main/java/io/github/jelilio/i18nresourcebundle/util/StringUtils.java:384-404 | The array-and-cursor loop computes `DeletedAny`. That is the input itself when either argument is empty, and the kept characters otherwise. |
| StringUtils.PiecesCount | src/main/java/io/github/jelilio/i18nresourcebundle/util/StringUtils.java:371-380 | Splitting at k occurrences of the delimiter gives k+1 pieces. |
| StringUtils.DeletedEach | src/main/java/io/github/jelilio/i18nresourcebundle/util/StringUtils.java:367-379 | Each piece has `deleteAny` applied to it, one for one. |
| StringUtils.DelimitedList | src/main/java/io/github/jelilio/i18nresourcebundle/util/StringUtils.java:354-383 | A `null` string gives `[]`. A `null` delimiter gives `[str]`. An empty delimiter gives one element per character. An empty string with a non-empty delimiter gives `[]`. |
| StringUtils.DelimitedListCount | src/main/java/io/github/jelilio/i18nresourcebundle/util/StringUtils.java:370-381 | A non-empty string with k occurrences of a non-empty delimiter gives k+1 elements. |
| StringUtils.DelimitedListToStringArray | src/main/java/io/github/jelilio/i18nresourcebundle/util/StringUtils.java:354-383 | The `while` loop over `indexOf` computes `DelimitedList`. |
| StringUtils.CharPieces | src/main/java/io/github/jelilio/i18nresourcebundle/util/StringUtils.java:365-369 | The per-character loop computes the empty-delimiter case. |
| StringUtils.DelimitedPieces | src/main/java/io/github/jelilio/i18nresourcebundle/util/StringUtils.java:370-381 | The `pos`/`delPos` loop yields the pieces between occurrences with `deleteAny` applied, and `[]` for an empty string. |
| StringUtils.DeletedEachNothing | src/main/java/io/github/jelilio/i18nresourcebundle/util/StringUtils.java:384-385 | With `charsToDelete == null` the pieces are unchanged. |
| StringUtils.JoinedPieces | src/main/java/io/github/jelilio/i18nresourcebundle/util/StringUtils.java:371-380 | Joining the pieces with the delimiter rebuilds the text they came from. |
| StringUtils.JoinSplit | src/main/java/io/github/jelilio/i18nresourcebundle/util/StringUtils.java:304-383 | Joining what `delimitedListToStringArray` returns, with the same non-empty delimiter, gives back the string. |
| StringUtils.PiecesOfJoined | src/main/java/io/github/jelilio/i18nresourcebundle/util/StringUtils.java:371-380 | Splitting a join of pieces free of a one-character delimiter gives back the pieces. |
| StringUtils.SplitJoin | src/main/java/io/github/jelilio/i18nresourcebundle/util/StringUtils.java:304-383 | Split after join is the identity for a one-character delimiter that no element contains, when the join is non-empty. |
| StringUtils.SplitJoinNeedsOneCharDelimiter | src/main/java/io/github/jelilio/i18nresourcebundle/util/StringUtils.java:371-380 | With the delimiter `"aa"`, the pieces `["a", "b"]` join to `"aaab"`, which splits into `["", "ab"]`. So the round trip needs a delimiter that cannot overlap the pieces. |
| StringUtils.TokensFromFree | src/main/java/io/github/jelilio/i18nresourcebundle/util/StringUtils.java:452-455 | The tokenizer's tokens are non-empty and hold no delimiter character. |
| StringUtils.TokenizeToStringArray | src/main/java/io/github/jelilio/i18nresourcebundle/util/StringUtils.java:445-464 | The token loop trims when asked and drops empty tokens when asked. A `null` string gives `[]`. |
| StringUtils.TokenizedClean | src/main/java/io/github/jelilio/i18nresourcebundle/util/StringUtils.java:456-461 | When trimming and ignoring empties, every token kept is non-empty, trimmed at both ends and free of delimiters. |
| StringUtils.TokenizeDefaultsClean | src/main/java/io/github/jelilio/i18nresourcebundle/util/StringUtils.java:422-464 | The same holds for the default tokenization of any string. |
| StringUtils.ValueOfEach | src/main/java/io/github/jelilio/i18nresourcebundle/util/StringUtils.java:80-82 | Each element is rendered by `String.valueOf`, one for one. |
| StringUtils.ArrayToDelimitedString | src/main/java/io/github/jelilio/i18nresourcebundle/util/StringUtils.java:71-84 | The joiner loop computes the specification. An empty or `null` array gives `""`. A single element gives `nullSafeToString`. Otherwise the result is the `String.valueOf`s joined by the delimiter. |
| StringUtils.ArrayDelimitedOfStrings | src/main/java/io/github/jelilio/i18nresourcebundle/util/StringUtils.java:71-84 | For an array of strings the result is `collectionToDelimitedString` of those strings; `AsObjects` gives each string back through `String.valueOf`. |
| StringUtils.SplitPrefix | src/main/java/io/github/jelilio/i18nresourcebundle/util/StringUtils.java:220-234 | The prefix (a `scheme:` without `/`, then a leading `/`) followed by the rest is the path. |
| StringUtils.Tops | src/main/java/io/github/jelilio/i18nresourcebundle/util/StringUtils.java:267-269 | Exactly `tops` copies of `..`. |
| StringUtils.CleanPath | src/main/java/io/github/jelilio/i18nresourcebundle/util/StringUtils.java:195-278 | The method and its helper loops compute `CleanedPath`. |
| StringUtils.NormalizeSeparators | src/main/java/io/github/jelilio/i18nresourcebundle/util/StringUtils.java:200-208 | The two `replace` calls turn every backslash into a slash. |
| StringUtils.StripPrefix | src/main/java/io/github/jelilio/i18nresourcebundle/util/StringUtils.java:220-234 | The split into prefix and rest is `SplitPrefix`. |
| StringUtils.CollapseBackward | src/main/java/io/github/jelilio/i18nresourcebundle/util/StringUtils.java:238-260 | The backward loop with `addFirst` and `tops` computes `Collapse`. |
| StringUtils.PrependTops | src/main/java/io/github/jelilio/i18nresourcebundle/util/StringUtils.java:267-269 | It puts the surplus `..` elements in front. |
| StringUtils.CollapseIsResolve | src/main/java/io/github/jelilio/i18nresourcebundle/util/StringUtils.java:241-260 | The right-to-left loop equals a left-to-right stack reading. `.` is dropped, each `..` cancels the nearest preceding normal element, and unmatched `..` are counted. |
| StringUtils.CollapseKept | src/main/java/io/github/jelilio/i18nresourcebundle/util/StringUtils.java:241-260 | What is kept comes from the input and is neither `.` nor `..`. |
| StringUtils.CollapsePlain | src/main/java/io/github/jelilio/i18nresourcebundle/util/StringUtils.java:241-265 | Elements without `.` and `..` are all kept, with no tops. |
| StringUtils.CollapseDrops | src/main/java/io/github/jelilio/i18nresourcebundle/util/StringUtils.java:241-265 | The scan never keeps more elements than it reads. It keeps fewer whenever there is a `.` or `..` element, so the "all elements stayed" shortcut is not taken. |
| StringUtils.PiecesFree | src/main/java/io/github/jelilio/i18nresourcebundle/util/StringUtils.java:371-380 | Pieces of a text without a character do not hold it. |
| StringUtils.DelimitedFree | src/main/java/io/github/jelilio/i18nresourcebundle/util/StringUtils.java:304-325 | Joining pieces and a delimiter free of a character gives text free of it. |
| StringUtils.SlashSeparatedNoBackslash | src/main/java/io/github/jelilio/i18nresourcebundle/util/StringUtils.java:200-208 | The normalised path has no backslash. |
| StringUtils.ElementsFree | src/main/java/io/github/jelilio/i18nresourcebundle/util/StringUtils.java:216-236 | The elements split from a path that lacks a character (a backslash, a `.`) lack it too. |
| StringUtils.RebuiltNoBackslash | src/main/java/io/github/jelilio/i18nresourcebundle/util/StringUtils.java:241-273 | The collapsed elements, with the surplus `..` and the `.` added, hold no backslash when the elements held none. |
| StringUtils.CleanedPathNoBackslash | src/main/java/io/github/jelilio/i18nresourcebundle/util/StringUtils.java:195-278 | The output of `cleanPath` never holds a backslash. |
| StringUtils.CleanedPathKeepsScheme | src/main/java/io/github/jelilio/i18nresourcebundle/util/StringUtils.java:220-230 | A prefix up to the first `:` that has no `/` stays in front of the result. |
| StringUtils.ReplacedKeepsFirst | src/main/java/io/github/jelilio/i18nresourcebundle/util/StringUtils.java:146-172 | Replacing a pattern that does not start with the text's first character keeps that character in front. |
| StringUtils.CleanedPathKeepsRoot | src/main/java/io/github/jelilio/i18nresourcebundle/util/StringUtils.java:200-238 | A path starting with `/` still starts with `/` after cleaning. The separator replacement keeps the first character, and `/` becomes the prefix. |
| StringUtils.CleanedPathPlain | src/main/java/io/github/jelilio/i18nresourcebundle/util/StringUtils.java:209-265 | A path with no `.` or `..` element comes back with only its separators normalised. |
| StringUtils.CleanedPathResolves | src/main/java/io/github/jelilio/i18nresourcebundle/util/StringUtils.java:221-277 | A path with a `.` or `..` element comes back as its prefix followed by the left-to-right stack reading of its elements, joined by `/`. In that reading `.` is dropped, each `..` cancels the nearest kept element before it, and unmatched `..` come first. With `CleanedPathPlain` this covers both cases. |
| ObjectUtils.IsEmptyAgrees | src/main/java/io/github/jelilio/i18nresourcebundle/util/ObjectUtils.java:41-86 | The two `isEmpty` overloads agree on arrays. `isEmpty((Object[]) null)` holds. A non-null object of an unsupported type is never empty. |
| ObjectUtils.NullSafeEquals | src/main/java/io/github/jelilio/i18nresourcebundle/util/ObjectUtils.java:99-113 | Identical objects are equal, including two `null`s. Exactly one `null` gives false. `equals` implies true. Two arrays are equal iff they are identical or equal by kind and content. |
| ObjectUtils.NullSafeEqualsSymmetric | src/main/java/io/github/jelilio/i18nresourcebundle/util/ObjectUtils.java:99-180 | `nullSafeEquals` is symmetric. |
| ObjectUtils.ArraysCompareByContent | src/main/java/io/github/jelilio/i18nresourcebundle/util/ObjectUtils.java:109-180 | Distinct arrays of one kind with equal contents are null-safe equal, though not `equals`. Arrays of different kinds are unequal. |
| ObjectUtils.ElementHashes | src/main/java/io/github/jelilio/i18nresourcebundle/util/ObjectUtils.java:210-244 | Each element is hashed by its `hashCode`, with 0 for `null`, one for one. |
| ObjectUtils.NullSafeHashCodes | src/main/java/io/github/jelilio/i18nresourcebundle/util/ObjectUtils.java:191-200 | `nullSafeHashCode` is applied to each element. |
| ObjectUtils.NullSafeHash | src/main/java/io/github/jelilio/i18nresourcebundle/util/ObjectUtils.java:191-200 | A `null` array hashes to 0 and an empty one to 1. Otherwise the accumulator loop gives the fold `31*r + h` from 1, which equals the unbounded polynomial wrapped to 32 bits once. |
| JavaLang.HashFoldIsWrappedPolynomial | src/main/java/io/github/jelilio/i18nresourcebundle/util/ObjectUtils.java:191-200 | Wrapping to `int` after every step of the `31*r + x` fold equals wrapping the polynomial once. |
| ObjectUtils.EqualObjectsHashEqual | src/main/java/io/github/jelilio/i18nresourcebundle/util/ObjectUtils.java:99-244 | Objects that are null-safe equal have equal null-safe hash codes. This assumes the elements obey Java's equals/hashCode contract. |
| ObjectUtils.NullSafeToString | src/main/java/io/github/jelilio/i18nresourcebundle/util/ObjectUtils.java:254-290 | `null` gives `"null"` and a `String` gives itself. Another object gives its `toString()`, or `""` if that is `null`. An array gives `{…}`, and `{}` when it is empty. |
| ObjectUtils.AsWrittenNeverRendersArrays | src/main/java/io/github/jelilio/i18nresourcebundle/util/ObjectUtils.java:261-287 | As written, an array argument recurses into the same method without end, whatever the call budget. |
| ObjectUtils.AsWrittenAgreesWhenItReturns | src/main/java/io/github/jelilio/i18nresourcebundle/util/ObjectUtils.java:254-290 | Wherever the code as written returns, it returns what the corrected function does, and it always returns for non-arrays. |
| ClassUtils.ClassToString | src/main/java/io/github/jelilio/i18nresourcebundle/util/Assert.java:319-344 | The rendered class ends with its name. It is the bare name exactly for a primitive type. |
| ClassUtils.ClassPackageAsResourcePath | src/main/java/io/github/jelilio/i18nresourcebundle/util/ClassUtils.java:58-69 | `null` gives `""`. The result never holds a `.`. Its length is the index of the last `.` in the name, and 0 when there is none. Each of its characters is the name's, with `.` as `/`. |
| ClassUtils.PackagePathRoundTrip | src/main/java/io/github/jelilio/i18nresourcebundle/util/ClassUtils.java:62-68 | Turning `/` back into `.` gives the package part of the name, up to its last `.`. |
| Assert.MessageText | src/main/java/io/github/jelilio/i18nresourcebundle/util/Assert.java:356-359 | A given message is used as is. A `null` supplier gives a `null` message. |
| Assert.State | src/main/java/io/github/jelilio/i18nresourcebundle/util/Assert.java:59-69 | It throws `IllegalStateException` with the message iff the expression is false. |
| Assert.IsTrue | src/main/java/io/github/jelilio/i18nresourcebundle/util/Assert.java:71-81 | It throws `IllegalArgumentException` iff the expression is false. |
| Assert.IsNull | src/main/java/io/github/jelilio/i18nresourcebundle/util/Assert.java:83-93 | It throws iff the object is non-null. |
| Assert.NotNull | src/main/java/io/github/jelilio/i18nresourcebundle/util/Assert.java:95-105 | It throws iff the object is null. |
| Assert.NullGuardsComplementary | src/main/java/io/github/jelilio/i18nresourcebundle/util/Assert.java:83-105 | Exactly one of `isNull` and `notNull` passes. |
| Assert.HasLength | src/main/java/io/github/jelilio/i18nresourcebundle/util/Assert.java:107-117 | It throws iff the text is null or empty. |
| Assert.HasText | src/main/java/io/github/jelilio/i18nresourcebundle/util/Assert.java:119-129 | It throws iff `StringUtils.hasText` is false. |
| Assert.HasTextPasses | src/main/java/io/github/jelilio/i18nresourcebundle/util/Assert.java:119-129 | It passes iff the text holds a non-whitespace character. |
| Assert.DoesNotContain | src/main/java/io/github/jelilio/i18nresourcebundle/util/Assert.java:131-141 | On failure it throws `IllegalArgumentException` with the message. |
| Assert.DoesNotContainFails | src/main/java/io/github/jelilio/i18nresourcebundle/util/Assert.java:131-141 | It fails iff the substring is non-empty and occurs in the text. |
| Assert.DoesNotContainEmpty | src/main/java/io/github/jelilio/i18nresourcebundle/util/Assert.java:131-141 | An empty or `null` text or substring never fails. |
| Assert.NotEmpty | src/main/java/io/github/jelilio/i18nresourcebundle/util/Assert.java:143-153 | It throws iff the array is null or empty. |
| Assert.NotEmptyCollection | src/main/java/io/github/jelilio/i18nresourcebundle/util/Assert.java:245-255 | It throws iff the collection is null or empty. |
| Assert.NotEmptyMap | src/main/java/io/github/jelilio/i18nresourcebundle/util/Assert.java:257-267 | It throws iff the map is null or empty. |
| Assert.NoNullElements | src/main/java/io/github/jelilio/i18nresourcebundle/util/Assert.java:163-234 | On failure it throws `IllegalArgumentException` with the message. An empty array passes. |
| Assert.ScanPassesIff | src/main/java/io/github/jelilio/i18nresourcebundle/util/Assert.java:163-234 | The element scan passes iff no element is null. |
| Assert.NoNullElementsFails | src/main/java/io/github/jelilio/i18nresourcebundle/util/Assert.java:163-234 | It fails iff the array or collection is non-null and some element is null. A `null` argument passes. |
| Assert.MessageWithTypeName | src/main/java/io/github/jelilio/i18nresourcebundle/util/Assert.java:352-354 | The result starts with the message and ends with the type name. When the message ends in a space it is exactly message plus type name; otherwise the two characters after the message are `": "`. |
| Assert.CheckFailedMessage | src/main/java/io/github/jelilio/i18nresourcebundle/util/Assert.java:309-350 | An empty message gives the default text. A message ending in `:`, `;`, `,` or `.` gets a space and the default text. Any other message gives exactly `messageWithTypeName(msg, typeName)`, with no default text. |
| Assert.IsInstanceOf | src/main/java/io/github/jelilio/i18nresourcebundle/util/Assert.java:269-327 | A `null` type fails with its own message. Otherwise the check fails iff the object is null or not an instance, with the composed message. |
| Assert.IsAssignable | src/main/java/io/github/jelilio/i18nresourcebundle/util/Assert.java:289-346 | A `null` supertype fails with its own message. Otherwise the check fails iff the subtype is null or not assignable, with the composed message. |
| Assert.InstanceOfWithoutMessage | src/main/java/io/github/jelilio/i18nresourcebundle/util/Assert.java:285-327 | The message-less overload reports `Object of class [X] must be an instance of T`. |
| Assert.InstanceMessageNamesClass | src/main/java/io/github/jelilio/i18nresourcebundle/util/Assert.java:309-327 | A caller's message without a separator is followed by the offending class name. |
| ResourceUtils.FileAndJarDisjoint | src/main/java/io/github/jelilio/i18nresourcebundle/util/ResourceUtils.java:113-131 | No URL is both a file-family URL (`file`, `vfsfile`, `vfs`) and a jar URL (`jar`, `war`, `zip`, `vfszip`, `wsjar`). |
| ResourceUtils.SpacesEncoded | src/main/java/io/github/jelilio/i18nresourcebundle/util/ResourceUtils.java:101-103 | `toURI(String)` parses the location mapped character by character, with each space written as `%20` and every other character kept. So no space remains, and a text without spaces is unchanged. |
| ResourceUtils.ToUrl | src/main/java/io/github/jelilio/i18nresourcebundle/util/ResourceUtils.java:177-183 | The only failure is `MalformedURLException` for the location. |
| ResourceUtils.RelativeLocation | src/main/java/io/github/jelilio/i18nresourcebundle/util/ResourceUtils.java:185-188 | The relative path, with every `#` encoded as `%23`, ends the location, and no `#` remains in it. |
| ResourceUtils.RelativeLocationBelowRoot | src/main/java/io/github/jelilio/i18nresourcebundle/util/ResourceUtils.java:185-188 | A plain relative path is placed right after the root text's last `/`. |
| ResourceUtils.FileLocation | src/main/java/io/github/jelilio/i18nresourcebundle/util/ResourceUtils.java:207-214 | The fallback text is `file:` plus the jar file name, with one leading `/` added when missing. |
| ResourceUtils.ExtractJarFileUrlCases | src/main/java/io/github/jelilio/i18nresourcebundle/util/ResourceUtils.java:198-218 | Without `!/` the URL is returned. With it, the text before the first `!/` is converted, and on failure the `file:` location is tried instead. |
| ResourceUtils.ExtractArchiveUrlFallsBack | src/main/java/io/github/jelilio/i18nresourcebundle/util/ResourceUtils.java:157-175 | Without `*/`, or for a non-`war` URL with no `war:` before it, the result is `extractJarFileURL`'s. |
| ResourceUtils.ExtractArchiveUrlOfWar | src/main/java/io/github/jelilio/i18nresourcebundle/util/ResourceUtils.java:157-166 | A `war` URL with `*/` gives the URL of the text before its first `*/`. |
| ResourceUtils.ExtractArchiveUrlNestedWar | src/main/java/io/github/jelilio/i18nresourcebundle/util/ResourceUtils.java:167-170 | For a URL that is not a `war` URL and whose file part has a `war:` before its first `*/`, the result is `toURL` of the text after the first such `war:` and before the `*/`. |
| ResourceUtils.GetFile | src/main/java/io/github/jelilio/i18nresourcebundle/util/ResourceUtils.java:220-235 | A `null` URL is rejected. A non-`file` URL throws `FileNotFoundException` naming the description and the URL. |
| ResourceUtils.GetFileOfUri | src/main/java/io/github/jelilio/i18nresourcebundle/util/ResourceUtils.java:237-245 | The same for URIs with a scheme other than `file`. |
| ResourceUtils.GetFileOnlyForFileUrls | src/main/java/io/github/jelilio/i18nresourcebundle/util/ResourceUtils.java:220-235 | `getFile(URL)` succeeds iff the URL is non-null with protocol `file`. |
| ResourceUtils.GetFileOnlyForFileUris | src/main/java/io/github/jelilio/i18nresourcebundle/util/ResourceUtils.java:237-245 | `getFile(URI)` succeeds iff the URI is non-null with scheme `file`. |
| ResourceUtils.JarUrlIsNoFile | src/main/java/io/github/jelilio/i18nresourcebundle/util/ResourceUtils.java:220-235 | A jar URL never resolves to a file. |
| ClassPathResource.WithoutLeadingSlash | src/main/java/io/github/jelilio/i18nresourcebundle/support/ClassPathResource.java:59-62 | At most one leading `/` is removed, and exactly one when there is one. |
| ClassPathResource.WithClassLoader | src/main/java/io/github/jelilio/i18nresourcebundle/support/ClassPathResource.java:53-68 | A `null` path is rejected. Otherwise `path` and `absolutePath` are both `cleanPath(path)`, less one leading `/` exactly when it starts with one. A `null` loader becomes the default one. |
| ClassPathResource.WithClass | src/main/java/io/github/jelilio/i18nresourcebundle/support/ClassPathResource.java:70-84 | A `null` path is rejected. Otherwise `path` is `cleanPath(path)` and the class is kept. |
| ClassPathResource.WithClassAbsolutePath | src/main/java/io/github/jelilio/i18nresourcebundle/support/ClassPathResource.java:74-83 | A relative path of a class resource lives under the package path and `/`. Any other path loses one leading `/` exactly when it starts with one. |
| ClassPathResource.GetFilename | src/main/java/io/github/jelilio/i18nresourcebundle/support/ClassPathResource.java:148-151 | The file name has no `/`, ends the absolute path, and when it is not the whole path a `/` stands right before it, so it is the whole part after the last `/`. |
| ClassPathResource.DescriptionDeterminesPath | src/main/java/io/github/jelilio/i18nresourcebundle/support/ClassPathResource.java:153-155 | Equal descriptions mean equal absolute paths. |
| ClassPathResource.EqualsIsEquivalence | src/main/java/io/github/jelilio/i18nresourcebundle/support/ClassPathResource.java:157-179 | `equals` is reflexive, symmetric and transitive, and false for `null`. Equal resources hash equal. |
| ClassPathResource.ClassAndLoaderResources | src/main/java/io/github/jelilio/i18nresourcebundle/support/ClassPathResource.java:157-175 | A class resource and a loader resource with the same absolute path are equal iff the class was defined by that loader. |
| ClassPathResource.CreateRelativeKeepsLoader | src/main/java/io/github/jelilio/i18nresourcebundle/support/ClassPathResource.java:143-146 | The relative resource keeps the class or the loader. Its path is the cleaned relative path applied to `path`. A loader resource drops one leading `/` exactly when the cleaned path has one. |
| DefaultResourceLoader.FirstHitIsFirst | src/main/java/io/github/jelilio/i18nresourcebundle/support/DefaultResourceLoader.java:106-111 | The resolvers' answer is `null` iff every resolver answers `null`. Otherwise it is the answer of the earliest resolver that answers. |
| DefaultResourceLoader.ResolversComeFirst | src/main/java/io/github/jelilio/i18nresourcebundle/support/DefaultResourceLoader.java:103-111 | Only a `null` location is rejected. The first resolver's non-null resource is returned unchanged. With no answer the built-in rules apply. |
| DefaultResourceLoader.DispatchLeadingSlash | src/main/java/io/github/jelilio/i18nresourcebundle/support/DefaultResourceLoader.java:113-134 | With no resolver answer, a location with a leading `/` gives a context resource for the effective class loader. Its path is the cleaned location without its leading `/`, which cleaning always keeps. URL parsing is never consulted. |
| DefaultResourceLoader.DispatchClasspath | src/main/java/io/github/jelilio/i18nresourcebundle/support/DefaultResourceLoader.java:116-117 | A `classpath:` location gives a class path resource with the loader's effective class loader. Its path is the cleaned text after the prefix, less one leading `/` exactly when it starts with one. |
| DefaultResourceLoader.DispatchUrl | src/main/java/io/github/jelilio/i18nresourcebundle/support/DefaultResourceLoader.java:119-128 | Any other location that converts to a URL gives a file URL resource for `file`, `vfsfile` and `vfs`, and a URL resource for any other protocol. A location that does not convert gives the context resource. |
| DefaultResourceLoader.GetPathWithinContext | src/main/java/io/github/jelilio/i18nresourcebundle/support/DefaultResourceLoader.java:141-143 | The path within the context is `getPath()`. |
| DefaultResourceLoader.ContextCreateRelativeAgrees | src/main/java/io/github/jelilio/i18nresourcebundle/support/DefaultResourceLoader.java:145-148 | For the resources the loader builds, the context `createRelative` equals `ClassPathResource.createRelative`. So it applies the relative path to `getPath()` and keeps the class loader. |
| DefaultResourceLoader.DefaultResourceLoader.constructor | src/main/java/io/github/jelilio/i18nresourcebundle/support/DefaultResourceLoader.java:62-67 | A new loader has the given class loader, no resolvers and no caches. |
| DefaultResourceLoader.DefaultResourceLoader.SetClassLoader | src/main/java/io/github/jelilio/i18nresourcebundle/support/DefaultResourceLoader.java:69-71 | Only the class loader changes. |
| DefaultResourceLoader.DefaultResourceLoader.GetClassLoader | src/main/java/io/github/jelilio/i18nresourcebundle/support/DefaultResourceLoader.java:73-76 | The loader's own class loader when set, otherwise the default one. |
| DefaultResourceLoader.DefaultResourceLoader.AddProtocolResolver | src/main/java/io/github/jelilio/i18nresourcebundle/support/DefaultResourceLoader.java:78-81 | `null` is rejected with `ProtocolResolver must not be null`. A new resolver is appended. A registered one is not duplicated. The resolvers stay distinct. |
| DefaultResourceLoader.DefaultResourceLoader.GetProtocolResolvers | src/main/java/io/github/jelilio/i18nresourcebundle/support/DefaultResourceLoader.java:83-85 | The registered resolvers, in registration order. |
| DefaultResourceLoader.DefaultResourceLoader.GetResourceCache | src/main/java/io/github/jelilio/i18nresourcebundle/support/DefaultResourceLoader.java:93-96 | A registered cache is returned unchanged, so repeated calls give the same cache. Otherwise a fresh empty cache is registered and returned. |
| DefaultResourceLoader.DefaultResourceLoader.ClearResourceCaches | src/main/java/io/github/jelilio/i18nresourcebundle/support/DefaultResourceLoader.java:98-100 | Every per-type cache is removed, and nothing else changes. |
| DefaultResourceLoader.DefaultResourceLoader.GetResource | src/main/java/io/github/jelilio/i18nresourcebundle/support/DefaultResourceLoader.java:102-134 | The resolver loop and the dispatch compute `ResourceFor`. The lemmas above characterise `ResourceFor`. |

## Left out

- The message-resolution engine (`ResourceBundleMessageSource` and its relatives) is not part of this model. Only its interfaces are in the repository.
- `AbstractResource`, `AbstractFileResolvingResource`, `UrlResource`, `FileUrlResource` and `VfsResource` are wrappers over URL connections, files and VFS. The model keeps only which of them `getResource` picks, as the `Resource` constructors.
- `ClassPathResource.exists`, `isReadable`, `resolveURL`, `getInputStream` and `getURL` load classes and open streams. They are I/O and are not modelled.
- `ResourceUtils.useCachesIfNecessary` sets a flag on a URL connection, which is I/O.
- `ResourceUtils.getFile` does not model the `java.io.File` it builds. The result is the path text it is built from.
- URL and URI parsing are the abstract functions of `ResourceUtils.Net`, and URL parsing by a URL handler is abstract too. This means `toURI(String)` is modelled only up to the encoding of spaces.
- `Class.isInstance` and `Class.isAssignableFrom` are boolean parameters of `Assert.IsInstanceOf` and `Assert.IsAssignable`.
- `ClassUtils.getDefaultClassLoader()` is a parameter, fixed for each loader.
- Thread safety of the `ConcurrentHashMap` of caches is not modelled. The caches' contents are a plain map that nothing else in this code fills.
- `DefaultResourceLoader.DefaultResourceLoader.GetResource`: a protocol resolver is a function of the location only. The loader that `resolve` also receives is not passed to it.
- `DefaultResourceLoader.DefaultResourceLoader.GetProtocolResolvers`: returns the registered resolvers as a value. The source returns the live `LinkedHashSet`, so a caller's change to that set reaches the loader. This aliasing is not modelled.
- `Assert.MessageText`: a message supplier is modelled by the text it would supply. The source calls `messageSupplier.get()` only when the check fails, so the supplier's laziness and side effects are not modelled.
- `ClassPathResource.Equals`: the `this == other` shortcut and the `instanceof` test are folded into value equality over `Option<Resource>`. `None` stands for `null` or an object of another class.
- `StringUtils.CleanPath`: takes a non-null path. `cleanPath(null)` returns `null` unchanged, and this case is not modelled.
- Strings are sequences of UTF-16 units. `Character.isWhitespace` covers the BMP characters the JDK lists; supplementary characters are not modelled.
- `StringUtils.SplitJoin`: the round trip is proved for one-character delimiters only. `StringUtils.SplitJoinNeedsOneCharDelimiter` shows that longer delimiters can overlap the pieces.
- The one-line overloads are not separate members. They are `collectionToDelimitedString(coll, delim)`, `collectionToCommaDelimitedString`, `delimitedListToStringArray(str, delimiter)`, `tokenizeToStringArray(str, delimiters)`, `ClassPathResource(path)` and `toStringArray`. Each calls a modelled member with fixed arguments.
- `StringUtils.Tokens`: `StringTokenizer` is modelled as maximal runs of non-delimiter characters. Its internals are not modelled.
- `ObjectUtils.NullSafeToString`: renders arrays as `{e1, e2}` in the typed-overload style, but only the braces and the empty case are stated. The code as written never returns for arrays (see Findings).
- `ObjectUtils.EqualObjectsHashEqual`: assumes the element objects obey Java's `equals`/`hashCode` contract, which the source does not control.
- `ReflectionUtils` and `CollectionUtils` are not part of this model. `CollectionUtils.isEmpty` is inlined where it is used.

## Findings

| source | as written | input that shows it | evidently intended | confidence | as-written member | corrected member |
|---|---|---|---|---|---|---|
| src/main/java/io/github/jelilio/i18nresourcebundle/util/ObjectUtils.java:261-287 | Each array branch casts the argument and calls `nullSafeToString(...)`. The typed overloads are not defined, so the call resolves to `nullSafeToString(Object)` and recurses forever. | `nullSafeToString(new Object[0])` | Arrays render as `{e1, e2}`, and `{}` when empty | not executed | ObjectUtils.AsWrittenNeverRendersArrays | ObjectUtils.NullSafeToString |
