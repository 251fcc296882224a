# ResourceManager model

A Dafny model of `ResourceManager`, the static resource class of the Foxtail
engine. It covers:

- the reference-counted mesh map behind `getMeshResource` and
  `releaseMeshResource`, with each entry a `ReferencedResource` holding a
  Java `int` count;
- the path builders: the per-user application-data directory picked from
  `os.name`, `getFormattedFilepath`, and the internal, Foxtail and external
  resource paths built on it;
- `loadFile`, and `loadShaderSource` with its recursive `#pragma include`
  expansion;
- `loadModel`'s dispatch on the file extension, and the vertex flattening of
  `loadOBJMesh`.

Files:

| file | module | what it holds |
|---|---|---|
| `results.dfy` | `Results` | the exceptions the code can raise, as an `Error` value; `Result` and `Option` |
| `strings.dfy` | `Strings` | the `java.lang.String` operations the class uses (`startsWith`, `endsWith`, `indexOf`, `lastIndexOf`, `trim`, `toLowerCase`, `contains`) |
| `paths.dfy` | `Paths` | the platform properties, the two settings, the data directory, the path builders and `File.getParent` |
| `text_loader.dfy` | `TextLoader` | `readLine`, `loadFile`, the include extraction and `loadShaderSource` |
| `models.dfy` | `Models` | vertices, the indexed model, meshes, `loadOBJMesh` and `loadModel` |
| `resource_cache.dfy` | `ResourceCache` | the generic reference-counted map and its 32-bit count |
| `resource_manager.dfy` | `ResourceManager` | the class's static state and the two mesh operations |

How the Java is represented:

- The class's static fields are one immutable `Manager` value, and each
  operation returns the new value.
- The file system is a map from path to file text; a path that is not in the
  map is a file that cannot be opened.
- The JVM properties `os.name`, `user.home` and `file.separator` are a
  `Platform` value passed in.
- An exception is an `Err` result:
  - `FileNotFound` for a file that cannot be opened;
  - `IndexOutOfBounds` for `charAt`, `substring` or `ArrayList.get` out of range;
  - `NullPointer` for releasing a path never requested;
  - `StackOverflow` when the include recursion runs out of depth;
  - `Exit(1)` for `System.exit(1)`.
- `OBJModel`'s parser is the `parse` parameter.

## Model

| member | source | states |
|---|---|---|
| ResourceCache.Wrap32 | src/laraifox/foxtail/core/ResourceManager.java:34-41 | the count arithmetic is Java `int`: the result is in the 32-bit range, congruent to the exact value modulo 2^32, and equal to it when that is in range |
| ResourceCache.Acquire | src/laraifox/foxtail/core/ResourceManager.java:83-93 | a miss loads once and stores the resource with count 1, and a failed load stores nothing and passes the error on; a hit hands out the stored resource with its count raised by one; no other path's entry changes, and the key set only gains the requested path |
| ResourceCache.Release | src/laraifox/foxtail/core/ResourceManager.java:95-100 | an absent path is a `NullPointerException`; otherwise the entry stays exactly when the wrapped count minus one is positive, with that count and the same resource; other entries are untouched |
| ResourceCache.AcquirePreservesValid | src/laraifox/foxtail/core/ResourceManager.java:24-27 | a new entry starts at 1 and a hit adds 1, so all counts stay positive while the raised count is below the `int` maximum |
| ResourceCache.ReleasePreservesValid | src/laraifox/foxtail/core/ResourceManager.java:38-41 | an entry whose count drops to 0 or below is removed, so every count left in the map is positive |
| ResourceCache.ReleaseRemovesLast | src/laraifox/foxtail/core/ResourceManager.java:95-100 | in a map of positive counts, a release removes the entry if and only if it held the last reference |
| ResourceCache.AcquireHitLoadsNothing | src/laraifox/foxtail/core/ResourceManager.java:88-90 | on a hit the result does not depend on the loader, so nothing is loaded |
| ResourceCache.AcquireTwiceShares | src/laraifox/foxtail/core/ResourceManager.java:83-93 | a second request for a path succeeds and hands out the resource the first request stored |
| ResourceCache.AcquireTimesCounts | src/laraifox/foxtail/core/ResourceManager.java:83-93 | `n` requests for a path not yet loaded store the resource once, with count `n` |
| ResourceCache.ReleaseTimesCounts | src/laraifox/foxtail/core/ResourceManager.java:95-100 | `k` releases of an entry with count `m > k` leave it with count `m - k` and the same resource |
| ResourceCache.AcquireReleaseBalance | src/laraifox/foxtail/core/ResourceManager.java:83-100 | after `n` requests, `n - 1` releases leave the path loaded with one reference, and the `n`th release gives back the map exactly as it was before the first request |
| ResourceCache.ReleaseLastReference | src/laraifox/foxtail/core/ResourceManager.java:95-100 | releasing the only reference to a path removes exactly that entry |
| ResourceCache.CountWrapsAtMaximum | src/laraifox/foxtail/core/ResourceManager.java:34-36 | a count at `Integer.MAX_VALUE` wraps to `Integer.MIN_VALUE` on the next request |
| ResourceManager.Initialize | src/laraifox/foxtail/core/ResourceManager.java:78-81 | `initialize` sets both settings and leaves the mesh and texture maps alone |
| ResourceManager.Initial | src/laraifox/foxtail/core/ResourceManager.java:68-72 | before `initialize`, the program folder name and the internal prefix are both empty and both resource maps are empty |
| ResourceManager.GetMeshResource | src/laraifox/foxtail/core/ResourceManager.java:83-93 | a hit returns the stored mesh and stores it again with its count raised by one, wrapped to `int`; a miss succeeds if and only if `loadModel` does, returns its mesh or its error, and stores that mesh with count 1; every other entry is unchanged, the key set only gains the path, and only the mesh map changes |
| ResourceManager.ReleaseMeshResource | src/laraifox/foxtail/core/ResourceManager.java:95-100 | a path never requested is a `NullPointerException`; otherwise only the mesh map changes, the path stays exactly when the decremented count is positive, and then it keeps its mesh with the count lowered by one, wrapped to `int`; every other entry is unchanged and no key is added |
| ResourceManager.LoadedMeshIsOBJ | src/laraifox/foxtail/core/ResourceManager.java:171-176 | a mesh loaded on a miss comes from an existing path that contains a `.` and ends in `obj`, and the mesh is named by that path |
| ResourceManager.UnsupportedModelExits | src/laraifox/foxtail/core/ResourceManager.java:175-185 | requesting an unsupported format, or an `obj` file that cannot be opened, exits with status 1 |
| ResourceManager.GetThenReleaseRestores | src/laraifox/foxtail/core/ResourceManager.java:83-100 | loading a mesh and releasing it gives back the manager exactly as it was |
| ResourceManager.RepeatedGetShares | src/laraifox/foxtail/core/ResourceManager.java:84-92 | a second request returns the first mesh and only raises its count |
| Paths.UsersAppDataDirectory | src/laraifox/foxtail/core/ResourceManager.java:56-65 | on Windows the directory is `<home>/AppData/Roaming`, on macOS and Linux `<home>/Library` (with the platform separator), and otherwise the home directory itself; it is the home directory if and only if the lower-cased OS name contains none of `win`, `mac` and `lin` |
| Paths.LinuxSharesMacDirectory | src/laraifox/foxtail/core/ResourceManager.java:59-62 | Linux gets the same `<home>/Library` directory as macOS |
| Paths.FormattedFilepath | src/laraifox/foxtail/core/ResourceManager.java:102-108 | the result starts with the separator and ends with the input; it is at most one character longer than the input, and it is the input unchanged when the input already starts with the separator |
| Paths.FormattedFilepathIdempotent | src/laraifox/foxtail/core/ResourceManager.java:102-108 | formatting twice is formatting once |
| Paths.FormattedFilepathIgnoresLeadingSeparator | src/laraifox/foxtail/core/ResourceManager.java:102-108 | `rel` and `sep + rel` format alike, both to `sep + rel` |
| Paths.InternalResourcePath | src/laraifox/foxtail/core/ResourceManager.java:118-120 | the internal prefix, then one separator, then the path, with no character added beyond that separator |
| Paths.FoxtailResourcePath | src/laraifox/foxtail/core/ResourceManager.java:114-116 | `src/laraifox/foxtail/resources`, then one separator, then the path |
| Paths.ExternalResourcePath | src/laraifox/foxtail/core/ResourceManager.java:110-112 | starts with the data directory; the program folder name follows it directly, then one separator, then the path |
| Paths.ResourcePathsIgnoreLeadingSeparator | src/laraifox/foxtail/core/ResourceManager.java:110-120 | each builder gives the same path for `rel` and `sep + rel`, namely its root, the separator and `rel` |
| Paths.InternalPathExample | src/laraifox/foxtail/core/ResourceManager.java:118-120 | after `initialize("MyApp", "/engine/internal")` on `/`, `x.txt` resolves to `/engine/internal/x.txt` |
| Paths.Parent | src/laraifox/foxtail/core/ResourceManager.java:143 | `File.getParent`: there is no parent if and only if the path has no separator or is the root; otherwise the parent is a proper prefix of the path, and it is either the root with no separator after the leading one, or it ends just before a separator that is the last one in the path |
| Paths.ParentOfJoin | src/laraifox/foxtail/core/ResourceManager.java:143 | the parent of a directory not ending in a separator, one separator and a bare file name is that directory |
| Strings.Trim | src/laraifox/foxtail/core/ResourceManager.java:134 | `String.trim`: a slice of the input that does not start or end with a character up to U+0020, with only such characters cut on both sides |
| TextLoader.ReadLinesSingle | src/laraifox/foxtail/core/ResourceManager.java:162 | no line `readLine` returns contains a line break |
| TextLoader.JoinLinesAppend | src/laraifox/foxtail/core/ResourceManager.java:143-146 | appending the expansion of two line lists is joining their concatenation |
| TextLoader.JoinLines | src/laraifox/foxtail/core/ResourceManager.java:143-146 | the appended text is empty exactly when there are no lines, and otherwise ends in `"\n"` |
| TextLoader.JoinThree | src/laraifox/foxtail/core/ResourceManager.java:143-146 | appending three runs of lines one after the other is appending their concatenation |
| TextLoader.JoinReadLines | src/laraifox/foxtail/core/ResourceManager.java:161-164 | for text without carriage returns, reading the lines and appending each with `"\n"` gives back the text with a final newline ensured |
| TextLoader.ReadJoinLines | src/laraifox/foxtail/core/ResourceManager.java:161-164 | reading back lines joined with `"\n"` yields the same lines when none contains a line break |
| TextLoader.LoadFile | src/laraifox/foxtail/core/ResourceManager.java:154-169 | fails if and only if the file cannot be opened, with `FileNotFound`; the result reads back as the file's own lines; without carriage returns it is the file's text with a final newline ensured |
| TextLoader.ScanOpen | src/laraifox/foxtail/core/ResourceManager.java:136-137 | the forward scan stops just past the first quote at or after `start - 1`, and reading before or past the line is `IndexOutOfBounds` |
| TextLoader.ScanClose | src/laraifox/foxtail/core/ResourceManager.java:139-141 | the backward scan stops at the last quote, and a line without one is `IndexOutOfBounds` |
| TextLoader.ExtractFrom | src/laraifox/foxtail/core/ResourceManager.java:135-143 | the extraction succeeds with `name` exactly when `name` sits between a quote at or after `start - 1`, with no quote from `start - 1` up to it, and the last quote of the line; any other outcome is `IndexOutOfBounds` |
| TextLoader.ExtractIncludeAsWritten | src/laraifox/foxtail/core/ResourceManager.java:135-143 | the extraction as written, with the forward scan starting at the directive's own index: it yields `name` exactly when `name` is quoted from there to the last quote, and fails with `IndexOutOfBounds` otherwise |
| TextLoader.ColumnZeroIncludeFails | src/laraifox/foxtail/core/ResourceManager.java:134-137 | every include line that starts with a visible character, so that the directive sits at column 0, makes the extraction as written throw `IndexOutOfBounds` |
| TextLoader.ColumnZeroDirectiveFails | src/laraifox/foxtail/core/ResourceManager.java:134-137 | for every name, `#pragma include "name"` at column 0 is an include line on which the extraction as written throws `IndexOutOfBounds` |
| TextLoader.ExtractInclude | src/laraifox/foxtail/core/ResourceManager.java:135-143 | the corrected extraction, with the forward scan starting just past the directive: it yields `name` exactly when `name` is quoted from there to the last quote, and fails with `IndexOutOfBounds` otherwise |
| TextLoader.ExtractIncludeFindsName | src/laraifox/foxtail/core/ResourceManager.java:134-143 | for any indentation, including none, and any name, quotes in it included, `#pragma include "name"` is an include line and yields exactly `name` |
| TextLoader.AsWrittenAgreesWhenIndented | src/laraifox/foxtail/core/ResourceManager.java:134-143 | on an include line that starts with a trimmable character, the extraction as written and the corrected one give the same result |
| TextLoader.IncludeLineShape | src/laraifox/foxtail/core/ResourceManager.java:134-135 | on an include line, `indexOf` finds the directive right after the leading whitespace |
| TextLoader.IsIncludeLine | src/laraifox/foxtail/core/ResourceManager.java:134 | a line is an include line when its trimmed form starts with `#pragma include`; `IncludeLineShape` and `IndentedDirectiveIsIncludeLine` state the two directions |
| TextLoader.IndentedDirectiveIsIncludeLine | src/laraifox/foxtail/core/ResourceManager.java:134 | the directive after any run of characters up to U+0020, followed by anything, is an include line |
| TextLoader.Classify | src/laraifox/foxtail/core/ResourceManager.java:134-143 | a line is copied as text exactly when it is not an include line; an include line carries the extraction's error, or a path that ends in the extracted name |
| TextLoader.IncludePath | src/laraifox/foxtail/core/ResourceManager.java:143 | the included path ends in the name and starts with the including file's parent, or with `"null"` when there is none, and has no other characters |
| TextLoader.ClassifySplice | src/laraifox/foxtail/core/ResourceManager.java:133-143 | classifying a file with one include line between other lines gives their classifications around one include of the resolved path |
| TextLoader.IncludePathConcatenates | src/laraifox/foxtail/core/ResourceManager.java:143 | the included path is the parent directory and the name with no separator between them, and `"null"` and the name for a file without a parent |
| TextLoader.ShaderLines | src/laraifox/foxtail/core/ResourceManager.java:127-133 | opening a file that does not exist is `FileNotFound`, and exhausting the recursion depth is a stack overflow |
| TextLoader.ExpandLines | src/laraifox/foxtail/core/ResourceManager.java:133-147 | nothing left expands to nothing; an include line whose name cannot be extracted aborts with that exception; a text line is the first line emitted for its position |
| TextLoader.ExpandTextPrefix | src/laraifox/foxtail/core/ResourceManager.java:144-146 | text lines ahead of a position are copied, in order, in front of what the rest expands to, and do not change how the rest fails |
| TextLoader.ExpandTextSuffix | src/laraifox/foxtail/core/ResourceManager.java:144-146 | text lines up to the end of a file expand to their own text |
| TextLoader.ExpandIncludeAt | src/laraifox/foxtail/core/ResourceManager.java:143 | an include line emits the included file's expansion and then the lines after it, and a failure of the included file is the failure of the whole |
| TextLoader.IncludeSpliced | src/laraifox/foxtail/core/ResourceManager.java:133-147 | an include line between text lines is replaced, in place, by the expansion of the file it names one level deeper; when that expansion fails, the file fails the same way |
| TextLoader.IncludeLoadsInPlace | src/laraifox/foxtail/core/ResourceManager.java:122-152 | `loadShaderSource` of a file with one include line between plain lines is the text before it, the source of the included file one level deeper, and the text after it; a failure of the included file is the failure of the whole |
| TextLoader.ClassifyAround | src/laraifox/foxtail/core/ResourceManager.java:133-134 | each line of a file is classified on its own, between the classifications of the lines before and after it |
| TextLoader.ErrorSpliced | src/laraifox/foxtail/core/ResourceManager.java:133-143 | an include line whose name could not be extracted, after text lines, is the failure of the whole file, whatever follows it |
| TextLoader.IncludeErrorAborts | src/laraifox/foxtail/core/ResourceManager.java:122-152 | `loadShaderSource` of a file whose first include line, after plain lines, yields no name throws `IndexOutOfBounds`, whatever follows it |
| TextLoader.AsWrittenExtraction | src/laraifox/foxtail/core/ResourceManager.java:134-137 | on an include line the extraction as written agrees with the corrected one when the line starts with a character up to U+0020, and throws `IndexOutOfBounds` when it starts with any other character |
| TextLoader.ClassifyAsWritten | src/laraifox/foxtail/core/ResourceManager.java:133-143 | the classification as written is text exactly for the lines that are not include lines; it agrees with the corrected one on indented lines, and an include line at column 0 carries `IndexOutOfBounds` |
| TextLoader.LoadShaderSourceAsWritten | src/laraifox/foxtail/core/ResourceManager.java:122-152 | `loadShaderSource` as written: a missing file is `FileNotFound`, and exhausting the recursion depth is a stack overflow |
| TextLoader.AsWrittenAgreesOnIndentedFiles | src/laraifox/foxtail/core/ResourceManager.java:122-152 | when every include line of every file is indented, the loader as written and the corrected one give the same result for every file and depth |
| TextLoader.AsWrittenColumnZeroThrows | src/laraifox/foxtail/core/ResourceManager.java:133-137 | as written, a file whose first include line sits at column 0 after plain lines throws `IndexOutOfBounds`, whatever follows and at any depth above 0 |
| TextLoader.ShaderLinesSatisfy | src/laraifox/foxtail/core/ResourceManager.java:133-147 | every line the expansion emits is a text line of some file: whatever holds of all text lines holds of the output |
| TextLoader.LoadShaderSource | src/laraifox/foxtail/core/ResourceManager.java:122-152 | a missing file is `FileNotFound`; reading the result back line by line gives lines that hold no line break and are never include lines |
| TextLoader.ShaderSourceWithoutIncludes | src/laraifox/foxtail/core/ResourceManager.java:144-146 | a file without include lines loads exactly as `loadFile` loads it |
| TextLoader.PlainFileExpands | src/laraifox/foxtail/core/ResourceManager.java:133-147 | a file without include lines expands to its own lines |
| TextLoader.SingleIncludeDelegates | src/laraifox/foxtail/core/ResourceManager.java:143 | a file consisting of one include line expands to whatever the included file expands to, one level deeper |
| TextLoader.IncludeReplacedByFile | src/laraifox/foxtail/core/ResourceManager.java:134-143 | a file consisting of one include line of a plain file loads as `loadFile` of the included file |
| TextLoader.SelfIncludeOverflows | src/laraifox/foxtail/core/ResourceManager.java:143 | a file that includes itself never finishes: at any depth the result is a stack overflow |
| Models.Flatten | src/laraifox/foxtail/core/ResourceManager.java:198-202 | fails, with `IndexOutOfBounds`, if and only if a texture coordinate or normal list is shorter than the position list; otherwise it has one vertex per position |
| Models.VertexAt | src/laraifox/foxtail/core/ResourceManager.java:200-202 | the vertex for index `i` holds position `i`, texture coordinate `i` and normal `i`, and zero tangent and bitangent |
| Models.FlattenVertices | src/laraifox/foxtail/core/ResourceManager.java:198-204 | the vertex loop computes the same list as `Flatten` |
| Models.FlattenContents | src/laraifox/foxtail/core/ResourceManager.java:200-202 | vertex `i` is position `i`, texture coordinate `i` and normal `i` |
| Models.FlattenKeepsAttributes | src/laraifox/foxtail/core/ResourceManager.java:200-202 | the positions can be read back from the vertices, and so can the texture coordinates and normals cut to the number of positions |
| Models.FlattenOfAttributes | src/laraifox/foxtail/core/ResourceManager.java:200-202 | vertices with zero tangents and bitangents are exactly what their own attribute lists flatten to |
| Models.LoadOBJMesh | src/laraifox/foxtail/core/ResourceManager.java:190-210 | a file that cannot be opened is `FileNotFound`, and an exception of the parser propagates unchanged; a parsed model gives a mesh if and only if it is complete, and `IndexOutOfBounds` otherwise; the mesh is named by the path, has one vertex per position, and its indices are copied unchanged |
| Models.LoadOBJMeshVertices | src/laraifox/foxtail/core/ResourceManager.java:200-202 | vertex `i` of a loaded mesh is position, texture coordinate and normal `i`, followed by two zero vectors |
| Models.Extension | src/laraifox/foxtail/core/ResourceManager.java:172 | fails, with `IndexOutOfBounds`, if and only if the path has no `.`; otherwise it is the suffix starting at the last `.` |
| Models.ExtensionEndsInObj | src/laraifox/foxtail/core/ResourceManager.java:172-175 | the extension ends in `obj` if and only if the path does |
| Models.LoadModel | src/laraifox/foxtail/core/ResourceManager.java:171-188 | no `.` is `IndexOutOfBounds`; an extension not ending in `obj` exits with 1; an `obj` path that cannot be opened exits with 1; an existing `obj` path is `loadOBJMesh`, with a `FileNotFoundException` from it turned into exit status 1 and every other error passed on |

## Left out

- File I/O, `BufferedReader` and `FileReader`: the file system is a map, and a
  reader that fails while reading is not modelled. The readers are not closed
  when an exception is thrown; the model does not track resources, so this is
  not visible in it.
- `Logger.log` and `printStackTrace` are left out. They only write output.
- `ReferencedResource.finalize` and `cleanUp` are left out: garbage collection
  and the OpenGL release of a mesh's buffers are outside the model.
- `TEXTURE_2D_RESOURCE_MAP` is part of the state, but no operation of the
  class reads or writes it.
- OBJ parsing (`OBJModel`, `toIndexedModel`) is the `parse` parameter, and
  its code is not part of this model. It gives the indexed model or the
  exception it throws; which texts make it throw, and with what, is not
  modelled.
- `ArrayUtils.toIntArray` is not part of this model. Indices are modelled as
  copied unchanged, and a `null` index is not represented.
- `Mesh.java` declares no `(String, Vertex[], int[])` constructor, but
  `loadOBJMesh` calls one. The mesh is therefore a plain value holding the
  name, vertices and indices. The GL buffer creation in `Mesh` is left out.
- `Shape.java` and `DataBuffer.java` are left out: no operation of
  `ResourceManager` uses them.
- Strings.ToLower: lower-cases ASCII letters only. Java's `toLowerCase`
  follows the default locale and full Unicode, and only the tests for
  `win`, `mac` and `lin` depend on it.
- Paths.Parent: covers `File.getParent` for paths with one leading root
  separator. Windows drive prefixes and the normalisation `new File` applies
  to repeated or trailing separators are not modelled.
- TextLoader.LoadShaderSource: the recursion depth the JVM allows is the
  `fuel` parameter, and the actual stack size is not modelled. The contract
  states the error cases and that no include line or line break survives. It
  does not give the full output in closed form; the lemmas give it for files
  without includes and for files with one include line, and
  `ShaderLinesSatisfy` bounds it for any file.
- TextLoader.LoadShaderSource: an include is resolved with the corrected
  extraction (see Findings). The loader as written is
  `TextLoader.LoadShaderSourceAsWritten`. The two agree on files whose include
  lines are all indented (`TextLoader.AsWrittenAgreesOnIndentedFiles`).
- TextLoader.IncludeLoadsInPlace: states the corrected loader. It holds of
  the code as written when the file system's include lines are indented; an
  include line at column 0 makes the code as written throw instead
  (`TextLoader.AsWrittenColumnZeroThrows`).
- TextLoader.IncludeReplacedByFile: states the corrected loader. It holds of
  the code as written when the file system's include lines are indented; at
  column 0 the code as written throws `IndexOutOfBounds`.
- TextLoader.SelfIncludeOverflows: states the corrected loader. As written,
  a self-include at column 0 throws `IndexOutOfBounds` on the first line
  instead of overflowing the stack. On a file system whose include lines are
  all indented, the code as written overflows too.
- TextLoader.IncludeErrorAborts: states the corrected loader. It holds of
  the code as written when the file system's include lines are indented.
- TextLoader.LoadFile: for text that contains `\r`, the contract states the
  result through the lines it reads back as. It does not state the result
  character by character.
- `System.exit` is an `Exit(1)` result. The code after it, `return null`, is
  never reached.

## Findings

| source | as written | input that shows it | evidently intended | confidence | as-written member | corrected member |
|---|---|---|---|---|---|---|
| src/laraifox/foxtail/core/ResourceManager.java:135-137 | the forward quote scan starts at the index of the directive and reads `charAt(start - 1)` first | a shader line `#pragma include "x.glsl"` starting at column 0: `indexOf` returns 0, and `charAt(-1)` throws `StringIndexOutOfBoundsException` | start the scan after the directive, so that a directive at any indentation yields the quoted name | medium; not executed | TextLoader.AsWrittenColumnZeroThrows | TextLoader.ExtractIncludeFindsName |
