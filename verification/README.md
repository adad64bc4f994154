# mycobot320pi_urdf URDF checks in Dafny

The `mycobot320pi_urdf` package ships URDF robot descriptions and a pytest
module that checks them. That module is `test/test_urdf.py`, and this project
models its logic:

- **Discovery** (`_iter_urdf_files`). The URDF files below
  `<share>/urdf` whose name matches `*.urdf`, in sorted path order.
- **Mesh extraction** (`_mesh_filenames`). For each `<mesh>` element in
  document order, the project takes the `filename` attribute, falling back to
  `url` when `filename` is absent or empty. The chosen value is stripped of
  surrounding whitespace and kept when it is not empty.
- **Mesh resolution** (`_resolve_mesh_filename`). A non-empty mesh filename
  becomes a filesystem path under one of four schemes:
  - `package://<pkg>/<rel>`, relative to that package's share directory
  - `file://<path>`
  - a plain absolute path
  - a plain relative path, taken from the directory holding the document and
    then canonicalised
- **The two per-document tests.**
  - The link-name test: `base` and `link6` are links, `tcp_link` is not, and
    the text no longer mentions `tcp_link`.
  - The mesh-reference test: every extracted filename resolves to a path that
    exists.

The Python library behaviour these functions rely on is written out in two
modules:

- `text.dfy` covers `str.strip()` (over the full `str.isspace` set),
  `startswith`, `partition`, `split` and code-point ordering of strings.
- `paths.dfy` covers the subset of `pathlib.PurePosixPath` used here:
  construction from a string, `is_absolute`, `parent`, `name`, `/` and `<`.

Module layout:

- `wrappers.dfy`: `Option`
- `text.dfy`: `Text`
- `paths.dfy`: `Paths`
- `mesh_resolve.dfy`: `MeshResolve`
- `mesh_extract.dfy`: `MeshExtract`
- `discovery.dfy`: `Discovery`
- `urdf_tests.dfy`: `UrdfTests`

The model has three collaborators that stand in for code outside this file.
Each one is a function parameter:

- `shareDirectory: string -> string` stands for
  `get_package_share_directory`.
- `canonical: Path -> Path` stands for `Path.resolve()`.
- `pathExists: Path -> bool` stands for `Path.exists()`.

The directory walk, XML parsing and URDF parsing are inputs:

- the list of paths the walk meets
- the mesh elements' attribute maps
- the parsed link names
- the raw document text

## Model

| member | source | states |
|---|---|---|
| Text.StripSpec | test/test_urdf.py:38 | `strip()` never lengthens a string. Its result has no whitespace at either end, and it is empty exactly when the input is all whitespace. |
| Text.TrimStartSpec | test/test_urdf.py:38 | The left trim is a suffix of the input. It is empty iff the input is all whitespace, and otherwise it starts with a non-whitespace character. |
| Text.TrimEndSpec | test/test_urdf.py:38 | The right trim is a prefix of the input. It is empty iff the input is all whitespace, and otherwise it ends with a non-whitespace character. |
| Text.StripIsTrimmedInfix | test/test_urdf.py:38 | The stripped string is the infix left after removing an all-whitespace prefix and an all-whitespace suffix. |
| Text.StripUnique | test/test_urdf.py:38 | Any decomposition into whitespace prefix, stripped middle and whitespace suffix yields exactly `strip()`'s result. |
| Text.StripIdempotent | test/test_urdf.py:38 | Stripping twice is stripping once. |
| Text.Partition | test/test_urdf.py:23 | `partition('/')`: the three parts concatenate back to the input. The head holds no separator. The middle is the separator, or else the middle and tail are both empty. |
| Text.PartitionAtFirst | test/test_urdf.py:23 | Partitioning splits at the first separator, whatever follows it. |
| Text.PartitionAbsent | test/test_urdf.py:23 | With no separator, the whole string is the head and the rest is empty. |
| Text.Split | test/test_urdf.py:14 | `split('/')` gives at least one part. No part contains the separator, and joining the parts with it gives the input back. |
| Text.SplitJoinWith | test/test_urdf.py:14 | Joining separator-free parts and splitting again gives the parts back: the other half of the round trip. |
| Text.StrLessIrreflexive | test/test_urdf.py:14 | No string sorts before itself. |
| Text.StrLessTransitive | test/test_urdf.py:14 | String order is transitive. |
| Text.StrLessTotal | test/test_urdf.py:14 | Of two different strings, one sorts first. |
| Paths.FromString | test/test_urdf.py:24 | `Path(s)` is never empty: `Path("")` is `.`, and a non-empty string becomes the path with that text. pathlib's normalisation is left out, as noted below. |
| Paths.Parts | test/test_urdf.py:14 | A path has at least one component in the form its ordering compares. |
| Paths.Parent | test/test_urdf.py:31 | The parent of an absolute path is absolute. |
| Paths.Join | test/test_urdf.py:25 | `base / rel` ends with `rel`. An empty `rel` gives `base` back, and an absolute `rel` replaces the base. A relative `rel` keeps the base (other than `.`) as a prefix. Joining onto an absolute base stays absolute. |
| Paths.JoinName | test/test_urdf.py:25 | Joining a name without `/` onto a normalised path puts exactly one separator between them. The joined path's components are the base's plus the name, its `name` is the name and its `parent` is the base. |
| Paths.ParentJoinName | test/test_urdf.py:31 | For a normalised path, `parent / name == path` and the name is non-empty, so `parent` is the directory holding the entry. |
| Paths.PathLessIrreflexive | test/test_urdf.py:14 | No path sorts before itself. |
| Paths.PathLessTransitive | test/test_urdf.py:14 | Path order is transitive. |
| Paths.PathLessTotal | test/test_urdf.py:14 | Of two different paths one sorts first, because the components determine the path. |
| MeshResolve.Classify | test/test_urdf.py:19-30 | The scheme tests have a reference exactly for a non-empty filename. |
| MeshResolve.ResolveMeshFilename | test/test_urdf.py:17-31 | `None` exactly for the empty filename and a path for every other one. |
| MeshResolve.ClassifySchemes | test/test_urdf.py:21-31 | The two URL prefixes exclude each other. Each scheme is chosen exactly under its own condition: `package://` prefix, `file://` prefix, leading `/`, or none of these. |
| MeshResolve.ClassifyRender | test/test_urdf.py:21-31 | Writing a well-formed reference out as a filename and classifying it gives the same reference. |
| MeshResolve.RenderClassify | test/test_urdf.py:21-31 | Every classified filename is well formed and writes back to the same filename. The one exception is `package://<name>` without a slash. |
| MeshResolve.ResolvePackage | test/test_urdf.py:21-25 | `package://<pkg>/<rel>` resolves to `<share of pkg> / <rel>`. The package name ends at the first `/`. |
| MeshResolve.ResolvePackageRoot | test/test_urdf.py:21-25 | `package://<pkg>` with no slash resolves to the package's share directory. |
| MeshResolve.ResolveFileUrl | test/test_urdf.py:26-27 | `file://<path>` resolves to `Path(<path>)` without consulting the document, the package index or canonicalisation. |
| MeshResolve.ResolveAbsolute | test/test_urdf.py:28-30 | A plain absolute filename is returned unchanged. |
| MeshResolve.ResolveRelative | test/test_urdf.py:28-31 | A plain relative filename resolves to the canonical form of `urdf_path.parent / filename`. That joined path starts with the parent (unless it is `.`) and ends with the filename, and it is absolute when the document path is. |
| MeshResolve.ResolveOwnName | test/test_urdf.py:31 | A relative reference to the document's own name resolves to the document's canonical path. |
| MeshExtract.Extracted | test/test_urdf.py:34-41 | There are at most as many filenames as mesh elements, and each one is non-empty and carries no surrounding whitespace. |
| MeshExtract.MeshFilenames | test/test_urdf.py:34-41 | The loop returns exactly `Extracted(meshes)`, so its result has the bounds and properties proved of `Extracted`. |
| MeshExtract.ExtractedAppend | test/test_urdf.py:36-40 | Extraction works element by element, so the filenames of a concatenation are the concatenation of the filenames. Order and repeats are kept. |
| MeshExtract.ExtractedSnoc | test/test_urdf.py:36-40 | One more element appends what that element yields. |
| MeshExtract.ExtractedMembers | test/test_urdf.py:36-40 | A filename is extracted iff some element's chosen, stripped attribute is that non-empty filename. |
| MeshExtract.EmptyFilenameFallsThrough | test/test_urdf.py:37-40 | An absent or empty `filename` attribute falls through to `url`, and the stripped `url` is extracted. |
| MeshExtract.BlankFilenameSkipsElement | test/test_urdf.py:37-40 | A whitespace-only `filename` is truthy, so `url` is never consulted, and the element contributes nothing. |
| MeshExtract.NoFilenameSkipsElement | test/test_urdf.py:37-40 | An element with neither attribute contributes nothing. |
| Discovery.Matching | test/test_urdf.py:14 | The walk keeps each path strictly below `<share>/urdf` whose name ends in `.urdf`, as often as the walk met it, and nothing else. |
| Discovery.SortBy | test/test_urdf.py:14 | `sorted`: the result is ordered and is a permutation of its input. |
| Discovery.InsertSorted | test/test_urdf.py:14 | Inserting into a sorted list keeps it sorted. |
| Discovery.InsertPermutes | test/test_urdf.py:14 | Inserting adds exactly the one element. |
| Discovery.PathOrderIsStrictTotal | test/test_urdf.py:14 | Python's path `<` is a strict total order. |
| Discovery.IterUrdfFiles | test/test_urdf.py:12-14 | `_iter_urdf_files` is sorted by path order. Its multiset is that of the URDF files below `<share>/urdf` that the walk met. |
| Discovery.SortedUnique | test/test_urdf.py:14 | Two sorted arrangements of the same multiset are equal. |
| Discovery.MatchingKeepsMultiset | test/test_urdf.py:14 | Filtering two listings of the same paths keeps the same paths, each as often. |
| Discovery.IterUrdfFilesDeterministic | test/test_urdf.py:12-14 | Walks meeting the same files in any order discover the same list, so the order of the parametrised tests is fixed. |
| Discovery.SortedDistinctIsStrict | test/test_urdf.py:14 | A sorted list without repeats is strictly increasing. |
| Discovery.IterUrdfFilesStrictlySorted | test/test_urdf.py:12-14 | When the walk meets each file once, the discovered list has no repeats and is strictly increasing. |
| UrdfTests.CheckLinksAsWritten | test/test_urdf.py:49-55 | The link test as written passes iff `base` and `link6` are links, `tcp_link` is not, and the text never holds the literal `\btcp_link\b`. Otherwise it reports the first failing assertion in source order, with an iff for each failure. |
| UrdfTests.CheckLinks | test/test_urdf.py:49-55 | The corrected link test of the line-55 finding passes iff `base` and `link6` are links, `tcp_link` is not, and the text has no whole-word `tcp_link`, as the comment at line 54 intends. Otherwise it reports the first failing assertion in source order, with an iff for each failure. |
| UrdfTests.CheckLinksUsesNameSet | test/test_urdf.py:49 | Only the set of link names matters, not their order or repeats. |
| UrdfTests.MentionsWordFindsQuotedName | test/test_urdf.py:54-55 | The whole-word search finds `"tcp_link"` quoted anywhere in the text. |
| UrdfTests.LingeringReferenceFails | test/test_urdf.py:54-55 | A document with the right links that still quotes `tcp_link` fails on the textual assertion. |
| UrdfTests.RegexAsWrittenNeedsBackslash | test/test_urdf.py:55 | The search as written can only match text that contains a backslash. |
| UrdfTests.AsWrittenMissesLingeringReference | test/test_urdf.py:55 | A joint whose child is still `tcp_link` passes the check as written but fails the whole-word check. |
| UrdfTests.ExistingPrefixGrows | test/test_urdf.py:61-64 | A filename whose resolved path exists extends the run of filenames that pass the existence assertion. |
| UrdfTests.CheckMeshReferences | test/test_urdf.py:59-64 | The check passes iff every extracted filename's resolved path exists. Otherwise it names the first filename whose path is missing, together with that resolved path. |

## Left out

- The XML, URDF and file reading are not part of this model (`read_text`, `ET.fromstring`, `findall(".//mesh")` and `URDF.from_xml_string`). Their results are inputs.
- The `rglob` directory walk is left out. The list of paths below the share directory is an input.
- The `*.urdf` glob is modelled as "the name ends in `.urdf`". Hidden files and glob metacharacters are not treated specially.
- `get_package_share_directory` is the parameter `shareDirectory`. Its failure for an unknown package, which raises, is not modelled.
- `Path.resolve()` is the parameter `canonical`. Symlinks and the filesystem state are not modelled.
- `Path.exists()` is the parameter `pathExists`.
- Paths.FromString: keeps a non-empty string as the path's text. pathlib normalises it, so `PurePosixPath("./a")` is `a` and `PurePosixPath("a//b/")` is `a/b`, and the model does not capture that.
- Paths.Join: pathlib's normalisation of repeated `/`, interior `.` components and trailing `/` is not modelled. Paths are kept as the joined string. The lemmas that need normalised paths require `NamesEntry`.
- Paths.PathLess: orders by the `str.split('/')` components of the path string, as Python 3.12 and later do. Earlier versions compare the parsed parts. Those differ for paths that are not normalised. They also differ when an absolute path is compared with a relative one: the old first part is `/` and the new one is empty, so the order of `/a` and `!b` flips. All paths of one discovery lie below the same `urdf` root, so they share that first part and the two orders agree there.
- UrdfTests.MentionsWord: counts only ASCII letters, digits and `_` as word characters. Python's `\b` on `str` also counts other Unicode alphanumerics.
- The pytest parametrisation over the discovered files, and the assertion messages, are left out. Each check is modelled for one document.
- The parse failure of `URDF.from_xml_string` is left out.

## Findings

| source | as written | input that shows it | evidently intended | confidence | as-written member | corrected member |
|---|---|---|---|---|---|---|
| test/test_urdf.py:55 | `re.search(r"\\btcp_link\\b", xml_text)` uses a raw string with doubled backslashes, so the pattern matches the literal text `\btcp_link\b`, backslashes included | `<joint name="j6"><child link="tcp_link"/></joint>` with links `base` and `link6`: the assertion passes although a joint still references `tcp_link` | `r"\btcp_link\b"`: `tcp_link` as a whole word anywhere in the document fails the test | not executed | UrdfTests.AsWrittenMissesLingeringReference | UrdfTests.LingeringReferenceFails |
