/** Resolution of a mesh filename found in a URDF document to a filesystem
    path (`_resolve_mesh_filename`). The filename's prefix picks the
    addressing scheme; `Classify` makes that choice explicit as a
    `Reference` and `Locate` turns a reference into a path.

    Two collaborators are parameters: `shareDirectory` stands for the package
    index lookup `get_package_share_directory`, and `canonical` for
    `Path.resolve()`, which consults the filesystem. */
module MeshResolve {
  import opened Wrappers
  import opened Text
  import opened Paths

  const PackagePrefix: string := "package://"
  const FilePrefix: string := "file://"

  /** A non-empty mesh filename, by addressing scheme. */
  datatype Reference =
    | Package(package: string, relative: string)  // package://<package>/<relative>
    | FileUrl(path: string)                       // file://<path>
    | Absolute(path: string)                      // a plain path from the root
    | Relative(path: string)                      // a plain path from the document's directory

  /** The scheme tests, in the order the source makes them. The empty
      filename has no reference. */
  function Classify(filename: string): (r: Option<Reference>)
    ensures r.None? <==> filename == []
  {
    if filename == [] then None
    else if StartsWith(filename, PackagePrefix) then
      var (package, _, relative) := Partition(filename[|PackagePrefix|..], Separator);
      Some(Package(package, relative))
    else if StartsWith(filename, FilePrefix) then
      Some(FileUrl(filename[|FilePrefix|..]))
    else if IsAbsolute(FromString(filename)) then
      Some(Absolute(filename))
    else
      Some(Relative(filename))
  }

  /** The path a reference denotes, given the referencing document's path. */
  function Locate(ref: Reference, urdfPath: Path, shareDirectory: string -> string, canonical: Path -> Path): Path
  {
    match ref
    case Package(package, relative) => Join(FromString(shareDirectory(package)), relative)
    case FileUrl(path) => FromString(path)
    case Absolute(path) => FromString(path)
    case Relative(path) => canonical(Join(Parent(urdfPath), path))
  }

  /** `_resolve_mesh_filename`: no path for the empty filename and a path
      for every other one. */
  function ResolveMeshFilename(filename: string, urdfPath: Path, shareDirectory: string -> string, canonical: Path -> Path): (r: Option<Path>)
    ensures r.None? <==> filename == []
  {
    match Classify(filename)
    case None => None
    case Some(ref) => Some(Locate(ref, urdfPath, shareDirectory, canonical))
  }

  /** The filename a reference is written as. */
  function Render(ref: Reference): string
  {
    match ref
    case Package(package, relative) => PackagePrefix + package + [Separator] + relative
    case FileUrl(path) => FilePrefix + path
    case Absolute(path) => path
    case Relative(path) => path
  }

  /** The references `Classify` can produce: a package name holds no
      separator, an absolute path starts at the root, and a relative path is
      non-empty, does not start at the root and carries neither scheme
      prefix. */
  predicate WellFormed(ref: Reference)
  {
    match ref
    case Package(package, _) => Separator !in package
    case FileUrl(_) => true
    case Absolute(path) => path != [] && path[0] == Separator
    case Relative(path) =>
      && path != [] && path[0] != Separator
      && !StartsWith(path, PackagePrefix) && !StartsWith(path, FilePrefix)
  }

  /** Which scheme a non-empty filename takes. The two URL prefixes exclude
      each other, so testing `package://` first decides nothing. */
  lemma ClassifySchemes(filename: string)
    requires filename != []
    ensures !(StartsWith(filename, PackagePrefix) && StartsWith(filename, FilePrefix))
    ensures Classify(filename).value.Package? <==> StartsWith(filename, PackagePrefix)
    ensures Classify(filename).value.FileUrl? <==> StartsWith(filename, FilePrefix)
    ensures Classify(filename).value.Absolute? <==> filename[0] == Separator
    ensures Classify(filename).value.Relative? <==>
      filename[0] != Separator && !StartsWith(filename, PackagePrefix) && !StartsWith(filename, FilePrefix)
  {
    if StartsWith(filename, PackagePrefix) {
      assert filename[0] == PackagePrefix[0];
    } else if StartsWith(filename, FilePrefix) {
      assert filename[0] == FilePrefix[0];
    }
  }

  /** Writing a well-formed reference out and classifying it gives the
      reference back. */
  lemma ClassifyRender(ref: Reference)
    requires WellFormed(ref)
    ensures Classify(Render(ref)) == Some(ref)
  {
    var s := Render(ref);
    match ref
    case Package(package, relative) =>
      assert s[|PackagePrefix|..] == package + [Separator] + relative;
      PartitionAtFirst(package, Separator, relative);
    case FileUrl(path) =>
      assert s[|FilePrefix|..] == path;
      assert !StartsWith(s, PackagePrefix) by { assert s[0] == FilePrefix[0]; }
    case Absolute(path) =>
      assert !StartsWith(s, PackagePrefix) && !StartsWith(s, FilePrefix) by {
        assert s[0] == Separator;
      }
    case Relative(path) =>
  }

  /** Classifying loses one thing only: `package://<name>` without a
      separator reads like `package://<name>/`, since an absent relative part
      is the empty one. Every other filename is written back exactly. */
  lemma RenderClassify(filename: string)
    requires filename != []
    ensures WellFormed(Classify(filename).value)
    ensures var ref := Classify(filename).value;
      || Render(ref) == filename
      || (ref.Package? && ref.relative == [] && filename == PackagePrefix + ref.package)
  {
    var ref := Classify(filename).value;
    if StartsWith(filename, PackagePrefix) {
      var remainder := filename[|PackagePrefix|..];
      assert filename == PackagePrefix + remainder;
      var (package, mid, relative) := Partition(remainder, Separator);
      assert ref == Package(package, relative);
      if mid == [] {
        assert remainder == package;
      } else {
        assert remainder == package + [Separator] + relative;
      }
    } else if StartsWith(filename, FilePrefix) {
      assert filename == FilePrefix + filename[|FilePrefix|..];
    }
  }

  /** `package://<package>/<relative>`: the package is everything before
      the first separator, whatever the relative part holds, and the result
      is the relative part joined onto that package's share directory. */
  lemma ResolvePackage(package: string, relative: string, urdfPath: Path, shareDirectory: string -> string, canonical: Path -> Path)
    requires Separator !in package
    ensures ResolveMeshFilename(PackagePrefix + package + [Separator] + relative, urdfPath, shareDirectory, canonical)
         == Some(Join(FromString(shareDirectory(package)), relative))
  {
    ClassifyRender(Package(package, relative));
  }

  /** `package://<package>` with no separator after the name resolves to the
      share directory itself. */
  lemma ResolvePackageRoot(package: string, urdfPath: Path, shareDirectory: string -> string, canonical: Path -> Path)
    requires Separator !in package
    ensures ResolveMeshFilename(PackagePrefix + package, urdfPath, shareDirectory, canonical)
         == Some(FromString(shareDirectory(package)))
  {
    var filename := PackagePrefix + package;
    assert StartsWith(filename, PackagePrefix);
    assert filename[|PackagePrefix|..] == package;
    PartitionAbsent(package, Separator);
  }

  /** `file://<path>`: the path after the prefix, taken as it stands. The
      referencing document, the package index and canonicalisation play no
      part. */
  lemma ResolveFileUrl(path: string, urdfPath: Path, shareDirectory: string -> string, canonical: Path -> Path)
    ensures ResolveMeshFilename(FilePrefix + path, urdfPath, shareDirectory, canonical) == Some(FromString(path))
  {
    ClassifyRender(FileUrl(path));
  }

  /** A plain absolute path is returned unchanged. */
  lemma ResolveAbsolute(filename: string, urdfPath: Path, shareDirectory: string -> string, canonical: Path -> Path)
    requires filename != [] && filename[0] == Separator
    ensures ResolveMeshFilename(filename, urdfPath, shareDirectory, canonical) == Some(Path(filename))
  {
    ClassifyRender(Absolute(filename));
  }

  /** A plain relative path is joined onto the directory that holds the
      referencing document and then canonicalised. Before canonicalisation,
      the joined path ends with the filename, and it is absolute when the
      document's path is. */
  lemma ResolveRelative(filename: string, urdfPath: Path, shareDirectory: string -> string, canonical: Path -> Path)
    requires filename != [] && filename[0] != Separator
    requires !StartsWith(filename, PackagePrefix) && !StartsWith(filename, FilePrefix)
    ensures ResolveMeshFilename(filename, urdfPath, shareDirectory, canonical)
         == Some(canonical(Join(Parent(urdfPath), filename)))
    ensures EndsWith(Join(Parent(urdfPath), filename).text, filename)
    ensures Parent(urdfPath).text != "." ==> StartsWith(Join(Parent(urdfPath), filename).text, Parent(urdfPath).text)
    ensures IsAbsolute(urdfPath) ==> IsAbsolute(Join(Parent(urdfPath), filename))
  {
    ClassifyRender(Relative(filename));
  }

  /** The directory a relative reference is taken from is the one holding
      the document: a document that refers to a mesh by the document's own
      name resolves to the canonical form of the document's path. */
  lemma ResolveOwnName(urdfPath: Path, shareDirectory: string -> string, canonical: Path -> Path)
    requires NamesEntry(urdfPath)
    ensures ResolveMeshFilename(Name(urdfPath), urdfPath, shareDirectory, canonical) == Some(canonical(urdfPath))
  {
    ParentJoinName(urdfPath);
    var name := Name(urdfPath);
    assert Separator !in name;
    assert PackagePrefix[8] == Separator && FilePrefix[5] == Separator;
    assert |PackagePrefix| <= |name| ==> name[8] != Separator;
    assert |FilePrefix| <= |name| ==> name[5] != Separator;
    ResolveRelative(name, urdfPath, shareDirectory, canonical);
  }
}
