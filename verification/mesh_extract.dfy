/** Extraction of the mesh filenames a URDF document references
    (`_mesh_filenames`). The XML parser's `findall(".//mesh")` is not part of
    this model: its result, the mesh elements in document order, is the
    input, each element given by its attribute dictionary. */
module MeshExtract {
  import opened Text

  /** An element's attributes, as `Element.attrib` holds them. */
  type Attributes = map<string, string>

  /** `attrib.get("filename") or attrib.get("url") or ""`: an absent
      attribute and an empty one are both falsy, so each falls through to
      the next choice. */
  function ChosenFilename(attrs: Attributes): string
  {
    if "filename" in attrs && attrs["filename"] != [] then attrs["filename"]
    else if "url" in attrs && attrs["url"] != [] then attrs["url"]
    else []
  }

  /** What one element contributes: its chosen filename, stripped, when that
      is not empty. */
  function Usable(attrs: Attributes): seq<string>
  {
    var filename := Strip(ChosenFilename(attrs));
    if filename != [] then [filename] else []
  }

  /** The filenames of a run of mesh elements, in element order. Each is
      non-empty and carries no surrounding whitespace, and no element yields
      more than one. */
  function Extracted(meshes: seq<Attributes>): (filenames: seq<string>)
    ensures |filenames| <= |meshes|
    ensures forall k :: 0 <= k < |filenames| ==> filenames[k] != [] && Stripped(filenames[k])
  {
    if meshes == [] then []
    else
      var last := meshes[|meshes| - 1];
      StripSpec(ChosenFilename(last));
      Extracted(meshes[..|meshes| - 1]) + Usable(last)
  }

  /** `_mesh_filenames`: walks the elements once, appending each usable
      filename. */
  method MeshFilenames(meshes: seq<Attributes>) returns (filenames: seq<string>)
    ensures filenames == Extracted(meshes)
  {
    filenames := [];
    for i := 0 to |meshes|
      invariant filenames == Extracted(meshes[..i])
    {
      var filename := ChosenFilename(meshes[i]);
      filename := Strip(filename);
      if filename != [] {
        filenames := filenames + [filename];
      }
      assert meshes[..i + 1][..i] == meshes[..i];
    }
    assert meshes[..|meshes|] == meshes;
  }

  /** Extraction goes element by element: the filenames of two runs of
      elements are those of the first run followed by those of the second.
      So document order is kept, and an element that repeats a filename
      repeats it in the result. */
  lemma {:induction false} ExtractedAppend(first: seq<Attributes>, second: seq<Attributes>)
    ensures Extracted(first + second) == Extracted(first) + Extracted(second)
    decreases |second|
  {
    if second == [] {
      assert first + second == first;
    } else {
      var init, last := second[..|second| - 1], second[|second| - 1];
      assert second == init + [last];
      assert first + second == (first + init) + [last];
      calc {
        Extracted(first + second);
        { ExtractedSnoc(first + init, last); }
        Extracted(first + init) + Usable(last);
        { ExtractedAppend(first, init); }
        Extracted(first) + Extracted(init) + Usable(last);
        { ExtractedSnoc(init, last); }
        Extracted(first) + Extracted(second);
      }
    }
  }

  /** One more element adds what that element yields at the end. */
  lemma ExtractedSnoc(meshes: seq<Attributes>, attrs: Attributes)
    ensures Extracted(meshes + [attrs]) == Extracted(meshes) + Usable(attrs)
  {
    var all := meshes + [attrs];
    assert all[..|all| - 1] == meshes;
  }

  /** The element's own filename, once stripped, is `filename`. */
  predicate Yields(attrs: Attributes, filename: string)
  {
    filename != [] && filename == Strip(ChosenFilename(attrs))
  }

  /** A filename is extracted exactly when some element yields it. */
  lemma {:induction false} ExtractedMembers(meshes: seq<Attributes>, filename: string)
    ensures filename in Extracted(meshes) <==> exists i :: 0 <= i < |meshes| && Yields(meshes[i], filename)
    decreases |meshes|
  {
    if meshes != [] {
      var init, last := meshes[..|meshes| - 1], meshes[|meshes| - 1];
      assert meshes == init + [last];
      ExtractedSnoc(init, last);
      ExtractedMembers(init, filename);
      assert forall i :: 0 <= i < |init| ==> init[i] == meshes[i];
    }
  }

  /** An empty `filename` attribute is falsy: the element's `url` is used. */
  lemma EmptyFilenameFallsThrough(attrs: Attributes)
    requires "filename" !in attrs || attrs["filename"] == []
    requires "url" in attrs && !AllSpace(attrs["url"])
    ensures Extracted([attrs]) == [Strip(attrs["url"])]
  {
    assert [attrs][..0] == [];
    StripSpec(attrs["url"]);
  }

  /** A whitespace-only `filename` attribute is truthy, so `url` is never
      consulted; stripped, it is empty and the element contributes nothing,
      whatever its `url`. */
  lemma BlankFilenameSkipsElement(attrs: Attributes)
    requires "filename" in attrs && attrs["filename"] != [] && AllSpace(attrs["filename"])
    ensures Extracted([attrs]) == []
  {
    assert [attrs][..0] == [];
    StripSpec(attrs["filename"]);
  }

  /** An element with neither attribute contributes nothing. */
  lemma NoFilenameSkipsElement(attrs: Attributes)
    requires "filename" !in attrs && "url" !in attrs
    ensures Extracted([attrs]) == []
  {
    assert [attrs][..0] == [];
  }
}
