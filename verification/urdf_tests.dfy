/** The two checks run on every discovered URDF document: the link-name
    check (`test_urdf_parses_and_has_expected_links`) and the mesh-reference
    check (`test_mesh_references_exist`). Parsing the document is the URDF
    and XML libraries' part: the model takes the parsed link names, the raw
    text and the mesh elements as inputs, and the filesystem's existence test
    as the parameter `pathExists`. */
module UrdfTests {
  import opened Wrappers
  import opened Paths
  import opened MeshExtract
  import opened MeshResolve

  const BaseLink: string := "base"
  const WristLink: string := "link6"
  const DeprecatedLink: string := "tcp_link"

  /** The assertion of the link-name check that fails first. */
  datatype LinkFailure =
    | MissingBase            // "base" is not a link name
    | MissingWrist           // "link6" is not a link name
    | DeprecatedLinkPresent  // "tcp_link" is a link name
    | DeprecatedNameInText   // the raw text still mentions "tcp_link"

  /** `{link.name for link in urdf.links}`. */
  function LinkNames(links: seq<string>): set<string>
  {
    set name | name in links
  }

  /** The four assertions in source order, given whether the textual search
      found the deprecated name. */
  function LinkOutcome(links: seq<string>, mentioned: bool): Option<LinkFailure>
  {
    var names := LinkNames(links);
    if BaseLink !in names then Some(MissingBase)
    else if WristLink !in names then Some(MissingWrist)
    else if DeprecatedLink in names then Some(DeprecatedLinkPresent)
    else if mentioned then Some(DeprecatedNameInText)
    else None
  }

  /** `text[i..i + |w|]` is `w`. */
  predicate OccursAt(text: string, w: string, i: int)
  {
    0 <= i <= |text| - |w| && text[i..i + |w|] == w
  }

  /** The pattern the raw string `r"\\btcp_link\\b"` spells: in a raw
      string the doubled backslashes stay doubled, and in the regular
      expression each `\\` matches one literal backslash. So the search looks
      for the literal text `\btcp_link\b`, backslashes included. */
  const AsWrittenPattern: string := "\\btcp_link\\b"

  /** `re.search(r"\\btcp_link\\b", text) is not None`, as written. */
  predicate RegexMatchesAsWritten(text: string)
  {
    exists i :: 0 <= i <= |text| - |AsWrittenPattern| && OccursAt(text, AsWrittenPattern, i)
  }

  /** A character `\b` counts as part of a word (ASCII letters, digits and
      the underscore). */
  predicate IsWordChar(c: char)
  {
    ('a' <= c <= 'z') || ('A' <= c <= 'Z') || ('0' <= c <= '9') || c == '_'
  }

  /** `w` occurs at `i` with a word boundary on each side. */
  predicate WordAt(text: string, w: string, i: int)
  {
    && OccursAt(text, w, i)
    && (i == 0 || !IsWordChar(text[i - 1]))
    && (i + |w| == |text| || !IsWordChar(text[i + |w|]))
  }

  /** The search the comment above the regular expression intends,
      `re.search(r"\btcp_link\b", text) is not None`: a whole-word
      occurrence of `w`. */
  predicate MentionsWord(text: string, w: string)
  {
    exists i :: 0 <= i <= |text| - |w| && WordAt(text, w, i)
  }

  /** The link-name check as the source writes it, with the literal search:
      it passes exactly when "base" and "link6" are link names, "tcp_link" is
      not, and the text never holds the literal `\btcp_link\b`. */
  function CheckLinksAsWritten(links: seq<string>, text: string): (r: Option<LinkFailure>)
    ensures r.None? <==>
      BaseLink in links && WristLink in links && DeprecatedLink !in links && !RegexMatchesAsWritten(text)
    ensures r == Some(MissingBase) <==> BaseLink !in links
    ensures r == Some(MissingWrist) <==> BaseLink in links && WristLink !in links
    ensures r == Some(DeprecatedLinkPresent) <==> BaseLink in links && WristLink in links && DeprecatedLink in links
  {
    LinkOutcome(links, RegexMatchesAsWritten(text))
  }

  /** The link-name check with the whole-word search: it passes exactly when
      "base" and "link6" are link names, "tcp_link" is not, and the text never
      mentions "tcp_link" as a word; otherwise it names the first assertion in
      source order that fails. */
  function CheckLinks(links: seq<string>, text: string): (r: Option<LinkFailure>)
    ensures r.None? <==>
      BaseLink in links && WristLink in links && DeprecatedLink !in links && !MentionsWord(text, DeprecatedLink)
    ensures r == Some(MissingBase) <==> BaseLink !in links
    ensures r == Some(MissingWrist) <==> BaseLink in links && WristLink !in links
    ensures r == Some(DeprecatedLinkPresent) <==> BaseLink in links && WristLink in links && DeprecatedLink in links
  {
    LinkOutcome(links, MentionsWord(text, DeprecatedLink))
  }

  /** Only the set of link names matters: their order and repeats do not. */
  lemma CheckLinksUsesNameSet(links1: seq<string>, links2: seq<string>, text: string)
    requires forall name :: name in links1 <==> name in links2
    ensures CheckLinks(links1, text) == CheckLinks(links2, text)
  {
    assert LinkNames(links1) == LinkNames(links2);
  }

  /** The whole-word search catches a reference left in a quoted attribute
      value, such as a joint's `child link="tcp_link"`, wherever it sits. */
  lemma MentionsWordFindsQuotedName(before: string, after: string)
    ensures MentionsWord(before + "\"" + DeprecatedLink + "\"" + after, DeprecatedLink)
  {
    var text := before + "\"" + DeprecatedLink + "\"" + after;
    var i := |before| + 1;
    assert text[i..i + |DeprecatedLink|] == DeprecatedLink;
    assert text[i - 1] == '"' && text[i + |DeprecatedLink|] == '"';
    assert WordAt(text, DeprecatedLink, i);
  }

  /** So a document whose links are right but whose text still quotes the
      deprecated name fails the check on the textual assertion. */
  lemma LingeringReferenceFails(links: seq<string>, before: string, after: string)
    requires BaseLink in links && WristLink in links && DeprecatedLink !in links
    ensures CheckLinks(links, before + "\"" + DeprecatedLink + "\"" + after) == Some(DeprecatedNameInText)
  {
    MentionsWordFindsQuotedName(before, after);
  }

  /** The search as written can only match text that holds a backslash. */
  lemma RegexAsWrittenNeedsBackslash(text: string)
    requires RegexMatchesAsWritten(text)
    ensures '\\' in text
  {
    var i :| 0 <= i <= |text| - |AsWrittenPattern| && OccursAt(text, AsWrittenPattern, i);
    assert text[i] == AsWrittenPattern[0] == '\\';
  }

  /** The text around a joint's child-link name in the example below. */
  const JointFront: string := "<joint name=\"j6\"><child link="
  const JointBack: string := "/></joint>"

  /** A joint that still names the deprecated link as its child,
      `<joint name="j6"><child link="tcp_link"/></joint>`, in a document whose
      links are otherwise right: the check as written passes it, the
      whole-word check fails it. */
  lemma AsWrittenMissesLingeringReference()
    ensures var text := JointFront + "\"" + DeprecatedLink + "\"" + JointBack;
      && CheckLinksAsWritten([BaseLink, WristLink], text).None?
      && CheckLinks([BaseLink, WristLink], text) == Some(DeprecatedNameInText)
  {
    var text := JointFront + "\"" + DeprecatedLink + "\"" + JointBack;
    assert !RegexMatchesAsWritten(text) by {
      assert '\\' !in text by {
        assert '\\' !in JointFront && '\\' !in JointBack && '\\' !in DeprecatedLink;
      }
      if RegexMatchesAsWritten(text) {
        RegexAsWrittenNeedsBackslash(text);
      }
    }
    LingeringReferenceFails([BaseLink, WristLink], JointFront, JointBack);
  }

  /** A mesh whose resolved path does not exist. */
  datatype MissingMesh = MissingMesh(filename: string, resolved: Path)

  /** `filename` resolves to a path, and that path exists. */
  predicate ResolvesToExisting(filename: string, urdfPath: Path, shareDirectory: string -> string,
                               canonical: Path -> Path, pathExists: Path -> bool)
  {
    var resolved := ResolveMeshFilename(filename, urdfPath, shareDirectory, canonical);
    resolved.Some? && pathExists(resolved.value)
  }

  /** `test_mesh_references_exist`: resolves each extracted filename in turn
      and stops at the first whose path does not exist. Every extracted
      filename resolves to some path, so the `resolved is not None` assertion
      always holds. */
  method CheckMeshReferences(meshes: seq<Attributes>, urdfPath: Path, shareDirectory: string -> string,
                             canonical: Path -> Path, pathExists: Path -> bool)
    returns (failure: Option<MissingMesh>)
    ensures var names := Extracted(meshes);
      failure.None? <==>
        forall k :: 0 <= k < |names| ==> ResolvesToExisting(names[k], urdfPath, shareDirectory, canonical, pathExists)
    ensures var names := Extracted(meshes);
      failure.Some? ==> exists k :: (
        && 0 <= k < |names|
        && failure.value.filename == names[k]
        && Some(failure.value.resolved) == ResolveMeshFilename(names[k], urdfPath, shareDirectory, canonical)
        && !pathExists(failure.value.resolved)
        && forall j :: 0 <= j < k ==> ResolvesToExisting(names[j], urdfPath, shareDirectory, canonical, pathExists))
  {
    var filenames := MeshFilenames(meshes);
    for i := 0 to |filenames|
      invariant forall j :: 0 <= j < i ==> ResolvesToExisting(filenames[j], urdfPath, shareDirectory, canonical, pathExists)
    {
      var resolved := ResolveMeshFilename(filenames[i], urdfPath, shareDirectory, canonical);
      assert resolved.Some?;
      if !pathExists(resolved.value) {
        failure := Some(MissingMesh(filenames[i], resolved.value));
        assert !ResolvesToExisting(filenames[i], urdfPath, shareDirectory, canonical, pathExists);
        return;
      }
      ExistingPrefixGrows(filenames, i, urdfPath, shareDirectory, canonical, pathExists);
    }
    return None;
  }

  /** One more filename whose resolved path exists extends the run of
      filenames that resolve to existing paths. */
  lemma ExistingPrefixGrows(names: seq<string>, i: nat, urdfPath: Path, shareDirectory: string -> string,
                            canonical: Path -> Path, pathExists: Path -> bool)
    requires i < |names|
    requires forall j :: 0 <= j < i ==> ResolvesToExisting(names[j], urdfPath, shareDirectory, canonical, pathExists)
    requires ResolveMeshFilename(names[i], urdfPath, shareDirectory, canonical).Some?
    requires pathExists(ResolveMeshFilename(names[i], urdfPath, shareDirectory, canonical).value)
    ensures forall j :: 0 <= j <= i ==> ResolvesToExisting(names[j], urdfPath, shareDirectory, canonical, pathExists)
  {
  }
}
