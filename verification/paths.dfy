/** The part of `pathlib.PurePosixPath` the URDF checks use: building a path
    from a string, `is_absolute()`, `.parent`, `.name`, the `/` operator and
    the ordering `sorted` applies to paths. A path is kept as its string form
    with '/' as the separator. */
module Paths {
  import opened Text

  datatype Path = Path(text: string)

  const Separator: char := '/'

  /** `Path(s)`: the empty string denotes the current directory. */
  function FromString(s: string): (p: Path)
    ensures p.text != []
    ensures s == [] ==> p.text == "."
    ensures s != [] ==> p.text == s
  {
    if s == [] then Path(".") else Path(s)
  }

  /** A POSIX path is absolute when it starts at the root. */
  predicate IsAbsolute(p: Path)
  {
    p.text != [] && p.text[0] == Separator
  }

  /** The components of the path's string form, as `str.split('/')` gives
      them: an absolute path's first part is empty. */
  function Parts(p: Path): (parts: seq<string>)
    ensures |parts| >= 1
  {
    Split(p.text, Separator)
  }

  /** `p.name`: the final component. */
  function Name(p: Path): string
  {
    var parts := Parts(p);
    parts[|parts| - 1]
  }

  /** `p.parent`: the path with its final component removed; a bare name
      has parent `.` and a component directly below the root has parent
      `/`. */
  function Parent(p: Path): (q: Path)
    ensures IsAbsolute(p) ==> IsAbsolute(q)
  {
    var parts := Parts(p);
    if |parts| == 1 then Path(".")
    else
      var prefix := JoinWith(parts[..|parts| - 1], Separator);
      assert IsAbsolute(p) ==> prefix == [] || prefix[0] == Separator by {
        if IsAbsolute(p) && |parts| > 2 {
          assert p.text == parts[0] + [Separator] + JoinWith(parts[1..], Separator);
          assert Separator !in parts[0];
          assert prefix == parts[0] + [Separator] + JoinWith(parts[1..|parts| - 1], Separator) by {
            assert parts[..|parts| - 1][1..] == parts[1..|parts| - 1];
          }
        }
      }
      if prefix == [] then Path([Separator]) else Path(prefix)
  }

  /** `base / rel` for a string `rel`. An empty `rel` adds nothing, an
      absolute `rel` replaces `base`, a `.` base is dropped, and otherwise
      one separator goes between the two. */
  function Join(base: Path, rel: string): (r: Path)
    ensures EndsWith(r.text, rel)
    ensures rel == [] ==> r == base
    ensures rel != [] && rel[0] == Separator ==> r == Path(rel)
    ensures rel != [] && rel[0] != Separator && base.text != "." ==> StartsWith(r.text, base.text)
    ensures IsAbsolute(base) ==> IsAbsolute(r)
  {
    if rel == [] then base
    else if rel[0] == Separator then Path(rel)
    else if base.text == "." then Path(rel)
    else if base.text != [] && base.text[|base.text| - 1] == Separator then Path(base.text + rel)
    else Path(base.text + [Separator] + rel)
  }

  /** A normalised path that names an entry: non-empty, no empty or `.`
      component except the empty part that marks the root. */
  predicate NamesEntry(p: Path)
  {
    var parts := Parts(p);
    && p.text != []
    && parts[0] != "."
    && forall i :: 1 <= i < |parts| ==> parts[i] != [] && parts[i] != "."
  }

  /** `parent` and `name` take a path apart: joining the name back onto the
      parent gives the path again. This is what makes `parent` "the
      directory containing" the entry. */
  lemma ParentJoinName(p: Path)
    requires NamesEntry(p)
    ensures Name(p) != []
    ensures Join(Parent(p), Name(p)) == p
  {
    var parts := Parts(p);
    var n := |parts|;
    var name := parts[n - 1];
    assert Separator !in name;
    if n == 1 {
      assert name == p.text;
    } else {
      var init := parts[..n - 1];
      assert parts == init + [name];
      JoinWithSnoc(init, name, Separator);
      var prefix := JoinWith(init, Separator);
      assert p.text == prefix + [Separator] + name;
      if prefix == [] {
        assert Parent(p) == Path([Separator]);
      } else {
        assert Parent(p) == Path(prefix);
        if n - 1 == 1 {
          assert prefix == parts[0];
        } else {
          assert prefix == parts[0] + [Separator] + JoinWith(init[1..], Separator);
          assert init[1..] == parts[1..n - 1];
          LastOfJoinWith(parts[1..n - 1], Separator);
        }
        assert prefix[|prefix| - 1] != Separator;
      }
    }
  }

  /** The other direction: joining a single name onto a normalised path
      puts one separator between them, and `name` and `parent` take the
      result apart again. */
  lemma JoinName(base: Path, name: string)
    requires NamesEntry(base)
    requires name != [] && Separator !in name
    ensures Join(base, name).text == base.text + [Separator] + name
    ensures Parts(Join(base, name)) == Parts(base) + [name]
    ensures Name(Join(base, name)) == name
    ensures Parent(Join(base, name)) == base
  {
    var parts := Parts(base);
    LastOfJoinWith(parts, Separator);
    assert base.text != ".";
    var text := base.text + [Separator] + name;
    assert Join(base, name).text == text;
    JoinWithSnoc(parts, name, Separator);
    var longer := parts + [name];
    assert forall i :: 0 <= i < |longer| ==> Separator !in longer[i] by {
      forall i | 0 <= i < |longer| ensures Separator !in longer[i] {
        if i < |parts| { assert longer[i] == parts[i]; }
      }
    }
    SplitJoinWith(longer, Separator);
    assert Parts(Join(base, name)) == longer;
    assert longer[..|longer| - 1] == parts;
  }

  lemma {:induction false} LastOfJoinWith(parts: seq<string>, sep: char)
    requires |parts| >= 1
    requires parts[|parts| - 1] != [] && sep !in parts[|parts| - 1]
    ensures var s := JoinWith(parts, sep); s != [] && s[|s| - 1] != sep
    decreases |parts|
  {
    if |parts| > 1 {
      LastOfJoinWith(parts[1..], sep);
    }
  }

  /** Python orders paths by comparing their component lists, each
      component as a `str`. */
  predicate PartsLess(a: seq<string>, b: seq<string>)
  {
    b != [] && (a == [] || StrLess(a[0], b[0]) || (a[0] == b[0] && PartsLess(a[1..], b[1..])))
  }

  /** `a < b` on paths. */
  predicate PathLess(a: Path, b: Path)
  {
    PartsLess(Parts(a), Parts(b))
  }

  lemma {:induction false} PartsLessIrreflexive(a: seq<string>)
    ensures !PartsLess(a, a)
  {
    if a != [] {
      StrLessIrreflexive(a[0]);
      PartsLessIrreflexive(a[1..]);
    }
  }

  lemma {:induction false} PartsLessTransitive(a: seq<string>, b: seq<string>, c: seq<string>)
    requires PartsLess(a, b) && PartsLess(b, c)
    ensures PartsLess(a, c)
  {
    if a != [] {
      if StrLess(a[0], b[0]) && StrLess(b[0], c[0]) {
        StrLessTransitive(a[0], b[0], c[0]);
      } else if a[0] == b[0] && b[0] == c[0] {
        PartsLessTransitive(a[1..], b[1..], c[1..]);
      }
    }
  }

  lemma {:induction false} PartsLessTotal(a: seq<string>, b: seq<string>)
    ensures a == b || PartsLess(a, b) || PartsLess(b, a)
  {
    if a != [] && b != [] {
      StrLessTotal(a[0], b[0]);
      if a[0] == b[0] {
        PartsLessTotal(a[1..], b[1..]);
        if a[1..] == b[1..] {
          assert a == [a[0]] + a[1..] && b == [b[0]] + b[1..];
        }
      }
    }
  }

  /** Path ordering is a strict total order: no path precedes itself,
      precedence chains, and of two different paths one comes first. The
      last needs the parts to determine the path, which the split/join round
      trip gives. */
  lemma PathLessIrreflexive(a: Path)
    ensures !PathLess(a, a)
  {
    PartsLessIrreflexive(Parts(a));
  }

  lemma PathLessTransitive(a: Path, b: Path, c: Path)
    requires PathLess(a, b) && PathLess(b, c)
    ensures PathLess(a, c)
  {
    PartsLessTransitive(Parts(a), Parts(b), Parts(c));
  }

  lemma PathLessTotal(a: Path, b: Path)
    ensures a == b || PathLess(a, b) || PathLess(b, a)
  {
    PartsLessTotal(Parts(a), Parts(b));
    if Parts(a) == Parts(b) {
      assert a.text == JoinWith(Parts(a), Separator) == b.text;
    }
  }
}
