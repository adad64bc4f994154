/** The Python `str` operations the URDF checks rely on: `str.strip()`,
    `str.startswith`, `str.partition`, `str.split` and the code-point
    ordering of `str` values. */
module Text {

  /** The characters `str.isspace()` accepts, which are the ones a bare
      `str.strip()` removes. */
  predicate IsSpace(c: char)
  {
    || ('\t' <= c <= '\r')                  // tab, line feed, vertical tab, form feed, carriage return
    || ('\U{1C}' <= c <= '\U{1F}')          // file, group, record and unit separators
    || c == ' ' || c == '\U{85}' || c == '\U{A0}' || c == '\U{1680}'
    || ('\U{2000}' <= c <= '\U{200A}')
    || c == '\U{2028}' || c == '\U{2029}' || c == '\U{202F}' || c == '\U{205F}' || c == '\U{3000}'
  }

  predicate AllSpace(s: string)
  {
    forall i :: 0 <= i < |s| ==> IsSpace(s[i])
  }

  /** Neither starts nor ends with whitespace. */
  predicate Stripped(s: string)
  {
    s == [] || (!IsSpace(s[0]) && !IsSpace(s[|s| - 1]))
  }

  predicate StartsWith(s: string, prefix: string)
  {
    prefix <= s
  }

  predicate EndsWith(s: string, suffix: string)
  {
    |suffix| <= |s| && s[|s| - |suffix|..] == suffix
  }

  /** `s.lstrip()`: the suffix left after dropping leading whitespace. */
  function TrimStart(s: string): string
  {
    if s != [] && IsSpace(s[0]) then TrimStart(s[1..]) else s
  }

  /** `s.rstrip()`: the prefix left after dropping trailing whitespace. */
  function TrimEnd(s: string): string
  {
    if s != [] && IsSpace(s[|s| - 1]) then TrimEnd(s[..|s| - 1]) else s
  }

  /** `s.strip()`: whitespace removed from both ends. */
  function Strip(s: string): string
  {
    TrimEnd(TrimStart(s))
  }

  /** `lstrip` drops a whitespace-only prefix and stops at the first other
      character; the result is empty exactly when `s` is all whitespace. */
  lemma {:induction false} TrimStartSpec(s: string)
    ensures var r := TrimStart(s);
      && |r| <= |s| && r == s[|s| - |r|..]
      && AllSpace(s[..|s| - |r|])
      && (r != [] ==> !IsSpace(r[0]))
      && (r == [] <==> AllSpace(s))
  {
    if s != [] && IsSpace(s[0]) {
      TrimStartSpec(s[1..]);
      var r := TrimStart(s[1..]);
      assert s[..|s| - |r|] == [s[0]] + s[1..][..|s[1..]| - |r|];
    }
  }

  /** `rstrip` drops a whitespace-only suffix and stops at the last other
      character; the result is empty exactly when `s` is all whitespace. */
  lemma {:induction false} TrimEndSpec(s: string)
    ensures var r := TrimEnd(s);
      && |r| <= |s| && r == s[..|r|]
      && AllSpace(s[|r|..])
      && (r != [] ==> !IsSpace(r[|r| - 1]))
      && (r == [] <==> AllSpace(s))
  {
    if s != [] && IsSpace(s[|s| - 1]) {
      TrimEndSpec(s[..|s| - 1]);
      var r := TrimEnd(s[..|s| - 1]);
      assert s[|r|..] == s[..|s| - 1][|r|..] + [s[|s| - 1]];
    }
  }

  /** The result of `strip` is stripped, no longer than its input, and empty
      exactly when the input is all whitespace. */
  lemma StripSpec(s: string)
    ensures |Strip(s)| <= |s|
    ensures Stripped(Strip(s))
    ensures Strip(s) == [] <==> AllSpace(s)
  {
    var t := TrimStart(s);
    TrimStartSpec(s);
    TrimEndSpec(t);
    var r := TrimEnd(t);
    assert r != [] ==> r[0] == t[0];
  }

  lemma {:induction false} TrimStartSkips(s: string, i: nat)
    requires i <= |s| && AllSpace(s[..i])
    requires i == |s| || !IsSpace(s[i])
    ensures TrimStart(s) == s[i..]
    decreases i
  {
    if i > 0 {
      assert IsSpace(s[..i][0]);
      assert s[1..][..i - 1] == s[..i][1..];
      TrimStartSkips(s[1..], i - 1);
      assert s[1..][i - 1..] == s[i..];
    }
  }

  lemma {:induction false} TrimEndSkips(s: string, j: nat)
    requires j <= |s| && AllSpace(s[j..])
    requires j == 0 || !IsSpace(s[j - 1])
    ensures TrimEnd(s) == s[..j]
    decreases |s| - j
  {
    if j < |s| {
      assert IsSpace(s[j..][|s| - 1 - j]);
      assert s[..|s| - 1][j..] == s[j..][..|s| - 1 - j];
      TrimEndSkips(s[..|s| - 1], j);
      assert s[..|s| - 1][..j] == s[..j];
    }
  }

  /** `strip` removes whitespace from the ends and nothing else: the result
      is the infix of `s` that is left once a whitespace-only prefix and a
      whitespace-only suffix are taken off. */
  lemma StripIsTrimmedInfix(s: string)
    ensures exists i, j :: 0 <= i <= j <= |s| && Strip(s) == s[i..j] && AllSpace(s[..i]) && AllSpace(s[j..])
  {
    var t := TrimStart(s);
    var r := TrimEnd(t);
    TrimStartSpec(s);
    TrimEndSpec(t);
    var i := |s| - |t|;
    var j := i + |r|;
    assert t == s[i..];
    assert r == s[i..j];
    assert s[j..] == t[|r|..];
  }

  /** The converse: any stripped infix with whitespace-only margins is what
      `strip` returns. Together with `StripIsTrimmedInfix` this defines
      `Strip` independently of how it is computed. */
  lemma StripUnique(s: string, i: nat, j: nat)
    requires i <= j <= |s|
    requires AllSpace(s[..i]) && AllSpace(s[j..]) && Stripped(s[i..j])
    ensures Strip(s) == s[i..j]
  {
    if i == j {
      assert s == s[..i] + s[j..];
      AllSpaceAppend(s[..i], s[j..]);
      StripSpec(s);
    } else {
      var m, t := s[i..j], s[i..];
      assert t[..j - i] == m && t[j - i..] == s[j..];
      assert !IsSpace(s[i]) by { assert s[i] == m[0]; }
      assert !IsSpace(t[j - i - 1]) by { assert t[j - i - 1] == m[|m| - 1]; }
      TrimStartSkips(s, i);
      TrimEndSkips(t, j - i);
    }
  }

  lemma AllSpaceAppend(a: string, b: string)
    requires AllSpace(a) && AllSpace(b)
    ensures AllSpace(a + b)
  {
    forall k | 0 <= k < |a + b| ensures IsSpace((a + b)[k]) {
      if k < |a| { assert (a + b)[k] == a[k]; } else { assert (a + b)[k] == b[k - |a|]; }
    }
  }

  /** Stripping twice is stripping once. */
  lemma StripIdempotent(s: string)
    ensures Strip(Strip(s)) == Strip(s)
  {
    var r := Strip(s);
    StripSpec(s);
    assert r[..0] == [] && r[|r|..] == [] && r[0..|r|] == r;
    StripUnique(r, 0, |r|);
  }

  /** `s.partition(sep)` for a one-character separator: the part before the
      first `sep`, the separator itself, and the rest; when `sep` does not
      occur, `(s, "", "")`. */
  function Partition(s: string, sep: char): (r: (string, string, string))
    ensures r.0 + r.1 + r.2 == s
    ensures sep !in r.0
    ensures r.1 == [sep] || (r.1 == [] && r.2 == [])
  {
    if s == [] then ([], [], [])
    else if s[0] == sep then ([], [sep], s[1..])
    else
      var (head, mid, tail) := Partition(s[1..], sep);
      assert [s[0]] + head + mid + tail == s;
      ([s[0]] + head, mid, tail)
  }

  /** The split happens at the FIRST separator, whatever the tail holds. */
  lemma {:induction false} PartitionAtFirst(head: string, sep: char, tail: string)
    requires sep !in head
    ensures Partition(head + [sep] + tail, sep) == (head, [sep], tail)
    decreases |head|
  {
    if head != [] {
      assert (head + [sep] + tail)[1..] == head[1..] + [sep] + tail;
      PartitionAtFirst(head[1..], sep, tail);
      assert [head[0]] + head[1..] == head;
    }
  }

  /** Without the separator, the whole string is the head. */
  lemma {:induction false} PartitionAbsent(s: string, sep: char)
    requires sep !in s
    ensures Partition(s, sep) == (s, [], [])
    decreases |s|
  {
    if s != [] {
      PartitionAbsent(s[1..], sep);
      assert [s[0]] + s[1..] == s;
    }
  }

  /** `sep.join(parts)`. */
  function JoinWith(parts: seq<string>, sep: char): (s: string)
    requires |parts| >= 1
  {
    if |parts| == 1 then parts[0] else parts[0] + [sep] + JoinWith(parts[1..], sep)
  }

  /** `s.split(sep)`: always at least one part, no part holds the separator,
      and joining the parts gives `s` back. */
  function Split(s: string, sep: char): (parts: seq<string>)
    ensures |parts| >= 1
    ensures forall i :: 0 <= i < |parts| ==> sep !in parts[i]
    ensures JoinWith(parts, sep) == s
    decreases |s|
  {
    var (head, mid, tail) := Partition(s, sep);
    if mid == [] then [head] else [head] + Split(tail, sep)
  }

  /** The other direction of the round trip: splitting a join of
      separator-free parts gives those parts back. */
  lemma {:induction false} SplitJoinWith(parts: seq<string>, sep: char)
    requires |parts| >= 1
    requires forall i :: 0 <= i < |parts| ==> sep !in parts[i]
    ensures Split(JoinWith(parts, sep), sep) == parts
    decreases |parts|
  {
    if |parts| == 1 {
      PartitionAbsent(parts[0], sep);
    } else {
      PartitionAtFirst(parts[0], sep, JoinWith(parts[1..], sep));
      SplitJoinWith(parts[1..], sep);
    }
  }

  lemma {:induction false} JoinWithSnoc(parts: seq<string>, last: string, sep: char)
    requires |parts| >= 1
    ensures JoinWith(parts + [last], sep) == JoinWith(parts, sep) + [sep] + last
    decreases |parts|
  {
    if |parts| > 1 {
      assert (parts + [last])[1..] == parts[1..] + [last];
      JoinWithSnoc(parts[1..], last, sep);
    }
  }

  /** Python's `a < b` on `str`: lexicographic by code point, a proper
      prefix coming first. */
  predicate StrLess(a: string, b: string)
  {
    b != [] && (a == [] || a[0] < b[0] || (a[0] == b[0] && StrLess(a[1..], b[1..])))
  }

  lemma {:induction false} StrLessIrreflexive(a: string)
    ensures !StrLess(a, a)
  {
    if a != [] {
      StrLessIrreflexive(a[1..]);
    }
  }

  lemma {:induction false} StrLessTransitive(a: string, b: string, c: string)
    requires StrLess(a, b) && StrLess(b, c)
    ensures StrLess(a, c)
  {
    if a != [] && a[0] == b[0] && b[0] == c[0] {
      StrLessTransitive(a[1..], b[1..], c[1..]);
    }
  }

  lemma {:induction false} StrLessTotal(a: string, b: string)
    ensures a == b || StrLess(a, b) || StrLess(b, a)
  {
    if a != [] && b != [] && a[0] == b[0] {
      StrLessTotal(a[1..], b[1..]);
      if a[1..] == b[1..] {
        assert a == [a[0]] + a[1..] && b == [b[0]] + b[1..];
      }
    }
  }
}
