/** `convertModulePathToPublicAPIImport`: the public import name of a module, taken from
    its path with the regular expression `/\/projects\/(.*)(\/)/` (no flags). The regular
    expression is modelled for this one pattern only: the leftmost start position where
    `/projects/` occurs and the greedy `.*` can still be followed by a `/` wins, and `.`
    matches every character except the four JavaScript line terminators. */
module PublicApi {
  import opened Optional

  const Marker: string := "/projects/"

  /** The characters that `.` does not match without the `s` flag. */
  predicate IsLineTerminator(c: char)
  {
    c == '\n' || c == '\r' || c == '\U{2028}' || c == '\U{2029}'
  }

  predicate MarkerAt(s: string, i: nat)
  {
    i + |Marker| <= |s| && s[i..i + |Marker|] == Marker
  }

  /** First position at or after `from` where `/projects/` occurs. */
  function FindMarker(s: string, from: nat): (r: Option<nat>)
    decreases |s| - from
    ensures r.Some? ==> from <= r.value && MarkerAt(s, r.value)
    ensures r.Some? ==> forall j :: from <= j < r.value ==> !MarkerAt(s, j)
    ensures r.None? ==> forall j :: from <= j ==> !MarkerAt(s, j)
  {
    if |s| < from + |Marker| then None
    else if MarkerAt(s, from) then Some(from)
    else FindMarker(s, from + 1)
  }

  /** End of the run of characters, starting at `from`, that `.` can match. */
  function LineEnd(s: string, from: nat): (r: nat)
    requires from <= |s|
    decreases |s| - from
    ensures from <= r <= |s|
    ensures forall j :: from <= j < r ==> !IsLineTerminator(s[j])
    ensures r < |s| ==> IsLineTerminator(s[r])
  {
    if from == |s| || IsLineTerminator(s[from]) then from else LineEnd(s, from + 1)
  }

  /** Position of the last `/` in `s[lo..hi]`: where greedy `.*(\/)` stops. */
  function LastSlash(s: string, lo: nat, hi: nat): (r: Option<nat>)
    requires lo <= hi <= |s|
    decreases hi - lo
    ensures r.Some? ==> lo <= r.value < hi && s[r.value] == '/'
    ensures r.Some? ==> forall j :: r.value < j < hi ==> s[j] != '/'
    ensures r.None? ==> forall j :: lo <= j < hi ==> s[j] != '/'
  {
    if lo == hi then None
    else if s[hi - 1] == '/' then Some(hi - 1)
    else LastSlash(s, lo, hi - 1)
  }

  /** The first capture group of the leftmost match starting at or after `from`. */
  function ExecFrom(s: string, from: nat): (r: Option<string>)
    decreases |s| - from
    ensures r.Some? ==> exists i: nat, k: nat :: from <= i && Captures(s, i, k) && r.value == s[i + |Marker|..k]
  {
    match FindMarker(s, from)
    case None => None
    case Some(i) =>
      var b := i + |Marker|;
      match LastSlash(s, b, LineEnd(s, b))
      case Some(k) =>
        assert Captures(s, i, k);
        Some(s[b..k])
      case None => ExecFrom(s, i + 1)
  }

  /** `/projects/` at `i`, then a run of characters `.` can match, then a `/` at `k`. */
  predicate Captures(s: string, i: nat, k: nat)
  {
    && MarkerAt(s, i)
    && i + |Marker| <= k < |s| && s[k] == '/'
    && forall j :: i + |Marker| <= j < k ==> !IsLineTerminator(s[j])
  }

  /** `pathSegments && pathSegments.length ? pathSegments[1] : ''`: a successful `exec`
      always has three entries, so the capture is returned whenever there is a match. */
  function ConvertModulePathToPublicApiImport(modulePath: string): (r: string)
    ensures r == "" || exists i: nat, k: nat :: Captures(modulePath, i, k) && r == modulePath[i + |Marker|..k]
  {
    match ExecFrom(modulePath, 0)
    case Some(name) => name
    case None => ""
  }

  predicate NoLineTerminators(s: string)
  {
    forall j :: 0 <= j < |s| ==> !IsLineTerminator(s[j])
  }

  /** On a path without line terminators, the public name is exactly the text between the
      first `/projects/` and the last `/` after it. */
  lemma PublicNameBetweenFirstMarkerAndLastSlash(path: string, i: nat, k: nat)
    requires NoLineTerminators(path)
    requires MarkerAt(path, i) && forall j :: 0 <= j < i ==> !MarkerAt(path, j)
    requires i + |Marker| <= k < |path| && path[k] == '/'
    requires forall j :: k < j < |path| ==> path[j] != '/'
    ensures ConvertModulePathToPublicApiImport(path) == path[i + |Marker|..k]
  {
    var b := i + |Marker|;
    assert FindMarker(path, 0) == Some(i);
    assert LineEnd(path, b) == |path|;
    assert LastSlash(path, b, |path|) == Some(k);
  }

  /** On a path without line terminators where no `/projects/` is followed by another `/`,
      the public name is the empty string. */
  lemma PublicNameEmptyWithoutMatch(path: string)
    requires NoLineTerminators(path)
    requires forall i: nat :: MarkerAt(path, i) ==> forall k :: i + |Marker| <= k < |path| ==> path[k] != '/'
    ensures ConvertModulePathToPublicApiImport(path) == ""
  {
    NoMatchFrom(path, 0);
  }

  lemma {:induction false} NoMatchFrom(path: string, from: nat)
    requires NoLineTerminators(path)
    requires forall i: nat :: MarkerAt(path, i) ==> forall k :: i + |Marker| <= k < |path| ==> path[k] != '/'
    decreases |path| - from
    ensures ExecFrom(path, from).None?
  {
    match FindMarker(path, from)
    case None =>
    case Some(i) =>
      var b := i + |Marker|;
      assert LineEnd(path, b) == |path|;
      assert LastSlash(path, b, |path|).None?;
      NoMatchFrom(path, i + 1);
  }

  /** A module root laid out as `<prefix>/projects/<name>/`, with no earlier `/projects/`
      and no `/` inside the name, has public name `<name>`: `/ws/projects/lib-b/` gives
      `lib-b`. */
  lemma PublicNameOfModuleRoot(prefix: string, name: string)
    requires NoLineTerminators(prefix) && NoLineTerminators(name)
    requires forall j :: 0 <= j < |prefix| ==> !MarkerAt(prefix + Marker, j)
    requires forall j :: 0 <= j < |name| ==> name[j] != '/'
    ensures ConvertModulePathToPublicApiImport(prefix + Marker + name + "/") == name
  {
    var path := prefix + Marker + name + "/";
    var i := |prefix|;
    var k := |path| - 1;
    assert path[i..i + |Marker|] == Marker;
    var head := prefix + Marker;
    assert path == head + (name + "/");
    assert path[..|head|] == head;
    forall j | 0 <= j < i ensures !MarkerAt(path, j) {
      assert !MarkerAt(head, j);
      assert j + |Marker| <= |head|;
      assert path[j..j + |Marker|] == head[j..j + |Marker|];
    }
    forall j | 0 <= j < |path| ensures !IsLineTerminator(path[j]) {
      if j < i {
        assert path[j] == prefix[j];
      } else if j < i + |Marker| {
        assert path[j] == Marker[j - i];
      } else if j < k {
        assert path[j] == name[j - i - |Marker|];
      }
    }
    PublicNameBetweenFirstMarkerAndLastSlash(path, i, k);
    assert path[i + |Marker|..k] == name;
  }

  /** `.*` is greedy: for a path below the module root the name runs up to the last `/`,
      not to the first one after `/projects/`; `/projects/lib-b/src/x.ts` gives `lib-b/src`. */
  lemma GreedyCapture(outer: string, inner: string, file: string)
    requires NoLineTerminators(outer) && NoLineTerminators(inner) && NoLineTerminators(file)
    requires forall j :: 0 <= j < |file| ==> file[j] != '/'
    ensures ConvertModulePathToPublicApiImport(Marker + outer + "/" + inner + "/" + file) == outer + "/" + inner
  {
    var name := outer + "/" + inner;
    forall j | 0 <= j < |name| ensures !IsLineTerminator(name[j]) {
      if j < |outer| {
        assert name[j] == outer[j];
      } else if j > |outer| {
        assert name[j] == inner[j - |outer| - 1];
      }
    }
    assert Marker + outer + "/" + inner + "/" + file == Marker + name + "/" + file;
    PublicNameBeforeFileName(name, file);
  }

  /** `/projects/<name>/<file>` with no `/` in the file name gives `<name>`, whatever `/`s
      the name holds. */
  lemma PublicNameBeforeFileName(name: string, file: string)
    requires NoLineTerminators(name) && NoLineTerminators(file)
    requires forall j :: 0 <= j < |file| ==> file[j] != '/'
    ensures ConvertModulePathToPublicApiImport(Marker + name + "/" + file) == name
  {
    var head := Marker + name;
    var path := head + ("/" + file);
    assert path == Marker + name + "/" + file;
    var k := |head|;
    assert path[..k] == head;
    assert path[..|Marker|] == Marker by { assert head[..|Marker|] == Marker; }
    assert MarkerAt(path, 0);
    forall j | k < j < |path| ensures path[j] != '/' {
      assert path[j] == file[j - k - 1];
    }
    SingleLinePath(name, file);
    PublicNameBetweenFirstMarkerAndLastSlash(path, 0, k);
    assert path[|Marker|..k] == head[|Marker|..];
  }

  lemma SingleLinePath(name: string, file: string)
    requires NoLineTerminators(name) && NoLineTerminators(file)
    ensures NoLineTerminators((Marker + name) + ("/" + file))
  {
    var path := (Marker + name) + ("/" + file);
    var k := |Marker| + |name|;
    forall j | 0 <= j < |path| ensures !IsLineTerminator(path[j]) {
      if j < |Marker| {
        assert path[j] == Marker[j];
      } else if j < k {
        assert path[j] == name[j - |Marker|];
      } else if j > k {
        assert path[j] == file[j - k - 1];
      }
    }
  }

  /** A `/projects/` with no `/` after it on the same line does not match, but a later one
      can: a line terminator before the last `/` makes the regular expression move on. */
  lemma LineTerminatorExample()
    ensures ConvertModulePathToPublicApiImport(TwoLines) == "b"
  {
    SecondLineMatches();
    FirstLineFails();
  }

  lemma FirstLineFails()
    ensures ExecFrom(TwoLines, 0) == ExecFrom(TwoLines, 1)
  {
    assert FindMarker(TwoLines, 0) == Some(0) by { assert MarkerAt(TwoLines, 0); }
    assert LineEnd(TwoLines, 10) == 11;
    assert LastSlash(TwoLines, 10, 11).None?;
  }

  const TwoLines: string := "/projects/a\n/projects/b/"

  lemma SecondLineMatches()
    ensures ExecFrom(TwoLines, 1) == Some("b")
  {
    SecondMarker();
    assert LineEnd(TwoLines, 22) == 24;
    assert LastSlash(TwoLines, 22, 24) == Some(23);
    assert TwoLines[22..23] == "b";
  }

  lemma SecondMarker()
    ensures FindMarker(TwoLines, 1) == Some(12)
  {
    var p := TwoLines;
    assert MarkerAt(p, 12) by { assert p[12..22] == Marker; }
    forall j: nat | 1 <= j < 12 ensures !MarkerAt(p, j) {
      NotMarkerAt(p, j);
    }
  }

  lemma NotMarkerAt(s: string, i: nat)
    requires i + 1 < |s| && (s[i] != '/' || s[i + 1] != 'p')
    ensures !MarkerAt(s, i)
  {
    if i + |Marker| <= |s| {
      assert s[i..i + |Marker|][0] == s[i] && s[i..i + |Marker|][1] == s[i + 1];
    }
  }
}
