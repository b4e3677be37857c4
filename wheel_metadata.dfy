/** The choice of the METADATA file inside a wheel archive (`HttpWheel.read` of
    src/crawl_wheel_deps_old.py): the archive members whose name contains "METADATA" are
    tried by increasing number of '/'-separated segments, then by name, and the first whose
    content holds the bytes of "Metadata-Version" is returned. */
module WheelMetadata {
  import opened Base
  import opened Strings
  import opened Ordering
  import opened Seqs

  newtype byte = x: int | 0 <= x < 256

  /** The members of a zip archive in central-directory order: name and content.  A name
      may occur more than once. */
  type Archive = seq<(string, seq<byte>)>

  /** A member name split on '/'. */
  type Path = seq<string>

  /** `b'Metadata-Version'`. */
  const MetadataVersion: seq<byte> := [77, 101, 116, 97, 100, 97, 116, 97, 45, 86, 101, 114, 115, 105, 111, 110]

  /** `archive.namelist()`. */
  function NameList(a: Archive): (names: seq<string>)
    ensures |names| == |a| && forall i :: 0 <= i < |a| ==> names[i] == a[i].0
  {
    seq(|a|, i requires 0 <= i < |a| => a[i].0)
  }

  /** `archive.read(name)`: the content of the last member with that name (the zip
      reader's name table keeps the last one); `None` where it raises `KeyError`. */
  function ReadMember(a: Archive, name: string): Option<seq<byte>>
    decreases |a|
  {
    if |a| == 0 then None
    else if a[|a| - 1].0 == name then Some(a[|a| - 1].1)
    else ReadMember(a[..|a| - 1], name)
  }

  lemma {:induction false} ReadMemberFound(a: Archive, name: string)
    ensures ReadMember(a, name).Some? <==> name in NameList(a)
    decreases |a|
  {
    if |a| > 0 {
      var n := |a| - 1;
      ReadMemberFound(a[..n], name);
      assert NameList(a) == NameList(a[..n]) + [a[n].0];
    }
  }

  /** `'METADATA' in x`. */
  function MentionsMetadata(name: string): bool { Contains(name, "METADATA") }

  function SplitPath(name: string): Path { Split(name, '/') }

  /** `'/'.join(path)`. */
  function JoinPath(path: Path): string {
    if |path| == 0 then "" else Join(path, '/')
  }

  /** `[x.split('/') for x in names if 'METADATA' in x]`. */
  function Candidates(names: seq<string>): seq<Path> {
    Map(SplitPath, Filter(MentionsMetadata, names))
  }

  /** The order of the tuples `(len(x), x)`: fewer segments first, then Python's list
      comparison of the segments. */
  predicate PathLe(x: Path, y: Path) {
    |x| < |y| || (|x| == |y| && LexLe(x, y, StrLt))
  }

  /** `[x[1] for x in sorted([(len(x), x) for x in tuples])]`. */
  function SortedCandidates(a: Archive): seq<Path> {
    InsertionSort(Candidates(NameList(a)), PathLe)
  }

  /** The content read for a path holds the marker. */
  predicate Marked(a: Archive, path: Path) {
    var data := ReadMember(a, JoinPath(path));
    data.Some? && Contains(data.value, MetadataVersion)
  }

  /** The loop over the sorted paths: the content of the first marked one. */
  function FirstMarked(a: Archive, paths: seq<Path>): Option<seq<byte>>
    decreases |paths|
  {
    if |paths| == 0 then None
    else if Marked(a, paths[0]) then ReadMember(a, JoinPath(paths[0]))
    else FirstMarked(a, paths[1..])
  }

  /** `HttpWheel.read`: the content of the first candidate, in sorted order, that holds
      `b'Metadata-Version'`; `None` (the implicit return) if there is none. */
  method ReadMetadata(a: Archive) returns (r: Option<seq<byte>>)
    ensures r == FirstMarked(a, SortedCandidates(a))
  {
    var paths := SortedCandidates(a);
    var k := 0;
    while k < |paths|
      invariant 0 <= k <= |paths|
      invariant FirstMarked(a, paths[k..]) == FirstMarked(a, paths)
    {
      assert paths[k..][1..] == paths[k + 1..];
      var candidate := JoinPath(paths[k]);
      var data := ReadMember(a, candidate);
      if data.Some? && Contains(data.value, MetadataVersion) {
        return data;
      }
      k := k + 1;
    }
    return None;
  }

  // ---------------------------------------------------------------------------------------
  // What the choice promises

  /** A member the loop would accept: its name mentions METADATA and its content (the last
      member of that name) holds the marker. */
  predicate Qualifies(a: Archive, name: string) {
    var data := ReadMember(a, name);
    MentionsMetadata(name) && data.Some? && Contains(data.value, MetadataVersion)
  }

  lemma PathLeTotalPreorder()
    ensures TotalPreorder(PathLe)
  {
    StrLtStrictTotal();
    LexStrictTotal(StrLt);
  }

  lemma PathLeRefl(x: Path)
    ensures PathLe(x, x)
  {
    StrLtStrictTotal();
    LexTotal(x, x, StrLt);
  }

  /** The sorted candidates are exactly the split names that mention METADATA. */
  lemma SortedCandidatesMember(a: Archive, p: Path)
    ensures p in SortedCandidates(a) <==> exists name :: name in NameList(a) && MentionsMetadata(name) && p == SplitPath(name)
  {
    var names := Filter(MentionsMetadata, NameList(a));
    var cs := Candidates(NameList(a));
    assert p in SortedCandidates(a) <==> p in cs by {
      assert p in SortedCandidates(a) <==> p in multiset(SortedCandidates(a));
    }
    if p in cs {
      var i :| 0 <= i < |cs| && cs[i] == p;
      assert names[i] in names;
      FilterMember(MentionsMetadata, NameList(a), names[i]);
    }
    if exists name :: name in NameList(a) && MentionsMetadata(name) && p == SplitPath(name) {
      var name :| name in NameList(a) && MentionsMetadata(name) && p == SplitPath(name);
      FilterMember(MentionsMetadata, NameList(a), name);
      var i :| 0 <= i < |names| && names[i] == name;
      assert cs[i] == p;
    }
  }

  /** Joining a split name gives the name back, so the path of a name qualifies exactly
      when the name does. */
  lemma MarkedSplit(a: Archive, name: string)
    requires MentionsMetadata(name)
    ensures JoinPath(SplitPath(name)) == name
    ensures Marked(a, SplitPath(name)) <==> Qualifies(a, name)
  {
    JoinSplit(name, '/');
  }

  /** `FirstMarked` finds nothing exactly when no path is marked. */
  lemma {:induction false} FirstMarkedNone(a: Archive, paths: seq<Path>)
    ensures FirstMarked(a, paths).None? <==> forall k :: 0 <= k < |paths| ==> !Marked(a, paths[k])
    decreases |paths|
  {
    if |paths| > 0 {
      FirstMarkedNone(a, paths[1..]);
      if !Marked(a, paths[0]) {
        forall k | 0 < k < |paths| ensures paths[k] == paths[1..][k - 1] {}
      }
    }
  }

  /** What `FirstMarked` finds is the content of a marked path, and no path before it is
      marked. */
  lemma {:induction false} FirstMarkedSome(a: Archive, paths: seq<Path>)
    requires FirstMarked(a, paths).Some?
    ensures exists k :: (0 <= k < |paths| && Marked(a, paths[k])
      && FirstMarked(a, paths) == ReadMember(a, JoinPath(paths[k]))
      && forall k' :: 0 <= k' < k ==> !Marked(a, paths[k']))
    decreases |paths|
  {
    if !Marked(a, paths[0]) {
      FirstMarkedSome(a, paths[1..]);
      var k :| 0 <= k < |paths[1..]| && Marked(a, paths[1..][k])
        && FirstMarked(a, paths[1..]) == ReadMember(a, JoinPath(paths[1..][k]))
        && forall k' :: 0 <= k' < k ==> !Marked(a, paths[1..][k']);
      forall k' | 0 <= k' < k + 1 ensures !Marked(a, paths[k']) {
        if k' > 0 { assert paths[k'] == paths[1..][k' - 1]; }
      }
      assert paths[k + 1] == paths[1..][k];
    } else {
      assert Marked(a, paths[0]);
    }
  }

  /** `read` returns nothing exactly when no member qualifies. */
  lemma ReadMetadataNone(a: Archive)
    ensures FirstMarked(a, SortedCandidates(a)).None? <==> forall name :: name in NameList(a) ==> !Qualifies(a, name)
  {
    var paths := SortedCandidates(a);
    FirstMarkedNone(a, paths);
    if FirstMarked(a, paths).None? {
      forall name | name in NameList(a) ensures !Qualifies(a, name) {
        if MentionsMetadata(name) {
          SortedCandidatesMember(a, SplitPath(name));
          MarkedSplit(a, name);
        }
      }
    } else {
      FirstMarkedSome(a, paths);
      var k :| 0 <= k < |paths| && Marked(a, paths[k]);
      var name := QualifyingName(a, paths[k]);
    }
  }

  /** A marked candidate path comes from a qualifying member name. */
  lemma QualifyingName(a: Archive, p: Path) returns (name: string)
    requires p in SortedCandidates(a) && Marked(a, p)
    ensures name in NameList(a) && Qualifies(a, name) && p == SplitPath(name)
    ensures ReadMember(a, JoinPath(p)) == ReadMember(a, name)
  {
    SortedCandidatesMember(a, p);
    name :| name in NameList(a) && MentionsMetadata(name) && p == SplitPath(name);
    MarkedSplit(a, name);
  }

  /** When `read` returns a content, it is the content of a qualifying member, and every
      qualifying member has at least as many segments (and, with as many, a name that is not
      smaller, segment by segment). */
  lemma ReadMetadataSome(a: Archive)
    requires FirstMarked(a, SortedCandidates(a)).Some?
    ensures exists name :: (name in NameList(a) && Qualifies(a, name)
      && FirstMarked(a, SortedCandidates(a)) == ReadMember(a, name)
      && forall other :: other in NameList(a) && Qualifies(a, other) ==> PathLe(SplitPath(name), SplitPath(other)))
  {
    var paths := SortedCandidates(a);
    FirstMarkedSome(a, paths);
    var k :| 0 <= k < |paths| && Marked(a, paths[k])
      && FirstMarked(a, paths) == ReadMember(a, JoinPath(paths[k]))
      && forall k' :: 0 <= k' < k ==> !Marked(a, paths[k']);
    var name := QualifyingName(a, paths[k]);
    PathLeTotalPreorder();
    SortSorted(Candidates(NameList(a)), PathLe);
    forall other | other in NameList(a) && Qualifies(a, other) ensures PathLe(SplitPath(name), SplitPath(other)) {
      SortedCandidatesMember(a, SplitPath(other));
      MarkedSplit(a, other);
      FirstMarkedLeast(a, paths, k, SplitPath(other));
    }
  }

  /** In a sorted list, the first marked path precedes every marked path. */
  lemma FirstMarkedLeast(a: Archive, paths: seq<Path>, k: int, p: Path)
    requires SortedBy(paths, PathLe) && 0 <= k < |paths|
    requires forall k' :: 0 <= k' < k ==> !Marked(a, paths[k'])
    requires p in paths && Marked(a, p)
    ensures PathLe(paths[k], p)
  {
    var k' :| 0 <= k' < |paths| && paths[k'] == p;
    if k' == k {
      PathLeRefl(p);
    }
  }

  /** In particular the content comes from a member with the fewest segments among the
      qualifying ones. */
  lemma ReadMetadataFewestSegments(a: Archive, other: string)
    requires FirstMarked(a, SortedCandidates(a)).Some?
    requires other in NameList(a) && Qualifies(a, other)
    ensures exists name :: (name in NameList(a) && Qualifies(a, name)
      && FirstMarked(a, SortedCandidates(a)) == ReadMember(a, name)
      && |SplitPath(name)| <= |SplitPath(other)|)
  {
    ReadMetadataSome(a);
    var name :| name in NameList(a) && Qualifies(a, name)
      && FirstMarked(a, SortedCandidates(a)) == ReadMember(a, name)
      && forall other :: other in NameList(a) && Qualifies(a, other) ==> PathLe(SplitPath(name), SplitPath(other));
    assert PathLe(SplitPath(name), SplitPath(other));
  }
}
