/** Download jobs: the three `construct_url` variants, the job lists built from one bucket
    of the registry (`WheelSpider.start_requests` of src/wheel_deps_spider.py, `get_jobs` of
    src/crawl_wheel_deps_old.py and of src/crawl_wheel_deps.py), and the bucket-skip test of
    `main.spiders`.

    The registry maps name -> version -> release types; of the release types only the
    'wheels' entry (filename -> data list) is read.  `pypi_dict.by_bucket(bucket)` yields the
    packages of one bucket, and `pypi_dict[name]` reads the same releases, so a bucket is
    given as its list of (name, releases) items. */
module Jobs {
  import opened Base
  import opened Strings
  import opened Seqs
  import opened Dedup
  import opened Merge

  // ---------------------------------------------------------------------------------------
  // URLs

  const FilesPackages: string := "https://files.pythonhosted.org/packages/"
  const PypiPackages: string := "https://pypi.org/packages/"

  /** `{pyver}/{name[0]}/{name}/{filename}`: the part after the host. */
  function PackagePath(pyver: string, name: string, filename: string): string
    requires |name| > 0
  {
    pyver + "/" + [name[0]] + "/" + name + "/" + filename
  }

  /** `construct_url` of the spider and of the old crawler. */
  function ConstructUrl(name: string, pyver: string, filename: string): (url: string)
    requires |name| > 0
    ensures StartsWith(url, FilesPackages) && EndsWith(url, "/" + filename)
  {
    FilesPackages + PackagePath(pyver, name, filename)
  }

  /** The path splits back on '/' into pyver, first letter, name and filename. */
  lemma PackagePathSplit(pyver: string, name: string, filename: string)
    requires |name| > 0 && '/' !in pyver && '/' !in name && '/' !in filename
    ensures Split(PackagePath(pyver, name, filename), '/') == [pyver, name[..1], name, filename]
  {
    var path := PackagePath(pyver, name, filename);
    assert name[..1] == [name[0]];
    assert '/' !in name[..1];
    assert path == pyver + ['/'] + (name[..1] + ['/'] + (name + ['/'] + filename));
    SplitPrefix(name, filename, '/');
    SplitNoSep(filename, '/');
    SplitPrefix(name[..1], name + ['/'] + filename, '/');
    SplitPrefix(pyver, name[..1] + ['/'] + (name + ['/'] + filename), '/');
  }

  /** A spider URL parses back into the arguments it was built from. */
  lemma ConstructUrlParse(name: string, pyver: string, filename: string)
    requires |name| > 0 && '/' !in pyver && '/' !in name && '/' !in filename
    ensures var url := ConstructUrl(name, pyver, filename);
      url[..|FilesPackages|] == FilesPackages &&
      Split(url[|FilesPackages|..], '/') == [pyver, name[..1], name, filename]
  {
    var url := ConstructUrl(name, pyver, filename);
    assert url[|FilesPackages|..] == PackagePath(pyver, name, filename);
    PackagePathSplit(pyver, name, filename);
  }

  /** The third '-'-separated field of a wheel filename. */
  function PyverOf(filename: string): string
    requires |Split(filename, '-')| >= 3
  {
    Split(filename, '-')[2]
  }

  /** For a filename `{name}-{ver}-{pyver}-...` whose fields hold no '-', the field read is
      the pyver field. */
  lemma PyverOfFields(fields: seq<string>)
    requires |fields| >= 3 && forall f :: f in fields ==> '-' !in f
    ensures |Split(Join(fields, '-'), '-')| >= 3 && PyverOf(Join(fields, '-')) == fields[2]
  {
    SplitJoin(fields, '-');
  }

  /** `construct_url` of src/crawl_wheel_deps.py: the pyver comes from the filename. */
  function PypiUrl(name: string, filename: string): (url: string)
    requires |name| > 0 && |Split(filename, '-')| >= 3
    ensures StartsWith(url, PypiPackages) && EndsWith(url, "/" + filename)
  {
    PypiPackages + PackagePath(PyverOf(filename), name, filename)
  }

  /** A pypi.org URL parses back into the filename's pyver field, first letter, name and
      filename. */
  lemma PypiUrlParse(name: string, filename: string)
    requires |name| > 0 && |Split(filename, '-')| >= 3
    requires '/' !in name && '/' !in filename
    ensures var url := PypiUrl(name, filename);
      url[..|PypiPackages|] == PypiPackages &&
      Split(url[|PypiPackages|..], '/') == [Split(filename, '-')[2], name[..1], name, filename]
  {
    var url := PypiUrl(name, filename);
    assert url[|PypiPackages|..] == PackagePath(PyverOf(filename), name, filename);
    assert forall c :: c in PyverOf(filename) ==> c in filename by {
      SplitParts(filename, '-');
    }
    PackagePathSplit(PyverOf(filename), name, filename);
  }

  /** Every character of a split's part comes from the string. */
  lemma {:induction false} SplitParts(s: string, sep: char)
    ensures forall p, c :: p in Split(s, sep) && c in p ==> c in s
  {
    if |s| > 0 {
      SplitParts(s[1..], sep);
    }
  }

  // ---------------------------------------------------------------------------------------
  // The wheels of a bucket

  /** The release types of one version: the 'wheels' entry, filename -> data list, if any. */
  datatype ReleaseTypes = ReleaseTypes(wheels: Option<seq<(string, seq<string>)>>)

  type Releases = seq<(string, ReleaseTypes)>   // version -> release types
  type Registry = seq<(string, Releases)>       // name -> releases, for one bucket

  /** One wheel file of the registry, where the job loops find it. */
  datatype Wheel = Wheel(name: string, ver: string, filename: string, data: seq<string>)

  function VersionWheels(name: string, v: (string, ReleaseTypes)): seq<Wheel> {
    match v.1.wheels
    case None => []
    case Some(ws) => seq(|ws|, k requires 0 <= k < |ws| => Wheel(name, v.0, ws[k].0, ws[k].1))
  }

  /** The wheels of package `name`, version by version. */
  function ReleaseWheels(name: string, vs: Releases): seq<Wheel> {
    if |vs| == 0 then []
    else ReleaseWheels(name, vs[..|vs| - 1]) + VersionWheels(name, vs[|vs| - 1])
  }

  function PackageWheels(p: (string, Releases)): seq<Wheel> {
    ReleaseWheels(p.0, p.1)
  }

  /** The wheels in the loops' order: package by package, version by version. */
  function BucketWheels(b: Registry): seq<Wheel> {
    Flatten(Map(PackageWheels, b))
  }

  /** `w` is a wheel file of the bucket: its package, one of that package's versions having
      'wheels', and one entry of those wheels. */
  ghost predicate WheelIn(b: Registry, w: Wheel) {
    exists p, v, fd ::
      p in b && v in p.1 && v.1.wheels.Some? && fd in v.1.wheels.value &&
      w == Wheel(p.0, v.0, fd.0, fd.1)
  }

  lemma VersionWheelsMember(name: string, v: (string, ReleaseTypes), w: Wheel)
    ensures w in VersionWheels(name, v) <==>
      v.1.wheels.Some? && exists fd :: fd in v.1.wheels.value && w == Wheel(name, v.0, fd.0, fd.1)
  {
    if v.1.wheels.Some? {
      var ws := v.1.wheels.value;
      var vw := VersionWheels(name, v);
      if w in vw {
        var k :| 0 <= k < |vw| && vw[k] == w;
        assert ws[k] in ws;
      }
      if exists fd :: fd in ws && w == Wheel(name, v.0, fd.0, fd.1) {
        var fd :| fd in ws && w == Wheel(name, v.0, fd.0, fd.1);
        var k :| 0 <= k < |ws| && ws[k] == fd;
        assert vw[k] == w;
      }
    }
  }

  /** A wheel of a package's releases comes from one of its versions, and every wheel of
      every version is among them. */
  lemma ReleaseWheelsMember(name: string, vs: Releases, w: Wheel)
    ensures w in ReleaseWheels(name, vs) <==> exists i :: 0 <= i < |vs| && w in VersionWheels(name, vs[i])
  {
    if w in ReleaseWheels(name, vs) {
      ReleaseWheelsSource(name, vs, w);
    }
    if exists i :: 0 <= i < |vs| && w in VersionWheels(name, vs[i]) {
      var i :| 0 <= i < |vs| && w in VersionWheels(name, vs[i]);
      ReleaseWheelsTarget(name, vs, i, w);
    }
  }

  lemma {:induction false} ReleaseWheelsSource(name: string, vs: Releases, w: Wheel)
    requires w in ReleaseWheels(name, vs)
    ensures exists i :: 0 <= i < |vs| && w in VersionWheels(name, vs[i])
    decreases |vs|
  {
    var n := |vs| - 1;
    if w in ReleaseWheels(name, vs[..n]) {
      ReleaseWheelsSource(name, vs[..n], w);
      var i :| 0 <= i < n && w in VersionWheels(name, vs[..n][i]);
      assert vs[..n][i] == vs[i];
    } else {
      assert w in VersionWheels(name, vs[n]);
    }
  }

  lemma {:induction false} ReleaseWheelsTarget(name: string, vs: Releases, i: int, w: Wheel)
    requires 0 <= i < |vs| && w in VersionWheels(name, vs[i])
    ensures w in ReleaseWheels(name, vs)
    decreases |vs|
  {
    var n := |vs| - 1;
    if i < n {
      assert vs[..n][i] == vs[i];
      ReleaseWheelsTarget(name, vs[..n], i, w);
    }
  }

  /** A wheel the loops visit is a wheel file of the bucket. */
  lemma BucketWheelSource(b: Registry, w: Wheel)
    requires w in BucketWheels(b)
    ensures WheelIn(b, w)
  {
    var xss := Map(PackageWheels, b);
    FlattenMember(xss, w);
    var i :| 0 <= i < |xss| && w in xss[i];
    var p := b[i];
    ReleaseWheelsMember(p.0, p.1, w);
    var c :| 0 <= c < |p.1| && w in VersionWheels(p.0, p.1[c]);
    var v := p.1[c];
    VersionWheelsMember(p.0, v, w);
    var fd :| fd in v.1.wheels.value && w == Wheel(p.0, v.0, fd.0, fd.1);
    assert p in b;
  }

  /** Every wheel file of the bucket is visited. */
  lemma WheelInBucket(b: Registry, p: (string, Releases), v: (string, ReleaseTypes), fd: (string, seq<string>))
    requires p in b && v in p.1 && v.1.wheels.Some? && fd in v.1.wheels.value
    ensures Wheel(p.0, v.0, fd.0, fd.1) in BucketWheels(b)
  {
    var w := Wheel(p.0, v.0, fd.0, fd.1);
    var xss := Map(PackageWheels, b);
    VersionWheelsMember(p.0, v, w);
    var c :| 0 <= c < |p.1| && p.1[c] == v;
    ReleaseWheelsTarget(p.0, p.1, c, w);
    var i :| 0 <= i < |b| && b[i] == p;
    assert w in xss[i];
    FlattenMember(xss, w);
  }

  lemma BucketWheelTarget(b: Registry, w: Wheel)
    requires WheelIn(b, w)
    ensures w in BucketWheels(b)
  {
    var p, v, fd :| p in b && v in p.1 && v.1.wheels.Some? && fd in v.1.wheels.value &&
      w == Wheel(p.0, v.0, fd.0, fd.1);
    WheelInBucket(b, p, v, fd);
  }

  /** The loops visit exactly the wheel files of the bucket. */
  lemma BucketWheelsMember(b: Registry, w: Wheel)
    ensures w in BucketWheels(b) <==> WheelIn(b, w)
  {
    if w in BucketWheels(b) {
      BucketWheelSource(b, w);
    }
    if WheelIn(b, w) {
      BucketWheelTarget(b, w);
    }
  }

  lemma BucketWheelsSnoc(b: Registry, p: (string, Releases))
    ensures BucketWheels(b + [p]) == BucketWheels(b) + PackageWheels(p)
  {
    MapAppend(PackageWheels, b, [p]);
    FlattenAppend(Map(PackageWheels, b), Map(PackageWheels, [p]));
    assert Map(PackageWheels, [p]) == [PackageWheels(p)];
    FlattenOne(PackageWheels(p));
  }

  lemma ReleaseWheelsSnoc(name: string, vs: Releases, v: (string, ReleaseTypes))
    ensures ReleaseWheels(name, vs + [v]) == ReleaseWheels(name, vs) + VersionWheels(name, v)
  {
    assert (vs + [v])[..|vs|] == vs;
  }

  /** Position `(a, c, k)` of the loops: package `a`, version `c`, wheel `k`. */
  lemma WheelAt(b: Registry, a: int, c: int, k: int)
    requires 0 <= a < |b| && 0 <= c < |b[a].1| && b[a].1[c].1.wheels.Some?
    requires 0 <= k < |b[a].1[c].1.wheels.value|
    ensures var fd := b[a].1[c].1.wheels.value[k];
      Wheel(b[a].0, b[a].1[c].0, fd.0, fd.1) in BucketWheels(b)
  {
    var p := b[a];
    var v := p.1[c];
    var fd := v.1.wheels.value[k];
    assert p in b && v in p.1 && fd in v.1.wheels.value;
    WheelInBucket(b, p, v, fd);
  }

  /** Reordering the packages reorders their wheels and nothing else. */
  lemma BucketWheelsPermutation(b: Registry, b': Registry)
    requires multiset(b) == multiset(b')
    ensures multiset(BucketWheels(b)) == multiset(BucketWheels(b'))
  {
    MapPermutation(PackageWheels, b, b');
    FlattenPermutation(Map(PackageWheels, b), Map(PackageWheels, b'));
  }

  /** The number of wheel filenames of the bucket, counted version by version. */
  function VersionCount(v: (string, ReleaseTypes)): nat {
    if v.1.wheels.Some? then |v.1.wheels.value| else 0
  }

  function PackageCount(vs: Releases): nat {
    if |vs| == 0 then 0 else PackageCount(vs[..|vs| - 1]) + VersionCount(vs[|vs| - 1])
  }

  function BucketCount(b: Registry): nat {
    if |b| == 0 then 0 else BucketCount(b[..|b| - 1]) + PackageCount(b[|b| - 1].1)
  }

  lemma {:induction false} ReleaseWheelsCount(name: string, vs: Releases)
    ensures |ReleaseWheels(name, vs)| == PackageCount(vs)
    decreases |vs|
  {
    if |vs| > 0 {
      ReleaseWheelsCount(name, vs[..|vs| - 1]);
    }
  }

  /** One wheel per filename of every version that has 'wheels'. */
  lemma {:induction false} BucketWheelsCount(b: Registry)
    ensures |BucketWheels(b)| == BucketCount(b)
    decreases |b|
  {
    if |b| > 0 {
      var n := |b| - 1;
      assert b == b[..n] + [b[n]];
      BucketWheelsSnoc(b[..n], b[n]);
      BucketWheelsCount(b[..n]);
      ReleaseWheelsCount(b[n].0, b[n].1);
    }
  }

  // ---------------------------------------------------------------------------------------
  // WheelSpider.start_requests

  /** A download request: the URL, and the job it carries to the result handler. */
  datatype Request = Request(url: string, job: Job)

  /** `name[0]` and `data[1]` exist. */
  predicate Fetchable(w: Wheel) { |w.name| > 0 && |w.data| >= 2 }

  /** The request made for a wheel, its pyver being `data[1]`. */
  function WheelRequest(w: Wheel): Request
    requires Fetchable(w)
  {
    Request(ConstructUrl(w.name, w.data[1], w.filename), Job(w.name, w.ver, w.filename, w.data[1]))
  }

  /** A package already in the dump with fewer than two pyvers is not crawled again. */
  predicate Skipped(dump: Store, name: string) {
    HasKey(dump, name) && |LookupOr(dump, name, [])| < 2
  }

  function NotSkipped(dump: Store): Wheel -> bool {
    (w: Wheel) => !Skipped(dump, w.name)
  }

  function SpiderWheels(b: Registry, dump: Store): seq<Wheel> {
    Filter(NotSkipped(dump), BucketWheels(b))
  }

  /** The spider reads `name[0]` and `data[1]` of every wheel of a package it does not skip. */
  ghost predicate SpiderReady(b: Registry, dump: Store) {
    forall w :: w in BucketWheels(b) && !Skipped(dump, w.name) ==> Fetchable(w)
  }

  lemma SpiderWheelsFetchable(b: Registry, dump: Store)
    requires SpiderReady(b, dump)
    ensures forall w :: w in SpiderWheels(b, dump) ==> Fetchable(w)
  {
    forall w | w in SpiderWheels(b, dump) ensures Fetchable(w) {
      FilterMember(NotSkipped(dump), BucketWheels(b), w);
    }
  }

  /** The requests of `start_requests` before the shuffle. */
  function SpiderJobs(b: Registry, dump: Store): seq<Request>
    requires SpiderReady(b, dump)
  {
    SpiderWheelsFetchable(b, dump);
    Map(WheelRequest, SpiderWheels(b, dump))
  }

  lemma PackageWheelsNamed(p: (string, Releases))
    ensures forall w :: w in PackageWheels(p) ==> w.name == p.0
  {
    forall w | w in PackageWheels(p) ensures w.name == p.0 {
      ReleaseWheelsSource(p.0, p.1, w);
      var c :| 0 <= c < |p.1| && w in VersionWheels(p.0, p.1[c]);
      VersionWheelsMember(p.0, p.1[c], w);
    }
  }

  lemma {:induction false} FilterAll<T>(f: T -> bool, s: seq<T>)
    requires forall x :: x in s ==> f(x)
    ensures Filter(f, s) == s
  {
    if |s| > 0 {
      assert s == s[..|s| - 1] + [s[|s| - 1]];
      FilterAll(f, s[..|s| - 1]);
    }
  }

  lemma {:induction false} FilterNone<T>(f: T -> bool, s: seq<T>)
    requires forall x :: x in s ==> !f(x)
    ensures Filter(f, s) == []
  {
    if |s| > 0 {
      assert s == s[..|s| - 1] + [s[|s| - 1]];
      FilterNone(f, s[..|s| - 1]);
    }
  }

  lemma {:induction false} FilterConcat<T>(f: T -> bool, a: seq<T>, b: seq<T>)
    ensures Filter(f, a + b) == Filter(f, a) + Filter(f, b)
    decreases |b|
  {
    if |b| == 0 {
      assert a + b == a;
    } else {
      var n := |b| - 1;
      assert a + b == (a + b[..n]) + [b[n]];
      assert b == b[..n] + [b[n]];
      FilterSnoc(f, a + b[..n], b[n]);
      FilterSnoc(f, b[..n], b[n]);
      FilterConcat(f, a, b[..n]);
    }
  }

  /** A skipped package contributes no wheel; any other contributes all of its wheels. */
  lemma SpiderWheelsSnoc(b: Registry, p: (string, Releases), dump: Store)
    ensures SpiderWheels(b + [p], dump) ==
      SpiderWheels(b, dump) + (if Skipped(dump, p.0) then [] else PackageWheels(p))
  {
    BucketWheelsSnoc(b, p);
    FilterConcat(NotSkipped(dump), BucketWheels(b), PackageWheels(p));
    PackageWheelsNamed(p);
    if Skipped(dump, p.0) {
      FilterNone(NotSkipped(dump), PackageWheels(p));
    } else {
      FilterAll(NotSkipped(dump), PackageWheels(p));
    }
  }

  /** The wheels of package `a` are wheels of the bucket. */
  lemma PackageInBucket(b: Registry, a: int)
    requires 0 <= a < |b|
    ensures forall w :: w in PackageWheels(b[a]) ==> w in BucketWheels(b)
  {
    var xss := Map(PackageWheels, b);
    forall w | w in PackageWheels(b[a]) ensures w in BucketWheels(b) {
      assert w in xss[a];
      FlattenMember(xss, w);
    }
  }

  /** The wheels of the packages before `a` are wheels of the bucket. */
  lemma BucketPrefixInBucket(b: Registry, a: int)
    requires 0 <= a <= |b|
    ensures forall w :: w in BucketWheels(b[..a]) ==> w in BucketWheels(b)
  {
    var xss := Map(PackageWheels, b);
    var yss := Map(PackageWheels, b[..a]);
    forall w | w in BucketWheels(b[..a]) ensures w in BucketWheels(b) {
      FlattenMember(yss, w);
      var i :| 0 <= i < |yss| && w in yss[i];
      assert w in xss[i];
      FlattenMember(xss, w);
    }
  }

  /** The wheels of the versions before `c` of a package are wheels of the package. */
  lemma ReleasePrefix(name: string, vs: Releases, c: int)
    requires 0 <= c <= |vs|
    ensures forall w :: w in ReleaseWheels(name, vs[..c]) ==> w in ReleaseWheels(name, vs)
  {
    forall w | w in ReleaseWheels(name, vs[..c]) ensures w in ReleaseWheels(name, vs) {
      ReleaseWheelsSource(name, vs[..c], w);
      var i :| 0 <= i < c && w in VersionWheels(name, vs[..c][i]);
      assert vs[..c][i] == vs[i];
      ReleaseWheelsTarget(name, vs, i, w);
    }
  }

  /** The loop over one version in `start_requests`: nothing without 'wheels', otherwise a
      request per wheel filename, in order. */
  method VersionRequests(name: string, v: (string, ReleaseTypes)) returns (reqs: seq<Request>)
    requires forall w :: w in VersionWheels(name, v) ==> Fetchable(w)
    ensures reqs == Map(WheelRequest, VersionWheels(name, v))
  {
    reqs := [];
    if v.1.wheels.None? {
      return;
    }
    var ws := v.1.wheels.value;
    ghost var vw := VersionWheels(name, v);
    var k := 0;
    while k < |ws|
      invariant 0 <= k <= |ws|
      invariant reqs == Map(WheelRequest, vw[..k])
    {
      assert vw[k] in vw;
      var pyver := ws[k].1[1];
      var url := ConstructUrl(name, pyver, ws[k].0);
      reqs := reqs + [Request(url, Job(name, v.0, ws[k].0, pyver))];
      assert vw[..k + 1] == vw[..k] + [vw[k]];
      k := k + 1;
    }
    assert vw[..k] == vw;
  }

  /** The loop over the versions of one package in `start_requests`. */
  method PackageRequests(name: string, vers: Releases) returns (reqs: seq<Request>)
    requires forall w :: w in ReleaseWheels(name, vers) ==> Fetchable(w)
    ensures reqs == Map(WheelRequest, ReleaseWheels(name, vers))
  {
    reqs := [];
    ghost var wheels: seq<Wheel> := [];
    var c := 0;
    while c < |vers|
      invariant 0 <= c <= |vers|
      invariant wheels == ReleaseWheels(name, vers[..c])
      invariant forall w :: w in wheels ==> Fetchable(w)
      invariant reqs == Map(WheelRequest, wheels)
    {
      assert vers[..c + 1] == vers[..c] + [vers[c]];
      ReleaseWheelsSnoc(name, vers[..c], vers[c]);
      ReleasePrefix(name, vers, c + 1);
      ghost var vw := VersionWheels(name, vers[c]);
      var more := VersionRequests(name, vers[c]);
      MapAppend(WheelRequest, wheels, vw);
      reqs := reqs + more;
      wheels := wheels + vw;
      c := c + 1;
    }
    assert vers[..c] == vers;
  }

  lemma SpiderStep(b: Registry, dump: Store, a: int)
    requires 0 <= a < |b| && SpiderReady(b, dump)
    ensures SpiderWheels(b[..a + 1], dump) ==
      SpiderWheels(b[..a], dump) + (if Skipped(dump, b[a].0) then [] else PackageWheels(b[a]))
    ensures !Skipped(dump, b[a].0) ==> forall w :: w in ReleaseWheels(b[a].0, b[a].1) ==> Fetchable(w)
  {
    assert b[..a + 1] == b[..a] + [b[a]];
    SpiderWheelsSnoc(b[..a], b[a], dump);
    PackageInBucket(b, a);
    PackageWheelsNamed(b[a]);
  }

  lemma SpiderReadyPrefix(b: Registry, dump: Store, a: int)
    requires 0 <= a <= |b| && SpiderReady(b, dump)
    ensures SpiderReady(b[..a], dump)
  {
    BucketPrefixInBucket(b, a);
  }

  lemma SpiderJobsStep(b: Registry, dump: Store, a: int)
    requires 0 <= a < |b| && SpiderReady(b, dump)
    ensures SpiderReady(b[..a], dump) && SpiderReady(b[..a + 1], dump)
    ensures !Skipped(dump, b[a].0) ==> forall w :: w in ReleaseWheels(b[a].0, b[a].1) ==> Fetchable(w)
    ensures SpiderJobs(b[..a + 1], dump) == SpiderJobs(b[..a], dump) +
      (if Skipped(dump, b[a].0) then [] else Map(WheelRequest, ReleaseWheels(b[a].0, b[a].1)))
  {
    SpiderReadyPrefix(b, dump, a);
    SpiderReadyPrefix(b, dump, a + 1);
    SpiderStep(b, dump, a);
    SpiderWheelsFetchable(b[..a], dump);
    SpiderWheelsFetchable(b[..a + 1], dump);
    if Skipped(dump, b[a].0) {
      assert SpiderWheels(b[..a + 1], dump) == SpiderWheels(b[..a], dump);
    } else {
      MapAppend(WheelRequest, SpiderWheels(b[..a], dump), PackageWheels(b[a]));
    }
  }

  /** The loops of `start_requests`: the requests in the order they are appended. */
  method SpiderRequests(b: Registry, dump: Store) returns (acc: seq<Request>)
    requires SpiderReady(b, dump)
    ensures acc == SpiderJobs(b, dump)
  {
    acc := [];
    var a := 0;
    assert b[..0] == [];
    assert SpiderJobs(b[..0], dump) == [];
    while a < |b|
      invariant 0 <= a <= |b|
      invariant SpiderReady(b[..a], dump)
      invariant acc == SpiderJobs(b[..a], dump)
    {
      SpiderJobsStep(b, dump, a);
      if !Skipped(dump, b[a].0) {
        var more := PackageRequests(b[a].0, b[a].1);
        acc := acc + more;
      }
      a := a + 1;
    }
    assert b[..|b|] == b;
  }

  /** `start_requests`: one request per wheel of every package not skipped, then shuffled. */
  method StartRequests(b: Registry, dump: Store, rand: seq<nat>) returns (jobs: seq<Request>)
    requires SpiderReady(b, dump)
    ensures multiset(jobs) == multiset(SpiderJobs(b, dump))
  {
    var acc := SpiderRequests(b, dump);
    jobs := Shuffle(acc, rand);
  }

  /** The spider requests exactly the wheels of the packages it does not skip, each at its
      `construct_url` with pyver `data[1]`. */
  lemma SpiderJobsMember(b: Registry, dump: Store, r: Request)
    requires SpiderReady(b, dump)
    ensures r in SpiderJobs(b, dump) <==>
      exists w :: w in BucketWheels(b) && !Skipped(dump, w.name) && Fetchable(w) && r == WheelRequest(w)
  {
    if r in SpiderJobs(b, dump) {
      SpiderJobSource(b, dump, r);
    }
    if exists w :: w in BucketWheels(b) && !Skipped(dump, w.name) && Fetchable(w) && r == WheelRequest(w) {
      var w :| w in BucketWheels(b) && !Skipped(dump, w.name) && Fetchable(w) && r == WheelRequest(w);
      SpiderJobTarget(b, dump, w);
    }
  }

  lemma SpiderJobSource(b: Registry, dump: Store, r: Request)
    requires SpiderReady(b, dump) && r in SpiderJobs(b, dump)
    ensures exists w :: w in BucketWheels(b) && !Skipped(dump, w.name) && Fetchable(w) && r == WheelRequest(w)
  {
    var ws := SpiderWheels(b, dump);
    SpiderWheelsFetchable(b, dump);
    var i :| 0 <= i < |ws| && r == WheelRequest(ws[i]);
    assert ws[i] in ws;
    FilterMember(NotSkipped(dump), BucketWheels(b), ws[i]);
  }

  lemma SpiderJobTarget(b: Registry, dump: Store, w: Wheel)
    requires SpiderReady(b, dump)
    requires w in BucketWheels(b) && !Skipped(dump, w.name) && Fetchable(w)
    ensures WheelRequest(w) in SpiderJobs(b, dump)
  {
    var ws := SpiderWheels(b, dump);
    SpiderWheelsFetchable(b, dump);
    FilterMember(NotSkipped(dump), BucketWheels(b), w);
    var i :| 0 <= i < |ws| && ws[i] == w;
    assert SpiderJobs(b, dump)[i] == WheelRequest(w);
  }

  /** The wheel filenames of the packages the spider does not skip. */
  function SpiderCount(b: Registry, dump: Store): nat {
    if |b| == 0 then 0
    else SpiderCount(b[..|b| - 1], dump) + (if Skipped(dump, b[|b| - 1].0) then 0 else PackageCount(b[|b| - 1].1))
  }

  /** Exactly one request per wheel filename of the packages not skipped. */
  lemma {:induction false} SpiderJobsCount(b: Registry, dump: Store)
    requires SpiderReady(b, dump)
    ensures |SpiderJobs(b, dump)| == SpiderCount(b, dump)
  {
    SpiderWheelsCount(b, dump);
  }

  lemma {:induction false} SpiderWheelsCount(b: Registry, dump: Store)
    ensures |SpiderWheels(b, dump)| == SpiderCount(b, dump)
    decreases |b|
  {
    if |b| > 0 {
      var n := |b| - 1;
      assert b == b[..n] + [b[n]];
      SpiderWheelsSnoc(b[..n], b[n], dump);
      SpiderWheelsCount(b[..n], dump);
      ReleaseWheelsCount(b[n].0, b[n].1);
    }
  }

  // ---------------------------------------------------------------------------------------
  // get_jobs of src/crawl_wheel_deps_old.py

  /** `dump_dict[name][pyver][ver][filename]` exists, pyver being `data[1]`. */
  predicate InDump(dump: Store, w: Wheel) {
    |w.data| >= 2 && Lookup4(dump, w.name, w.data[1], w.ver, w.filename).Some?
  }

  function NotInDump(dump: Store): Wheel -> bool {
    (w: Wheel) => !InDump(dump, w)
  }

  function OldWheels(b: Registry, dump: Store): seq<Wheel> {
    Filter(NotInDump(dump), BucketWheels(b))
  }

  /** The old loop reads `data[1]` of a wheel, and `name[0]` when it keeps the wheel. */
  predicate Readable(dump: Store, w: Wheel) {
    |w.data| >= 2 && (!InDump(dump, w) ==> |w.name| > 0)
  }

  predicate AllReadable(dump: Store, ws: seq<Wheel>) {
    forall w :: w in ws ==> Readable(dump, w)
  }

  /** The old loop reads `data[1]` of every wheel, and `name[0]` of every wheel it keeps. */
  ghost predicate OldReady(b: Registry, dump: Store) {
    AllReadable(dump, BucketWheels(b))
  }

  lemma OldWheelsFetchable(b: Registry, dump: Store)
    requires OldReady(b, dump)
    ensures forall w :: w in OldWheels(b, dump) ==> Fetchable(w) && !InDump(dump, w)
  {
    forall w | w in OldWheels(b, dump) ensures Fetchable(w) && !InDump(dump, w) {
      FilterMember(NotInDump(dump), BucketWheels(b), w);
    }
  }

  /** A wheel not yet in the dump is fetchable where the old loop reads it. */
  lemma FreshFetchable(dump: Store, ws: seq<Wheel>)
    requires AllReadable(dump, ws)
    ensures forall w :: w in Filter(NotInDump(dump), ws) ==> Fetchable(w) && !InDump(dump, w)
  {
    forall w | w in Filter(NotInDump(dump), ws) ensures Fetchable(w) && !InDump(dump, w) {
      FilterMember(NotInDump(dump), ws, w);
    }
  }

  /** The requests for the wheels of `ws` not yet in the dump, in order. */
  function FreshRequests(dump: Store, ws: seq<Wheel>): seq<Request>
    requires AllReadable(dump, ws)
  {
    FreshFetchable(dump, ws);
    Map(WheelRequest, Filter(NotInDump(dump), ws))
  }

  lemma FreshRequestsAppend(dump: Store, a: seq<Wheel>, b: seq<Wheel>)
    requires AllReadable(dump, a + b)
    ensures FreshRequests(dump, a + b) == FreshRequests(dump, a) + FreshRequests(dump, b)
  {
    FilterConcat(NotInDump(dump), a, b);
    FreshFetchable(dump, a + b);
    FreshFetchable(dump, a);
    FreshFetchable(dump, b);
    MapAppend(WheelRequest, Filter(NotInDump(dump), a), Filter(NotInDump(dump), b));
  }

  /** The job dictionaries of the old `get_jobs` before the shuffle. */
  function OldRequests(b: Registry, dump: Store): seq<Request>
    requires OldReady(b, dump)
  {
    FreshRequests(dump, BucketWheels(b))
  }

  /** A job of the old crawler: the request and its position in the shuffled list. */
  datatype NumberedJob = NumberedJob(job: Job, url: string, nr: nat)

  function Unnumbered(j: NumberedJob): Request { Request(j.url, j.job) }

  /** `[Job(**j, nr=idx) for idx, j in enumerate(jobs)]`. */
  function Number(rs: seq<Request>): (r: seq<NumberedJob>)
    ensures Map(Unnumbered, r) == rs
  {
    seq(|rs|, i requires 0 <= i < |rs| => NumberedJob(rs[i].job, rs[i].url, i))
  }

  /** The loop over one version in the old `get_jobs`: nothing without 'wheels', otherwise
      a request per wheel filename whose entry is not yet in the dump. */
  method VersionJobs(dump: Store, name: string, v: (string, ReleaseTypes)) returns (reqs: seq<Request>)
    requires AllReadable(dump, VersionWheels(name, v))
    ensures reqs == FreshRequests(dump, VersionWheels(name, v))
  {
    reqs := [];
    ghost var vw := VersionWheels(name, v);
    if v.1.wheels.None? {
      assert FreshRequests(dump, vw) == [];
      return;
    }
    var ws := v.1.wheels.value;
    var k := 0;
    assert FreshRequests(dump, vw[..0]) == [];
    while k < |ws|
      invariant 0 <= k <= |ws|
      invariant reqs == FreshRequests(dump, vw[..k])
    {
      assert vw[k] in vw;
      assert vw[..k + 1] == vw[..k] + [vw[k]];
      FreshRequestsAppend(dump, vw[..k], [vw[k]]);
      FilterSnoc(NotInDump(dump), [], vw[k]);
      assert [] + [vw[k]] == [vw[k]];
      var pyver := ws[k].1[1];
      if Lookup4(dump, name, pyver, v.0, ws[k].0).None? {
        var url := ConstructUrl(name, pyver, ws[k].0);
        reqs := reqs + [Request(url, Job(name, v.0, ws[k].0, pyver))];
      }
      k := k + 1;
    }
    assert vw[..k] == vw;
  }

  lemma FreshReleaseStep(dump: Store, name: string, vers: Releases, c: int)
    requires 0 <= c < |vers|
    requires AllReadable(dump, ReleaseWheels(name, vers))
    ensures AllReadable(dump, ReleaseWheels(name, vers[..c]))
    ensures AllReadable(dump, ReleaseWheels(name, vers[..c + 1]))
    ensures AllReadable(dump, VersionWheels(name, vers[c]))
    ensures FreshRequests(dump, ReleaseWheels(name, vers[..c + 1])) ==
      FreshRequests(dump, ReleaseWheels(name, vers[..c])) + FreshRequests(dump, VersionWheels(name, vers[c]))
  {
    assert vers[..c + 1] == vers[..c] + [vers[c]];
    ReleaseWheelsSnoc(name, vers[..c], vers[c]);
    ReleasePrefix(name, vers, c);
    ReleasePrefix(name, vers, c + 1);
    FreshRequestsAppend(dump, ReleaseWheels(name, vers[..c]), VersionWheels(name, vers[c]));
  }

  /** The loop over the versions of one package in the old `get_jobs`. */
  method PackageJobs(dump: Store, name: string, vers: Releases) returns (reqs: seq<Request>)
    requires AllReadable(dump, ReleaseWheels(name, vers))
    ensures reqs == FreshRequests(dump, ReleaseWheels(name, vers))
  {
    reqs := [];
    var c := 0;
    assert vers[..0] == [];
    assert FreshRequests(dump, ReleaseWheels(name, vers[..0])) == [];
    while c < |vers|
      invariant 0 <= c <= |vers|
      invariant AllReadable(dump, ReleaseWheels(name, vers[..c]))
      invariant reqs == FreshRequests(dump, ReleaseWheels(name, vers[..c]))
    {
      FreshReleaseStep(dump, name, vers, c);
      var more := VersionJobs(dump, name, vers[c]);
      reqs := reqs + more;
      c := c + 1;
    }
    assert vers[..c] == vers;
  }

  /** The old `get_jobs`: a job for every wheel not yet in the dump, shuffled and numbered
      0, 1, ... in list order. */
  method GetJobsOld(b: Registry, dump: Store, rand: seq<nat>) returns (jobs: seq<NumberedJob>)
    requires OldReady(b, dump)
    ensures |jobs| == |OldRequests(b, dump)|
    ensures forall i :: 0 <= i < |jobs| ==> jobs[i].nr == i
    ensures multiset(Map(Unnumbered, jobs)) == multiset(OldRequests(b, dump))
  {
    var acc: seq<Request> := [];
    var a := 0;
    assert b[..0] == [];
    assert FreshRequests(dump, BucketWheels(b[..0])) == [];
    while a < |b|
      invariant 0 <= a <= |b|
      invariant AllReadable(dump, BucketWheels(b[..a]))
      invariant acc == FreshRequests(dump, BucketWheels(b[..a]))
    {
      assert b[..a + 1] == b[..a] + [b[a]];
      BucketWheelsSnoc(b[..a], b[a]);
      BucketPrefixInBucket(b, a + 1);
      PackageInBucket(b, a);
      FreshRequestsAppend(dump, BucketWheels(b[..a]), PackageWheels(b[a]));
      var more := PackageJobs(dump, b[a].0, b[a].1);
      acc := acc + more;
      a := a + 1;
    }
    assert b[..|b|] == b;
    var shuffled := Shuffle(acc, rand);
    assert |multiset(shuffled)| == |multiset(acc)|;
    jobs := Number(shuffled);
  }

  /** The old crawler requests exactly the wheels whose entry is not yet in the dump. */
  lemma OldRequestsMember(b: Registry, dump: Store, r: Request)
    requires OldReady(b, dump)
    ensures r in OldRequests(b, dump) <==>
      exists w :: w in BucketWheels(b) && !InDump(dump, w) && Fetchable(w) && r == WheelRequest(w)
  {
    if r in OldRequests(b, dump) {
      OldRequestSource(b, dump, r);
    }
    if exists w :: w in BucketWheels(b) && !InDump(dump, w) && Fetchable(w) && r == WheelRequest(w) {
      var w :| w in BucketWheels(b) && !InDump(dump, w) && Fetchable(w) && r == WheelRequest(w);
      OldRequestTarget(b, dump, w);
    }
  }

  lemma OldRequestSource(b: Registry, dump: Store, r: Request)
    requires OldReady(b, dump) && r in OldRequests(b, dump)
    ensures exists w :: w in BucketWheels(b) && !InDump(dump, w) && Fetchable(w) && r == WheelRequest(w)
  {
    var ws := OldWheels(b, dump);
    OldWheelsFetchable(b, dump);
    var i :| 0 <= i < |ws| && r == WheelRequest(ws[i]);
    assert ws[i] in ws;
    FilterMember(NotInDump(dump), BucketWheels(b), ws[i]);
  }

  lemma OldRequestTarget(b: Registry, dump: Store, w: Wheel)
    requires OldReady(b, dump)
    requires w in BucketWheels(b) && !InDump(dump, w) && Fetchable(w)
    ensures WheelRequest(w) in OldRequests(b, dump)
  {
    var ws := OldWheels(b, dump);
    OldWheelsFetchable(b, dump);
    FilterMember(NotInDump(dump), BucketWheels(b), w);
    var i :| 0 <= i < |ws| && ws[i] == w;
    assert OldRequests(b, dump)[i] == WheelRequest(w);
  }

  /** Once a job's result is merged into the dump, the next `get_jobs` over that dump does
      not request it again. */
  lemma MergedNotRequested(b: Registry, dump: Store, job: Job, f: Fields)
    requires OldReady(b, MergeResult(dump, job, f))
    ensures forall r :: r in OldRequests(b, MergeResult(dump, job, f)) ==> r.job != job
  {
    var merged := MergeResult(dump, job, f);
    MergeResultLookup(dump, job, f);
    forall r | r in OldRequests(b, merged) ensures r.job != job {
      OldRequestsMember(b, merged, r);
    }
  }

  // ---------------------------------------------------------------------------------------
  // get_jobs of src/crawl_wheel_deps.py

  /** `name[0]` exists and the filename has a third '-'-separated field. */
  predicate PypiFetchable(w: Wheel) { |w.name| > 0 && |Split(w.filename, '-')| >= 3 }

  function WheelUrl(w: Wheel): string
    requires PypiFetchable(w)
  {
    PypiUrl(w.name, w.filename)
  }

  ghost predicate NewReady(b: Registry) {
    forall w :: w in BucketWheels(b) ==> PypiFetchable(w)
  }

  /** The URLs of the newer `get_jobs` had the names not been shuffled. */
  function NewUrls(b: Registry): seq<string>
    requires NewReady(b)
  {
    Map(WheelUrl, BucketWheels(b))
  }

  /** The loop over one version in the newer `get_jobs`: nothing without 'wheels',
      otherwise the URL of every wheel filename. */
  method VersionUrls(name: string, v: (string, ReleaseTypes)) returns (urls: seq<string>)
    requires forall w :: w in VersionWheels(name, v) ==> PypiFetchable(w)
    ensures urls == Map(WheelUrl, VersionWheels(name, v))
  {
    urls := [];
    if v.1.wheels.None? {
      return;
    }
    var ws := v.1.wheels.value;
    ghost var vw := VersionWheels(name, v);
    var k := 0;
    while k < |ws|
      invariant 0 <= k <= |ws|
      invariant urls == Map(WheelUrl, vw[..k])
    {
      assert vw[k] in vw;
      urls := urls + [PypiUrl(name, ws[k].0)];
      assert vw[..k + 1] == vw[..k] + [vw[k]];
      k := k + 1;
    }
    assert vw[..k] == vw;
  }

  /** The loop over the versions of one package in the newer `get_jobs`. */
  method PackageUrls(name: string, vers: Releases) returns (urls: seq<string>)
    requires forall w :: w in ReleaseWheels(name, vers) ==> PypiFetchable(w)
    ensures urls == Map(WheelUrl, ReleaseWheels(name, vers))
  {
    urls := [];
    ghost var wheels: seq<Wheel> := [];
    var c := 0;
    while c < |vers|
      invariant 0 <= c <= |vers|
      invariant wheels == ReleaseWheels(name, vers[..c])
      invariant forall w :: w in wheels ==> PypiFetchable(w)
      invariant urls == Map(WheelUrl, wheels)
    {
      assert vers[..c + 1] == vers[..c] + [vers[c]];
      ReleaseWheelsSnoc(name, vers[..c], vers[c]);
      ReleasePrefix(name, vers, c + 1);
      ghost var vw := VersionWheels(name, vers[c]);
      var more := VersionUrls(name, vers[c]);
      MapAppend(WheelUrl, wheels, vw);
      urls := urls + more;
      wheels := wheels + vw;
      c := c + 1;
    }
    assert vers[..c] == vers;
  }

  /** The loop over the (shuffled) names in the newer `get_jobs`. */
  method RegistryUrls(names: Registry) returns (urls: seq<string>)
    requires NewReady(names)
    ensures urls == NewUrls(names)
  {
    urls := [];
    ghost var wheels: seq<Wheel> := [];
    var a := 0;
    while a < |names|
      invariant 0 <= a <= |names|
      invariant wheels == BucketWheels(names[..a])
      invariant forall w :: w in wheels ==> PypiFetchable(w)
      invariant urls == Map(WheelUrl, wheels)
    {
      assert names[..a + 1] == names[..a] + [names[a]];
      BucketWheelsSnoc(names[..a], names[a]);
      PackageInBucket(names, a);
      var more := PackageUrls(names[a].0, names[a].1);
      urls := urls + more;
      MapAppend(WheelUrl, wheels, PackageWheels(names[a]));
      wheels := wheels + PackageWheels(names[a]);
      a := a + 1;
    }
    assert names[..|names|] == names;
  }

  /** The newer `get_jobs`: the names are shuffled, then every wheel filename of every version
      with 'wheels' yields its pypi.org URL. */
  method GetJobsNew(b: Registry, rand: seq<nat>) returns (urls: seq<string>)
    requires NewReady(b)
    ensures multiset(urls) == multiset(NewUrls(b))
    ensures |urls| == BucketCount(b)
  {
    var names := Shuffle(b, rand);
    BucketWheelsPermutation(names, b);
    forall w | w in BucketWheels(names) ensures PypiFetchable(w) {
      assert w in multiset(BucketWheels(names));
    }
    urls := RegistryUrls(names);
    MapPermutation(WheelUrl, BucketWheels(names), BucketWheels(b));
    BucketWheelsCount(b);
    assert |multiset(urls)| == |multiset(BucketWheels(b))|;
  }

  /** Every URL of the newer `get_jobs` is the pypi.org URL of a wheel file of the bucket,
      and every wheel file of the bucket has its URL there. */
  lemma NewUrlsMember(b: Registry, u: string)
    requires NewReady(b)
    ensures u in NewUrls(b) <==> exists w :: w in BucketWheels(b) && PypiFetchable(w) && u == PypiUrl(w.name, w.filename)
  {
    var ws := BucketWheels(b);
    if u in NewUrls(b) {
      var i :| 0 <= i < |ws| && u == WheelUrl(ws[i]);
      assert ws[i] in ws;
    }
    if exists w :: w in BucketWheels(b) && PypiFetchable(w) && u == PypiUrl(w.name, w.filename) {
      var w :| w in BucketWheels(b) && PypiFetchable(w) && u == PypiUrl(w.name, w.filename);
      var i :| 0 <= i < |ws| && ws[i] == w;
      assert NewUrls(b)[i] == u;
    }
  }

  // ---------------------------------------------------------------------------------------
  // The bucket-skip test of main.spiders

  predicate IsHexDigit(c: char) {
    ('0' <= c <= '9') || ('a' <= c <= 'f') || ('A' <= c <= 'F')
  }

  function DigitValue(c: char): (d: nat)
    requires IsHexDigit(c)
    ensures d < 16
  {
    if '0' <= c <= '9' then c as int - '0' as int
    else if 'a' <= c <= 'f' then c as int - 'a' as int + 10
    else c as int - 'A' as int + 10
  }

  /** A string `int(s, 16)` accepts: hex digits only (no sign, prefix, underscore or space). */
  predicate IsHex(s: string) {
    |s| > 0 && forall i :: 0 <= i < |s| ==> IsHexDigit(s[i])
  }

  /** `int(s, 16)` for a string of hex digits. */
  function HexValue(s: string): nat
    requires forall i :: 0 <= i < |s| ==> IsHexDigit(s[i])
  {
    if |s| == 0 then 0 else HexValue(s[..|s| - 1]) * 16 + DigitValue(s[|s| - 1])
  }

  function HexDigit(d: nat): char
    requires d < 16
  {
    if d < 10 then ('0' as int + d) as char else ('a' as int + d - 10) as char
  }

  function Pow16(n: nat): nat {
    if n == 0 then 1 else 16 * Pow16(n - 1)
  }

  /** `format(n, '0{width}x')`: the lower-case hex digits of `n`, padded to `width`. */
  function ToHex(n: nat, width: nat): (s: string)
    ensures |s| == width && forall i :: 0 <= i < |s| ==> IsHexDigit(s[i])
  {
    if width == 0 then "" else ToHex(n / 16, width - 1) + [HexDigit(n % 16)]
  }

  /** `int(s, 16)` reads back the number a fixed-width hex key was written from. */
  lemma {:induction false} HexValueToHex(n: nat, width: nat)
    requires n < Pow16(width)
    ensures HexValue(ToHex(n, width)) == n
  {
    if width > 0 {
      var s := ToHex(n, width);
      assert s[..width - 1] == ToHex(n / 16, width - 1);
      HexValueToHex(n / 16, width - 1);
    }
  }

  /** `skip and int(bucket, 16) < int(skip, 16)`, for buckets and a skip value that are
      hexadecimal. */
  predicate BucketSkipped(bucket: string, skip: Option<string>) {
    skip.Some? && |skip.value| > 0 && IsHex(bucket) && IsHex(skip.value) &&
    HexValue(bucket) < HexValue(skip.value)
  }

  function KeptBucket(skip: Option<string>): string -> bool {
    (bucket: string) => !BucketSkipped(bucket, skip)
  }

  /** `int(..., 16)` succeeds on every bucket key and on a non-empty skip value. */
  ghost predicate SpidersReady(buckets: seq<string>, skip: Option<string>) {
    skip.Some? && |skip.value| > 0 ==> IsHex(skip.value) && forall b :: b in buckets ==> IsHex(b)
  }

  /** `spiders()`: the buckets crawled, in order, those below `skip` left out. */
  method Spiders(buckets: seq<string>, skip: Option<string>) returns (crawled: seq<string>)
    requires SpidersReady(buckets, skip)
    ensures crawled == Filter(KeptBucket(skip), buckets)
  {
    crawled := [];
    var n := 0;
    while n < |buckets|
      invariant 0 <= n <= |buckets|
      invariant crawled == Filter(KeptBucket(skip), buckets[..n])
    {
      assert buckets[..n + 1] == buckets[..n] + [buckets[n]];
      FilterSnoc(KeptBucket(skip), buckets[..n], buckets[n]);
      var bucket := buckets[n];
      assert bucket in buckets;
      if skip.Some? && |skip.value| > 0 && HexValue(bucket) < HexValue(skip.value) {
        n := n + 1;
        continue;
      }
      crawled := crawled + [bucket];
      n := n + 1;
    }
    assert buckets[..n] == buckets;
  }

  /** A bucket is crawled exactly when it is one of the buckets and not below `skip`. */
  lemma SpidersMember(buckets: seq<string>, skip: Option<string>, bucket: string)
    ensures bucket in Filter(KeptBucket(skip), buckets) <==> bucket in buckets && !BucketSkipped(bucket, skip)
  {
    FilterMember(KeptBucket(skip), buckets, bucket);
  }

  /** Without `skip`, every bucket is crawled, in order. */
  lemma SpidersNoSkip(buckets: seq<string>)
    ensures Filter(KeptBucket(None), buckets) == buckets
  {
    FilterAll(KeptBucket(None), buckets);
  }
}
