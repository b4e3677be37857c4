/** The release metadata crawler (src/crawl_urls.py): the choice of one source archive per
    version, the shaping of the releases that are saved, the normalised package name they
    are saved under, and the grouping of package names into buckets. */
module CrawlUrls {
  import opened Base
  import opened Strings
  import opened Seqs

  /** One file of a release as the PyPI JSON API lists it: `filename`, `packagetype`,
      `digests['sha256']` and `url`. */
  datatype ReleaseFile = ReleaseFile(filename: string, packagetype: string, sha256: string, url: string)

  /** The dictionary saved for a version: `sha256` and `url`. */
  datatype StoredRelease = StoredRelease(sha256: string, url: string)

  /** `meta['releases']`: version -> files, in the order of the JSON object. */
  type VersionFiles = seq<(string, seq<ReleaseFile>)>

  /** The answer of the API: a 404, or the package's JSON. */
  datatype MetaResponse = NotFound | Meta(releases: VersionFiles)

  /** The `f_types` of `save_pkg_meta`, in order of preference. */
  const FileTypes: seq<string> := ["tar.gz", ".tgz", ".zip", ".tar.bz2"]

  const FilesPrefix: string := "https://files.pythonhosted.org/packages/"

  // ---------------------------------------------------------------------------------------
  // find_favorite_format

  function EndsIn(t: string): ReleaseFile -> bool {
    (f: ReleaseFile) => EndsWith(f.filename, t)
  }

  /** `[rel for rel in sdist_releases if rel['filename'].endswith(t)]`. */
  function WithSuffix(rels: seq<ReleaseFile>, t: string): seq<ReleaseFile> {
    Filter(EndsIn(t), rels)
  }

  /** `min(rels, key=lambda release: len(release['filename']))`: a later file replaces the
      current minimum only when it is strictly shorter, so the first shortest one wins. */
  function Shortest(rels: seq<ReleaseFile>): (r: ReleaseFile)
    requires |rels| > 0
    ensures r in rels
    ensures forall x :: x in rels ==> |r.filename| <= |x.filename|
    ensures exists k :: 0 <= k < |rels| && rels[k] == r && forall q :: 0 <= q < k ==> |r.filename| < |rels[q].filename|
  {
    if |rels| == 1 then rels[0]
    else
      var m := Shortest(rels[..|rels| - 1]);
      assert forall x :: x in rels ==> x in rels[..|rels| - 1] || x == rels[|rels| - 1];
      if |rels[|rels| - 1].filename| < |m.filename| then rels[|rels| - 1] else m
  }

  /** `find_favorite_format`: the suffixes are tried in order and the first one that some
      file has decides; among those files the shortest name wins. */
  function FindFavoriteFormat(rels: seq<ReleaseFile>, fTypes: seq<string>): Option<ReleaseFile>
    decreases |fTypes|
  {
    if |fTypes| == 0 then None
    else if |WithSuffix(rels, fTypes[0])| > 0 then Some(Shortest(WithSuffix(rels, fTypes[0])))
    else FindFavoriteFormat(rels, fTypes[1..])
  }

  /** `f` is a file of `rels` satisfying `p`, no longer than any other such file, and the
      first of the shortest ones. */
  ghost predicate FirstShortest(p: ReleaseFile -> bool, rels: seq<ReleaseFile>, f: ReleaseFile) {
    && p(f)
    && (forall x :: x in rels && p(x) ==> |f.filename| <= |x.filename|)
    && exists k :: 0 <= k < |rels| && rels[k] == f
         && forall q :: 0 <= q < k && p(rels[q]) ==> |f.filename| < |rels[q].filename|
  }

  /** `f` is the first of the shortest files of `rels` ending with `t`. */
  ghost predicate FirstShortestWith(rels: seq<ReleaseFile>, t: string, f: ReleaseFile) {
    FirstShortest(EndsIn(t), rels, f)
  }

  /** The shortest of the files with suffix `t` is the first shortest of them in `rels`. */
  lemma ShortestWithSuffix(rels: seq<ReleaseFile>, t: string)
    requires |WithSuffix(rels, t)| > 0
    ensures FirstShortestWith(rels, t, Shortest(WithSuffix(rels, t)))
  {
    ShortestFilter(EndsIn(t), rels);
  }

  /** `min` over the files satisfying `p` picks the first shortest of them. */
  lemma {:induction false} ShortestFilter(p: ReleaseFile -> bool, rels: seq<ReleaseFile>)
    requires |Filter(p, rels)| > 0
    ensures FirstShortest(p, rels, Shortest(Filter(p, rels)))
    decreases |rels|
  {
    var n := |rels| - 1;
    var init := rels[..n];
    var last := rels[n];
    assert rels == init + [last];
    FilterSnoc(p, init, last);
    var wi := Filter(p, init);
    var w := Filter(p, rels);
    if |wi| == 0 {
      ShortestAlone(p, init, last);
      FirstShortestLast(p, init, last);
      assert Shortest(w) == last;
    } else {
      ShortestFilter(p, init);
      var m := Shortest(wi);
      if p(last) {
        assert w == wi + [last];
        ShortestSnoc(wi, last);
      } else {
        assert w == wi;
      }
      if p(last) && |last.filename| < |m.filename| {
        forall x | x in init && p(x) ensures |last.filename| < |x.filename| {
          FilterMember(p, init, x);
        }
        FirstShortestLast(p, init, last);
        assert Shortest(w) == last;
      } else {
        FirstShortestKept(p, init, last, m);
        assert Shortest(w) == m;
      }
    }
  }

  /** `min` over one more file. */
  lemma ShortestSnoc(rels: seq<ReleaseFile>, x: ReleaseFile)
    requires |rels| > 0
    ensures Shortest(rels + [x]) == if |x.filename| < |Shortest(rels).filename| then x else Shortest(rels)
  {
    assert (rels + [x])[..|rels|] == rels;
  }

  /** No earlier file satisfies `p`. */
  lemma ShortestAlone(p: ReleaseFile -> bool, init: seq<ReleaseFile>, last: ReleaseFile)
    requires |Filter(p, init)| == 0 && p(last)
    ensures Filter(p, init + [last]) == [last]
    ensures forall x :: x in init && p(x) ==> |last.filename| < |x.filename|
  {
    FilterSnoc(p, init, last);
    forall x | x in init && p(x) ensures false {
      FilterMember(p, init, x);
    }
  }

  /** A last file shorter than every earlier one satisfying `p` is the first shortest. */
  lemma FirstShortestLast(p: ReleaseFile -> bool, init: seq<ReleaseFile>, last: ReleaseFile)
    requires p(last) && forall x :: x in init && p(x) ==> |last.filename| < |x.filename|
    ensures FirstShortest(p, init + [last], last)
  {
    var r := init + [last];
    assert r[|init|] == last;
    forall q | 0 <= q < |init| && p(r[q]) ensures |last.filename| < |r[q].filename| {
      assert r[q] == init[q] && init[q] in init;
    }
    forall x | x in r && p(x) ensures |last.filename| <= |x.filename| {
      if x != last { assert x in init; }
    }
  }

  /** The first shortest stays so when a file that is not strictly shorter is added. */
  lemma FirstShortestKept(p: ReleaseFile -> bool, init: seq<ReleaseFile>, last: ReleaseFile, m: ReleaseFile)
    requires FirstShortest(p, init, m)
    requires p(last) ==> |m.filename| <= |last.filename|
    ensures FirstShortest(p, init + [last], m)
  {
    var r := init + [last];
    var k :| 0 <= k < |init| && init[k] == m
      && forall q :: 0 <= q < k && p(init[q]) ==> |m.filename| < |init[q].filename|;
    assert r[k] == m;
    forall q | 0 <= q < k && p(r[q]) ensures |m.filename| < |r[q].filename| {
      assert r[q] == init[q];
    }
    forall x | x in r && p(x) ensures |m.filename| <= |x.filename| {
      if x != last { assert x in init; }
    }
  }

  /** No file of `rels` ends with any of the suffixes. */
  ghost predicate NoneWith(rels: seq<ReleaseFile>, fTypes: seq<string>) {
    forall x, j :: x in rels && 0 <= j < |fTypes| ==> !EndsWith(x.filename, fTypes[j])
  }

  /** `find_favorite_format` returns `None` exactly when no file has an accepted suffix. */
  lemma {:induction false} FavoriteNone(rels: seq<ReleaseFile>, fTypes: seq<string>)
    ensures FindFavoriteFormat(rels, fTypes).None? <==> NoneWith(rels, fTypes)
    decreases |fTypes|
  {
    if |fTypes| > 0 {
      FavoriteNone(rels, fTypes[1..]);
      var w := WithSuffix(rels, fTypes[0]);
      if |w| > 0 {
        assert w[0] in w;
        FilterMember(EndsIn(fTypes[0]), rels, w[0]);
      } else {
        forall x | x in rels ensures !EndsWith(x.filename, fTypes[0]) {
          FilterMember(EndsIn(fTypes[0]), rels, x);
        }
        forall j | 1 <= j < |fTypes| ensures fTypes[j] == fTypes[1..][j - 1] {}
      }
    }
  }

  /** What `find_favorite_format` returns: a file of the input with the first suffix, in the
      order of `f_types`, that any file has, whatever the lengths of the names with later
      suffixes; among the files with that suffix the shortest, and the first of the shortest. */
  lemma {:induction false} FavoriteChoice(rels: seq<ReleaseFile>, fTypes: seq<string>, f: ReleaseFile)
    requires FindFavoriteFormat(rels, fTypes) == Some(f)
    ensures f in rels
    ensures exists i :: 0 <= i < |fTypes| && NoneWith(rels, fTypes[..i]) && FirstShortestWith(rels, fTypes[i], f)
    decreases |fTypes|
  {
    var w := WithSuffix(rels, fTypes[0]);
    if |w| > 0 {
      ShortestWithSuffix(rels, fTypes[0]);
      assert NoneWith(rels, fTypes[..0]);
    } else {
      FavoriteChoice(rels, fTypes[1..], f);
      var i :| 0 <= i < |fTypes[1..]| && NoneWith(rels, fTypes[1..][..i]) && FirstShortestWith(rels, fTypes[1..][i], f);
      forall x | x in rels ensures !EndsWith(x.filename, fTypes[0]) {
        FilterMember(EndsIn(fTypes[0]), rels, x);
      }
      assert fTypes[..i + 1] == [fTypes[0]] + fTypes[1..][..i];
      assert fTypes[1..][i] == fTypes[i + 1];
      assert NoneWith(rels, fTypes[..i + 1]);
    }
  }

  // ---------------------------------------------------------------------------------------
  // save_pkg_meta

  predicate IsSdist(f: ReleaseFile) { f.packagetype == "sdist" }

  /** The favourite source archive of a version: among its sdist files, with the suffixes of
      `f_types`. */
  function FavoriteOf(files: seq<ReleaseFile>): Option<ReleaseFile> {
    var sdists := Filter(IsSdist, files);
    if |sdists| > 0 then FindFavoriteFormat(sdists, FileTypes) else None
  }

  /** The dictionary saved for a chosen file: its digest, and its URL with every occurrence
      of the files host prefix removed (`str.replace(prefix, '')`). */
  function Stored(f: ReleaseFile): StoredRelease {
    StoredRelease(f.sha256, RemoveAll(f.url, FilesPrefix))
  }

  /** What is saved for a version's files: the favourite file's digest and URL, if any. */
  function StoredOf(files: seq<ReleaseFile>): Option<StoredRelease> {
    match FavoriteOf(files)
    case None => None
    case Some(f) => Some(Stored(f))
  }

  /** `d = {}; for k, v in items: if f(v) is not None: d[k] = f(v)`. */
  function Collect<V, W>(items: seq<(string, V)>, f: V -> Option<W>): seq<(string, W)>
    decreases |items|
  {
    if |items| == 0 then []
    else
      var d := Collect(items[..|items| - 1], f);
      var item := items[|items| - 1];
      match f(item.1)
      case None => d
      case Some(w) => Upsert(d, item.0, w)
  }

  /** `releases_dict` after the loop over `meta['releases']`. */
  function ReleasesDict(vs: VersionFiles): seq<(string, StoredRelease)> {
    Collect(vs, StoredOf)
  }

  /** The key a package is saved under: `name.replace('_', '-').lower()`. */
  function NormalizeName(name: string): (r: string)
    ensures |r| == |name|
  {
    seq(|name|, i requires 0 <= i < |name| => Lower(if name[i] == '_' then '-' else name[i]))
  }

  /** `str.lower` on ASCII letters. */
  function Lower(c: char): char {
    if 'A' <= c <= 'Z' then (c as int + 32) as char else c
  }

  /** What `save_pkg_meta` writes: nothing on a 404 or when no version has a favourite
      file, otherwise the releases dictionary under the normalised name. */
  function SavedEntry(name: string, resp: MetaResponse): Option<(string, seq<(string, StoredRelease)>)> {
    match resp
    case NotFound => None
    case Meta(vs) =>
      var rd := ReleasesDict(vs);
      if |rd| > 0 then Some((NormalizeName(name), rd)) else None
  }

  /** The saved package dictionary (`pkgs_dict`): normalised name -> version -> release. */
  class PkgsDict {
    var data: seq<(string, seq<(string, StoredRelease)>)>

    /** Opens the dictionary saved under the target directory; `d` is what it already holds. */
    constructor (d: seq<(string, seq<(string, StoredRelease)>)>)
      ensures data == d
    {
      data := d;
    }

    /** `save_pkg_meta` once the API has answered. */
    method SavePkgMeta(name: string, resp: MetaResponse)
      modifies this
      ensures SavedEntry(name, resp).None? ==> data == old(data)
      ensures SavedEntry(name, resp).Some? ==>
        data == Upsert(old(data), SavedEntry(name, resp).value.0, SavedEntry(name, resp).value.1)
    {
      if resp.NotFound? {
        return;
      }
      var releases := resp.releases;
      var releasesDict: seq<(string, StoredRelease)> := [];
      var k := 0;
      while k < |releases|
        invariant 0 <= k <= |releases|
        invariant releasesDict == Collect(releases[..k], StoredOf)
      {
        assert releases[..k + 1][..k] == releases[..k];
        var sdistReleases := Filter(IsSdist, releases[k].1);
        if |sdistReleases| > 0 {
          var srcRelease := FindFavoriteFormat(sdistReleases, FileTypes);
          if srcRelease.Some? {
            releasesDict := Upsert(releasesDict, releases[k].0,
              StoredRelease(srcRelease.value.sha256, RemoveAll(srcRelease.value.url, FilesPrefix)));
          }
        }
        k := k + 1;
      }
      assert releases[..k] == releases;
      assert releasesDict == ReleasesDict(releases);
      if |releasesDict| > 0 {
        data := Upsert(data, NormalizeName(name), releasesDict);
      }
    }
  }

  /** A key is collected exactly when one of its items has a value. */
  lemma {:induction false} CollectKeys<V, W>(items: seq<(string, V)>, f: V -> Option<W>, k: string)
    ensures HasKey(Collect(items, f), k) <==> exists i :: 0 <= i < |items| && items[i].0 == k && f(items[i].1).Some?
    decreases |items|
  {
    if |items| > 0 {
      var n := |items| - 1;
      CollectKeys(items[..n], f, k);
      var d := Collect(items[..n], f);
      if f(items[n].1).Some? {
        UpsertLookup(d, items[n].0, f(items[n].1).value, k);
      }
      if exists i :: 0 <= i < |items| && items[i].0 == k && f(items[i].1).Some? {
        var i :| 0 <= i < |items| && items[i].0 == k && f(items[i].1).Some?;
        if i < n { assert items[..n][i] == items[i]; }
      }
      if exists i :: 0 <= i < n && items[..n][i].0 == k && f(items[..n][i].1).Some? {
        var i :| 0 <= i < n && items[..n][i].0 == k && f(items[..n][i].1).Some?;
        assert items[..n][i] == items[i];
      }
    }
  }

  /** With distinct keys, a key's collected value is its own item's value. */
  lemma {:induction false} CollectValue<V, W>(items: seq<(string, V)>, f: V -> Option<W>, i: int)
    requires DistinctKeys(items) && 0 <= i < |items| && f(items[i].1).Some?
    ensures Lookup(Collect(items, f), items[i].0) == f(items[i].1)
    decreases |items|
  {
    var n := |items| - 1;
    var d := Collect(items[..n], f);
    if i < n {
      CollectValue(items[..n], f, i);
      if f(items[n].1).Some? {
        UpsertLookup(d, items[n].0, f(items[n].1).value, items[i].0);
      }
    } else {
      UpsertLookup(d, items[n].0, f(items[n].1).value, items[i].0);
    }
  }

  lemma {:induction false} CollectDistinct<V, W>(items: seq<(string, V)>, f: V -> Option<W>)
    ensures DistinctKeys(Collect(items, f))
    decreases |items|
  {
    if |items| > 0 {
      var n := |items| - 1;
      CollectDistinct(items[..n], f);
      if f(items[n].1).Some? {
        UpsertDistinct(Collect(items[..n], f), items[n].0, f(items[n].1).value);
      }
    }
  }

  /** A version is saved exactly when one of its entries has a favourite sdist file. */
  lemma ReleasesDictKeys(vs: VersionFiles, v: string)
    ensures HasKey(ReleasesDict(vs), v) <==> exists i :: 0 <= i < |vs| && vs[i].0 == v && FavoriteOf(vs[i].1).Some?
  {
    CollectKeys(vs, StoredOf, v);
  }

  /** The versions of the JSON are distinct keys; then each saved version holds the digest
      and stripped URL of its own favourite file. */
  lemma ReleasesDictValue(vs: VersionFiles, i: int, f: ReleaseFile)
    requires DistinctKeys(vs) && 0 <= i < |vs| && FavoriteOf(vs[i].1) == Some(f)
    ensures Lookup(ReleasesDict(vs), vs[i].0) == Some(Stored(f))
  {
    CollectValue(vs, StoredOf, i);
  }

  /** The saved releases dictionary has each version once. */
  lemma ReleasesDictDistinct(vs: VersionFiles)
    ensures DistinctKeys(ReleasesDict(vs))
  {
    CollectDistinct(vs, StoredOf);
  }

  /** The file chosen for a version is one of its files, an sdist, with an accepted suffix. */
  lemma FavoriteIsSdist(files: seq<ReleaseFile>, f: ReleaseFile)
    requires FavoriteOf(files) == Some(f)
    ensures f in files && f.packagetype == "sdist"
    ensures exists j :: 0 <= j < |FileTypes| && EndsWith(f.filename, FileTypes[j])
  {
    var sdists := Filter(IsSdist, files);
    FavoriteChoice(sdists, FileTypes, f);
    FilterMember(IsSdist, files, f);
  }

  /** A URL on the files host is saved as the path below it. */
  lemma StoredUrl(f: ReleaseFile, rest: string)
    requires f.url == FilesPrefix + rest && !Contains(rest, FilesPrefix)
    ensures Stored(f).url == rest
  {
    RemoveAllLeading(FilesPrefix, rest);
  }

  /** `save_pkg_meta` writes an entry iff the response is not a 404 and some version has a
      favourite file; the entry is keyed by the normalised name and its version keys are
      distinct. */
  lemma SavedEntryLookup(name: string, resp: MetaResponse)
    ensures SavedEntry(name, resp).Some? ==> SavedEntry(name, resp).value.0 == NormalizeName(name)
    ensures SavedEntry(name, resp).Some? <==> resp.Meta? && exists i :: 0 <= i < |resp.releases| && FavoriteOf(resp.releases[i].1).Some?
    ensures SavedEntry(name, resp).Some? ==> DistinctKeys(SavedEntry(name, resp).value.1)
  {
    if resp.Meta? {
      var vs := resp.releases;
      var rd := ReleasesDict(vs);
      ReleasesDictDistinct(vs);
      if exists i :: 0 <= i < |vs| && FavoriteOf(vs[i].1).Some? {
        var i :| 0 <= i < |vs| && FavoriteOf(vs[i].1).Some?;
        ReleasesDictKeys(vs, vs[i].0);
      }
      if |rd| > 0 {
        assert HasKey(rd, rd[0].0);
        ReleasesDictKeys(vs, rd[0].0);
      }
    }
  }

  // ---------------------------------------------------------------------------------------
  // The normalised name

  /** Normalising twice is normalising once. */
  lemma NormalizeIdempotent(name: string)
    ensures NormalizeName(NormalizeName(name)) == NormalizeName(name)
  {
  }

  /** A normalised name has no '_' and no ASCII capital, and it differs from the name only
      where the name has '_' or a capital. */
  lemma NormalizeClean(name: string)
    ensures forall c :: c in NormalizeName(name) ==> c != '_' && !('A' <= c <= 'Z')
    ensures forall i :: 0 <= i < |name| && name[i] != '_' && !('A' <= name[i] <= 'Z') ==> NormalizeName(name)[i] == name[i]
  {
  }

  // ---------------------------------------------------------------------------------------
  // names_in_buckets

  /** The bucket of a package name, by the bucket function of the saved dictionary. */
  function BucketOfName(bucketOf: string -> string, name: string): string {
    bucketOf(NormalizeName(name))
  }

  function InBucket(bucketOf: string -> string, b: string): string -> bool {
    (name: string) => BucketOfName(bucketOf, name) == b
  }

  /** `in_buckets` after the loop over the names: bucket -> names, buckets in order of
      first appearance. */
  function Grouped(names: seq<string>, bucketOf: string -> string): seq<(string, seq<string>)>
    decreases |names|
  {
    if |names| == 0 then []
    else
      var g := Grouped(names[..|names| - 1], bucketOf);
      var name := names[|names| - 1];
      var b := BucketOfName(bucketOf, name);
      var g' := if HasKey(g, b) then g else g + [(b, [])];
      Upsert(g', b, LookupOr(g', b, []) + [name])
  }

  /** `names_in_buckets`, the package listing given as `names`. */
  method NamesInBuckets(names: seq<string>, bucketOf: string -> string) returns (inBuckets: seq<(string, seq<string>)>)
    ensures inBuckets == Grouped(names, bucketOf)
  {
    inBuckets := [];
    var k := 0;
    while k < |names|
      invariant 0 <= k <= |names|
      invariant inBuckets == Grouped(names[..k], bucketOf)
    {
      assert names[..k + 1][..k] == names[..k];
      var name := names[k];
      var bucket := bucketOf(NormalizeName(name));
      if !HasKey(inBuckets, bucket) {
        inBuckets := inBuckets + [(bucket, [])];
      }
      inBuckets := Upsert(inBuckets, bucket, LookupOr(inBuckets, bucket, []) + [name]);
      k := k + 1;
    }
    assert names[..k] == names;
  }

  /** Each bucket holds exactly the names whose normalised name falls in it, in input
      order; a bucket is present exactly when some name falls in it. */
  lemma {:induction false} GroupedLookup(names: seq<string>, bucketOf: string -> string, b: string)
    ensures HasKey(Grouped(names, bucketOf), b) <==> exists name :: name in names && BucketOfName(bucketOf, name) == b
    ensures LookupOr(Grouped(names, bucketOf), b, []) == Filter(InBucket(bucketOf, b), names)
    decreases |names|
  {
    if |names| > 0 {
      var n := |names| - 1;
      var init := names[..n];
      var name := names[n];
      GroupedLookup(init, bucketOf, b);
      var g := Grouped(init, bucketOf);
      var nb := BucketOfName(bucketOf, name);
      var g' := if HasKey(g, nb) then g else g + [(nb, [])];
      assert Lookup(g', b) == Lookup(g, b) || (b == nb && !HasKey(g, nb)) by {
        if !HasKey(g, nb) {
          assert g' == Upsert(g, nb, []);
          UpsertLookup(g, nb, [], b);
        }
      }
      if !HasKey(g, nb) {
        assert g' == Upsert(g, nb, []);
        UpsertLookup(g, nb, [], nb);
      }
      UpsertLookup(g', nb, LookupOr(g', nb, []) + [name], b);
      assert names == init + [name];
      FilterSnoc(InBucket(bucketOf, b), init, name);
      if exists x :: x in names && BucketOfName(bucketOf, x) == b {
        var x :| x in names && BucketOfName(bucketOf, x) == b;
        if x != name { assert x in init; }
      }
    }
  }

  /** The buckets are distinct keys. */
  lemma {:induction false} GroupedDistinct(names: seq<string>, bucketOf: string -> string)
    ensures DistinctKeys(Grouped(names, bucketOf))
    decreases |names|
  {
    if |names| > 0 {
      var n := |names| - 1;
      GroupedDistinct(names[..n], bucketOf);
      var g := Grouped(names[..n], bucketOf);
      var b := BucketOfName(bucketOf, names[n]);
      var g' := if HasKey(g, b) then g else g + [(b, [])];
      if !HasKey(g, b) {
        assert g' == Upsert(g, b, []);
        UpsertDistinct(g, b, []);
      }
      UpsertDistinct(g', b, LookupOr(g', b, []) + [names[n]]);
    }
  }

  /** Every name is in exactly one bucket: the bucket of its normalised name. */
  lemma NameInOneBucket(names: seq<string>, bucketOf: string -> string, name: string, b: string)
    requires name in names
    ensures name in LookupOr(Grouped(names, bucketOf), b, []) <==> b == BucketOfName(bucketOf, name)
  {
    GroupedLookup(names, bucketOf, b);
    FilterMember(InBucket(bucketOf, b), names, name);
  }
}
