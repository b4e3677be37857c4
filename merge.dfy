/** Merging a fetched wheel's dependency metadata into the store (`process_result` of
    src/wheel_deps_spider.py and the merge loop of `main` in src/crawl_wheel_deps_old.py). */
module Merge {
  import opened Base
  import opened Dedup

  /** The wheel a job is about: where its entry goes in the store. */
  datatype Job = Job(name: string, ver: string, filename: string, pyver: string)

  /** The three metadata fields as returned by the metadata parser; `None` or an empty
      list are falsy. */
  datatype Fields = Fields(
    requiresDist: Option<seq<string>>,
    providesExtras: Option<seq<string>>,
    requiresExternal: Option<seq<string>>)

  /** The outcome of one download job: the old crawler's worker returns an exception
      object instead of a result when the download or the archive fails. */
  datatype WheelResult = Fetched(job: Job, fields: Fields) | Failed

  /** Python's truthiness of an optional list. */
  predicate Truthy(v: Option<seq<string>>) { v.Some? && |v.value| > 0 }

  function Keep(v: Option<seq<string>>): (r: Option<seq<string>>)
    ensures r.Some? <==> Truthy(v)
    ensures r.Some? ==> r == v
  {
    if Truthy(v) then v else None
  }

  /** The entry written for a result: a fresh document holding only the truthy fields. */
  function ShapeDoc(f: Fields): Doc {
    Doc(Keep(f.requiresDist), Keep(f.providesExtras), Keep(f.requiresExternal))
  }

  /** `d[name][pyver][ver][fn]`, or `None` where Python raises `KeyError`. */
  function Lookup4(s: Store, name: string, pyver: string, ver: string, fn: string): Option<Entry> {
    match Lookup(s, name)
    case None => None
    case Some(rec) =>
      match Lookup(rec, pyver)
      case None => None
      case Some(g) =>
        match Lookup(g, ver)
        case None => None
        case Some(fs) => Lookup(fs, fn)
  }

  /** `process_result`: create the missing levels of name -> pyver -> ver, then replace the
      filename's entry by a fresh document with the truthy fields. */
  function MergeResult(s: Store, job: Job, f: Fields): Store {
    var rec := LookupOr(s, job.name, []);
    var g := LookupOr(rec, job.pyver, []);
    var fs := LookupOr(g, job.ver, []);
    Upsert(s, job.name, Upsert(rec, job.pyver, Upsert(g, job.ver, Upsert(fs, job.filename, Inline(ShapeDoc(f))))))
  }

  /** The merge loop of the old `main`: results in order, failures skipped. */
  function MergeAll(s: Store, rs: seq<WheelResult>): Store
    decreases |rs|
  {
    if |rs| == 0 then s
    else
      var s' := if rs[|rs| - 1].Fetched? then MergeResult(MergeAll(s, rs[..|rs| - 1]), rs[|rs| - 1].job, rs[|rs| - 1].fields)
                else MergeAll(s, rs[..|rs| - 1]);
      s'
  }

  /** After the merge, the job's path holds the document of its truthy fields. */
  lemma MergeResultLookup(s: Store, job: Job, f: Fields)
    ensures Lookup4(MergeResult(s, job, f), job.name, job.pyver, job.ver, job.filename) == Some(Inline(ShapeDoc(f)))
  {
    var rec := LookupOr(s, job.name, []);
    var g := LookupOr(rec, job.pyver, []);
    var fs := LookupOr(g, job.ver, []);
    var fs' := Upsert(fs, job.filename, Inline(ShapeDoc(f)));
    var g' := Upsert(g, job.ver, fs');
    var rec' := Upsert(rec, job.pyver, g');
    UpsertLookup(s, job.name, rec', job.name);
    UpsertLookup(rec, job.pyver, g', job.pyver);
    UpsertLookup(g, job.ver, fs', job.ver);
    UpsertLookup(fs, job.filename, Inline(ShapeDoc(f)), job.filename);
  }

  /** Every other path of the store reads as before: sibling entries, versions, pyvers and
      packages are untouched. */
  lemma MergeResultOthers(s: Store, job: Job, f: Fields, name: string, pyver: string, ver: string, fn: string)
    requires (name, pyver, ver, fn) != (job.name, job.pyver, job.ver, job.filename)
    ensures Lookup4(MergeResult(s, job, f), name, pyver, ver, fn) == Lookup4(s, name, pyver, ver, fn)
  {
    var rec := LookupOr(s, job.name, []);
    var g := LookupOr(rec, job.pyver, []);
    var fs := LookupOr(g, job.ver, []);
    var fs' := Upsert(fs, job.filename, Inline(ShapeDoc(f)));
    var g' := Upsert(g, job.ver, fs');
    var rec' := Upsert(rec, job.pyver, g');
    UpsertLookup(s, job.name, rec', name);
    if name == job.name {
      UpsertLookup(rec, job.pyver, g', pyver);
      if pyver == job.pyver {
        UpsertLookup(g, job.ver, fs', ver);
        if ver == job.ver {
          UpsertLookup(fs, job.filename, Inline(ShapeDoc(f)), fn);
        }
      }
    }
  }

  /** The merge keeps every level a real dictionary. */
  lemma MergeResultWellFormed(s: Store, job: Job, f: Fields)
    requires WellFormedStore(s)
    ensures WellFormedStore(MergeResult(s, job, f))
  {
    var rec := LookupOr(s, job.name, []);
    var g := LookupOr(rec, job.pyver, []);
    var fs := LookupOr(g, job.ver, []);
    if Lookup(s, job.name).Some? {
      LookupIn(s, job.name);
      if Lookup(rec, job.pyver).Some? {
        LookupIn(rec, job.pyver);
        if Lookup(g, job.ver).Some? { LookupIn(g, job.ver); }
      }
    }
    assert DistinctKeys(rec) && DistinctKeys(g) && DistinctKeys(fs);
    var fs' := Upsert(fs, job.filename, Inline(ShapeDoc(f)));
    UpsertDistinct(fs, job.filename, Inline(ShapeDoc(f)));
    var g' := Upsert(g, job.ver, fs');
    UpsertDistinct(g, job.ver, fs');
    assert WellFormedGroup(g') by {
      forall i | 0 <= i < |g'| ensures DistinctKeys(g'[i].1) {
        if FindKey(g, job.ver).None? { assert i < |g| ==> g'[i] == g[i]; }
      }
    }
    var rec' := Upsert(rec, job.pyver, g');
    UpsertDistinct(rec, job.pyver, g');
    forall p | 0 <= p < |rec'| ensures WellFormedGroup(rec'[p].1) {
      if FindKey(rec, job.pyver).None? { assert p < |rec| ==> rec'[p] == rec[p]; }
    }
    var s' := Upsert(s, job.name, rec');
    UpsertDistinct(s, job.name, rec');
    forall n | 0 <= n < |s'| ensures DistinctKeys(s'[n].1) && forall p :: 0 <= p < |s'[n].1| ==> WellFormedGroup(s'[n].1[p].1) {
      if FindKey(s, job.name).None? { assert n < |s| ==> s'[n] == s[n]; }
    }
  }

  /** A failed job leaves the store as it was; a fetched one is merged. */
  lemma MergeAllStep(s: Store, rs: seq<WheelResult>, r: WheelResult)
    ensures MergeAll(s, rs + [r]) == if r.Fetched? then MergeResult(MergeAll(s, rs), r.job, r.fields) else MergeAll(s, rs)
  {
    assert (rs + [r])[..|rs|] == rs;
  }

  /** After the merge loop, every fetched job's path holds the document of the last result
      for that path; every path no result names reads as before. */
  lemma {:induction false} MergeAllLookup(s: Store, rs: seq<WheelResult>, name: string, pyver: string, ver: string, fn: string)
    requires forall i :: 0 <= i < |rs| && rs[i].Fetched? ==>
      (rs[i].job.name, rs[i].job.pyver, rs[i].job.ver, rs[i].job.filename) != (name, pyver, ver, fn)
    ensures Lookup4(MergeAll(s, rs), name, pyver, ver, fn) == Lookup4(s, name, pyver, ver, fn)
    decreases |rs|
  {
    if |rs| > 0 {
      var last := rs[|rs| - 1];
      MergeAllLookup(s, rs[..|rs| - 1], name, pyver, ver, fn);
      if last.Fetched? {
        MergeResultOthers(MergeAll(s, rs[..|rs| - 1]), last.job, last.fields, name, pyver, ver, fn);
      }
    }
  }

  /** A fetched result is found at its path after the loop unless a later result names the
      same path. */
  lemma MergeAllFetched(s: Store, rs: seq<WheelResult>, i: int)
    requires 0 <= i < |rs| && rs[i].Fetched?
    requires forall k :: i < k < |rs| && rs[k].Fetched? ==> rs[k].job != rs[i].job
    ensures var j := rs[i].job;
      Lookup4(MergeAll(s, rs), j.name, j.pyver, j.ver, j.filename) == Some(Inline(ShapeDoc(rs[i].fields)))
  {
    var j := rs[i].job;
    var pre := rs[..i + 1];
    var post := rs[i + 1..];
    assert rs == pre + post;
    MergeAllConcat(s, pre, post);
    assert rs[..i] + [rs[i]] == pre;
    MergeAllStep(s, rs[..i], rs[i]);
    var mid := MergeAll(s, pre);
    MergeResultLookup(MergeAll(s, rs[..i]), j, rs[i].fields);
    forall k | 0 <= k < |post| && post[k].Fetched?
      ensures (post[k].job.name, post[k].job.pyver, post[k].job.ver, post[k].job.filename) != (j.name, j.pyver, j.ver, j.filename)
    {
      assert post[k] == rs[i + 1 + k];
    }
    MergeAllLookup(mid, post, j.name, j.pyver, j.ver, j.filename);
  }

  lemma {:induction false} MergeAllConcat(s: Store, a: seq<WheelResult>, b: seq<WheelResult>)
    ensures MergeAll(s, a + b) == MergeAll(MergeAll(s, a), b)
    decreases |b|
  {
    if |b| == 0 {
      assert a + b == a;
    } else {
      MergeAllConcat(s, a, b[..|b| - 1]);
      assert (a + b)[..|a + b| - 1] == a + b[..|b| - 1];
    }
  }
}
