/** The dump dictionary as the crawlers mutate it: the loops of `decompress`, `compress` and
    `process_result` (src/wheel_deps_spider.py), of the older `compress` and of the result
    merge in `main` (src/crawl_wheel_deps_old.py), each proved to compute the specification
    function of the same name in module Dedup or Merge. */
module DumpDicts {
  import opened Base
  import opened Strings
  import opened Dedup
  import opened Merge

  // ---------------------------------------------------------------------------------------
  // One (name, pyver) group

  /** The inner loops of `decompress` over one group: each reference is split on '@' and
      overwritten by the entry it names in the group as it stands. */
  method DecompressGroupLoop(g0: Group) returns (res: Result<Group, DecompressError>)
    ensures res == DecompressGroup(g0)
  {
    var g := g0;
    var i := 0;
    while i < |g|
      invariant 0 <= i <= |g|
      invariant SameShape(g, g0)
      invariant DecompressAt(g, i, 0) == DecompressAt(g0, 0, 0)
    {
      var j := 0;
      while j < |g[i].1|
        invariant i < |g| && 0 <= j <= |g[i].1|
        invariant SameShape(g, g0)
        invariant DecompressAt(g, i, j) == DecompressAt(g0, 0, 0)
      {
        var data := g[i].1[j].1;
        if data.Ref? {
          var parts := Split(data.key, '@');
          if |parts| != 2 {
            return Err(MalformedRef(data.key));
          }
          var target := Lookup2(g, parts[0], parts[1]);
          if target.None? {
            return Err(DanglingRef(parts[0], parts[1]));
          }
          g := SetAt(g, i, j, target.value);
        }
        j := j + 1;
      }
      i := i + 1;
    }
    return Ok(g);
  }

  /** The inner loops of `compress` over one group, starting from table `t0`: every entry
      equal to a document of the table (the first one, by the `for ... break`) becomes that
      document's key; an entry still inline afterwards is recorded under its own key. */
  method CompressGroupLoop(g0: Group, t0: Table) returns (g: Group, t: Table)
    ensures (g, t) == CompressAt(g0, 0, 0, t0)
  {
    g, t := g0, t0;
    var i := 0;
    while i < |g|
      invariant 0 <= i <= |g|
      invariant SameShape(g, g0)
      invariant CompressAt(g, i, 0, t) == CompressAt(g0, 0, 0, t0)
    {
      var j := 0;
      while j < |g[i].1|
        invariant i < |g| && 0 <= j <= |g[i].1|
        invariant SameShape(g, g0)
        invariant CompressAt(g, i, j, t) == CompressAt(g0, 0, 0, t0)
      {
        var data := g[i].1[j].1;
        var found: Option<string> := None;
        if data.Inline? {
          var k := 0;
          while k < |t|
            invariant 0 <= k <= |t|
            invariant FindDoc(t[k..], data.doc) == FindDoc(t, data.doc)
          {
            assert t[k..][1..] == t[k + 1..];
            if t[k].1 == data.doc {
              found := Some(t[k].0);
              break;
            }
            k := k + 1;
          }
        }
        ghost var step := CompressCell(g, i, j, t);
        if found.Some? {
          g := SetAt(g, i, j, Ref(found.value));
        }
        if !g[i].1[j].1.Ref? {
          t := Upsert(t, RefKey(g[i].0, g[i].1[j].0), data.doc);
        }
        assert (g, t) == step;
        j := j + 1;
      }
      i := i + 1;
    }
  }

  // ---------------------------------------------------------------------------------------
  // Where the store-level decompress fails

  lemma {:induction false} DecompressRecordFirstErr(rec: Record, p: int)
    requires 0 <= p < |rec| && DecompressGroup(rec[p].1).Err?
    requires forall k :: 0 <= k < p ==> DecompressGroup(rec[k].1).Ok?
    ensures DecompressRecord(rec) == Err(DecompressGroup(rec[p].1).error)
  {
    if p > 0 {
      DecompressRecordFirstErr(rec[1..], p - 1);
    }
  }

  lemma {:induction false} DecompressStoreFirstErr(s: Store, n: int)
    requires 0 <= n < |s| && DecompressRecord(s[n].1).Err?
    requires forall k :: 0 <= k < n ==> DecompressRecord(s[k].1).Ok?
    ensures DecompressStore(s) == Err(DecompressRecord(s[n].1).error)
  {
    if n > 0 {
      DecompressStoreFirstErr(s[1..], n - 1);
    }
  }

  // ---------------------------------------------------------------------------------------
  // The dump dictionary

  class DumpDict {
    /** name -> pyver -> version -> filename -> entry */
    var data: Store

    constructor (s: Store)
      ensures data == s
    {
      data := s;
    }

    /** `decompress`: every reference of every group replaced by the entry it names.  The
        first malformed or dangling reference stops the process. */
    method Decompress() returns (err: Option<DecompressError>)
      modifies this
      ensures DecompressStore(old(data)).Ok? ==> err == None && data == DecompressStore(old(data)).value
      ensures DecompressStore(old(data)).Err? ==> err == Some(DecompressStore(old(data)).error)
    {
      var n := 0;
      while n < |data|
        invariant 0 <= n <= |data| == |old(data)|
        invariant forall k :: 0 <= k < n ==> data[k].0 == old(data)[k].0 && DecompressRecord(old(data)[k].1) == Ok(data[k].1)
        invariant forall k :: n <= k < |data| ==> data[k] == old(data)[k]
      {
        var rec := data[n].1;
        var p := 0;
        while p < |rec|
          invariant 0 <= p <= |rec| == |data[n].1|
          invariant forall k :: 0 <= k < p ==> rec[k].0 == data[n].1[k].0 && DecompressGroup(data[n].1[k].1) == Ok(rec[k].1)
          invariant forall k :: p <= k < |rec| ==> rec[k] == data[n].1[k]
          modifies {}
        {
          var r := DecompressGroupLoop(rec[p].1);
          if r.Err? {
            DecompressRecordFirstErr(data[n].1, p);
            DecompressStoreFirstErr(old(data), n);
            return Some(r.error);
          }
          rec := rec[p := (rec[p].0, r.value)];
          p := p + 1;
        }
        DecompressRecordOk(data[n].1, rec);
        data := data[n := (data[n].0, rec)];
        n := n + 1;
      }
      DecompressStoreOk(old(data), data);
      return None;
    }

    /** `compress` of src/wheel_deps_spider.py: decompress, sort every record, then compress
        each (name, pyver) group against a table of its own. */
    method Compress() returns (err: Option<DecompressError>)
      modifies this
      ensures CompressStore(old(data)).Ok? ==> err == None && data == CompressStore(old(data)).value
      ensures CompressStore(old(data)).Err? ==> err == Some(CompressStore(old(data)).error)
    {
      err := Decompress();
      if err.Some? {
        return;
      }
      SortRecords();
      CompressGroups();
    }

    /** The sort pass of `compress`: each package record replaced by its sorted copy. */
    method SortRecords()
      modifies this
      ensures data == SortStore(old(data))
    {
      var n := 0;
      while n < |data|
        invariant 0 <= n <= |data| == |old(data)|
        invariant forall k :: 0 <= k < n ==> data[k] == (old(data)[k].0, SortRecord(old(data)[k].1))
        invariant forall k :: n <= k < |data| ==> data[k] == old(data)[k]
      {
        data := data[n := (data[n].0, SortRecord(data[n].1))];
        n := n + 1;
      }
    }

    /** The deduplication pass of `compress`: a fresh table for every (name, pyver) group. */
    method CompressGroups()
      modifies this
      ensures data == CompressStoreGroups(old(data))
    {
      var n := 0;
      while n < |data|
        invariant 0 <= n <= |data| == |old(data)|
        invariant forall k :: 0 <= k < n ==> data[k] == (old(data)[k].0, CompressRecordGroups(old(data)[k].1))
        invariant forall k :: n <= k < |data| ==> data[k] == old(data)[k]
      {
        var rec := data[n].1;
        var p := 0;
        while p < |rec|
          invariant 0 <= p <= |rec| == |data[n].1|
          invariant forall k :: 0 <= k < p ==> rec[k] == (data[n].1[k].0, CompressGroup(data[n].1[k].1))
          invariant forall k :: p <= k < |rec| ==> rec[k] == data[n].1[k]
          modifies {}
        {
          var g, _ := CompressGroupLoop(rec[p].1, []);
          rec := rec[p := (rec[p].0, g)];
          p := p + 1;
        }
        assert rec == CompressRecordGroups(data[n].1);
        data := data[n := (data[n].0, rec)];
        n := n + 1;
      }
    }

    /** The older `compress`: no decompress and no sort, and one table per package shared by
        all of its pyvers. */
    method OldCompress()
      modifies this
      ensures data == OldCompressStore(old(data))
    {
      var n := 0;
      while n < |data|
        invariant 0 <= n <= |data| == |old(data)|
        invariant forall k :: 0 <= k < n ==> data[k] == (old(data)[k].0, OldCompressRecord(old(data)[k].1))
        invariant forall k :: n <= k < |data| ==> data[k] == old(data)[k]
      {
        var rec := data[n].1;
        var t: Table := [];
        var y := 0;
        while y < |rec|
          invariant 0 <= y <= |rec|
          invariant OldCompressAt(rec, y, t) == OldCompressAt(data[n].1, 0, [])
          modifies {}
        {
          var g;
          g, t := CompressGroupLoop(rec[y].1, t);
          rec := rec[y := (rec[y].0, g)];
          y := y + 1;
        }
        data := data[n := (data[n].0, rec)];
        n := n + 1;
      }
      assert data == OldCompressStore(old(data));
    }

    /** `process_result`: create the missing levels of the job's path, then set its entry to
        a fresh document holding the truthy fields. */
    method ProcessResult(job: Job, f: Fields)
      modifies this
      ensures data == MergeResult(old(data), job, f)
    {
      var rec := LookupOr(data, job.name, []);
      var g := LookupOr(rec, job.pyver, []);
      var fs := LookupOr(g, job.ver, []);
      var doc := Doc(None, None, None);
      if Truthy(f.requiresDist) {
        doc := doc.(requiresDist := f.requiresDist);
      }
      if Truthy(f.providesExtras) {
        doc := doc.(providesExtras := f.providesExtras);
      }
      if Truthy(f.requiresExternal) {
        doc := doc.(requiresExternal := f.requiresExternal);
      }
      fs := Upsert(fs, job.filename, Inline(doc));
      g := Upsert(g, job.ver, fs);
      rec := Upsert(rec, job.pyver, g);
      data := Upsert(data, job.name, rec);
    }

    /** The merge loop of the older `main`: failed jobs are skipped, every fetched result is
        merged in order. */
    method MergeResults(rs: seq<WheelResult>)
      modifies this
      ensures data == MergeAll(old(data), rs)
    {
      var i := 0;
      while i < |rs|
        invariant 0 <= i <= |rs|
        invariant data == MergeAll(old(data), rs[..i])
      {
        MergeAllStep(old(data), rs[..i], rs[i]);
        assert rs[..i + 1] == rs[..i] + [rs[i]];
        var r := rs[i];
        if r.Fetched? {
          ProcessResult(r.job, r.fields);
        }
        i := i + 1;
      }
      assert rs[..i] == rs;
    }
  }
}
