/** The wheel-dependency store and its deduplication (`decompress`, `sort`, `compress` of
    src/wheel_deps_spider.py and the older `compress` of src/crawl_wheel_deps_old.py),
    as specification functions over values.

    The store maps name -> pyver -> version -> filename -> entry.  An entry is either an
    inline dependency document or a reference string "version@filename" naming an entry of
    the same (name, pyver) group, called a group here.  The Python code rewrites the
    group in place while it iterates over it; the functions below follow that order
    position by position, `(i, j)` being the `j`-th filename of the `i`-th version.
 */
module Dedup {
  import opened Base
  import opened Strings
  import opened Ordering

  /** The dependency metadata of one wheel: the truthy ones among the three fields. */
  datatype Doc = Doc(
    requiresDist: Option<seq<string>>,
    providesExtras: Option<seq<string>>,
    requiresExternal: Option<seq<string>>)

  /** An inline document, or a string "version@filename" standing for another entry. */
  datatype Entry = Inline(doc: Doc) | Ref(key: string)

  type Fnames = seq<(string, Entry)>   // filename -> entry
  type Group = seq<(string, Fnames)>   // version -> filenames: one (name, pyver) group
  type Record = seq<(string, Group)>   // pyver -> group
  type Store = seq<(string, Record)>   // name -> record

  /** `decompress` stops the process on a reference that does not split into two parts
      (`ValueError` on unpacking) or whose target is missing (`KeyError`, then `exit()`). */
  datatype DecompressError = MalformedRef(ref: string) | DanglingRef(ver: string, fn: string)

  /** The reference string that `compress` writes for filename `fn` of version `ver`. */
  function RefKey(ver: string, fn: string): string { ver + "@" + fn }

  // ---------------------------------------------------------------------------------------
  // Positions in a group

  predicate ValidPos(g: Group, i: int, j: int) { 0 <= i < |g| && 0 <= j < |g[i].1| }

  function At(g: Group, i: int, j: int): Entry
    requires ValidPos(g, i, j)
  {
    g[i].1[j].1
  }

  /** The reference key naming position `(i, j)`. */
  function KeyAt(g: Group, i: int, j: int): string
    requires ValidPos(g, i, j)
  {
    RefKey(g[i].0, g[i].1[j].0)
  }

  /** `(p, q)` is visited before `(i, j)` by the nested loops. */
  predicate Before(p: int, q: int, i: int, j: int) { p < i || (p == i && q < j) }

  /** Same versions and filenames, in the same order; the entries may differ. */
  ghost predicate SameShape(a: Group, b: Group) {
    && |a| == |b|
    && (forall i :: 0 <= i < |a| ==> a[i].0 == b[i].0 && |a[i].1| == |b[i].1|)
    && (forall i, j :: ValidPos(a, i, j) ==> a[i].1[j].0 == b[i].1[j].0)
  }

  /** Every level is a real dictionary: keys occur once. */
  ghost predicate WellFormedGroup(g: Group) {
    DistinctKeys(g) && forall i :: 0 <= i < |g| ==> DistinctKeys(g[i].1)
  }

  /** `fnames[fn] = e` at position `(i, j)`. */
  function SetAt(g: Group, i: int, j: int, e: Entry): (r: Group)
    requires ValidPos(g, i, j)
    ensures SameShape(r, g) && At(r, i, j) == e
    ensures forall p, q :: ValidPos(g, p, q) && (p, q) != (i, j) ==> At(r, p, q) == At(g, p, q)
  {
    g[i := (g[i].0, g[i].1[j := (g[i].1[j].0, e)])]
  }

  lemma SameShapeSym(a: Group, b: Group)
    requires SameShape(a, b)
    ensures SameShape(b, a)
  {
  }

  /** Two groups of the same shape with the same entries are equal. */
  lemma GroupExt(a: Group, b: Group)
    requires SameShape(a, b)
    requires forall i, j :: ValidPos(a, i, j) ==> At(a, i, j) == At(b, i, j)
    ensures a == b
  {
    forall i | 0 <= i < |a| ensures a[i] == b[i] {
      assert forall j :: 0 <= j < |a[i].1| ==> a[i].1[j] == b[i].1[j] by {
        forall j | 0 <= j < |a[i].1| ensures a[i].1[j] == b[i].1[j] {
          assert ValidPos(a, i, j);
        }
      }
      assert a[i].1 == b[i].1;
    }
  }

  /** Position of `pkg_vers[kv][kf]`, if both keys are present. */
  function Pos2(g: Group, kv: string, kf: string): (r: Option<(nat, nat)>)
    ensures r.Some? ==> ValidPos(g, r.value.0, r.value.1)
  {
    match FindKey(g, kv)
    case None => None
    case Some(a) =>
      match FindKey(g[a].1, kf)
      case None => None
      case Some(b) => Some((a, b))
  }

  /** `pkg_vers[kv][kf]`, or `None` where Python raises `KeyError`. */
  function Lookup2(g: Group, kv: string, kf: string): Option<Entry> {
    match Pos2(g, kv, kf)
    case None => None
    case Some((a, b)) => Some(At(g, a, b))
  }

  /** Only the keys matter to finding a position. */
  lemma Pos2SameShape(a: Group, b: Group, kv: string, kf: string)
    requires SameShape(a, b)
    ensures Pos2(a, kv, kf) == Pos2(b, kv, kf)
  {
    FindKeySameKeys(a, b, kv);
    match FindKey(a, kv)
    case None =>
    case Some(x) =>
      FindKeySameKeys(a[x].1, b[x].1, kf);
  }

  /** In a well-formed group the keys of position `(i, j)` find `(i, j)`. */
  lemma Pos2At(g: Group, i: int, j: int)
    requires WellFormedGroup(g) && ValidPos(g, i, j)
    ensures Pos2(g, g[i].0, g[i].1[j].0) == Some((i as nat, j as nat))
  {
    FindKeyAt(g, i);
    FindKeyAt(g[i].1, j);
  }

  // ---------------------------------------------------------------------------------------
  // decompress

  /** `decompress` of one group, continued from position `(i, j)`: each reference is split
      on '@' and overwritten by the entry it names, looked up in the group as it stands at
      that moment. */
  function DecompressAt(g: Group, i: nat, j: nat): Result<Group, DecompressError>
    decreases |g| - i, if i < |g| then |g[i].1| - j else 0
  {
    if i >= |g| then Ok(g)
    else if j >= |g[i].1| then DecompressAt(g, i + 1, 0)
    else match At(g, i, j)
      case Inline(_) => DecompressAt(g, i, j + 1)
      case Ref(s) =>
        var parts := Split(s, '@');
        if |parts| != 2 then Err(MalformedRef(s))
        else match Lookup2(g, parts[0], parts[1])
          case None => Err(DanglingRef(parts[0], parts[1]))
          case Some(e) => DecompressAt(SetAt(g, i, j, e), i, j + 1)
  }

  function DecompressGroup(g: Group): Result<Group, DecompressError> {
    DecompressAt(g, 0, 0)
  }

  /** A reference that splits into two parts naming an existing entry. */
  predicate RefResolves(g: Group, s: string) {
    var parts := Split(s, '@');
    |parts| == 2 && Lookup2(g, parts[0], parts[1]).Some?
  }

  /** A reference that names an inline entry. */
  predicate RefResolvesInline(g: Group, s: string) {
    var parts := Split(s, '@');
    |parts| == 2 && Lookup2(g, parts[0], parts[1]).Some? && Lookup2(g, parts[0], parts[1]).value.Inline?
  }

  /** The entry a reference stands for in `g` (the entry itself when it is inline or its
      target is missing). */
  function ResolveEntry(g: Group, e: Entry): Entry {
    match e
    case Inline(_) => e
    case Ref(s) =>
      var parts := Split(s, '@');
      if |parts| == 2 && Lookup2(g, parts[0], parts[1]).Some? then Lookup2(g, parts[0], parts[1]).value
      else e
  }

  /** Every reference of `g` replaced, all at once, by what it names in `g`: the
      order-independent reference definition of `decompress`. */
  function Resolve(g: Group): (r: Group)
    ensures SameShape(r, g)
    ensures forall i, j :: ValidPos(g, i, j) ==> At(r, i, j) == ResolveEntry(g, At(g, i, j))
  {
    seq(|g|, i requires 0 <= i < |g| =>
      (g[i].0, seq(|g[i].1|, j requires 0 <= j < |g[i].1| => (g[i].1[j].0, ResolveEntry(g, g[i].1[j].1)))))
  }

  /** Every reference names an inline entry of the group. */
  ghost predicate RefsInline(g: Group) {
    forall i, j :: ValidPos(g, i, j) && At(g, i, j).Ref? ==> RefResolvesInline(g, At(g, i, j).key)
  }

  /** `c` is `g` part-way through `decompress`: the entries before `(i, j)` resolved, the
      rest as in `g`. */
  ghost predicate ResolvedBefore(g: Group, c: Group, i: int, j: int) {
    && SameShape(c, g)
    && (forall p, q :: ValidPos(g, p, q) && Before(p, q, i, j) ==> At(c, p, q) == At(Resolve(g), p, q))
    && (forall p, q :: ValidPos(g, p, q) && !Before(p, q, i, j) ==> At(c, p, q) == At(g, p, q))
  }

  lemma {:induction false} DecompressFrom(g: Group, c: Group, i: nat, j: nat)
    requires RefsInline(g) && ResolvedBefore(g, c, i, j)
    ensures DecompressAt(c, i, j) == Ok(Resolve(g))
    decreases |c| - i, if i < |c| then |c[i].1| - j else 0, 1
  {
    if i >= |c| {
      GroupExt(c, Resolve(g));
    } else if j >= |c[i].1| {
      ResolvedRowEnd(g, c, i, j);
      DecompressFrom(g, c, i + 1, 0);
    } else {
      DecompressCellFrom(g, c, i, j);
    }
  }

  /** The step of `DecompressFrom` at an entry of the group. */
  lemma {:induction false} DecompressCellFrom(g: Group, c: Group, i: nat, j: nat)
    requires RefsInline(g) && ResolvedBefore(g, c, i, j) && ValidPos(c, i, j)
    ensures DecompressAt(c, i, j) == Ok(Resolve(g))
    decreases |c| - i, |c[i].1| - j, 0
  {
    if At(c, i, j).Inline? {
      ResolvedInline(g, c, i, j);
      DecompressFrom(g, c, i, j + 1);
    } else {
      DecompressRefStep(g, c, i, j);
      var c' := SetAt(c, i, j, At(Resolve(g), i, j));
      DecompressFrom(g, c', i, j + 1);
      DecompressAtRef(c, i, j, At(Resolve(g), i, j));
    }
  }

  /** `decompress` at a reference that resolves to `e`: `e` is written there and the loop
      moves on. */
  lemma DecompressAtRef(c: Group, i: nat, j: nat, e: Entry)
    requires ValidPos(c, i, j) && At(c, i, j).Ref?
    requires var parts := Split(At(c, i, j).key, '@'); |parts| == 2 && Lookup2(c, parts[0], parts[1]) == Some(e)
    ensures DecompressAt(c, i, j) == DecompressAt(SetAt(c, i, j, e), i, j + 1)
  {
  }

  lemma ResolvedRowEnd(g: Group, c: Group, i: nat, j: nat)
    requires ResolvedBefore(g, c, i, j) && i < |c| && j >= |c[i].1|
    ensures ResolvedBefore(g, c, i + 1, 0)
    ensures DecompressAt(c, i, j) == DecompressAt(c, i + 1, 0)
  {
  }

  lemma ResolvedInline(g: Group, c: Group, i: nat, j: nat)
    requires ResolvedBefore(g, c, i, j) && ValidPos(g, i, j) && At(c, i, j).Inline?
    ensures ResolvedBefore(g, c, i, j + 1)
    ensures DecompressAt(c, i, j) == DecompressAt(c, i, j + 1)
  {
  }

  /** One reference resolved by `decompress`: while every reference names an inline entry,
      the entry found is the one `Resolve` puts there. */
  lemma DecompressRefStep(g: Group, c: Group, i: nat, j: nat)
    requires RefsInline(g) && ResolvedBefore(g, c, i, j) && ValidPos(g, i, j) && At(c, i, j).Ref?
    ensures var parts := Split(At(c, i, j).key, '@');
      |parts| == 2 && Lookup2(c, parts[0], parts[1]) == Some(At(Resolve(g), i, j))
    ensures ResolvedBefore(g, SetAt(c, i, j, At(Resolve(g), i, j)), i, j + 1)
  {
    var parts := Split(At(c, i, j).key, '@');
    Pos2SameShape(c, g, parts[0], parts[1]);
    var (a, b) := Pos2(g, parts[0], parts[1]).value;
    assert At(c, a, b) == At(g, a, b);
  }

  /** When every reference names an inline entry, `decompress` replaces each reference by
      the entry it names and leaves everything else alone. */
  lemma DecompressResolves(g: Group)
    requires RefsInline(g)
    ensures DecompressGroup(g) == Ok(Resolve(g))
  {
    DecompressFrom(g, g, 0, 0);
  }

  lemma {:induction false} DecompressOkFrom(g: Group, c: Group, i: nat, j: nat)
    requires SameShape(c, g)
    requires forall p, q :: ValidPos(g, p, q) && !Before(p, q, i, j) ==> At(c, p, q) == At(g, p, q)
    requires DecompressAt(c, i, j).Ok?
    ensures forall p, q :: ValidPos(g, p, q) && !Before(p, q, i, j) && At(g, p, q).Ref? ==>
      RefResolves(g, At(g, p, q).key)
    decreases |c| - i, if i < |c| then |c[i].1| - j else 0
  {
    if i >= |c| {
    } else if j >= |c[i].1| {
      DecompressOkFrom(g, c, i + 1, 0);
    } else {
      assert ValidPos(g, i, j);
      match At(c, i, j)
      case Inline(_) =>
        DecompressOkFrom(g, c, i, j + 1);
      case Ref(s) =>
        var parts := Split(s, '@');
        Pos2SameShape(c, g, parts[0], parts[1]);
        var c' := SetAt(c, i, j, Lookup2(c, parts[0], parts[1]).value);
        DecompressOkFrom(g, c', i, j + 1);
    }
  }

  /** A reference that does not split into exactly two parts, or whose target is missing,
      makes `decompress` fail. */
  lemma DanglingRefFails(g: Group, i: int, j: int)
    requires ValidPos(g, i, j) && At(g, i, j).Ref? && !RefResolves(g, At(g, i, j).key)
    ensures DecompressGroup(g).Err?
  {
    if DecompressGroup(g).Ok? {
      DecompressOkFrom(g, g, 0, 0);
    }
  }

  lemma {:induction false} DecompressKeepsFrom(g: Group, c: Group, i: nat, j: nat)
    requires SameShape(c, g)
    requires forall p, q :: ValidPos(g, p, q) && At(g, p, q).Inline? ==> At(c, p, q) == At(g, p, q)
    requires DecompressAt(c, i, j).Ok?
    ensures SameShape(DecompressAt(c, i, j).value, g)
    ensures forall p, q :: ValidPos(g, p, q) && At(g, p, q).Inline? ==> At(DecompressAt(c, i, j).value, p, q) == At(g, p, q)
    decreases |c| - i, if i < |c| then |c[i].1| - j else 0
  {
    if i >= |c| {
    } else if j >= |c[i].1| {
      DecompressKeepsFrom(g, c, i + 1, 0);
    } else {
      assert ValidPos(g, i, j);
      match At(c, i, j)
      case Inline(_) =>
        DecompressKeepsFrom(g, c, i, j + 1);
      case Ref(s) =>
        var parts := Split(s, '@');
        var c' := SetAt(c, i, j, Lookup2(c, parts[0], parts[1]).value);
        assert !At(g, i, j).Inline?;
        DecompressKeepsFrom(g, c', i, j + 1);
    }
  }

  /** A successful `decompress` keeps every key and every inline entry. */
  lemma DecompressKeeps(g: Group)
    requires DecompressGroup(g).Ok?
    ensures SameShape(DecompressGroup(g).value, g)
    ensures forall p, q :: ValidPos(g, p, q) && At(g, p, q).Inline? ==> At(DecompressGroup(g).value, p, q) == At(g, p, q)
  {
    DecompressKeepsFrom(g, g, 0, 0);
  }

  // ---------------------------------------------------------------------------------------
  // compress

  /** `all_fnames`: reference key -> inline document, in insertion order. */
  type Table = seq<(string, Doc)>

  /** No document occurs twice in the table. */
  ghost predicate DistinctDocs(t: Table) {
    forall a, b :: 0 <= a < b < |t| ==> t[a].1 != t[b].1
  }

  /** The first key whose document equals `d` (the inner `for ... break`). */
  function FindDoc(t: Table, d: Doc): (r: Option<string>)
    ensures r.None? <==> forall k :: 0 <= k < |t| ==> t[k].1 != d
    ensures r.Some? ==> (r.value, d) in t
    ensures r.Some? ==> exists k :: 0 <= k < |t| && t[k] == (r.value, d) && forall k' :: 0 <= k' < k ==> t[k'].1 != d
  {
    if |t| == 0 then None
    else if t[0].1 == d then Some(t[0].0)
    else
      var r := FindDoc(t[1..], d);
      assert r.Some? ==> exists k :: 0 <= k < |t| && t[k] == (r.value, d) && forall k' :: 0 <= k' < k ==> t[k'].1 != d by {
        if r.Some? {
          var k :| 0 <= k < |t[1..]| && t[1..][k] == (r.value, d) && forall k' :: 0 <= k' < k ==> t[1..][k'].1 != d;
          assert t[k + 1] == (r.value, d);
          forall k' | 0 < k' < k + 1 ensures t[k'] == t[1..][k' - 1] {}
        }
      }
      r
  }

  /** The key an entry is collapsed to: only an inline entry can equal a table document. */
  function Match(t: Table, e: Entry): Option<string> {
    if e.Inline? then FindDoc(t, e.doc) else None
  }

  /** One step of `compress` at position `(i, j)` with table `t`: an entry equal to a table
      document becomes that document's key; an entry that is still inline is added to the
      table under its own key. */
  function CompressCell(g: Group, i: nat, j: nat, t: Table): (r: (Group, Table))
    requires ValidPos(g, i, j)
    ensures SameShape(r.0, g)
  {
    var e := At(g, i, j);
    match Match(t, e)
    case Some(k) => (SetAt(g, i, j, Ref(k)), t)
    case None =>
      if e.Inline? then (g, Upsert(t, KeyAt(g, i, j), e.doc)) else (g, t)
  }

  /** `compress` of one group, continued from position `(i, j)` with table `t`. */
  function CompressAt(g: Group, i: nat, j: nat, t: Table): (Group, Table)
    decreases |g| - i, if i < |g| then |g[i].1| - j else 0
  {
    if i >= |g| then (g, t)
    else if j >= |g[i].1| then CompressAt(g, i + 1, 0, t)
    else
      var r := CompressCell(g, i, j, t);
      assert |r.0| == |g| && |r.0[i].1| == |g[i].1|;
      CompressAt(r.0, i, j + 1, r.1)
  }

  /** The per-group `compress` of src/wheel_deps_spider.py: a fresh table per group. */
  function CompressGroup(g: Group): Group {
    CompressAt(g, 0, 0, []).0
  }

  /** What `compress` promises about a processed position `(p, q)` of `c`, compressed
      from `g0` with incoming table `t0`: the entry is unchanged, or it was inline and is
      now a reference whose key carries the same document, either in `t0` or at an
      earlier position of the group that kept it inline. */
  ghost predicate Collapsed(g0: Group, c: Group, t0: Table, p: int, q: int)
    requires SameShape(c, g0) && ValidPos(g0, p, q)
  {
    || At(c, p, q) == At(g0, p, q)
    || (&& At(g0, p, q).Inline? && At(c, p, q).Ref?
        && ((At(c, p, q).key, At(g0, p, q).doc) in t0
            || exists a, b :: ValidPos(g0, a, b) && Before(a, b, p, q) && At(c, a, b) == At(g0, a, b)
                 && At(g0, a, b) == At(g0, p, q) && At(c, p, q).key == KeyAt(g0, a, b)))
  }

  /** A table entry added while compressing `g0` names a position kept inline with that
      document. */
  ghost predicate NamesKept(g0: Group, c: Group, entry: (string, Doc), i: int, j: int)
    requires SameShape(c, g0)
  {
    exists a, b :: ValidPos(g0, a, b) && Before(a, b, i, j) && At(c, a, b) == At(g0, a, b)
      && At(g0, a, b) == Inline(entry.1) && entry.0 == KeyAt(g0, a, b)
  }

  /** No two positions share a reference key. */
  ghost predicate DistinctRefKeys(g: Group) {
    forall p, q, p', q' :: ValidPos(g, p, q) && ValidPos(g, p', q') && (p, q) != (p', q') ==>
      KeyAt(g, p, q) != KeyAt(g, p', q')
  }

  /** No two positions of `g0` share a reference key, and no key of `t0` is one of them:
      then every insertion into the table adds a new key. */
  ghost predicate FreshKeys(g0: Group, t0: Table) {
    && DistinctRefKeys(g0)
    && (forall x, p, q :: 0 <= x < |t0| && ValidPos(g0, p, q) ==> t0[x].0 != KeyAt(g0, p, q))
  }

  /** The entries of `c`: `g0` compressed up to, not including, position `(i, j)`. */
  ghost predicate InvEntries(g0: Group, c: Group, t0: Table, i: int, j: int) {
    && SameShape(c, g0)
    && (forall p, q :: ValidPos(g0, p, q) && !Before(p, q, i, j) ==> At(c, p, q) == At(g0, p, q))
    && (forall p, q :: ValidPos(g0, p, q) && Before(p, q, i, j) ==> Collapsed(g0, c, t0, p, q))
    && (forall p, q :: ValidPos(g0, p, q) && At(c, p, q).Inline? ==> At(c, p, q) == At(g0, p, q))
  }

  /** The table `t` grown from `t0`: the keys of `t0` stay, and every other entry names a
      position kept inline. */
  ghost predicate InvTable(g0: Group, c: Group, t0: Table, t: Table, i: int, j: int)
    requires SameShape(c, g0)
  {
    && |t0| <= |t| && (forall x :: 0 <= x < |t0| ==> t[x].0 == t0[x].0)
    && (forall x :: 0 <= x < |t| ==> (x < |t0| && t[x] == t0[x]) || NamesKept(g0, c, t[x], i, j))
    && (DistinctDocs(t0) ==> DistinctDocs(t))
  }

  /** With fresh keys: every processed inline entry is in the table, with a document not in
      `t0`, and no two of them are equal. */
  ghost predicate InvFresh(g0: Group, c: Group, t0: Table, t: Table, i: int, j: int)
    requires SameShape(c, g0)
  {
    && (forall p, q :: ValidPos(g0, p, q) && Before(p, q, i, j) && At(c, p, q).Inline? ==>
          && (KeyAt(g0, p, q), At(c, p, q).doc) in t
          && forall k :: 0 <= k < |t0| ==> t0[k].1 != At(c, p, q).doc)
    && (forall p, q, p', q' ::
          (&& ValidPos(g0, p, q) && ValidPos(g0, p', q') && Before(p, q, i, j) && Before(p', q', i, j)
           && (p, q) != (p', q') && At(c, p, q).Inline? && At(c, p', q').Inline?)
          ==> At(c, p, q) != At(c, p', q'))
  }

  /** The loop invariant of `compress` over one group. */
  ghost predicate CompressInv(g0: Group, c: Group, t0: Table, t: Table, i: int, j: int) {
    && InvEntries(g0, c, t0, i, j)
    && InvTable(g0, c, t0, t, i, j)
    && (FreshKeys(g0, t0) ==> InvFresh(g0, c, t0, t, i, j))
  }

  lemma CollapsedMono(g0: Group, c: Group, c': Group, t0: Table, p: int, q: int)
    requires SameShape(c, g0) && SameShape(c', g0) && ValidPos(g0, p, q)
    requires Collapsed(g0, c, t0, p, q)
    requires forall a, b :: ValidPos(g0, a, b) && (Before(a, b, p, q) || (a == p && b == q)) ==> At(c', a, b) == At(c, a, b)
    ensures Collapsed(g0, c', t0, p, q)
  {
    if At(c, p, q) != At(g0, p, q) && (At(c, p, q).key, At(g0, p, q).doc) !in t0 {
      var a, b :| ValidPos(g0, a, b) && Before(a, b, p, q) && At(c, a, b) == At(g0, a, b)
        && At(g0, a, b) == At(g0, p, q) && At(c, p, q).key == KeyAt(g0, a, b);
      assert At(c', a, b) == At(c, a, b);
    }
  }

  lemma NamesKeptMono(g0: Group, c: Group, c': Group, entry: (string, Doc), i: int, j: int, i': int, j': int)
    requires SameShape(c, g0) && SameShape(c', g0)
    requires NamesKept(g0, c, entry, i, j)
    requires Before(i, j, i', j') || (i == i' && j == j')
    requires forall a, b :: ValidPos(g0, a, b) && Before(a, b, i, j) ==> At(c', a, b) == At(c, a, b)
    ensures NamesKept(g0, c', entry, i', j')
  {
    var a, b :| ValidPos(g0, a, b) && Before(a, b, i, j) && At(c, a, b) == At(g0, a, b)
      && At(g0, a, b) == Inline(entry.1) && entry.0 == KeyAt(g0, a, b);
    assert At(c', a, b) == At(c, a, b);
    assert Before(a, b, i', j');
  }

  /** Moving past the end of a version's filenames. */
  lemma CompressStepRow(g0: Group, c: Group, t0: Table, t: Table, i: nat, j: nat)
    requires i < |c| && j == |c[i].1|
    requires CompressInv(g0, c, t0, t, i, j)
    ensures CompressInv(g0, c, t0, t, i + 1, 0)
  {
    forall x | 0 <= x < |t| && !(x < |t0| && t[x] == t0[x]) ensures NamesKept(g0, c, t[x], i + 1, 0) {
      NamesKeptMono(g0, c, c, t[x], i, j, i + 1, 0);
    }
  }

  /** An entry equal to a table document becomes a reference to that document's key. */
  lemma CompressStepMatch(g0: Group, c: Group, t0: Table, t: Table, i: nat, j: nat, k: string)
    requires ValidPos(c, i, j)
    requires CompressInv(g0, c, t0, t, i, j)
    requires Match(t, At(c, i, j)) == Some(k)
    ensures CompressInv(g0, SetAt(c, i, j, Ref(k)), t0, t, i, j + 1)
  {
    MatchEntries(g0, c, t0, t, i, j, k);
    MatchTable(g0, c, t0, t, i, j, k);
  }

  lemma MatchEntries(g0: Group, c: Group, t0: Table, t: Table, i: nat, j: nat, k: string)
    requires ValidPos(c, i, j)
    requires CompressInv(g0, c, t0, t, i, j)
    requires Match(t, At(c, i, j)) == Some(k)
    ensures InvEntries(g0, SetAt(c, i, j, Ref(k)), t0, i, j + 1)
  {
    assert ValidPos(g0, i, j);
    var e := At(c, i, j);
    var c' := SetAt(c, i, j, Ref(k));
    assert (k, e.doc) in t;
    MatchCollapsed(g0, c, t0, t, i, j, k);
    forall p, q | ValidPos(g0, p, q) && Before(p, q, i, j) ensures Collapsed(g0, c', t0, p, q) {
      CollapsedMono(g0, c, c', t0, p, q);
    }
  }

  /** The entry just turned into a reference is collapsed onto the table document it
      matched. */
  lemma MatchCollapsed(g0: Group, c: Group, t0: Table, t: Table, i: nat, j: nat, k: string)
    requires ValidPos(c, i, j)
    requires CompressInv(g0, c, t0, t, i, j)
    requires At(c, i, j).Inline? && (k, At(c, i, j).doc) in t
    ensures Collapsed(g0, SetAt(c, i, j, Ref(k)), t0, i, j)
  {
    var e := At(c, i, j);
    var c' := SetAt(c, i, j, Ref(k));
    var x :| 0 <= x < |t| && t[x] == (k, e.doc);
    if !(x < |t0| && t[x] == t0[x]) {
      assert NamesKept(g0, c, t[x], i, j);
      var a, b :| ValidPos(g0, a, b) && Before(a, b, i, j) && At(c, a, b) == At(g0, a, b)
        && At(g0, a, b) == Inline(t[x].1) && t[x].0 == KeyAt(g0, a, b);
      assert At(c', a, b) == At(c, a, b);
    }
  }

  lemma MatchTable(g0: Group, c: Group, t0: Table, t: Table, i: nat, j: nat, k: string)
    requires ValidPos(c, i, j)
    requires CompressInv(g0, c, t0, t, i, j)
    requires Match(t, At(c, i, j)) == Some(k)
    ensures InvTable(g0, SetAt(c, i, j, Ref(k)), t0, t, i, j + 1)
    ensures FreshKeys(g0, t0) ==> InvFresh(g0, SetAt(c, i, j, Ref(k)), t0, t, i, j + 1)
  {
    var c' := SetAt(c, i, j, Ref(k));
    forall x | 0 <= x < |t| && !(x < |t0| && t[x] == t0[x]) ensures NamesKept(g0, c', t[x], i, j + 1) {
      NamesKeptMono(g0, c, c', t[x], i, j, i, j + 1);
    }
  }

  /** An inline entry whose document is not in the table is kept and stored under its own
      key: appended when the key is new, replacing the key's document otherwise. */
  lemma CompressStepAdd(g0: Group, c: Group, t0: Table, t: Table, i: nat, j: nat)
    requires ValidPos(c, i, j) && At(c, i, j).Inline?
    requires CompressInv(g0, c, t0, t, i, j)
    requires Match(t, At(c, i, j)).None?
    ensures CompressInv(g0, c, t0, Upsert(t, KeyAt(c, i, j), At(c, i, j).doc), i, j + 1)
  {
    assert ValidPos(g0, i, j);
    forall p, q | ValidPos(g0, p, q) && Before(p, q, i, j + 1) ensures Collapsed(g0, c, t0, p, q) {
      if !(p == i && q == j) { assert Before(p, q, i, j); }
    }
    assert InvEntries(g0, c, t0, i, j + 1);
    if FindKey(t, KeyAt(c, i, j)).None? {
      AddTable(g0, c, t0, t, i, j);
      AddFresh(g0, c, t0, t, i, j);
    } else {
      ReplaceTable(g0, c, t0, t, i, j);
    }
  }

  lemma AddTable(g0: Group, c: Group, t0: Table, t: Table, i: nat, j: nat)
    requires ValidPos(c, i, j) && At(c, i, j).Inline?
    requires CompressInv(g0, c, t0, t, i, j)
    requires Match(t, At(c, i, j)).None? && FindKey(t, KeyAt(c, i, j)).None?
    ensures InvTable(g0, c, t0, t + [(KeyAt(c, i, j), At(c, i, j).doc)], i, j + 1)
  {
    assert ValidPos(g0, i, j);
    var e := At(c, i, j);
    var t' := t + [(KeyAt(c, i, j), e.doc)];
    assert KeyAt(c, i, j) == KeyAt(g0, i, j);
    forall x | 0 <= x < |t'| && !(x < |t0| && t'[x] == t0[x]) ensures NamesKept(g0, c, t'[x], i, j + 1) {
      if x < |t| {
        assert t'[x] == t[x];
        NamesKeptMono(g0, c, c, t[x], i, j, i, j + 1);
      } else {
        assert Before(i, j, i, j + 1);
      }
    }
  }

  lemma AddFresh(g0: Group, c: Group, t0: Table, t: Table, i: nat, j: nat)
    requires ValidPos(c, i, j) && At(c, i, j).Inline?
    requires CompressInv(g0, c, t0, t, i, j)
    requires Match(t, At(c, i, j)).None? && FindKey(t, KeyAt(c, i, j)).None?
    ensures FreshKeys(g0, t0) ==> InvFresh(g0, c, t0, t + [(KeyAt(c, i, j), At(c, i, j).doc)], i, j + 1)
  {
    if FreshKeys(g0, t0) {
      assert ValidPos(g0, i, j);
      var e := At(c, i, j);
      var t' := t + [(KeyAt(c, i, j), e.doc)];
      assert KeyAt(c, i, j) == KeyAt(g0, i, j);
      forall x | 0 <= x < |t0| ensures t0[x].1 != e.doc {
        if t[x] != t0[x] {
          assert false;
        }
      }
      assert t'[|t|] == (KeyAt(g0, i, j), e.doc);
    }
  }

  lemma ReplaceTable(g0: Group, c: Group, t0: Table, t: Table, i: nat, j: nat)
    requires ValidPos(c, i, j) && At(c, i, j).Inline?
    requires CompressInv(g0, c, t0, t, i, j)
    requires Match(t, At(c, i, j)).None? && FindKey(t, KeyAt(c, i, j)).Some?
    ensures !FreshKeys(g0, t0)
    ensures InvTable(g0, c, t0, Upsert(t, KeyAt(c, i, j), At(c, i, j).doc), i, j + 1)
  {
    assert ValidPos(g0, i, j);
    var e := At(c, i, j);
    var y := FindKey(t, KeyAt(c, i, j)).value;
    var t' := Upsert(t, KeyAt(c, i, j), e.doc);
    assert t' == t[y := (KeyAt(c, i, j), e.doc)];
    assert KeyAt(c, i, j) == KeyAt(g0, i, j);
    if y < |t0| && t[y] == t0[y] {
    } else {
      assert NamesKept(g0, c, t[y], i, j);
    }
    forall x | 0 <= x < |t'| && !(x < |t0| && t'[x] == t0[x]) ensures NamesKept(g0, c, t'[x], i, j + 1) {
      if x != y {
        assert t'[x] == t[x];
        NamesKeptMono(g0, c, c, t[x], i, j, i, j + 1);
      } else {
        assert Before(i, j, i, j + 1);
      }
    }
  }

  /** A reference is left as it is. */
  lemma CompressStepSkip(g0: Group, c: Group, t0: Table, t: Table, i: nat, j: nat)
    requires ValidPos(c, i, j) && At(c, i, j).Ref?
    requires CompressInv(g0, c, t0, t, i, j)
    ensures CompressInv(g0, c, t0, t, i, j + 1)
  {
    forall x | 0 <= x < |t| && !(x < |t0| && t[x] == t0[x]) ensures NamesKept(g0, c, t[x], i, j + 1) {
      NamesKeptMono(g0, c, c, t[x], i, j, i, j + 1);
    }
  }

  /** One step of `compress` keeps the invariant. */
  lemma CompressCellInv(g0: Group, c: Group, t0: Table, t: Table, i: nat, j: nat)
    requires ValidPos(c, i, j)
    requires CompressInv(g0, c, t0, t, i, j)
    ensures CompressInv(g0, CompressCell(c, i, j, t).0, t0, CompressCell(c, i, j, t).1, i, j + 1)
  {
    match Match(t, At(c, i, j))
    case Some(k) => CompressStepMatch(g0, c, t0, t, i, j, k);
    case None =>
      if At(c, i, j).Inline? {
        CompressStepAdd(g0, c, t0, t, i, j);
      } else {
        CompressStepSkip(g0, c, t0, t, i, j);
      }
  }

  lemma {:induction false} CompressFrom(g0: Group, c: Group, t0: Table, t: Table, i: nat, j: nat)
    requires i < |c| || (i == |c| && j == 0)
    requires i < |c| ==> j <= |c[i].1|
    requires CompressInv(g0, c, t0, t, i, j)
    ensures CompressInv(g0, CompressAt(c, i, j, t).0, t0, CompressAt(c, i, j, t).1, |g0|, 0)
    decreases |c| - i, if i < |c| then |c[i].1| - j else 0, 1
  {
    if i >= |c| {
      assert i == |g0|;
    } else if j >= |c[i].1| {
      CompressStepRow(g0, c, t0, t, i, j);
      CompressFrom(g0, c, t0, t, i + 1, 0);
    } else {
      CompressFromCell(g0, c, t0, t, i, j);
    }
  }

  lemma {:induction false} CompressFromCell(g0: Group, c: Group, t0: Table, t: Table, i: nat, j: nat)
    requires ValidPos(c, i, j)
    requires CompressInv(g0, c, t0, t, i, j)
    ensures CompressInv(g0, CompressAt(c, i, j, t).0, t0, CompressAt(c, i, j, t).1, |g0|, 0)
    decreases |c| - i, |c[i].1| - j, 0
  {
    var r := CompressCell(c, i, j, t);
    CompressCellInv(g0, c, t0, t, i, j);
    CompressFrom(g0, r.0, t0, r.1, i, j + 1);
  }

  /** The state after compressing a whole group, started with table `t`. */
  lemma CompressGroupWith(g: Group, t: Table)
    ensures CompressInv(g, CompressAt(g, 0, 0, t).0, t, CompressAt(g, 0, 0, t).1, |g|, 0)
  {
    assert CompressInv(g, g, t, t, 0, 0);
    CompressFrom(g, g, t, t, 0, 0);
  }

  /** The state after `compress` of a whole group, started with an empty table. */
  lemma CompressGroupInv(g: Group)
    ensures CompressInv(g, CompressGroup(g), [], CompressAt(g, 0, 0, []).1, |g|, 0)
  {
    CompressGroupWith(g, []);
  }

  /** After `compress`, every entry of a group is unchanged, or was inline and is now a
      reference to the key of an earlier position that kept an equal document inline. */
  lemma CompressRefsEarlier(g: Group)
    ensures SameShape(CompressGroup(g), g)
    ensures forall p, q :: ValidPos(g, p, q) ==>
      var c := CompressGroup(g);
      || At(c, p, q) == At(g, p, q)
      || (&& At(g, p, q).Inline? && At(c, p, q).Ref?
          && exists a, b :: ValidPos(g, a, b) && Before(a, b, p, q) && At(c, a, b) == At(g, a, b)
               && At(g, a, b) == At(g, p, q) && At(c, p, q).key == KeyAt(g, a, b))
  {
    CompressGroupInv(g);
    var c := CompressGroup(g);
    forall p, q | ValidPos(g, p, q) ensures Collapsed(g, c, [], p, q) {
      assert Before(p, q, |g|, 0);
    }
  }

  /** After `compress`, no two inline entries of a group are equal. */
  lemma CompressInlineDistinct(g: Group)
    requires DistinctRefKeys(g)
    ensures forall p, q, p', q' ::
      var c := CompressGroup(g);
      (&& ValidPos(c, p, q) && ValidPos(c, p', q') && (p, q) != (p', q')
       && At(c, p, q).Inline? && At(c, p', q').Inline?) ==> At(c, p, q) != At(c, p', q')
  {
    CompressGroupInv(g);
  }

  /** The reference key of a version and filename without '@' splits back into them. */
  lemma RefKeySplit(v: string, f: string)
    requires '@' !in v && '@' !in f
    ensures Split(RefKey(v, f), '@') == [v, f]
  {
    assert Join([v, f], '@') == RefKey(v, f) by {
      assert [v, f][1..] == [f];
    }
    SplitJoin([v, f], '@');
  }

  /** No version or filename key contains the '@' that separates them in a reference. */
  ghost predicate NoAtInKeys(g: Group) {
    && (forall i :: 0 <= i < |g| ==> '@' !in g[i].0)
    && (forall i, j :: ValidPos(g, i, j) ==> '@' !in g[i].1[j].0)
  }

  ghost predicate AllInline(g: Group) {
    forall i, j :: ValidPos(g, i, j) ==> At(g, i, j).Inline?
  }

  /** `decompress` undoes `compress`: on a decompressed group whose keys carry no '@', the
      compressed group decompresses back to the original. */
  lemma CompressRoundTrip(g: Group)
    requires WellFormedGroup(g) && AllInline(g) && NoAtInKeys(g)
    ensures DecompressGroup(CompressGroup(g)) == Ok(g)
  {
    var c := CompressGroup(g);
    CompressRefsEarlier(g);
    forall p, q | ValidPos(c, p, q) && At(c, p, q).Ref?
      ensures RefResolvesInline(c, At(c, p, q).key) && ResolveEntry(c, At(c, p, q)) == At(g, p, q)
    {
      assert ValidPos(g, p, q);
      var a, b :| ValidPos(g, a, b) && Before(a, b, p, q) && At(c, a, b) == At(g, a, b)
        && At(g, a, b) == At(g, p, q) && At(c, p, q).key == KeyAt(g, a, b);
      RefKeySplit(g[a].0, g[a].1[b].0);
      Pos2SameShape(c, g, g[a].0, g[a].1[b].0);
      Pos2At(g, a, b);
    }
    assert RefsInline(c);
    DecompressResolves(c);
    var r := Resolve(c);
    forall p, q | ValidPos(r, p, q) ensures At(r, p, q) == At(g, p, q) {
      assert ValidPos(c, p, q) && ValidPos(g, p, q);
    }
    GroupExt(r, g);
  }

  /** With keys free of '@' and distinct at each level, reference keys are distinct. */
  lemma DistinctRefKeysOf(g: Group)
    requires WellFormedGroup(g) && NoAtInKeys(g)
    ensures DistinctRefKeys(g)
  {
    forall p, q, p', q' | ValidPos(g, p, q) && ValidPos(g, p', q') && KeyAt(g, p, q) == KeyAt(g, p', q')
      ensures p == p' && q == q'
    {
      RefKeySplit(g[p].0, g[p].1[q].0);
      RefKeySplit(g[p'].0, g[p'].1[q'].0);
      assert g[p].0 == g[p'].0;
    }
  }

  // ---------------------------------------------------------------------------------------
  // sort

  /** Order of dictionary items by key (`sorted(d.items())` on a dictionary, whose keys
      are distinct, compares keys only). */
  predicate KeyLe<V>(a: (string, V), b: (string, V)) { StrLe(a.0, b.0) }

  /** One level of the recursive `sort`: the items ordered by key, each value sorted by `f`. */
  function SortLevel<V>(s: seq<(string, V)>, f: V -> V): (r: seq<(string, V)>)
    ensures |r| == |s|
  {
    var sorted := InsertionSort(s, KeyLe);
    assert |sorted| == |multiset(sorted)| == |multiset(s)| == |s|;
    seq(|sorted|, i requires 0 <= i < |sorted| => (sorted[i].0, f(sorted[i].1)))
  }

  /** `sort` of a filename level: the entries are documents, whose own key order does not
      matter in this model, or reference strings. */
  function SortFnames(fs: Fnames): Fnames { SortLevel(fs, (e: Entry) => e) }

  function SortGroup(g: Group): Group { SortLevel(g, SortFnames) }

  /** `sort(v)` of one package's record. */
  function SortRecord(rec: Record): Record { SortLevel(rec, SortGroup) }

  /** The sorting loop of `compress`: names keep their order, each record is sorted. */
  function SortStore(s: Store): (r: Store)
    ensures |r| == |s| && forall i :: 0 <= i < |s| ==> r[i] == (s[i].0, SortRecord(s[i].1))
  {
    seq(|s|, i requires 0 <= i < |s| => (s[i].0, SortRecord(s[i].1)))
  }

  lemma KeyLeTotal<V(!new)>()
    ensures TotalPreorder(KeyLe<V>)
  {
    StrLeProps();
  }

  function MapOpt<V>(f: V -> V, o: Option<V>): Option<V> {
    match o
    case None => None
    case Some(v) => Some(f(v))
  }

  lemma {:induction false} InsertDistinct<V>(x: (string, V), s: seq<(string, V)>, le: ((string, V), (string, V)) -> bool)
    requires DistinctKeys(s) && forall y :: y in s ==> y.0 != x.0
    ensures DistinctKeys(Insert(x, s, le))
  {
    if |s| > 0 && !le(x, s[0]) {
      InsertDistinct(x, s[1..], le);
      var tail := Insert(x, s[1..], le);
      forall y | y in tail ensures y.0 != s[0].0 {
        assert y in multiset(tail);
        assert y == x || y in multiset(s[1..]);
      }
      ConsDistinct(s[0], tail);
    } else if |s| > 0 {
      ConsDistinct(x, s);
    }
  }

  /** A key not among those of a dictionary's items can be put in front of them. */
  lemma ConsDistinct<V>(x: (string, V), s: seq<(string, V)>)
    requires DistinctKeys(s) && forall y :: y in s ==> y.0 != x.0
    ensures DistinctKeys([x] + s)
  {
    var r := [x] + s;
    forall a, b | 0 <= a < b < |r| ensures r[a].0 != r[b].0 {
      if a == 0 { assert r[b] in s; } else { assert r[a] == s[a - 1] && r[b] == s[b - 1]; }
    }
  }

  lemma {:induction false} SortDistinct<V>(s: seq<(string, V)>, le: ((string, V), (string, V)) -> bool)
    requires DistinctKeys(s)
    ensures DistinctKeys(InsertionSort(s, le))
  {
    if |s| > 0 {
      SortDistinct(s[1..], le);
      var rest := InsertionSort(s[1..], le);
      forall y | y in rest ensures y.0 != s[0].0 {
        assert y in multiset(rest);
        var b :| 0 <= b < |s[1..]| && s[1..][b] == y;
        assert s[b + 1] == y;
      }
      InsertDistinct(s[0], rest, le);
    }
  }

  /** An item of a sorted level is an item of the input with its value sorted, and
      conversely. */
  lemma SortLevelItems<V>(s: seq<(string, V)>, f: V -> V)
    ensures forall y :: y in SortLevel(s, f) ==> exists z :: z in s && y == (z.0, f(z.1))
    ensures forall z :: z in s ==> (z.0, f(z.1)) in SortLevel(s, f)
  {
    var sorted := InsertionSort(s, KeyLe);
    var r := SortLevel(s, f);
    forall y | y in r ensures exists z :: z in s && y == (z.0, f(z.1)) {
      var a :| 0 <= a < |r| && r[a] == y;
      assert sorted[a] in multiset(s);
    }
    forall z | z in s ensures (z.0, f(z.1)) in r {
      assert z in multiset(sorted);
      var a :| 0 <= a < |sorted| && sorted[a] == z;
      assert r[a] == (z.0, f(z.1));
    }
  }

  /** `sort` keeps the keys and sorts each value: the lookup of any key in the sorted level
      is the sorted lookup in the input; and the keys come out in strictly ascending order. */
  lemma SortLevelLookup<V(!new)>(s: seq<(string, V)>, f: V -> V)
    requires DistinctKeys(s)
    ensures DistinctKeys(SortLevel(s, f))
    ensures forall a, b :: 0 <= a < b < |s| ==> StrLt(SortLevel(s, f)[a].0, SortLevel(s, f)[b].0)
    ensures forall k :: Lookup(SortLevel(s, f), k) == MapOpt(f, Lookup(s, k))
  {
    var sorted := InsertionSort(s, KeyLe);
    var r := SortLevel(s, f);
    SortDistinct(s, KeyLe);
    KeyLeTotal<V>();
    SortSorted(s, KeyLe);
    assert forall a :: 0 <= a < |r| ==> r[a].0 == sorted[a].0;
    forall a, b | 0 <= a < b < |s| ensures StrLt(r[a].0, r[b].0) {
      assert KeyLe(sorted[a], sorted[b]);
    }
    SortLevelItems(s, f);
    forall k ensures Lookup(r, k) == MapOpt(f, Lookup(s, k)) {
      match Lookup(s, k)
      case Some(v) =>
        LookupMember(s, k, v);
        LookupMember(r, k, f(v));
      case None =>
        forall a | 0 <= a < |r| ensures r[a].0 != k {
          assert r[a] in r;
        }
    }
  }

  /** A level that is already sorted, with sorted values, is left as it is. */
  lemma SortLevelIdempotent<V(!new)>(s: seq<(string, V)>, f: V -> V)
    requires forall v :: f(f(v)) == f(v)
    ensures SortLevel(SortLevel(s, f), f) == SortLevel(s, f)
  {
    var sorted := InsertionSort(s, KeyLe);
    var r := SortLevel(s, f);
    KeyLeTotal<V>();
    SortSorted(s, KeyLe);
    assert SortedBy(r, KeyLe) by {
      forall a, b | 0 <= a < b < |r| ensures KeyLe(r[a], r[b]) {
        assert KeyLe(sorted[a], sorted[b]);
      }
    }
    SortOfSorted(r, KeyLe);
  }

  lemma SortFnamesIdempotent(fs: Fnames)
    ensures SortFnames(SortFnames(fs)) == SortFnames(fs)
  {
    SortLevelIdempotent(fs, (e: Entry) => e);
  }

  lemma SortGroupIdempotent(g: Group)
    ensures SortGroup(SortGroup(g)) == SortGroup(g)
  {
    forall fs ensures SortFnames(SortFnames(fs)) == SortFnames(fs) { SortFnamesIdempotent(fs); }
    SortLevelIdempotent(g, SortFnames);
  }

  /** `sort(sort(d)) == sort(d)` for a package record. */
  lemma SortRecordIdempotent(rec: Record)
    ensures SortRecord(SortRecord(rec)) == SortRecord(rec)
  {
    forall g ensures SortGroup(SortGroup(g)) == SortGroup(g) { SortGroupIdempotent(g); }
    SortLevelIdempotent(rec, SortGroup);
  }

  /** Each item of a sorted level comes from an item of the input, with its value sorted. */
  lemma SortLevelItem<V>(s: seq<(string, V)>, f: V -> V, p: int)
    requires 0 <= p < |SortLevel(s, f)|
    ensures exists a :: 0 <= a < |s| && SortLevel(s, f)[p] == (s[a].0, f(s[a].1))
  {
    SortLevelItems(s, f);
    var r := SortLevel(s, f);
    assert r[p] in r;
    var z :| z in s && r[p] == (z.0, f(z.1));
    var a :| 0 <= a < |s| && s[a] == z;
  }

  /** Sorting a group keeps it well formed, inline and free of '@' in its keys. */
  lemma SortGroupReady(g: Group)
    requires WellFormedGroup(g) && AllInline(g) && NoAtInKeys(g)
    ensures WellFormedGroup(SortGroup(g)) && AllInline(SortGroup(g)) && NoAtInKeys(SortGroup(g))
  {
    var r := SortGroup(g);
    SortLevelLookup(g, SortFnames);
    forall p | 0 <= p < |r| ensures DistinctKeys(r[p].1) && '@' !in r[p].0
      && forall q :: 0 <= q < |r[p].1| ==> '@' !in r[p].1[q].0 && r[p].1[q].1.Inline?
    {
      SortLevelItem(g, SortFnames, p);
      var a :| 0 <= a < |g| && r[p] == (g[a].0, SortFnames(g[a].1));
      SortLevelLookup(g[a].1, (e: Entry) => e);
      forall q | 0 <= q < |r[p].1| ensures '@' !in r[p].1[q].0 && r[p].1[q].1.Inline? {
        SortLevelItem(g[a].1, (e: Entry) => e, q);
        var b :| 0 <= b < |g[a].1| && r[p].1[q] == (g[a].1[b].0, g[a].1[b].1);
        assert ValidPos(g, a, b);
      }
    }
  }

  /** Keys in strictly ascending order: the order `sorted(d.items())` leaves them in. */
  ghost predicate Ascending<V>(s: seq<(string, V)>) {
    forall a, b :: 0 <= a < b < |s| ==> StrLt(s[a].0, s[b].0)
  }

  /** Both levels of a group in ascending key order, keys distinct. */
  ghost predicate SortedGroup(g: Group) {
    WellFormedGroup(g) && Ascending(g) && forall i :: 0 <= i < |g| ==> Ascending(g[i].1)
  }

  /** Every level of the store is a real dictionary. */
  ghost predicate WellFormedStore(s: Store) {
    && DistinctKeys(s)
    && (forall n :: 0 <= n < |s| ==> DistinctKeys(s[n].1))
    && (forall n, p :: 0 <= n < |s| && 0 <= p < |s[n].1| ==> WellFormedGroup(s[n].1[p].1))
  }

  /** `sort` of a filename level keeps every entry under its filename, in ascending order. */
  lemma SortFnamesLookup(fs: Fnames)
    requires DistinctKeys(fs)
    ensures DistinctKeys(SortFnames(fs)) && Ascending(SortFnames(fs))
    ensures forall k :: Lookup(SortFnames(fs), k) == Lookup(fs, k)
  {
    SortLevelLookup(fs, (e: Entry) => e);
    forall k ensures Lookup(SortFnames(fs), k) == Lookup(fs, k) {
      match Lookup(fs, k)
      case None =>
      case Some(v) =>
    }
  }

  /** `sort` of a group: both levels ascending, and `g[v][f]` reads the same entry. */
  lemma SortGroupLookup(g: Group)
    requires WellFormedGroup(g)
    ensures SortedGroup(SortGroup(g))
    ensures forall v :: Lookup(SortGroup(g), v) == MapOpt(SortFnames, Lookup(g, v))
    ensures forall v, f :: Lookup(LookupOr(SortGroup(g), v, []), f) == Lookup(LookupOr(g, v, []), f)
  {
    var r := SortGroup(g);
    SortLevelLookup(g, SortFnames);
    forall i | 0 <= i < |r| ensures DistinctKeys(r[i].1) && Ascending(r[i].1) {
      SortLevelItem(g, SortFnames, i);
      var a :| 0 <= a < |g| && r[i] == (g[a].0, SortFnames(g[a].1));
      SortFnamesLookup(g[a].1);
    }
    forall v, f ensures Lookup(LookupOr(r, v, []), f) == Lookup(LookupOr(g, v, []), f) {
      match Lookup(g, v)
      case None =>
      case Some(fs) =>
        LookupIn(g, v);
        var a :| 0 <= a < |g| && g[a] == (v, fs);
        SortFnamesLookup(fs);
    }
  }

  /** The sorting pass of `compress` over a well-formed store: every record keeps its name
      and its items, its pyver level and both levels of each group are in ascending key
      order. */
  lemma SortStoreSorted(s: Store)
    requires WellFormedStore(s)
    ensures WellFormedStore(SortStore(s))
    ensures forall n :: 0 <= n < |s| ==> Ascending(SortStore(s)[n].1)
    ensures forall n, k :: 0 <= n < |s| ==> Lookup(SortStore(s)[n].1, k) == MapOpt(SortGroup, Lookup(s[n].1, k))
    ensures forall n, p :: 0 <= n < |s| && 0 <= p < |SortStore(s)[n].1| ==> SortedGroup(SortStore(s)[n].1[p].1)
  {
    var r := SortStore(s);
    assert forall n :: 0 <= n < |s| ==> r[n].0 == s[n].0;
    forall n | 0 <= n < |s|
      ensures DistinctKeys(r[n].1) && Ascending(r[n].1)
      ensures forall k :: Lookup(r[n].1, k) == MapOpt(SortGroup, Lookup(s[n].1, k))
      ensures forall p :: 0 <= p < |r[n].1| ==> SortedGroup(r[n].1[p].1)
    {
      SortLevelLookup(s[n].1, SortGroup);
      forall p | 0 <= p < |r[n].1| ensures SortedGroup(r[n].1[p].1) {
        SortLevelItem(s[n].1, SortGroup, p);
        var a :| 0 <= a < |s[n].1| && r[n].1[p] == (s[n].1[a].0, SortGroup(s[n].1[a].1));
        SortGroupLookup(s[n].1[a].1);
      }
    }
  }

  /** `sort` applied twice to every record is `sort` applied once. */
  lemma SortStoreIdempotent(s: Store)
    ensures SortStore(SortStore(s)) == SortStore(s)
  {
    forall n | 0 <= n < |s| ensures SortStore(SortStore(s))[n] == SortStore(s)[n] {
      SortRecordIdempotent(s[n].1);
    }
  }

  // ---------------------------------------------------------------------------------------
  // The whole store

  /** `decompress` over every name and pyver in order; the first failure stops it. */
  function DecompressRecord(rec: Record): Result<Record, DecompressError> {
    if |rec| == 0 then Ok([])
    else match DecompressGroup(rec[0].1)
      case Err(e) => Err(e)
      case Ok(g) =>
        match DecompressRecord(rec[1..])
        case Err(e) => Err(e)
        case Ok(rest) => Ok([(rec[0].0, g)] + rest)
  }

  function DecompressStore(s: Store): Result<Store, DecompressError> {
    if |s| == 0 then Ok([])
    else match DecompressRecord(s[0].1)
      case Err(e) => Err(e)
      case Ok(rec) =>
        match DecompressStore(s[1..])
        case Err(e) => Err(e)
        case Ok(rest) => Ok([(s[0].0, rec)] + rest)
  }

  /** A record decompresses to `out` when each of its groups decompresses to the group of
      `out` under the same pyver. */
  lemma {:induction false} DecompressRecordOk(rec: Record, out: Record)
    requires |rec| == |out|
    requires forall p :: 0 <= p < |rec| ==> out[p].0 == rec[p].0 && DecompressGroup(rec[p].1) == Ok(out[p].1)
    ensures DecompressRecord(rec) == Ok(out)
  {
    if |rec| > 0 {
      DecompressRecordOk(rec[1..], out[1..]);
      assert out == [(rec[0].0, out[0].1)] + out[1..];
    }
  }

  lemma {:induction false} DecompressStoreOk(s: Store, out: Store)
    requires |s| == |out|
    requires forall n :: 0 <= n < |s| ==> out[n].0 == s[n].0 && DecompressRecord(s[n].1) == Ok(out[n].1)
    ensures DecompressStore(s) == Ok(out)
  {
    if |s| > 0 {
      DecompressStoreOk(s[1..], out[1..]);
      assert out == [(s[0].0, out[0].1)] + out[1..];
    }
  }

  /** A group that fails to decompress makes the whole store fail. */
  lemma {:induction false} DecompressStoreFails(s: Store, n: int, p: int)
    requires 0 <= n < |s| && 0 <= p < |s[n].1| && DecompressGroup(s[n].1[p].1).Err?
    ensures DecompressStore(s).Err?
  {
    if n == 0 {
      DecompressRecordFails(s[0].1, p);
    } else if DecompressRecord(s[0].1).Ok? {
      DecompressStoreFails(s[1..], n - 1, p);
    }
  }

  lemma {:induction false} DecompressRecordFails(rec: Record, p: int)
    requires 0 <= p < |rec| && DecompressGroup(rec[p].1).Err?
    ensures DecompressRecord(rec).Err?
  {
    if p > 0 && DecompressGroup(rec[0].1).Ok? {
      DecompressRecordFails(rec[1..], p - 1);
    }
  }

  function CompressRecordGroups(rec: Record): (r: Record)
    ensures |r| == |rec| && forall p :: 0 <= p < |rec| ==> r[p] == (rec[p].0, CompressGroup(rec[p].1))
  {
    seq(|rec|, p requires 0 <= p < |rec| => (rec[p].0, CompressGroup(rec[p].1)))
  }

  function CompressStoreGroups(s: Store): (r: Store)
    ensures |r| == |s| && forall n :: 0 <= n < |s| ==> r[n] == (s[n].0, CompressRecordGroups(s[n].1))
  {
    seq(|s|, n requires 0 <= n < |s| => (s[n].0, CompressRecordGroups(s[n].1)))
  }

  /** `compress` of src/wheel_deps_spider.py: decompress, sort every record, then compress
      every (name, pyver) group with its own table. */
  function CompressStore(s: Store): Result<Store, DecompressError> {
    match DecompressStore(s)
    case Err(e) => Err(e)
    case Ok(d) => Ok(CompressStoreGroups(SortStore(d)))
  }

  /** Every group resolved at once. */
  function ResolveStore(s: Store): (r: Store)
    ensures |r| == |s| && forall n :: 0 <= n < |s| ==> r[n].0 == s[n].0 && |r[n].1| == |s[n].1|
    ensures forall n, p :: 0 <= n < |s| && 0 <= p < |s[n].1| ==> r[n].1[p] == (s[n].1[p].0, Resolve(s[n].1[p].1))
  {
    seq(|s|, n requires 0 <= n < |s| =>
      (s[n].0, seq(|s[n].1|, p requires 0 <= p < |s[n].1| => (s[n].1[p].0, Resolve(s[n].1[p].1)))))
  }

  /** Every group is well formed, has no '@' in its keys, and refers only to inline entries. */
  ghost predicate StoreReady(s: Store) {
    forall n, p :: 0 <= n < |s| && 0 <= p < |s[n].1| ==>
      WellFormedGroup(s[n].1[p].1) && NoAtInKeys(s[n].1[p].1) && RefsInline(s[n].1[p].1)
  }

  /** Resolving a group that refers only to inline entries leaves it all inline. */
  lemma ResolveReady(g: Group)
    requires WellFormedGroup(g) && NoAtInKeys(g) && RefsInline(g)
    ensures WellFormedGroup(Resolve(g)) && NoAtInKeys(Resolve(g)) && AllInline(Resolve(g))
  {
    var r := Resolve(g);
    forall i | 0 <= i < |r| ensures DistinctKeys(r[i].1) {
      assert forall j :: 0 <= j < |r[i].1| ==> ValidPos(g, i, j);
    }
  }

  /** When every reference of every group names an inline entry of that group, the
      decompress pass of `compress` resolves every reference. */
  lemma DecompressStoreResolves(s: Store)
    requires forall n, p :: 0 <= n < |s| && 0 <= p < |s[n].1| ==> RefsInline(s[n].1[p].1)
    ensures DecompressStore(s) == Ok(ResolveStore(s))
  {
    var d := ResolveStore(s);
    forall n | 0 <= n < |s| ensures DecompressRecord(s[n].1) == Ok(d[n].1) {
      forall p | 0 <= p < |s[n].1| ensures DecompressGroup(s[n].1[p].1) == Ok(d[n].1[p].1) {
        DecompressResolves(s[n].1[p].1);
      }
      DecompressRecordOk(s[n].1, d[n].1);
    }
    DecompressStoreOk(s, d);
  }

  /** Every group of the sorted, resolved store is ready to be compressed. */
  lemma SortedGroupsReady(s: Store, n: int, p: int)
    requires StoreReady(s) && 0 <= n < |s| && 0 <= p < |SortStore(ResolveStore(s))[n].1|
    ensures var g := SortStore(ResolveStore(s))[n].1[p].1;
      WellFormedGroup(g) && AllInline(g) && NoAtInKeys(g)
  {
    var d := ResolveStore(s);
    SortLevelItem(d[n].1, SortGroup, p);
    var a :| 0 <= a < |d[n].1| && SortRecord(d[n].1)[p] == (d[n].1[a].0, SortGroup(d[n].1[a].1));
    ResolveReady(s[n].1[a].1);
    SortGroupReady(d[n].1[a].1);
  }

  /** `decompress(compress(d))` is the decompressed store, sorted: the same content. */
  lemma CompressStoreRoundTrip(s: Store)
    requires StoreReady(s)
    ensures DecompressStore(s) == Ok(ResolveStore(s))
    ensures CompressStore(s).Ok?
    ensures DecompressStore(CompressStore(s).value) == Ok(SortStore(ResolveStore(s)))
  {
    DecompressStoreResolves(s);
    var sd := SortStore(ResolveStore(s));
    var c := CompressStoreGroups(sd);
    forall n | 0 <= n < |c| ensures DecompressRecord(c[n].1) == Ok(sd[n].1) {
      forall p | 0 <= p < |c[n].1| ensures DecompressGroup(c[n].1[p].1) == Ok(sd[n].1[p].1) {
        SortedGroupsReady(s, n, p);
        CompressRoundTrip(sd[n].1[p].1);
      }
      DecompressRecordOk(c[n].1, sd[n].1);
    }
    DecompressStoreOk(c, sd);
  }

  /** After the spider's `compress`, a (name, pyver) group holds each document inline at most
      once. */
  lemma CompressStoreInlineDistinct(s: Store, n: int, p: int)
    requires StoreReady(s)
    ensures CompressStore(s).Ok?
    ensures var c := CompressStore(s).value;
      0 <= n < |c| && 0 <= p < |c[n].1| ==>
        var g := c[n].1[p].1;
        forall a, b, a', b' ::
          (&& ValidPos(g, a, b) && ValidPos(g, a', b') && (a, b) != (a', b')
           && At(g, a, b).Inline? && At(g, a', b').Inline?) ==> At(g, a, b) != At(g, a', b')
  {
    CompressStoreRoundTrip(s);
    var d := SortStore(ResolveStore(s));
    if 0 <= n < |d| && 0 <= p < |d[n].1| {
      var g := d[n].1[p].1;
      SortedGroupsReady(s, n, p);
      DistinctRefKeysOf(g);
      CompressInlineDistinct(g);
    }
  }

  /** After the spider's `compress`, every entry of a group is its decompressed, sorted
      content, or a reference to an earlier position of the same group (never another pyver's)
      that holds that content inline. */
  lemma CompressStoreRefsEarlier(s: Store, n: int, p: int)
    requires StoreReady(s)
    ensures DecompressStore(s) == Ok(ResolveStore(s))
    ensures CompressStore(s).Ok?
    ensures var c := CompressStore(s).value; var d := SortStore(ResolveStore(s));
      0 <= n < |c| && 0 <= p < |c[n].1| ==>
        && n < |d| && p < |d[n].1| && c[n].0 == d[n].0 && c[n].1[p].0 == d[n].1[p].0
        && var g, cg := d[n].1[p].1, c[n].1[p].1;
        && SameShape(cg, g) && AllInline(g)
        && forall a, b :: ValidPos(g, a, b) ==>
          || At(cg, a, b) == At(g, a, b)
          || (&& At(cg, a, b).Ref?
              && exists a', b' :: ValidPos(g, a', b') && Before(a', b', a, b) && At(cg, a', b') == At(g, a', b')
                   && At(g, a', b') == At(g, a, b) && At(cg, a, b).key == KeyAt(g, a', b'))
  {
    CompressStoreRoundTrip(s);
    var d := SortStore(ResolveStore(s));
    if 0 <= n < |d| && 0 <= p < |d[n].1| {
      SortedGroupsReady(s, n, p);
      CompressRefsEarlier(d[n].1[p].1);
    }
  }

  /** Compressing an already compressed store changes nothing. */
  lemma CompressStoreIdempotent(s: Store)
    requires StoreReady(s)
    ensures CompressStore(s).Ok?
    ensures CompressStore(CompressStore(s).value) == CompressStore(s)
  {
    CompressStoreRoundTrip(s);
    SortStoreIdempotent(ResolveStore(s));
  }

  // ---------------------------------------------------------------------------------------
  // The older compress of src/crawl_wheel_deps_old.py

  /** The older `compress` of one package record, continued from pyver index `y` with table
      `t`: the same per-entry step, but one table for all pyvers of the package, and no
      decompress pass first. */
  function OldCompressAt(rec: Record, y: nat, t: Table): (Record, Table)
    decreases |rec| - y
  {
    if y >= |rec| then (rec, t)
    else
      var r := CompressAt(rec[y].1, 0, 0, t);
      OldCompressAt(rec[y := (rec[y].0, r.0)], y + 1, r.1)
  }

  function OldCompressRecord(rec: Record): Record {
    OldCompressAt(rec, 0, []).0
  }

  function OldCompressStore(s: Store): (r: Store)
    ensures |r| == |s| && forall n :: 0 <= n < |s| ==> r[n] == (s[n].0, OldCompressRecord(s[n].1))
  {
    seq(|s|, n requires 0 <= n < |s| => (s[n].0, OldCompressRecord(s[n].1)))
  }

  /** Position `(a, b)` of pyver index `y` is kept inline in `cur`, compressed from `rec0`,
      with the key and the document of `entry`. */
  ghost predicate KeptAt(rec0: Record, cur: Record, y: int, a: int, b: int, entry: (string, Doc)) {
    && 0 <= y < |rec0| && y < |cur| && ValidPos(rec0[y].1, a, b) && ValidPos(cur[y].1, a, b)
    && At(cur[y].1, a, b) == At(rec0[y].1, a, b) && At(rec0[y].1, a, b) == Inline(entry.1)
    && entry.0 == KeyAt(rec0[y].1, a, b)
  }

  /** `entry` names a position kept inline under a pyver before index `y`. */
  ghost predicate KeptBefore(rec0: Record, cur: Record, y: int, entry: (string, Doc)) {
    exists y', a, b :: 0 <= y' < y && KeptAt(rec0, cur, y', a, b, entry)
  }

  /** What the older `compress` promises about position `(p, q)` of pyver index `y`: the
      entry is unchanged, or it was inline and is now a reference to a position kept inline
      with the same document, under an earlier pyver or earlier under the same one. */
  ghost predicate OldCollapsed(rec0: Record, cur: Record, y: int, p: int, q: int)
    requires 0 <= y < |rec0| && y < |cur| && ValidPos(rec0[y].1, p, q) && ValidPos(cur[y].1, p, q)
  {
    var e0 := At(rec0[y].1, p, q);
    var e := At(cur[y].1, p, q);
    || e == e0
    || (&& e0.Inline? && e.Ref?
        && (|| KeptBefore(rec0, cur, y, (e.key, e0.doc))
            || exists a, b :: Before(a, b, p, q) && KeptAt(rec0, cur, y, a, b, (e.key, e0.doc))))
  }

  ghost predicate OldInv(rec0: Record, cur: Record, y: int, t: Table) {
    && |cur| == |rec0| && 0 <= y <= |rec0|
    && (forall z :: 0 <= z < |rec0| ==> cur[z].0 == rec0[z].0 && SameShape(cur[z].1, rec0[z].1))
    && (forall z :: y <= z < |rec0| ==> cur[z] == rec0[z])
    && (forall z, p, q :: 0 <= z < y && ValidPos(rec0[z].1, p, q) ==> OldCollapsed(rec0, cur, z, p, q))
    && (forall x :: 0 <= x < |t| ==> KeptBefore(rec0, cur, y, t[x]))
  }

  lemma KeptBeforeMono(rec0: Record, cur: Record, cur': Record, y: int, y': int, entry: (string, Doc))
    requires KeptBefore(rec0, cur, y, entry) && y <= y' && |cur'| == |cur|
    requires forall z :: 0 <= z < y && z < |cur| ==> cur'[z] == cur[z]
    ensures KeptBefore(rec0, cur', y', entry)
  {
    var z, a, b :| 0 <= z < y && KeptAt(rec0, cur, z, a, b, entry);
    assert KeptAt(rec0, cur', z, a, b, entry);
  }

  lemma OldCollapsedMono(rec0: Record, cur: Record, cur': Record, z: int, p: int, q: int)
    requires 0 <= z < |rec0| && z < |cur| && ValidPos(rec0[z].1, p, q) && ValidPos(cur[z].1, p, q)
    requires OldCollapsed(rec0, cur, z, p, q) && |cur'| == |cur|
    requires forall w :: 0 <= w <= z ==> cur'[w] == cur[w]
    ensures OldCollapsed(rec0, cur', z, p, q)
  {
    var e0 := At(rec0[z].1, p, q);
    var e := At(cur[z].1, p, q);
    if e != e0 {
      if KeptBefore(rec0, cur, z, (e.key, e0.doc)) {
        KeptBeforeMono(rec0, cur, cur', z, z, (e.key, e0.doc));
      } else {
        var a, b :| Before(a, b, p, q) && KeptAt(rec0, cur, z, a, b, (e.key, e0.doc));
        assert KeptAt(rec0, cur', z, a, b, (e.key, e0.doc));
      }
    }
  }

  /** The facts about compressing one group with table `t` that the older `compress` needs. */
  lemma CompressGroupFacts(g: Group, t: Table)
    ensures SameShape(CompressAt(g, 0, 0, t).0, g)
    ensures forall p, q :: ValidPos(g, p, q) ==> Collapsed(g, CompressAt(g, 0, 0, t).0, t, p, q)
    ensures forall x :: 0 <= x < |CompressAt(g, 0, 0, t).1| ==>
      (x < |t| && CompressAt(g, 0, 0, t).1[x] == t[x])
      || NamesKept(g, CompressAt(g, 0, 0, t).0, CompressAt(g, 0, 0, t).1[x], |g|, 0)
  {
    CompressGroupWith(g, t);
    forall p, q | ValidPos(g, p, q) ensures Collapsed(g, CompressAt(g, 0, 0, t).0, t, p, q) {
      assert Before(p, q, |g|, 0);
    }
  }

  /** Compressing the group of pyver index `y` keeps the invariant. */
  lemma OldStep(rec0: Record, cur: Record, y: nat, t: Table)
    requires OldInv(rec0, cur, y, t) && y < |rec0|
    ensures var r := CompressAt(cur[y].1, 0, 0, t);
      OldInv(rec0, cur[y := (cur[y].0, r.0)], y + 1, r.1)
  {
    var r := CompressAt(rec0[y].1, 0, 0, t);
    CompressGroupFacts(rec0[y].1, t);
    OldStepGroups(rec0, cur, y, t);
    OldStepTable(rec0, cur, y, t);
  }

  lemma OldStepGroups(rec0: Record, cur: Record, y: nat, t: Table)
    requires OldInv(rec0, cur, y, t) && y < |rec0|
    ensures var r := CompressAt(cur[y].1, 0, 0, t);
      forall z, p, q :: 0 <= z < y + 1 && ValidPos(rec0[z].1, p, q) ==>
        ValidPos(cur[y := (cur[y].0, r.0)][z].1, p, q) && OldCollapsed(rec0, cur[y := (cur[y].0, r.0)], z, p, q)
  {
    var g0 := rec0[y].1;
    var r := CompressAt(g0, 0, 0, t);
    var cur' := cur[y := (cur[y].0, r.0)];
    CompressGroupFacts(g0, t);
    forall z, p, q | 0 <= z < y + 1 && ValidPos(rec0[z].1, p, q)
      ensures ValidPos(cur'[z].1, p, q) && OldCollapsed(rec0, cur', z, p, q)
    {
      if z < y {
        OldCollapsedMono(rec0, cur, cur', z, p, q);
      } else {
        assert Collapsed(g0, r.0, t, p, q);
        var e0 := At(g0, p, q);
        var e := At(r.0, p, q);
        if e != e0 {
          if (e.key, e0.doc) in t {
            var x :| 0 <= x < |t| && t[x] == (e.key, e0.doc);
            KeptBeforeMono(rec0, cur, cur', y, y, t[x]);
          } else {
            var a, b :| ValidPos(g0, a, b) && Before(a, b, p, q) && At(r.0, a, b) == At(g0, a, b)
              && At(g0, a, b) == At(g0, p, q) && e.key == KeyAt(g0, a, b);
            assert KeptAt(rec0, cur', y, a, b, (e.key, e0.doc));
          }
        }
      }
    }
  }

  lemma OldStepTable(rec0: Record, cur: Record, y: nat, t: Table)
    requires OldInv(rec0, cur, y, t) && y < |rec0|
    ensures var r := CompressAt(cur[y].1, 0, 0, t);
      forall x :: 0 <= x < |r.1| ==> KeptBefore(rec0, cur[y := (cur[y].0, r.0)], y + 1, r.1[x])
  {
    var g0 := rec0[y].1;
    var r := CompressAt(g0, 0, 0, t);
    var cur' := cur[y := (cur[y].0, r.0)];
    CompressGroupFacts(g0, t);
    forall x | 0 <= x < |r.1| ensures KeptBefore(rec0, cur', y + 1, r.1[x]) {
      if x < |t| && r.1[x] == t[x] {
        KeptBeforeMono(rec0, cur, cur', y, y + 1, t[x]);
      } else {
        assert NamesKept(g0, r.0, r.1[x], |g0|, 0);
        var a, b :| ValidPos(g0, a, b) && Before(a, b, |g0|, 0) && At(r.0, a, b) == At(g0, a, b)
          && At(g0, a, b) == Inline(r.1[x].1) && r.1[x].0 == KeyAt(g0, a, b);
        assert KeptAt(rec0, cur', y, a, b, r.1[x]);
      }
    }
  }

  lemma {:induction false} OldCompressFrom(rec0: Record, cur: Record, y: nat, t: Table)
    requires OldInv(rec0, cur, y, t)
    ensures OldInv(rec0, OldCompressAt(cur, y, t).0, |rec0|, OldCompressAt(cur, y, t).1)
    decreases |cur| - y
  {
    if y < |cur| {
      var r := CompressAt(cur[y].1, 0, 0, t);
      OldStep(rec0, cur, y, t);
      OldCompressFrom(rec0, cur[y := (cur[y].0, r.0)], y + 1, r.1);
    }
  }

  /** The older `compress` keeps every key, and turns an entry into a reference only when an
      entry with the same document was kept inline before it, under an earlier pyver of the
      package or earlier under the same one; the reference is that entry's key. */
  lemma OldCompressRefs(rec: Record)
    ensures |OldCompressRecord(rec)| == |rec|
    ensures forall y :: 0 <= y < |rec| ==>
      OldCompressRecord(rec)[y].0 == rec[y].0 && SameShape(OldCompressRecord(rec)[y].1, rec[y].1)
    ensures forall y, p, q :: 0 <= y < |rec| && ValidPos(rec[y].1, p, q) ==>
      ValidPos(OldCompressRecord(rec)[y].1, p, q) && OldCollapsed(rec, OldCompressRecord(rec), y, p, q)
  {
    OldCompressFrom(rec, rec, 0, []);
  }

  /** The older `compress` over the store: every package is handled by `OldCompressRefs`,
      its pyvers and keys unchanged. */
  lemma OldCompressStoreRefs(s: Store)
    ensures |OldCompressStore(s)| == |s|
    ensures forall n :: 0 <= n < |s| ==>
      && OldCompressStore(s)[n].0 == s[n].0
      && |OldCompressStore(s)[n].1| == |s[n].1|
      && forall y :: 0 <= y < |s[n].1| ==>
           OldCompressStore(s)[n].1[y].0 == s[n].1[y].0 && SameShape(OldCompressStore(s)[n].1[y].1, s[n].1[y].1)
    ensures forall n, y, p, q :: 0 <= n < |s| && 0 <= y < |s[n].1| && ValidPos(s[n].1[y].1, p, q) ==>
      ValidPos(OldCompressStore(s)[n].1[y].1, p, q) && OldCollapsed(s[n].1, OldCompressStore(s)[n].1, y, p, q)
  {
    forall n | 0 <= n < |s|
      ensures |OldCompressRecord(s[n].1)| == |s[n].1|
      ensures forall y :: 0 <= y < |s[n].1| ==>
        OldCompressRecord(s[n].1)[y].0 == s[n].1[y].0 && SameShape(OldCompressRecord(s[n].1)[y].1, s[n].1[y].1)
      ensures forall y, p, q :: 0 <= y < |s[n].1| && ValidPos(s[n].1[y].1, p, q) ==>
        ValidPos(OldCompressRecord(s[n].1)[y].1, p, q) && OldCollapsed(s[n].1, OldCompressRecord(s[n].1), y, p, q)
    {
      OldCompressRefs(s[n].1);
    }
  }

  /** Two pyvers of one package, each with one wheel of the same document. */
  function CrossDoc(): Doc { Doc(Some(["six"]), None, None) }
  function CrossG1(): Group { [("1.0", [("a.whl", Inline(CrossDoc()))])] }
  function CrossG2(): Group { [("1.0", [("b.whl", Inline(CrossDoc()))])] }
  function CrossG2Ref(): Group { [("1.0", [("b.whl", Ref("1.0@a.whl"))])] }
  function CrossRecord(): Record { [("py2", CrossG1()), ("py3", CrossG2())] }

  lemma CrossFirstGroup(t: Table)
    requires FindDoc(t, CrossDoc()).None? && FindKey(t, "1.0@a.whl").None?
    ensures CompressAt(CrossG1(), 0, 0, t) == (CrossG1(), t + [("1.0@a.whl", CrossDoc())])
  {
    var g1 := CrossG1();
    var t' := t + [("1.0@a.whl", CrossDoc())];
    assert KeyAt(g1, 0, 0) == "1.0@a.whl";
    assert CompressCell(g1, 0, 0, t) == (g1, t');
    assert CompressAt(g1, 1, 0, t') == (g1, t');
    assert CompressAt(g1, 0, 1, t') == (g1, t');
  }

  lemma CrossSecondGroup()
    ensures CompressAt(CrossG2(), 0, 0, [("1.0@a.whl", CrossDoc())]) == (CrossG2Ref(), [("1.0@a.whl", CrossDoc())])
  {
    var g2 := CrossG2();
    var g2' := CrossG2Ref();
    var t := [("1.0@a.whl", CrossDoc())];
    assert g2[0].1[0 := (g2[0].1[0].0, Ref("1.0@a.whl"))] == g2'[0].1;
    assert SetAt(g2, 0, 0, Ref("1.0@a.whl")) == g2';
    assert FindDoc(t, CrossDoc()) == Some("1.0@a.whl");
    assert CompressCell(g2, 0, 0, t) == (g2', t);
    assert CompressAt(g2', 1, 0, t) == (g2', t);
    assert CompressAt(g2', 0, 1, t) == (g2', t);
  }

  /** The older `compress` turns the second wheel into a reference across pyvers. */
  lemma OldCompressCrossPyver()
    ensures OldCompressRecord(CrossRecord()) == [("py2", CrossG1()), ("py3", CrossG2Ref())]
  {
    var rec := CrossRecord();
    var t := [("1.0@a.whl", CrossDoc())];
    CrossFirstGroup([]);
    CrossSecondGroup();
    assert rec[0 := (rec[0].0, CrossG1())] == rec;
    var out := [("py2", CrossG1()), ("py3", CrossG2Ref())];
    assert rec[1 := (rec[1].0, CrossG2Ref())] == out;
    assert OldCompressAt(out, 2, t) == (out, t);
    assert OldCompressAt(rec, 1, t) == (out, t);
  }

  /** That reference does not resolve within its own (name, pyver) group, so the
      spider's `decompress` fails on output of the older `compress`. */
  lemma CrossPyverDangling()
    ensures DecompressGroup(CrossG2Ref()) == Err(DanglingRef("1.0", "a.whl"))
  {
    var g := CrossG2Ref();
    RefKeySplit("1.0", "a.whl");
    assert RefKey("1.0", "a.whl") == "1.0@a.whl";
    assert FindKey(g, "1.0") == Some(0);
    assert FindKey(g[0].1, "a.whl") == None;
    assert Lookup2(g, "1.0", "a.whl") == None;
  }

  /** The spider's `compress`, with a table per pyver, keeps both wheels inline. */
  lemma CompressCrossPyverKeeps()
    ensures CompressRecordGroups(CrossRecord()) == CrossRecord()
  {
    CrossFirstGroup([]);
    var g2 := CrossG2();
    var t := [("1.0@b.whl", CrossDoc())];
    assert KeyAt(g2, 0, 0) == "1.0@b.whl";
    assert FindDoc([], CrossDoc()) == None;
    assert Upsert([], "1.0@b.whl", CrossDoc()) == t;
    assert CompressCell(g2, 0, 0, []) == (g2, t);
    assert CompressAt(g2, 1, 0, t) == (g2, t);
    assert CompressAt(g2, 0, 1, t) == (g2, t);
  }
}
