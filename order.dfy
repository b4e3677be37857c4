/** Python's ordering of strings and of lists, and the stable sort that `sorted` performs. */
module Ordering {

  /** A strict total order: what Python's `<` is on characters and on strings. */
  ghost predicate StrictTotal<T(!new)>(lt: (T, T) -> bool) {
    && (forall x :: !lt(x, x))
    && (forall x, y, z :: lt(x, y) && lt(y, z) ==> lt(x, z))
    && (forall x, y :: x != y ==> lt(x, y) || lt(y, x))
  }

  /** A total preorder: a comparison that `sorted` can use as its key order. */
  ghost predicate TotalPreorder<T(!new)>(le: (T, T) -> bool) {
    && (forall x, y :: le(x, y) || le(y, x))
    && (forall x, y, z :: le(x, y) && le(y, z) ==> le(x, z))
  }

  /** Python's comparison of two sequences: the first differing element decides, and a
      proper prefix comes first. */
  predicate LexLe<T(==)>(a: seq<T>, b: seq<T>, lt: (T, T) -> bool) {
    if |a| == 0 then true
    else if |b| == 0 then false
    else if a[0] != b[0] then lt(a[0], b[0])
    else LexLe(a[1..], b[1..], lt)
  }

  lemma {:induction false} LexTotal<T(!new)>(a: seq<T>, b: seq<T>, lt: (T, T) -> bool)
    requires StrictTotal(lt)
    ensures LexLe(a, b, lt) || LexLe(b, a, lt)
  {
    if |a| > 0 && |b| > 0 && a[0] == b[0] {
      LexTotal(a[1..], b[1..], lt);
    }
  }

  lemma {:induction false} LexTrans<T(!new)>(a: seq<T>, b: seq<T>, c: seq<T>, lt: (T, T) -> bool)
    requires StrictTotal(lt) && LexLe(a, b, lt) && LexLe(b, c, lt)
    ensures LexLe(a, c, lt)
  {
    if |a| > 0 && |b| > 0 && |c| > 0 && a[0] == b[0] && b[0] == c[0] {
      LexTrans(a[1..], b[1..], c[1..], lt);
    }
  }

  lemma {:induction false} LexAntisym<T(!new)>(a: seq<T>, b: seq<T>, lt: (T, T) -> bool)
    requires StrictTotal(lt) && LexLe(a, b, lt) && LexLe(b, a, lt)
    ensures a == b
  {
    if |a| > 0 && |b| > 0 {
      LexAntisym(a[1..], b[1..], lt);
      assert a == [a[0]] + a[1..] && b == [b[0]] + b[1..];
    }
  }

  /** Lexicographic `<=` over a strict total order is a total order: total, transitive and
      antisymmetric. */
  lemma LexStrictTotal<T(!new)>(lt: (T, T) -> bool)
    requires StrictTotal(lt)
    ensures forall a, b :: LexLe(a, b, lt) || LexLe(b, a, lt)
    ensures forall a, b, c :: LexLe(a, b, lt) && LexLe(b, c, lt) ==> LexLe(a, c, lt)
    ensures forall a, b :: LexLe(a, b, lt) && LexLe(b, a, lt) ==> a == b
  {
    forall a, b ensures LexLe(a, b, lt) || LexLe(b, a, lt) { LexTotal(a, b, lt); }
    forall a, b, c | LexLe(a, b, lt) && LexLe(b, c, lt) ensures LexLe(a, c, lt) { LexTrans(a, b, c, lt); }
    forall a, b | LexLe(a, b, lt) && LexLe(b, a, lt) ensures a == b { LexAntisym(a, b, lt); }
  }

  function CharLt(a: char, b: char): bool { a < b }

  /** Python's `a <= b` on `str`: code point by code point. */
  predicate StrLe(a: string, b: string) { LexLe(a, b, CharLt) }

  /** Python's `a < b` on `str`. */
  predicate StrLt(a: string, b: string) { StrLe(a, b) && a != b }

  lemma StrLeProps()
    ensures forall a, b :: StrLe(a, b) || StrLe(b, a)
    ensures forall a, b, c :: StrLe(a, b) && StrLe(b, c) ==> StrLe(a, c)
    ensures forall a, b :: StrLe(a, b) && StrLe(b, a) ==> a == b
  {
    assert StrictTotal(CharLt);
    LexStrictTotal(CharLt);
  }

  lemma StrLtStrictTotal()
    ensures StrictTotal(StrLt)
  {
    StrLeProps();
  }

  // ---------------------------------------------------------------------------------------
  // Sorting

  ghost predicate SortedBy<T>(s: seq<T>, le: (T, T) -> bool) {
    forall i, j :: 0 <= i < j < |s| ==> le(s[i], s[j])
  }

  /** Places `x` before the first element it does not follow. */
  function Insert<T>(x: T, s: seq<T>, le: (T, T) -> bool): (r: seq<T>)
    ensures multiset(r) == multiset(s) + multiset{x}
  {
    if |s| == 0 then [x]
    else if le(x, s[0]) then [x] + s
    else
      assert s == [s[0]] + s[1..];
      [s[0]] + Insert(x, s[1..], le)
  }

  /** Stable insertion sort: the model of Python's `sorted` under a key order. */
  function InsertionSort<T>(s: seq<T>, le: (T, T) -> bool): (r: seq<T>)
    ensures multiset(r) == multiset(s)
  {
    if |s| == 0 then []
    else
      assert s == [s[0]] + s[1..];
      Insert(s[0], InsertionSort(s[1..], le), le)
  }

  lemma {:induction false} InsertSorted<T(!new)>(x: T, s: seq<T>, le: (T, T) -> bool)
    requires TotalPreorder(le) && SortedBy(s, le)
    ensures SortedBy(Insert(x, s, le), le)
  {
    if |s| > 0 && !le(x, s[0]) {
      var tail := Insert(x, s[1..], le);
      InsertSorted(x, s[1..], le);
      assert le(s[0], x);
      forall y | y in tail ensures le(s[0], y) {
        assert y in multiset(tail);
        assert y == x || y in multiset(s[1..]);
      }
      var r := [s[0]] + tail;
      forall i, j | 0 <= i < j < |r| ensures le(r[i], r[j]) {
        if i == 0 { assert r[j] in tail; } else { assert r[i] == tail[i - 1] && r[j] == tail[j - 1]; }
      }
    }
  }

  /** `sorted` returns its input ordered by the key order. */
  lemma {:induction false} SortSorted<T(!new)>(s: seq<T>, le: (T, T) -> bool)
    requires TotalPreorder(le)
    ensures SortedBy(InsertionSort(s, le), le)
  {
    if |s| > 0 {
      SortSorted(s[1..], le);
      InsertSorted(s[0], InsertionSort(s[1..], le), le);
    }
  }

  /** Sorting an already-sorted sequence changes nothing. */
  lemma {:induction false} SortOfSorted<T>(s: seq<T>, le: (T, T) -> bool)
    requires SortedBy(s, le)
    ensures InsertionSort(s, le) == s
  {
    if |s| > 0 {
      assert SortedBy(s[1..], le);
      SortOfSorted(s[1..], le);
      assert s == [s[0]] + s[1..];
    }
  }
}
