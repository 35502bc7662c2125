/** Python's ordering of strings and tuples (lexicographic, a proper prefix first)
    and `sorted(...)` applied to a set. */
module Ordering {
  import opened Seqs

  ghost predicate StrictTotal<T(!new)>(lt: (T, T) -> bool)
  {
    && (forall a :: !lt(a, a))
    && (forall a, b, c :: lt(a, b) && lt(b, c) ==> lt(a, c))
    && (forall a, b :: a == b || lt(a, b) || lt(b, a))
  }

  ghost predicate TotalPreorder<T(!new)>(le: (T, T) -> bool)
  {
    && (forall a, b :: le(a, b) || le(b, a))
    && (forall a, b, c :: le(a, b) && le(b, c) ==> le(a, c))
  }

  /** Python's `<` on two sequences whose elements are ordered by `lt`. */
  predicate LexLt<T(==)>(a: seq<T>, b: seq<T>, lt: (T, T) -> bool)
    decreases |a|
  {
    |b| > 0 && (|a| == 0 || lt(a[0], b[0]) || (a[0] == b[0] && LexLt(a[1..], b[1..], lt)))
  }

  lemma {:induction false} LexIrreflexive<T(!new)>(a: seq<T>, lt: (T, T) -> bool)
    requires StrictTotal(lt)
    ensures !LexLt(a, a, lt)
    decreases |a|
  {
    if |a| > 0 {
      LexIrreflexive(a[1..], lt);
    }
  }

  lemma {:induction false} LexTransitive<T(!new)>(a: seq<T>, b: seq<T>, c: seq<T>, lt: (T, T) -> bool)
    requires StrictTotal(lt)
    requires LexLt(a, b, lt) && LexLt(b, c, lt)
    ensures LexLt(a, c, lt)
    decreases |a|
  {
    if |a| > 0 && a[0] == b[0] && b[0] == c[0] {
      LexTransitive(a[1..], b[1..], c[1..], lt);
    }
  }

  lemma {:induction false} LexTrichotomy<T(!new)>(a: seq<T>, b: seq<T>, lt: (T, T) -> bool)
    requires StrictTotal(lt)
    ensures a == b || LexLt(a, b, lt) || LexLt(b, a, lt)
    decreases |a|
  {
    if |a| > 0 && |b| > 0 && a[0] == b[0] {
      LexTrichotomy(a[1..], b[1..], lt);
      if a[1..] == b[1..] {
        assert a == [a[0]] + a[1..] && b == [b[0]] + b[1..];
      }
    }
  }

  /** The lexicographic order on sequences is a strict total order whenever the
      order on their elements is. */
  lemma LexStrictTotal<T(!new)>(lt: (T, T) -> bool, lexLt: (seq<T>, seq<T>) -> bool)
    requires StrictTotal(lt)
    requires forall a, b :: lexLt(a, b) == LexLt(a, b, lt)
    ensures StrictTotal(lexLt)
  {
    forall a ensures !lexLt(a, a) {
      LexIrreflexive(a, lt);
    }
    forall a, b, c | lexLt(a, b) && lexLt(b, c) ensures lexLt(a, c) {
      LexTransitive(a, b, c, lt);
    }
    forall a, b ensures a == b || lexLt(a, b) || lexLt(b, a) {
      LexTrichotomy(a, b, lt);
    }
  }

  /** "not greater than" for a strict total order is a total preorder. */
  lemma NotGreaterIsPreorder<T(!new)>(lt: (T, T) -> bool, le: (T, T) -> bool)
    requires StrictTotal(lt)
    requires forall a, b :: le(a, b) == !lt(b, a)
    ensures TotalPreorder(le)
  {
  }

  predicate CharLt(a: char, b: char)
  {
    a < b
  }

  /** Python's `a < b` on `str` values: code points compared one by one. */
  predicate StrLt(a: string, b: string)
  {
    LexLt(a, b, CharLt)
  }

  predicate StrLe(a: string, b: string)
  {
    !StrLt(b, a)
  }

  lemma StrLtStrictTotal()
    ensures StrictTotal(StrLt)
  {
    LexStrictTotal(CharLt, StrLt);
  }

  lemma StrLePreorder()
    ensures TotalPreorder(StrLe)
  {
    StrLtStrictTotal();
    NotGreaterIsPreorder(StrLt, StrLe);
  }

  predicate SortedBy<T>(s: seq<T>, le: (T, T) -> bool)
  {
    forall i, j :: 0 <= i < j < |s| ==> le(s[i], s[j])
  }

  /** An element of `s` that no element of `s` precedes. */
  method MinimumOf<T(==,!new)>(s: set<T>, le: (T, T) -> bool) returns (m: T)
    requires s != {} && TotalPreorder(le)
    ensures m in s && forall x :: x in s ==> le(m, x)
  {
    m :| m in s;
    var rest := s - {m};
    while rest != {}
      invariant rest <= s && m in s
      invariant forall x :: x in s && x !in rest ==> le(m, x)
      decreases rest
    {
      var x :| x in rest;
      if !le(m, x) {
        m := x;
      }
      rest := rest - {x};
    }
  }

  /** `sorted(s, key=...)` of a set: every element once, in non-decreasing order. */
  method SortSet<T(==,!new)>(s: set<T>, le: (T, T) -> bool) returns (r: seq<T>)
    requires TotalPreorder(le)
    ensures Distinct(r) && |r| == |s|
    ensures forall x :: x in r <==> x in s
    ensures SortedBy(r, le)
  {
    r := [];
    var rest := s;
    while rest != {}
      invariant rest <= s
      invariant forall x :: x in r <==> x in s && x !in rest
      invariant Distinct(r) && |r| + |rest| == |s|
      invariant SortedBy(r, le)
      invariant forall i, x :: 0 <= i < |r| && x in rest ==> le(r[i], x)
      decreases rest
    {
      var m := MinimumOf(rest, le);
      r := r + [m];
      rest := rest - {m};
    }
  }

  /** The first element of a sorted listing comes before every element. */
  lemma FirstIsLeast<T(!new)>(a: seq<T>, lt: (T, T) -> bool, le: (T, T) -> bool)
    requires StrictTotal(lt) && forall x, y :: le(x, y) == !lt(y, x)
    requires a != [] && SortedBy(a, le)
    ensures forall x :: x in a ==> le(a[0], x)
  {
    forall x | x in a ensures le(a[0], x) {
      var i :| 0 <= i < |a| && a[i] == x;
      if i == 0 {
        assert !lt(x, x);
      }
    }
  }

  /** A listing sorted by `le` without repeats is strictly increasing in the
      strict order `lt` that `le` is the complement of. */
  lemma DistinctSortedIncreasing<T(!new)>(s: seq<T>, lt: (T, T) -> bool, le: (T, T) -> bool)
    requires StrictTotal(lt) && forall x, y :: le(x, y) == !lt(y, x)
    requires Distinct(s) && SortedBy(s, le)
    ensures forall i, j :: 0 <= i < j < |s| ==> lt(s[i], s[j])
  {
    forall i, j | 0 <= i < j < |s| ensures lt(s[i], s[j]) {
      assert le(s[i], s[j]) && s[i] != s[j];
    }
  }

  /** Under a strict total order a set has only one sorted listing without
      repeats. */
  lemma {:induction false} SortedListingUnique<T(!new)>(a: seq<T>, b: seq<T>, lt: (T, T) -> bool, le: (T, T) -> bool)
    requires StrictTotal(lt) && forall x, y :: le(x, y) == !lt(y, x)
    requires Distinct(a) && Distinct(b) && SortedBy(a, le) && SortedBy(b, le)
    requires forall x :: x in a <==> x in b
    ensures a == b
    decreases |a|
  {
    if a != [] {
      assert a[0] in b;
      assert b[0] in a;
      FirstIsLeast(a, lt, le);
      FirstIsLeast(b, lt, le);
      assert le(a[0], b[0]) && le(b[0], a[0]);
      forall x ensures x in a[1..] <==> x in b[1..] {
        if x in a[1..] {
          var i :| 0 <= i < |a[1..]| && a[1..][i] == x;
          assert a[i + 1] == x && x != a[0];
          assert x in b;
          var j :| 0 <= j < |b| && b[j] == x;
          assert j != 0 && b[1..][j - 1] == x;
        }
        if x in b[1..] {
          var i :| 0 <= i < |b[1..]| && b[1..][i] == x;
          assert b[i + 1] == x && x != b[0];
          assert x in a;
          var j :| 0 <= j < |a| && a[j] == x;
          assert j != 0 && a[1..][j - 1] == x;
        }
      }
      SortedListingUnique(a[1..], b[1..], lt, le);
      assert a == [a[0]] + a[1..] && b == [b[0]] + b[1..];
    }
  }
}
