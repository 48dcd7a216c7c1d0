/**
 * `emitter/_helpers/limit_scope.py`: the scope filter of `retrieve` and
 * `remove`. It keeps the (scope, item) pairs whose scope tuple is `<=` the
 * requested one in Python's lexicographic order on tuples of strings, which
 * admits every prefix of the requested scope and also every smaller
 * non-prefix scope. Dafny's `<=` on sequences is the prefix order, so the
 * Python order is defined here explicitly.
 */
module LimitScope {
  import opened Wrappers
  import opened Types
  import opened Seqs
  import opened ScopeParsing

  /** Python `a < b` on `str`: lexicographic by code point, a proper prefix
      being smaller. */
  predicate StrLt(a: string, b: string) {
    if b == [] then false
    else if a == [] then true
    else if a[0] != b[0] then a[0] < b[0]
    else StrLt(a[1..], b[1..])
  }

  /** Python `a <= b` on tuples of `str`: the first differing element
      decides; a tuple that runs out first is the smaller. */
  predicate ScopeLe(a: Scope, b: Scope) {
    if a == [] then true
    else if b == [] then false
    else if a[0] != b[0] then StrLt(a[0], b[0])
    else ScopeLe(a[1..], b[1..])
  }

  /** The pairs of `items` whose scope is `<= bound`, in their order. */
  function Within<K(==,!new)>(bound: Scope, items: seq<(Scope, K)>): (r: seq<(Scope, K)>)
    ensures forall x :: x in r <==> x in items && ScopeLe(x.0, bound)
    ensures |r| <= |items|
  {
    if items == [] then []
    else if ScopeLe(items[0].0, bound) then [items[0]] + Within(bound, items[1..])
    else Within(bound, items[1..])
  }

  /** `limit_scope(scope, listeners)`. */
  function Limit<K(==,!new)>(scope: Option<string>, items: seq<(Scope, K)>): seq<(Scope, K)> {
    if scope.None? || scope.value == "" then items
    else Within(ScopeTuple(scope.value), items)
  }

  /** Whether a pair with scope `s` passes `limit_scope(scope, ...)`. */
  predicate Matches(scope: Option<string>, s: Scope) {
    scope.None? || scope.value == "" || ScopeLe(s, ScopeTuple(scope.value))
  }

  /** `limit_scope` on a pair followed by more pairs. */
  lemma LimitCons<K(!new)>(scope: Option<string>, x: (Scope, K), rest: seq<(Scope, K)>)
    ensures Limit(scope, [x] + rest) == (if Matches(scope, x.0) then [x] else []) + Limit(scope, rest)
  {
    if scope.Some? && scope.value != "" {
      assert ([x] + rest)[1..] == rest;
    }
  }

  /** `limit_scope` distributes over concatenation. */
  lemma LimitAppend<K(!new)>(scope: Option<string>, a: seq<(Scope, K)>, b: seq<(Scope, K)>)
    ensures Limit(scope, a + b) == Limit(scope, a) + Limit(scope, b)
  {
    if scope.Some? && scope.value != "" {
      WithinAppend(ScopeTuple(scope.value), a, b);
    }
  }

  /** A `None` or empty scope returns the input unchanged; otherwise exactly
      the pairs whose scope tuple is `<=` the requested one are kept. */
  lemma LimitContents<K(!new)>(scope: Option<string>, items: seq<(Scope, K)>)
    ensures scope.None? || scope.value == "" ==> Limit(scope, items) == items
    ensures scope.Some? && scope.value != "" ==>
      forall x :: x in Limit(scope, items) <==> x in items && ScopeLe(x.0, ScopeTuple(scope.value))
  {
  }

  /** The output is an order-preserving subsequence of the input. */
  lemma {:induction false} WithinSubsequence<K(!new)>(bound: Scope, items: seq<(Scope, K)>)
    ensures Subsequence(Within(bound, items), items)
  {
    if items != [] {
      WithinSubsequence(bound, items[1..]);
      assert [items[0]] + items[1..] == items;
      SubsequenceExtend(Within(bound, items[1..]), items[1..], items[0]);
      if ScopeLe(items[0].0, bound) {
        assert ([items[0]] + Within(bound, items[1..]))[1..] == Within(bound, items[1..]);
      }
    }
  }

  lemma LimitSubsequence<K(!new)>(scope: Option<string>, items: seq<(Scope, K)>)
    ensures Subsequence(Limit(scope, items), items)
  {
    if scope.None? || scope.value == "" {
      SubsequenceRefl(items);
    } else {
      WithinSubsequence(ScopeTuple(scope.value), items);
    }
  }

  /** Filtering distributes over concatenation. */
  lemma {:induction false} WithinAppend<K(!new)>(bound: Scope, a: seq<(Scope, K)>, b: seq<(Scope, K)>)
    ensures Within(bound, a + b) == Within(bound, a) + Within(bound, b)
  {
    if a == [] {
      assert a + b == b;
    } else {
      assert (a + b)[1..] == a[1..] + b;
      WithinAppend(bound, a[1..], b);
    }
  }

  /** Every prefix of the requested scope passes, the empty scope included. */
  lemma {:induction false} PrefixPasses(p: Scope, s: Scope)
    requires p <= s
    ensures ScopeLe(p, s)
  {
    if p != [] {
      PrefixPasses(p[1..], s[1..]);
    }
  }

  /** A smaller non-prefix scope passes too: ("a", "b") for "a.c". */
  lemma NonPrefixPasses()
    ensures ScopeTuple("a.c") == ["a", "c"]
    ensures ScopeLe(["a", "b"], ScopeTuple("a.c"))
    ensures !(["a", "b"] <= ScopeTuple("a.c"))
  {
    Python.SplitJoin(["a", "c"]);
    assert Python.Join(["a", "c"]) == "a.c";
    assert ["a", "b"][1..] == ["b"];
    assert ["a", "c"][1..] == ["c"];
  }

  /** `StrLt` is a strict total order. */
  lemma {:induction false} StrLtIrreflexive(a: string)
    ensures !StrLt(a, a)
  {
    if a != [] {
      StrLtIrreflexive(a[1..]);
    }
  }

  lemma {:induction false} StrLtTransitive(a: string, b: string, c: string)
    requires StrLt(a, b) && StrLt(b, c)
    ensures StrLt(a, c)
  {
    if a != [] && a[0] == b[0] && b[0] == c[0] {
      StrLtTransitive(a[1..], b[1..], c[1..]);
    }
  }

  lemma {:induction false} StrLtTotal(a: string, b: string)
    ensures a == b || StrLt(a, b) || StrLt(b, a)
  {
    if a != [] && b != [] && a[0] == b[0] {
      StrLtTotal(a[1..], b[1..]);
      if a[1..] == b[1..] {
        assert a == [a[0]] + a[1..] && b == [b[0]] + b[1..];
      }
    }
  }

  lemma {:induction false} StrLtAsymmetric(a: string, b: string)
    requires StrLt(a, b)
    ensures !StrLt(b, a)
  {
    if a != [] && a[0] == b[0] {
      StrLtAsymmetric(a[1..], b[1..]);
    }
  }

  /** `ScopeLe` is a total order: reflexive, antisymmetric, transitive and
      total. */
  lemma {:induction false} ScopeLeReflexive(a: Scope)
    ensures ScopeLe(a, a)
  {
    if a != [] {
      ScopeLeReflexive(a[1..]);
    }
  }

  lemma {:induction false} ScopeLeAntisymmetric(a: Scope, b: Scope)
    requires ScopeLe(a, b) && ScopeLe(b, a)
    ensures a == b
  {
    if a != [] && b != [] {
      if a[0] != b[0] {
        StrLtAsymmetric(a[0], b[0]);
        assert false;
      }
      ScopeLeAntisymmetric(a[1..], b[1..]);
      assert a == [a[0]] + a[1..] && b == [b[0]] + b[1..];
    }
  }

  lemma {:induction false} ScopeLeTransitive(a: Scope, b: Scope, c: Scope)
    requires ScopeLe(a, b) && ScopeLe(b, c)
    ensures ScopeLe(a, c)
  {
    if a != [] && b != [] && c != [] {
      if a[0] == b[0] && b[0] == c[0] {
        ScopeLeTransitive(a[1..], b[1..], c[1..]);
      } else if a[0] != b[0] && b[0] != c[0] {
        StrLtTransitive(a[0], b[0], c[0]);
        if a[0] == c[0] {
          StrLtIrreflexive(a[0]);
        }
      }
    }
  }

  lemma {:induction false} ScopeLeTotal(a: Scope, b: Scope)
    ensures ScopeLe(a, b) || ScopeLe(b, a)
  {
    if a != [] && b != [] {
      if a[0] == b[0] {
        ScopeLeTotal(a[1..], b[1..]);
      } else {
        StrLtTotal(a[0], b[0]);
      }
    }
  }
}
