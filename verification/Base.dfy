/** Optional values and results that may be errors. */
module Wrappers {

  datatype Option<+T> = None | Some(value: T)

  datatype Result<+T, +E> = Ok(value: T) | Err(error: E)
}

/** Totals over finite maps. */
module Totals {

  /** Sum of all values of a map; which key is taken first does not matter (TotalRemove). */
  ghost function Total<K(!new)>(m: map<K, nat>): nat
    decreases m.Keys
  {
    if m.Keys == {} then 0
    else
      var k :| k in m.Keys;
      assert (m - {k}).Keys == m.Keys - {k};
      m[k] + Total(m - {k})
  }

  /** Any key can be taken out of the sum first. */
  lemma {:induction false} TotalRemove<K(!new)>(m: map<K, nat>, k: K)
    requires k in m
    ensures Total(m) == m[k] + Total(m - {k})
    decreases m.Keys
  {
    var j :| j in m.Keys && Total(m) == m[j] + Total(m - {j});
    assert (m - {j}).Keys == m.Keys - {j};
    assert (m - {k}).Keys == m.Keys - {k};
    if j != k {
      TotalRemove(m - {j}, k);
      TotalRemove(m - {k}, j);
      assert m - {j} - {k} == m - {k} - {j};
    }
  }

  /** Overwriting one key changes the sum by the difference of the two values. */
  lemma TotalPut<K(!new)>(m: map<K, nat>, k: K, v: nat)
    ensures Total(m[k := v]) == v + Total(m - {k})
  {
    TotalRemove(m[k := v], k);
    assert m[k := v] - {k} == m - {k};
  }

  lemma TotalAbsent<K(!new)>(m: map<K, nat>, k: K)
    requires k !in m
    ensures m - {k} == m
  {
  }

  lemma {:induction false} TotalZero<K(!new)>(m: map<K, nat>)
    requires forall k | k in m :: m[k] == 0
    ensures Total(m) == 0
    decreases m.Keys
  {
    if k :| k in m {
      TotalRemove(m, k);
      assert (m - {k}).Keys == m.Keys - {k};
      TotalZero(m - {k});
    }
  }

  /** The loop of `values().sum()`: visits the keys in an arbitrary order. */
  method SumValues<K(!new,==)>(m: map<K, nat>) returns (sum: nat)
    ensures sum == Total(m)
  {
    sum := 0;
    var rest := m;
    while rest.Keys != {}
      invariant sum + Total(rest) == Total(m)
      decreases rest.Keys
    {
      var k :| k in rest.Keys;
      TotalRemove(rest, k);
      sum := sum + rest[k];
      assert (rest - {k}).Keys == rest.Keys - {k};
      rest := rest - {k};
    }
  }
}

/** The elements of a sequence. */
module Elements {

  function ToSet<T(==)>(s: seq<T>): set<T>
  {
    set x | x in s
  }

  /** One more element of a prefix; for loops that build up a result from the front. */
  lemma PrefixSnoc<T>(s: seq<T>, i: nat)
    requires i < |s|
    ensures s[..i + 1] == s[..i] + [s[i]]
  {
  }

  lemma SnocAt<T>(s: seq<T>, x: T, i: nat)
    requires i <= |s|
    ensures (s + [x])[..i] == s[..i] && (s + [x])[i] == if i < |s| then s[i] else x
  {
  }

  lemma WholePrefix<T>(s: seq<T>)
    ensures s[..|s|] == s
  {
  }

  lemma ToSetSnoc<T>(s: seq<T>, x: T)
    ensures ToSet(s + [x]) == ToSet(s) + {x}
  {
  }

  predicate Distinct<T(==)>(s: seq<T>)
  {
    forall i, j | 0 <= i < j < |s| :: s[i] != s[j]
  }

  lemma DistinctSnoc<T>(s: seq<T>, x: T)
    requires Distinct(s) && x !in ToSet(s)
    ensures Distinct(s + [x]) && ToSet(s + [x]) == ToSet(s) + {x}
  {
    ToSetSnoc(s, x);
    assert forall i | 0 <= i < |s| :: s[i] in ToSet(s);
  }
}

/** Lexicographic order on strings, the order `String::cmp` uses. */
module StringOrder {

  predicate AtMost(a: string, b: string)
  {
    a == [] || (b != [] && (a[0] < b[0] || (a[0] == b[0] && AtMost(a[1..], b[1..]))))
  }

  predicate Before(a: string, b: string)
  {
    AtMost(a, b) && a != b
  }

  lemma {:induction false} AtMostTotal(a: string, b: string)
    ensures AtMost(a, b) || AtMost(b, a)
  {
    if a != [] && b != [] && a[0] == b[0] {
      AtMostTotal(a[1..], b[1..]);
    }
  }

  lemma {:induction false} AtMostAntisymmetric(a: string, b: string)
    requires AtMost(a, b) && AtMost(b, a)
    ensures a == b
  {
    if a != [] {
      AtMostAntisymmetric(a[1..], b[1..]);
      assert a == [a[0]] + a[1..];
      assert b == [b[0]] + b[1..];
    }
  }

  lemma {:induction false} AtMostTransitive(a: string, b: string, c: string)
    requires AtMost(a, b) && AtMost(b, c)
    ensures AtMost(a, c)
  {
    if a != [] && a[0] == b[0] && b[0] == c[0] {
      AtMostTransitive(a[1..], b[1..], c[1..]);
    }
  }

  /** A common beginning does not matter. */
  lemma {:induction false} BeforeAfterPrefix(prefix: string, a: string, b: string)
    ensures Before(prefix + a, prefix + b) <==> Before(a, b)
  {
    if prefix == [] {
      assert prefix + a == a && prefix + b == b;
    } else {
      var rest := prefix[1..];
      assert (prefix + a)[1..] == rest + a && (prefix + b)[1..] == rest + b;
      BeforeAfterPrefix(rest, a, b);
      assert prefix + a == [prefix[0]] + (rest + a) && prefix + b == [prefix[0]] + (rest + b);
    }
  }

  lemma BeforeTransitive(a: string, b: string, c: string)
    requires Before(a, b) && Before(b, c)
    ensures Before(a, c)
  {
    AtMostTransitive(a, b, c);
    if a == c {
      AtMostAntisymmetric(a, b);
    }
  }

  lemma BeforeIrreflexiveTotal(a: string, b: string)
    ensures a == b || Before(a, b) || Before(b, a)
    ensures !(Before(a, b) && Before(b, a))
  {
    AtMostTotal(a, b);
    if AtMost(a, b) && AtMost(b, a) {
      AtMostAntisymmetric(a, b);
    }
  }
}
