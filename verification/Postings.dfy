/**
 Posting entries, the map a posting list denotes, and the one sorted list that a map is read back as.
 */
module Postings {
  import opened Elements
  import opened StringOrder

  type DocKey = string
  type Term = string

  datatype PostingEntry = PostingEntry(docKey: DocKey, termFrequency: nat, docLength: nat)

  /** What a posting list means: at most one entry per document, filed under its own key. */
  type PostingMap = map<DocKey, PostingEntry>

  predicate WellKeyed(m: PostingMap)
  {
    forall k | k in m :: m[k].docKey == k
  }

  predicate DistinctKeys(es: seq<PostingEntry>)
  {
    forall i, j | 0 <= i < j < |es| :: es[i].docKey != es[j].docKey
  }

  predicate HasKey(es: seq<PostingEntry>, k: DocKey)
  {
    exists i | 0 <= i < |es| :: es[i].docKey == k
  }

  /** Inserting entries one after the other; a later entry for a document replaces an earlier one. */
  function AddAll(m: PostingMap, es: seq<PostingEntry>): PostingMap
  {
    if es == [] then m
    else
      var last := es[|es| - 1];
      AddAll(m, es[..|es| - 1])[last.docKey := last]
  }

  function RemoveAll(m: PostingMap, ks: seq<DocKey>): PostingMap
  {
    m - ToSet(ks)
  }

  lemma AddAllSnoc(m: PostingMap, es: seq<PostingEntry>, e: PostingEntry)
    ensures AddAll(m, es + [e]) == AddAll(m, es)[e.docKey := e]
  {
    assert (es + [e])[..|es|] == es;
  }

  lemma {:induction false} AddAllWellKeyed(m: PostingMap, es: seq<PostingEntry>)
    requires WellKeyed(m)
    ensures WellKeyed(AddAll(m, es))
  {
    if es != [] {
      AddAllWellKeyed(m, es[..|es| - 1]);
    }
  }

  lemma AddNone(m: PostingMap)
    ensures AddAll(m, []) == m && RemoveAll(m, []) == m
  {
  }

  lemma AddOne(m: PostingMap, e: PostingEntry)
    ensures AddAll(m, [e]) == m[e.docKey := e]
  {
    AddAllSnoc(m, [], e);
    assert [] + [e] == [e];
  }

  lemma HasKeySnoc(es: seq<PostingEntry>, e: PostingEntry, k: DocKey)
    ensures HasKey(es + [e], k) <==> HasKey(es, k) || e.docKey == k
  {
    if HasKey(es, k) {
      var i :| 0 <= i < |es| && es[i].docKey == k;
      assert (es + [e])[i].docKey == k;
    }
    assert (es + [e])[|es|] == e;
  }

  /** A document is in the result when it was there before or one of the entries names it. */
  lemma {:induction false} AddAllDomain(m: PostingMap, es: seq<PostingEntry>, k: DocKey)
    ensures k in AddAll(m, es) <==> k in m || HasKey(es, k)
    ensures !HasKey(es, k) && k in m ==> AddAll(m, es)[k] == m[k]
  {
    if es != [] {
      var front, last := es[..|es| - 1], es[|es| - 1];
      AddAllDomain(m, front, k);
      assert es == front + [last];
      HasKeySnoc(front, last, k);
    }
  }

  /** What the result holds for a named document is one of the entries. */
  lemma {:induction false} AddAllFound(m: PostingMap, es: seq<PostingEntry>, k: DocKey)
    requires HasKey(es, k)
    ensures k in AddAll(m, es) && AddAll(m, es)[k] in es && AddAll(m, es)[k].docKey == k
  {
    var front, last := es[..|es| - 1], es[|es| - 1];
    assert es == front + [last];
    HasKeySnoc(front, last, k);
    if last.docKey != k {
      AddAllFound(m, front, k);
    }
  }

  /** With distinct keys no entry is replaced: each one can be found in the result. */
  lemma AddAllKeeps(m: PostingMap, es: seq<PostingEntry>, e: PostingEntry)
    requires DistinctKeys(es) && e in es
    ensures e.docKey in AddAll(m, es) && AddAll(m, es)[e.docKey] == e
  {
    var i :| 0 <= i < |es| && es[i] == e;
    AddAllFound(m, es, e.docKey);
    var j :| 0 <= j < |es| && es[j] == AddAll(m, es)[e.docKey];
    assert i == j;
  }

  /** The list holds exactly the entries of the map, each once. */
  ghost predicate Lists(es: seq<PostingEntry>, m: PostingMap)
  {
    DistinctKeys(es) && AddAll(map[], es) == m
  }

  /** Lists, said entry by entry. */
  lemma ListsByElement(es: seq<PostingEntry>, m: PostingMap)
    requires DistinctKeys(es)
    requires forall e | e in es :: e.docKey in m && m[e.docKey] == e
    requires forall k | k in m :: m[k] in es && m[k].docKey == k
    ensures Lists(es, m)
  {
    var built := AddAll(map[], es);
    forall k
      ensures k in built <==> k in m
      ensures k in m ==> built[k] == m[k]
    {
      AddAllDomain(map[], es, k);
      if k in m {
        AddAllKeeps(map[], es, m[k]);
      }
    }
    assert built == m;
  }

  lemma ListsElements(es: seq<PostingEntry>, m: PostingMap)
    requires Lists(es, m)
    ensures WellKeyed(m)
    ensures forall e | e in es :: e.docKey in m && m[e.docKey] == e
    ensures forall k | k in m :: m[k] in es
  {
    AddAllWellKeyed(map[], es);
    forall e | e in es ensures e.docKey in m && m[e.docKey] == e { AddAllKeeps(map[], es, e); }
    forall k | k in m ensures m[k] in es {
      AddAllDomain(map[], es, k);
      AddAllFound(map[], es, k);
    }
  }

  /** Document frequency: the list is as long as the map is large. */
  lemma {:induction false} ListsLength(es: seq<PostingEntry>, m: PostingMap)
    requires Lists(es, m)
    ensures |es| == |m|
  {
    if es != [] {
      var front, last := es[..|es| - 1], es[|es| - 1];
      var rest := AddAll(map[], front);
      assert Lists(front, rest);
      ListsLength(front, rest);
      AddAllDomain(map[], front, last.docKey);
      assert last.docKey !in rest;
      assert m.Keys == rest.Keys + {last.docKey};
    }
  }

  // ---------------------------------------------------------------- sorted reading order

  predicate SortedByKey(es: seq<PostingEntry>)
  {
    forall i, j | 0 <= i < j < |es| :: Before(es[i].docKey, es[j].docKey)
  }

  lemma {:induction false} LeastExists(ks: set<DocKey>) returns (least: DocKey)
    requires ks != {}
    ensures least in ks && forall k | k in ks :: AtMost(least, k)
  {
    var k :| k in ks;
    if ks == {k} {
      AtMostTotal(k, k);
      least := k;
    } else {
      var rest := ks - {k};
      assert ks == rest + {k};
      var other := LeastExists(rest);
      AtMostTotal(k, other);
      AtMostTotal(k, k);
      if AtMost(k, other) {
        least := k;
        forall x | x in rest ensures AtMost(k, x) { AtMostTransitive(k, other, x); }
      } else {
        least := other;
      }
    }
  }

  ghost function Least(ks: set<DocKey>): (least: DocKey)
    requires ks != {}
    ensures least in ks && forall k | k in ks :: AtMost(least, k)
  {
    assert exists l :: l in ks && forall k | k in ks :: AtMost(l, k) by {
      var l := LeastExists(ks);
    }
    var l :| l in ks && forall k | k in ks :: AtMost(l, k);
    l
  }

  /** The entries of a map in key order. */
  ghost function Listing(m: PostingMap): seq<PostingEntry>
    decreases m.Keys
  {
    if m.Keys == {} then []
    else
      var k := Least(m.Keys);
      assert (m - {k}).Keys == m.Keys - {k};
      [m[k]] + Listing(m - {k})
  }

  lemma {:induction false} ListingElements(m: PostingMap)
    requires WellKeyed(m)
    ensures forall e | e in Listing(m) :: e.docKey in m && m[e.docKey] == e
    ensures forall k | k in m :: m[k] in Listing(m)
    ensures SortedByKey(Listing(m))
    decreases m.Keys
  {
    if m.Keys != {} {
      var k := Least(m.Keys);
      var rest := m - {k};
      assert rest.Keys == m.Keys - {k};
      ListingElements(rest);
      assert Listing(m) == [m[k]] + Listing(rest);
      forall x | x in m ensures m[x] in Listing(m) {
        if x != k { assert rest[x] in Listing(rest); }
      }
      forall i, j | 0 <= i < j < |Listing(m)|
        ensures Before(Listing(m)[i].docKey, Listing(m)[j].docKey)
      {
        assert Listing(m)[j] == Listing(rest)[j - 1];
        assert Listing(rest)[j - 1] in Listing(rest);
        if i > 0 { assert Listing(m)[i] == Listing(rest)[i - 1]; }
      }
    }
  }

  lemma SortedIsDistinct(es: seq<PostingEntry>)
    requires SortedByKey(es)
    ensures DistinctKeys(es)
  {
  }

  /** Reading a map back as its sorted list loses nothing. */
  lemma ListingLists(m: PostingMap)
    requires WellKeyed(m)
    ensures Lists(Listing(m), m) && SortedByKey(Listing(m))
  {
    ListingElements(m);
    SortedIsDistinct(Listing(m));
    ListsByElement(Listing(m), m);
  }

  /** There is only one sorted list for a map, so "the" posting list of a term is well defined. */
  lemma {:induction false} SortedListUnique(a: seq<PostingEntry>, b: seq<PostingEntry>)
    requires SortedByKey(a) && SortedByKey(b)
    requires forall e :: e in a <==> e in b
    ensures a == b
  {
    assert a != [] ==> a[0] in b;
    assert b != [] ==> b[0] in a;
    if a != [] && b != [] {
      var i :| 0 <= i < |b| && b[i] == a[0];
      var j :| 0 <= j < |a| && a[j] == b[0];
      BeforeIrreflexiveTotal(a[0].docKey, b[0].docKey);
      assert a[0] == b[0];
      TailElements(a, b);
      SortedListUnique(a[1..], b[1..]);
    }
  }

  lemma TailElements(a: seq<PostingEntry>, b: seq<PostingEntry>)
    requires a != [] && b != [] && a[0] == b[0]
    requires SortedByKey(a) && SortedByKey(b)
    requires forall e :: e in a <==> e in b
    ensures forall e :: e in a[1..] <==> e in b[1..]
  {
    forall e
      ensures e in a[1..] <==> e in b[1..]
    {
      if e in a[1..] {
        var i :| 0 <= i < |a[1..]| && a[1..][i] == e;
        assert a[i + 1] == e && e in b && e != b[0];
        var j :| 0 <= j < |b| && b[j] == e;
        assert b[1..][j - 1] == e;
      }
      if e in b[1..] {
        var i :| 0 <= i < |b[1..]| && b[1..][i] == e;
        assert b[i + 1] == e && e in a && e != a[0];
        var j :| 0 <= j < |a| && a[j] == e;
        assert a[1..][j - 1] == e;
      }
    }
  }

  lemma SortedListingIsListing(es: seq<PostingEntry>, m: PostingMap)
    requires Lists(es, m) && SortedByKey(es)
    ensures es == Listing(m)
  {
    ListsElements(es, m);
    ListingElements(m);
    SortedListUnique(es, Listing(m));
  }

  /** `sort_by` on document keys, one insertion at a time. */
  function InsertByKey(es: seq<PostingEntry>, e: PostingEntry): (r: seq<PostingEntry>)
    ensures multiset(r) == multiset(es) + multiset{e}
  {
    if es == [] || Before(e.docKey, es[0].docKey) then [e] + es
    else
      assert es == [es[0]] + es[1..];
      [es[0]] + InsertByKey(es[1..], e)
  }

  lemma InMultiset(es: seq<PostingEntry>, e: PostingEntry)
    ensures e in es <==> e in multiset(es)
  {
  }

  lemma {:induction false} InsertByKeySorted(es: seq<PostingEntry>, e: PostingEntry)
    requires SortedByKey(es) && !HasKey(es, e.docKey)
    ensures SortedByKey(InsertByKey(es, e))
  {
    if es != [] {
      BeforeIrreflexiveTotal(e.docKey, es[0].docKey);
      assert es[0].docKey != e.docKey;
      if Before(e.docKey, es[0].docKey) {
        forall j | 0 < j < |es| ensures Before(e.docKey, es[j].docKey) {
          BeforeTransitive(e.docKey, es[0].docKey, es[j].docKey);
        }
      } else {
        var tail := es[1..];
        assert !HasKey(tail, e.docKey) by {
          forall i | 0 <= i < |tail| ensures tail[i].docKey != e.docKey { assert es[i + 1] == tail[i]; }
        }
        InsertByKeySorted(tail, e);
        InsertByKeyAfter(tail, e, es[0].docKey);
      }
    }
  }

  lemma InsertByKeyAfter(es: seq<PostingEntry>, e: PostingEntry, k: DocKey)
    requires Before(k, e.docKey) && forall i | 0 <= i < |es| :: Before(k, es[i].docKey)
    ensures forall j | 0 <= j < |InsertByKey(es, e)| :: Before(k, InsertByKey(es, e)[j].docKey)
  {
    var r := InsertByKey(es, e);
    forall j | 0 <= j < |r| ensures Before(k, r[j].docKey) {
      assert r[j] in multiset(r);
      if r[j] != e {
        assert r[j] in multiset(es);
        var i :| 0 <= i < |es| && es[i] == r[j];
      }
    }
  }

  /** `into_values().collect()` followed by `sort_by`: the hash order of the map does not show in the result. */
  method CollectSorted(m: PostingMap) returns (es: seq<PostingEntry>)
    requires WellKeyed(m)
    ensures es == Listing(m)
    ensures Lists(es, m) && SortedByKey(es)
  {
    es := [];
    var rest := m.Keys;
    while rest != {}
      invariant rest <= m.Keys
      invariant SortedByKey(es)
      invariant forall e | e in es :: e.docKey in m && e.docKey !in rest && m[e.docKey] == e
      invariant forall k | k in m && k !in rest :: m[k] in es
      decreases rest
    {
      var k :| k in rest;
      InsertByKeySorted(es, m[k]);
      var next := InsertByKey(es, m[k]);
      forall e ensures e in next <==> e in es || e == m[k] {
        InMultiset(next, e);
        InMultiset(es, e);
      }
      es := next;
      rest := rest - {k};
    }
    SortedIsDistinct(es);
    ListsByElement(es, m);
    SortedListingIsListing(es, m);
  }
}
