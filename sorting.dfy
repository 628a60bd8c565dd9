/** `vulnerabilities.sort(key=lambda x: x['cve']['published'])`: Python's
    stable sort, ascending by the `published` string. It is modelled by a
    stable insertion sort; StableSortIsUnique shows that every stable sort by
    the same key yields the same list, so the choice of algorithm is immaterial. */
module Sorting {
  import opened PyStr
  import opened Cve

  /** Ascending by publication string. */
  predicate Sorted(s: seq<Entry>) {
    forall i, j :: 0 <= i < j < |s| ==> StrLe(s[i].published, s[j].published)
  }

  /** The entries published at exactly `key`, in their order in `s`. */
  function WithKey(s: seq<Entry>, key: string): seq<Entry> {
    if s == [] then []
    else (if s[0].published == key then [s[0]] else []) + WithKey(s[1..], key)
  }

  /** Places `x` after every entry of `t` published no later than it. */
  function Insert(t: seq<Entry>, x: Entry): (r: seq<Entry>)
    ensures |r| == |t| + 1
    ensures multiset(r) == multiset(t) + multiset{x}
  {
    if t == [] then [x]
    else if StrLt(x.published, t[0].published) then [x] + t
    else
      assert t == [t[0]] + t[1..];
      [t[0]] + Insert(t[1..], x)
  }

  /** The snapshot after `sort(key=published)`. */
  function SortByPublished(s: seq<Entry>): (r: seq<Entry>)
    ensures |r| == |s|
    ensures multiset(r) == multiset(s)
  {
    if s == [] then []
    else
      assert s == s[..|s| - 1] + [s[|s| - 1]];
      Insert(SortByPublished(s[..|s| - 1]), s[|s| - 1])
  }

  lemma {:induction false} WithKeyAppend(a: seq<Entry>, b: seq<Entry>, key: string)
    ensures WithKey(a + b, key) == WithKey(a, key) + WithKey(b, key)
  {
    if a == [] {
      assert a + b == b;
    } else {
      assert (a + b)[1..] == a[1..] + b;
      WithKeyAppend(a[1..], b, key);
    }
  }

  lemma {:induction false} WithKeyAbsent(s: seq<Entry>, key: string)
    requires forall i :: 0 <= i < |s| ==> s[i].published != key
    ensures WithKey(s, key) == []
  {
    if s != [] {
      WithKeyAbsent(s[1..], key);
    }
  }

  lemma {:induction false} WithKeyHas(s: seq<Entry>, key: string, e: Entry)
    requires e in s && e.published == key
    ensures e in WithKey(s, key)
  {
    if s[0] != e {
      WithKeyHas(s[1..], key, e);
    }
  }

  lemma {:induction false} WithKeyOnly(s: seq<Entry>, key: string, e: Entry)
    requires e in WithKey(s, key)
    ensures e in s && e.published == key
  {
    if s != [] && !(s[0].published == key && e == s[0]) {
      WithKeyOnly(s[1..], key, e);
    }
  }

  lemma {:induction false} InsertSorted(t: seq<Entry>, x: Entry)
    requires Sorted(t)
    ensures Sorted(Insert(t, x))
  {
    if t == [] {
    } else if StrLt(x.published, t[0].published) {
      StrLeTotal(x.published, t[0].published);
      forall j | 0 <= j < |t|
        ensures StrLe(x.published, t[j].published)
      {
        if j > 0 {
          StrLeTrans(x.published, t[0].published, t[j].published);
        }
      }
      var r := [x] + t;
      forall i, j | 0 <= i < j < |r|
        ensures StrLe(r[i].published, r[j].published)
      {
        if i > 0 {
          assert r[i] == t[i - 1] && r[j] == t[j - 1];
        }
      }
    } else {
      var u := Insert(t[1..], x);
      InsertSorted(t[1..], x);
      forall k | 0 <= k < |u|
        ensures StrLe(t[0].published, u[k].published)
      {
        assert u[k] in multiset(u);
        if u[k] != x {
          assert u[k] in multiset(t[1..]);
          var m :| 0 <= m < |t[1..]| && t[1..][m] == u[k];
          assert t[m + 1] == u[k];
        }
      }
      var r := [t[0]] + u;
      forall i, j | 0 <= i < j < |r|
        ensures StrLe(r[i].published, r[j].published)
      {
        if i > 0 {
          assert r[i] == u[i - 1] && r[j] == u[j - 1];
        } else {
          assert r[j] == u[j - 1];
        }
      }
    }
  }

  /** The sorted snapshot is ascending by publication string. */
  lemma {:induction false} SortedBySort(s: seq<Entry>)
    ensures Sorted(SortByPublished(s))
  {
    if s != [] {
      SortedBySort(s[..|s| - 1]);
      InsertSorted(SortByPublished(s[..|s| - 1]), s[|s| - 1]);
    }
  }

  lemma {:induction false} InsertKeepsKeyOrder(t: seq<Entry>, x: Entry, key: string)
    requires Sorted(t)
    ensures WithKey(Insert(t, x), key) == WithKey(t, key) + WithKey([x], key)
  {
    if t == [] {
    } else if StrLt(x.published, t[0].published) {
      if x.published == key {
        forall i | 0 <= i < |t|
          ensures t[i].published != key
        {
          StrLeTotal(key, key);
          if i > 0 {
            assert StrLe(t[0].published, t[i].published);
          }
        }
        WithKeyAbsent(t, key);
      }
      assert ([x] + t)[1..] == t;
      WithKeyAbsent([], key);
    } else {
      InsertKeepsKeyOrder(t[1..], x, key);
      assert t == [t[0]] + t[1..];
      WithKeyAppend([t[0]], t[1..], key);
      WithKeyAppend([t[0]], Insert(t[1..], x), key);
    }
  }

  /** Stability: for every publication string, the entries carrying it keep
      their relative order from the unsorted snapshot. */
  lemma {:induction false} SortIsStable(s: seq<Entry>, key: string)
    ensures WithKey(SortByPublished(s), key) == WithKey(s, key)
  {
    if s != [] {
      var p, x := s[..|s| - 1], s[|s| - 1];
      SortIsStable(p, key);
      SortedBySort(p);
      InsertKeepsKeyOrder(SortByPublished(p), x, key);
      assert s == p + [x];
      WithKeyAppend(p, [x], key);
    }
  }

  lemma SortedHeadIsLeast(a: seq<Entry>, e: Entry)
    requires Sorted(a) && e in a
    ensures StrLe(a[0].published, e.published)
  {
    var m :| 0 <= m < |a| && a[m] == e;
    StrLeTotal(e.published, e.published);
    if m > 0 {
      assert StrLe(a[0].published, a[m].published);
    }
  }

  lemma NoKeysMeansEmpty(a: seq<Entry>)
    requires forall key :: WithKey(a, key) == []
    ensures a == []
  {
    if a != [] {
      WithKeyHas(a, a[0].published, a[0]);
    }
  }

  lemma SameHeads(a: seq<Entry>, b: seq<Entry>)
    requires Sorted(a) && Sorted(b) && a != [] && b != []
    requires forall key :: WithKey(a, key) == WithKey(b, key)
    ensures a[0] == b[0]
  {
    var ka, kb := a[0].published, b[0].published;
    assert WithKey(a, ka) == [a[0]] + WithKey(a[1..], ka);
    assert a[0] in WithKey(b, ka);
    WithKeyOnly(b, ka, a[0]);
    SortedHeadIsLeast(b, a[0]);
    assert WithKey(b, kb) == [b[0]] + WithKey(b[1..], kb);
    assert b[0] in WithKey(a, kb);
    WithKeyOnly(a, kb, b[0]);
    SortedHeadIsLeast(a, b[0]);
    StrLeAntisymmetric(ka, kb);
    assert WithKey(b, ka) == [b[0]] + WithKey(b[1..], ka);
    assert a[0] == WithKey(a, ka)[0] == WithKey(b, ka)[0] == b[0];
  }

  lemma SameTails(a: seq<Entry>, b: seq<Entry>, key: string)
    requires a != [] && b != [] && a[0] == b[0]
    requires WithKey(a, key) == WithKey(b, key)
    ensures WithKey(a[1..], key) == WithKey(b[1..], key)
  {
    var pre := if a[0].published == key then [a[0]] else [];
    assert WithKey(a, key) == pre + WithKey(a[1..], key);
    assert WithKey(b, key) == pre + WithKey(b[1..], key);
    assert WithKey(a[1..], key) == (pre + WithKey(a[1..], key))[|pre|..];
    assert WithKey(b[1..], key) == (pre + WithKey(b[1..], key))[|pre|..];
  }

  /** Two ascending sequences that agree, key by key, on which entries carry
      that key and in what order, are the same sequence. */
  lemma {:induction false} SortedUnique(a: seq<Entry>, b: seq<Entry>)
    requires Sorted(a) && Sorted(b)
    requires forall key :: WithKey(a, key) == WithKey(b, key)
    ensures a == b
    decreases |a| + |b|
  {
    if a == [] {
      NoKeysMeansEmpty(b);
    } else if b == [] {
      NoKeysMeansEmpty(a);
    } else {
      SameHeads(a, b);
      forall key
        ensures WithKey(a[1..], key) == WithKey(b[1..], key)
      {
        SameTails(a, b, key);
      }
      SortedUnique(a[1..], b[1..]);
      assert a == [a[0]] + a[1..] && b == [b[0]] + b[1..];
    }
  }

  /** Any ascending, stable rearrangement of the snapshot — what Python's
      `list.sort` with this key produces — is exactly SortByPublished. */
  lemma StableSortIsUnique(s: seq<Entry>, r: seq<Entry>)
    requires Sorted(r)
    requires forall key :: WithKey(r, key) == WithKey(s, key)
    ensures r == SortByPublished(s)
  {
    SortedBySort(s);
    forall key
      ensures WithKey(r, key) == WithKey(SortByPublished(s), key)
    {
      SortIsStable(s, key);
    }
    SortedUnique(r, SortByPublished(s));
  }

  /** Every entry of the sorted snapshot comes from the snapshot. */
  lemma SortedEntryFromSnapshot(s: seq<Entry>, i: nat)
    requires i < |s|
    ensures SortByPublished(s)[i] in s
  {
    assert SortByPublished(s)[i] in multiset(SortByPublished(s));
  }

  /** Sorting keeps identifiers distinct. */
  lemma {:induction false} InsertKeepsDistinctIds(t: seq<Entry>, x: Entry)
    requires DistinctIds(t)
    requires forall e :: e in t ==> e.id != x.id
    ensures DistinctIds(Insert(t, x))
  {
    if t == [] {
    } else if StrLt(x.published, t[0].published) {
      var r := [x] + t;
      forall i, j | 0 <= i < j < |r|
        ensures r[i].id != r[j].id
      {
        assert r[j] == t[j - 1];
      }
    } else {
      var u := Insert(t[1..], x);
      InsertKeepsDistinctIds(t[1..], x);
      forall e | e in u
        ensures e.id != t[0].id
      {
        assert e in multiset(u);
        if e != x {
          assert e in multiset(t[1..]);
          var m :| 0 <= m < |t[1..]| && t[1..][m] == e;
          assert t[m + 1] == e;
        }
      }
      var r := [t[0]] + u;
      forall i, j | 0 <= i < j < |r|
        ensures r[i].id != r[j].id
      {
        assert r[j] == u[j - 1];
        assert r[j] in u;
      }
    }
  }

  lemma {:induction false} SortKeepsDistinctIds(s: seq<Entry>)
    requires DistinctIds(s)
    ensures DistinctIds(SortByPublished(s))
  {
    if s != [] {
      var p, x := s[..|s| - 1], s[|s| - 1];
      assert DistinctIds(p);
      SortKeepsDistinctIds(p);
      forall e | e in SortByPublished(p)
        ensures e.id != x.id
      {
        assert e in multiset(SortByPublished(p));
        assert e in multiset(p);
        var m :| 0 <= m < |p| && p[m] == e;
        assert s[m] == e;
      }
      InsertKeepsDistinctIds(SortByPublished(p), x);
    }
  }
}
