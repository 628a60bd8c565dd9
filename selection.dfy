/** The delta selector of `fetch_and_process_cves`: given the day's snapshot
    and the watermark read back from the store, which entries are new, and in
    what order. */
module Selection {
  import opened Wrappers
  import opened PyStr
  import opened Cve
  import opened Sorting

  /** The position of the first entry carrying identifier `id`, if any. */
  function FirstIndex(s: seq<Entry>, id: string): (r: Option<nat>)
    ensures r.None? <==> forall j :: 0 <= j < |s| ==> s[j].id != id
    ensures r.Some? ==> (r.value < |s| && s[r.value].id == id &&
      forall j :: 0 <= j < r.value ==> s[j].id != id)
  {
    if s == [] then None
    else if s[0].id == id then Some(0)
    else
      match FirstIndex(s[1..], id)
      case None => None
      case Some(i) => Some(i + 1)
  }

  /** Whether the stored text counts as a watermark: Python's `if last_id:`
      is false for `None` and for the empty string. */
  predicate HasWatermark(lastId: Option<string>) {
    lastId.Some? && lastId.value != ""
  }

  /** The entries to announce, oldest first. An empty snapshot yields
      nothing; otherwise the snapshot is sorted by publication string and
      SelectFromSorted decides. */
  function SelectNew(s: seq<Entry>, lastId: Option<string>): (r: seq<Entry>)
    ensures |r| <= |s|
  {
    if s == [] then [] else SelectFromSorted(SortByPublished(s), lastId)
  }

  /** The choice made on the sorted snapshot: without a watermark only the
      newest entry; with one, everything after its first occurrence, or the
      whole list when it does not occur. */
  function SelectFromSorted(sorted: seq<Entry>, lastId: Option<string>): (r: seq<Entry>)
    requires sorted != []
    ensures |r| <= |sorted|
  {
    if HasWatermark(lastId) then
      match FirstIndex(sorted, lastId.value)
      case Some(i) => sorted[i + 1..]
      case None => sorted
    else [sorted[|sorted| - 1]]
  }

  lemma SortedSuffix(s: seq<Entry>, k: nat)
    requires Sorted(s) && k <= |s|
    ensures Sorted(s[k..])
  {
    forall i, j | 0 <= i < j < |s[k..]|
      ensures StrLe(s[k..][i].published, s[k..][j].published)
    {
      assert s[k..][i] == s[k + i] && s[k..][j] == s[k + j];
    }
  }

  /** Whatever the watermark, the selection is a contiguous tail of the sorted
      snapshot; `k` is where it starts. */
  lemma SelectNewIsSortedTail(s: seq<Entry>, lastId: Option<string>) returns (k: nat)
    ensures k <= |s| && SelectNew(s, lastId) == SortByPublished(s)[k..]
  {
    var sorted := SortByPublished(s);
    k :=
      if s == [] then 0
      else if HasWatermark(lastId) then
        (match FirstIndex(sorted, lastId.value) case Some(i) => i + 1 case None => 0)
      else |s| - 1;
  }

  /** Being a tail of the sorted snapshot, the selection is announced in
      ascending publication order. */
  lemma SelectNewIsSorted(s: seq<Entry>, lastId: Option<string>)
    ensures Sorted(SelectNew(s, lastId))
  {
    var k := SelectNewIsSortedTail(s, lastId);
    SortedBySort(s);
    SortedSuffix(SortByPublished(s), k);
  }

  /** A watermark that occurs in the snapshot: exactly the sorted entries
      after its first occurrence are selected; it and everything before it
      are not. */
  lemma SelectAfterWatermark(s: seq<Entry>, w: string) returns (i: nat)
    requires w != ""
    requires exists e :: e in s && e.id == w
    ensures i < |s| && SortByPublished(s)[i].id == w
    ensures forall j :: 0 <= j < i ==> SortByPublished(s)[j].id != w
    ensures SelectNew(s, Some(w)) == SortByPublished(s)[i + 1..]
  {
    var sorted := SortByPublished(s);
    var e :| e in s && e.id == w;
    assert e in multiset(sorted);
    var f := FirstIndex(sorted, w);
    assert f.Some? by {
      var m :| 0 <= m < |sorted| && sorted[m] == e;
    }
    i := f.value;
  }

  /** A watermark absent from the snapshot: the whole snapshot, sorted, is
      selected. */
  lemma SelectWhenWatermarkAbsent(s: seq<Entry>, w: string)
    requires w != ""
    requires forall e :: e in s ==> e.id != w
    ensures SelectNew(s, Some(w)) == SortByPublished(s)
    ensures multiset(SelectNew(s, Some(w))) == multiset(s)
  {
    var sorted := SortByPublished(s);
    forall j | 0 <= j < |sorted|
      ensures sorted[j].id != w
    {
      assert sorted[j] in multiset(sorted);
    }
  }

  /** No watermark (no file, an unreadable file, or one holding only
      whitespace): a non-empty snapshot yields just its newest entry, one
      published no earlier than any other. */
  lemma SelectOnColdStart(s: seq<Entry>, lastId: Option<string>)
    requires s != [] && !HasWatermark(lastId)
    ensures |SelectNew(s, lastId)| == 1
    ensures SelectNew(s, lastId)[0] in s
    ensures SelectNew(s, lastId) == [SortByPublished(s)[|s| - 1]]
    ensures forall e :: e in s ==> StrLe(e.published, SelectNew(s, lastId)[0].published)
  {
    var sorted := SortByPublished(s);
    var newest := sorted[|s| - 1];
    assert newest in multiset(s);
    SortedBySort(s);
    forall e | e in s
      ensures StrLe(e.published, newest.published)
    {
      assert e in multiset(sorted);
      var m :| 0 <= m < |sorted| && sorted[m] == e;
      StrLeTotal(e.published, e.published);
      if m < |s| - 1 {
        assert StrLe(sorted[m].published, sorted[|s| - 1].published);
      }
    }
  }

  lemma DistinctIdsAt(s: seq<Entry>, i: nat, j: nat)
    requires DistinctIds(s) && i < |s| && j < |s| && s[i].id == s[j].id
    ensures i == j
  {
  }

  /** With distinct identifiers, a watermark found at sorted position `i`
      selects exactly the positions after `i`. */
  lemma SelectAfterKnownPosition(s: seq<Entry>, i: nat)
    requires DistinctIds(s)
    requires i < |s| && SortByPublished(s)[i].id != ""
    ensures SelectNew(s, Some(SortByPublished(s)[i].id)) == SortByPublished(s)[i + 1..]
  {
    var sorted := SortByPublished(s);
    var id := sorted[i].id;
    SortKeepsDistinctIds(s);
    var f := FirstIndex(sorted, id);
    assert f.Some?;
    DistinctIdsAt(sorted, f.value, i);
    assert SelectNew(s, Some(id)) == SelectFromSorted(sorted, Some(id));
  }

  /** The result depends on the order of the snapshot only through the
      order among entries published at the same instant: two snapshots that
      list, for every publication string, the same entries in the same order
      select the same list. */
  lemma SelectIgnoresOrderUpToTies(s: seq<Entry>, t: seq<Entry>, lastId: Option<string>)
    requires forall key :: WithKey(s, key) == WithKey(t, key)
    ensures SelectNew(s, lastId) == SelectNew(t, lastId)
  {
    SortedBySort(t);
    forall key
      ensures WithKey(SortByPublished(t), key) == WithKey(s, key)
    {
      SortIsStable(t, key);
    }
    StableSortIsUnique(s, SortByPublished(t));
  }

  /** Two entries of one day, one hour apart, used by the examples below. */
  function OlderExample(): Entry {
    Entry("CVE-1", "2024-05-01T10:00:00.000", [], map[])
  }

  function NewerExample(): Entry {
    Entry("CVE-2", "2024-05-01T11:00:00.000", [], map[])
  }

  lemma ExampleOrder()
    ensures StrLt(OlderExample().published, NewerExample().published)
  {
    var day, t0, t1 := "2024-05-01T1", "0:00:00.000", "1:00:00.000";
    assert OlderExample().published == day + t0 && NewerExample().published == day + t1;
    StrLeSharedPrefix(day, t1, t0);
  }

  lemma ExampleSorted()
    ensures SortByPublished([NewerExample(), OlderExample()]) == [OlderExample(), NewerExample()]
  {
    ExampleOrder();
    var s := [NewerExample(), OlderExample()];
    assert s[..1] == [NewerExample()];
    assert SortByPublished([NewerExample()]) == [NewerExample()];
  }

  /** The snapshot listed newest first, with the older entry as the
      watermark: only the newer entry is new. */
  lemma ExampleAfterWatermark()
    ensures SelectNew([NewerExample(), OlderExample()], Some("CVE-1")) == [NewerExample()]
  {
    ExampleSorted();
    var sorted := [OlderExample(), NewerExample()];
    assert SelectNew([NewerExample(), OlderExample()], Some("CVE-1")) ==
      SelectFromSorted(sorted, Some("CVE-1"));
    assert sorted[0].id == "CVE-1";
    assert FirstIndex(sorted, "CVE-1") == Some(0);
    assert sorted[1..] == [NewerExample()];
  }

  /** The same snapshot on a first run: only the newer entry. */
  lemma ExampleColdStart()
    ensures SelectNew([NewerExample(), OlderExample()], None) == [NewerExample()]
  {
    ExampleSorted();
  }

  /** The same snapshot with a watermark from an earlier day: both, oldest first. */
  lemma ExampleUnknownWatermark()
    ensures SelectNew([NewerExample(), OlderExample()], Some("CVE-0")) ==
      [OlderExample(), NewerExample()]
  {
    ExampleSorted();
    assert FirstIndex([OlderExample(), NewerExample()][1..], "CVE-0") == None;
  }

  /** An entry of the same day and instant as `OlderExample`. */
  function TiedExample(id: string): Entry {
    Entry(id, "2024-05-01T10:00:00.000", [], map[])
  }

  /** Entries published at the same instant keep their order in the
      response, so which of them a first run announces depends on that order. */
  lemma ExampleTieOrder()
    ensures SelectNew([TiedExample("CVE-A"), TiedExample("CVE-B")], None) == [TiedExample("CVE-B")]
    ensures SelectNew([TiedExample("CVE-B"), TiedExample("CVE-A")], None) == [TiedExample("CVE-A")]
  {
    TiedPairKeepsOrder(TiedExample("CVE-A"), TiedExample("CVE-B"));
    TiedPairKeepsOrder(TiedExample("CVE-B"), TiedExample("CVE-A"));
  }

  lemma TiedPairKeepsOrder(x: Entry, y: Entry)
    requires x.published == y.published
    ensures SortByPublished([x, y]) == [x, y]
  {
    StrLeTotal(x.published, x.published);
    assert [x, y][..1] == [x];
    assert SortByPublished([x]) == [x];
    assert Insert([x], y) == [x, y];
  }
}
