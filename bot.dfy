/** The bot's poll cycle (`monitor_cves_task`): fetch the day's entries,
    select the new ones, and send them one at a time, overwriting the stored
    watermark after every send that succeeded. The chat channel and the
    file system are reduced to per-entry outcomes passed in as parameters. */
module Bot {
  import opened Wrappers
  import opened PyStr
  import opened Cve
  import opened Sorting
  import opened Selection
  import opened Embed
  import opened Watermark

  /** What the channel receives for one entry: its notification when it
      could be built and `channel.send` succeeded (`sendOk`), nothing
      otherwise. */
  function PostedFor(e: Entry, sendOk: bool): (r: Option<Notification>)
    ensures r.Some? <==> NotificationFor(e).Success? && sendOk
    ensures r.Some? ==> r.value.id == e.id
  {
    match NotificationFor(e)
    case Success(n) => if sendOk then Some(n) else None
    case Failure(_) => None
  }

  /** What happened to one selected entry: its identifier, what was posted
      for it, and how the save after a successful post ended (for an entry
      with nothing posted no save is attempted and `write` is irrelevant). */
  datatype Attempt = Attempt(id: string, posted: Option<Notification>, write: WriteOutcome)

  /** The attempts of a batch: entry `i` is sent successfully when
      `sendOk[i]` holds, and its save ends as `writes[i]`. */
  function Attempts(batch: seq<Entry>, sendOk: seq<bool>, writes: seq<WriteOutcome>): seq<Attempt>
    requires |sendOk| == |batch| && |writes| == |batch|
  {
    seq(|batch|, i requires 0 <= i < |batch| => Attempt(batch[i].id, PostedFor(batch[i], sendOk[i]), writes[i]))
  }

  /** The entry was delivered and its save reached the file. */
  predicate Persisted(a: Attempt) {
    a.posted.Some? && a.write != OpenFailed
  }

  /** The stored watermark after the attempts, starting from `file`: each
      delivered entry is followed by a save of its identifier. */
  function StoreAfter(file: Option<string>, attempts: seq<Attempt>): Option<string> {
    if attempts == [] then file
    else
      var n := |attempts| - 1;
      var before := StoreAfter(file, attempts[..n]);
      if attempts[n].posted.Some? then AfterWrite(before, attempts[n].id, attempts[n].write) else before
  }

  /** The notifications the channel received, in order. */
  function SentNotifications(attempts: seq<Attempt>): seq<Notification> {
    if attempts == [] then []
    else
      var n := |attempts| - 1;
      SentNotifications(attempts[..n]) +
        (match attempts[n].posted case Some(m) => [m] case None => [])
  }

  /** Position of the last attempt whose save reached the file, if any. */
  function LastPersisted(attempts: seq<Attempt>): (r: Option<nat>)
    ensures r.None? <==> forall k :: 0 <= k < |attempts| ==> !Persisted(attempts[k])
    ensures r.Some? ==> (r.value < |attempts| && Persisted(attempts[r.value]) &&
      forall k :: r.value < k < |attempts| ==> !Persisted(attempts[k]))
  {
    if attempts == [] then None
    else
      var n := |attempts| - 1;
      if Persisted(attempts[n]) then Some(n) else LastPersisted(attempts[..n])
  }

  /** The stored watermark is decided by the last save that reached the file;
      when none did, it keeps its prior value. */
  lemma {:induction false} StoreIsLastPersisted(file: Option<string>, attempts: seq<Attempt>)
    ensures StoreAfter(file, attempts) ==
      match LastPersisted(attempts)
      case None => file
      case Some(j) => AfterWrite(file, attempts[j].id, attempts[j].write)
  {
    if attempts != [] {
      StoreIsLastPersisted(file, attempts[..|attempts| - 1]);
    }
  }

  /** With every save succeeding, the stored watermark is the identifier of
      the last entry delivered, and the prior value when none was. */
  lemma WatermarkIsLastDelivered(file: Option<string>, attempts: seq<Attempt>)
    requires forall k :: 0 <= k < |attempts| ==> attempts[k].write == Written
    ensures (forall k :: 0 <= k < |attempts| ==> attempts[k].posted.None?) ==>
      StoreAfter(file, attempts) == file
    ensures forall j ::
      (0 <= j < |attempts| && attempts[j].posted.Some? &&
       forall k :: j < k < |attempts| ==> attempts[k].posted.None?) ==>
        StoreAfter(file, attempts) == Some(attempts[j].id)
  {
    StoreIsLastPersisted(file, attempts);
  }

  lemma {:induction false} StoreAfterAppend(file: Option<string>, a: seq<Attempt>, b: seq<Attempt>)
    ensures StoreAfter(file, a + b) == StoreAfter(StoreAfter(file, a), b)
    decreases |b|
  {
    if b == [] {
      assert a + b == a;
    } else {
      var n := |b| - 1;
      assert (a + b)[..|a| + n] == a + b[..n];
      StoreAfterAppend(file, a, b[..n]);
    }
  }

  lemma {:induction false} SentAppend(a: seq<Attempt>, b: seq<Attempt>)
    ensures SentNotifications(a + b) == SentNotifications(a) + SentNotifications(b)
    decreases |b|
  {
    if b == [] {
      assert a + b == a;
    } else {
      var n := |b| - 1;
      assert (a + b)[..|a| + n] == a + b[..n];
      SentAppend(a, b[..n]);
    }
  }

  /** When every entry is posted, the channel receives all of them, one
      each, in the order of the batch. */
  lemma {:induction false} AllPostedAllSent(attempts: seq<Attempt>)
    requires forall k :: 0 <= k < |attempts| ==> attempts[k].posted.Some?
    ensures |SentNotifications(attempts)| == |attempts|
    ensures forall k :: 0 <= k < |attempts| ==> SentNotifications(attempts)[k] == attempts[k].posted.value
  {
    if attempts != [] {
      AllPostedAllSent(attempts[..|attempts| - 1]);
    }
  }

  /** An entry that could not be delivered is skipped: it adds no
      notification, leaves the watermark as it was, and the entries after it
      are processed as if it had not been there. */
  lemma FailedEntryIsSkipped(file: Option<string>, attempts: seq<Attempt>, j: nat)
    requires j < |attempts| && attempts[j].posted.None?
    ensures SentNotifications(attempts) ==
      SentNotifications(attempts[..j]) + SentNotifications(attempts[j + 1..])
    ensures StoreAfter(file, attempts) == StoreAfter(StoreAfter(file, attempts[..j]), attempts[j + 1..])
  {
    assert attempts[..j + 1][..j] == attempts[..j];
    assert attempts == attempts[..j + 1] + attempts[j + 1..];
    SentAppend(attempts[..j + 1], attempts[j + 1..]);
    StoreAfterAppend(file, attempts[..j + 1], attempts[j + 1..]);
  }

  /** A file holding only whitespace (an interrupted save leaves it empty)
      reads as no watermark: the next cycle announces only the newest entry. */
  lemma BlankFileMeansColdStart(s: seq<Entry>, content: string)
    requires s != []
    requires forall k :: 0 <= k < |content| ==> IsSpace(content[k])
    ensures SelectNew(s, ReadWatermark(Some(content), true)) == [SortByPublished(s)[|s| - 1]]
  {
    StripEmptyIffBlank(content);
    SelectOnColdStart(s, ReadWatermark(Some(content), true));
  }

  /** The point of saving after every send: when identifiers are distinct and
      clean and every save succeeds, the next cycle over the same snapshot
      announces exactly the selected entries after the last one delivered —
      none delivered twice, none skipped — and the whole selection again if
      none was delivered. */
  lemma NextCycleResumes(s: seq<Entry>, file: Option<string>, sendOk: seq<bool>,
                         writes: seq<WriteOutcome>)
    requires DistinctIds(s)
    requires forall e :: e in s ==> CleanId(e.id)
    requires |sendOk| == |SelectNew(s, ReadWatermark(file, true))|
    requires |writes| == |sendOk|
    requires forall k :: 0 <= k < |writes| ==> writes[k] == Written
    ensures var batch := SelectNew(s, ReadWatermark(file, true));
      var attempts := Attempts(batch, sendOk, writes);
      var next := SelectNew(s, ReadWatermark(StoreAfter(file, attempts), true));
      match LastPersisted(attempts)
      case None => next == batch
      case Some(j) => next == batch[j + 1..]
  {
    var lastId := ReadWatermark(file, true);
    var batch := SelectNew(s, lastId);
    var k := SelectNewIsSortedTail(s, lastId);
    ResumeAfterAttempts(s, k, batch, file, Attempts(batch, sendOk, writes));
  }

  /** `NextCycleResumes` for any attempts over the sorted tail `batch`
      starting at `k`, all of whose saves succeeded. */
  lemma ResumeAfterAttempts(s: seq<Entry>, k: nat, batch: seq<Entry>, file: Option<string>,
                            attempts: seq<Attempt>)
    requires DistinctIds(s)
    requires forall e :: e in s ==> CleanId(e.id)
    requires k <= |s| && batch == SortByPublished(s)[k..] && |attempts| == |batch|
    requires forall i :: 0 <= i < |attempts| ==> attempts[i].id == batch[i].id && attempts[i].write == Written
    ensures match LastPersisted(attempts)
      case None => StoreAfter(file, attempts) == file
      case Some(j) => SelectNew(s, ReadWatermark(StoreAfter(file, attempts), true)) == batch[j + 1..]
  {
    StoreIsLastPersisted(file, attempts);
    match LastPersisted(attempts)
    case None =>
    case Some(j) =>
      ResumeAtIndex(s, k + j);
      assert SortByPublished(s)[k + j + 1..] == batch[j + 1..];
  }

  /** Reading back the identifier of the `i`-th sorted entry selects the
      entries sorted after it. */
  lemma ResumeAtIndex(s: seq<Entry>, i: nat)
    requires DistinctIds(s)
    requires forall e :: e in s ==> CleanId(e.id)
    requires i < |s|
    ensures SelectNew(s, ReadWatermark(Some(SortByPublished(s)[i].id), true)) == SortByPublished(s)[i + 1..]
  {
    var id := SortByPublished(s)[i].id;
    SortedEntryFromSnapshot(s, i);
    ReadBackWritten(None, id);
    SelectAfterKnownPosition(s, i);
  }

  /** The bot's persistent state: the content of `last_cve.txt`. */
  class CveBot {
    var lastCveFile: Option<string>

    constructor (file: Option<string>)
      ensures lastCveFile == file
    {
      lastCveFile := file;
    }

    /** `get_last_cve_id`; `readable` is whether opening and reading the
        existing file succeeds. */
    method GetLastCveId(readable: bool) returns (r: Option<string>)
      ensures r == ReadWatermark(lastCveFile, readable)
    {
      if lastCveFile.Some? && readable {
        r := Some(Strip(lastCveFile.value));
      } else {
        r := None;
      }
    }

    /** `save_last_cve_id`; a failure never propagates to the caller. */
    method SaveLastCveId(cveId: string, outcome: WriteOutcome)
      modifies this
      ensures lastCveFile == AfterWrite(old(lastCveFile), cveId, outcome)
    {
      match outcome
      case Written => lastCveFile := Some(cveId);
      case OpenFailed =>
      case Truncated(kept) => lastCveFile := Some(SliceTo(cveId, kept));
    }

    /** The selection part of `fetch_and_process_cves`, from the parsed
        `vulnerabilities` list on: sort, read the watermark, search for its
        first occurrence, slice. An empty list returns before the watermark
        is read. */
    method FetchAndProcessCves(vulnerabilities: seq<Entry>, readable: bool) returns (newItems: seq<Entry>)
      ensures newItems == SelectNew(vulnerabilities, ReadWatermark(lastCveFile, readable))
    {
      if vulnerabilities == [] {
        return [];
      }
      var sorted := SortByPublished(vulnerabilities);
      var lastId := GetLastCveId(readable);
      if lastId.Some? && lastId.value != "" {
        var startIndex := FindStartIndex(sorted, lastId.value);
        if startIndex != -1 {
          var f := FirstIndex(sorted, lastId.value);
          assert f.Some? && f.value == startIndex;
          newItems := sorted[startIndex + 1..];
        } else {
          newItems := sorted;
        }
      } else {
        // the list is non-empty here, so the source's `else: []` never runs
        newItems := [sorted[|sorted| - 1]];
      }
      assert newItems == SelectFromSorted(sorted, lastId);
    }

    /** The per-entry loop of `monitor_cves_task`: build the notification,
        send it, then save the entry's identifier. Entry `i` is sent
        successfully when `sendOk[i]` holds, and its save ends as
        `writes[i]`. A failure at any step skips the rest of that entry. */
    method DeliverNewCves(newCves: seq<Entry>, sendOk: seq<bool>, writes: seq<WriteOutcome>)
      returns (sent: seq<Notification>)
      requires |sendOk| == |newCves| && |writes| == |newCves|
      modifies this
      ensures lastCveFile == StoreAfter(old(lastCveFile), Attempts(newCves, sendOk, writes))
      ensures sent == SentNotifications(Attempts(newCves, sendOk, writes))
    {
      ghost var attempts := Attempts(newCves, sendOk, writes);
      sent := [];
      var i := 0;
      while i < |newCves|
        invariant 0 <= i <= |newCves|
        invariant lastCveFile == StoreAfter(old(lastCveFile), attempts[..i])
        invariant sent == SentNotifications(attempts[..i])
      {
        var cve := newCves[i];
        var embed := CreateCveEmbed(cve);
        assert attempts[..i + 1][..i] == attempts[..i];
        assert attempts[i] == Attempt(cve.id, PostedFor(cve, sendOk[i]), writes[i]);
        if embed.Success? && sendOk[i] {
          sent := sent + [embed.value];
          SaveLastCveId(cve.id, writes[i]);
        }
        i := i + 1;
      }
      assert attempts[..i] == attempts;
    }

    /** One pass of the monitoring loop over a fetched snapshot. Entry `i` of
        the selection uses `sendOk[i]` and `writes[i]`. */
    method MonitorCycle(vulnerabilities: seq<Entry>, readable: bool, sendOk: seq<bool>,
                        writes: seq<WriteOutcome>)
      returns (sent: seq<Notification>)
      requires |sendOk| == |vulnerabilities| && |writes| == |vulnerabilities|
      modifies this
      ensures var batch := SelectNew(vulnerabilities, ReadWatermark(old(lastCveFile), readable));
        var attempts := Attempts(batch, sendOk[..|batch|], writes[..|batch|]);
        lastCveFile == StoreAfter(old(lastCveFile), attempts) && sent == SentNotifications(attempts)
    {
      var newCves := FetchAndProcessCves(vulnerabilities, readable);
      sent := [];
      if newCves != [] {
        sent := DeliverNewCves(newCves, sendOk[..|newCves|], writes[..|newCves|]);
      }
    }
  }

  /** The `for`/`break` search of `fetch_and_process_cves`: the position of
      the first entry whose identifier is `lastId`, or -1 when none is. */
  method FindStartIndex(sorted: seq<Entry>, lastId: string) returns (startIndex: int)
    ensures startIndex == -1 <==> forall j :: 0 <= j < |sorted| ==> sorted[j].id != lastId
    ensures startIndex != -1 ==> (0 <= startIndex < |sorted| && sorted[startIndex].id == lastId &&
      forall j :: 0 <= j < startIndex ==> sorted[j].id != lastId)
  {
    startIndex := -1;
    var i := 0;
    while i < |sorted|
      invariant 0 <= i <= |sorted|
      invariant forall j :: 0 <= j < i ==> sorted[j].id != lastId
      invariant startIndex == -1
    {
      if sorted[i].id == lastId {
        startIndex := i;
        break;
      }
      i := i + 1;
    }
  }

  /** Selection is repeatable: with no save in between, two calls on the
      same snapshot give the same list. */
  method SelectTwice(bot: CveBot, vulnerabilities: seq<Entry>, readable: bool)
    returns (first: seq<Entry>, second: seq<Entry>)
    ensures first == second
    ensures first == SelectNew(vulnerabilities, ReadWatermark(bot.lastCveFile, readable))
  {
    first := bot.FetchAndProcessCves(vulnerabilities, readable);
    second := bot.FetchAndProcessCves(vulnerabilities, readable);
  }
}
