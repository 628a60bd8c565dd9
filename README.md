# nist-discord-bot core, modelled in Dafny

The bot polls the NVD 2.0 feed for the vulnerabilities published today and
posts one Discord notification per entry that it has not announced yet. A
single remembered identifier, the *watermark* kept in `last_cve.txt`, marks
where the previous cycle stopped. This project models the part of `main.py`
that decides what is new and what is shown, and it proves properties of
that model:

- **Delta selection** (`fetch_and_process_cves`, from the parsed
  `vulnerabilities` list on). The snapshot is sorted stably by its
  `published` string. The bot then reads the watermark, searches for the
  first entry carrying it and takes the sorted entries after it:
  - all of them when the watermark is not in the snapshot;
  - only the newest entry when there is no watermark.
- **Watermark store** (`get_last_cve_id` / `save_last_cve_id`). The file is
  an optional string. A read strips whitespace. A save either succeeds,
  fails to open (leaving the file unchanged), or fails after the file was
  truncated (leaving a prefix of the identifier).
- **Delivery loop** (the body of `monitor_cves_task`). For each selected
  entry the bot builds its notification, sends it and saves the entry's
  identifier. A failure at any step skips the entry and the loop goes on.
  `CveBot` holds the file content as a field and its methods update it.
- **Notification fields** (`create_cve_embed`). The model covers:
  - the first English description, or a fallback text, cut to 4000
    characters;
  - severity and score from CVSS v3.1, else v3.0, else v2 (whose severity
    sits in the metric record itself);
  - the colour chosen by the upper-cased severity;
  - the two exceptions the function raises on a well-formed entry: an empty
    metric list, and an English description without a `value`.

The Python library behaviour the bot depends on is written out in `PyStr`:
- string ordering by code point;
- `strip()` with Python's whitespace set;
- `upper()` wherever it can produce ASCII: the ASCII letters, dotless i and
  long s, and sharp s (`SS`) and the Latin ligatures U+FB00-U+FB06 (`FF`,
  `FI`, `FL`, `FFI`, `FFL`, `ST`);
- the slice `s[:n]`.

Python's `list.sort` is modelled by a stable insertion sort.
`StableSortIsUnique` shows that any ascending rearrangement that keeps
equal keys in their original order is that same list.

Points about `main.py` worth knowing:
- `main.py` has no consecutive-failure counter, staleness monitor or
  `/health` endpoint, so none is modelled;
- selection is independent of the order of the fetched list only up to the
  order among entries published at the same instant.
  `SelectIgnoresOrderUpToTies` proves the part that holds, and
  `ExampleTieOrder` shows two tied entries for which the response order
  decides what a first run announces.
- a save that truncates the file and then fails does not simply leave the
  watermark "unadvanced". With nothing written, the next read strips to the
  empty string, which counts as no watermark, so the next cycle announces
  only the newest entry (`FailedWrites`, `BlankFileMeansColdStart`).

Modules: `Wrappers`, `PyStr`, `Cve` (the entry record), `Sorting`,
`Selection`, `Embed`, `Watermark`, `Bot`.

## Model

| member | source | states |
|---|---|---|
| PyStr.StrLeIsLex | main.py:133 | The sort-key comparison is exactly lexicographic order by code point, with a proper prefix first (both directions). |
| PyStr.StrLeTotal | main.py:133 | Any two publication strings are comparable. |
| PyStr.StrLeTrans | main.py:133 | The key order is transitive. |
| PyStr.StrLeAntisymmetric | main.py:133 | Keys that compare both ways are equal strings. |
| PyStr.StrLeSharedPrefix | main.py:133 | A common prefix does not change how two keys compare. |
| PyStr.StripSpec | main.py:185 | `strip()` returns a contiguous piece of its input with only whitespace cut on either side, and the result neither starts nor ends with whitespace. |
| PyStr.StripKeepsClean | main.py:185 | Text without surrounding whitespace is read back unchanged. |
| PyStr.StripEmptyIffBlank | main.py:185 | The stored text strips to the falsy empty string exactly when it is all whitespace. |
| PyStr.UpperEqualsWord | main.py:234-240 | For an upper-case ASCII word with no adjacent SS, ST, FF, FI or FL (CRITICAL, HIGH, MEDIUM and LOW all qualify), `s.upper()` equals it exactly when `s` spells it letter by letter in any case, dotless i and long s included. |
| PyStr.UpperExpandsSharpS | main.py:234 | The pair condition is needed: sharp s upper-cases to `SS` without spelling it letter by letter. |
| PyStr.UpperIgnoresCase | main.py:234 | Upper-casing is idempotent and ignores prior lower-casing. |
| PyStr.SliceTo | main.py:244 | `s[:n]` has length min(len(s), n) and is a prefix of `s`. |
| Sorting.SortByPublished | main.py:133 | The sorted snapshot is a permutation of the snapshot (same length, same multiset). |
| Sorting.SortedBySort | main.py:133 | The sorted snapshot is ascending by `published`. |
| Sorting.SortIsStable | main.py:133 | For every publication string, the entries carrying it keep their original relative order. |
| Sorting.StableSortIsUnique | main.py:133 | Any ascending, stable rearrangement of the snapshot equals the modelled sort. |
| Sorting.SortKeepsDistinctIds | main.py:133 | Sorting keeps identifiers distinct. |
| Selection.FirstIndex | main.py:141-145 | Returns the first position carrying the identifier, and none exactly when no entry carries it. |
| Selection.SelectNew | main.py:128-129 | The selection is never longer than the snapshot, so an empty snapshot yields an empty list whatever the watermark. |
| Selection.SelectNewIsSortedTail | main.py:131-166 | Whatever the watermark, the selection is a contiguous tail of the sorted snapshot. |
| Selection.SelectNewIsSorted | main.py:131-166 | The selection is in ascending publication order. |
| Selection.SelectAfterWatermark | main.py:138-149 | With a watermark present in the snapshot, the selection is exactly the sorted entries after its first occurrence; that entry and all before it are excluded. |
| Selection.SelectWhenWatermarkAbsent | main.py:150-156 | With a watermark not in the snapshot, the whole sorted snapshot is selected (a permutation of the input). |
| Selection.SelectOnColdStart | main.py:157-162 | With no watermark (absent, unreadable or blank) a non-empty snapshot yields exactly one entry: the last of the sorted snapshot, published no earlier than any other. |
| Selection.SelectAfterKnownPosition | main.py:141-149 | With distinct identifiers, the watermark taken from sorted position i selects exactly the entries after i. |
| Selection.SelectIgnoresOrderUpToTies | main.py:133 | Two snapshots with the same entries in the same order per publication string select the same list. |
| Selection.ExampleOrder | main.py:133 | 10:00 sorts before 11:00 on the same day. |
| Selection.ExampleSorted | main.py:133 | A newest-first response is sorted oldest first. |
| Selection.ExampleAfterWatermark | main.py:138-149 | Snapshot [CVE-2 at 11:00, CVE-1 at 10:00] with watermark CVE-1 selects [CVE-2]. |
| Selection.ExampleColdStart | main.py:157-162 | The same snapshot with no watermark selects only CVE-2. |
| Selection.ExampleUnknownWatermark | main.py:150-156 | The same snapshot with an unknown watermark selects both, oldest first. |
| Selection.TiedPairKeepsOrder | main.py:133 | Two entries with equal `published` keep their order. |
| Selection.ExampleTieOrder | main.py:133-162 | With two tied entries, a first run announces whichever came second in the response. |
| Embed.FirstEnglish | main.py:206-210 | Finds the first description tagged `en`, and none exactly when there is none. |
| Embed.DescriptionText | main.py:206-210 | The text is the first English description's value, or the fallback when no description is English. |
| Embed.CreateCveEmbed | main.py:198-244 | The first-match loop and the field choices produce exactly the notification (or exception) `NotificationFor` defines. |
| Embed.SeverityPrecedence | main.py:213-229 | Only the highest-precedence CVSS key present (v3.1, then v3.0, then v2) affects severity and score; with none, both are "N/A". |
| Embed.SeveritySourceField | main.py:218-229 | For the deciding key (v3.1, else v3.0, else v2), an empty list fails. Otherwise the score is the first record's `cvssData.baseScore`. The severity is `cvssData.baseSeverity` for v3.1 and v3.0, and the record's own `baseSeverity` for v2. A missing field is "N/A". |
| Embed.ColorTable | main.py:231-240 | Red exactly for CRITICAL or HIGH, orange exactly for MEDIUM, green exactly for LOW, in any case. |
| Embed.SeverityWordsQualify | main.py:235-240 | CRITICAL, HIGH, MEDIUM and LOW are upper-case ASCII words with no expansion pair, so the letter-by-letter spelling decides the colour. |
| Embed.ColorIgnoresCase | main.py:231-240 | Colour does not depend on case; "N/A" and non-string severities are blue. |
| Embed.NotificationContents | main.py:198-244 | Building fails exactly when the metric lookup or the description fails. A built notification carries the entry's id and date, the chosen severity and score with the matching colour, and exactly the first min(length, 4000) characters of the description. |
| Watermark.ReadWatermark | main.py:180-188 | A read yields nothing exactly when the file is missing or unreadable. |
| Watermark.ReadBackWritten | main.py:180-196 | A successful save of a clean identifier is read back as that identifier. |
| Watermark.FailedWrites | main.py:190-196 | A failed open leaves the file unchanged; a failure after truncation leaves a prefix of the identifier, and the empty prefix reads back as "". |
| Bot.PostedFor | main.py:73-74 | An entry is posted exactly when its notification can be built and the send succeeds, and what is posted carries its id. |
| Bot.LastPersisted | main.py:68-84 | Finds the last attempt that was posted and whose save reached the file, and none exactly when there is none. |
| Bot.StoreIsLastPersisted | main.py:68-84 | The stored watermark is decided by the last save that reached the file, and keeps its prior value when none did. |
| Bot.WatermarkIsLastDelivered | main.py:68-84 | With saves succeeding, the watermark is the id of the last entry delivered, or the prior value when none was. |
| Bot.AllPostedAllSent | main.py:68-74 | When every send succeeds, the channel receives every selected notification, in order. |
| Bot.FailedEntryIsSkipped | main.py:81-84 | An undelivered entry adds no notification and leaves the watermark as it was; later entries proceed as if it were absent. |
| Bot.BlankFileMeansColdStart | main.py:135-162 | A watermark file holding only whitespace makes the cycle announce just the newest entry. |
| Bot.NextCycleResumes | main.py:66-84 | With distinct, clean identifiers and successful saves, the next cycle on the same snapshot selects exactly the entries after the last one delivered, or the same selection if none was delivered. |
| Bot.ResumeAfterAttempts | main.py:66-84 | The same resumption property, for any attempts over a sorted tail. |
| Bot.ResumeAtIndex | main.py:141-149 | Reading back the id saved for sorted position i selects the entries after i. |
| Bot.FindStartIndex | main.py:141-145 | The search returns -1 exactly when no entry carries the watermark, and otherwise the first index that does. |
| Bot.SelectTwice | main.py:131-166 | Two selections on the same snapshot, with no save between them, give the same list. |
| Bot.CveBot.GetLastCveId | main.py:180-188 | Returns the stripped file content, or none when the file is missing or unreadable. |
| Bot.CveBot.SaveLastCveId | main.py:190-196 | The new file content follows the save's outcome; a failure is swallowed. |
| Bot.CveBot.FetchAndProcessCves | main.py:128-166 | Returns exactly the delta selection of the snapshot under the watermark just read. |
| Bot.CveBot.DeliverNewCves | main.py:66-84 | The channel receives the posted notifications in order, and the file ends as the succession of saves after each successful send leaves it. |
| Bot.CveBot.MonitorCycle | main.py:64-84 | One cycle delivers the selection made under the watermark as it was at the start of the cycle. |

## Left out

- Fetching: the HTTP request and its executor offload, the status branches (403/429 with a 60-second pause, other errors returning `[]`), the 30-second timeout and the exception handler. They are network I/O. The model starts from the parsed `vulnerabilities` list.
- The day window computed from the clock and its timestamp formatting, because they depend on the wall clock.
- `asyncio.sleep` pauses and the `while not self.is_closed()` loop. These are scheduling only; one cycle is modelled, and successive cycles are related by lemmas.
- The Discord client: channel lookup, `channel.send`, and the title, link, footer, thumbnail and field layout of the embed. Sending is an abstract success or failure per entry (`sendOk`).
- File I/O and `os.path.exists`. The file is an optional string; readability and each save's outcome are parameters. Text-mode newline translation and encoding are not modelled.
- Environment and configuration checks, `exit(1)`, and logging.
- Entries missing the `cve`, `id` or `published` keys, and description values of non-string types. The record types assume these are present and are strings.
- CVSS `baseScore`: an opaque value passed through (`Scalar`).
- PyStr.UpperOf: leaves unchanged every character outside the ASCII letters, U+0131, U+017F, U+00DF and U+FB00-U+FB06. Python maps some of those other characters to other text, but that text always holds a non-ASCII character. So neither form can equal an ASCII severity word, and colours agree.
- Sorting.SortByPublished: an insertion sort rather than Timsort. Both are stable, so by `StableSortIsUnique` they give the same list.
- Bot.FindStartIndex: the search loop that sits inline in `fetch_and_process_cves` is a separate method here. It is the same loop.
- Bot.CveBot.DeliverNewCves: a failure while reading `cve['cve']['id']` before the send is not modelled, because every entry has an id in this model.
