# Listing-alert pipeline, modelled in Dafny

This project models the decision logic of a small listing-alert automation. It has two scripts.

- `fetch_alerts.py` runs the Slack pipeline:
  - builds an exchange directory (exchange name → affiliate link) from a spreadsheet;
  - strips Slack link markup from the latest channel messages;
  - extracts `(coin, ticker, exchange)` listings;
  - joins them against the directory and drops those whose identity is already stored;
  - loads the stored alerts with a three-day retention filter;
  - rewrites the store with the retained entries followed by the new alerts.
- `update_alerts.py` runs the alerting-service pipeline: it joins the service's alert conditions against
  the same directory, with no deduplication, and rewrites the store with exactly the matched list.

All I/O is pulled out into parameters:
- the spreadsheet read is a `Sheet.SheetReply`;
- the fetched messages and conditions are sequences;
- the store file is a `Store.StoreFile`;
- the clock is `now`, in microseconds since 1970-01-01 UTC;
- the write is the returned `Option`.

Dates are day numbers counted from 1970-01-01.

Modules, one per component:
- `Text`: Python `str.strip`.
- `Markup`: the `re.sub` link rewrite.
- `Sheet`: the directory of fetch_alerts.py.
- `Listings`: the extractor.
- `Store`: the alert record and its retention on load.
- `Matching`: the join and deduplication.
- `Pipeline`: fetch_alerts.py's `__main__`.
- `Updater`: everything in update_alerts.py.
- `Wrappers` and `Seqs`: Option and the subsequence predicate.

The two joins and the extractor are loops that append to a local list. Each is a `method` with a `while`
loop, proved equal to a recursive specification function. The lemmas are stated about those functions.

Facts about the code that the model keeps:
- The store is never sorted: the new alerts are appended after the retained ones (fetch_alerts.py:173).
- Two identical new listings in one batch are both written, so the store can hold two alerts with the same
  identity (`Pipeline.RunExampleDuplicate`). Distinct identities are kept only when the inputs already have
  them (`Pipeline.RunKeepsUniqueKeys`).
- An entry dated exactly three days before today survives the load only when the clock reading `now` used by
  the load is exactly midnight (`Store.ThreeDaysBoundary`), because a date compares against `utcnow() - 3 days` at midnight.
- The directory is empty when either the "Name" or the "Link" column is missing (fetch_alerts.py:53).

## Model

| member | source | states |
|---|---|---|
| `Text.TrimStart` | fetch_alerts.py:112-114 | The result does not start with whitespace (Python's `isspace` set) and is never longer than the input. |
| `Text.TrimStartIsSuffix` | fetch_alerts.py:112-114 | Removing leading whitespace leaves a suffix of the input; everything removed is whitespace. |
| `Text.TrimEnd` | fetch_alerts.py:112-114 | The result does not end with whitespace and is never longer than the input. |
| `Text.TrimEndIsPrefix` | fetch_alerts.py:112-114 | Removing trailing whitespace leaves a prefix of the input; everything removed is whitespace. |
| `Text.Trim` | fetch_alerts.py:112-114 | `strip()` gives a string with no leading or trailing whitespace, never longer than its input. |
| `Text.TrimIsInfix` | fetch_alerts.py:112-114 | The stripped string is a trimmed infix of the input that has only whitespace before and after it. |
| `Text.TrimOfTrimmed` | fetch_alerts.py:112-114 | A string with no surrounding whitespace is unchanged by `strip()`. |
| `Text.TrimIdempotent` | fetch_alerts.py:112-114 | Stripping twice is the same as stripping once. |
| `Markup.LinkAt` | fetch_alerts.py:107 | A match at the front covers the caption plus at least the four characters `<`, target, bar and `>`, and lies within the text. |
| `Markup.TargetEndStops` | fetch_alerts.py:107 | The greedy target part of the pattern stops at the first bar or `>`. |
| `Markup.CaptionEndStops` | fetch_alerts.py:107 | The greedy caption part of the pattern stops at the first `>`. |
| `Markup.LinkAtSound` | fetch_alerts.py:107 | When the link pattern matches at the front, the text starts with `<`, a non-empty target with no bar or `>`, a bar, a non-empty caption with no `>`, and `>`. |
| `Markup.LinkAtFinds` | fetch_alerts.py:107 | Conversely, every such link at the front is matched, with exactly that caption and length. |
| `Markup.StripLinks` | fetch_alerts.py:107 | The left-to-right, non-overlapping rewrite of links to their captions never makes a message longer. |
| `Markup.StripLinksOfLink` | fetch_alerts.py:107 | A link at the front is replaced by its caption, and the scan resumes after the `>`. |
| `Markup.StripLinksOfPlain` | fetch_alerts.py:107 | Text without `<` passes through unchanged in front of whatever follows it. |
| `Markup.StripLinksNoMarkup` | fetch_alerts.py:107 | A message containing no `<` is returned unchanged. |
| `Markup.StripLinksNoMatch` | fetch_alerts.py:107 | A message in which the pattern matches at no position is returned unchanged. |
| `Markup.StripLinksInText` | fetch_alerts.py:107 | A link between two texts without `<` becomes its caption; the surrounding text is kept as it is. |
| `Sheet.IndexOf` | fetch_alerts.py:57-58 | `header.index` gives the position of the first occurrence of the column name. |
| `Sheet.Collect` | fetch_alerts.py:60 | The comprehension has at most one entry per row. |
| `Sheet.BuildDirectory` | fetch_alerts.py:38-67 | The directory has fewer entries than the table has rows. It is empty for a failed read, an empty table, or a header lacking "Name" or "Link". |
| `Sheet.CollectKeys` | fetch_alerts.py:60 | A name is a key exactly when some row with `len(row) > max(name_index, link_index)` carries it. |
| `Sheet.CollectLastWins` | fetch_alerts.py:60 | A name maps to the link of the last fitting row carrying it. |
| `Sheet.DirectoryKeys` | fetch_alerts.py:52-60 | The keys are exactly the names in fitting data rows. The header row never contributes. The columns are the first "Name" and "Link". |
| `Sheet.DirectoryLastWins` | fetch_alerts.py:57-60 | When names repeat, the last fitting data row's link is kept. |
| `Listings.EventOf` | fetch_alerts.py:106-116 | A message gives an event exactly when the pattern matches its cleaned text. The event's coin, ticker and exchange are whitespace-stripped, and its date is the run's day. |
| `Listings.EventOfGroups` | fetch_alerts.py:110-114 | Each field of the event is its captured group with the surrounding whitespace removed. |
| `Listings.EventsOf` | fetch_alerts.py:110-116 | A message contributes at most one event. |
| `Listings.Extracted` | fetch_alerts.py:102-118 | The extractor gives at most one event per message. |
| `Listings.ExtractListings` | fetch_alerts.py:102-118 | The loop returns the specified events: at most one per message, all dated today, all fields stripped. |
| `Listings.ExtractedAppend` | fetch_alerts.py:106-118 | The events of `a + b` are those of `a` followed by those of `b`, so the output follows message order. |
| `Listings.ExtractedSingle` | fetch_alerts.py:106-116 | One message gives exactly its own event, or nothing. |
| `Listings.ExtractedSource` | fetch_alerts.py:110-116 | Every event comes from a message whose cleaned text matched. |
| `Listings.ExtractedComplete` | fetch_alerts.py:110-116 | Every message whose cleaned text matches contributes its event. |
| `Listings.ExtractedNoMatch` | fetch_alerts.py:108-110 | Messages that the pattern does not match give no events. |
| `Store.Retained` | fetch_alerts.py:27-28 | Retention gives at most as many entries as it was given. Each is one of its input entries, dated at or after `now - 3 days` at midnight. |
| `Store.FetchExisting` | fetch_alerts.py:19-35 | A missing or unreadable file, or any malformed date, loads as `[]`. Otherwise the load is an order-preserving subsequence of the file holding every recent entry as many times as the file does, and no other entry. |
| `Store.RetainedMembers` | fetch_alerts.py:28 | An entry is retained exactly when it is in the file, dated, and recent. |
| `Store.RetainedCount` | fetch_alerts.py:28 | A recent entry is retained exactly as many times as it occurs in the file; a stale one never. |
| `Store.RetainedIsSubsequence` | fetch_alerts.py:28 | The retained entries are an order-preserving subsequence of the file. |
| `Store.RetainedCons` | fetch_alerts.py:28 | The filter keeps or drops the first entry and continues on the rest. |
| `Store.RetainedAppend` | fetch_alerts.py:28 | Retention of `a + b` is retention of `a` followed by retention of `b`. |
| `Store.RetainedAll` | fetch_alerts.py:28 | A file whose entries are all dated and recent loads unchanged. |
| `Store.ReloadRecent` | fetch_alerts.py:19-31 | A store whose entries are all dated and recent at `now` loads back exactly as written. |
| `Store.RecentWithinTwoDays` | fetch_alerts.py:27-28 | A date 2 or fewer days before today is always kept. |
| `Store.StaleAfterFourDays` | fetch_alerts.py:27-28 | A date 4 or more days before today is always dropped. |
| `Store.ThreeDaysBoundary` | fetch_alerts.py:27-28 | A date exactly 3 days before today is kept iff `now` is exactly midnight. |
| `Matching.ExistingKeys` | fetch_alerts.py:124 | The key set holds exactly the `(coin, ticker, exchange)` of the stored alerts. |
| `Matching.Format` | fetch_alerts.py:132-138 | The record keeps the event's identity and date, and takes its link from the directory. |
| `Matching.Matched` | fetch_alerts.py:121-140 | The matcher gives at most one alert per event. |
| `Matching.FilterAndFormat` | fetch_alerts.py:121-140 | The loop returns the specified alerts. Each has a listed exchange, the directory's link, and an identity not already stored. |
| `Matching.MatchedAppend` | fetch_alerts.py:126-138 | The alerts of `a + b` are those of `a` followed by those of `b`, so the output is in event order. |
| `Matching.MatchedSource` | fetch_alerts.py:131-138 | Every alert is the reshaped form of an event with a listed exchange and a new identity, and carries that event's date. |
| `Matching.MatchedComplete` | fetch_alerts.py:131-138 | Every such event is in the output. |
| `Matching.MatchedNone` | fetch_alerts.py:131 | Events whose identity is already stored are never matched, whatever the directory or its links. |
| `Matching.EventKeys` | fetch_alerts.py:131 | The identity set of a batch holds exactly the identities of its events. |
| `Matching.MatchedCovers` | fetch_alerts.py:124-131 | After matching, every listed identity of the batch is stored in `existing ++ output`. |
| `Matching.MatchedRerun` | fetch_alerts.py:124-131 | Events whose identities all occur in a matched batch match nothing against `existing ++ output`. |
| `Matching.MatchedKeepsBatchDuplicates` | fetch_alerts.py:124-131 | Two identical new events in one batch are both emitted. |
| `Matching.MatchedUnique` | fetch_alerts.py:126-138 | Events with distinct identities give alerts with distinct identities. |
| `Matching.UniqueAppend` | fetch_alerts.py:173 | Appending alerts with new identities to a store with distinct identities keeps them distinct. |
| `Matching.MatchedAreNew` | fetch_alerts.py:131 | No matched alert has an identity among the stored ones. |
| `Pipeline.Run` | fetch_alerts.py:153-174 | A write is longer than the retained store: it adds at least one alert. |
| `Pipeline.RunOnce` | fetch_alerts.py:153-174 | The `__main__` block, run through the extractor and matcher loops, decides the specified write. |
| `Pipeline.RunWriteCondition` | fetch_alerts.py:155-174 | The file is written iff the directory, the messages, the extracted events and the matched alerts are all non-empty. The content is the retained entries followed by the matched alerts, not re-sorted. |
| `Pipeline.RunWritesRecent` | fetch_alerts.py:168-173 | Every written entry is dated and recent at the run's time. |
| `Pipeline.ExtractedOnOtherDay` | fetch_alerts.py:106-116 | Every identity extracted on one day is also extracted on any other day: the date does not affect matching. |
| `Pipeline.RunRerunWritesNothing` | fetch_alerts.py:153-174 | A second run on the same sheet and messages, against the written store while it is still recent, writes nothing. |
| `Pipeline.RunKeepsUniqueKeys` | fetch_alerts.py:168-173 | The written store has distinct identities when the retained entries and the extracted events do. |
| `Pipeline.OneExchangeDirectory` | fetch_alerts.py:52-60 | A sheet with one exchange row gives the one-entry directory. |
| `Pipeline.AnnouncementEvent` | fetch_alerts.py:106-116 | A plain announcement gives one event, with its groups and today's date. |
| `Pipeline.RunExampleListed` | fetch_alerts.py:153-174 | A first run on an announcement for the listed exchange writes exactly that one alert, with the sheet's link and today's date. |
| `Pipeline.RunExampleUnlisted` | fetch_alerts.py:153-174 | The same run when the sheet lists only another exchange writes nothing. |
| `Pipeline.AnnouncementTwice` | fetch_alerts.py:106-118 | The same announcement twice gives the same event twice. |
| `Pipeline.RunExampleTwice` | fetch_alerts.py:124-174 | The announcement fetched twice, with no store file, writes exactly the same new alert twice. |
| `Pipeline.RunExampleDuplicate` | fetch_alerts.py:124-174 | The same announcement twice writes two alerts with the same identity. |
| `Updater.CollectBoth` | update_alerts.py:35-39 | The comprehension has at most one entry per row. |
| `Updater.BuildDirectory` | update_alerts.py:17-48 | The directory has fewer entries than the table has rows. It is empty for a failed read, for an empty table (the `IndexError` on `rows[0]` is caught), and for a header lacking "Name" or "Link". |
| `Updater.CollectBothAgrees` | update_alerts.py:35-39 | `len(row) > n and len(row) > l` builds the same map as `len(row) > max(n, l)`. |
| `Updater.BuildersAgree` | update_alerts.py:25-48 | Both scripts build the same directory from every sheet reply. |
| `Updater.Format` | update_alerts.py:72-82 | The record copies `id` and `exchange` and takes `affiliate_url` from the directory. Its `coin` is the currency when that key is present, and "Unknown" when it is absent. |
| `Updater.Matched` | update_alerts.py:67-84 | The variant matcher gives at most one record per condition. |
| `Updater.FilterAndFormat` | update_alerts.py:67-84 | The loop returns the specified records. Each has a listed exchange and the directory's link. |
| `Updater.MatchedAppend` | update_alerts.py:71-82 | The records of `a + b` are those of `a` followed by those of `b`, so the output is in input order. |
| `Updater.MatchedSource` | update_alerts.py:76-82 | Every record is the reshaped form of a condition whose exchange is listed. |
| `Updater.MatchedComplete` | update_alerts.py:76-82 | Every condition whose exchange is listed gives its record. |
| `Updater.MatchedAllListed` | update_alerts.py:71-82 | When every exchange is listed, nothing is dropped: the records are the conditions reshaped, one-to-one, in order. |
| `Updater.MatchedKeepsDuplicates` | update_alerts.py:71-82 | A duplicated listed condition appears twice in the output. |
| `Updater.RunUpdate` | update_alerts.py:95-101 | A write is never empty. |
| `Updater.RunUpdateOnce` | update_alerts.py:95-101 | The `__main__` block, run through the matcher loop, decides the specified write: exactly the matched list, with no merge with prior contents. |
| `Updater.RunUpdateEmptyDirectory` | update_alerts.py:96-101 | A sheet that yields no directory means nothing is written. |
| `Updater.RunUpdateWrites` | update_alerts.py:98-101 | The store is written iff some condition names a listed exchange. |

## Left out

- Network calls are not modelled. This covers the Google Sheets read, Slack's `conversations.history`, the alerting-service request, and their status-code handling (`fetch_slack_alerts`, fetch_alerts.py:70-99; `fetch_coin_listing_alerts`, update_alerts.py:50-65). The model takes their results as inputs instead: a `SheetReply`, the message texts, and the conditions.
- Environment variables and module constants (fetch_alerts.py:8-16, update_alerts.py:5-15) are ambient configuration and are not modelled.
- JSON reading and writing, `os.path.exists`, `print` and `save_alerts_to_json` are file and console I/O. A missing or unreadable file is a `StoreFile` variant, and the write is the returned `Option`. The store is not sorted and is not written atomically, because the code does neither.
- The search `(.+?) \((.+?)\) .* listed on (.+?) -` (fetch_alerts.py:108) depends on Python's backtracking regex engine. It is the parameter `pattern`, which returns the three groups or None.
- `strptime` and `strftime` are library date handling. A stored `date_added` is a day number or `Malformed`. `Malformed` stands for every value or missing key that makes the load raise.
- Listings.ExtractListings: the source reads `utcnow()` once per matching message (fetch_alerts.py:115) and again on load (fetch_alerts.py:27). The model reads one clock value, `now`, per run, so a run that crosses midnight is not modelled.
- The source raises an uncaught `KeyError` at fetch_alerts.py:124 when a stored entry lacks `coin`, `ticker` or `exchange`. The model's stored alerts always carry these fields.
- Updater.Format: a condition's `currency` is either absent or a string. A key present with a JSON `null` value (which the source would copy as `None`) is not modelled. The JSON type of `id` is abstracted to text.
- A service reply that is not a list (the source would fail inside the loop) is not modelled.
