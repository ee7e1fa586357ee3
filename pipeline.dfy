/** One run of fetch_alerts.py (its `__main__` block): build the directory, extract listings from the
    fetched messages, load the store, match, and decide whether to rewrite the store and with what. */
module Pipeline {
  import opened Wrappers
  import Text
  import Markup
  import Sheet
  import Listings
  import Store
  import Matching

  /** The store content a run writes, or None when it writes nothing. The run reads one clock, `now`;
      events are dated with its UTC day. */
  function Run(sheet: Sheet.SheetReply, messages: seq<string>, pattern: Listings.Pattern,
               file: Store.StoreFile, now: int): (write: Option<seq<Store.Alert>>)
    ensures write.Some? ==> |write.value| > |Store.FetchExisting(file, now)|
  {
    var directory := Sheet.BuildDirectory(sheet);
    if directory == map[] then None
    else if messages == [] then None
    else
      var events := Listings.Extracted(messages, Store.DayOf(now), pattern);
      if events == [] then None
      else
        var existing := Store.FetchExisting(file, now);
        var matched := Matching.Matched(events, directory, Matching.ExistingKeys(existing));
        if matched == [] then None else Some(existing + matched)
  }

  /** The `__main__` block, calling the extractor and the matcher in turn. */
  method RunOnce(sheet: Sheet.SheetReply, messages: seq<string>, pattern: Listings.Pattern,
                 file: Store.StoreFile, now: int)
    returns (write: Option<seq<Store.Alert>>)
    ensures write == Run(sheet, messages, pattern, file, now)
  {
    write := None;
    var exchangeDict := Sheet.BuildDirectory(sheet);
    if exchangeDict != map[] {
      if messages != [] {
        var extracted := Listings.ExtractListings(messages, Store.DayOf(now), pattern);
        if extracted != [] {
          var existing := Store.FetchExisting(file, now);
          var matched := Matching.FilterAndFormat(extracted, exchangeDict, existing);
          if matched != [] {
            write := Some(existing + matched);
          }
        }
      }
    }
  }

  /** The file is rewritten exactly when the directory, the messages, the extracted events and the matched
      alerts are all non-empty; it then holds the retained entries, in file order, followed by the new
      alerts, in message order, with no re-sorting. */
  lemma RunWriteCondition(sheet: Sheet.SheetReply, messages: seq<string>, pattern: Listings.Pattern,
                          file: Store.StoreFile, now: int)
    ensures var directory := Sheet.BuildDirectory(sheet);
      var events := Listings.Extracted(messages, Store.DayOf(now), pattern);
      var existing := Store.FetchExisting(file, now);
      var matched := Matching.Matched(events, directory, Matching.ExistingKeys(existing));
      var write := Run(sheet, messages, pattern, file, now);
      && (write.Some? <==> directory != map[] && messages != [] && events != [] && matched != [])
      && (write.Some? ==> write.value[..|existing|] == existing && write.value[|existing|..] == matched)
  {
    var directory := Sheet.BuildDirectory(sheet);
    if messages == [] {
      assert Listings.Extracted(messages, Store.DayOf(now), pattern) == [];
    }
    if directory == map[] {
      var events := Listings.Extracted(messages, Store.DayOf(now), pattern);
      Matching.MatchedNone(events, directory, {});
      Matching.MatchedNone(events, directory, Matching.ExistingKeys(Store.FetchExisting(file, now)));
    }
  }

  /** Everything a run writes is dated and recent at `now`: the retained entries passed the filter, and
      the new alerts carry today's date. */
  lemma RunWritesRecent(sheet: Sheet.SheetReply, messages: seq<string>, pattern: Listings.Pattern,
                        file: Store.StoreFile, now: int)
    requires Run(sheet, messages, pattern, file, now).Some?
    ensures var w := Run(sheet, messages, pattern, file, now).value;
      forall i :: 0 <= i < |w| ==> Store.Kept(w[i], now)
  {
    var directory := Sheet.BuildDirectory(sheet);
    var events := Listings.Extracted(messages, Store.DayOf(now), pattern);
    var existing := Store.FetchExisting(file, now);
    var keys := Matching.ExistingKeys(existing);
    var matched := Matching.Matched(events, directory, keys);
    var w := existing + matched;
    Store.RecentWithinTwoDays(Store.DayOf(now), now);
    forall i | 0 <= i < |w|
      ensures Store.Kept(w[i], now)
    {
      if i < |existing| {
        assert w[i] in existing;
      } else {
        var a := w[i];
        assert a in matched;
        var j := Matching.MatchedSource(events, directory, keys, a);
        var k := Listings.ExtractedSource(messages, Store.DayOf(now), pattern, events[j]);
      }
    }
  }

  /** Extraction on another day finds the same listings: each event of one day has a counterpart with the
      same identity on any other. */
  lemma ExtractedOnOtherDay(messages: seq<string>, pattern: Listings.Pattern, day: int, day': int)
    ensures var events' := Listings.Extracted(messages, day', pattern);
      forall i :: 0 <= i < |events'| ==>
        Matching.EventKey(events'[i]) in Matching.EventKeys(Listings.Extracted(messages, day, pattern))
  {
    var events := Listings.Extracted(messages, day, pattern);
    var events' := Listings.Extracted(messages, day', pattern);
    forall i | 0 <= i < |events'|
      ensures Matching.EventKey(events'[i]) in Matching.EventKeys(events)
    {
      var j := Listings.ExtractedSource(messages, day', pattern, events'[i]);
      var e := Listings.EventOf(messages[j], day, pattern).value;
      Listings.ExtractedComplete(messages, day, pattern, j);
      var k :| 0 <= k < |events| && events[k] == e;
    }
  }

  /** A run that writes, writes the retained entries followed by the matched alerts. */
  lemma RunWrites(sheet: Sheet.SheetReply, messages: seq<string>, pattern: Listings.Pattern,
                  file: Store.StoreFile, now: int)
    requires Run(sheet, messages, pattern, file, now).Some?
    ensures var existing := Store.FetchExisting(file, now);
      Run(sheet, messages, pattern, file, now).value
        == existing + Matching.Matched(Listings.Extracted(messages, Store.DayOf(now), pattern),
                                       Sheet.BuildDirectory(sheet), Matching.ExistingKeys(existing))
  {
  }

  /** A run whose matcher finds nothing writes nothing. */
  lemma RunNothingMatched(sheet: Sheet.SheetReply, messages: seq<string>, pattern: Listings.Pattern,
                          file: Store.StoreFile, now: int)
    requires Matching.Matched(Listings.Extracted(messages, Store.DayOf(now), pattern), Sheet.BuildDirectory(sheet),
                              Matching.ExistingKeys(Store.FetchExisting(file, now))) == []
    ensures Run(sheet, messages, pattern, file, now) == None
  {
  }

  /** Running again with the same inputs against the store just written writes nothing, as long as that
      store is still recent at the second run's time. */
  lemma RunRerunWritesNothing(sheet: Sheet.SheetReply, messages: seq<string>, pattern: Listings.Pattern,
                              file: Store.StoreFile, now: int, now': int)
    requires Run(sheet, messages, pattern, file, now).Some?
    requires var w := Run(sheet, messages, pattern, file, now).value;
      forall i :: 0 <= i < |w| ==> Store.Kept(w[i], now')
    ensures Run(sheet, messages, pattern, Store.Entries(Run(sheet, messages, pattern, file, now).value), now')
      == None
  {
    var directory := Sheet.BuildDirectory(sheet);
    var events := Listings.Extracted(messages, Store.DayOf(now), pattern);
    var existing := Store.FetchExisting(file, now);
    var w := existing + Matching.Matched(events, directory, Matching.ExistingKeys(existing));
    RunWrites(sheet, messages, pattern, file, now);
    Store.ReloadRecent(w, now');
    var events' := Listings.Extracted(messages, Store.DayOf(now'), pattern);
    ExtractedOnOtherDay(messages, pattern, Store.DayOf(now), Store.DayOf(now'));
    assert forall i :: 0 <= i < |Listings.Extracted(messages, Store.DayOf(now'), pattern)| ==>
      Matching.EventKey(Listings.Extracted(messages, Store.DayOf(now'), pattern)[i])
        in Matching.EventKeys(Listings.Extracted(messages, Store.DayOf(now), pattern));
    Matching.MatchedRerun(events, events', directory, existing);
    RunNothingMatched(sheet, messages, pattern, Store.Entries(w), now');
  }

  /** When the retained entries have distinct identities and so do the extracted events, the written store
      has distinct identities. */
  lemma RunKeepsUniqueKeys(sheet: Sheet.SheetReply, messages: seq<string>, pattern: Listings.Pattern,
                           file: Store.StoreFile, now: int)
    requires Run(sheet, messages, pattern, file, now).Some?
    requires Matching.UniqueKeys(Store.FetchExisting(file, now))
    requires Matching.UniqueEventKeys(Listings.Extracted(messages, Store.DayOf(now), pattern))
    ensures Matching.UniqueKeys(Run(sheet, messages, pattern, file, now).value)
  {
    var directory := Sheet.BuildDirectory(sheet);
    var events := Listings.Extracted(messages, Store.DayOf(now), pattern);
    var existing := Store.FetchExisting(file, now);
    var keys := Matching.ExistingKeys(existing);
    var matched := Matching.Matched(events, directory, keys);
    var w := existing + matched;
    Matching.MatchedUnique(events, directory, keys);
    Matching.MatchedAreNew(events, directory, keys);
    Matching.UniqueAppend(existing, matched);
  }

  // The example of one plain announcement, such as "Foo (FOO) has been listed on Binance - details", whose
  // groups the pattern finds (Foo, FOO, Binance), and a sheet with one exchange.

  function OneExchangeSheet(name: string, link: string): Sheet.SheetReply {
    Sheet.Values([["Name", "Link"], [name, link]])
  }

  lemma OneExchangeDirectory(name: string, link: string)
    ensures Sheet.BuildDirectory(OneExchangeSheet(name, link)) == map[name := link]
  {
    var rows := [["Name", "Link"], [name, link]];
    assert Sheet.IndexOf(rows[0], "Name") == 0;
    assert Sheet.IndexOf(rows[0], "Link") == 1;
    assert rows[1..][..0] == [];
  }

  /** A message the pattern matches with groups that need no stripping. */
  predicate PlainAnnouncement(msg: string, pattern: Listings.Pattern, c: Listings.Capture) {
    && '<' !in msg && pattern(msg) == Some(c)
    && Text.IsTrimmed(c.coin) && Text.IsTrimmed(c.ticker) && Text.IsTrimmed(c.exchange)
  }

  /** The announcement gives one event with its three groups, dated with the run's day. */
  lemma AnnouncementEvent(msg: string, pattern: Listings.Pattern, c: Listings.Capture, day: int)
    requires PlainAnnouncement(msg, pattern, c)
    ensures Listings.Extracted([msg], day, pattern) == [Listings.ListingEvent(c.coin, c.ticker, c.exchange, day)]
  {
    Markup.StripLinksNoMarkup(msg);
    Text.TrimOfTrimmed(c.coin);
    Text.TrimOfTrimmed(c.ticker);
    Text.TrimOfTrimmed(c.exchange);
    Listings.ExtractedSingle(msg, day, pattern);
  }

  /** A first run with a listed exchange and no store file writes exactly the one new alert, dated today. */
  lemma RunExampleListed(msg: string, pattern: Listings.Pattern, c: Listings.Capture, link: string, now: int)
    requires PlainAnnouncement(msg, pattern, c)
    ensures Run(OneExchangeSheet(c.exchange, link), [msg], pattern, Store.Missing, now)
      == Some([Store.Alert(c.exchange, c.coin, c.ticker, link, Store.Day(Store.DayOf(now)))])
  {
    var directory := map[c.exchange := link];
    OneExchangeDirectory(c.exchange, link);
    AnnouncementEvent(msg, pattern, c, Store.DayOf(now));
    var e := Listings.ListingEvent(c.coin, c.ticker, c.exchange, Store.DayOf(now));
    assert Store.FetchExisting(Store.Missing, now) == [];
    assert Matching.ExistingKeys([]) == {};
    assert [e][..0] == [];
    assert Matching.Matched([e], directory, {}) == [Matching.Format(e, directory)];
  }

  /** The same announcement when the sheet lists only another exchange writes nothing. */
  lemma RunExampleUnlisted(msg: string, pattern: Listings.Pattern, c: Listings.Capture, other: string,
                           link: string, now: int)
    requires PlainAnnouncement(msg, pattern, c) && other != c.exchange
    ensures Run(OneExchangeSheet(other, link), [msg], pattern, Store.Missing, now) == None
  {
    OneExchangeDirectory(other, link);
    AnnouncementEvent(msg, pattern, c, Store.DayOf(now));
    var e := Listings.ListingEvent(c.coin, c.ticker, c.exchange, Store.DayOf(now));
    assert [e][..0] == [];
  }

  lemma AnnouncementTwice(msg: string, pattern: Listings.Pattern, c: Listings.Capture, day: int)
    requires PlainAnnouncement(msg, pattern, c)
    ensures var e := Listings.ListingEvent(c.coin, c.ticker, c.exchange, day);
      Listings.Extracted([msg, msg], day, pattern) == [e, e]
  {
    var e := Listings.ListingEvent(c.coin, c.ticker, c.exchange, day);
    AnnouncementEvent(msg, pattern, c, day);
    Listings.ExtractedAppend([msg], [msg], day, pattern);
    calc {
      Listings.Extracted([msg, msg], day, pattern);
      { assert [msg, msg] == [msg] + [msg]; }
      Listings.Extracted([msg] + [msg], day, pattern);
      Listings.Extracted([msg], day, pattern) + Listings.Extracted([msg], day, pattern);
      [e] + [e];
    }
  }

  /** The announcement fetched twice in one run, with no store file, writes the same new alert twice. */
  lemma RunExampleTwice(msg: string, pattern: Listings.Pattern, c: Listings.Capture, link: string, now: int)
    requires PlainAnnouncement(msg, pattern, c)
    ensures var a := Store.Alert(c.exchange, c.coin, c.ticker, link, Store.Day(Store.DayOf(now)));
      Run(OneExchangeSheet(c.exchange, link), [msg, msg], pattern, Store.Missing, now) == Some([a, a])
  {
    OneExchangeDirectory(c.exchange, link);
    AnnouncementTwice(msg, pattern, c, Store.DayOf(now));
    var e := Listings.ListingEvent(c.coin, c.ticker, c.exchange, Store.DayOf(now));
    var directory := map[c.exchange := link];
    assert Store.FetchExisting(Store.Missing, now) == [];
    assert Matching.ExistingKeys([]) == {};
    Matching.MatchedKeepsBatchDuplicates(e, directory, {});
    var a := Matching.Format(e, directory);
    assert [] + [a, a] == [a, a];
  }

  /** The announcement fetched twice in one run is recorded twice: the written store then holds two alerts
      with the same identity. */
  lemma RunExampleDuplicate(msg: string, pattern: Listings.Pattern, c: Listings.Capture, link: string, now: int)
    requires PlainAnnouncement(msg, pattern, c)
    ensures var w := Run(OneExchangeSheet(c.exchange, link), [msg, msg], pattern, Store.Missing, now);
      w.Some? && |w.value| == 2 && !Matching.UniqueKeys(w.value)
  {
    RunExampleTwice(msg, pattern, c, link, now);
    var w := Run(OneExchangeSheet(c.exchange, link), [msg, msg], pattern, Store.Missing, now).value;
    assert Matching.KeyOf(w[0]) == Matching.KeyOf(w[1]);
  }
}
