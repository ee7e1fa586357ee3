/** The listing extractor of fetch_alerts.py (`extract_coin_listing_data`): each message is cleaned of its
    link markup, matched against the announcement pattern, and a match yields one listing event. */
module Listings {
  import opened Wrappers
  import Text
  import Markup

  /** The three groups of `(.+?) \((.+?)\) .* listed on (.+?) -`, before stripping. */
  datatype Capture = Capture(coin: string, ticker: string, exchange: string)

  /** The search with the announcement pattern: the groups of the first match, or None. */
  type Pattern = string -> Option<Capture>

  /** An extracted listing; `dateAdded` is a day number (days since 1970-01-01, UTC). */
  datatype ListingEvent = ListingEvent(coin: string, ticker: string, exchange: string, dateAdded: int)

  /** The event one message gives, if its cleaned text matches: the three groups, whitespace-stripped,
      dated with the run's day. */
  function EventOf(msg: string, today: int, pattern: Pattern): (r: Option<ListingEvent>)
    ensures r.Some? <==> pattern(Markup.StripLinks(msg)).Some?
    ensures r.Some? ==>
      && r.value.dateAdded == today
      && Text.IsTrimmed(r.value.coin) && Text.IsTrimmed(r.value.ticker) && Text.IsTrimmed(r.value.exchange)
  {
    match pattern(Markup.StripLinks(msg))
    case None => None
    case Some(c) => Some(ListingEvent(Text.Trim(c.coin), Text.Trim(c.ticker), Text.Trim(c.exchange), today))
  }

  /** Each field of the event is the corresponding group of the match with its surrounding whitespace
      removed. */
  lemma EventOfGroups(msg: string, today: int, pattern: Pattern)
    requires EventOf(msg, today, pattern).Some?
    ensures var e := EventOf(msg, today, pattern).value;
      var c := pattern(Markup.StripLinks(msg)).value;
      && Text.StrippedFrom(e.coin, c.coin)
      && Text.StrippedFrom(e.ticker, c.ticker)
      && Text.StrippedFrom(e.exchange, c.exchange)
  {
    var c := pattern(Markup.StripLinks(msg)).value;
    Text.TrimIsInfix(c.coin);
    Text.TrimIsInfix(c.ticker);
    Text.TrimIsInfix(c.exchange);
  }

  /** The events one message contributes: its event, or none. */
  function EventsOf(msg: string, today: int, pattern: Pattern): (r: seq<ListingEvent>)
    ensures |r| <= 1
  {
    match EventOf(msg, today, pattern)
    case Some(e) => [e]
    case None => []
  }

  /** The events of a sequence of messages, in message order; at most one per message. */
  function Extracted(messages: seq<string>, today: int, pattern: Pattern): (r: seq<ListingEvent>)
    ensures |r| <= |messages|
    decreases |messages|
  {
    if messages == [] then []
    else
      Extracted(messages[..|messages| - 1], today, pattern) + EventsOf(messages[|messages| - 1], today, pattern)
  }

  /** The loop of `extract_coin_listing_data`, appending to `extracted_data`. */
  method ExtractListings(messages: seq<string>, today: int, pattern: Pattern) returns (events: seq<ListingEvent>)
    ensures events == Extracted(messages, today, pattern)
    ensures |events| <= |messages|
    ensures forall e :: e in events ==>
      e.dateAdded == today && Text.IsTrimmed(e.coin) && Text.IsTrimmed(e.ticker) && Text.IsTrimmed(e.exchange)
  {
    events := [];
    var i := 0;
    while i < |messages|
      invariant 0 <= i <= |messages|
      invariant events == Extracted(messages[..i], today, pattern)
    {
      var cleaned := Markup.StripLinks(messages[i]);
      var found := pattern(cleaned);
      if found.Some? {
        var c := found.value;
        events := events + [ListingEvent(Text.Trim(c.coin), Text.Trim(c.ticker), Text.Trim(c.exchange), today)];
      }
      ExtractedStep(messages, today, pattern, i);
      i := i + 1;
    }
    assert messages[..i] == messages;
    ExtractedWellFormed(messages, today, pattern);
  }

  /** One more message adds its own events at the end. */
  lemma ExtractedStep(messages: seq<string>, today: int, pattern: Pattern, i: nat)
    requires i < |messages|
    ensures Extracted(messages[..i + 1], today, pattern)
      == Extracted(messages[..i], today, pattern) + EventsOf(messages[i], today, pattern)
  {
    assert messages[..i + 1][..i] == messages[..i];
    assert messages[..i + 1][i] == messages[i];
  }

  /** Every extracted event is dated with the run's day and has stripped fields. */
  lemma ExtractedWellFormed(messages: seq<string>, today: int, pattern: Pattern)
    ensures forall e :: e in Extracted(messages, today, pattern) ==>
      e.dateAdded == today && Text.IsTrimmed(e.coin) && Text.IsTrimmed(e.ticker) && Text.IsTrimmed(e.exchange)
  {
    forall e | e in Extracted(messages, today, pattern)
      ensures e.dateAdded == today && Text.IsTrimmed(e.coin) && Text.IsTrimmed(e.ticker) && Text.IsTrimmed(e.exchange)
    {
      var i := ExtractedSource(messages, today, pattern, e);
    }
  }

  /** Extraction works message by message: the events of `a + b` are those of `a` followed by those of `b`. */
  lemma {:induction false} ExtractedAppend(a: seq<string>, b: seq<string>, today: int, pattern: Pattern)
    ensures Extracted(a + b, today, pattern) == Extracted(a, today, pattern) + Extracted(b, today, pattern)
    decreases |b|
  {
    if b == [] {
      assert a + b == a;
    } else {
      var b' := b[..|b| - 1];
      assert (a + b)[..|a + b| - 1] == a + b';
      assert (a + b)[|a + b| - 1] == b[|b| - 1];
      ExtractedAppend(a, b', today, pattern);
    }
  }

  /** One message gives its event, or nothing. */
  lemma ExtractedSingle(msg: string, today: int, pattern: Pattern)
    ensures Extracted([msg], today, pattern) == EventsOf(msg, today, pattern)
  {
    assert [msg][..0] == [];
  }

  /** Every extracted event comes from some message, which the returned index names. */
  lemma {:induction false} ExtractedSource(messages: seq<string>, today: int, pattern: Pattern, e: ListingEvent)
    returns (i: nat)
    requires e in Extracted(messages, today, pattern)
    ensures i < |messages| && EventOf(messages[i], today, pattern) == Some(e)
    decreases |messages|
  {
    var n := |messages| - 1;
    if e in Extracted(messages[..n], today, pattern) {
      i := ExtractedSource(messages[..n], today, pattern, e);
      assert messages[..n][i] == messages[i];
    } else {
      assert Extracted(messages, today, pattern)
        == Extracted(messages[..n], today, pattern) + EventsOf(messages[n], today, pattern);
      assert e in EventsOf(messages[n], today, pattern);
      i := n;
    }
  }

  /** Every message the pattern matches contributes its event. */
  lemma {:induction false} ExtractedComplete(messages: seq<string>, today: int, pattern: Pattern, i: nat)
    requires i < |messages| && EventOf(messages[i], today, pattern).Some?
    ensures EventOf(messages[i], today, pattern).value in Extracted(messages, today, pattern)
    decreases |messages|
  {
    var n := |messages| - 1;
    if i < n {
      assert messages[..n][i] == messages[i];
      ExtractedComplete(messages[..n], today, pattern, i);
    }
  }

  /** Messages that the pattern does not match give no events at all. */
  lemma {:induction false} ExtractedNoMatch(messages: seq<string>, today: int, pattern: Pattern)
    requires forall i :: 0 <= i < |messages| ==> pattern(Markup.StripLinks(messages[i])).None?
    ensures Extracted(messages, today, pattern) == []
    decreases |messages|
  {
    if messages != [] {
      ExtractedNoMatch(messages[..|messages| - 1], today, pattern);
    }
  }
}
