/** The matcher of fetch_alerts.py (`filter_and_format_alerts`): listing events are joined against the
    exchange directory, and events whose identity is already stored are dropped. */
module Matching {
  import Listings
  import Store

  /** The identity of an alert: `(coin, ticker, exchange)`. */
  datatype Key = Key(coin: string, ticker: string, exchange: string)

  function KeyOf(a: Store.Alert): Key {
    Key(a.coin, a.ticker, a.exchange)
  }

  function EventKey(e: Listings.ListingEvent): Key {
    Key(e.coin, e.ticker, e.exchange)
  }

  /** `existing_entries`: the identities of the stored alerts. */
  function ExistingKeys(existing: seq<Store.Alert>): (keys: set<Key>)
    ensures forall a :: a in existing ==> KeyOf(a) in keys
    ensures forall k :: k in keys ==> exists a :: a in existing && KeyOf(a) == k
  {
    set a | a in existing :: KeyOf(a)
  }

  /** The join condition of `filter_and_format_alerts`: the exchange is listed and the identity is new. */
  predicate Admits(e: Listings.ListingEvent, directory: map<string, string>, keys: set<Key>) {
    e.exchange in directory && EventKey(e) !in keys
  }

  /** The record appended for an admitted event. */
  function Format(e: Listings.ListingEvent, directory: map<string, string>): (a: Store.Alert)
    requires e.exchange in directory
    ensures KeyOf(a) == EventKey(e)
    ensures a.affiliateUrl == directory[a.exchange] && a.dateAdded == Store.Day(e.dateAdded)
  {
    Store.Alert(e.exchange, e.coin, e.ticker, directory[e.exchange], Store.Day(e.dateAdded))
  }

  /** The matched alerts, in event order; at most one per event. */
  function Matched(events: seq<Listings.ListingEvent>, directory: map<string, string>, keys: set<Key>)
    : (r: seq<Store.Alert>)
    ensures |r| <= |events|
    decreases |events|
  {
    if events == [] then []
    else
      var e := events[|events| - 1];
      Matched(events[..|events| - 1], directory, keys)
        + if Admits(e, directory, keys) then [Format(e, directory)] else []
  }

  /** The loop of `filter_and_format_alerts`, appending to `formatted_alerts`. */
  method FilterAndFormat(events: seq<Listings.ListingEvent>, directory: map<string, string>,
                         existing: seq<Store.Alert>)
    returns (formatted: seq<Store.Alert>)
    ensures formatted == Matched(events, directory, ExistingKeys(existing))
    ensures forall a :: a in formatted ==>
      a.exchange in directory && a.affiliateUrl == directory[a.exchange] && KeyOf(a) !in ExistingKeys(existing)
  {
    var existingEntries := set a | a in existing :: KeyOf(a);
    formatted := [];
    var i := 0;
    while i < |events|
      invariant 0 <= i <= |events|
      invariant formatted == Matched(events[..i], directory, existingEntries)
      invariant forall a :: a in formatted ==>
        a.exchange in directory && a.affiliateUrl == directory[a.exchange] && KeyOf(a) !in existingEntries
    {
      var e := events[i];
      if e.exchange in directory && Key(e.coin, e.ticker, e.exchange) !in existingEntries {
        formatted := formatted + [Store.Alert(e.exchange, e.coin, e.ticker, directory[e.exchange], Store.Day(e.dateAdded))];
      }
      assert events[..i + 1][..i] == events[..i];
      i := i + 1;
    }
    assert events[..i] == events;
  }

  /** Matching works event by event: the alerts of `a + b` are those of `a` followed by those of `b`. */
  lemma {:induction false} MatchedAppend(a: seq<Listings.ListingEvent>, b: seq<Listings.ListingEvent>,
                                         directory: map<string, string>, keys: set<Key>)
    ensures Matched(a + b, directory, keys) == Matched(a, directory, keys) + Matched(b, directory, keys)
    decreases |b|
  {
    if b == [] {
      assert a + b == a;
    } else {
      var n := |b| - 1;
      assert (a + b)[..|a + b| - 1] == a + b[..n];
      assert (a + b)[|a + b| - 1] == b[n];
      MatchedAppend(a, b[..n], directory, keys);
    }
  }

  /** Every matched alert comes from an admitted event, which the returned index names; so its exchange
      is listed, its link is the directory's, its identity is new and it carries the event's date. */
  lemma {:induction false} MatchedSource(events: seq<Listings.ListingEvent>, directory: map<string, string>,
                                         keys: set<Key>, a: Store.Alert)
    returns (i: nat)
    requires a in Matched(events, directory, keys)
    ensures i < |events| && Admits(events[i], directory, keys) && a == Format(events[i], directory)
    decreases |events|
  {
    var n := |events| - 1;
    if a in Matched(events[..n], directory, keys) {
      i := MatchedSource(events[..n], directory, keys, a);
      assert events[..n][i] == events[i];
    } else {
      i := n;
    }
  }

  /** Every admitted event is matched. */
  lemma {:induction false} MatchedComplete(events: seq<Listings.ListingEvent>, directory: map<string, string>,
                                           keys: set<Key>, i: nat)
    requires i < |events| && Admits(events[i], directory, keys)
    ensures Format(events[i], directory) in Matched(events, directory, keys)
    decreases |events|
  {
    var n := |events| - 1;
    if i < n {
      assert events[..n][i] == events[i];
      MatchedComplete(events[..n], directory, keys, i);
    }
  }

  /** An event whose identity is among `keys` is matched by no directory, whatever its link. */
  lemma {:induction false} MatchedNone(events: seq<Listings.ListingEvent>, directory: map<string, string>,
                                       keys: set<Key>)
    requires forall i :: 0 <= i < |events| ==> events[i].exchange in directory ==> EventKey(events[i]) in keys
    ensures Matched(events, directory, keys) == []
    decreases |events|
  {
    if events != [] {
      MatchedNone(events[..|events| - 1], directory, keys);
    }
  }

  /** The identities of a batch of events. */
  function EventKeys(events: seq<Listings.ListingEvent>): (keys: set<Key>)
    ensures forall i :: 0 <= i < |events| ==> EventKey(events[i]) in keys
    ensures forall k :: k in keys ==> exists i :: 0 <= i < |events| && EventKey(events[i]) == k
  {
    set i | 0 <= i < |events| :: EventKey(events[i])
  }

  /** After a batch is matched, every identity of the batch whose exchange is listed is in the store
      extended with what was matched. */
  lemma MatchedCovers(events: seq<Listings.ListingEvent>, directory: map<string, string>,
                      existing: seq<Store.Alert>)
    ensures var out := Matched(events, directory, ExistingKeys(existing));
      forall k :: k in EventKeys(events) && k.exchange in directory ==> k in ExistingKeys(existing + out)
  {
    var keys := ExistingKeys(existing);
    var out := Matched(events, directory, keys);
    forall k | k in EventKeys(events) && k.exchange in directory
      ensures k in ExistingKeys(existing + out)
    {
      var i :| 0 <= i < |events| && EventKey(events[i]) == k;
      if k in keys {
        var a :| a in existing && KeyOf(a) == k;
        assert a in existing + out;
      } else {
        MatchedComplete(events, directory, keys, i);
        assert Format(events[i], directory) in existing + out;
      }
    }
  }

  /** Matching events whose identities all occur in a batch already matched, against the store extended
      with what that batch gave, gives nothing. */
  lemma MatchedRerun(events: seq<Listings.ListingEvent>, events': seq<Listings.ListingEvent>,
                     directory: map<string, string>, existing: seq<Store.Alert>)
    requires forall i :: 0 <= i < |events'| ==> EventKey(events'[i]) in EventKeys(events)
    ensures var out := Matched(events, directory, ExistingKeys(existing));
      Matched(events', directory, ExistingKeys(existing + out)) == []
  {
    MatchedCovers(events, directory, existing);
    MatchedNone(events', directory, ExistingKeys(existing + Matched(events, directory, ExistingKeys(existing))));
  }

  /** There is no deduplication within one batch: an admitted event given twice is matched twice. */
  lemma MatchedKeepsBatchDuplicates(e: Listings.ListingEvent, directory: map<string, string>, keys: set<Key>)
    requires Admits(e, directory, keys)
    ensures Matched([e, e], directory, keys) == [Format(e, directory), Format(e, directory)]
  {
    assert [e, e][..1] == [e];
    assert [e][..0] == [];
  }

  /** No two alerts share an identity. */
  predicate UniqueKeys(alerts: seq<Store.Alert>) {
    forall i, j :: 0 <= i < j < |alerts| ==> KeyOf(alerts[i]) != KeyOf(alerts[j])
  }

  /** No two events share an identity. */
  predicate UniqueEventKeys(events: seq<Listings.ListingEvent>) {
    forall i, j :: 0 <= i < j < |events| ==> EventKey(events[i]) != EventKey(events[j])
  }

  /** Events with distinct identities give alerts with distinct identities. */
  lemma {:induction false} MatchedUnique(events: seq<Listings.ListingEvent>, directory: map<string, string>,
                                         keys: set<Key>)
    requires UniqueEventKeys(events)
    ensures UniqueKeys(Matched(events, directory, keys))
    decreases |events|
  {
    if events != [] {
      var n := |events| - 1;
      var init := events[..n];
      MatchedUnique(init, directory, keys);
      var m := Matched(init, directory, keys);
      var r := Matched(events, directory, keys);
      if Admits(events[n], directory, keys) {
        forall i | 0 <= i < |m|
          ensures KeyOf(m[i]) != EventKey(events[n])
        {
          var j := MatchedSource(init, directory, keys, m[i]);
          assert init[j] == events[j];
        }
        assert r == m + [Format(events[n], directory)];
      }
    }
  }

  /** Appending alerts whose identities are new keeps the identities distinct. */
  lemma UniqueAppend(a: seq<Store.Alert>, b: seq<Store.Alert>)
    requires UniqueKeys(a) && UniqueKeys(b)
    requires forall x :: x in b ==> KeyOf(x) !in ExistingKeys(a)
    ensures UniqueKeys(a + b)
  {
    var w := a + b;
    forall i, j | 0 <= i < j < |w|
      ensures KeyOf(w[i]) != KeyOf(w[j])
    {
      if i < |a| && j >= |a| {
        assert w[j] == b[j - |a|] && w[j] in b;
        assert w[i] in a;
      } else if i >= |a| {
        assert w[i] == b[i - |a|] && w[j] == b[j - |a|];
      }
    }
  }

  /** No matched alert has one of the identities it was matched against. */
  lemma MatchedAreNew(events: seq<Listings.ListingEvent>, directory: map<string, string>, keys: set<Key>)
    ensures forall x :: x in Matched(events, directory, keys) ==> KeyOf(x) !in keys
  {
    forall x | x in Matched(events, directory, keys)
      ensures KeyOf(x) !in keys
    {
      var i := MatchedSource(events, directory, keys, x);
    }
  }
}
