/** The alert store of fetch_alerts.py: the persisted alerts and their load with the three-day retention
    filter (`fetch_existing_alerts`). Times are microseconds since 1970-01-01 00:00 UTC, the resolution of
    Python's `datetime`; dates are day numbers counted from that day. */
module Store {
  import Seqs

  const MicrosPerDay: int := 86_400_000_000
  const RetentionDays: int := 3

  /** The `date_added` field of a stored entry: a day, or a value `strptime(..., "%Y-%m-%d")` rejects
      (including a missing field). */
  datatype DateField = Day(day: int) | Malformed

  /** A persisted alert; `(coin, ticker, exchange)` is its identity. */
  datatype Alert = Alert(exchange: string, coin: string, ticker: string, affiliateUrl: string, dateAdded: DateField)

  /** The alerts file as the load finds it: absent, unreadable (not JSON, or not a list of records),
      or a list of entries. */
  datatype StoreFile = Missing | Unreadable | Entries(alerts: seq<Alert>)

  /** The UTC day a time falls on. */
  function DayOf(now: int): int {
    now / MicrosPerDay
  }

  /** `strptime(date) >= utcnow() - timedelta(days=3)`: the date, taken at midnight, is no earlier than
      three days before `now`. */
  predicate IsRecent(day: int, now: int) {
    day * MicrosPerDay >= now - RetentionDays * MicrosPerDay
  }

  predicate Kept(a: Alert, now: int) {
    a.dateAdded.Day? && IsRecent(a.dateAdded.day, now)
  }

  predicate AllDated(alerts: seq<Alert>) {
    forall i :: 0 <= i < |alerts| ==> alerts[i].dateAdded.Day?
  }

  /** The list comprehension of `fetch_existing_alerts` over well-dated entries: the recent ones, in file order. */
  function Retained(alerts: seq<Alert>, now: int): (r: seq<Alert>)
    ensures |r| <= |alerts|
    ensures forall a :: a in r ==> a in alerts && Kept(a, now)
    decreases |alerts|
  {
    if alerts == [] then []
    else
      var last := alerts[|alerts| - 1];
      Retained(alerts[..|alerts| - 1], now) + if Kept(last, now) then [last] else []
  }

  /** `fetch_existing_alerts`: no file, an unreadable file, or any entry whose date does not parse gives
      the empty list (the exception is caught); otherwise the retained entries. */
  function FetchExisting(file: StoreFile, now: int): (r: seq<Alert>)
    ensures forall a :: a in r ==> Kept(a, now)
    ensures r != [] ==> file.Entries? && AllDated(file.alerts)
    ensures file.Entries? ==> Seqs.IsSubsequence(r, file.alerts)
    ensures file.Entries? && AllDated(file.alerts) ==> forall a :: a in file.alerts && Kept(a, now) ==> a in r
    ensures file.Entries? && AllDated(file.alerts) ==>
      forall a :: multiset(r)[a] == if Kept(a, now) then multiset(file.alerts)[a] else 0
  {
    match file
    case Missing => []
    case Unreadable => []
    case Entries(alerts) =>
      assert forall a :: a in alerts && Kept(a, now) ==> a in Retained(alerts, now) by {
        forall a | a in alerts && Kept(a, now) {
          RetainedMembers(alerts, now, a);
        }
      }
      assert forall a :: multiset(Retained(alerts, now))[a] == if Kept(a, now) then multiset(alerts)[a] else 0 by {
        forall a {
          RetainedCount(alerts, now, a);
        }
      }
      RetainedIsSubsequence(alerts, now);
      Seqs.EmptyIsSubsequence(alerts);
      if AllDated(alerts) then Retained(alerts, now) else []
  }

  /** Every entry that is recent is retained, and nothing else is. */
  lemma {:induction false} RetainedMembers(alerts: seq<Alert>, now: int, a: Alert)
    ensures a in Retained(alerts, now) <==> a in alerts && Kept(a, now)
    decreases |alerts|
  {
    if alerts != [] {
      var n := |alerts| - 1;
      RetainedMembers(alerts[..n], now, a);
      assert alerts == alerts[..n] + [alerts[n]];
    }
  }

  /** Each entry is retained as many times as the file holds it when it is recent, and never otherwise. */
  lemma {:induction false} RetainedCount(alerts: seq<Alert>, now: int, a: Alert)
    ensures multiset(Retained(alerts, now))[a] == if Kept(a, now) then multiset(alerts)[a] else 0
    decreases |alerts|
  {
    if alerts != [] {
      var n := |alerts| - 1;
      RetainedCount(alerts[..n], now, a);
      assert alerts == alerts[..n] + [alerts[n]];
    }
  }

  /** The retained entries keep their file order. */
  lemma {:induction false} RetainedIsSubsequence(alerts: seq<Alert>, now: int)
    ensures Seqs.IsSubsequence(Retained(alerts, now), alerts)
    decreases |alerts|
  {
    if alerts != [] {
      RetainedIsSubsequence(alerts[1..], now);
      RetainedCons(alerts, now);
      var r := Retained(alerts, now);
      if Kept(alerts[0], now) {
        assert r[0] == alerts[0] && r[1..] == Retained(alerts[1..], now);
      } else {
        assert r == Retained(alerts[1..], now);
      }
    }
  }

  /** The filter seen from the front of the list. */
  lemma {:induction false} RetainedCons(alerts: seq<Alert>, now: int)
    requires alerts != []
    ensures Retained(alerts, now) == (if Kept(alerts[0], now) then [alerts[0]] else []) + Retained(alerts[1..], now)
    decreases |alerts|
  {
    var n := |alerts| - 1;
    if n > 0 {
      RetainedCons(alerts[..n], now);
      assert alerts[..n][1..] == alerts[1..][..n - 1];
      assert alerts[..n][0] == alerts[0];
      assert alerts[1..][n - 1] == alerts[n];
    } else {
      assert alerts[1..] == [];
    }
  }

  /** Retention distributes over concatenation: it keeps the order of both parts. */
  lemma {:induction false} RetainedAppend(a: seq<Alert>, b: seq<Alert>, now: int)
    ensures Retained(a + b, now) == Retained(a, now) + Retained(b, now)
    decreases |b|
  {
    if b == [] {
      assert a + b == a;
    } else {
      var n := |b| - 1;
      assert (a + b)[..|a + b| - 1] == a + b[..n];
      assert (a + b)[|a + b| - 1] == b[n];
      RetainedAppend(a, b[..n], now);
    }
  }

  /** A file whose entries are all dated and recent loads as it is. */
  lemma {:induction false} RetainedAll(alerts: seq<Alert>, now: int)
    requires forall i :: 0 <= i < |alerts| ==> Kept(alerts[i], now)
    ensures Retained(alerts, now) == alerts
    decreases |alerts|
  {
    if alerts != [] {
      RetainedAll(alerts[..|alerts| - 1], now);
      assert alerts[..|alerts| - 1] + [alerts[|alerts| - 1]] == alerts;
    }
  }

  /** A store holding only dated, recent entries loads back unchanged. */
  lemma ReloadRecent(alerts: seq<Alert>, now: int)
    requires forall i :: 0 <= i < |alerts| ==> Kept(alerts[i], now)
    ensures FetchExisting(Entries(alerts), now) == alerts
  {
    RetainedAll(alerts, now);
    assert AllDated(alerts);
  }

  /** A date two or fewer days before today (or later) is always kept. */
  lemma RecentWithinTwoDays(day: int, now: int)
    requires DayOf(now) - day <= 2
    ensures IsRecent(day, now)
  {
    assert now < (DayOf(now) + 1) * MicrosPerDay;
  }

  /** A date four or more days before today is always dropped. */
  lemma StaleAfterFourDays(day: int, now: int)
    requires DayOf(now) - day >= 4
    ensures !IsRecent(day, now)
  {
    assert DayOf(now) * MicrosPerDay <= now;
  }

  /** A date exactly three days before today is kept only when `now` is exactly midnight. */
  lemma ThreeDaysBoundary(day: int, now: int)
    requires DayOf(now) - day == 3
    ensures IsRecent(day, now) <==> now % MicrosPerDay == 0
  {
    assert now == DayOf(now) * MicrosPerDay + now % MicrosPerDay;
  }
}
