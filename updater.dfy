/** update_alerts.py: the same sheet directory, the alert conditions of the alerting service joined
    against it (without deduplication), and a store rewritten with exactly the matched list. */
module Updater {
  import opened Wrappers
  import Sheet

  /** The row filter of the directory comprehension in `fetch_exchanges_from_google_sheet`: `len(row) > name_index and len(row) > link_index`. */
  predicate FitsBoth(row: seq<string>, n: nat, l: nat) {
    |row| > n && |row| > l
  }

  /** The directory comprehension of `fetch_exchanges_from_google_sheet`; later rows overwrite earlier ones with the same name. */
  function CollectBoth(rows: seq<seq<string>>, n: nat, l: nat): (d: map<string, string>)
    ensures |d| <= |rows|
    decreases |rows|
  {
    if rows == [] then map[]
    else
      var d := CollectBoth(rows[..|rows| - 1], n, l);
      var row := rows[|rows| - 1];
      if FitsBoth(row, n, l) then d[row[n] := row[l]] else d
  }

  /** `fetch_exchanges_from_google_sheet` of update_alerts.py. With no rows, `rows[0]` raises IndexError,
      which the handler turns into the empty map. */
  function BuildDirectory(reply: Sheet.SheetReply): (d: map<string, string>)
    ensures reply.Values? && |reply.rows| > 0 ==> |d| <= |reply.rows| - 1
    ensures d != map[] ==> reply.Values? && Sheet.HasColumns(reply.rows)
  {
    match reply
    case Failed => map[]
    case Values(rows) =>
      if rows == [] then map[]
      else if Sheet.NameHeader !in rows[0] || Sheet.LinkHeader !in rows[0] then map[]
      else CollectBoth(rows[1..], Sheet.NameColumn(rows), Sheet.LinkColumn(rows))
  }

  /** The two row conditions select the same rows, so the two comprehensions build the same map. */
  lemma {:induction false} CollectBothAgrees(rows: seq<seq<string>>, n: nat, l: nat)
    ensures CollectBoth(rows, n, l) == Sheet.Collect(rows, n, l)
    decreases |rows|
  {
    if rows != [] {
      CollectBothAgrees(rows[..|rows| - 1], n, l);
      var row := rows[|rows| - 1];
      assert FitsBoth(row, n, l) <==> Sheet.Fits(row, n, l);
    }
  }

  /** Both scripts build the same directory from every reply, the empty table included. */
  lemma BuildersAgree(reply: Sheet.SheetReply)
    ensures BuildDirectory(reply) == Sheet.BuildDirectory(reply)
  {
    if reply.Values? && Sheet.HasColumns(reply.rows) {
      CollectBothAgrees(reply.rows[1..], Sheet.NameColumn(reply.rows), Sheet.LinkColumn(reply.rows));
    }
  }

  /** An alert condition from the service; None stands for a key the record lacks. The `id` value is
      carried through without being looked at. */
  datatype Condition = Condition(id: Option<string>, exchange: Option<string>, currency: Option<string>)

  /** A record of the written list. */
  datatype Listed = Listed(id: Option<string>, exchange: string, coin: string, affiliateUrl: string)

  const UnknownCoin: string := "Unknown"

  /** The condition `exchange_name in exchange_dict`; an absent exchange (None) is never a key. */
  predicate IsListed(c: Condition, directory: map<string, string>) {
    c.exchange.Some? && c.exchange.value in directory
  }

  /** The record appended for a listed condition: `id` and `exchange` copied, `coin` the currency or
      "Unknown" when there is none, the directory's link. */
  function Format(c: Condition, directory: map<string, string>): (r: Listed)
    requires IsListed(c, directory)
    ensures r.id == c.id && Some(r.exchange) == c.exchange && r.affiliateUrl == directory[r.exchange]
    ensures c.currency.Some? ==> r.coin == c.currency.value
    ensures c.currency.None? ==> r.coin == UnknownCoin
  {
    Listed(c.id, c.exchange.value, c.currency.GetOr(UnknownCoin), directory[c.exchange.value])
  }

  /** The records of the listed conditions, in input order. */
  function Matched(alerts: seq<Condition>, directory: map<string, string>): (r: seq<Listed>)
    ensures |r| <= |alerts|
    decreases |alerts|
  {
    if alerts == [] then []
    else
      var c := alerts[|alerts| - 1];
      Matched(alerts[..|alerts| - 1], directory) + if IsListed(c, directory) then [Format(c, directory)] else []
  }

  /** The loop of `filter_and_format_alerts` in update_alerts.py. */
  method FilterAndFormat(alerts: seq<Condition>, directory: map<string, string>) returns (formatted: seq<Listed>)
    ensures formatted == Matched(alerts, directory)
    ensures forall r :: r in formatted ==> r.exchange in directory && r.affiliateUrl == directory[r.exchange]
  {
    formatted := [];
    var i := 0;
    while i < |alerts|
      invariant 0 <= i <= |alerts|
      invariant formatted == Matched(alerts[..i], directory)
      invariant forall r :: r in formatted ==> r.exchange in directory && r.affiliateUrl == directory[r.exchange]
    {
      var alert := alerts[i];
      var exchangeName := alert.exchange;
      var alertId := alert.id;
      var coinName := alert.currency.GetOr(UnknownCoin);
      if exchangeName.Some? && exchangeName.value in directory {
        formatted := formatted + [Listed(alertId, exchangeName.value, coinName, directory[exchangeName.value])];
      }
      assert alerts[..i + 1][..i] == alerts[..i];
      i := i + 1;
    }
    assert alerts[..i] == alerts;
  }

  /** Matching works condition by condition, keeping the input order. */
  lemma {:induction false} MatchedAppend(a: seq<Condition>, b: seq<Condition>, directory: map<string, string>)
    ensures Matched(a + b, directory) == Matched(a, directory) + Matched(b, directory)
    decreases |b|
  {
    if b == [] {
      assert a + b == a;
    } else {
      var n := |b| - 1;
      assert (a + b)[..|a + b| - 1] == a + b[..n];
      assert (a + b)[|a + b| - 1] == b[n];
      MatchedAppend(a, b[..n], directory);
    }
  }

  /** Every record comes from a listed condition, which the returned index names. */
  lemma {:induction false} MatchedSource(alerts: seq<Condition>, directory: map<string, string>, r: Listed)
    returns (i: nat)
    requires r in Matched(alerts, directory)
    ensures i < |alerts| && IsListed(alerts[i], directory) && r == Format(alerts[i], directory)
    decreases |alerts|
  {
    var n := |alerts| - 1;
    if r in Matched(alerts[..n], directory) {
      i := MatchedSource(alerts[..n], directory, r);
      assert alerts[..n][i] == alerts[i];
    } else {
      i := n;
    }
  }

  /** Every listed condition gives its record. */
  lemma {:induction false} MatchedComplete(alerts: seq<Condition>, directory: map<string, string>, i: nat)
    requires i < |alerts| && IsListed(alerts[i], directory)
    ensures Format(alerts[i], directory) in Matched(alerts, directory)
    decreases |alerts|
  {
    var n := |alerts| - 1;
    if i < n {
      assert alerts[..n][i] == alerts[i];
      MatchedComplete(alerts[..n], directory, i);
    }
  }

  /** Nothing is dropped but unlisted conditions: when every exchange is listed, every condition gives a
      record, duplicates included, and the records are the conditions reshaped in order. */
  lemma {:induction false} MatchedAllListed(alerts: seq<Condition>, directory: map<string, string>)
    requires forall i :: 0 <= i < |alerts| ==> IsListed(alerts[i], directory)
    ensures var r := Matched(alerts, directory);
      |r| == |alerts| && forall i :: 0 <= i < |alerts| ==> r[i] == Format(alerts[i], directory)
    decreases |alerts|
  {
    if alerts != [] {
      var n := |alerts| - 1;
      MatchedAllListed(alerts[..n], directory);
    }
  }

  /** No deduplication: a listed condition given twice gives its record twice. */
  lemma MatchedKeepsDuplicates(c: Condition, directory: map<string, string>)
    requires IsListed(c, directory)
    ensures Matched([c, c], directory) == [Format(c, directory), Format(c, directory)]
  {
    assert [c, c][..1] == [c];
    assert [c][..0] == [];
  }

  /** One run of update_alerts.py: the store is rewritten with exactly the matched list, and only when
      that list is not empty. */
  function RunUpdate(sheet: Sheet.SheetReply, alerts: seq<Condition>): (write: Option<seq<Listed>>)
    ensures write.Some? ==> write.value != []
  {
    var matched := Matched(alerts, BuildDirectory(sheet));
    if matched != [] then Some(matched) else None
  }

  /** The `__main__` block of update_alerts.py. */
  method RunUpdateOnce(sheet: Sheet.SheetReply, alerts: seq<Condition>) returns (write: Option<seq<Listed>>)
    ensures write == RunUpdate(sheet, alerts)
  {
    var exchangeDict := BuildDirectory(sheet);
    var matchedAlerts := FilterAndFormat(alerts, exchangeDict);
    write := if matchedAlerts != [] then Some(matchedAlerts) else None;
  }

  /** A sheet that yields no directory (a failed read, no rows, a missing column) means no write. */
  lemma {:induction false} RunUpdateEmptyDirectory(sheet: Sheet.SheetReply, alerts: seq<Condition>)
    requires BuildDirectory(sheet) == map[]
    ensures RunUpdate(sheet, alerts) == None
    decreases |alerts|
  {
    if alerts != [] {
      RunUpdateEmptyDirectory(sheet, alerts[..|alerts| - 1]);
    }
  }

  /** The store gets a write exactly when some condition names a listed exchange. */
  lemma RunUpdateWrites(sheet: Sheet.SheetReply, alerts: seq<Condition>)
    ensures RunUpdate(sheet, alerts).Some? <==>
      exists i :: 0 <= i < |alerts| && IsListed(alerts[i], BuildDirectory(sheet))
  {
    var directory := BuildDirectory(sheet);
    var m := Matched(alerts, directory);
    if m != [] {
      var i := MatchedSource(alerts, directory, m[0]);
    }
    if exists i :: 0 <= i < |alerts| && IsListed(alerts[i], directory) {
      var i :| 0 <= i < |alerts| && IsListed(alerts[i], directory);
      MatchedComplete(alerts, directory, i);
    }
  }
}
