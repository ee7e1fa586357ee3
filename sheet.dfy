/** The exchange directory of fetch_alerts.py (`fetch_exchanges_from_google_sheet`): the spreadsheet's rows,
    the first of them a header, turned into a map from exchange name to affiliate link. */
module Sheet {

  /** What the spreadsheet read produced: the `values` rows of a 200 response (an absent `values` is no rows),
      or a failure (another status code, or an exception while fetching or decoding). */
  datatype SheetReply = Values(rows: seq<seq<string>>) | Failed

  const NameHeader: string := "Name"
  const LinkHeader: string := "Link"

  function Max(a: nat, b: nat): nat {
    if a >= b then a else b
  }

  /** `header.index(x)`: the position of the FIRST occurrence of `x`. */
  function IndexOf(header: seq<string>, x: string): (i: nat)
    requires x in header
    ensures i < |header| && header[i] == x
    ensures forall j :: 0 <= j < i ==> header[j] != x
  {
    if header[0] == x then 0 else 1 + IndexOf(header[1..], x)
  }

  /** The header names both required columns. */
  predicate HasColumns(rows: seq<seq<string>>) {
    |rows| > 0 && NameHeader in rows[0] && LinkHeader in rows[0]
  }

  function NameColumn(rows: seq<seq<string>>): nat
    requires HasColumns(rows)
  {
    IndexOf(rows[0], NameHeader)
  }

  function LinkColumn(rows: seq<seq<string>>): nat
    requires HasColumns(rows)
  {
    IndexOf(rows[0], LinkHeader)
  }

  /** The comprehension's filter: `len(row) > max(name_index, link_index)`. */
  predicate Fits(row: seq<string>, n: nat, l: nat) {
    |row| > Max(n, l)
  }

  /** `{row[n]: row[l] for row in rows if Fits(row)}`: rows are inserted in order, so a later row with the
      same name overwrites an earlier one. There is at most one entry per row. */
  function Collect(rows: seq<seq<string>>, n: nat, l: nat): (d: map<string, string>)
    ensures |d| <= |rows|
    decreases |rows|
  {
    if rows == [] then map[]
    else
      var d := Collect(rows[..|rows| - 1], n, l);
      var row := rows[|rows| - 1];
      if Fits(row, n, l) then d[row[n] := row[l]] else d
  }

  /** The directory the loader returns; every failure and every missing column gives the empty map. */
  function BuildDirectory(reply: SheetReply): (d: map<string, string>)
    ensures reply.Values? && |reply.rows| > 0 ==> |d| <= |reply.rows| - 1
    ensures d != map[] ==> reply.Values? && HasColumns(reply.rows)
  {
    match reply
    case Failed => map[]
    case Values(rows) =>
      if rows == [] then map[]
      else if NameHeader !in rows[0] || LinkHeader !in rows[0] then map[]
      else Collect(rows[1..], NameColumn(rows), LinkColumn(rows))
  }

  /** A name is in the comprehension's result exactly when some fitting row carries it. */
  lemma {:induction false} CollectKeys(rows: seq<seq<string>>, n: nat, l: nat, k: string)
    ensures k in Collect(rows, n, l) <==> exists i :: 0 <= i < |rows| && Fits(rows[i], n, l) && rows[i][n] == k
    decreases |rows|
  {
    if rows != [] {
      var init := rows[..|rows| - 1];
      CollectKeys(init, n, l, k);
      if exists i :: 0 <= i < |init| && Fits(init[i], n, l) && init[i][n] == k {
        var i :| 0 <= i < |init| && Fits(init[i], n, l) && init[i][n] == k;
        assert rows[i] == init[i];
      }
      if exists i :: 0 <= i < |rows| && Fits(rows[i], n, l) && rows[i][n] == k {
        var i :| 0 <= i < |rows| && Fits(rows[i], n, l) && rows[i][n] == k;
        if i < |init| {
          assert init[i] == rows[i];
        }
      }
    }
  }

  /** The last fitting row with a given name decides its link. */
  lemma {:induction false} CollectLastWins(rows: seq<seq<string>>, n: nat, l: nat, i: nat)
    requires i < |rows| && Fits(rows[i], n, l)
    requires forall j :: i < j < |rows| && Fits(rows[j], n, l) ==> rows[j][n] != rows[i][n]
    ensures rows[i][n] in Collect(rows, n, l) && Collect(rows, n, l)[rows[i][n]] == rows[i][l]
    decreases |rows|
  {
    var init := rows[..|rows| - 1];
    if i < |rows| - 1 {
      forall j | i < j < |init| && Fits(init[j], n, l)
        ensures init[j][n] != init[i][n]
      {
        assert init[j] == rows[j];
      }
      CollectLastWins(init, n, l, i);
    }
  }

  /** With both columns present, the names in the directory are exactly those of the data rows (never the
      header) that are long enough to hold both the name and the link column. */
  lemma DirectoryKeys(rows: seq<seq<string>>, k: string)
    requires HasColumns(rows)
    ensures k in BuildDirectory(Values(rows)) <==>
      exists i :: 1 <= i < |rows| && Fits(rows[i], NameColumn(rows), LinkColumn(rows)) && rows[i][NameColumn(rows)] == k
  {
    var n, l := NameColumn(rows), LinkColumn(rows);
    CollectKeys(rows[1..], n, l, k);
    if exists i :: 0 <= i < |rows[1..]| && Fits(rows[1..][i], n, l) && rows[1..][i][n] == k {
      var i :| 0 <= i < |rows[1..]| && Fits(rows[1..][i], n, l) && rows[1..][i][n] == k;
      assert rows[i + 1] == rows[1..][i];
    }
    if exists i :: 1 <= i < |rows| && Fits(rows[i], n, l) && rows[i][n] == k {
      var i :| 1 <= i < |rows| && Fits(rows[i], n, l) && rows[i][n] == k;
      assert rows[1..][i - 1] == rows[i];
    }
  }

  /** When names repeat, the link of the last fitting data row with that name is the one kept. */
  lemma DirectoryLastWins(rows: seq<seq<string>>, i: nat)
    requires HasColumns(rows) && 1 <= i < |rows|
    requires Fits(rows[i], NameColumn(rows), LinkColumn(rows))
    requires forall j :: i < j < |rows| && Fits(rows[j], NameColumn(rows), LinkColumn(rows)) ==>
      rows[j][NameColumn(rows)] != rows[i][NameColumn(rows)]
    ensures var d := BuildDirectory(Values(rows));
      rows[i][NameColumn(rows)] in d && d[rows[i][NameColumn(rows)]] == rows[i][LinkColumn(rows)]
  {
    var n, l := NameColumn(rows), LinkColumn(rows);
    var data := rows[1..];
    assert data[i - 1] == rows[i];
    forall j | i - 1 < j < |data| && Fits(data[j], n, l)
      ensures data[j][n] != data[i - 1][n]
    {
      assert data[j] == rows[j + 1];
    }
    CollectLastWins(data, n, l, i - 1);
  }
}
