/** The roster of registered fingerprints, built from the rows of the sheet
    range `RegistroHuella!A:B`: column A holds the identifier (DNI), column B
    the fingerprint hash. */
module Roster {
  import opened Wrappers

  /** One spreadsheet row as returned by the remote API: a list of cells,
      possibly shorter than the range it was read from. */
  type Row = seq<string>

  /** The roster maps a fingerprint hash to the DNI registered with it. */
  type RosterMap = map<string, string>

  /** `row` registers `hash`: it has at least two cells and the second is `hash`. */
  predicate Registers(row: Row, hash: string)
  {
    |row| > 1 && row[1] == hash
  }

  /** The dictionary comprehension over the fetched rows, in sheet order:
      rows with fewer than two cells are skipped, cells past the second are
      ignored, and a later row overwrites an earlier one with the same hash. */
  function BuildRoster(rows: seq<Row>): (r: RosterMap)
    ensures |r| <= |rows|
  {
    if rows == [] then map[]
    else
      var earlier := BuildRoster(rows[..|rows| - 1]);
      var last := rows[|rows| - 1];
      if |last| > 1 then earlier[last[1] := last[0]] else earlier
  }

  /** The roster as the fetch returns it: `None` stands for any exception
      raised by the remote read, which yields an empty roster. */
  function FetchRoster(fetched: Option<seq<Row>>): (r: RosterMap)
    ensures fetched.None? ==> r == map[]
    ensures fetched.Some? ==> |r| <= |fetched.value|
  {
    match fetched
    case None => map[]
    case Some(rows) => BuildRoster(rows)
  }

  /** A hash is in the roster exactly when some row registers it. */
  lemma {:induction false} RosterKeys(rows: seq<Row>, hash: string)
    ensures hash in BuildRoster(rows) <==> exists i :: 0 <= i < |rows| && Registers(rows[i], hash)
  {
    if rows != [] {
      var n := |rows|;
      var earlier := rows[..n - 1];
      RosterKeys(earlier, hash);
      if hash in BuildRoster(rows) && !Registers(rows[n - 1], hash) {
        var i :| 0 <= i < |earlier| && Registers(earlier[i], hash);
        assert rows[i] == earlier[i];
      }
      if exists i :: 0 <= i < n && Registers(rows[i], hash) {
        var i :| 0 <= i < n && Registers(rows[i], hash);
        if i < n - 1 {
          assert earlier[i] == rows[i];
        }
      }
    }
  }

  /** Last one wins: the row that registers a hash after every other row
      registering it determines the DNI the roster gives for that hash. */
  lemma {:induction false} RosterLastWins(rows: seq<Row>, i: nat)
    requires i < |rows| && |rows[i]| > 1
    requires forall j :: i < j < |rows| ==> !Registers(rows[j], rows[i][1])
    ensures rows[i][1] in BuildRoster(rows)
    ensures BuildRoster(rows)[rows[i][1]] == rows[i][0]
  {
    var n := |rows|;
    if i < n - 1 {
      var earlier := rows[..n - 1];
      assert earlier[i] == rows[i];
      assert !Registers(rows[n - 1], rows[i][1]);
      RosterLastWins(earlier, i);
    }
  }

  /** Every roster entry comes from a row: the last row in sheet order that
      registers the hash, and the DNI is that row's first cell. */
  lemma {:induction false} RosterValueFromLastRow(rows: seq<Row>, hash: string)
    requires hash in BuildRoster(rows)
    ensures exists i :: 0 <= i < |rows| && Registers(rows[i], hash)
                        && BuildRoster(rows)[hash] == rows[i][0]
                        && forall j :: i < j < |rows| ==> !Registers(rows[j], hash)
  {
    var n := |rows|;
    var earlier := rows[..n - 1];
    if Registers(rows[n - 1], hash) {
      assert BuildRoster(rows)[hash] == rows[n - 1][0];
    } else {
      RosterValueFromLastRow(earlier, hash);
      var i :| 0 <= i < |earlier| && Registers(earlier[i], hash)
               && BuildRoster(earlier)[hash] == earlier[i][0]
               && forall j :: i < j < |earlier| ==> !Registers(earlier[j], hash);
      assert rows[i] == earlier[i];
      assert forall j :: i < j < n ==> !Registers(rows[j], hash) by {
        forall j | i < j < n ensures !Registers(rows[j], hash) {
          if j < n - 1 { assert rows[j] == earlier[j]; }
        }
      }
    }
  }

  /** A row with zero or one cell contributes nothing, wherever it sits. */
  lemma {:induction false} ShortRowIgnored(before: seq<Row>, short: Row, after: seq<Row>)
    requires |short| <= 1
    ensures BuildRoster(before + [short] + after) == BuildRoster(before + after)
  {
    if after == [] {
      assert (before + [short] + after)[..|before|] == before;
      assert before + after == before;
    } else {
      var m := |after| - 1;
      var rows := before + [short] + after;
      var rest := before + after;
      assert rows[..|rows| - 1] == before + [short] + after[..m];
      assert rest[..|rest| - 1] == before + after[..m];
      assert rows[|rows| - 1] == rest[|rest| - 1] == after[m];
      ShortRowIgnored(before, short, after[..m]);
    }
  }

  /** Two rows agree on what the comprehension reads from them: both are
      skipped, or both have the same identifier and hash in their first two
      cells. */
  predicate SameKeyCells(r: Row, s: Row)
  {
    (|r| > 1 <==> |s| > 1) && (|r| > 1 ==> r[0] == s[0] && r[1] == s[1])
  }

  /** Cells past the second never affect the roster. */
  lemma {:induction false} ExtraCellsIgnored(rows: seq<Row>, others: seq<Row>)
    requires |rows| == |others|
    requires forall i :: 0 <= i < |rows| ==> SameKeyCells(rows[i], others[i])
    ensures BuildRoster(rows) == BuildRoster(others)
  {
    if rows != [] {
      var n := |rows|;
      assert SameKeyCells(rows[n - 1], others[n - 1]);
      ExtraCellsIgnored(rows[..n - 1], others[..n - 1]);
    }
  }
}
