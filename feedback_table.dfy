/**
 The `feedback` table of the bot: an SQLite table with the columns
 (investor TEXT, startup TEXT, feedback TEXT, rating INTEGER) and no key.
 The table is modelled as the sequence of its rows in storage order; the
 SQL statements the handlers run against it are functions on that sequence.
 */
module FeedbackTable {

  datatype Option<T> = None | Some(value: T)

  /** One row of the table. */
  datatype Row = Row(investor: string, startup: string, feedback: string, rating: int)

  /** The row matches `WHERE investor=? AND startup=?`. */
  predicate IsPair(row: Row, investor: string, startup: string)
  {
    row.investor == investor && row.startup == startup
  }

  /** Some row of the table has this (investor, startup) pair. */
  predicate HasPair(rows: seq<Row>, investor: string, startup: string)
  {
    exists i :: 0 <= i < |rows| && IsPair(rows[i], investor, startup)
  }

  /** Some row of the table has this investor. */
  predicate HasInvestor(rows: seq<Row>, investor: string)
  {
    exists i :: 0 <= i < |rows| && rows[i].investor == investor
  }

  /**
   The invariant the handlers intend but the schema does not enforce:
   at most one row per (investor, startup) pair.
   */
  predicate Unique(rows: seq<Row>)
  {
    forall i, j :: 0 <= i < |rows| && 0 <= j < |rows| && IsPair(rows[i], rows[j].investor, rows[j].startup) ==> i == j
  }

  /** Every rating stored is one of the five the rating dropdown offers. */
  predicate RatingsInRange(rows: seq<Row>)
  {
    forall i :: 0 <= i < |rows| ==> 1 <= rows[i].rating <= 5
  }

  /**
   `SELECT * FROM feedback WHERE investor=? AND startup=?` followed by
   `fetchone()`: some matching row, or none when no row matches.
   */
  function Lookup(rows: seq<Row>, investor: string, startup: string): (r: Option<Row>)
    ensures r.Some? <==> HasPair(rows, investor, startup)
    ensures r.Some? ==> r.value in rows && IsPair(r.value, investor, startup)
  {
    if rows == [] then None
    else if IsPair(rows[0], investor, startup) then Some(rows[0])
    else
      var r := Lookup(rows[1..], investor, startup);
      assert HasPair(rows, investor, startup) ==> HasPair(rows[1..], investor, startup) by {
        if HasPair(rows, investor, startup) {
          var i :| 0 <= i < |rows| && IsPair(rows[i], investor, startup);
          assert rows[1..][i - 1] == rows[i];
        }
      }
      r
  }

  /**
   `SELECT * FROM feedback WHERE investor=?` followed by `fetchone()`:
   some row of that investor, or none.
   */
  function LookupInvestor(rows: seq<Row>, investor: string): (r: Option<Row>)
    ensures r.Some? <==> HasInvestor(rows, investor)
    ensures r.Some? ==> r.value in rows && r.value.investor == investor
  {
    if rows == [] then None
    else if rows[0].investor == investor then Some(rows[0])
    else
      var r := LookupInvestor(rows[1..], investor);
      assert HasInvestor(rows, investor) ==> HasInvestor(rows[1..], investor) by {
        if HasInvestor(rows, investor) {
          var i :| 0 <= i < |rows| && rows[i].investor == investor;
          assert rows[1..][i - 1] == rows[i];
        }
      }
      r
  }

  /**
   `UPDATE feedback SET feedback=?, rating=? WHERE investor=? AND startup=?`:
   every matching row gets the new feedback and rating and keeps its
   investor and startup; every other row stays as it was.
   */
  function UpdateRows(rows: seq<Row>, investor: string, startup: string, feedback: string, rating: int): (r: seq<Row>)
    ensures |r| == |rows|
    ensures forall i :: 0 <= i < |rows| && IsPair(rows[i], investor, startup) ==>
              r[i].investor == rows[i].investor && r[i].startup == rows[i].startup &&
              r[i].feedback == feedback && r[i].rating == rating
    ensures forall i :: 0 <= i < |rows| && !IsPair(rows[i], investor, startup) ==> r[i] == rows[i]
  {
    if rows == [] then []
    else
      var head := if IsPair(rows[0], investor, startup) then rows[0].(feedback := feedback, rating := rating) else rows[0];
      [head] + UpdateRows(rows[1..], investor, startup, feedback, rating)
  }

  /**
   `DELETE FROM feedback WHERE investor=?`: every row of that investor is
   removed, whatever its startup, and every other row is kept, as often as
   it occurred.
   */
  function DeleteRows(rows: seq<Row>, investor: string): (r: seq<Row>)
    ensures forall row :: multiset(r)[row] == if row.investor == investor then 0 else multiset(rows)[row]
    ensures |r| <= |rows|
  {
    if rows == [] then []
    else
      assert rows == [rows[0]] + rows[1..];
      var rest := DeleteRows(rows[1..], investor);
      if rows[0].investor == investor then rest else [rows[0]] + rest
  }

  // ---------------------------------------------------------------------
  // What a lookup sees after a write

  /** After inserting a row whose pair was absent, the lookup finds exactly that row. */
  lemma {:induction false} InsertThenLookup(rows: seq<Row>, row: Row)
    requires !HasPair(rows, row.investor, row.startup)
    ensures Lookup(rows + [row], row.investor, row.startup) == Some(row)
  {
    if rows != [] {
      assert (rows + [row])[1..] == rows[1..] + [row];
      assert !IsPair(rows[0], row.investor, row.startup);
      forall i | 0 <= i < |rows[1..]|
        ensures !IsPair(rows[1..][i], row.investor, row.startup)
      {
        assert rows[1..][i] == rows[i + 1];
      }
      InsertThenLookup(rows[1..], row);
    }
  }

  /** After an update of a present pair, the lookup finds the pair with the new feedback and rating. */
  lemma UpdateThenLookup(rows: seq<Row>, investor: string, startup: string, feedback: string, rating: int)
    requires HasPair(rows, investor, startup)
    ensures Lookup(UpdateRows(rows, investor, startup, feedback, rating), investor, startup)
            == Some(Row(investor, startup, feedback, rating))
  {
  }

  /** After a delete, no row of that investor is left. */
  lemma DeleteThenLookup(rows: seq<Row>, investor: string)
    ensures !HasInvestor(DeleteRows(rows, investor), investor)
  {
  }

  /** Deleting an investor that has no row leaves the table exactly as it was. */
  lemma {:induction false} DeleteAbsentIsIdentity(rows: seq<Row>, investor: string)
    requires !HasInvestor(rows, investor)
    ensures DeleteRows(rows, investor) == rows
  {
    if rows != [] {
      forall i | 0 <= i < |rows[1..]|
        ensures rows[1..][i].investor != investor
      {
        assert rows[1..][i] == rows[i + 1];
      }
      DeleteAbsentIsIdentity(rows[1..], investor);
      assert rows[0].investor != investor;
      assert rows == [rows[0]] + rows[1..];
    }
  }

  /** Deleting an investor that has a row makes the table strictly shorter. */
  lemma {:induction false} DeletePresentShrinks(rows: seq<Row>, investor: string)
    requires HasInvestor(rows, investor)
    ensures |DeleteRows(rows, investor)| < |rows|
  {
    if rows[0].investor != investor {
      var i :| 0 <= i < |rows| && rows[i].investor == investor;
      assert rows[1..][i - 1] == rows[i];
      DeletePresentShrinks(rows[1..], investor);
    }
  }

  // ---------------------------------------------------------------------
  // The uniqueness invariant

  /** Appending a row whose pair is absent keeps at most one row per pair. */
  lemma InsertKeepsUnique(rows: seq<Row>, row: Row)
    requires Unique(rows)
    requires !HasPair(rows, row.investor, row.startup)
    ensures Unique(rows + [row])
  {
  }

  /** The update never changes a pair, so it keeps at most one row per pair. */
  lemma UpdateKeepsUnique(rows: seq<Row>, investor: string, startup: string, feedback: string, rating: int)
    requires Unique(rows)
    ensures Unique(UpdateRows(rows, investor, startup, feedback, rating))
  {
  }

  /** Unique for a table with a first row, split into that row and the rest. */
  lemma UniqueCons(rows: seq<Row>)
    requires rows != []
    ensures Unique(rows) <==> Unique(rows[1..]) && !HasPair(rows[1..], rows[0].investor, rows[0].startup)
  {
  }

  /** The delete only removes rows, so it keeps at most one row per pair. */
  lemma {:induction false} DeleteKeepsUnique(rows: seq<Row>, investor: string)
    requires Unique(rows)
    ensures Unique(DeleteRows(rows, investor))
  {
    if rows != [] {
      UniqueCons(rows);
      var rest := DeleteRows(rows[1..], investor);
      DeleteKeepsUnique(rows[1..], investor);
      if rows[0].investor != investor {
        var s := [rows[0]] + rest;
        forall k | 0 <= k < |rest|
          ensures !IsPair(rest[k], rows[0].investor, rows[0].startup)
        {
          assert multiset(rest)[rest[k]] > 0;
          assert rest[k] in rows[1..];
        }
        assert s[1..] == rest;
        UniqueCons(s);
      }
    }
  }

  /** The delete only removes rows, so every rating left was there before. */
  lemma DeleteKeepsRatings(rows: seq<Row>, investor: string)
    requires RatingsInRange(rows)
    ensures RatingsInRange(DeleteRows(rows, investor))
  {
  }
}
