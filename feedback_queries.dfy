/**
 The read-only commands of the bot: the two distinct-value lists and the
 two per-name feedback listings. The SELECTs carry no ORDER BY, so every
 contract here speaks of multisets and never of an order.
 */
module FeedbackQueries {
  import opened FeedbackTable

  /**
   One listed feedback: `name` is the startup in a per-investor listing and
   the investor in a per-startup listing.
   */
  datatype Entry = Entry(name: string, feedback: string, rating: int)

  /** What a listing command answers: the entries, or "No feedback found". */
  datatype Listing = Listing(entries: seq<Entry>) | NoFeedbackFound

  /** Some row of the table has this startup. */
  predicate HasStartup(rows: seq<Row>, startup: string)
  {
    exists i :: 0 <= i < |rows| && rows[i].startup == startup
  }

  /** `SELECT DISTINCT` over one column: each value of `xs` exactly once, and nothing else. */
  function Distinct(xs: seq<string>): (r: seq<string>)
    ensures forall x :: multiset(r)[x] == if x in xs then 1 else 0
  {
    if xs == [] then []
    else
      var prefix := Distinct(xs[..|xs| - 1]);
      var x := xs[|xs| - 1];
      assert xs == xs[..|xs| - 1] + [x];
      if x in prefix then prefix else prefix + [x]
  }

  /**
   `SELECT DISTINCT investor FROM feedback`, turned into a list: every
   investor of the table exactly once, and nothing else.
   */
  function ListInvestors(rows: seq<Row>): (r: seq<string>)
    ensures forall x :: multiset(r)[x] == if HasInvestor(rows, x) then 1 else 0
  {
    var column := seq(|rows|, i requires 0 <= i < |rows| => rows[i].investor);
    assert forall x :: x in column <==> HasInvestor(rows, x) by {
      forall x ensures x in column <==> HasInvestor(rows, x) {
        if HasInvestor(rows, x) {
          var i :| 0 <= i < |rows| && rows[i].investor == x;
          assert column[i] == x;
        }
      }
    }
    Distinct(column)
  }

  /**
   `SELECT DISTINCT startup FROM feedback`, turned into a list: every
   startup of the table exactly once, and nothing else.
   */
  function ListStartups(rows: seq<Row>): (r: seq<string>)
    ensures forall x :: multiset(r)[x] == if HasStartup(rows, x) then 1 else 0
  {
    var column := seq(|rows|, i requires 0 <= i < |rows| => rows[i].startup);
    assert forall x :: x in column <==> HasStartup(rows, x) by {
      forall x ensures x in column <==> HasStartup(rows, x) {
        if HasStartup(rows, x) {
          var i :| 0 <= i < |rows| && rows[i].startup == x;
          assert column[i] == x;
        }
      }
    }
    Distinct(column)
  }

  /**
   `SELECT startup, feedback, rating FROM feedback WHERE investor=?`: an
   entry occurs in the result exactly as often as the row it stands for
   occurs in the table.
   */
  function InvestorEntries(rows: seq<Row>, investor: string): (r: seq<Entry>)
    ensures forall e :: multiset(r)[e] == multiset(rows)[Row(investor, e.name, e.feedback, e.rating)]
  {
    if rows == [] then []
    else
      assert rows == [rows[0]] + rows[1..];
      var rest := InvestorEntries(rows[1..], investor);
      var row := rows[0];
      if row.investor == investor then [Entry(row.startup, row.feedback, row.rating)] + rest else rest
  }

  /**
   `SELECT investor, feedback, rating FROM feedback WHERE startup=?`: an
   entry occurs in the result exactly as often as the row it stands for
   occurs in the table.
   */
  function StartupEntries(rows: seq<Row>, startup: string): (r: seq<Entry>)
    ensures forall e :: multiset(r)[e] == multiset(rows)[Row(e.name, startup, e.feedback, e.rating)]
  {
    if rows == [] then []
    else
      assert rows == [rows[0]] + rows[1..];
      var rest := StartupEntries(rows[1..], startup);
      var row := rows[0];
      if row.startup == startup then [Entry(row.investor, row.feedback, row.rating)] + rest else rest
  }

  /** The entry of a row in a per-investor listing. */
  function AsInvestorEntry(row: Row): Entry
  {
    Entry(row.startup, row.feedback, row.rating)
  }

  /** The entry of a row in a per-startup listing. */
  function AsStartupEntry(row: Row): Entry
  {
    Entry(row.investor, row.feedback, row.rating)
  }

  /**
   The `investorfeedback` command: the entries of that investor's rows, or
   "No feedback found" exactly when the investor has no row.
   */
  function InvestorFeedback(rows: seq<Row>, investor: string): (r: Listing)
    ensures r.NoFeedbackFound? <==> !HasInvestor(rows, investor)
    ensures r.Listing? ==> r.entries == InvestorEntries(rows, investor)
  {
    var entries := InvestorEntries(rows, investor);
    assert entries != [] <==> HasInvestor(rows, investor) by {
      if HasInvestor(rows, investor) {
        var i :| 0 <= i < |rows| && rows[i].investor == investor;
        assert rows[i] == Row(investor, AsInvestorEntry(rows[i]).name, rows[i].feedback, rows[i].rating);
        assert multiset(entries)[AsInvestorEntry(rows[i])] > 0;
      }
      if entries != [] {
        var e := entries[0];
        assert multiset(rows)[Row(investor, e.name, e.feedback, e.rating)] > 0;
        var i :| 0 <= i < |rows| && rows[i] == Row(investor, e.name, e.feedback, e.rating);
      }
    }
    if entries != [] then Listing(entries) else NoFeedbackFound
  }

  /**
   The `startupfeedback` command: the entries of that startup's rows, or
   "No feedback found" exactly when the startup has no row.
   */
  function StartupFeedback(rows: seq<Row>, startup: string): (r: Listing)
    ensures r.NoFeedbackFound? <==> !HasStartup(rows, startup)
    ensures r.Listing? ==> r.entries == StartupEntries(rows, startup)
  {
    var entries := StartupEntries(rows, startup);
    assert entries != [] <==> HasStartup(rows, startup) by {
      if HasStartup(rows, startup) {
        var i :| 0 <= i < |rows| && rows[i].startup == startup;
        assert rows[i] == Row(AsStartupEntry(rows[i]).name, startup, rows[i].feedback, rows[i].rating);
        assert multiset(entries)[AsStartupEntry(rows[i])] > 0;
      }
      if entries != [] {
        var e := entries[0];
        assert multiset(rows)[Row(e.name, startup, e.feedback, e.rating)] > 0;
        var i :| 0 <= i < |rows| && rows[i] == Row(e.name, startup, e.feedback, e.rating);
      }
    }
    if entries != [] then Listing(entries) else NoFeedbackFound
  }

  // ---------------------------------------------------------------------
  // What the listings show after a write

  /** A submitted row is listed under its investor and under its startup. */
  lemma InsertIsListed(rows: seq<Row>, row: Row)
    ensures InvestorFeedback(rows + [row], row.investor).Listing?
    ensures AsInvestorEntry(row) in InvestorFeedback(rows + [row], row.investor).entries
    ensures StartupFeedback(rows + [row], row.startup).Listing?
    ensures AsStartupEntry(row) in StartupFeedback(rows + [row], row.startup).entries
  {
  }

  /** Submitting a row adds exactly its entry to its investor's listing. */
  lemma InsertAddsOneEntry(rows: seq<Row>, row: Row)
    ensures multiset(InvestorEntries(rows + [row], row.investor))
            == multiset(InvestorEntries(rows, row.investor)) + multiset{AsInvestorEntry(row)}
  {
  }

  /** After `deletefeedback`, the investor has no listing and is no longer listed. */
  lemma DeleteClearsInvestor(rows: seq<Row>, investor: string)
    ensures InvestorFeedback(DeleteRows(rows, investor), investor) == NoFeedbackFound
    ensures investor !in ListInvestors(DeleteRows(rows, investor))
  {
  }

  /** `deletefeedback` leaves the listings of every other investor as they were. */
  lemma DeleteKeepsOtherInvestors(rows: seq<Row>, investor: string, other: string)
    requires other != investor
    ensures multiset(InvestorEntries(DeleteRows(rows, investor), other)) == multiset(InvestorEntries(rows, other))
  {
  }

  /** After `updatefeedback` of a present pair, its investor's listing shows the new feedback and rating. */
  lemma UpdateIsListed(rows: seq<Row>, investor: string, startup: string, feedback: string, rating: int)
    requires HasPair(rows, investor, startup)
    ensures Entry(startup, feedback, rating) in InvestorFeedback(UpdateRows(rows, investor, startup, feedback, rating), investor).entries
  {
  }
}
