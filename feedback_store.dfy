/**
 The bot's shared `feedback` table and the three commands that change it.
 Each command reads the table first and decides from what it finds, then
 runs at most one INSERT, UPDATE or DELETE. `startup` stands for the name of
 the invoking user and `rating` for the value already converted from the
 dropdown choice (Rating.RatingOf).
 */
module FeedbackBot {
  import opened FeedbackTable
  import opened FeedbackQueries

  datatype SubmitResponse = Submitted | AlreadyExists
  datatype UpdateResponse = Updated | DoesNotExist
  datatype DeleteResponse = Deleted | NotFound

  class FeedbackStore {
    /** The rows of the table, in storage order. */
    var rows: seq<Row>

    /** Opens the table with whatever rows the database file already holds. */
    constructor (existing: seq<Row>)
      ensures rows == existing
    {
      rows := existing;
    }

    /**
     `submitfeedback`: inserts the row only when its (investor, startup)
     pair is absent; otherwise the table is untouched.
     */
    method Submit(investor: string, startup: string, feedback: string, rating: int) returns (resp: SubmitResponse)
      requires 1 <= rating <= 5
      modifies this
      ensures HasPair(old(rows), investor, startup) ==> resp == AlreadyExists && rows == old(rows)
      ensures !HasPair(old(rows), investor, startup) ==>
                resp == Submitted && rows == old(rows) + [Row(investor, startup, feedback, rating)]
      ensures Unique(old(rows)) ==> Unique(rows)
      ensures RatingsInRange(old(rows)) ==> RatingsInRange(rows)
    {
      var existing := Lookup(rows, investor, startup);
      if existing.Some? {
        resp := AlreadyExists;
      } else {
        var row := Row(investor, startup, feedback, rating);
        if Unique(rows) {
          InsertKeepsUnique(rows, row);
        }
        rows := rows + [row];
        resp := Submitted;
      }
    }

    /**
     `updatefeedback`: rewrites feedback and rating of the (investor,
     startup) rows only when the pair is present; otherwise the table is
     untouched.
     */
    method Update(investor: string, startup: string, feedback: string, rating: int) returns (resp: UpdateResponse)
      requires 1 <= rating <= 5
      modifies this
      ensures !HasPair(old(rows), investor, startup) ==> resp == DoesNotExist && rows == old(rows)
      ensures HasPair(old(rows), investor, startup) ==>
                resp == Updated && rows == UpdateRows(old(rows), investor, startup, feedback, rating)
      ensures Unique(old(rows)) ==> Unique(rows)
      ensures RatingsInRange(old(rows)) ==> RatingsInRange(rows)
    {
      var existing := Lookup(rows, investor, startup);
      if existing.Some? {
        if Unique(rows) {
          UpdateKeepsUnique(rows, investor, startup, feedback, rating);
        }
        rows := UpdateRows(rows, investor, startup, feedback, rating);
        resp := Updated;
      } else {
        resp := DoesNotExist;
      }
    }

    /**
     `deletefeedback`: when the investor has a row, removes every row of
     that investor, whatever its startup; otherwise the table is untouched.
     */
    method Delete(investor: string) returns (resp: DeleteResponse)
      modifies this
      ensures HasInvestor(old(rows), investor) ==>
                resp == Deleted && rows == DeleteRows(old(rows), investor) && |rows| < |old(rows)|
      ensures !HasInvestor(old(rows), investor) ==> resp == NotFound && rows == old(rows)
      ensures !HasInvestor(rows, investor)
      ensures Unique(old(rows)) ==> Unique(rows)
      ensures RatingsInRange(old(rows)) ==> RatingsInRange(rows)
    {
      var existing := LookupInvestor(rows, investor);
      if existing.Some? {
        DeletePresentShrinks(rows, investor);
        DeleteThenLookup(rows, investor);
        if Unique(rows) {
          DeleteKeepsUnique(rows, investor);
        }
        if RatingsInRange(rows) {
          DeleteKeepsRatings(rows, investor);
        }
        rows := DeleteRows(rows, investor);
        resp := Deleted;
      } else {
        resp := NotFound;
      }
    }
  }

  /**
   Submitting twice for the same pair: the second call is refused and the
   table stays as the first call left it.
   */
  method SubmitTwice(store: FeedbackStore, investor: string, startup: string, feedback: string, rating: int)
    returns (first: SubmitResponse, second: SubmitResponse)
    requires 1 <= rating <= 5
    requires !HasPair(store.rows, investor, startup)
    modifies store
    ensures first == Submitted && second == AlreadyExists
    ensures store.rows == old(store.rows) + [Row(investor, startup, feedback, rating)]
  {
    first := store.Submit(investor, startup, feedback, rating);
    var afterFirst := store.rows;
    assert afterFirst[|afterFirst| - 1] == Row(investor, startup, feedback, rating);
    second := store.Submit(investor, startup, feedback, rating);
  }

  /** Deleting twice: the second call finds nothing and removes nothing. */
  method DeleteTwice(store: FeedbackStore, investor: string)
    returns (first: DeleteResponse, second: DeleteResponse)
    requires HasInvestor(store.rows, investor)
    modifies store
    ensures first == Deleted && second == NotFound
    ensures store.rows == DeleteRows(old(store.rows), investor)
  {
    first := store.Delete(investor);
    second := store.Delete(investor);
  }

  /**
   The worked example: "Foo Startup" rates "Acme Capital" 5 on an empty
   table, and the investor's listing then shows that entry.
   */
  method Example()
  {
    var store := new FeedbackStore([]);
    var resp := store.Submit("Acme Capital", "Foo Startup", "Great mentorship", 5);
    assert resp == Submitted;
    assert store.rows == [Row("Acme Capital", "Foo Startup", "Great mentorship", 5)];
    InsertIsListed([], Row("Acme Capital", "Foo Startup", "Great mentorship", 5));
    assert Entry("Foo Startup", "Great mentorship", 5) in InvestorFeedback(store.rows, "Acme Capital").entries;
  }
}
