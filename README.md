# FeedbackBot feedback table, in Dafny

FeedbackBot is a Discord bot. Startups use it to leave feedback and a 1–5 star
rating for investors. All of its state is one SQLite table, `feedback(investor,
startup, feedback, rating)`. The table has no key and no constraint. The
handlers intend at most one row per (investor, startup) pair, and only their
read-then-write guards keep it that way.

This project models that table and the handler logic that reads and changes it:

- `feedback_table.dfy`, module `FeedbackTable`: the row type and the table as
  a `seq<Row>` in storage order. The lookups (`SELECT … ; fetchone()`) and the
  `UPDATE` and `DELETE` statements are functions on the sequence. Beside them
  are lemmas on what a lookup sees after each write, and on the invariants
  "at most one row per pair" (`Unique`) and "every rating in 1..5"
  (`RatingsInRange`).
- `feedback_queries.dfy`, module `FeedbackQueries`: the read-only commands.
  These are `listinvestors`, `liststartups`, `investorfeedback` and
  `startupfeedback`. The SELECTs have no `ORDER BY`, so every contract is
  about multisets: each distinct value appears exactly once, and each row
  gives exactly one entry. Lemmas relate these listings to the writes.
- `rating.dfy`, module `Rating`: the five dropdown labels `str(i)` for `i` in
  1..5, and the `int(...)` conversion of the chosen label.
- `feedback_store.dfy`, module `FeedbackBot`: the class `FeedbackStore`. It
  owns the table as a mutable `rows` field. Its methods `Submit`, `Update`
  and `Delete` are the three writing commands. Each does its lookup, decides,
  changes `rows` at most once and returns a response tag. Each also preserves
  `Unique` and `RatingsInRange`. Two client methods (`SubmitTwice`,
  `DeleteTwice`) and the worked example in `Example` show what a caller can
  conclude from those contracts alone.

Inputs that come from Discord are parameters:
- `startup` is the invoking user's name (`ctx.user.name`).
- `rating` is the integer already converted from the dropdown choice.
  `Rating.RatingOf` proves that this integer is in 1..5, so the methods
  `requires 1 <= rating <= 5`.

The source's lookup with `fetchone()` returns an unspecified matching row.
The model takes the first one in storage order, but its contract promises
only "some matching row", which is all the handlers use.

`deletefeedback` answers only "deleted" or "not found". It does not report
how many rows it removed, and the model follows the code in this. What the
delete removes is stated exactly by `FeedbackTable.DeleteRows`.

## Model

| member | source | states |
|---|---|---|
| `FeedbackTable.Lookup` | FeedbackBot.py:89-91 | returns a row exactly when some row has the (investor, startup) pair, and the row returned is a row of the table with that pair |
| `FeedbackTable.LookupInvestor` | FeedbackBot.py:131-132 | returns a row exactly when some row has the investor, and the row returned is a row of the table with that investor |
| `FeedbackTable.UpdateRows` | FeedbackBot.py:180-181 | same length; every row matching investor and startup gets the new feedback and rating and keeps its investor and startup; every other row is unchanged |
| `FeedbackTable.DeleteRows` | FeedbackBot.py:135 | every row of the investor is removed whatever its startup, and every other row keeps its multiplicity; the table never grows |
| `FeedbackTable.InsertThenLookup` | FeedbackBot.py:98-102 | after inserting a row whose pair was absent, the lookup of that pair returns exactly that row |
| `FeedbackTable.UpdateThenLookup` | FeedbackBot.py:179-181 | after updating a present pair, the lookup returns the pair with the new feedback and rating |
| `FeedbackTable.DeleteThenLookup` | FeedbackBot.py:131-135 | after the delete, no row of the investor remains, so a second delete finds nothing |
| `FeedbackTable.DeleteAbsentIsIdentity` | FeedbackBot.py:131-140 | deleting an investor with no row gives back exactly the same table |
| `FeedbackTable.DeletePresentShrinks` | FeedbackBot.py:134-135 | deleting an investor that has a row removes at least one row |
| `FeedbackTable.InsertKeepsUnique` | FeedbackBot.py:98-102 | inserting a row whose pair is absent keeps at most one row per (investor, startup) |
| `FeedbackTable.UpdateKeepsUnique` | FeedbackBot.py:179-181 | the update keeps at most one row per (investor, startup) |
| `FeedbackTable.UniqueCons` | FeedbackBot.py:33 | "at most one row per pair" holds for a table exactly when it holds for the rest after the first row and that rest has no row with the first row's pair |
| `FeedbackTable.DeleteKeepsUnique` | FeedbackBot.py:135 | the delete keeps at most one row per (investor, startup) |
| `FeedbackTable.DeleteKeepsRatings` | FeedbackBot.py:135 | after the delete every rating left is still in 1..5 |
| `FeedbackQueries.Distinct` | FeedbackBot.py:110-111 | every value of the column occurs in the result exactly once, and no other value occurs |
| `FeedbackQueries.ListInvestors` | FeedbackBot.py:110-114 | every investor of the table is listed exactly once, and nothing else is listed |
| `FeedbackQueries.ListStartups` | FeedbackBot.py:120-124 | every startup of the table is listed exactly once, and nothing else is listed |
| `FeedbackQueries.InvestorEntries` | FeedbackBot.py:161-162 | each (startup, feedback, rating) entry occurs as often as the row (investor, startup, feedback, rating) occurs in the table |
| `FeedbackQueries.StartupEntries` | FeedbackBot.py:145-146 | each (investor, feedback, rating) entry occurs as often as the row (investor, startup, feedback, rating) occurs in the table |
| `FeedbackQueries.InvestorFeedback` | FeedbackBot.py:159-172 | answers "No feedback found" exactly when the investor has no row, and otherwise lists the investor's entries |
| `FeedbackQueries.StartupFeedback` | FeedbackBot.py:143-156 | answers "No feedback found" exactly when the startup has no row, and otherwise lists the startup's entries |
| `FeedbackQueries.InsertIsListed` | FeedbackBot.py:101-105 | a submitted row is listed both under its investor and under its startup |
| `FeedbackQueries.InsertAddsOneEntry` | FeedbackBot.py:102 | submitting a row adds exactly its one entry to its investor's listing and changes nothing else there |
| `FeedbackQueries.DeleteClearsInvestor` | FeedbackBot.py:135 | after the delete, the investor has no listing and is missing from the investor list |
| `FeedbackQueries.DeleteKeepsOtherInvestors` | FeedbackBot.py:135 | the delete leaves every other investor's listing unchanged as a multiset |
| `FeedbackQueries.UpdateIsListed` | FeedbackBot.py:180-181 | after updating a present pair, the investor's listing shows the new feedback and rating for that startup |
| `Rating.Label` | FeedbackBot.py:76 | the label of a rating 1..5 is one digit between '1' and '5' |
| `Rating.RatingOf` | FeedbackBot.py:91 | converting an offered label gives a rating in 1..5 whose label is that choice |
| `Rating.LabelsAreDigits` | FeedbackBot.py:75-77 | the dropdown offers exactly "1", "2", "3", "4", "5", in this order |
| `Rating.RatingOfLabel` | FeedbackBot.py:76 | every rating 1..5 is offered, and converting its label gives that rating back |
| `FeedbackBot.FeedbackStore.constructor` | FeedbackBot.py:31-34 | the store starts with the rows the database file already holds |
| `FeedbackBot.FeedbackStore.Submit` | FeedbackBot.py:94-105 | a present pair gives "already exists" and leaves the table unchanged; an absent pair gives "submitted" and appends exactly the one row; both invariants are kept |
| `FeedbackBot.FeedbackStore.Update` | FeedbackBot.py:175-187 | an absent pair gives "does not exist" and leaves the table unchanged; a present pair gives "updated" and applies the UPDATE; both invariants are kept |
| `FeedbackBot.FeedbackStore.Delete` | FeedbackBot.py:128-140 | an investor with a row gives "deleted", removes all the investor's rows and shrinks the table; otherwise "not found" and the table is unchanged; afterwards no row of the investor is left; both invariants are kept |
| `FeedbackBot.SubmitTwice` | FeedbackBot.py:98-105 | a second submit of the same pair is refused and the table stays as the first submit left it |
| `FeedbackBot.DeleteTwice` | FeedbackBot.py:131-140 | a second delete of the same investor answers "not found" and removes nothing |

## Left out

- Discord client, command tree, `on_ready` and command registration: these are network and platform I/O.
- `on_command_error`: it only picks a message for library exception types and prints to the console.
- The `Page` view and the `RatingDropdown` widget: these are library UI. Only the list of option labels is modelled, in `Rating.Labels`.
- The `bot.wait_for` suspension for the rating choice: this is event-loop concurrency. The chosen rating is an input of `Submit` and `Update`.
- `Paginator` page splitting and the embed and message text: this is foreign text layout. The listings are modelled as the entry lists, and the responses as tags without their text.
- The `commands.has_role("admin")` gate on `deletefeedback`: it is a library check on an app command, and whether it is enforced cannot be seen in this file. `Delete` has no permission parameter.
- The `help` embed: it is static text.
- Dependency auto-install, `.env` loading, the token check and `conn.close`: these are process plumbing. The constructor stands for opening the table.
- Row order of query results: there is no `ORDER BY`, so no contract promises an order.
