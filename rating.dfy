/**
 The rating prompt of `submitfeedback` and `updatefeedback`: a dropdown
 whose options are the labels `str(i)` for `i` in 1..5, and the `int(...)`
 conversion of the choice the user picks.
 */
module Rating {

  /** `str(i)` for a rating `i` in 1..5: its one decimal digit. */
  function Label(rating: int): (s: string)
    requires 1 <= rating <= 5
    ensures |s| == 1 && '1' <= s[0] <= '5'
  {
    [(('0' as int) + rating) as char]
  }

  /** The dropdown's option labels, in order: `str(i) for i in range(1, 6)`. */
  function Labels(): (labels: seq<string>)
    ensures |labels| == 5
  {
    seq(5, i requires 0 <= i < 5 => Label(i + 1))
  }

  /** `int(choice)` for the label `choice` the user picked. */
  function RatingOf(choice: string): (r: int)
    requires choice in Labels()
    ensures 1 <= r <= 5
    ensures Label(r) == choice
  {
    var i :| 0 <= i < 5 && Labels()[i] == choice;
    (choice[0] as int) - ('0' as int)
  }

  /** The options are exactly the labels "1" to "5", in that order. */
  lemma LabelsAreDigits()
    ensures Labels() == ["1", "2", "3", "4", "5"]
  {
  }

  /** Every rating 1..5 can be picked, and picking its label gives it back. */
  lemma RatingOfLabel(rating: int)
    requires 1 <= rating <= 5
    ensures Label(rating) in Labels()
    ensures RatingOf(Label(rating)) == rating
  {
    assert Labels()[rating - 1] == Label(rating);
  }
}
