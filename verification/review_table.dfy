/** The in-memory review table read from the spreadsheet: one record per
    row, in file order. */
module ReviewTable {
  import opened Wrappers

  /** One spreadsheet row. A cell pandas reads as NaN is `None`. The other
      columns (rating, date, links) are only shown on screen and are not
      modelled. */
  datatype Review = Review(author: string, reviewText: Option<string>, ownerAnswer: Option<string>)

  /** `dropna(subset=['owner_answer'])`: the rows that carry an owner
      answer, in their original order. */
  function Answered(rows: seq<Review>): (r: seq<Review>)
    ensures |r| <= |rows|
    ensures forall row :: row in r <==> row in rows && row.ownerAnswer.Some?
  {
    if rows == [] then []
    else (if rows[0].ownerAnswer.Some? then [rows[0]] else []) + Answered(rows[1..])
  }

  /** `dropna` keeps row order and repeated rows: the answered rows of a
      concatenation are those of the first part followed by those of the
      second. */
  lemma {:induction false} AnsweredAppend(a: seq<Review>, b: seq<Review>)
    ensures Answered(a + b) == Answered(a) + Answered(b)
  {
    if a == [] {
      assert a + b == b;
    } else {
      assert (a + b)[1..] == a[1..] + b;
      AnsweredAppend(a[1..], b);
    }
  }

  /** A single row is kept exactly when it carries an answer. */
  lemma AnsweredOfOne(row: Review)
    ensures Answered([row]) == if row.ownerAnswer.Some? then [row] else []
  {
    assert [row][1..] == [];
  }
}
