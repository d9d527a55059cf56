/** `build_examples_string`: turns the table's previously answered reviews
    into a block of style examples for the completion prompt. */
module ExamplePrompt {
  import opened Wrappers
  import opened PyStr
  import opened ReviewTable

  const Header: string := "Here are some previous examples of how you have responded:\n\n"
  const Separator: string := "\n\n"

  /** A row is used as an example when its review text and its owner answer
      are both present and neither is blank after stripping. */
  predicate Qualifies(row: Review) {
    && row.reviewText.Some? && row.ownerAnswer.Some?
    && !IsBlank(row.reviewText.value) && !IsBlank(row.ownerAnswer.value)
  }

  /** One example, written with the unstripped cell texts. */
  function FormatExample(row: Review): (e: string)
    requires Qualifies(row)
  {
    "Review: " + row.reviewText.value + "\nAnswer: " + row.ownerAnswer.value
  }

  /** The examples of the qualifying rows, in row order. */
  function Examples(rows: seq<Review>): (ex: seq<string>)
  {
    if rows == [] then []
    else (if Qualifies(rows[0]) then [FormatExample(rows[0])] else []) + Examples(rows[1..])
  }

  /** What `build_examples_string` returns: the header and the examples
      joined by blank lines, or "" when no row qualifies. */
  function ExamplesText(rows: seq<Review>): (t: string)
    ensures t == [] || Header <= t
  {
    var examples := Examples(rows);
    if examples == [] then "" else Header + Join(Separator, examples)
  }

  /** The loop of `build_examples_string`: appends one example per
      qualifying row, then joins them under the header. */
  method BuildExamplesString(rows: seq<Review>) returns (text: string)
    ensures text == ExamplesText(rows)
  {
    var examplesList: seq<string> := [];
    for i := 0 to |rows|
      invariant examplesList == Examples(rows[..i])
    {
      var row := rows[i];
      ExamplesAppend(rows[..i], [row]);
      assert rows[..i + 1] == rows[..i] + [row];
      if Qualifies(row) {
        examplesList := examplesList + [FormatExample(row)];
      }
    }
    assert rows[..|rows|] == rows;
    if examplesList != [] {
      text := Header + Join(Separator, examplesList);
    } else {
      text := "";
    }
  }

  /** Examples keep the row order: those of a concatenation are those of
      the first part followed by those of the second. */
  lemma {:induction false} ExamplesAppend(a: seq<Review>, b: seq<Review>)
    ensures Examples(a + b) == Examples(a) + Examples(b)
  {
    if a == [] {
      assert a + b == b;
    } else {
      var head := if Qualifies(a[0]) then [FormatExample(a[0])] else [];
      assert (a + b)[0] == a[0];
      assert (a + b)[1..] == a[1..] + b;
      ExamplesAppend(a[1..], b);
      assert Examples(a + b) == head + (Examples(a[1..]) + Examples(b));
    }
  }

  /** A single row contributes its example exactly when it qualifies. */
  lemma ExamplesOfOne(row: Review)
    ensures Examples([row]) == if Qualifies(row) then [FormatExample(row)] else []
  {
    assert [row][1..] == [];
  }

  /** There are no examples exactly when no row qualifies. */
  lemma {:induction false} ExamplesEmptyIff(rows: seq<Review>)
    ensures Examples(rows) == [] <==> forall k :: 0 <= k < |rows| ==> !Qualifies(rows[k])
  {
    if rows != [] {
      ExamplesEmptyIff(rows[1..]);
      assert forall k :: 1 <= k < |rows| ==> rows[k] == rows[1..][k - 1];
    }
  }

  /** `build_examples_string` returns "" exactly when no row has both a
      present, non-blank review text and a present, non-blank answer. */
  lemma ExamplesTextEmptyIff(rows: seq<Review>)
    ensures ExamplesText(rows) == "" <==> forall k :: 0 <= k < |rows| ==> !Qualifies(rows[k])
  {
    ExamplesEmptyIff(rows);
  }

  /** When exactly one row qualifies, the result is the header followed by
      that row's single "Review/Answer" pair. */
  lemma ExactlyOneExample(rows: seq<Review>, k: nat)
    requires k < |rows| && Qualifies(rows[k])
    requires forall j :: 0 <= j < |rows| && j != k ==> !Qualifies(rows[j])
    ensures ExamplesText(rows) == Header + FormatExample(rows[k])
  {
    var upto := rows[..k + 1];
    assert rows == upto + rows[k + 1..];
    ExamplesAppend(upto, rows[k + 1..]);
    NoneAfter(rows, k);
    assert upto == rows[..k] + [rows[k]];
    ExamplesAppend(rows[..k], [rows[k]]);
    NoneBefore(rows, k);
    ExamplesOfOne(rows[k]);
    assert Examples(rows) == [FormatExample(rows[k])];
  }

  /** The `dropna` on `owner_answer` done before the call changes nothing:
      a row without an answer never qualifies. */
  lemma {:induction false} AnsweredKeepsExamples(rows: seq<Review>)
    ensures Examples(Answered(rows)) == Examples(rows)
  {
    if rows != [] {
      AnsweredKeepsExamples(rows[1..]);
      var head := if rows[0].ownerAnswer.Some? then [rows[0]] else [];
      ExamplesAppend(head, Answered(rows[1..]));
      ExamplesOfOne(rows[0]);
    }
  }

  /** The first example comes from the first qualifying row. */
  lemma {:induction false} ExamplesFirst(rows: seq<Review>, first: nat)
    requires first < |rows| && Qualifies(rows[first])
    requires forall j :: 0 <= j < first ==> !Qualifies(rows[j])
    ensures Examples(rows) != [] && Examples(rows)[0] == FormatExample(rows[first])
  {
    if first > 0 {
      var rest := rows[1..];
      assert forall j :: 0 <= j < first - 1 ==> rest[j] == rows[j + 1];
      ExamplesFirst(rest, first - 1);
      assert Examples(rows) == Examples(rest);
    }
  }

  /** The last example comes from the last qualifying row. */
  lemma {:induction false} ExamplesLast(rows: seq<Review>, last: nat)
    requires last < |rows| && Qualifies(rows[last])
    requires forall j :: last < j < |rows| ==> !Qualifies(rows[j])
    ensures var ex := Examples(rows); ex != [] && ex[|ex| - 1] == FormatExample(rows[last])
  {
    var rest := rows[1..];
    if last == 0 {
      NoneAfter(rows, 0);
      assert Examples(rows) == [FormatExample(rows[0])] + Examples(rest);
    } else {
      assert forall j :: last - 1 < j < |rest| ==> rest[j] == rows[j + 1];
      ExamplesLast(rest, last - 1);
      var head := if Qualifies(rows[0]) then [FormatExample(rows[0])] else [];
      assert Examples(rows) == head + Examples(rest);
    }
  }

  /** Rows before the first qualifying one give no examples. */
  lemma NoneBefore(rows: seq<Review>, first: nat)
    requires first <= |rows|
    requires forall j :: 0 <= j < first ==> !Qualifies(rows[j])
    ensures Examples(rows[..first]) == []
  {
    var before := rows[..first];
    assert forall j :: 0 <= j < |before| ==> before[j] == rows[j];
    ExamplesEmptyIff(before);
  }

  /** Rows after the last qualifying one give no examples. */
  lemma NoneAfter(rows: seq<Review>, last: nat)
    requires last < |rows|
    requires forall j :: last < j < |rows| ==> !Qualifies(rows[j])
    ensures Examples(rows[last + 1..]) == []
  {
    var after := rows[last + 1..];
    assert forall j :: 0 <= j < |after| ==> after[j] == rows[last + 1 + j];
    ExamplesEmptyIff(after);
  }

  /** A non-empty result is the header, then the first qualifying row's
      example, and it ends with the last qualifying row's example. */
  lemma ExamplesTextLayout(rows: seq<Review>, first: nat, last: nat)
    requires first < |rows| && Qualifies(rows[first])
    requires forall j :: 0 <= j < first ==> !Qualifies(rows[j])
    requires last < |rows| && Qualifies(rows[last])
    requires forall j :: last < j < |rows| ==> !Qualifies(rows[j])
    ensures Header + FormatExample(rows[first]) <= ExamplesText(rows)
    ensures var t, e := ExamplesText(rows), FormatExample(rows[last]);
      |e| <= |t| && t[|t| - |e|..] == e
  {
    ExamplesFirst(rows, first);
    ExamplesLast(rows, last);
    var ex := Examples(rows);
    var j := Join(Separator, ex);
    assert ExamplesText(rows) == Header + j;
    JoinEnds(Separator, ex);
    PrefixAfterHeader(j, FormatExample(rows[first]));
    SuffixOfConcat(Header, j, FormatExample(rows[last]));
  }

  /** Putting the header in front keeps a prefix a prefix. */
  lemma PrefixAfterHeader(j: string, e: string)
    requires e <= j
    ensures Header + e <= Header + j
  {
    assert forall k :: 0 <= k < |Header| + |e| ==> (Header + e)[k] == (Header + j)[k];
  }
}
