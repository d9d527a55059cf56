/** `MyFrame`: the main window's state. It keeps the table, the examples
    block, one pre-generated reply per row and the index of the page shown,
    and binds three display slots to the rows of that page. Widgets,
    layout and the browser hand-off are not modelled. */
module Pager {
  import opened Wrappers
  import opened ReviewTable
  import opened ExamplePrompt
  import opened Drafter

  const PageSize: nat := 3

  /** What one review panel shows: the bound row (`None` for the empty
      record `{}`) and the reply text in its edit box. */
  datatype Slot = Slot(row: Option<Review>, response: string)

  /** The page index is 0, or a page whose first row exists. This is the
      same as `0 <= page <= LastPage(n)` (see `PageInRangeIff`). */
  predicate PageInRange(page: int, n: nat) {
    0 <= page && (page == 0 || page * PageSize < n)
  }

  /** The last page, ceil(n / 3) - 1, or 0 for an empty table. */
  function LastPage(n: nat): nat {
    if n == 0 then 0 else (n - 1) / PageSize
  }

  /** `on_previous`: one page back unless already on the first. */
  function PrevPage(page: int): (p: int)
    ensures page > 0 ==> p == page - 1
    ensures page <= 0 ==> p == page
  {
    if page > 0 then page - 1 else page
  }

  /** `on_next`: one page forward when the next page's first row exists. */
  function NextPage(page: int, n: nat): (p: int)
    ensures (page + 1) * PageSize < n ==> p == page + 1
    ensures (page + 1) * PageSize >= n ==> p == page
  {
    if (page + 1) * PageSize < n then page + 1 else page
  }

  /** Slot `i` of page `page`: row `page * 3 + i` and its reply when that
      row exists, and the cleared slot otherwise. */
  function SlotFor(data: seq<Review>, responses: seq<string>, page: nat, i: nat): (slot: Slot)
    requires |responses| == |data|
    ensures slot.row.Some? <==> page * PageSize + i < |data|
    ensures slot.row.None? ==> slot.response == ""
  {
    var k := page * PageSize + i;
    if k < |data| then Slot(Some(data[k]), responses[k]) else Slot(None, "")
  }

  /** The three slots of a page. */
  function PageView(data: seq<Review>, responses: seq<string>, page: nat): (v: seq<Slot>)
    requires |responses| == |data|
    ensures |v| == PageSize
  {
    [SlotFor(data, responses, page, 0), SlotFor(data, responses, page, 1), SlotFor(data, responses, page, 2)]
  }

  /** The reply drafted for row `i` with the default number of retries
      and the shared examples block; `service[i]` scripts the completion
      service for that row, and rows beyond it see a service that always
      fails. */
  function DraftedReply(data: seq<Review>, examples: string, service: seq<seq<Outcome>>, i: nat): string
    requires i < |data|
  {
    DraftSpec(Message(examples, data[i].author, data[i].reviewText), DefaultMaxRetries, RowService(service, i)).reply.GetOr("")
  }

  /** The pre-generation loop of `MyFrame.__init__`: one reply per row, in
      row order, so that entry `i` is the reply drafted for row `i`. */
  method PregenerateResponses(data: seq<Review>, examples: string, service: seq<seq<Outcome>>)
    returns (responses: seq<string>)
    ensures |responses| == |data|
    ensures forall i :: 0 <= i < |data| ==> responses[i] == DraftedReply(data, examples, service, i)
  {
    ghost var expected := seq(|data|, j requires 0 <= j < |data| => DraftedReply(data, examples, service, j));
    responses := [];
    for i := 0 to |data|
      invariant responses == expected[..i]
    {
      var row := data[i];
      var aiText, _, _ := GenerateResponse(row.author, row.reviewText, examples,
                                           DefaultMaxRetries, RowService(service, i));
      DraftedReplyIsDraft(data, examples, service, i);
      assert expected[..i + 1] == expected[..i] + [expected[i]];
      responses := responses + [aiText.value];
    }
    assert responses == expected;
  }

  /** The drafted reply is exactly what `generate_ai_response` returns for
      the row with the default three retries (never `None`). */
  lemma DraftedReplyIsDraft(data: seq<Review>, examples: string, service: seq<seq<Outcome>>, i: nat)
    requires i < |data|
    ensures Some(DraftedReply(data, examples, service, i)) ==
            DraftSpec(Message(examples, data[i].author, data[i].reviewText), DefaultMaxRetries, RowService(service, i)).reply
  {
  }

  /** The scripted service outcomes for row `i`. */
  function RowService(service: seq<seq<Outcome>>, i: nat): seq<Outcome>
  {
    if i < |service| then service[i] else []
  }

  /** The page indices `on_next` and `on_previous` can reach are exactly
      0 .. LastPage(n). */
  lemma PageInRangeIff(page: int, n: nat)
    ensures PageInRange(page, n) <==> 0 <= page <= LastPage(n)
  {
    if n > 0 && page > 0 {
      if page * PageSize < n {
        assert page * PageSize <= n - 1;
        assert page <= (n - 1) / PageSize;
      }
      if page <= (n - 1) / PageSize {
        assert page * PageSize <= ((n - 1) / PageSize) * PageSize <= n - 1;
      }
    }
  }

  /** Both moves keep the page in range; each is a no-op exactly at its
      bound, the first page for `on_previous` and the last for `on_next`. */
  lemma MovesStayInRange(page: int, n: nat)
    requires PageInRange(page, n)
    ensures PageInRange(PrevPage(page), n) && PageInRange(NextPage(page, n), n)
    ensures PrevPage(page) == page <==> page == 0
    ensures NextPage(page, n) == page <==> page == LastPage(n)
  {
    PageInRangeIff(page, n);
    PageInRangeIff(page + 1, n);
  }

  /** The page reached by pressing Next `k` times on a fresh window. */
  function Forward(k: nat, n: nat): int
  {
    if k == 0 then 0 else NextPage(Forward(k - 1, n), n)
  }

  /** Pressing Next `k` times goes `k` pages forward, stopping at the last. */
  lemma {:induction false} ForwardStopsAtLast(k: nat, n: nat)
    ensures Forward(k, n) == if k <= LastPage(n) then k else LastPage(n)
  {
    if k > 0 {
      ForwardStopsAtLast(k - 1, n);
      var p := Forward(k - 1, n);
      PageInRangeIff(p, n);
      MovesStayInRange(p, n);
      PageInRangeIff(p + 1, n);
    }
  }

  /** Every row is shown on page `k / 3` in slot `k % 3`, next to its own
      reply, and that page is reachable. */
  lemma RowOnItsPage(data: seq<Review>, responses: seq<string>, k: nat)
    requires |responses| == |data| && k < |data|
    ensures PageInRange(k / PageSize, |data|)
    ensures PageView(data, responses, k / PageSize)[k % PageSize] == Slot(Some(data[k]), responses[k])
  {
    assert (k / PageSize) * PageSize + k % PageSize == k;
  }

  /** `update_reviews` slot by slot: slot `i` is bound exactly when row
      `page * 3 + i` exists, then to that row and its reply; otherwise it is
      cleared to the empty record and "". */
  lemma PageViewSlots(data: seq<Review>, responses: seq<string>, page: nat)
    requires |responses| == |data|
    ensures var v := PageView(data, responses, page);
      forall i :: 0 <= i < PageSize ==>
        && (v[i].row.Some? <==> page * PageSize + i < |data|)
        && (page * PageSize + i < |data| ==> v[i] == Slot(Some(data[page * PageSize + i]), responses[page * PageSize + i]))
        && (page * PageSize + i >= |data| ==> v[i] == Slot(None, ""))
  {
  }

  /** The rows of the bound slots, in slot order. */
  function BoundRows(v: seq<Slot>): seq<Review>
  {
    if v == [] then [] else (if v[0].row.Some? then [v[0].row.value] else []) + BoundRows(v[1..])
  }

  /** A page shows the table's rows `3p .. 3p+2` that exist, in row order,
      and nothing else. */
  lemma PageShowsSlice(data: seq<Review>, responses: seq<string>, page: nat)
    requires |responses| == |data|
    ensures var lo := if page * PageSize < |data| then page * PageSize else |data|;
      var hi := if page * PageSize + PageSize < |data| then page * PageSize + PageSize else |data|;
      BoundRows(PageView(data, responses, page)) == data[lo..hi]
  {
    var v := PageView(data, responses, page);
    var b := page * PageSize;
    assert v[1..][1..][1..] == [];
    assert BoundRows(v[1..][1..]) == (if b + 2 < |data| then [data[b + 2]] else []);
    assert BoundRows(v[1..]) == (if b + 1 < |data| then [data[b + 1]] else []) + BoundRows(v[1..][1..]);
    if b + 2 < |data| {
      assert data[b..b + 3] == [data[b], data[b + 1], data[b + 2]];
    } else if b + 1 < |data| {
      assert data[b..b + 2] == [data[b], data[b + 1]];
    } else if b < |data| {
      assert data[b..b + 1] == [data[b]];
    }
  }

  class ReviewBrowser {
    var data: seq<Review>
    var examples: string
    var responses: seq<string>
    var currentPage: int
    const slots: array<Slot>

    /** The window's invariant: one reply per row, the page in range, and
        the slots showing that page. */
    ghost predicate Valid()
      reads this, slots
    {
      && slots.Length == PageSize
      && |responses| == |data|
      && PageInRange(currentPage, |data|)
      && slots[..] == PageView(data, responses, currentPage)
    }

    /** `MyFrame.__init__` after the table is read: builds the examples from
        the answered rows, drafts every reply, starts on page 0 and fills
        the slots. */
    constructor (table: seq<Review>, service: seq<seq<Outcome>>)
      ensures Valid() && fresh(slots)
      ensures data == table && currentPage == 0
      ensures examples == ExamplesText(Answered(table))
      ensures forall i :: 0 <= i < |table| ==> responses[i] == DraftedReply(table, examples, service, i)
    {
      var examplesStr := BuildExamplesString(Answered(table));
      var drafted := PregenerateResponses(table, examplesStr, service);
      data, examples, responses := table, examplesStr, drafted;
      currentPage := 0;
      slots := new Slot[PageSize](_ => Slot(None, ""));
      new;
      UpdateReviews();
    }

    /** `update_reviews`: binds slot `i` to row `page * 3 + i` and its reply,
        or clears it past the end of the table. */
    method UpdateReviews()
      requires slots.Length == PageSize && |responses| == |data| && currentPage >= 0
      modifies slots
      ensures slots[..] == PageView(data, responses, currentPage)
    {
      var startIndex := currentPage * PageSize;
      for i := 0 to PageSize
        invariant forall j :: 0 <= j < i ==> slots[j] == SlotFor(data, responses, currentPage, j)
      {
        var slot: Slot;
        if startIndex + i < |data| {
          var row := data[startIndex + i];
          var responseIndex := startIndex + i;
          var responseText := responses[responseIndex];
          slot := Slot(Some(row), responseText);
        } else {
          slot := Slot(None, "");
        }
        slots[i] := slot;
      }
    }

    /** `on_previous`. */
    method OnPrevious()
      requires Valid()
      modifies this, slots
      ensures Valid()
      ensures currentPage == PrevPage(old(currentPage))
      ensures data == old(data) && responses == old(responses) && examples == old(examples)
    {
      if currentPage > 0 {
        currentPage := currentPage - 1;
        UpdateReviews();
      }
    }

    /** `on_next`. */
    method OnNext()
      requires Valid()
      modifies this, slots
      ensures Valid()
      ensures currentPage == NextPage(old(currentPage), |data|)
      ensures data == old(data) && responses == old(responses) && examples == old(examples)
    {
      if (currentPage + 1) * PageSize < |data| {
        currentPage := currentPage + 1;
        UpdateReviews();
      }
    }
  }
}
