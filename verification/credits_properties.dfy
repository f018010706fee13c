/**
  Properties of the `GET /credits` handler: which answer each request gets,
  that the lookup is consulted only after validation and only with the
  validated parameters, that the success answer mirrors the rows one to one,
  and what the percentages add up to.
 */
module CreditsProperties {
  import opened Wrappers
  import ParseInt
  import opened CreditsDisplay

  /** The request passes validation with semester `n`. */
  predicate ValidWith(req: Request, n: int) {
    IsTruthy(req.department) && ParseInt.ParseInt10(SemesterText(req.semester)) == Some(n)
  }

  // ---------------------------------------------------------------------------
  // Status decision
  // ---------------------------------------------------------------------------

  /** The answer is a bad request exactly when the department is absent or
      empty, or the semester text has no integer prefix. */
  lemma BadRequestExactly(req: Request, lookup: Lookup)
    ensures Handle(req, lookup) == BadRequest <==>
      !IsTruthy(req.department) || !ParseInt.HasIntegerPrefix(SemesterText(req.semester))
  {
  }

  /** A request that fails validation gets the same answer whatever the
      lookup would return: the lookup is not consulted. */
  lemma InvalidRequestSkipsLookup(req: Request, lookup1: Lookup, lookup2: Lookup)
    requires !IsTruthy(req.department) || !ParseInt.HasIntegerPrefix(SemesterText(req.semester))
    ensures Handle(req, lookup1) == BadRequest
    ensures Handle(req, lookup1) == Handle(req, lookup2)
  {
  }

  /** A valid request is answered from the lookup bound with the department
      as given and the parsed semester, and from nothing else. */
  lemma LookupBoundWithParams(req: Request, n: int, lookup1: Lookup, lookup2: Lookup)
    requires ValidWith(req, n)
    requires lookup1(req.department.value, n) == lookup2(req.department.value, n)
    ensures Handle(req, lookup1) == Handle(req, lookup2)
  {
  }

  /** A valid request gets "not found" exactly when the lookup returns no
      rows; an empty success array is never sent. */
  lemma NotFoundExactly(req: Request, n: int, lookup: Lookup)
    requires ValidWith(req, n)
    ensures Handle(req, lookup) == NotFound <==> lookup(req.department.value, n) == Rows([])
    ensures Handle(req, lookup) != Ok([])
  {
  }

  /** A valid request gets a server error exactly when the lookup fails. */
  lemma ServerErrorExactly(req: Request, n: int, lookup: Lookup)
    requires ValidWith(req, n)
    ensures Handle(req, lookup) == ServerError <==> lookup(req.department.value, n).QueryFailed?
  {
  }

  /** The three error answers carry distinct status codes and messages. */
  lemma ErrorAnswersDistinct(a: Response, b: Response)
    requires !a.Ok? && !b.Ok? && a != b
    ensures a.Status() != b.Status()
    ensures a.Message() != b.Message()
  {
  }

  // ---------------------------------------------------------------------------
  // Shape of the success answer
  // ---------------------------------------------------------------------------

  /** The rows an entry sequence was computed from: category and credits of
      each entry, in order. */
  function RowsOf(es: seq<Entry>): (rows: seq<Row>)
    ensures |rows| == |es|
  {
    if |es| == 0 then [] else [Row(es[0].credits, es[0].category)] + RowsOf(es[1..])
  }

  /** Dropping the percentages from the breakdown gives back the rows
      exactly: nothing is merged, reordered, added or altered. */
  lemma {:induction false} BreakdownKeepsRows(rows: seq<Row>, total: int)
    ensures RowsOf(Breakdown(rows, total)) == rows
  {
    if |rows| > 0 {
      var es := Breakdown(rows, total);
      BreakdownKeepsRows(rows[1..], total);
      assert es[1..] == Breakdown(rows[1..], total);
    }
  }

  /** A valid request whose lookup returns rows gets one entry per row, in
      row order, with the row's category and credits and its percentage of
      the total credits. */
  lemma OkEntriesMatchRows(req: Request, n: int, lookup: Lookup, rows: seq<Row>)
    requires ValidWith(req, n)
    requires lookup(req.department.value, n) == Rows(rows) && |rows| > 0
    ensures Handle(req, lookup).Ok?
    ensures RowsOf(Handle(req, lookup).entries) == rows
    ensures forall i :: 0 <= i < |rows| ==>
      Handle(req, lookup).entries[i].percentage == PercentOf(rows[i].credits, TotalCredits(rows))
  {
    BreakdownKeepsRows(rows, TotalCredits(rows));
  }

  // ---------------------------------------------------------------------------
  // Totals and percentages
  // ---------------------------------------------------------------------------

  /** The left-to-right total splits over concatenation. */
  lemma {:induction false} TotalCreditsConcat(a: seq<Row>, b: seq<Row>)
    ensures TotalCredits(a + b) == TotalCredits(a) + TotalCredits(b)
    decreases |b|
  {
    if |b| > 0 {
      var b' := b[..|b| - 1];
      assert (a + b)[..|a + b| - 1] == a + b';
      TotalCreditsConcat(a, b');
    } else {
      assert a + b == a;
    }
  }

  /** The total is the first row's credits plus the total of the rest. */
  lemma TotalCreditsCons(rows: seq<Row>)
    requires |rows| > 0
    ensures TotalCredits(rows) == rows[0].credits + TotalCredits(rows[1..])
  {
    assert rows == [rows[0]] + rows[1..];
    TotalCreditsConcat([rows[0]], rows[1..]);
  }

  /** Sum of the credits column of the response. */
  function EntryCredits(es: seq<Entry>): int {
    if |es| == 0 then 0 else es[0].credits + EntryCredits(es[1..])
  }

  /** The credits in the response add up to the total credits of the rows. */
  lemma {:induction false} CreditsConserved(rows: seq<Row>, total: int)
    ensures EntryCredits(Breakdown(rows, total)) == TotalCredits(rows)
  {
    if |rows| > 0 {
      var es := Breakdown(rows, total);
      assert es[1..] == Breakdown(rows[1..], total);
      CreditsConserved(rows[1..], total);
      TotalCreditsCons(rows);
    }
  }

  /** Every percentage in the sequence is a finite number. */
  predicate AllExact(es: seq<Entry>) {
    forall i :: 0 <= i < |es| ==> es[i].percentage.Exact?
  }

  /** Sum of the percentage column, when every percentage is finite. */
  function PercentSum(es: seq<Entry>): real
    requires AllExact(es)
  {
    if |es| == 0 then 0.0 else es[0].percentage.value + PercentSum(es[1..])
  }

  /** A row's percentage against a non-zero total, as a real number. */
  function Share(credits: int, total: int): real
    requires total != 0
  {
    credits as real / total as real * 100.0
  }

  /** Shares of the same total add up. */
  lemma ShareAdd(a: int, b: int, total: int)
    requires total != 0
    ensures Share(a, total) + Share(b, total) == Share(a + b, total)
  {
    var t := total as real;
    assert a as real / t + b as real / t == (a + b) as real / t;
  }

  /** The whole is 100 percent of itself. */
  lemma ShareOfWhole(total: int)
    requires total != 0
    ensures Share(total, total) == 100.0
  {
    var t := total as real;
    assert t / t == 1.0;
  }

  /** Against a non-zero total, the percentages add up to the rows' credits
      as a share of that total. */
  lemma {:induction false} PercentSumIsShare(rows: seq<Row>, total: int)
    requires total != 0
    ensures AllExact(Breakdown(rows, total))
    ensures PercentSum(Breakdown(rows, total)) == Share(TotalCredits(rows), total)
  {
    var es := Breakdown(rows, total);
    assert AllExact(es);
    if |rows| > 0 {
      var rest := Breakdown(rows[1..], total);
      assert es[1..] == rest;
      PercentSumIsShare(rows[1..], total);
      assert es[0].percentage.value == Share(rows[0].credits, total);
      TotalCreditsCons(rows);
      ShareAdd(rows[0].credits, TotalCredits(rows[1..]), total);
    }
  }

  /** When the total credits are not zero, the percentages of the response
      are all finite and add up to exactly 100. */
  lemma PercentagesSumTo100(rows: seq<Row>)
    requires TotalCredits(rows) != 0
    ensures AllExact(Breakdown(rows, TotalCredits(rows)))
    ensures PercentSum(Breakdown(rows, TotalCredits(rows))) == 100.0
  {
    PercentSumIsShare(rows, TotalCredits(rows));
    ShareOfWhole(TotalCredits(rows));
  }

  /** A valid request whose rows have a non-zero total is answered with
      finite percentages that add up to exactly 100. */
  lemma ResponsePercentagesSumTo100(req: Request, n: int, lookup: Lookup, rows: seq<Row>)
    requires ValidWith(req, n)
    requires lookup(req.department.value, n) == Rows(rows) && TotalCredits(rows) != 0
    ensures Handle(req, lookup).Ok?
    ensures AllExact(Handle(req, lookup).entries)
    ensures PercentSum(Handle(req, lookup).entries) == 100.0
  {
    PercentagesSumTo100(rows);
  }

  /** With no negative credits, each row's credits are at most the total. */
  lemma {:induction false} CreditsAtMostTotal(rows: seq<Row>, i: int)
    requires forall j :: 0 <= j < |rows| ==> rows[j].credits >= 0
    requires 0 <= i < |rows|
    ensures 0 <= rows[i].credits <= TotalCredits(rows)
    ensures TotalCredits(rows) >= 0
    decreases |rows|
  {
    var init := rows[..|rows| - 1];
    if i < |rows| - 1 {
      CreditsAtMostTotal(init, i);
    } else if |init| > 0 {
      CreditsAtMostTotal(init, 0);
    }
  }

  /** A finite percentage between 0 and 100. */
  predicate InPercentRange(p: Percentage) {
    p.Exact? && 0.0 <= p.value <= 100.0
  }

  /** A share of a positive total no larger than the total is a percentage
      between 0 and 100. */
  lemma ShareWithinBounds(credits: int, total: int)
    requires 0 <= credits <= total && total > 0
    ensures InPercentRange(PercentOf(credits, total))
  {
    var v := PercentOf(credits, total).value;
    var t := total as real;
    assert v * t == (credits as real) * 100.0;
    assert (100.0 - v) * t == (t - credits as real) * 100.0;
  }

  /** With no negative credits and a positive total, the entry of row `i`
      has a percentage between 0 and 100. */
  lemma {:induction false} EntryWithinBounds(rows: seq<Row>, i: int)
    requires forall j :: 0 <= j < |rows| ==> rows[j].credits >= 0
    requires TotalCredits(rows) > 0
    requires 0 <= i < |rows|
    ensures InPercentRange(Breakdown(rows, TotalCredits(rows))[i].percentage)
  {
    var total := TotalCredits(rows);
    CreditsAtMostTotal(rows, i);
    ShareWithinBounds(rows[i].credits, total);
    assert Breakdown(rows, total)[i].percentage == PercentOf(rows[i].credits, total);
  }

  /** With no negative credits and a positive total, every percentage of the
      response lies between 0 and 100. */
  lemma PercentagesWithinBounds(rows: seq<Row>)
    requires forall j :: 0 <= j < |rows| ==> rows[j].credits >= 0
    requires TotalCredits(rows) > 0
    ensures forall i :: 0 <= i < |rows| ==> InPercentRange(Breakdown(rows, TotalCredits(rows))[i].percentage)
  {
    forall i | 0 <= i < |rows| {
      EntryWithinBounds(rows, i);
    }
  }

  /** A valid request whose rows have no negative credits and a positive
      total is answered with percentages that all lie between 0 and 100. */
  lemma ResponsePercentagesWithinBounds(req: Request, n: int, lookup: Lookup, rows: seq<Row>)
    requires ValidWith(req, n)
    requires lookup(req.department.value, n) == Rows(rows)
    requires forall j :: 0 <= j < |rows| ==> rows[j].credits >= 0
    requires TotalCredits(rows) > 0
    ensures Handle(req, lookup).Ok?
    ensures forall i :: 0 <= i < |Handle(req, lookup).entries| ==>
      InPercentRange(Handle(req, lookup).entries[i].percentage)
  {
    PercentagesWithinBounds(rows);
  }

  /** Rows that all have zero credits total zero. */
  lemma {:induction false} ZeroCreditsTotalZero(rows: seq<Row>)
    requires forall j :: 0 <= j < |rows| ==> rows[j].credits == 0
    ensures TotalCredits(rows) == 0
  {
    if |rows| > 0 {
      ZeroCreditsTotalZero(rows[..|rows| - 1]);
    }
  }

  /** When every matched row has zero credits the total is zero, and the
      response still succeeds, with every percentage NaN. */
  lemma AllZeroCreditsGiveNaN(req: Request, n: int, lookup: Lookup, rows: seq<Row>)
    requires ValidWith(req, n)
    requires lookup(req.department.value, n) == Rows(rows) && |rows| > 0
    requires forall j :: 0 <= j < |rows| ==> rows[j].credits == 0
    ensures Handle(req, lookup).Ok?
    ensures forall i :: 0 <= i < |rows| ==> Handle(req, lookup).entries[i].percentage == NaN
  {
    ZeroCreditsTotalZero(rows);
  }

  /** When the credits cancel out to a zero total, no percentage of the
      response is finite: zero-credit rows get NaN and the others an
      infinity of their credits' sign. */
  lemma ZeroTotalNotFinite(rows: seq<Row>)
    requires TotalCredits(rows) == 0
    ensures forall i :: 0 <= i < |rows| ==>
      var p := Breakdown(rows, 0)[i].percentage;
      && !p.Exact?
      && (p.NaN? <==> rows[i].credits == 0)
      && (p.Infinity? ==> p.negative == (rows[i].credits < 0))
  {
  }

  // ---------------------------------------------------------------------------
  // Worked requests
  // ---------------------------------------------------------------------------

  /** Department "CSE", semester "3", rows 4 credits Core and 2 credits
      Elective: two entries, two thirds and one third of the total. */
  lemma TwoCategoryRequest(lookup: Lookup)
    requires lookup("CSE", 3) == Rows([Row(4, "Core"), Row(2, "Elective")])
    ensures Handle(Request(Some("CSE"), Some("3")), lookup) ==
      Ok([Entry("Core", 4, Exact(200.0 / 3.0)), Entry("Elective", 2, Exact(100.0 / 3.0))])
  {
    assert ParseInt.ParseInt10("3") == Some(3) by {
      ParseInt.ParseIntRoundTrip(3, "");
      assert ParseInt.IntToString(3) + "" == "3";
    }
    var rows := [Row(4, "Core"), Row(2, "Elective")];
    assert TotalCredits(rows) == 6 by {
      assert rows[..1] == [Row(4, "Core")];
    }
  }

  /** A semester outside 1 to 8 passes validation; with no matching rows the
      answer is "not found". */
  lemma NoRowsRequest(lookup: Lookup)
    requires lookup("CSE", 9) == Rows([])
    ensures Handle(Request(Some("CSE"), Some("9")), lookup) == NotFound
  {
    assert ParseInt.ParseInt10("9") == Some(9) by {
      ParseInt.ParseIntRoundTrip(9, "");
      assert ParseInt.IntToString(9) + "" == "9";
    }
  }

  /** A non-numeric semester is a bad request. */
  lemma NonNumericSemesterRequest(lookup: Lookup)
    ensures Handle(Request(Some("CSE"), Some("abc")), lookup) == BadRequest
  {
    ParseInt.LettersRejected();
  }
}
