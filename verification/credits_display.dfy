/**
  The `GET /credits` handler of the credit-distribution report
  (backend/routes/creditsDisplayRoutes.js).

  Given a department and a semester taken from the query string, the handler
  validates them, looks up the matching course rows (credits and category),
  and answers with one entry per row carrying the row's category, its credits
  and its share of the total credits as a percentage. The lookup is an input
  of the model: a function from the bound parameters to either the rows it
  returned or a failure.
 */
module CreditsDisplay {
  import opened Wrappers
  import ParseInt

  /** One row of the lookup result: the `credits` and `category` columns. */
  datatype Row = Row(credits: int, category: string)

  /** What the parameterised lookup produced: rows, or a thrown error. */
  datatype QueryResult = Rows(rows: seq<Row>) | QueryFailed

  /** The lookup bound with (department, semester); it filters the course
      table on both columns. */
  type Lookup = (string, int) -> QueryResult

  /** The two query-string parameters; None is an absent parameter
      (JavaScript's undefined). */
  datatype Request = Request(department: Option<string>, semester: Option<string>)

  /** The parameters after validation, as they are bound to the lookup. */
  datatype Params = Params(department: string, semester: int)

  /** The value of `credits / total * 100` under JavaScript division: an exact
      quotient when the total is non-zero; NaN for 0 / 0; an infinity of the
      numerator's sign for a non-zero numerator over 0. */
  datatype Percentage = Exact(value: real) | NaN | Infinity(negative: bool)

  /** One element of the response array. */
  datatype Entry = Entry(category: string, credits: int, percentage: Percentage)

  /** The four answers of the handler. */
  datatype Response = BadRequest | NotFound | ServerError | Ok(entries: seq<Entry>) {

    /** The HTTP status code sent with the answer. */
    function Status(): int {
      match this
      case BadRequest => 400
      case NotFound => 404
      case ServerError => 500
      case Ok(_) => 200
    }

    /** The `message` field of the JSON body sent with an error answer. */
    function Message(): string
      requires !Ok?
    {
      match this
      case BadRequest => "Missing department or invalid semester parameter"
      case NotFound => "No courses found for the selected department and semester"
      case ServerError => "Error retrieving course credits"
    }
  }

  /** JavaScript truthiness of the department parameter: undefined and the
      empty string are falsy, every other string is truthy. */
  predicate IsTruthy(department: Option<string>) {
    department.Some? && |department.value| > 0
  }

  /** The text parseInt reads: ToString of the parameter, which is
      "undefined" for an absent one. */
  function SemesterText(semester: Option<string>): string {
    semester.GetOr("undefined")
  }

  /** Request validation: the department must be truthy and the semester must
      parse with parseInt(_, 10) to something other than NaN. No range check
      is made on the semester. */
  function Validate(req: Request): (p: Option<Params>)
    ensures p.Some? <==> IsTruthy(req.department) && ParseInt.HasIntegerPrefix(SemesterText(req.semester))
    ensures p.Some? ==> Some(p.value.department) == req.department
    ensures p.Some? ==> Some(p.value.semester) == ParseInt.ParseInt10(SemesterText(req.semester))
  {
    ParseInt.AcceptsExactly(SemesterText(req.semester));
    var semester := ParseInt.ParseInt10(SemesterText(req.semester));
    if !IsTruthy(req.department) || semester.None? then None
    else Some(Params(req.department.value, semester.value))
  }

  /** The total credits of the rows, accumulated left to right from 0 as
      `Array.prototype.reduce` does. */
  function TotalCredits(rows: seq<Row>): int {
    if |rows| == 0 then 0
    else TotalCredits(rows[..|rows| - 1]) + rows[|rows| - 1].credits
  }

  /** `credits / total * 100` with JavaScript's division by zero. */
  function PercentOf(credits: int, total: int): (p: Percentage)
    ensures total != 0 <==> p.Exact?
    ensures p.Exact? ==> p.value * (total as real) == (credits as real) * 100.0
    ensures p.NaN? <==> total == 0 && credits == 0
    ensures p.Infinity? ==> p.negative == (credits < 0)
  {
    if total != 0 then Exact(credits as real / total as real * 100.0)
    else if credits == 0 then NaN
    else Infinity(credits < 0)
  }

  /** The response array: one entry per row, in row order, with category and
      credits copied and the row's share of `total`. */
  function Breakdown(rows: seq<Row>, total: int): (es: seq<Entry>)
    ensures |es| == |rows|
    ensures forall i :: 0 <= i < |rows| ==>
      es[i].category == rows[i].category && es[i].credits == rows[i].credits
    ensures forall i :: 0 <= i < |rows| ==> es[i].percentage == PercentOf(rows[i].credits, total)
  {
    if |rows| == 0 then []
    else
      var first := Entry(rows[0].category, rows[0].credits, PercentOf(rows[0].credits, total));
      [first] + Breakdown(rows[1..], total)
  }

  /** The route callback: validate, look up, reject an empty result, then
      compute the breakdown against the total credits. A failed lookup is
      caught and answered with a server error. */
  function Handle(req: Request, lookup: Lookup): (r: Response)
    ensures r.BadRequest? <==>
      !IsTruthy(req.department) || ParseInt.ParseInt10(SemesterText(req.semester)).None?
    ensures !r.BadRequest? ==>
      var bound := lookup(req.department.value, ParseInt.ParseInt10(SemesterText(req.semester)).value);
      && (r.ServerError? <==> bound.QueryFailed?)
      && (r.NotFound? <==> bound == Rows([]))
      && (r.Ok? ==> bound.Rows? && |r.entries| == |bound.rows| > 0)
  {
    match Validate(req)
    case None => BadRequest
    case Some(p) =>
      match lookup(p.department, p.semester)
      case QueryFailed => ServerError
      case Rows(rows) =>
        if |rows| == 0 then NotFound
        else Ok(Breakdown(rows, TotalCredits(rows)))
  }
}
