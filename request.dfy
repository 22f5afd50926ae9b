/** The decision flow of the `/process_data` handler (main.py): an empty
    body is refused; otherwise the nine fields are extracted and the
    `data_dict` literal is evaluated, which names five variables the handler
    never assigns. Evaluating the literal raises `NameError` at the first of
    them, and the catch-all handler returns the exception's text as a plain
    response, so the store is never reached. The store itself is database
    I/O and is a parameter here; its outcome is `True` or the error text. */
module ProcessData {
  import opened Wrappers
  import opened FieldExtractor
  import opened InsertQuery

  /** What the handler returns: a JSON object with one key and a status, or
      a bare string, which Flask sends with status 200. */
  datatype Response =
    | JsonResponse(status: nat, key: string, message: string)
    | TextResponse(body: string)

  /** The HTTP status of a response. */
  function Status(r: Response): nat
  {
    match r
    case JsonResponse(status, _, _) => status
    case TextResponse(_) => 200
  }

  /** `store_data_in_database` returns `True`, or `str(e)` for the exception it caught. */
  datatype StoreOutcome = Stored | StoreError(message: string)

  /** `if success:` on that outcome: `True` and every non-empty string are true. */
  predicate StoreTruthy(o: StoreOutcome)
  {
    o.Stored? || o.message != ""
  }

  /** The response chosen from the store's outcome. */
  function StoreResponse(o: StoreOutcome): Response
  {
    if StoreTruthy(o) then JsonResponse(200, "message", "Data received and stored successfully")
    else JsonResponse(500, "error", "Failed to store data in the database")
  }

  /** The value expression of a dict entry: a variable the handler assigned,
      with its value, or a name it never assigned. */
  datatype Binding = Bound(value: Option<string>) | Unbound(name: string)

  /** The text of the `NameError` raised by looking up an unassigned name. */
  function NameError(name: string): string
  {
    "name '" + name + "' is not defined"
  }

  /** Evaluates a dict literal entry by entry, left to right: the entries in
      order when every name is bound, else the error for the first unbound
      name. */
  function EvalDict(b: seq<(string, Binding)>): (r: Result<seq<Entry>, string>)
    ensures r.Ok? <==> forall i :: 0 <= i < |b| ==> b[i].1.Bound?
    ensures r.Ok? ==> |r.value| == |b| && forall i :: 0 <= i < |b| ==> r.value[i] == (b[i].0, b[i].1.value)
    ensures r.Err? ==> exists i :: 0 <= i < |b| && b[i].1.Unbound? && r.error == NameError(b[i].1.name)
                                   && forall j :: 0 <= j < i ==> b[j].1.Bound?
  {
    if b == [] then Ok([])
    else match b[0].1
      case Unbound(n) => Err(NameError(n))
      case Bound(v) =>
        match EvalDict(b[1..])
        case Err(m) =>
          var i :| 0 <= i < |b[1..]| && b[1..][i].1.Unbound? && m == NameError(b[1..][i].1.name)
            && forall j :: 0 <= j < i ==> b[1..][j].1.Bound?;
          assert b[i + 1] == b[1..][i];
          Err(m)
        case Ok(rest) => Ok([(b[0].0, v)] + rest)
  }

  /** The names the literal uses after the nine fields; nothing in the
      handler assigns them. */
  const UnassignedNames: seq<string> := ["interview_round", "job_title", "email_id", "contact_number", "duration"]

  /** The `data_dict` literal: the nine extracted fields, in extraction
      order, each under its key, then the five unassigned names, each under
      a key equal to its name. */
  function DataDictLiteral(text: string): seq<(string, Binding)>
  {
    seq(|ExtractionOrder|, i requires 0 <= i < |ExtractionOrder| =>
      (Key(ExtractionOrder[i]), Bound(FieldValue(text, ExtractionOrder[i]))))
    + seq(|UnassignedNames|, i requires 0 <= i < |UnassignedNames| =>
      (UnassignedNames[i], Unbound(UnassignedNames[i])))
  }

  /** `process_data` on a decoded request body, with `store` standing for
      `store_data_in_database`. */
  function HandleRequest(body: string, store: seq<Entry> -> StoreOutcome): Response
  {
    if body == [] then JsonResponse(400, "error", "No data provided")
    else match EvalDict(DataDictLiteral(body))
      case Err(message) => TextResponse(message)
      case Ok(dataDict) => StoreResponse(store(dataDict))
  }

  /** Evaluation stops at the first unbound name. */
  lemma EvalDictStopsAt(b: seq<(string, Binding)>, k: nat)
    requires k < |b| && b[k].1.Unbound? && forall j :: 0 <= j < k ==> b[j].1.Bound?
    ensures EvalDict(b) == Err(NameError(b[k].1.name))
  {
    var r := EvalDict(b);
    var i :| 0 <= i < |b| && b[i].1.Unbound? && r.error == NameError(b[i].1.name)
      && forall j :: 0 <= j < i ==> b[j].1.Bound?;
    assert !(i < k) && !(k < i);
  }

  /** The literal's first unassigned name comes right after the nine bound
      fields, so evaluating it always raises for that name. */
  lemma DataDictRaises(text: string)
    ensures EvalDict(DataDictLiteral(text)) == Err(NameError(UnassignedNames[0]))
  {
    var b := DataDictLiteral(text);
    assert |ExtractionOrder| == 9;
    assert b[9] == (UnassignedNames[0], Unbound(UnassignedNames[0]));
    assert forall j :: 0 <= j < 9 ==> b[j].1.Bound?;
    EvalDictStopsAt(b, 9);
  }

  /** That name is `interview_round`. */
  lemma InterviewRoundError()
    ensures NameError(UnassignedNames[0]) == "name 'interview_round' is not defined"
  {
    assert UnassignedNames[0] == "interview_round";
  }

  /** Every non-empty body ends in the `NameError` for `interview_round`,
      returned as a plain 200 response, whatever the store would do; only
      the empty body gets the 400. */
  lemma HandleRequestOutcome(body: string, store: seq<Entry> -> StoreOutcome)
    ensures body == [] ==> HandleRequest(body, store) == JsonResponse(400, "error", "No data provided")
    ensures body != [] ==> HandleRequest(body, store) == TextResponse("name 'interview_round' is not defined")
    ensures Status(HandleRequest(body, store)) == if body == [] then 400 else 200
  {
    DataDictRaises(body);
    InterviewRoundError();
  }

  /** The store is never reached: two stores that behave differently give
      the same response to every body. */
  lemma StoreNeverReached(body: string, s1: seq<Entry> -> StoreOutcome, s2: seq<Entry> -> StoreOutcome)
    ensures HandleRequest(body, s1) == HandleRequest(body, s2)
  {
    HandleRequestOutcome(body, s1);
    HandleRequestOutcome(body, s2);
  }

  /** `if success:` reports a failure only for an error with an empty
      message: a store that failed with any message is answered with the
      success response. */
  lemma StoreErrorReadsAsSuccess(o: StoreOutcome)
    ensures Status(StoreResponse(o)) == 500 <==> o == StoreError("")
    ensures o != Stored && o != StoreError("") ==> StoreResponse(o) == StoreResponse(Stored)
  {
  }
}
