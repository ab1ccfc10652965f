/** The `client_queries` table and the statements that write to it: the
    single-row `INSERT` (with its `BEFORE INSERT` trigger, primary key and
    status enum), the client's submission and the support close action. */
module Tickets {
  import opened Common
  import opened QueryIds

  const StatusOpen: string := "Open"
  const StatusClosed: string := "Closed"

  /** One row of `client_queries`.  An empty `queryId` stands for both
      NULL and `''`, which the trigger treats alike; times are seconds on
      the local clock, `None` being NULL. */
  datatype Ticket = Ticket(
    queryId: string,
    email: Option<string>,
    mobile: Option<string>,
    heading: Option<string>,
    description: Option<string>,
    status: Option<string>,
    created: Option<int>,
    closed: Option<int>)

  /** The rows of `client_queries` in the order `SELECT *` returns them. */
  type Table = seq<Ticket>

  function Ids(t: Table): (ids: seq<string>)
    ensures |ids| == |t|
  {
    seq(|t|, i requires 0 <= i < |t| => t[i].queryId)
  }

  /** `query_id VARCHAR(10) PRIMARY KEY`. */
  predicate UniqueIds(t: Table) {
    forall i, j :: 0 <= i < j < |t| ==> t[i].queryId != t[j].queryId
  }

  /** `status ENUM('Open', 'Closed')`, a nullable column. */
  predicate ValidStatus(s: Option<string>) {
    s == None || s == Some(StatusOpen) || s == Some(StatusClosed)
  }

  /** The constraints the schema enforces on every stored row. */
  predicate Schema(t: Table) {
    UniqueIds(t) && forall i :: 0 <= i < |t| ==> ValidStatus(t[i].status)
  }

  /** Every stored id has the `Q` + digits shape the trigger can read. */
  predicate WellFormedIds(t: Table) {
    AllQIds(Ids(t))
  }

  /** The trigger's result is modelled only over a non-empty table of
      well-formed ids. */
  predicate TriggerDefined(t: Table) {
    |t| > 0 && WellFormedIds(t)
  }

  /** The id a new row is stored under: the supplied one when it is
      non-empty, otherwise the one the trigger generates. */
  function AssignedId(t: Table, requested: string): (id: string)
    requires requested != "" || TriggerDefined(t)
    ensures requested != "" ==> id == requested
    ensures requested == "" ==> IsQId(id) && |id| == 5
  {
    if requested == "" then TriggerId(Ids(t)) else requested
  }

  datatype InsertError = BadStatus(status: string) | DuplicateKey(id: string)

  /** A single-row `INSERT INTO client_queries`: a status outside the enum
      is refused, then the trigger fills an empty id, then a taken id is
      refused.  A successful insert appends exactly the new row. */
  function Insert(t: Table, row: Ticket): (r: Result<Table, InsertError>)
    requires row.queryId != "" || TriggerDefined(t)
    ensures r.Success? <==> ValidStatus(row.status) && AssignedId(t, row.queryId) !in Ids(t)
    ensures r.Success? ==> |r.value| == |t| + 1 && r.value[..|t|] == t
    ensures r.Success? ==> r.value[|t|] == row.(queryId := AssignedId(t, row.queryId))
    ensures r.Success? && Schema(t) ==> Schema(r.value)
    ensures r.Success? && WellFormedIds(t) && (row.queryId == "" || IsQId(row.queryId))
            ==> WellFormedIds(r.value)
  {
    if !ValidStatus(row.status) then
      Failure(BadStatus(row.status.value))
    else
      var id := AssignedId(t, row.queryId);
      if id in Ids(t) then
        Failure(DuplicateKey(id))
      else
        var t' := t + [row.(queryId := id)];
        assert t'[..|t|] == t;
        assert forall i :: 0 <= i < |t| ==> t[i].queryId == Ids(t)[i];
        Success(t')
  }

  /** The client's "Submit Query": the id comes from the row count, the
      status is `Open`, the creation time is `now` and the closing time is
      NULL.  The insert fails exactly when that id is already stored. */
  function Submit(t: Table, email: string, mobile: string, heading: string, description: string,
                  now: int): (r: Result<(Table, string), InsertError>)
    ensures r.Failure? <==> AppId(|t|) in Ids(t)
    ensures r.Success? ==> r.value.1 == AppId(|t|)
    ensures r.Success? ==> |r.value.0| == |t| + 1 && r.value.0[..|t|] == t
    ensures r.Success? ==> r.value.0[|t|] == Ticket(AppId(|t|), Some(email), Some(mobile), Some(heading),
                                                    Some(description), Some(StatusOpen), Some(now), None)
    ensures r.Success? && Schema(t) ==> Schema(r.value.0)
  {
    var id := AppId(|t|);
    var row := Ticket(id, Some(email), Some(mobile), Some(heading), Some(description),
                      Some(StatusOpen), Some(now), None);
    match Insert(t, row)
    case Success(t') => Success((t', id))
    case Failure(e) => Failure(e)
  }

  /** `UPDATE client_queries SET status='Closed', query_closed_time=now
      WHERE query_id = id`.  Rows with another id are untouched; matching
      rows become `Closed` with closing time `now` and keep every other
      field.  The caller reports success whatever matched. */
  function Close(t: Table, id: string, now: int): (r: Table)
    ensures Ids(r) == Ids(t)
    ensures forall i :: 0 <= i < |t| && t[i].queryId != id ==> r[i] == t[i]
    ensures forall i :: 0 <= i < |t| && t[i].queryId == id ==>
              r[i].status == Some(StatusClosed) && r[i].closed == Some(now)
              && r[i].(status := t[i].status, closed := t[i].closed) == t[i]
    ensures Schema(t) ==> Schema(r)
  {
    seq(|t|, i requires 0 <= i < |t| =>
      if t[i].queryId == id then t[i].(status := Some(StatusClosed), closed := Some(now)) else t[i])
  }

  /** Closing an id no row carries changes nothing. */
  lemma CloseUnknownIdIsNoOp(t: Table, id: string, now: int)
    requires id !in Ids(t)
    ensures Close(t, id, now) == t
  {
    var r := Close(t, id, now);
    forall i | 0 <= i < |t|
      ensures r[i] == t[i]
    {
      assert Ids(t)[i] == t[i].queryId;
    }
  }

  /** Closing again keeps the row `Closed` and only replaces the closing
      time. */
  lemma CloseAgainReplacesTime(t: Table, id: string, first: int, second: int)
    ensures Close(Close(t, id, first), id, second) == Close(t, id, second)
  {
    var once := Close(t, id, first);
    assert forall i :: 0 <= i < |t| ==> once[i].queryId == Ids(once)[i] == Ids(t)[i] == t[i].queryId;
  }

  /** The lifecycle the forms keep: a row has no closing time exactly when
      its status is `Open`. */
  predicate Lifecycle(t: Table) {
    forall i :: 0 <= i < |t| ==> (t[i].closed == None <==> t[i].status == Some(StatusOpen))
  }

  lemma SubmitKeepsLifecycle(t: Table, email: string, mobile: string, heading: string,
                             description: string, now: int)
    requires Lifecycle(t)
    requires Submit(t, email, mobile, heading, description, now).Success?
    ensures Lifecycle(Submit(t, email, mobile, heading, description, now).value.0)
  {
    var t' := Submit(t, email, mobile, heading, description, now).value.0;
    assert forall i :: 0 <= i < |t| ==> t'[i] == t'[..|t|][i];
  }

  lemma CloseKeepsLifecycle(t: Table, id: string, now: int)
    requires Lifecycle(t)
    ensures Lifecycle(Close(t, id, now))
  {
  }

  /** A table filled by the form alone, one submission after another:
      row `i` carries `AppId(i)`. */
  predicate Sequential(t: Table) {
    forall i :: 0 <= i < |t| ==> t[i].queryId == AppId(i)
  }

  /** On a sequential table the form's next id is not yet stored. */
  lemma SequentialIdIsFresh(t: Table)
    requires Sequential(t)
    ensures AppId(|t|) !in Ids(t)
  {
    forall i | 0 <= i < |t|
      ensures Ids(t)[i] != AppId(|t|)
    {
      assert Suffix(Ids(t)[i]) == i + 1;
    }
  }

  /** On such a table the next submission never collides, and the table
      stays sequential: successive submissions get `Q0001`, `Q0002`, ... */
  lemma SequentialSubmitSucceeds(t: Table, email: string, mobile: string, heading: string,
                                 description: string, now: int)
    requires Sequential(t)
    ensures Submit(t, email, mobile, heading, description, now).Success?
    ensures Sequential(Submit(t, email, mobile, heading, description, now).value.0)
  {
    SequentialIdIsFresh(t);
    var t' := Submit(t, email, mobile, heading, description, now).value.0;
    assert t'[|t|].queryId == AppId(|t|);
    forall i | 0 <= i < |t|
      ensures t'[i].queryId == AppId(i)
    {
      assert t'[i] == t'[..|t|][i] == t[i];
    }
  }

  /** On a sequential table of 1..9998 rows the trigger would have chosen
      the same id as the form. */
  lemma SequentialIdsAgreeWithTrigger(t: Table)
    requires Sequential(t) && 1 <= |t| <= 9998
    ensures TriggerDefined(t)
    ensures AssignedId(t, "") == AppId(|t|)
  {
    SequentialIdsAreFirstIds(t);
    SchemesAgreeOnFirstIds(Ids(t));
  }

  lemma SequentialIdsAreFirstIds(t: Table)
    requires Sequential(t)
    ensures ExactlyFirstIds(Ids(t))
  {
    var ids := Ids(t);
    forall j | 0 <= j < |ids|
      ensures ids[j] == AppId(j)
    {
      assert ids[j] == t[j].queryId;
    }
    FirstIdsInOrder(ids);
  }
}
