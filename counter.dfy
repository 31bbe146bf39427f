/**
 * The id table `ids_dict` and how one request changes it, as pure functions:
 * the worker's handling of a single request (Step) and of a sequence of
 * requests processed one after another (Run).
 */
module Counter {

  import opened Wrappers
  import opened Decimal
  import opened Message

  /** The record `{"name": name, "count": count}` kept for an id. */
  datatype Entry = Entry(name: string, count: nat)

  type Table = map<nat, Entry>

  type Outcome = Result<ReplyFields, Failure>

  datatype StepResult = StepResult(table: Table, outcome: Outcome)

  /** Every record is created with count 1 and only ever incremented. */
  ghost predicate ValidTable(t: Table) {
    forall i :: i in t ==> t[i].count >= 1
  }

  /** The count recorded for `i`, 0 when `i` was never seen. */
  function Count(t: Table, i: nat): nat {
    if i in t then t[i].count else 0
  }

  /**
   * The worker's handling of one request. A known id has its count bumped
   * before the names are compared, so a name mismatch is an error that still
   * counts the request and keeps the stored name.
   */
  function Step(t: Table, msg: string): (r: StepResult)
    ensures ValidTable(t) ==> ValidTable(r.table)
    ensures r.outcome.Ok? ==> Parse(msg).Ok?
    ensures r.outcome.Ok? ==> var f := r.outcome.value;
      f.id in r.table && f.name == r.table[f.id].name && f.count == r.table[f.id].count
  {
    Apply(t, Parse(msg))
  }

  /**
   * The table update and the outcome for the result of parsing a request: a
   * failed parse changes nothing; otherwise only the request's id gains a
   * record or one more count, and no stored name changes.
   */
  function Apply(t: Table, parsed: Result<Request, Failure>): (r: StepResult)
    ensures parsed.Err? ==> r == StepResult(t, Err(parsed.error))
    ensures parsed.Ok? ==> var id := parsed.value.id;
      r.table.Keys == t.Keys + {id} &&
      Count(r.table, id) == Count(t, id) + 1 &&
      (forall j :: j in t ==> r.table[j].name == t[j].name) &&
      (forall j :: j in t && j != id ==> r.table[j] == t[j])
    ensures parsed.Ok? && parsed.value.id !in t ==> r.table[parsed.value.id].name == parsed.value.name
    ensures r.outcome.Ok? <==> parsed.Ok? && r.table[parsed.value.id].name == parsed.value.name
    ensures r.outcome.Ok? ==> var id := parsed.value.id;
      r.outcome.value == ReplyFields(id, r.table[id].name, r.table[id].count)
  {
    match parsed
    case Err(e) => StepResult(t, Err(e))
    case Ok(req) =>
      if req.id in t then
        var old_entry := t[req.id];
        var t' := t[req.id := old_entry.(count := old_entry.count + 1)];
        if old_entry.name != req.name then StepResult(t', Err(NameMismatch))
        else StepResult(t', Ok(ReplyFields(req.id, old_entry.name, old_entry.count + 1)))
      else
        StepResult(t[req.id := Entry(req.name, 1)], Ok(ReplyFields(req.id, req.name, 1)))
  }

  /**
   * A datagram the pattern does not match is answered with the error and
   * leaves the table unchanged.
   */
  lemma RejectedChangesNothing(t: Table, msg: string)
    requires forall d, name :: !Matches(msg, d, name)
    ensures Step(t, msg) == StepResult(t, Err(BadFormat))
    ensures ReplyText(Step(t, msg).outcome) == ErrorText
  {
    ParseCorrect(msg);
  }

  /** `id=[]` fails in `int('')`: the error reply, and the table unchanged. */
  lemma EmptyIdChangesNothing(t: Table, msg: string, name: string)
    requires GreedyMatch(msg, "", name)
    ensures Step(t, msg) == StepResult(t, Err(EmptyId))
    ensures ReplyText(Step(t, msg).outcome) == ErrorText
  {
    ParseCorrect(msg);
  }

  /** A request parsed from a greedy match with a non-empty id. */
  lemma ParseGreedy(msg: string, d: string, name: string)
    requires GreedyMatch(msg, d, name) && d != []
    ensures Parse(msg) == Ok(Request(Value(d), name))
  {
    ParseCorrect(msg);
  }

  /** A success reply echoes the request's id digits without leading zeros. */
  lemma ReplyEchoesId(d: string, name: string, count: nat)
    requires |d| > 0 && AllDigits(d)
    ensures ReplyText(Ok(ReplyFields(Value(d), name, count)))
      == IdOpen + (StripZeros(d) + (NameOpen + ReplyTail(name, count)))
  {
    FormatStripsZeros(d);
  }

  /**
   * A well-formed request with an unseen id records its name with count 1,
   * and the reply carries the id in canonical form, the name and count 1.
   */
  lemma NewId(t: Table, msg: string, d: string, name: string)
    requires GreedyMatch(msg, d, name) && d != [] && Value(d) !in t
    ensures Step(t, msg).table == t[Value(d) := Entry(name, 1)]
    ensures Step(t, msg).outcome == Ok(ReplyFields(Value(d), name, 1))
    ensures ReplyText(Step(t, msg).outcome)
      == IdOpen + (StripZeros(d) + (NameOpen + ReplyTail(name, 1)))
  {
    ParseGreedy(msg, d, name);
    assert Step(t, msg) == Apply(t, Ok(Request(Value(d), name)));
    ReplyEchoesId(d, name, 1);
  }

  /**
   * A well-formed request with a known id increments that id's count by one
   * whatever its name; it is answered with the stored name and the new count
   * when the names agree, and with the error otherwise.
   */
  lemma KnownId(t: Table, msg: string, d: string, name: string)
    requires GreedyMatch(msg, d, name) && d != [] && Value(d) in t
    ensures Step(t, msg).table
      == t[Value(d) := Entry(t[Value(d)].name, t[Value(d)].count + 1)]
    ensures Step(t, msg).outcome
      == if name == t[Value(d)].name
         then Ok(ReplyFields(Value(d), name, t[Value(d)].count + 1))
         else Err(NameMismatch)
    ensures name == t[Value(d)].name ==>
      ReplyText(Step(t, msg).outcome)
      == IdOpen + (StripZeros(d) + (NameOpen + ReplyTail(name, t[Value(d)].count + 1)))
    ensures name != t[Value(d)].name ==> ReplyText(Step(t, msg).outcome) == ErrorText
  {
    ParseGreedy(msg, d, name);
    var id := Value(d);
    assert Step(t, msg) == Apply(t, Ok(Request(id, name)));
    ReplyEchoesId(d, name, t[id].count + 1);
  }

  /**
   * One request touches only the record of its own id: every other record
   * is kept, no record is removed, no name is changed and no count drops.
   */
  lemma StepFrame(t: Table, msg: string, i: nat)
    requires i in t
    ensures i in Step(t, msg).table
    ensures Step(t, msg).table[i].name == t[i].name
    ensures Step(t, msg).table[i].count >= t[i].count
    ensures (Parse(msg).Err? || Parse(msg).value.id != i) ==> Step(t, msg).table[i] == t[i]
  {
  }

  /** The daemon's outcomes for requests handled one after another. */
  datatype RunResult = RunResult(table: Table, outcomes: seq<Outcome>)

  function Run(t: Table, msgs: seq<string>): (r: RunResult)
    ensures |r.outcomes| == |msgs|
    decreases |msgs|
  {
    if msgs == [] then RunResult(t, [])
    else
      var s := Step(t, msgs[0]);
      var rest := Run(s.table, msgs[1..]);
      RunResult(rest.table, [s.outcome] + rest.outcomes)
  }

  /** How many of `msgs` parse with id `i`: the requests "sent with that id". */
  function Requests(msgs: seq<string>, i: nat): nat {
    if msgs == [] then 0
    else
      var here := if Parse(msgs[0]).Ok? && Parse(msgs[0]).value.id == i then 1 else 0;
      here + Requests(msgs[1..], i)
  }

  /** The name of the first request in `msgs` that parses with id `i`. */
  function FirstName(msgs: seq<string>, i: nat): Option<string> {
    if msgs == [] then None
    else if Parse(msgs[0]).Ok? && Parse(msgs[0]).value.id == i then Some(Parse(msgs[0]).value.name)
    else FirstName(msgs[1..], i)
  }

  /**
   * Over any sequence of requests the count of an id grows by exactly the
   * number of well-formed requests with that id (so counts never decrease),
   * and its stored name is the one it had, or else the name of its first
   * request.
   */
  lemma {:induction false} RunCounts(t: Table, msgs: seq<string>, i: nat)
    ensures Count(Run(t, msgs).table, i) == Count(t, i) + Requests(msgs, i)
    ensures i in Run(t, msgs).table <==> i in t || Requests(msgs, i) > 0
    ensures i in t ==> Run(t, msgs).table[i].name == t[i].name
    ensures i in Run(t, msgs).table && i !in t ==>
      FirstName(msgs, i) == Some(Run(t, msgs).table[i].name)
    decreases |msgs|
  {
    if msgs != [] {
      var s := Step(t, msgs[0]);
      RunCounts(s.table, msgs[1..], i);
      assert Requests(msgs, i) > 0 <==> FirstName(msgs, i).Some? by {
        RequestsFirstName(msgs, i);
      }
    }
  }

  lemma {:induction false} RequestsFirstName(msgs: seq<string>, i: nat)
    ensures Requests(msgs, i) > 0 <==> FirstName(msgs, i).Some?
  {
    if msgs != [] {
      RequestsFirstName(msgs[1..], i);
    }
  }

  /**
   * Starting from the empty table, the count of every id is the total number
   * of well-formed requests sent with that id.
   */
  lemma CountsTrackRequests(msgs: seq<string>, i: nat)
    ensures Count(Run(map[], msgs).table, i) == Requests(msgs, i)
    ensures i in Run(map[], msgs).table ==>
      FirstName(msgs, i) == Some(Run(map[], msgs).table[i].name)
  {
    RunCounts(map[], msgs, i);
  }
}
