/** The bot's control loop: startup, one pass of the `while True` body as a pure
    state transition, and a finite sequence of passes. The only state the loop keeps
    is the cursor; what a pass emits is the list of texts handed to `send_message`,
    whose delivery failures are swallowed and so never change the outcome. */
module Loop {
  import opened Wrappers
  import opened Json
  import opened Homework

  /** The loop's state once startup has created the Telegram client: the `from_date` cursor. */
  datatype LoopState = LoopState(cursor: int)

  /** The inputs of one pass: the API as it answers during the pass, the clock
      `get_api_answer` would read, and the clock read after a good poll. */
  datatype Tick = Tick(server: Server, requestClock: int, endClock: int)

  /** The state after a pass (or passes) and the messages handed to `send_message`. */
  datatype Step = Step(state: LoopState, sent: seq<string>)

  /** Startup: when every setting is present the bot exists and the cursor is
      the current time; otherwise the loop has no defined state. */
  function Start(c: Config, now: int): (b: Option<LoopState>)
    ensures b.Some? <==> TokensPresent(c)
    ensures b.Some? ==> b.value.cursor == now
  {
    if TokensPresent(c) then Some(LoopState(now)) else None
  }

  /** A reply the guarded part of a pass gets through: 200, a JSON body that passes
      validation, and either no homework or a first homework with a recognised status. */
  predicate AcceptedReply(reply: Result<HttpReply, string>)
  {
    && reply.Success?
    && reply.value.statusCode == HTTP_OK
    && reply.value.body.Some?
    && WellFormedResponse(Decoded(reply.value.body.value))
    && var homeworks := reply.value.body.value.fields["homeworks"].items;
       |homeworks| == 0 || ParseStatus(homeworks[0]).Success?
  }

  /** The guarded part of a pass, given the reply to its request: read the reply,
      validate it, and interpret the first homework if there is one. `None` means
      there was nothing to report; a failure is the first step's exception. */
  function Handle(reply: Result<HttpReply, string>): (r: Result<Option<string>, Error>)
    ensures r.Success? <==> AcceptedReply(reply)
    ensures r.Success? ==>
      var homeworks := reply.value.body.value.fields["homeworks"].items;
      && (r.value.None? <==> |homeworks| == 0)
      && (r.value.Some? ==> r.value.value == ParseStatus(homeworks[0]).value)
    ensures GetApiAnswer(reply).Failure? ==> r == Failure(GetApiAnswer(reply).error)
    ensures GetApiAnswer(reply).Success? && CheckResponse(GetApiAnswer(reply).value).Failure? ==>
      r == Failure(CheckResponse(GetApiAnswer(reply).value).error)
    ensures r.Failure? && GetApiAnswer(reply).Success? && CheckResponse(GetApiAnswer(reply).value).Success? ==>
      var homeworks := CheckResponse(GetApiAnswer(reply).value).value;
      |homeworks| > 0 && r == Failure(ParseStatus(homeworks[0]).error)
  {
    var answer :- GetApiAnswer(reply);
    var homeworks :- CheckResponse(answer);
    if |homeworks| > 0 then
      var message :- ParseStatus(homeworks[0]);
      Success(Some(message))
    else
      Success(None)
  }

  /** The reply a pass receives: the server's answer for the `from_date` the
      cursor selects. */
  function ReplyOf(b: LoopState, t: Tick): Result<HttpReply, string>
  {
    t.server(FromDate(Some(b.cursor), t.requestClock))
  }

  /** The failure notification for an exception: the failure prefix, then the
      exception's text. It never reads as a status notification. */
  function FailureMessage(e: Error): (r: string)
    ensures |r| >= |FailurePrefix| && r[..|FailurePrefix|] == FailurePrefix
    ensures r[|FailurePrefix|..] == ErrorText(e)
    ensures ReadNotification(r).None?
  {
    var r := FailurePrefix + ErrorText(e);
    assert r[0] == FailurePrefix[0] != NotificationPrefix[0];
    r
  }

  /** One pass of the loop body. A good poll moves the cursor to ten minutes before
      the end clock and sends the status notification if there is one; a failed poll
      keeps the cursor and sends exactly one failure notification. */
  function Cycle(b: LoopState, t: Tick): (s: Step)
    ensures |s.sent| <= 1
    ensures Handle(ReplyOf(b, t)).Success? ==> s.state.cursor == t.endClock - RETRY_TIME
    ensures Handle(ReplyOf(b, t)).Success? ==> (s.sent == [] <==> Handle(ReplyOf(b, t)).value.None?)
    ensures Handle(ReplyOf(b, t)).Success? && Handle(ReplyOf(b, t)).value.Some? ==> s.sent == [Handle(ReplyOf(b, t)).value.value]
    ensures Handle(ReplyOf(b, t)).Failure? ==> s.state == b && s.sent == [FailureMessage(Handle(ReplyOf(b, t)).error)]
  {
    match Handle(ReplyOf(b, t))
    case Success(notice) =>
      Step(LoopState(t.endClock - RETRY_TIME), if notice.Some? then [notice.value] else [])
    case Failure(e) =>
      Step(b, [FailureMessage(e)])
  }

  /** A pass whose reply carries an empty homework list sends nothing, raises
      nothing, and moves the cursor. */
  lemma EmptyListSendsNothing(b: LoopState, t: Tick, fields: map<string, Json>)
    requires ReplyOf(b, t) == Success(HttpReply(HTTP_OK, Some(JObj(fields))))
    requires "homeworks" in fields && fields["homeworks"] == JArr([])
    ensures Cycle(b, t) == Step(LoopState(t.endClock - RETRY_TIME), [])
  {
  }

  /** A pass whose reply carries a non-empty list reports on the first record only:
      its notification, or the failure to interpret it. Later records play no part. */
  lemma FirstRecordOnly(b: LoopState, t: Tick, fields: map<string, Json>, first: Json, rest: seq<Json>)
    requires ReplyOf(b, t) == Success(HttpReply(HTTP_OK, Some(JObj(fields))))
    requires "homeworks" in fields && fields["homeworks"] == JArr([first] + rest)
    ensures ParseStatus(first).Success? ==>
      Cycle(b, t) == Step(LoopState(t.endClock - RETRY_TIME), [ParseStatus(first).value])
    ensures ParseStatus(first).Failure? ==>
      Cycle(b, t) == Step(b, [FailureMessage(ParseStatus(first).error)])
  {
    assert ([first] + rest)[0] == first;
  }

  /** The request of a pass asks for updates since the cursor, unless the cursor is 0. */
  lemma RequestUsesCursor(b: LoopState, t: Tick)
    requires b.cursor != 0
    ensures ReplyOf(b, t) == t.server(b.cursor)
  {
  }

  /** Any reply other than 200 makes the pass a failure: the cursor stays and the
      one message sent reports the unavailable endpoint. */
  lemma NonOkReplyFails(b: LoopState, t: Tick, code: int, body: Option<Json>)
    requires ReplyOf(b, t) == Success(HttpReply(code, body))
    requires code != HTTP_OK
    ensures Cycle(b, t) == Step(b, [FailurePrefix + "Эндпоинт недоступен: запрос не вернул статус 200"])
  {
  }

  /** A transport failure makes the pass a failure whose message carries the
      exception's text. */
  lemma TransportFailureReported(b: LoopState, t: Tick, detail: string)
    requires ReplyOf(b, t) == Failure(detail)
    ensures Cycle(b, t) == Step(b, [FailurePrefix + detail])
  {
  }

  /** A 200 reply whose body is not JSON, or fails validation, makes the pass a
      failure reporting the validation error. */
  lemma MalformedReplyFails(b: LoopState, t: Tick, body: Option<Json>)
    requires ReplyOf(b, t) == Success(HttpReply(HTTP_OK, body))
    requires !WellFormedResponse(if body.Some? then Decoded(body.value) else Undecoded)
    ensures Cycle(b, t) ==
      Step(b, [FailureMessage(CheckResponse(if body.Some? then Decoded(body.value) else Undecoded).error)])
  {
  }

  /** Every message a pass sends is a failure notification or a readable status
      notification, and a status notification is sent only by a pass that moved the
      cursor to ten minutes before its end clock. */
  lemma CycleMessageOrigin(b: LoopState, t: Tick)
    ensures forall m :: m in Cycle(b, t).sent ==>
      (exists e :: m == FailureMessage(e)) || ReadNotification(m).Some?
    ensures forall m :: m in Cycle(b, t).sent && ReadNotification(m).Some? ==>
      Cycle(b, t).state.cursor == t.endClock - RETRY_TIME
    ensures Cycle(b, t).state == b || Cycle(b, t).state.cursor == t.endClock - RETRY_TIME
  {
    match Handle(ReplyOf(b, t))
    case Failure(e) =>
      assert Cycle(b, t).sent == [FailureMessage(e)];
    case Success(notice) =>
      if notice.Some? {
        var answer := GetApiAnswer(ReplyOf(b, t)).value;
        var first := CheckResponse(answer).value[0];
        assert ParseStatus(first) == Success(notice.value);
        ParseStatusReadable(first);
      }
  }

  /** The approved-homework reply: one notification naming the homework and its
      verdict, and the cursor moves. */
  lemma ApprovedReplyNotifies(b: LoopState, t: Tick)
    requires ReplyOf(b, t) == Success(HttpReply(HTTP_OK, Some(JObj(map[
      "homeworks" := JArr([JObj(map["homework_name" := JStr("project1"), "status" := JStr("approved")])])]))))
    ensures Cycle(b, t) == Step(LoopState(t.endClock - RETRY_TIME),
      [NotificationPrefix + "project1" + NameSeparator + HomeworkStatuses["approved"]])
  {
    var record := JObj(map["homework_name" := JStr("project1"), "status" := JStr("approved")]);
    assert CheckResponse(GetApiAnswer(ReplyOf(b, t)).value) == Success([record]);
    assert ParseStatus(record) == Success(Notification("project1", "approved"));
    assert Handle(ReplyOf(b, t)) == Success(Some(Notification("project1", "approved")));
  }

  /** A reply whose first homework has an unrecognised status fails the pass with
      the KeyError's text. */
  lemma UnknownStatusFails(b: LoopState, t: Tick)
    requires ReplyOf(b, t) == Success(HttpReply(HTTP_OK, Some(JObj(map[
      "homeworks" := JArr([JObj(map["homework_name" := JStr("x"), "status" := JStr("unknown")])])]))))
    ensures Cycle(b, t) == Step(b, [FailurePrefix + ErrorText(UnknownStatus)])
  {
    var record := JObj(map["homework_name" := JStr("x"), "status" := JStr("unknown")]);
    assert CheckResponse(GetApiAnswer(ReplyOf(b, t)).value) == Success([record]);
    assert ParseStatus(record) == Failure(UnknownStatus);
    assert Handle(ReplyOf(b, t)) == Failure(UnknownStatus);
  }

  // ---------------------------------------------------------------------------
  // Finitely many passes

  /** The passes of the loop over `ticks`, in order, with every message sent:
      never more messages than passes. */
  function Run(b: LoopState, ticks: seq<Tick>): (r: Step)
    ensures |r.sent| <= |ticks|
    decreases |ticks|
  {
    if |ticks| == 0 then Step(b, [])
    else
      var first := Cycle(b, ticks[0]);
      var rest := Run(first.state, ticks[1..]);
      Step(rest.state, first.sent + rest.sent)
  }

  /** The cursor after any number of passes is the starting cursor, or ten minutes
      before the end clock of one of the passes. */
  lemma {:induction false} RunCursorOrigin(b: LoopState, ticks: seq<Tick>)
    ensures var c := Run(b, ticks).state.cursor;
      c == b.cursor || exists i :: 0 <= i < |ticks| && c == ticks[i].endClock - RETRY_TIME
    decreases |ticks|
  {
    if |ticks| > 0 {
      var next := Cycle(b, ticks[0]).state;
      RunCursorOrigin(next, ticks[1..]);
      var c := Run(b, ticks).state.cursor;
      assert c == Run(next, ticks[1..]).state.cursor;
      if c != next.cursor {
        var i :| 0 <= i < |ticks[1..]| && c == ticks[1..][i].endClock - RETRY_TIME;
        assert c == ticks[i + 1].endClock - RETRY_TIME;
      } else if next != b {
        assert c == ticks[0].endClock - RETRY_TIME;
      }
    }
  }

  /** The API never reachable: every request raises. */
  ghost predicate AllUnreachable(ticks: seq<Tick>)
  {
    forall i, d :: 0 <= i < |ticks| ==> ticks[i].server(d).Failure?
  }

  /** While the API stays unreachable the cursor never moves and every pass sends
      exactly one message, a failure notification. */
  lemma {:induction false} UnreachableKeepsCursor(b: LoopState, ticks: seq<Tick>)
    requires AllUnreachable(ticks)
    ensures Run(b, ticks).state == b
    ensures |Run(b, ticks).sent| == |ticks|
    ensures forall k :: 0 <= k < |Run(b, ticks).sent| ==>
      Run(b, ticks).sent[k] == FailurePrefix + ReplyOf(b, ticks[k]).error
    decreases |ticks|
  {
    if |ticks| > 0 {
      var detail := ReplyOf(b, ticks[0]).error;
      TransportFailureReported(b, ticks[0], detail);
      assert AllUnreachable(ticks[1..]) by {
        forall i, d | 0 <= i < |ticks[1..]| ensures ticks[1..][i].server(d).Failure? {
          assert ticks[1..][i] == ticks[i + 1];
        }
      }
      UnreachableKeepsCursor(b, ticks[1..]);
      var sent := Run(b, ticks).sent;
      assert sent == [FailurePrefix + detail] + Run(b, ticks[1..]).sent;
      forall k | 0 <= k < |sent| ensures sent[k] == FailurePrefix + ReplyOf(b, ticks[k]).error {
        if k > 0 {
          assert sent[k] == Run(b, ticks[1..]).sent[k - 1];
          assert ticks[1..][k - 1] == ticks[k];
        }
      }
    }
  }

  /** Every pass of `ticks` talks to an API that answers `reply` to every request. */
  ghost predicate ConstantApi(ticks: seq<Tick>, reply: Result<HttpReply, string>)
  {
    forall i, d :: 0 <= i < |ticks| ==> ticks[i].server(d) == reply
  }

  /** No de-duplication: while the API keeps answering with the same status, every
      pass sends the same notification again, and the cursor follows the clock. */
  lemma {:induction false} RepeatedStatusResent(b: LoopState, ticks: seq<Tick>, reply: Result<HttpReply, string>, message: string)
    requires ConstantApi(ticks, reply)
    requires Handle(reply) == Success(Some(message))
    ensures Run(b, ticks).sent == seq(|ticks|, _ => message)
    ensures |ticks| > 0 ==> Run(b, ticks).state.cursor == ticks[|ticks| - 1].endClock - RETRY_TIME
    decreases |ticks|
  {
    if |ticks| > 0 {
      assert ReplyOf(b, ticks[0]) == reply;
      var next := Cycle(b, ticks[0]).state;
      assert ConstantApi(ticks[1..], reply) by {
        forall i, d | 0 <= i < |ticks[1..]| ensures ticks[1..][i].server(d) == reply {
          assert ticks[1..][i] == ticks[i + 1];
        }
      }
      RepeatedStatusResent(next, ticks[1..], reply, message);
      assert Run(b, ticks).sent == [message] + seq(|ticks| - 1, _ => message);
    }
  }
}
