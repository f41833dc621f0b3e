/** The deterministic steps of the homework-status bot: choosing the request window,
    reading the HTTP reply, validating the response, turning a homework record into a
    notification, and checking the configuration. Every exception the program can raise
    in these steps is a `Failure` carrying an `Error`. */
module Homework {
  import opened Wrappers
  import opened Json

  /** Seconds between polls; also how far the window is moved back after a good poll. */
  const RETRY_TIME: int := 600

  /** `HTTPStatus.OK`. */
  const HTTP_OK: int := 200

  /** The verdict text for each review status the bot recognises. */
  const HomeworkStatuses: map<string, string> := map[
    "approved" := "Работа проверена: ревьюеру всё понравилось. Ура!",
    "reviewing" := "Работа взята на проверку ревьюером.",
    "rejected" := "Работа проверена: у ревьюера есть замечания."
  ]

  /** Text of a status notification before the homework name (it ends with the opening quote). */
  const NotificationPrefix: string := "Изменился статус проверки работы \""

  /** Text of a status notification between the homework name and the verdict. */
  const NameSeparator: string := "\". "

  /** Text of a failure notification before the error's text. */
  const FailurePrefix: string := "Сбой в работе программы: "

  /** The exceptions that escape fetch, validation and interpretation. */
  datatype Error =
    | RequestFailed(detail: string)   // a `requests` exception, logged and re-raised
    | EndpointUnavailable             // `HTTPErrorException`: the reply was not 200
    | NotSubscriptable                // TypeError: `response['homeworks']` on a non-dict
    | MissingHomeworks                // KeyError: the dict has no `homeworks`
    | HomeworksNotAList               // ValueError: `homeworks` holds something else
    | RecordNotAMapping               // AttributeError: `.get` on a non-dict record
    | StatusMissing                   // TypeError: `len(None)` when `status` is None
    | StatusUnhashable                // TypeError: a list or dict tested for `in` a dict
    | UnknownStatus                   // KeyError: `status` is not a recognised key

  /** The key `check_response` looks up; a KeyError for it carries this argument. */
  const MissingKey: string := "homeworks"

  /** The argument of the KeyError `parse_status` raises for an unknown status. */
  const UnknownStatusArgument: string := "Не найдено возможное значение статуса"

  /** `str(e)`, as the failure notification renders the exception. A `requests`
      exception keeps its own text; a KeyError's text is its argument in quotes.
      The interpreter's wording for `len(None)` is reproduced; its wordings for the
      other TypeErrors and the AttributeError are replaced by a description. */
  function ErrorText(e: Error): (r: string)
    ensures e.RequestFailed? ==> r == e.detail
    ensures !e.RequestFailed? ==> |r| > 0
    ensures e.MissingHomeworks? ==> r == "'" + MissingKey + "'"
    ensures e.UnknownStatus? ==> r == "'" + UnknownStatusArgument + "'"
  {
    match e
    case RequestFailed(detail) => detail
    case EndpointUnavailable => "Эндпоинт недоступен: запрос не вернул статус 200"
    case NotSubscriptable => "response is not subscriptable by 'homeworks'"
    case MissingHomeworks => "'" + MissingKey + "'"
    case HomeworksNotAList => "Ответ API некорректностый: значние homework не список"
    case RecordNotAMapping => "homework record has no attribute 'get'"
    case StatusMissing => "object of type 'NoneType' has no len()"
    case StatusUnhashable => "unhashable status value"
    case UnknownStatus => "'" + UnknownStatusArgument + "'"
  }

  // ---------------------------------------------------------------------------
  // get_api_answer

  /** What the HTTP client hands back when the request itself did not raise:
      the status code, and the body if it decodes as JSON. */
  datatype HttpReply = HttpReply(statusCode: int, body: Option<Json>)

  /** The remote API as seen from one request: the reply (or the text of the
      `requests` exception) for a given `from_date`. */
  type Server = int -> Result<HttpReply, string>

  /** What `get_api_answer` returns: the decoded JSON, or, when decoding failed,
      the raw response object itself (which no later step can subscript). */
  datatype Answer = Decoded(json: Json) | Undecoded

  /** Python truthiness of the timestamp argument: `None` and `0` are falsy. */
  predicate Truthy(cursor: Option<int>)
  {
    cursor.Some? && cursor.value != 0
  }

  /** The `from_date` sent for a cursor, with `now` the clock reading `int(time.time())`. */
  function FromDate(cursor: Option<int>, now: int): (t: int)
    ensures Truthy(cursor) ==> t == cursor.value
    ensures !Truthy(cursor) ==> t == now
    ensures t == now || cursor == Some(t)
  {
    if Truthy(cursor) then cursor.value else now
  }

  /** The part of `get_api_answer` after the request: `reply` is what the HTTP
      client returned for the `from_date` chosen by `FromDate`, or the text of the
      `requests` exception it raised, which is logged and re-raised. */
  function GetApiAnswer(reply: Result<HttpReply, string>): (r: Result<Answer, Error>)
    ensures r.Success? <==> reply.Success? && reply.value.statusCode == HTTP_OK
    ensures reply.Failure? ==> r == Failure(RequestFailed(reply.error))
    ensures reply.Success? && reply.value.statusCode != HTTP_OK ==> r == Failure(EndpointUnavailable)
    ensures r.Success? ==> (r.value.Decoded? <==> reply.value.body.Some?)
    ensures r.Success? && r.value.Decoded? ==> r.value.json == reply.value.body.value
  {
    match reply
    case Failure(detail) => Failure(RequestFailed(detail))
    case Success(HttpReply(code, body)) =>
      if code != HTTP_OK then Failure(EndpointUnavailable)
      else (
        match body
        case Some(j) => Success(Decoded(j))
        case None => Success(Undecoded))
  }

  // ---------------------------------------------------------------------------
  // check_response

  /** A response the validation accepts: a dict whose `homeworks` value is a list. */
  predicate WellFormedResponse(a: Answer)
  {
    && a.Decoded?
    && a.json.JObj?
    && "homeworks" in a.json.fields
    && a.json.fields["homeworks"].JArr?
  }

  /** `check_response(answer)`: the homework list, or the exception raised. */
  function CheckResponse(a: Answer): (r: Result<seq<Json>, Error>)
    ensures r.Success? <==> WellFormedResponse(a)
    ensures r.Success? ==> r.value == a.json.fields["homeworks"].items
    ensures !(a.Decoded? && a.json.JObj?) ==> r == Failure(NotSubscriptable)
    ensures a.Decoded? && a.json.JObj? && "homeworks" !in a.json.fields ==> r == Failure(MissingHomeworks)
    ensures (a.Decoded? && a.json.JObj? && "homeworks" in a.json.fields && !a.json.fields["homeworks"].JArr?)
              ==> r == Failure(HomeworksNotAList)
  {
    match a
    case Undecoded => Failure(NotSubscriptable)
    case Decoded(j) =>
      match j
      case JObj(fields) =>
        if "homeworks" !in fields then Failure(MissingHomeworks)
        else (
          match fields["homeworks"]
          case JArr(items) => Success(items)
          case _ => Failure(HomeworksNotAList))
      case _ => Failure(NotSubscriptable)
  }

  /** Validation hands back exactly the list a well-formed response carries,
      whatever else the response holds. */
  lemma CheckResponseReturnsList(fields: map<string, Json>, homeworks: seq<Json>)
    ensures CheckResponse(Decoded(JObj(fields["homeworks" := JArr(homeworks)]))) == Success(homeworks)
  {
  }

  // ---------------------------------------------------------------------------
  // parse_status

  /** The notification for a homework whose name renders as `name`. */
  function Notification(name: string, status: string): string
    requires status in HomeworkStatuses
  {
    NotificationPrefix + name + NameSeparator + HomeworkStatuses[status]
  }

  /** `parse_status(record)`: the notification, or the exception raised. A missing
      `homework_name` is not rejected; it renders as `None`. */
  function ParseStatus(record: Json): (r: Result<string, Error>)
    ensures !record.JObj? ==> r == Failure(RecordNotAMapping)
    ensures r.Success? <==>
      && record.JObj?
      && "status" in record.fields
      && record.fields["status"].JStr?
      && record.fields["status"].s in HomeworkStatuses
    ensures r.Success? ==>
      r.value == NotificationPrefix + Display(Get(record.fields, "homework_name")) + NameSeparator
                 + HomeworkStatuses[record.fields["status"].s]
    ensures record.JObj? && IsPyNone(Get(record.fields, "status")) ==> r == Failure(StatusMissing)
    ensures (record.JObj? && "status" in record.fields
              && (record.fields["status"].JArr? || record.fields["status"].JObj?))
              ==> r == Failure(StatusUnhashable)
    ensures (record.JObj? && "status" in record.fields
              && (record.fields["status"].JBool? || record.fields["status"].JNum?
                  || (record.fields["status"].JStr? && record.fields["status"].s !in HomeworkStatuses)))
              ==> r == Failure(UnknownStatus)
  {
    match record
    case JObj(fields) =>
      var name := Get(fields, "homework_name");
      var status := Get(fields, "status");
      if IsPyNone(status) then Failure(StatusMissing)
      else (
        match status.value
        case JArr(_) => Failure(StatusUnhashable)
        case JObj(_) => Failure(StatusUnhashable)
        case JStr(s) =>
          if s in HomeworkStatuses then Success(Notification(Display(name), s))
          else Failure(UnknownStatus)
        case _ => Failure(UnknownStatus))
    case _ => Failure(RecordNotAMapping)
  }

  /** The notification depends on the record only through its name and status:
      two records agreeing on those give the same outcome. */
  lemma ParseStatusDependsOnNameAndStatus(f1: map<string, Json>, f2: map<string, Json>)
    requires Get(f1, "homework_name") == Get(f2, "homework_name")
    requires Get(f1, "status") == Get(f2, "status")
    ensures ParseStatus(JObj(f1)) == ParseStatus(JObj(f2))
  {
  }

  /** A record without `homework_name` is still turned into a notification,
      naming the homework `None`. */
  lemma MissingNameIsNotRejected(fields: map<string, Json>, status: string)
    requires "homework_name" !in fields
    requires status in HomeworkStatuses
    ensures ParseStatus(JObj(fields["status" := JStr(status)]))
            == Success(NotificationPrefix + "None" + NameSeparator + HomeworkStatuses[status])
  {
  }

  // ---------------------------------------------------------------------------
  // Reading a notification back

  /** What a status notification tells its reader. */
  datatype Notice = Notice(name: string, status: string)

  /** `m` ends with the separator and the verdict of `status`, after the prefix. */
  predicate EndsWithVerdict(m: string, status: string)
    requires status in HomeworkStatuses
  {
    var v := HomeworkStatuses[status];
    && |m| >= |NotificationPrefix| + |NameSeparator| + |v|
    && m[|m| - |v|..] == v
    && m[|m| - |v| - |NameSeparator|..|m| - |v|] == NameSeparator
  }

  /** The text between the prefix and the separator. */
  function NameIn(m: string, status: string): string
    requires status in HomeworkStatuses
    requires EndsWithVerdict(m, status)
  {
    m[|NotificationPrefix|..|m| - |HomeworkStatuses[status]| - |NameSeparator|]
  }

  /** Recovers the homework name and status from a status notification, trying the
      statuses in table order; `None` for any other text. */
  function ReadNotification(m: string): Option<Notice>
  {
    if |m| < |NotificationPrefix| || m[..|NotificationPrefix|] != NotificationPrefix then None
    else if EndsWithVerdict(m, "approved") then Some(Notice(NameIn(m, "approved"), "approved"))
    else if EndsWithVerdict(m, "reviewing") then Some(Notice(NameIn(m, "reviewing"), "reviewing"))
    else if EndsWithVerdict(m, "rejected") then Some(Notice(NameIn(m, "rejected"), "rejected"))
    else None
  }

  /** A notification ends with the last two characters of its own verdict, and
      those two characters differ between every pair of verdicts. */
  lemma VerdictsDistinguishable(name: string, status: string, other: string)
    requires status in HomeworkStatuses && other in HomeworkStatuses
    requires other != status
    ensures !EndsWithVerdict(Notification(name, status), other)
  {
    var m := Notification(name, status);
    var v := HomeworkStatuses[status];
    var w := HomeworkStatuses[other];
    assert m == (NotificationPrefix + name + NameSeparator) + v;
    assert m[|m| - 1] == v[|v| - 1];
    assert m[|m| - 2] == v[|v| - 2];
    assert v[|v| - 1] != w[|w| - 1] || v[|v| - 2] != w[|w| - 2];
  }

  /** Every notification reads back as the name and status it was made from. */
  lemma NotificationRoundTrip(name: string, status: string)
    requires status in HomeworkStatuses
    ensures ReadNotification(Notification(name, status)) == Some(Notice(name, status))
  {
    var m := Notification(name, status);
    var v := HomeworkStatuses[status];
    assert m == NotificationPrefix + (name + NameSeparator + v);
    assert m[..|NotificationPrefix|] == NotificationPrefix;
    assert m == (NotificationPrefix + name) + NameSeparator + v;
    assert m[|m| - |v|..] == v;
    assert m[|m| - |v| - |NameSeparator|..|m| - |v|] == NameSeparator;
    assert EndsWithVerdict(m, status);
    assert NameIn(m, status) == name;
    if status != "approved" {
      VerdictsDistinguishable(name, status, "approved");
    }
    if status == "rejected" {
      VerdictsDistinguishable(name, status, "reviewing");
    }
  }

  /** A sequence is the concatenation of its pieces at any three cut points. */
  lemma SplitFour<T>(m: seq<T>, i: nat, j: nat, k: nat)
    requires i <= j <= k <= |m|
    ensures m == m[..i] + m[i..j] + m[j..k] + m[k..]
  {
    assert m[..j] == m[..i] + m[i..j];
    assert m[..k] == m[..j] + m[j..k];
    assert m == m[..k] + m[k..];
  }

  /** Text that starts with the prefix and ends with a status's separator and
      verdict is that status's notification for the text in between. */
  lemma FramedIsNotification(m: string, status: string)
    requires status in HomeworkStatuses
    requires |m| >= |NotificationPrefix| && m[..|NotificationPrefix|] == NotificationPrefix
    requires EndsWithVerdict(m, status)
    ensures m == Notification(NameIn(m, status), status)
  {
    var v := HomeworkStatuses[status];
    var k := |m| - |v| - |NameSeparator|;
    SplitFour(m, |NotificationPrefix|, k, |m| - |v|);
  }

  /** Whatever reads as a notice is exactly that notice's notification. */
  lemma ReadNotificationSound(m: string)
    ensures ReadNotification(m).Some? ==>
      && ReadNotification(m).value.status in HomeworkStatuses
      && m == Notification(ReadNotification(m).value.name, ReadNotification(m).value.status)
  {
    if ReadNotification(m).Some? {
      FramedIsNotification(m, ReadNotification(m).value.status);
    }
  }

  /** The notification `parse_status` builds names the record's homework and status. */
  lemma ParseStatusReadable(record: Json)
    requires ParseStatus(record).Success?
    ensures ReadNotification(ParseStatus(record).value)
            == Some(Notice(Display(Get(record.fields, "homework_name")), record.fields["status"].s))
  {
    NotificationRoundTrip(Display(Get(record.fields, "homework_name")), record.fields["status"].s);
  }

  // ---------------------------------------------------------------------------
  // check_tokens

  /** The three settings read from the environment; `None` when a variable is unset. */
  datatype Config = Config(
    practicumToken: Option<string>,
    telegramToken: Option<string>,
    telegramChatId: Option<string>)

  /** Every setting is set (an empty string counts as set). */
  predicate TokensPresent(c: Config)
  {
    c.practicumToken.Some? && c.telegramToken.Some? && c.telegramChatId.Some?
  }

  /** `check_tokens()`: scans the settings in order and stops at the first `None`. */
  method CheckTokens(c: Config) returns (ok: bool)
    ensures ok <==> TokensPresent(c)
  {
    var tokens := [c.practicumToken, c.telegramToken, c.telegramChatId];
    var i := 0;
    while i < |tokens|
      invariant 0 <= i <= |tokens|
      invariant forall j :: 0 <= j < i ==> tokens[j].Some?
    {
      if tokens[i].None? {
        return false;
      }
      i := i + 1;
    }
    assert tokens[0].Some? && tokens[1].Some? && tokens[2].Some?;
    return true;
  }
}
