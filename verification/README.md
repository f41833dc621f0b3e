# homework_bot: a verified model of the polling bot's decision logic

The bot polls a homework-review API, looks at the most recent submission, and
sends a Telegram message when its review status is reported. This Dafny project
models the deterministic part of `homework.py`:

- **the request window**: `from_date` is the cursor, or the clock when the cursor is falsy;
- **reading the HTTP reply**: a non-200 status is an error, and an undecodable body is passed on as the raw response;
- **response validation** (`check_response`);
- **status interpretation** (`parse_status`) against the three-entry verdict table `HOMEWORK_STATUSES`;
- **the configuration check** (`check_tokens`);
- **one pass of the `while True` body of `main`**, as a pure transition
  `(cursor, tick) -> (cursor', messages sent)`, plus finite sequences of passes.

Files:

- `wrappers.dfy`: `Option` (Python's `None`-or-value) and `Result` (a value or a raised exception).
- `json.dfy`: the decoded JSON value, `dict.get`, and how an f-string renders a value with `str()`.
- `homework.dfy`: the constants, the exceptions as an `Error` datatype, `FromDate`, `GetApiAnswer`,
  `CheckResponse`, `ParseStatus`, `CheckTokens`, and `ReadNotification`, which decodes a
  notification back into its homework name and status. `ReadNotification` is the inverse
  against which `ParseStatus` is checked.
- `loop.dfy`: startup (`Start`), the guarded body of a pass (`Handle`), one pass (`Cycle`), and
  finitely many passes (`Run`).

The remote API is a parameter `Server = int -> Result<HttpReply, string>`. It gives the
reply for a given `from_date`, or the text of the `requests` exception. The clock is also
a parameter, with two readings per pass: the one `get_api_answer` takes when the cursor
is falsy, and the one taken after a good poll.

How the model reads the code where it does not do what it appears to do:

- `check_response` subscripts the response before it checks the response's type
  (homework.py:99 before homework.py:103). So a non-dict response fails with a TypeError
  at the subscript (`NotSubscriptable`), and the `isinstance(response, dict)` branch can
  never fire.
- If the body is not JSON, `get_api_answer` logs and returns the raw response object
  (homework.py:89-93). That object then fails the subscript in `check_response`.
- In `parse_status`, the guard on line 123 (`homework is None and ...`) can never fire,
  because line 122 has already called `.get` on the record. A missing `homework_name`
  is therefore not rejected: the notification names the homework `None`
  (`Homework.MissingNameIsNotRejected`).
- The guard on line 128 raises only incidentally: when `status` is missing or null, it
  calls `len(None)` (`StatusMissing`).
- A list or dict status raises TypeError at the `in` test (`StatusUnhashable`).
- Any other unrecognised status raises the KeyError of line 133 (`UnknownStatus`).
- A record that is not a dict fails at `.get` (`RecordNotAMapping`).
- A stricter validation would check types before keys and reject a missing name. The
  program does neither, so the model does neither.

## Model

| member | source | states |
|---|---|---|
| Json.Display | homework.py:135 | the homework name renders as Python's `str()` does: a missing or null name as `None`, a string unchanged, a boolean as `True`/`False`, an integer as decimal digits (after a `-` when negative) that read back as its value with no leading zero (`0` for zero) |
| Json.Digits | homework.py:135 | the decimal text of a natural number is non-empty, all digits, reads back as the number, has no leading zero, and is `0` for zero |
| Homework.ErrorText | homework.py:164-165 | the text of a re-raised `requests` exception is passed through unchanged; a KeyError's text is its argument in single quotes (`'homeworks'` for the missing key, the line-133 message for an unknown status); every other error has a non-empty text |
| Homework.FromDate | homework.py:56-57 | `from_date` is the cursor when it is truthy, and the current time when the cursor is `None` or 0 |
| Homework.GetApiAnswer | homework.py:58-93 | the answer succeeds exactly when the request did not raise and the status is 200; a `requests` exception is re-raised with its text; any other status raises the endpoint-unavailable error; an undecodable body yields the raw response instead of JSON |
| Homework.CheckResponse | homework.py:96-117 | succeeds exactly when the response is a dict whose `homeworks` value is a list, and then returns that list unchanged; a non-dict (or raw) response, a missing key and a non-list value each give their own error |
| Homework.CheckResponseReturnsList | homework.py:99-117 | for any dict, putting a list under `homeworks` and validating gives that list back |
| Homework.ParseStatus | homework.py:120-135 | succeeds exactly when the record is a dict whose `status` is one of the three table keys; the message is the prefix, the rendered name, `". ` and the verdict for that status; a non-dict record, a missing or null status, an unhashable status and an unknown status each give their own error |
| Homework.ParseStatusDependsOnNameAndStatus | homework.py:122-135 | two records that agree on `homework_name` and `status` give the same outcome, whatever else they hold |
| Homework.MissingNameIsNotRejected | homework.py:122-126 | a record with a recognised status and no `homework_name` is accepted and its message names the homework `None` |
| Homework.VerdictsDistinguishable | homework.py:26-30 | a notification for one status never ends with the separator and verdict of another status |
| Homework.NotificationRoundTrip | homework.py:134-135 | every notification reads back as exactly the name and status it was built from |
| Homework.FramedIsNotification | homework.py:135 | text with the prefix, a separator and a verdict at the end is the notification for the text between them |
| Homework.ReadNotificationSound | homework.py:135 | any text that reads as a name and status is exactly the notification for them, and the status is one of the table's |
| Homework.ParseStatusReadable | homework.py:120-135 | a message built by `parse_status` identifies the record's rendered name and its status |
| Homework.CheckTokens | homework.py:138-147 | returns true exactly when none of the three settings is `None`; empty strings count as set |
| Loop.Start | homework.py:152-154 | the bot starts exactly when every setting is present, with the cursor at the current time |
| Loop.Handle | homework.py:157-161 | the guarded part of a pass succeeds exactly for a 200 reply with a JSON body holding a `homeworks` list that is empty or starts with a record of recognised status; it then reports nothing for an empty list and otherwise `parse_status` of the first record; on failure it reports the exception of the first step that raised |
| Loop.FailureMessage | homework.py:165 | a failure message is the failure prefix followed by the exception's text, and never reads as a status notification |
| Loop.Cycle | homework.py:156-168 | a pass sends at most one message; a good poll moves the cursor to end clock minus 600 and sends the notification only if there was one; a failed poll keeps the cursor and sends exactly one failure message |
| Loop.EmptyListSendsNothing | homework.py:158-163 | a 200 reply with an empty `homeworks` list sends nothing, raises nothing and moves the cursor |
| Loop.FirstRecordOnly | homework.py:158-162 | with a non-empty list, only the first record decides the pass: its notification is sent, or its interpretation error is reported |
| Loop.RequestUsesCursor | homework.py:56-59 | a pass with a non-zero cursor requests updates from exactly that cursor |
| Loop.NonOkReplyFails | homework.py:85-88 | any status other than 200 fails the pass: the cursor stays and the one message reports the unavailable endpoint |
| Loop.TransportFailureReported | homework.py:58-84 | a request that raises fails the pass: the cursor stays and the one message carries the exception's text after the failure prefix |
| Loop.MalformedReplyFails | homework.py:96-117 | a 200 reply whose body is not JSON or fails validation keeps the cursor and sends one failure message with the validation error |
| Loop.CycleMessageOrigin | homework.py:159-167 | every message a pass sends is a failure message or a readable status notification; a status notification is sent only by a pass that moved the cursor to end clock minus 600; the cursor either stays or becomes end clock minus 600 |
| Loop.ApprovedReplyNotifies | homework.py:158-162 | the reply with one approved homework `project1` sends its notification with the approved verdict and moves the cursor |
| Loop.UnknownStatusFails | homework.py:132-133 | a reply whose first homework has status `unknown` keeps the cursor and sends the failure message with the KeyError's text |
| Loop.Run | homework.py:155-168 | over any number of passes, no more messages are sent than there are passes |
| Loop.RunCursorOrigin | homework.py:154-162 | after any number of passes, the cursor is the starting one or some pass's end clock minus 600 |
| Loop.UnreachableKeepsCursor | homework.py:155-168 | while every request raises, the cursor never moves and every pass sends exactly one failure message, with that request's exception text |
| Loop.RepeatedStatusResent | homework.py:155-163 | while the API keeps giving the same reply with a status, every pass re-sends the same notification (no de-duplication), and the cursor follows the last pass's end clock |

## Left out

- HTTP transport (`requests.get`, headers, `ENDPOINT`) is not modelled. The reply for each
  `from_date` is an injected `Server` function.
- The Telegram `Bot` and `send_message` are not modelled. A pass returns the texts it
  hands to `send_message`. Delivery errors are swallowed at homework.py:44-51, so they
  cannot change the outcome.
- Construction of `Bot` (the library's own token checks) is a foreign call and is not modelled.
- Loading the environment with dotenv is not modelled. `Config` holds the three values
  as `Option<string>`.
- Logging (homework.py:32-39 and every `logger` call) is output only and is not modelled.
- `time.time()` and `time.sleep` are not modelled. Clock readings are parameters that
  are already truncated to `int`, and sleeping has no effect on the state.
- The JSON decoder is not modelled. A reply carries the decoded body or `None`.
- JSON floating-point numbers are not modelled. `Json` numbers are integers.
- The `exceptions` module is not part of this model. Its `HTTPErrorException` appears
  only as the `EndpointUnavailable` error.
- `main` falls into the loop even when `check_tokens` fails (homework.py:152-155). That
  leaves `bot` and the cursor unbound, so this case is not modelled. `Start` yields no
  state and `Cycle` needs a started `LoopState`.
- The infinite `while True` is modelled as one pass (`Cycle`) and as any finite number
  of passes (`Run`).
- Homework.ErrorText: the interpreter's wording is not reproduced for three errors: the
  TypeError of subscripting a non-dict response, the AttributeError of `.get` on a
  non-dict record, and the TypeError of an unhashable status. The model uses its own
  descriptions for these. All other texts are exact: the texts the program supplies,
  the quoted KeyError texts, the `requests` exception text, and the interpreter's
  `len(None)` message. The `HTTPErrorException` text is exact only if the `exceptions`
  module, which is not part of this model, keeps `Exception`'s `str`.
- Json.Display: when `homework_name` is a JSON list or dict, Python renders it with
  `repr`. The model uses a fixed placeholder instead. Strings, integers, booleans,
  `null` and a missing key render as Python does.
