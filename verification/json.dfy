/** The values `response.json()` can produce, and the two Python operations the bot
    applies to them besides subscripting: `dict.get` and `str()` inside an f-string. */
module Json {
  import opened Wrappers

  /** A decoded JSON document. Objects are Python dicts (a key appears once);
      numbers are integers only (see README, "Left out"). */
  datatype Json =
    | JNull
    | JBool(b: bool)
    | JNum(n: int)
    | JStr(s: string)
    | JArr(items: seq<Json>)
    | JObj(fields: map<string, Json>)

  /** `d.get(key)`: the value stored under `key`, or Python's `None` when it is absent. */
  function Get(fields: map<string, Json>, key: string): Option<Json>
  {
    if key in fields then Some(fields[key]) else None
  }

  /** True when Python would see `None`: the key is absent or holds JSON `null`. */
  predicate IsPyNone(v: Option<Json>)
  {
    v.None? || v.value.JNull?
  }

  /** The character for a decimal digit. */
  function DigitChar(d: nat): char
    requires d < 10
  {
    ('0' as int + d) as char
  }

  /** The value of a decimal digit character. */
  function DigitValue(c: char): nat
    requires '0' <= c <= '9'
  {
    c as int - '0' as int
  }

  /** Only decimal digit characters. */
  predicate AllDigits(s: string)
  {
    forall i :: 0 <= i < |s| ==> '0' <= s[i] <= '9'
  }

  /** The number a string of decimal digits denotes, most significant first. */
  function DecimalValue(s: string): nat
    requires AllDigits(s)
    decreases |s|
  {
    if |s| == 0 then 0 else DecimalValue(s[..|s| - 1]) * 10 + DigitValue(s[|s| - 1])
  }

  /** The decimal digits of a natural number, most significant first: they read
      back as the number, and there is no leading zero. */
  function Digits(n: nat): (r: string)
    ensures |r| >= 1
    ensures AllDigits(r)
    ensures DecimalValue(r) == n
    ensures n > 0 ==> r[0] != '0'
    ensures n == 0 ==> r == "0"
    decreases n
  {
    if n < 10 then [DigitChar(n)]
    else
      var r := Digits(n / 10) + [DigitChar(n % 10)];
      assert r[..|r| - 1] == Digits(n / 10);
      r
  }

  /** `str(n)` for a Python int. */
  function IntToDecimal(n: int): string
  {
    if n < 0 then "-" + Digits(-n) else Digits(n)
  }

  /** `str(v)` as an f-string renders a value taken from a decoded response;
      a missing key renders as Python's `None`. Lists and dicts are rendered
      by a placeholder, not by Python's `repr`. */
  function Display(v: Option<Json>): (r: string)
    ensures IsPyNone(v) ==> r == "None"
    ensures v.Some? && v.value.JStr? ==> r == v.value.s
    ensures v.Some? && v.value.JBool? ==> r == (if v.value.b then "True" else "False")
    ensures v.Some? && v.value.JNum? && v.value.n >= 0 ==>
      AllDigits(r) && DecimalValue(r) == v.value.n && (v.value.n > 0 ==> r[0] != '0')
      && (v.value.n == 0 ==> r == "0")
    ensures v.Some? && v.value.JNum? && v.value.n < 0 ==>
      |r| >= 2 && r[0] == '-' && AllDigits(r[1..]) && DecimalValue(r[1..]) == -v.value.n && r[1] != '0'
  {
    match v
    case None => "None"
    case Some(j) =>
      match j
      case JNull => "None"
      case JBool(b) => if b then "True" else "False"
      case JNum(n) => IntToDecimal(n)
      case JStr(s) => s
      case JArr(_) => "[...]"
      case JObj(_) => "{...}"
  }
}
