/** Shared vocabulary of the user service: optional values, results, the
    error taxonomy of the exception classes and the fixed message prefixes. */
module Common {

  /** A Java reference that may be null. */
  datatype Option<+T> = None | Some(value: T)

  /** A call that either returns a value or throws one of the service errors. */
  datatype Result<+R, +E> = Success(value: R) | Failure(error: E)

  /** The exceptions the service throws, reduced to their kind and message.
      NullDereference is the null-dereference exception raised when an update calls
      `equals` on a stored null phone number. */
  datatype ServiceError =
    | NotFound(message: string)
    | Conflict(message: string)
    | InvalidInput(message: string)
    | NullDereference

  /** The HTTP status each error carries: NotFoundException 404, AlreadyExists
      409, NotValidFields 400; an uncaught null-dereference exception is a 500. */
  function Status(e: ServiceError): (code: int)
    ensures e.NotFound? <==> code == 404
    ensures e.Conflict? <==> code == 409
    ensures e.InvalidInput? <==> code == 400
    ensures e.NullDereference? <==> code == 500
  {
    match e
    case NotFound(_) => 404
    case Conflict(_) => 409
    case InvalidInput(_) => 400
    case NullDereference => 500
  }

  const UserByEmailExist: string := "User with such email already exists: "
  const UserByPhoneNumberExist: string := "User with such phone number already exists: "
  const UserByIdNotFound: string := "User with id not found: "
  const NotCorrectFieldName: string := "Not correct fields name: "
  const StartAfterEnd: string := "Start date must be before end date."

  /** Java's string conversion of a possibly-null string in `"..." + s`. */
  function NullableText(s: Option<string>): string
  {
    if s.Some? then s.value else "null"
  }

  function DigitChar(d: nat): char
    requires d < 10
  {
    "0123456789"[d]
  }

  /** Decimal digits of a natural number, most significant first. */
  function Digits(n: nat): (s: string)
    ensures |s| > 0
    ensures forall k :: 0 <= k < |s| ==> '0' <= s[k] <= '9'
    ensures s[0] == '0' ==> n == 0
    decreases n
  {
    if n < 10 then [DigitChar(n)] else Digits(n / 10) + [DigitChar(n % 10)]
  }

  /** The number a run of decimal digits denotes. */
  function DigitsValue(s: string): (n: nat)
    requires forall k :: 0 <= k < |s| ==> '0' <= s[k] <= '9'
  {
    if s == [] then 0 else DigitsValue(s[..|s| - 1]) * 10 + (s[|s| - 1] as int - '0' as int)
  }

  /** Reading the digits back gives the number: the id in a not-found message
      names the id that was asked for. */
  lemma {:induction false} DigitsRoundTrip(n: nat)
    ensures DigitsValue(Digits(n)) == n
    decreases n
  {
    if n >= 10 {
      var s := Digits(n);
      assert s[..|s| - 1] == Digits(n / 10);
      DigitsRoundTrip(n / 10);
    }
  }

  /** Java's decimal rendering of a `Long` id in `"..." + id`. */
  function DecimalString(n: int): (s: string)
    ensures |s| > 0
    ensures (s[0] == '-') <==> n < 0
    ensures n >= 0 ==> s == Digits(n)
    ensures n < 0 ==> s == "-" + Digits(-n)
  {
    if n < 0 then "-" + Digits(-n) else Digits(n)
  }
}
