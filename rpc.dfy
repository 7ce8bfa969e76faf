/**
 The errors the products service raises towards its RPC callers, as values. The
 service throws an RPC exception carrying `{message, status}`; here an operation
 returns `Err(e)` instead, and `Message(e)` and `Status(e)` give the pair it carries.
 */
module Rpc {

  datatype RpcError =
    | NotFound(id: int)   // no available row with this id
    | ValidationError     // a bulk existence check found fewer rows than distinct ids

  datatype Result<T> = Ok(value: T) | Err(error: RpcError)

  /** HTTP status BAD_REQUEST, which both errors carry. */
  const BadRequest: int := 400

  function Status(e: RpcError): (code: int)
    ensures code == 400
  {
    BadRequest
  }

  function DigitChar(d: int): char
    requires 0 <= d < 10
  {
    ('0' as int + d) as char
  }

  function DigitValue(c: char): int {
    c as int - '0' as int
  }

  predicate IsDigits(s: string) {
    forall i :: 0 <= i < |s| ==> '0' <= s[i] <= '9'
  }

  /** Decimal notation of a natural number, without leading zeros. */
  function Decimal(n: nat): (s: string)
    ensures |s| >= 1 && IsDigits(s)
    ensures |s| > 1 ==> s[0] != '0'
    decreases n
  {
    if n < 10 then [DigitChar(n)] else Decimal(n / 10) + [DigitChar(n % 10)]
  }

  /** The number a string of decimal digits denotes. */
  function DecimalValue(s: string): (n: nat)
    requires IsDigits(s)
  {
    if s == [] then 0 else 10 * DecimalValue(s[..|s| - 1]) + DigitValue(s[|s| - 1])
  }

  /** Reading back the decimal notation of `n` gives `n`. */
  lemma {:induction false} DecimalRoundTrip(n: nat)
    ensures DecimalValue(Decimal(n)) == n
    decreases n
  {
    if n >= 10 {
      var s := Decimal(n);
      assert s[..|s| - 1] == Decimal(n / 10);
      DecimalRoundTrip(n / 10);
    }
  }

  /** How a template literal renders an integer id. */
  function IdText(id: int): string {
    if id < 0 then "-" + Decimal(-id) else Decimal(id)
  }

  /** Decimal digits, with a leading minus sign or without. */
  predicate IsIdText(s: string) {
    IsDigits(s) || (|s| > 0 && s[0] == '-' && IsDigits(s[1..]))
  }

  /** The integer a rendered id denotes. */
  function IdValue(s: string): int
    requires IsIdText(s)
  {
    if |s| > 0 && s[0] == '-' then -(DecimalValue(s[1..]) as int) else DecimalValue(s)
  }

  lemma IdTextRoundTrip(id: int)
    ensures IsIdText(IdText(id)) && IdValue(IdText(id)) == id
  {
    var s := IdText(id);
    if id < 0 {
      var d := Decimal(-id);
      assert s == "-" + d;
      assert s[0] == '-' && s[1..] == d;
      DecimalRoundTrip(-id);
      assert IdValue(s) == -(DecimalValue(d) as int);
    } else {
      var d := Decimal(id);
      assert s == d && d[0] != '-';
      DecimalRoundTrip(id);
    }
  }

  /** The message text of each error. A NotFound message names its id in a
      form that reads back as that id. */
  function Message(e: RpcError): (m: string)
    ensures e.NotFound? ==>
              && |m| > 26 && m[..16] == "Product with id " && m[|m| - 10..] == " not found"
              && IsIdText(m[16..|m| - 10]) && IdValue(m[16..|m| - 10]) == e.id
    ensures e.ValidationError? ==> m == "Some products were not found"
  {
    match e
    case NotFound(id) =>
      var text := IdText(id);
      var m := "Product with id " + text + " not found";
      IdTextRoundTrip(id);
      assert m[16..|m| - 10] == text;
      m
    case ValidationError => "Some products were not found"
  }

  /** Both errors carry the same status; callers tell them apart by message text,
      and a NotFound message names the id it is about. */
  lemma ErrorsDifferOnlyInMessage(id: int)
    ensures Status(NotFound(id)) == Status(ValidationError)
    ensures Message(NotFound(id)) != Message(ValidationError)
    ensures var m := Message(NotFound(id));
            |m| > 26 && m[..16] == "Product with id " && m[|m| - 10..] == " not found"
  {
    assert Message(NotFound(id))[0] == 'P';
  }

  /** A NotFound message determines the id it was raised for. */
  lemma NotFoundMessageNamesId(a: int, b: int)
    requires Message(NotFound(a)) == Message(NotFound(b))
    ensures a == b
  {
    var m := Message(NotFound(a));
    assert IdValue(m[16..|m| - 10]) == a;
  }
}
