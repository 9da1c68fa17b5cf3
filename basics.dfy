/** Values shared by every handler of the model: optional values, handler
    replies, and user ids as they arrive in requests. */
module Basics {

  datatype Option<T> = None | Some(value: T)

  /** The HTTP status a handler answers with.  `Created` carries the new
      row id when the response body holds one (`group.id`, `mediaId`). */
  datatype Status = Ok | Created(id: Option<nat>) | BadRequest | Forbidden | NotFound | Internal

  /** The answer of a read-only handler: a 200 body, or an error status. */
  datatype Reply<T> = Success(value: T) | Failure(status: Status)

  /** A user id as a request carries it: a JSON number (the token's id, or a
      number in a request body) or a string (route parameters, or a string in
      a request body). */
  datatype UserRef = Num(n: nat) | Text(s: string)

  predicate IsDigits(s: string)
  {
    forall i | 0 <= i < |s| :: '0' <= s[i] <= '9'
  }

  function DigitChar(d: nat): (c: char)
    requires d < 10
    ensures '0' <= c <= '9' && c as int - '0' as int == d
  {
    ('0' as int + d) as char
  }

  /** JavaScript's `String(n)` for a non-negative integer: its decimal digits,
      with no leading zero. */
  function Decimal(n: nat): (s: string)
    ensures 1 <= |s| && IsDigits(s)
    ensures s[0] == '0' ==> n == 0 && s == "0"
    decreases n
  {
    if n < 10 then [DigitChar(n)] else Decimal(n / 10) + [DigitChar(n % 10)]
  }

  /** The number a string of decimal digits denotes. */
  function DigitsValue(s: string): nat
    requires IsDigits(s)
    decreases |s|
  {
    if s == [] then 0 else DigitsValue(s[..|s| - 1]) * 10 + (s[|s| - 1] as int - '0' as int)
  }

  /** Reading back the digits `String(n)` prints gives `n`. */
  lemma {:induction false} DecimalRoundTrip(n: nat)
    ensures DigitsValue(Decimal(n)) == n
    decreases n
  {
    if n >= 10 {
      DecimalRoundTrip(n / 10);
      var s := Decimal(n);
      assert s[..|s| - 1] == Decimal(n / 10);
    }
  }

  /** The string form `String(id)` under which the handlers compare user ids
      and under which the store holds them. */
  function Key(u: UserRef): (k: string)
    ensures u.Num? ==> |k| >= 1 && IsDigits(k) && DigitsValue(k) == u.n && (k[0] == '0' ==> k == "0")
  {
    match u
    case Num(n) => DecimalRoundTrip(n); Decimal(n)
    case Text(s) => s
  }

  /** Comparing string forms: two numeric ids meet exactly when they are the
      same number, and a number meets a string exactly when the string is
      the number's decimal form (so `7` and `"7"` are the same user). */
  lemma KeyComparison(a: nat, b: nat, s: string)
    ensures Key(Num(a)) == Key(Num(b)) <==> a == b
    ensures Key(Num(a)) == Key(Text(s)) <==> s == Decimal(a)
  {
    DecimalRoundTrip(a);
    DecimalRoundTrip(b);
  }
}
