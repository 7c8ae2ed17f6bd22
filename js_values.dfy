/** The JavaScript values that occur as event ids in the page, with the
    language's truthiness, strict equality and conversion to a string. */
module JsValues {

  /** An event id as the page sees it: missing on a draft (`undefined`), a
      number or a string assigned by the backend, or the string cut out of a
      row id. Dafny's `==` on this type is JavaScript's `===` on these values:
      in particular a number is never strictly equal to a string. */
  datatype Id = Undefined | Null | Num(n: int) | Str(s: string)

  /** JavaScript truthiness: `undefined`, `null`, `0` and `""` are falsy. */
  predicate Truthy(id: Id) {
    match id
    case Undefined => false
    case Null => false
    case Num(n) => n != 0
    case Str(s) => s != ""
  }

  predicate IsDigit(c: char) {
    '0' <= c <= '9'
  }

  function DigitChar(d: nat): (c: char)
    requires d < 10
    ensures IsDigit(c)
  {
    ('0' as int + d) as char
  }

  /** The decimal numeral of a natural number, as `String(n)` writes it:
      digits only, and no leading zero except for zero itself. */
  function Digits(n: nat): (r: string)
    ensures |r| >= 1
    ensures forall k :: 0 <= k < |r| ==> IsDigit(r[k])
    ensures r[0] == '0' <==> n == 0
  {
    if n < 10 then [DigitChar(n)] else Digits(n / 10) + [DigitChar(n % 10)]
  }

  /** `String(id)`, which is also what a template literal `${id}` inserts. */
  function Text(id: Id): string {
    match id
    case Undefined => "undefined"
    case Null => "null"
    case Num(n) => if n < 0 then "-" + Digits(-n) else Digits(n)
    case Str(s) => s
  }

  /** A numeral text never spells a word: the text of a number is digits,
      with at most a leading minus sign. */
  lemma NumberTextIsNumeral(n: int)
    ensures |Text(Num(n))| >= 1
    ensures forall k :: 0 < k < |Text(Num(n))| ==> IsDigit(Text(Num(n))[k])
    ensures n >= 0 ==> IsDigit(Text(Num(n))[0])
    ensures n < 0 ==> Text(Num(n))[0] == '-'
  {
  }
}
