/** Values shared by every stage of the synchronisation pipeline: the
    records the image service returns, their identifiers, and Python's
    `str()` and truthiness on the fields the pipeline reads. */
module Entries {

  datatype Option<+T> = None | Some(value: T)

  datatype Result<+T, +E> = Ok(value: T) | Err(error: E)

  /** An image identifier as it arrives in JSON: the service sends integers,
      a hand-edited manifest may hold strings. */
  datatype IdValue = IdInt(n: int) | IdStr(s: string)

  /** One metadata item of the listing. `None` stands for a key that the
      item's dictionary does not have; `rest` is every other field, opaque
      to the pipeline. */
  datatype Entry = Entry(id: Option<IdValue>, url: Option<string>, username: Option<string>, rest: map<string, string>)

  function Digit(d: nat): (c: char)
    requires d < 10
    ensures '0' <= c <= '9'
    ensures c as int - '0' as int == d
  {
    ('0' as int + d) as char
  }

  /** Python's `str()` of a non-negative integer: its decimal digits, no leading zeros. */
  function NatText(n: nat): (r: string)
    ensures |r| >= 1
    ensures forall i :: 0 <= i < |r| ==> '0' <= r[i] <= '9'
    ensures (|r| == 1) == (n < 10)
    decreases n
  {
    if n < 10 then [Digit(n)] else NatText(n / 10) + [Digit(n % 10)]
  }

  /** Python's `str()` of an integer. */
  function IntText(n: int): (r: string)
    ensures |r| >= 1
    ensures (r[0] == '-') == (n < 0)
    ensures forall i :: 0 <= i < |r| ==> r[i] == '-' || '0' <= r[i] <= '9'
  {
    if n < 0 then "-" + NatText(-n) else NatText(n)
  }

  /** `str(id)`: the text of an identifier, used both as catalog key and in file names. */
  function IdText(v: IdValue): string
  {
    match v
    case IdInt(n) => IntText(n)
    case IdStr(s) => s
  }

  /** Python truthiness of an identifier: `0` and `""` are false. */
  predicate IdTruthy(v: IdValue)
  {
    match v
    case IdInt(n) => n != 0
    case IdStr(s) => s != ""
  }

  /** Python truthiness of an optional text field: absent and `""` are false. */
  predicate TextTruthy(t: Option<string>)
  {
    t.Some? && t.value != ""
  }

  lemma {:induction false} NatTextInjective(a: nat, b: nat)
    requires NatText(a) == NatText(b)
    ensures a == b
    decreases a
  {
    if a >= 10 && b >= 10 {
      var ta, tb := NatText(a), NatText(b);
      assert ta[|ta| - 1] == Digit(a % 10);
      assert tb[|tb| - 1] == Digit(b % 10);
      assert a % 10 == b % 10;
      assert ta[..|ta| - 1] == NatText(a / 10);
      assert tb[..|tb| - 1] == NatText(b / 10);
      NatTextInjective(a / 10, b / 10);
    } else {
      assert a < 10 && b < 10;
      assert NatText(a)[0] == Digit(a) && NatText(b)[0] == Digit(b);
    }
  }

  /** Distinct integer identifiers have distinct texts, so two integer ids
      share a catalog key exactly when they are the same number. */
  lemma IntTextInjective(a: int, b: int)
    requires IntText(a) == IntText(b)
    ensures a == b
  {
    if a < 0 {
      assert b < 0;
      assert IntText(a)[1..] == NatText(-a);
      assert IntText(b)[1..] == NatText(-b);
      NatTextInjective(-a, -b);
    } else {
      NatTextInjective(a, b);
    }
  }

  /** The text of an integer id never contains the separator `_` of file names. */
  lemma IntTextHasNoUnderscore(n: int)
    ensures '_' !in IntText(n)
  {
  }
}
