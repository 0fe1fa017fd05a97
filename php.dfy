/** The part of PHP's value semantics the helpers rely on: which values
    `empty()` treats as empty, how a scalar is turned into a string when
    `array_diff_assoc` compares two values, and which integer array key a
    scalar names when it is used to index an array. */
module Php {

  datatype Option<T> = None | Some(value: T)

  /** A PHP value. Floats are the finite ones, as reals (PHP's `-0.0` is
      the real zero). Arrays keep only their values, in iteration order.
      An object is described by the set of class and interface names it is
      an `instanceof`, and by the elements a `Collection` would iterate. */
  datatype Value =
    | Null
    | Bool(b: bool)
    | Int(i: int)
    | Float(f: real)
    | Str(s: string)
    | Arr(elems: seq<Value>)
    | Obj(classes: set<string>, elems: seq<Value>)

  predicate IsScalar(v: Value) {
    v.Null? || v.Bool? || v.Int? || v.Str?
  }

  /** The values a database column or a request field holds. */
  type Scalar = v: Value | IsScalar(v) witness Null

  /** PHP's `empty()` on a value that is set: null, false, 0, 0.0, "", "0"
      and the empty array are empty; objects never are. */
  predicate Empty(v: Value)
    ensures v.Obj? ==> !Empty(v)
  {
    match v
    case Null => true
    case Bool(b) => !b
    case Int(i) => i == 0
    case Float(f) => f == 0.0
    case Str(s) => s == "" || s == "0"
    case Arr(elems) => elems == []
    case Obj(_, _) => false
  }

  /** Reading `$a[$k]`: a missing key reads as null. */
  function Lookup(a: map<string, Value>, k: string): Value {
    if k in a then a[k] else Null
  }

  /** `Lookup` on an array of scalars, which reads a scalar. */
  function Field(a: map<string, Scalar>, k: string): Scalar {
    Lookup(a, k)
  }

  /** PHP's `isset($a[$k])`. */
  predicate IsSet(a: map<string, Value>, k: string) {
    k in a && a[k] != Null
  }

  predicate IsDigit(c: char) {
    '0' <= c <= '9'
  }

  function DigitChar(d: int): char
    requires 0 <= d < 10
  {
    (48 + d) as char
  }

  /** The decimal digits of a natural number, most significant first. */
  function NatDecimal(n: nat): (s: string)
    ensures |s| >= 1
    ensures forall i :: 0 <= i < |s| ==> IsDigit(s[i])
    decreases n
  {
    if n < 10 then [DigitChar(n)] else NatDecimal(n / 10) + [DigitChar(n % 10)]
  }

  /** `(string) $n` for an integer. */
  function Decimal(n: int): string {
    if n < 0 then "-" + NatDecimal(-n) else NatDecimal(n)
  }

  /** The value of a string of decimal digits. */
  function DigitsValue(s: string): nat
    requires forall i :: 0 <= i < |s| ==> IsDigit(s[i])
  {
    if s == [] then 0
    else
      assert IsDigit(s[|s| - 1]);
      DigitsValue(s[..|s| - 1]) * 10 + (s[|s| - 1] as int - 48)
  }

  /** Digits with no leading zero, except "0" itself. */
  predicate CanonicalDigits(s: string) {
    && |s| >= 1
    && (forall i :: 0 <= i < |s| ==> IsDigit(s[i]))
    && (s[0] == '0' ==> |s| == 1)
  }

  /** The integer a string names when PHP uses it as an array key: a string
      in canonical decimal form ("0", "17", "-4", but not "07", "-0" or "+4")
      becomes an integer key; any other string stays a string key. */
  function ParseDecimal(s: string): Option<int> {
    if CanonicalDigits(s) then Some(DigitsValue(s) as int)
    else if |s| >= 2 && s[0] == '-' && s[1] != '0' && CanonicalDigits(s[1..]) then Some(0 - DigitsValue(s[1..]))
    else None
  }

  /** The integer array key a scalar names, if it names one: integers name
      themselves, booleans name 0 and 1, canonical decimal strings their
      value; null names the string key "". */
  function ArrayKey(v: Scalar): (r: Option<int>)
    ensures r.None? ==> v.Null? || (v.Str? && !CanonicalDigits(v.s))
  {
    match v
    case Null => None
    case Bool(b) => Some(if b then 1 else 0)
    case Int(i) => Some(i)
    case Str(s) => ParseDecimal(s)
  }

  /** `(string) $v`, the form in which `array_diff_assoc` compares values. */
  function StringForm(v: Scalar): (r: string)
    ensures v.Int? ==> ParseDecimal(r) == Some(v.i)
  {
    match v
    case Null => ""
    case Bool(b) => if b then "1" else ""
    case Int(i) => ParseDecimalOfDecimal(i); Decimal(i)
    case Str(s) => s
  }

  /** Two scalars that `array_diff_assoc` does not tell apart. */
  predicate Loosely(a: Scalar, b: Scalar) {
    StringForm(a) == StringForm(b)
  }

  lemma {:induction false} DigitsValueOfNatDecimal(n: nat)
    ensures DigitsValue(NatDecimal(n)) == n
    decreases n
  {
    if n >= 10 {
      var s := NatDecimal(n);
      DigitsValueOfNatDecimal(n / 10);
      assert s[..|s| - 1] == NatDecimal(n / 10);
    }
  }

  lemma {:induction false} NatDecimalCanonical(n: nat)
    ensures CanonicalDigits(NatDecimal(n))
    ensures n > 0 ==> NatDecimal(n)[0] != '0'
    decreases n
  {
    if n >= 10 {
      NatDecimalCanonical(n / 10);
    }
  }

  /** Printing an integer and reading it back as an array key gives it back. */
  lemma ParseDecimalOfDecimal(n: int)
    ensures ParseDecimal(Decimal(n)) == Some(n)
  {
    if n < 0 {
      ParseNegativeDecimal(n);
    } else {
      ParseNatDecimal(n);
    }
  }

  lemma ParseNatDecimal(n: nat)
    ensures ParseDecimal(NatDecimal(n)) == Some(n)
  {
    NatDecimalCanonical(n);
    DigitsValueOfNatDecimal(n);
  }

  lemma ParseNegativeDecimal(n: int)
    requires n < 0
    ensures ParseDecimal(Decimal(n)) == Some(n)
  {
    var m: nat := -n;
    var d := NatDecimal(m);
    assert Decimal(n) == "-" + d;
    NatDecimalCanonical(m);
    DigitsValueOfNatDecimal(m);
    ParseMinus(d);
  }

  /** A minus sign before canonical digits other than "0" reads as the
      negated value. */
  lemma ParseMinus(d: string)
    requires CanonicalDigits(d) && d[0] != '0'
    ensures ParseDecimal("-" + d) == Some(0 - DigitsValue(d))
  {
    var s := "-" + d;
    assert s[1..] == d && s[0] == '-' && s[1] == d[0];
    assert !IsDigit(s[0]);
  }

  lemma {:induction false} DigitsValueZero(s: string)
    requires |s| >= 1 && forall i :: 0 <= i < |s| ==> IsDigit(s[i])
    requires DigitsValue(s) == 0
    ensures s[0] == '0'
    decreases |s|
  {
    if |s| > 1 {
      var p := s[..|s| - 1];
      DigitsValueZero(p);
    }
  }

  lemma {:induction false} NatDecimalOfDigitsValue(s: string)
    requires CanonicalDigits(s)
    ensures NatDecimal(DigitsValue(s)) == s
    decreases |s|
  {
    if |s| > 1 {
      var p := s[..|s| - 1];
      var d := s[|s| - 1] as int - 48;
      assert CanonicalDigits(p);
      NatDecimalOfDigitsValue(p);
      if DigitsValue(p) == 0 {
        DigitsValueZero(p);
        assert false;
      }
      var v := DigitsValue(s);
      assert v / 10 == DigitsValue(p) && v % 10 == d;
      assert s == p + [s[|s| - 1]];
    }
  }

  /** A string that names an integer array key is that integer printed. */
  lemma DecimalOfParseDecimal(s: string)
    requires ParseDecimal(s).Some?
    ensures Decimal(ParseDecimal(s).value) == s
  {
    if CanonicalDigits(s) {
      NatDecimalOfDigitsValue(s);
    } else {
      var t := s[1..];
      NatDecimalOfDigitsValue(t);
      if DigitsValue(t) == 0 {
        DigitsValueZero(t);
        assert false;
      }
      assert s == "-" + t;
    }
  }

  /** A non-empty scalar that names integer key n prints as n, so
      `array_diff_assoc` sees it as equal to the integer n. */
  lemma ArrayKeyPrintsAsKey(v: Scalar)
    requires !Empty(v) && ArrayKey(v).Some?
    ensures StringForm(v) == Decimal(ArrayKey(v).value)
  {
    match v
    case Bool(b) =>
      assert NatDecimal(1) == "1";
    case Int(i) =>
    case Str(s) =>
      DecimalOfParseDecimal(s);
  }

  /** A scalar is empty exactly when it prints as "" or "0". */
  lemma EmptyScalarPrintsFalsy(v: Scalar)
    ensures Empty(v) <==> StringForm(v) == "" || StringForm(v) == "0"
  {
    if v.Int? {
      ParseDecimalOfDecimal(v.i);
      assert NatDecimal(0) == "0";
    }
  }
}
