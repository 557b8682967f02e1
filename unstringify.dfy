/** `unstringifyBigInts` of Q2/test/test.js: walks a JavaScript value and
    turns every string that is a decimal numeral, or `0x` and hexadecimal
    digits, into a BigInt; arrays and plain objects are rebuilt around the
    converted members, and every other value comes back as it is. */
module Unstringify {
  import opened Wrappers
  import opened Numerals

  /** The JavaScript values the converter distinguishes. A Number's value
      is never inspected, so it is kept as a real. */
  datatype JsValue =
    | JsUndefined
    | JsNull
    | JsBool(b: bool)
    | JsNumber(x: real)
    | JsBigInt(n: int)
    | JsString(s: string)
    | JsArray(elems: seq<JsValue>)
    | JsObject(props: map<string, JsValue>)

  /** The test `/^[0-9]+$/`. */
  predicate IsDecimalString(s: string) {
    IsDigitString(s, 10)
  }

  /** The test `/^0x[0-9a-fA-F]+$/`; the `x` must be lower case. */
  predicate IsHexString(s: string) {
    |s| >= 2 && s[0] == '0' && s[1] == 'x' && IsDigitString(s[2..], 16)
  }

  /** The strings the converter replaces by a BigInt. */
  predicate IsNumeralString(s: string) {
    IsDecimalString(s) || IsHexString(s)
  }

  /** `BigInt(s)` succeeds on every string either test accepts, with the
      value of its digits. */
  lemma NumeralStringParses(s: string)
    requires IsNumeralString(s)
    ensures IsDecimalString(s) ==> StringToBigInt(s) == Some(Value(s, 10) as int)
    ensures IsHexString(s) ==> StringToBigInt(s) == Some(Value(s[2..], 16) as int)
  {
    if IsDecimalString(s) {
      StringToBigIntDecimal(s);
    } else {
      assert s == ['0', 'x'] + s[2..];
      StringToBigIntRadix('x', s[2..]);
    }
  }

  /** The conversion, branch by branch as the source tests them. */
  function Unstringify(v: JsValue): JsValue {
    match v
    case JsString(s) =>
      if IsNumeralString(s) then
        NumeralStringParses(s);
        JsBigInt(StringToBigInt(s).value)
      else v
    case JsArray(elems) =>
      JsArray(seq(|elems|, i requires 0 <= i < |elems| => Unstringify(elems[i])))
    case JsObject(props) =>
      JsObject(map k | k in props :: Unstringify(props[k]))
    case _ => v
  }

  /** A decimal numeral becomes the integer it denotes: the integer whose
      shortest numeral is the string without its leading zeros. */
  lemma UnstringifyDecimal(s: string)
    requires IsDecimalString(s)
    ensures Unstringify(JsString(s)) == JsBigInt(Value(s, 10))
    ensures BigIntToString(Value(s, 10)) == StripLeadingZeros(s)
  {
    NumeralStringParses(s);
    DecimalValueNumeral(s);
  }

  /** `0x` followed by hexadecimal digits, in either case, becomes their value. */
  lemma UnstringifyHexDigits(h: string)
    requires |h| >= 1 && AllDigits(h, 16)
    ensures Unstringify(JsString("0x" + h)) == JsBigInt(Value(h, 16))
  {
    assert ("0x" + h)[2..] == h;
    NumeralStringParses("0x" + h);
  }

  /** `0x` and the hexadecimal digits of `n`, in either case, become `n`. */
  lemma UnstringifyHex(n: nat)
    ensures Unstringify(JsString("0x" + Numeral(n, 16))) == JsBigInt(n)
    ensures Unstringify(JsString("0x" + UpperHex(Numeral(n, 16)))) == JsBigInt(n)
  {
    var h := Numeral(n, 16);
    UnstringifyHexDigits(h);
    UpperHexValue(h);
    UnstringifyHexDigits(UpperHex(h));
  }

  /** An array is converted element by element: element `i` of the result is
      the conversion of element `i`, and nothing is added, dropped or moved. */
  lemma UnstringifyElements(elems: seq<JsValue>)
    ensures var r := Unstringify(JsArray(elems));
      && r.JsArray?
      && |r.elems| == |elems|
      && forall i :: 0 <= i < |elems| ==> r.elems[i] == Unstringify(elems[i])
  {
  }

  /** A list of decimal strings, such as the public signals, becomes the list
      of the integers they denote, in the same order. */
  lemma UnstringifyDecimalList(ss: seq<string>)
    requires forall i :: 0 <= i < |ss| ==> IsDecimalString(ss[i])
    ensures var r := Unstringify(JsArray(seq(|ss|, i requires 0 <= i < |ss| => JsString(ss[i]))));
      && r.JsArray?
      && |r.elems| == |ss|
      && forall i :: 0 <= i < |ss| ==> IsDecimalString(ss[i]) && r.elems[i] == JsBigInt(Value(ss[i], 10))
  {
    forall i | 0 <= i < |ss| {
      UnstringifyDecimal(ss[i]);
    }
  }

  /** With an upper-case `0X` prefix the string is left as it is, although
      `BigInt` itself would accept it. */
  lemma UnstringifyUpperPrefix(h: string)
    ensures Unstringify(JsString("0X" + h)) == JsString("0X" + h)
  {
    var w := "0X" + h;
    assert w[1] == 'X' && !IsDigitIn(w[1], 10);
  }

  /** No string anywhere in `v` is one the converter would replace. */
  predicate NumeralFree(v: JsValue) {
    match v
    case JsString(s) => !IsNumeralString(s)
    case JsArray(elems) => forall i :: 0 <= i < |elems| ==> NumeralFree(elems[i])
    case JsObject(props) => forall k :: k in props ==> NumeralFree(props[k])
    case _ => true
  }

  /** The result holds no string the converter would replace. */
  lemma {:induction false} UnstringifyNumeralFree(v: JsValue)
    ensures NumeralFree(Unstringify(v))
  {
    match v
    case JsArray(elems) =>
      forall i | 0 <= i < |elems| {
        UnstringifyNumeralFree(elems[i]);
      }
    case JsObject(props) =>
      forall k | k in props {
        UnstringifyNumeralFree(props[k]);
      }
    case _ =>
  }

  /** The converter leaves a value unchanged exactly when it holds no
      numeral string: null, undefined, booleans, Numbers, BigInts, every
      other string, and arrays and objects made only of such values. */
  lemma {:induction false} UnstringifyFixpoint(v: JsValue)
    ensures Unstringify(v) == v <==> NumeralFree(v)
  {
    if Unstringify(v) == v {
      UnstringifyNumeralFree(v);
    }
    if NumeralFree(v) {
      match v
      case JsArray(elems) =>
        forall i | 0 <= i < |elems| ensures Unstringify(elems[i]) == elems[i] {
          UnstringifyFixpoint(elems[i]);
        }
        assert Unstringify(v).elems == elems;
      case JsObject(props) =>
        forall k | k in props ensures Unstringify(props[k]) == props[k] {
          UnstringifyFixpoint(props[k]);
        }
        assert Unstringify(v).props == props;
      case _ =>
    }
  }

  /** Converting a second time changes nothing. */
  lemma UnstringifyIdempotent(v: JsValue)
    ensures Unstringify(Unstringify(v)) == Unstringify(v)
  {
    UnstringifyNumeralFree(v);
    UnstringifyFixpoint(Unstringify(v));
  }

  /** The nesting of arrays and objects in a value, with every other value a leaf. */
  datatype Shape = Leaf | ArrayOf(elems: seq<Shape>) | ObjectOf(props: map<string, Shape>)

  function ShapeOf(v: JsValue): Shape {
    match v
    case JsArray(elems) => ArrayOf(seq(|elems|, i requires 0 <= i < |elems| => ShapeOf(elems[i])))
    case JsObject(props) => ObjectOf(map k | k in props :: ShapeOf(props[k]))
    case _ => Leaf
  }

  /** Conversion keeps the structure: the nesting of arrays and objects, every
      array's length and every object's key set, at every depth. */
  lemma {:induction false} UnstringifyKeepsShape(v: JsValue)
    ensures ShapeOf(Unstringify(v)) == ShapeOf(v)
  {
    match v
    case JsString(s) =>
    case JsArray(elems) =>
      var r := Unstringify(v).elems;
      forall i | 0 <= i < |elems| ensures ShapeOf(r[i]) == ShapeOf(elems[i]) {
        UnstringifyKeepsShape(elems[i]);
      }
      assert ShapeOf(Unstringify(v)).elems == ShapeOf(v).elems;
    case JsObject(props) =>
      var r := Unstringify(v).props;
      forall k | k in props ensures ShapeOf(r[k]) == ShapeOf(props[k]) {
        UnstringifyKeepsShape(props[k]);
      }
      assert ShapeOf(Unstringify(v)).props == ShapeOf(v).props;
    case _ =>
  }

  /** The object branch as the source runs it: a fresh result filled key by
      key (`keys.forEach`), each value converted. */
  method RebuildObject(props: map<string, JsValue>) returns (res: map<string, JsValue>)
    ensures res.Keys == props.Keys
    ensures forall k :: k in res ==> res[k] == Unstringify(props[k])
    ensures JsObject(res) == Unstringify(JsObject(props))
  {
    res := map[];
    var keys := props.Keys;
    while keys != {}
      invariant keys <= props.Keys
      invariant res.Keys == props.Keys - keys
      invariant forall k :: k in res ==> res[k] == Unstringify(props[k])
      decreases |keys|
    {
      var k :| k in keys;
      res := res[k := Unstringify(props[k])];
      keys := keys - {k};
    }
    ghost var expected := Unstringify(JsObject(props)).props;
    assert expected.Keys == res.Keys;
    assert res == expected;
  }
}
