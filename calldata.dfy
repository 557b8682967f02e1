/** The two call-data pipelines of Q2/test/test.js: the flat string that
    snarkjs exports is cut into the arguments of the verifier contract's
    `verifyProof`, for a Groth16 verifier (four arguments, every field
    re-rendered as a decimal BigInt) and for a PLONK verifier (two
    arguments, taken verbatim). */
module CallData {
  import opened Wrappers
  import opened Numerals
  import opened Text

  /** The character class `["[\]\s]`. */
  predicate IsGroth16Noise(c: char) {
    c == '"' || c == '[' || c == ']' || IsJsSpace(c)
  }

  /** The character class `[["\]]`. */
  predicate IsPlonkNoise(c: char) {
    c == '[' || c == '"' || c == ']'
  }

  /** `argv[i]`, which is `undefined` past the end of the array. */
  function At(argv: seq<string>, i: nat): Option<string> {
    if i < |argv| then Some(argv[i]) else None
  }

  // ---------------------------------------------------------------- Groth16

  /** `BigInt(x).toString()`; `None` is the SyntaxError `BigInt` throws. */
  function NormalizeField(x: string): (r: Option<string>)
    ensures r.Some? <==> StringToBigInt(x).Some?
    ensures r.Some? ==> IsCanonicalInt(r.value)
  {
    match StringToBigInt(x)
    case Some(n) => Some(BigIntToString(n))
    case None => None
  }

  /** The rendering keeps the field's value: `BigInt` of it is `BigInt` of the field. */
  lemma NormalizeFieldValue(x: string)
    ensures NormalizeField(x).Some? ==> StringToBigInt(NormalizeField(x).value) == StringToBigInt(x)
  {
    if StringToBigInt(x).Some? {
      BigIntToStringRoundTrip(StringToBigInt(x).value);
    }
  }

  /** A field is rendered exactly when, trimmed, it is a StrIntegerLiteral. */
  lemma NormalizeFieldAccepts(x: string)
    ensures NormalizeField(x).Some? <==> IsStrIntegerLiteral(Trim(x))
  {
    StringToBigIntAccepts(x);
  }

  /** The exception that ends the pipeline: `BigInt` rejected the field at `index`. */
  datatype CallDataError = SyntaxError(index: nat, field: string)

  /** `fields.map(f)` where `f` throws on `None`: every field mapped, or the
      error of the first field `f` rejects. */
  function MapFields(fields: seq<string>, f: string -> Option<string>): (r: Result<seq<string>, CallDataError>)
    ensures r.Success? ==> |r.value| == |fields|
    ensures r.Success? ==> forall i :: 0 <= i < |fields| ==> f(fields[i]) == Some(r.value[i])
    ensures r.Failure? ==> r.error.index < |fields| && r.error.field == fields[r.error.index]
    ensures r.Failure? ==> f(fields[r.error.index]) == None
    ensures r.Failure? ==> forall i :: 0 <= i < r.error.index ==> f(fields[i]).Some?
  {
    if fields == [] then Success([])
    else
      match f(fields[0])
      case None => Failure(SyntaxError(0, fields[0]))
      case Some(y) =>
        match MapFields(fields[1..], f)
        case Failure(e) => Failure(SyntaxError(e.index + 1, e.field))
        case Success(ys) => Success([y] + ys)
  }

  /** `.map((x) => BigInt(x).toString())`: every field normalised, or the
      error of the first field that is not an integer literal. */
  function NormalizeFields(fields: seq<string>): (r: Result<seq<string>, CallDataError>)
    ensures r.Success? ==> |r.value| == |fields|
    ensures r.Success? ==> forall i :: 0 <= i < |fields| ==> NormalizeField(fields[i]) == Some(r.value[i])
    ensures r.Failure? ==> r.error.index < |fields| && r.error.field == fields[r.error.index]
    ensures r.Failure? ==> NormalizeField(fields[r.error.index]) == None
    ensures r.Failure? ==> forall i :: 0 <= i < r.error.index ==> NormalizeField(fields[i]).Some?
  {
    MapFields(fields, NormalizeField)
  }

  /** The call-data without quotes, brackets and whitespace, split on commas. */
  function Groth16Fields(calldata: string): seq<string> {
    Split(Without(calldata, IsGroth16Noise), ',')
  }

  /** The four arguments of a Groth16 `verifyProof`; `None` is `undefined`. */
  datatype Groth16Args = Groth16Args(
    a: seq<Option<string>>,
    b: seq<seq<Option<string>>>,
    c: seq<Option<string>>,
    input: seq<string>)

  /** `a = argv[0..2]`, `b = [[argv[2], argv[3]], [argv[4], argv[5]]]`,
      `c = argv[6..8]`, `Input = argv.slice(8)`. */
  function Groth16Layout(argv: seq<string>): Groth16Args {
    Groth16Args(
      [At(argv, 0), At(argv, 1)],
      [[At(argv, 2), At(argv, 3)], [At(argv, 4), At(argv, 5)]],
      [At(argv, 6), At(argv, 7)],
      if |argv| > 8 then argv[8..] else [])
  }

  /** The whole Groth16 pipeline from call-data to verifier arguments. It
      fails exactly when some field is not an integer literal, and then
      names the first such field. */
  function Groth16CallData(calldata: string): (r: Result<Groth16Args, CallDataError>)
    ensures var fs := Groth16Fields(calldata);
      r.Success? <==> forall i :: 0 <= i < |fs| ==> NormalizeField(fs[i]).Some?
    ensures var fs := Groth16Fields(calldata);
      r.Failure? ==>
        && r.error.index < |fs| && r.error.field == fs[r.error.index]
        && NormalizeField(fs[r.error.index]) == None
        && forall i :: 0 <= i < r.error.index ==> NormalizeField(fs[i]).Some?
    ensures var fs := Groth16Fields(calldata); var n := if |fs| > 8 then |fs| else 8;
      r.Success? ==>
        && |Groth16Flatten(r.value)| == n
        && (forall i :: 0 <= i < |fs| ==> Groth16Flatten(r.value)[i] == NormalizeField(fs[i]))
        && (forall i :: |fs| <= i < n ==> Groth16Flatten(r.value)[i] == None)
  {
    var normalized := NormalizeFields(Groth16Fields(calldata));
    if normalized.Failure? then Failure(normalized.error)
    else
      NormalizedLayout(Groth16Fields(calldata), normalized.value, NormalizeField);
      Success(Groth16Layout(normalized.value))
  }

  /** On success the arguments have the verifier's shapes: `a` and `c` hold two
      entries, `b` two rows of two, and `Input` the fields from the ninth on,
      so with the read-back order every argument is fixed. */
  lemma Groth16CallDataShapes(calldata: string)
    ensures var fs := Groth16Fields(calldata); var r := Groth16CallData(calldata);
      r.Success? ==>
        && |r.value.a| == 2 && |r.value.b| == 2 && |r.value.b[0]| == 2 && |r.value.b[1]| == 2
        && |r.value.c| == 2
        && |r.value.input| == if |fs| > 8 then |fs| - 8 else 0
  {
  }

  /** The Groth16 pipeline succeeds exactly when every cleaned field is a
      StrIntegerLiteral. */
  lemma Groth16CallDataAccepts(calldata: string)
    ensures var fs := Groth16Fields(calldata);
      Groth16CallData(calldata).Success? <==> forall i :: 0 <= i < |fs| ==> IsStrIntegerLiteral(Trim(fs[i]))
  {
    var fs := Groth16Fields(calldata);
    forall i | 0 <= i < |fs|
      ensures NormalizeField(fs[i]).Some? <==> IsStrIntegerLiteral(Trim(fs[i]))
    {
      NormalizeFieldAccepts(fs[i]);
    }
  }

  /** Reading back the layout of the normalised fields gives each field's
      rendering in order, then `undefined` up to eight positions. */
  lemma NormalizedLayout(fs: seq<string>, ys: seq<string>, f: string -> Option<string>)
    requires |ys| == |fs| && forall i :: 0 <= i < |fs| ==> f(fs[i]) == Some(ys[i])
    ensures var n := if |fs| > 8 then |fs| else 8; var read := Groth16Flatten(Groth16Layout(ys));
      && |read| == n
      && (forall i :: 0 <= i < |fs| ==> read[i] == f(fs[i]))
      && (forall i :: |fs| <= i < n ==> read[i] == None)
  {
    var read := Groth16Flatten(Groth16Layout(ys));
    Groth16LayoutFlatten(ys);
    forall i | 0 <= i < |fs|
      ensures read[i] == f(fs[i])
    {
      assert read[i] == At(ys, i);
    }
  }

  /** The arguments read back in order: `a`, then `b` row by row, then `c`, then `Input`. */
  function Groth16Flatten(g: Groth16Args): seq<Option<string>> {
    g.a + Concat(g.b) + g.c + seq(|g.input|, i requires 0 <= i < |g.input| => Some(g.input[i]))
  }

  function Concat<T>(rows: seq<seq<T>>): seq<T> {
    if rows == [] then [] else rows[0] + Concat(rows[1..])
  }

  /** Cleaning leaves no quote, bracket or whitespace and keeps every other
      character as often as before. */
  lemma Groth16Cleaning(calldata: string)
    ensures var t := Without(calldata, IsGroth16Noise);
      && (forall i :: 0 <= i < |t| ==> !IsGroth16Noise(t[i]))
      && (forall ch :: !IsGroth16Noise(ch) ==> multiset(t)[ch] == multiset(calldata)[ch])
  {
    WithoutKeepsCounts(calldata, IsGroth16Noise);
  }

  /** The fields joined by commas are the cleaned string, none holds a comma,
      and there is one field more than the call-data has commas. */
  lemma Groth16Split(calldata: string)
    ensures Join(Groth16Fields(calldata), ',') == Without(calldata, IsGroth16Noise)
    ensures forall i :: 0 <= i < |Groth16Fields(calldata)| ==> ',' !in Groth16Fields(calldata)[i]
    ensures |Groth16Fields(calldata)| == multiset(calldata)[','] + 1
  {
    var t := Without(calldata, IsGroth16Noise);
    JoinSplit(t, ',');
    SplitCount(t, ',');
    WithoutCounts(calldata, IsGroth16Noise, ',');
  }

  /** A field of decimal digits is rendered without its leading zeros. */
  lemma NormalizeDecimal(x: string)
    requires |x| >= 1 && AllDigits(x, 10)
    ensures NormalizeField(x) == Some(StripLeadingZeros(x))
  {
    StringToBigIntDecimal(x);
    DecimalValueNumeral(x);
  }

  /** A field `0x` or `0X` followed by hexadecimal digits is rendered as the
      decimal numeral of their value. */
  lemma NormalizeHex(x: char, h: string)
    requires x == 'x' || x == 'X'
    requires |h| >= 1 && AllDigits(h, 16)
    ensures NormalizeField(['0', x] + h) == Some(Numeral(Value(h, 16), 10))
  {
    StringToBigIntRadix(x, h);
  }

  /** An empty field is 0, because `BigInt("")` is 0. */
  lemma NormalizeEmpty()
    ensures NormalizeField("") == Some("0")
  {
  }

  /** The characters an integer literal can contain. */
  predicate IsLiteralChar(c: char) {
    IsHexDigit(c) || c == '+' || c == '-' || RadixOf(c) != 0
  }

  lemma ParseRejects(x: string, i: nat)
    requires i < |x| && !IsLiteralChar(x[i])
    ensures ParseIntegerLiteral(x) == None
  {
    assert !IsDigitIn(x[i], 10);
    if |x| >= 2 && x[0] == '0' && RadixOf(x[1]) != 0 {
      assert i >= 2 ==> x[2..][i - 2] == x[i];
    } else if x[0] == '+' || x[0] == '-' {
      assert i >= 1 ==> x[1..][i - 1] == x[i];
    }
  }

  /** A cleaned field holding any character that cannot occur in an integer
      literal (a point, an exponent letter other than a hex digit, ...) makes
      `BigInt` throw. */
  lemma NormalizeRejects(x: string, i: nat)
    requires forall j :: 0 <= j < |x| ==> !IsJsSpace(x[j])
    requires i < |x| && !IsLiteralChar(x[i])
    ensures NormalizeField(x) == None
  {
    StringToBigIntUntrimmed(x);
    ParseRejects(x, i);
  }

  lemma ParseRejectsSignedPrefix(s: char, x: char, h: string)
    requires (s == '+' || s == '-') && RadixOf(x) != 0
    ensures ParseIntegerLiteral([s, '0', x] + h) == None
  {
    var f := [s, '0', x] + h;
    assert f[1..][1] == x && !IsDigitIn(x, 10);
  }

  /** A sign in front of a radix prefix (`-0x1`) makes `BigInt` throw. */
  lemma NormalizeRejectsSignedPrefix(s: char, x: char, h: string)
    requires (s == '+' || s == '-') && RadixOf(x) != 0
    requires forall j :: 0 <= j < |h| ==> !IsJsSpace(h[j])
    ensures NormalizeField([s, '0', x] + h) == None
  {
    var f := [s, '0', x] + h;
    assert !IsJsSpace(f[|f| - 1]);
    StringToBigIntUntrimmed(f);
    ParseRejectsSignedPrefix(s, x, h);
  }

  /** The output of the normalisation is a fixed point of it, and the fixed
      points are exactly the canonical integer strings. */
  lemma NormalizeIdempotent(x: string)
    ensures NormalizeField(x).Some? ==> NormalizeField(NormalizeField(x).value) == NormalizeField(x)
    ensures NormalizeField(x) == Some(x) <==> IsCanonicalInt(x)
  {
    if StringToBigInt(x).Some? {
      BigIntToStringRoundTrip(StringToBigInt(x).value);
    }
    if IsCanonicalInt(x) {
      CanonicalRoundTrip(x);
    }
  }

  /** Normalising every field of a list of canonical integer strings leaves it as it is. */
  lemma {:induction false} NormalizeFieldsCanonical(fields: seq<string>)
    requires forall i :: 0 <= i < |fields| ==> IsCanonicalInt(fields[i])
    ensures NormalizeFields(fields) == Success(fields)
  {
    if fields != [] {
      NormalizeIdempotent(fields[0]);
      NormalizeFieldsCanonical(fields[1..]);
      assert fields == [fields[0]] + fields[1..];
    }
  }

  /** The layout drops and reorders nothing: reading `a`, `b`, `c` and `Input`
      back in order gives `argv[0]`, `argv[1]`, ... and `undefined` for every
      one of the first eight positions the array does not reach. */
  lemma Groth16LayoutFlatten(argv: seq<string>)
    ensures var g := Groth16Layout(argv);
      |g.a| == 2 && |g.b| == 2 && |g.b[0]| == 2 && |g.b[1]| == 2 && |g.c| == 2
    ensures var n := if |argv| > 8 then |argv| else 8;
      Groth16Flatten(Groth16Layout(argv)) == seq(n, i requires 0 <= i < n => At(argv, i))
  {
    var g := Groth16Layout(argv);
    assert Concat(g.b) == g.b[0] + g.b[1] by {
      assert g.b[1..] == [g.b[1]] && [g.b[1]][1..] == [];
      assert Concat([g.b[1]]) == g.b[1] + Concat([]);
    }
  }

  /** The integers `xs`, each rendered as its decimal string. */
  function Render(xs: seq<int>): seq<string> {
    seq(|xs|, i requires 0 <= i < |xs| => BigIntToString(xs[i]))
  }

  /** A decimal rendering has no noise character and no comma. */
  lemma CanonicalIsClean(s: string)
    requires IsCanonicalInt(s)
    ensures forall i :: 0 <= i < |s| ==> !IsGroth16Noise(s[i]) && s[i] != ','
  {
    forall i | 0 <= i < |s| ensures !IsGroth16Noise(s[i]) && s[i] != ',' {
      if !IsCanonicalNat(s) {
        assert i == 0 || s[i] == s[1..][i - 1];
      }
    }
  }

  /** Fields free of noise joined by commas are free of noise. */
  lemma {:induction false} JoinIsClean(fields: seq<string>)
    requires forall i, j :: 0 <= i < |fields| && 0 <= j < |fields[i]| ==> !IsGroth16Noise(fields[i][j])
    ensures Without(Join(fields, ','), IsGroth16Noise) == Join(fields, ',')
  {
    if |fields| == 1 {
      WithoutKeeps(fields[0], IsGroth16Noise);
    } else if |fields| > 1 {
      JoinIsClean(fields[1..]);
      WithoutKeeps(fields[0], IsGroth16Noise);
      WithoutConcat(fields[0], [','] + Join(fields[1..], ','), IsGroth16Noise);
      WithoutConcat([','], Join(fields[1..], ','), IsGroth16Noise);
      assert fields[0] + [','] + Join(fields[1..], ',') == fields[0] + ([','] + Join(fields[1..], ','));
    }
  }

  /** Decimal renderings split back into themselves and normalise to themselves. */
  lemma RenderFields(xs: seq<int>)
    ensures Split(Join(Render(xs), ','), ',') == Render(xs) || xs == []
    ensures NormalizeFields(Render(xs)) == Success(Render(xs))
  {
    var fs := Render(xs);
    forall i | 0 <= i < |fs| ensures ',' !in fs[i] {
      CanonicalIsClean(fs[i]);
    }
    if xs != [] {
      SplitJoin(fs, ',');
    }
    NormalizeFieldsCanonical(fs);
  }

  /** Round trip: call-data whose cleaned form is the decimal renderings of
      at least eight integers separated by commas (with any quotes, brackets
      and whitespace around them) parses to those renderings, laid out as
      `a`, `b`, `c` and `Input`. */
  lemma Groth16RoundTrip(calldata: string, xs: seq<int>)
    requires |xs| >= 8
    requires Without(calldata, IsGroth16Noise) == Join(Render(xs), ',')
    ensures Groth16CallData(calldata) == Success(Groth16Layout(Render(xs)))
  {
    RenderFields(xs);
  }

  /** In particular the decimal renderings joined by commas parse back to
      themselves, and `a`, `b`, `c`, `Input` read back in order are exactly them. */
  lemma Groth16RoundTripPlain(xs: seq<int>)
    requires |xs| >= 8
    ensures Groth16CallData(Join(Render(xs), ',')) == Success(Groth16Layout(Render(xs)))
    ensures Groth16Flatten(Groth16Layout(Render(xs))) == seq(|xs|, i requires 0 <= i < |xs| => Some(BigIntToString(xs[i])))
  {
    var fs := Render(xs);
    assert Without(Join(fs, ','), IsGroth16Noise) == Join(fs, ',') by {
      forall i, j | 0 <= i < |fs| && 0 <= j < |fs[i]| ensures !IsGroth16Noise(fs[i][j]) {
        CanonicalIsClean(fs[i]);
      }
      JoinIsClean(fs);
    }
    Groth16RoundTrip(Join(fs, ','), xs);
    Groth16LayoutRender(xs);
  }

  lemma Groth16LayoutRender(xs: seq<int>)
    requires |xs| >= 8
    ensures Groth16Flatten(Groth16Layout(Render(xs))) == seq(|xs|, i requires 0 <= i < |xs| => Some(BigIntToString(xs[i])))
  {
    Groth16LayoutFlatten(Render(xs));
  }

  // ------------------------------------------------------------------ PLONK

  /** The two arguments of a PLONK `verifyProof`; `None` is `undefined`. */
  datatype PlonkArgs = PlonkArgs(proof: string, pubSignals: seq<Option<string>>)

  /** `calldata.replace(/[["\]]/g, "").split(",")`, then `argv[0]` and `[argv[1]]`. */
  function PlonkCallData(calldata: string): PlonkArgs {
    var argv := Split(Without(calldata, IsPlonkNoise), ',');
    PlonkArgs(argv[0], [At(argv, 1)])
  }

  /** Only quotes and brackets are removed: whitespace and every other
      character keep their counts. */
  lemma PlonkCleaning(calldata: string)
    ensures var t := Without(calldata, IsPlonkNoise);
      && (forall i :: 0 <= i < |t| ==> !IsPlonkNoise(t[i]))
      && (forall ch :: !IsPlonkNoise(ch) ==> multiset(t)[ch] == multiset(calldata)[ch])
  {
    WithoutKeepsCounts(calldata, IsPlonkNoise);
  }

  /** The proof argument is the cleaned text up to its first comma, verbatim;
      the public-signal argument is a one-element list holding the text between
      the first and the second comma, or `undefined` when there is no comma. */
  lemma PlonkFirstTwoFields(calldata: string)
    ensures var t := Without(calldata, IsPlonkNoise);
      var r := PlonkCallData(calldata);
      && ',' !in r.proof
      && |r.pubSignals| == 1
      && (',' !in t ==> r.proof == t && r.pubSignals[0] == None)
      && (',' in t ==>
            && r.pubSignals[0].Some?
            && ',' !in r.pubSignals[0].value
            && var k := |r.proof| + 1 + |r.pubSignals[0].value|;
            && k <= |t|
            && t[..k] == r.proof + [','] + r.pubSignals[0].value
            && (k == |t| || t[k] == ','))
  {
    SplitFirstTwo(Without(calldata, IsPlonkNoise), ',');
  }
}
