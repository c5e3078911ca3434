/**
 * The bencode decoder of `src/decoder.rs`. It handles only the byte-string
 * form `<len>:<payload>` of bencoding (BEP 3). Text is a sequence of
 * characters and positions count characters, which agrees with Rust's byte
 * offsets on ASCII text. Every panic of the source becomes a `DecodeError`.
 */
module Decoder {
  import opened Text

  /** Largest value of Rust's `i64`. */
  const I64_MAX: nat := 0x7FFF_FFFF_FFFF_FFFF

  /** The decoded value; the decoder only ever builds `serde_json::Value::String`. */
  datatype JsonValue = JsonString(text: string)

  datatype BencodedValue = BencodedValue(value: JsonValue)

  /** One variant per panic of the source. */
  datatype DecodeError =
    | EmptyInput       // the first character is missing (`chars.next().unwrap()`)
    | UnhandledValue   // the first character is not a decimal digit
    | MissingColon     // no ':' in the input (`find(':').unwrap()`)
    | InvalidLength    // the text before the colon is not an `i64`
    | SliceOutOfRange  // fewer than the declared number of characters follow the colon

  datatype Result<T> = Ok(value: T) | Err(error: DecodeError)

  /**
   * `str::parse::<i64>` on a string whose first character is a digit: the
   * whole string must be digits (leading zeros allowed) and the value must
   * fit in an `i64`. A sign can only come first, so it never arises here.
   */
  function ParseI64(s: string): (r: Option<nat>)
    requires |s| > 0 ==> IsDigit(s[0])
    ensures r.Some? <==> AllDigits(s) && |s| > 0 && Value(s) <= I64_MAX
    ensures r.Some? ==> r.value == Value(s) && r.value <= I64_MAX
  {
    if |s| > 0 && AllDigits(s) && Value(s) <= I64_MAX then Some(Value(s)) else None
  }

  /**
   * `decode_bencoded_string`: the payload is the `N` characters after the
   * first colon, where `N` is the number before it; the count returned is
   * `N` itself, not the number of characters consumed.
   */
  function DecodeBencodedString(s: string): (r: Result<(JsonValue, nat)>)
    requires |s| > 0 && IsDigit(s[0])
    ensures r == Err(MissingColon) <==> ':' !in s
    ensures r == Err(InvalidLength) <==>
              IndexOf(s, ':').Some? && ParseI64(s[..IndexOf(s, ':').value]).None?
    ensures r == Err(SliceOutOfRange) <==>
              IndexOf(s, ':').Some? && ParseI64(s[..IndexOf(s, ':').value]).Some? &&
              IndexOf(s, ':').value + 1 + ParseI64(s[..IndexOf(s, ':').value]).value > |s|
    ensures r.Ok? ==> r.value.1 <= I64_MAX && |r.value.0.text| == r.value.1
    ensures r.Ok? ==>
              IndexOf(s, ':').Some? && IndexOf(s, ':').value + 1 + r.value.1 <= |s| &&
              r.value.0.text == s[IndexOf(s, ':').value + 1..IndexOf(s, ':').value + 1 + r.value.1]
  {
    match IndexOf(s, ':')
    case None => Err(MissingColon)
    case Some(colon) => DecodeAfterColon(s, colon)
  }

  /** The length before the colon at `colon` and the payload after it. */
  function DecodeAfterColon(s: string, colon: nat): (r: Result<(JsonValue, nat)>)
    requires colon < |s| && IsDigit(s[0])
    ensures r != Err(MissingColon)
    ensures r == Err(InvalidLength) <==> ParseI64(s[..colon]).None?
    ensures r == Err(SliceOutOfRange) <==>
              ParseI64(s[..colon]).Some? && colon + 1 + ParseI64(s[..colon]).value > |s|
    ensures r.Ok? ==> r.value.1 <= I64_MAX && |r.value.0.text| == r.value.1
    ensures r.Ok? ==> colon + 1 + r.value.1 <= |s| && r.value.0.text == s[colon + 1..colon + 1 + r.value.1]
  {
    match ParseI64(s[..colon])
    case None => Err(InvalidLength)
    case Some(number) =>
      if colon + 1 + number <= |s| then Ok((JsonString(s[colon + 1..colon + 1 + number]), number))
      else Err(SliceOutOfRange)
  }

  /** `decode_bencoded_value`: dispatch on the first character; only digits are handled. */
  function DecodeBencodedValue(s: string): (r: Result<(JsonValue, nat)>)
    ensures r == Err(EmptyInput) <==> s == []
    ensures r == Err(UnhandledValue) <==> s != [] && !IsDigit(s[0])
    ensures s != [] && IsDigit(s[0]) ==> r == DecodeBencodedString(s)
  {
    if s == [] then Err(EmptyInput)
    else if !IsDigit(s[0]) then Err(UnhandledValue)
    else DecodeBencodedString(s)
  }

  /** `BencodedValue::decode`: the decoded value, with the count dropped. */
  function Decode(s: string): (r: Result<BencodedValue>)
    ensures r.Ok? <==> DecodeBencodedValue(s).Ok?
    ensures r.Ok? ==> r.value.value == DecodeBencodedValue(s).value.0
    ensures r.Err? ==> r.error == DecodeBencodedValue(s).error
  {
    match DecodeBencodedValue(s)
    case Ok((value, _)) => Ok(BencodedValue(value))
    case Err(e) => Err(e)
  }

  // ---------------------------------------------------------------------------
  // Properties

  /** Parsing reads back the decimal formatting of every number that fits in an `i64`. */
  lemma {:induction false} ParseI64OfFormat(n: nat)
    requires n <= I64_MAX
    ensures ParseI64(Format(n)) == Some(n)
  {
    ValueOfFormat(n);
  }

  /**
   * Conversely, a parse of text without a redundant leading zero succeeds only
   * on the formatting of the number it returns; leading zeros parse as well,
   * so the canonical text is the only one that formats back to itself.
   */
  lemma {:induction false} ParseI64Canonical(s: string)
    requires |s| > 0 && IsDigit(s[0]) && (|s| > 1 ==> s[0] != '0')
    ensures ParseI64(s).Some? ==> s == Format(ParseI64(s).value)
  {
    if ParseI64(s).Some? {
      FormatOfValue(s);
    }
  }

  /** "007" parses to 7 although it is not the formatting of 7. */
  lemma LeadingZerosParse()
    ensures ParseI64("007") == Some(7) && Format(7) != "007"
  {
    assert "007"[..2] == "00" && "00"[..1] == "0" && "0"[..0] == [];
    assert Value("0") == 0 && Value("00") == 0 && Value("007") == 7;
    assert Format(7)[0] != '0';
  }

  /**
   * Input `digits ':' rest` with `digits` denoting `n` and at least `n`
   * characters in `rest` decodes to the first `n` characters of `rest`, with
   * count `n`. `rest` may itself contain ':' and anything after its first
   * `n` characters is ignored.
   */
  lemma DecodeSplit(digits: string, rest: string, n: nat)
    requires |digits| > 0 && AllDigits(digits) && n == Value(digits) && n <= I64_MAX
    requires n <= |rest|
    ensures DecodeBencodedValue(digits + [':'] + rest) == Ok((JsonString(rest[..n]), n))
  {
    SplitFacts(digits, rest);
    DecodeAtColon(digits + [':'] + rest, |digits|, n, rest[..n]);
  }

  /**
   * Conversely, every successful decode reads `digits ':' rest`: the count is
   * the number the digits denote and the value is the start of `rest`.
   */
  lemma DecodeSound(s: string) returns (digits: string, rest: string)
    requires DecodeBencodedValue(s).Ok?
    ensures s == digits + [':'] + rest
    ensures |digits| > 0 && AllDigits(digits) && Value(digits) == DecodeBencodedValue(s).value.1
    ensures DecodeBencodedValue(s).value.1 <= |rest|
    ensures DecodeBencodedValue(s).value.0 == JsonString(rest[..Value(digits)])
  {
    var colon := IndexOf(s, ':').value;
    digits, rest := s[..colon], s[colon + 1..];
    assert s == digits + [':'] + rest;
    assert s[colon + 1..colon + 1 + Value(digits)] == rest[..Value(digits)];
  }

  /** What `DecodeAtColon` needs to know about `digits ':' rest`. */
  lemma SplitFacts(digits: string, rest: string)
    requires |digits| > 0 && AllDigits(digits) && Value(digits) <= I64_MAX && Value(digits) <= |rest|
    ensures IsDigit((digits + [':'] + rest)[0])
    ensures IndexOf(digits + [':'] + rest, ':') == Some(|digits|)
    ensures ParseI64((digits + [':'] + rest)[..|digits|]) == Some(Value(digits))
    ensures (digits + [':'] + rest)[|digits| + 1..|digits| + 1 + Value(digits)] == rest[..Value(digits)]
  {
    assert (digits + [':'] + rest)[0] == digits[0];
    SplitColon(digits, rest);
    SplitLength(digits, rest);
  }

  lemma SplitColon(digits: string, rest: string)
    requires AllDigits(digits)
    ensures IndexOf(digits + [':'] + rest, ':') == Some(|digits|)
  {
    DigitsHaveNoColon(digits);
    IndexOfAfter(digits, ':', rest);
  }

  lemma SplitLength(digits: string, rest: string)
    requires |digits| > 0 && AllDigits(digits) && Value(digits) <= I64_MAX && Value(digits) <= |rest|
    ensures ParseI64((digits + [':'] + rest)[..|digits|]) == Some(Value(digits))
    ensures (digits + [':'] + rest)[|digits| + 1..|digits| + 1 + Value(digits)] == rest[..Value(digits)]
  {
    var s := digits + [':'] + rest;
    assert s[..|digits|] == digits;
    assert ParseI64(digits) == Some(Value(digits));
    assert s[|digits| + 1..] == rest;
  }

  lemma DigitsHaveNoColon(digits: string)
    requires AllDigits(digits)
    ensures ':' !in digits
  {
    forall i | 0 <= i < |digits| ensures digits[i] != ':' { assert IsDigit(digits[i]); }
  }

  /** Unfolds `DecodeBencodedString` once the colon and the length are known. */
  lemma DecodeAtColon(s: string, colon: nat, n: nat, payload: string)
    requires |s| > 0 && IsDigit(s[0])
    requires IndexOf(s, ':') == Some(colon) && ParseI64(s[..colon]) == Some(n)
    requires colon + 1 + n <= |s| && payload == s[colon + 1..colon + 1 + n]
    ensures DecodeBencodedValue(s) == Ok((JsonString(payload), n))
  {
    AfterColonOk(s, colon, n, payload);
    assert DecodeBencodedString(s) == Ok((JsonString(payload), n));
  }

  lemma AfterColonOk(s: string, colon: nat, n: nat, payload: string)
    requires colon < |s| && IsDigit(s[0]) && ParseI64(s[..colon]) == Some(n)
    requires colon + 1 + n <= |s| && payload == s[colon + 1..colon + 1 + n]
    ensures DecodeAfterColon(s, colon) == Ok((JsonString(payload), n))
  {
  }

  /** The canonical string form `<len>:<payload>` of BEP 3, followed by anything, decodes to the payload. */
  lemma DecodeCanonical(payload: string, trailing: string)
    requires |payload| <= I64_MAX
    ensures Decode(Format(|payload|) + [':'] + payload + trailing) == Ok(BencodedValue(JsonString(payload)))
  {
    ValueOfFormat(|payload|);
    assert Format(|payload|) + [':'] + payload + trailing == Format(|payload|) + [':'] + (payload + trailing);
    DecodeSplit(Format(|payload|), payload + trailing, |payload|);
    assert (payload + trailing)[..|payload|] == payload;
  }

  /** "5:hello" yields the count 5, the declared length, although 7 characters were consumed. */
  lemma CountIsDeclaredLength()
    ensures DecodeBencodedValue("5:hello") == Ok((JsonString("hello"), 5))
  {
    assert "5:hello" == "5" + [':'] + "hello";
    assert AllDigits("5") && "5"[..0] == [] && Value("5") == 5;
    DecodeSplit("5", "hello", 5);
    assert "hello"[..5] == "hello";
  }

  /** A declared length longer than what follows the colon is rejected: "5:hi". */
  lemma TruncatedPayload()
    ensures DecodeBencodedValue("5:hi") == Err(SliceOutOfRange)
  {
    assert "5:hi"[0] == '5' && "5:hi"[1] == ':';
    assert IndexOf("5:hi", ':') == Some(1);
    assert "5:hi"[..1] == "5" && Value("5") == 5;
  }

  /** A non-digit in front of the colon makes the length unparsable: "5a:hello". */
  lemma NonDigitLength()
    ensures DecodeBencodedValue("5a:hello") == Err(InvalidLength)
  {
    var s := "5a:hello";
    assert s[0] == '5' && s[1] == 'a' && s[2] == ':';
    assert IndexOf(s, ':') == Some(2);
    assert !IsDigit(s[..2][1]);
  }
}
