/**
 The two signature formats of crypto/crypto_utils/signatures.py. The library's DER codec is modelled from
 section 2.2.3 of RFC 3279 (a SEQUENCE of two INTEGERs) and section 8.3 of ITU-T X.690 (the shortest
 two's-complement form). It refuses negative numbers, and no length here needs the long form.
 */
module Signatures {
  import opened Wrappers
  import opened Bytes
  import opened Sequences

  const RAW_SIG_LEN := 64

  const CURVE_SCALAR_LEN := 32

  const TAG_INTEGER := 0x02

  const TAG_SEQUENCE := 0x30

  datatype SignatureError = NotDer | IntegerTooLarge | WrongLength

  // ---------- Big-endian integers ----------

  /** `int.from_bytes(b, "big")` */
  function FromBe(b: bytes): nat {
    if b == [] then 0 else 256 * FromBe(Init(b)) + Last(b)
  }

  /** `n.to_bytes(k, "big")` for an n that fits */
  function ToBe(n: nat, k: nat): (b: bytes)
    ensures |b| == k
  {
    if k == 0 then [] else ToBe(n / 256, k - 1) + [n % 256]
  }

  /** The digits of n in base 256, without leading zeros. */
  function Digits(n: nat): bytes {
    if n == 0 then [] else Digits(n / 256) + [n % 256]
  }

  lemma {:induction false} FromBeAppend(b: bytes, d: byte)
    ensures FromBe(b + [d]) == 256 * FromBe(b) + d
  {
    assert Init(b + [d]) == b;
  }

  lemma {:induction false} ToBeValue(n: nat, k: nat)
    requires |Digits(n)| <= k
    ensures FromBe(ToBe(n, k)) == n
  {
    if k > 0 {
      ToBeValue(n / 256, k - 1);
      FromBeAppend(ToBe(n / 256, k - 1), n % 256);
    }
  }

  lemma {:induction false} DigitSplit(high: nat, low: byte)
    ensures (256 * high + low) / 256 == high && (256 * high + low) % 256 == low
  {
  }

  lemma {:induction false} ToBeOfValue(b: bytes)
    ensures ToBe(FromBe(b), |b|) == b
  {
    if b != [] {
      ToBeOfValue(Init(b));
      DigitSplit(FromBe(Init(b)), Last(b));
    }
  }

  lemma {:induction false} DigitsValue(n: nat)
    ensures FromBe(Digits(n)) == n
    ensures Digits(n) != [] ==> Digits(n)[0] != 0
    ensures n == 0 <==> Digits(n) == []
  {
    if n > 0 {
      DigitsValue(n / 256);
      FromBeAppend(Digits(n / 256), n % 256);
    }
  }

  lemma {:induction false} DigitsOfValue(b: bytes)
    requires b != [] ==> b[0] != 0
    ensures Digits(FromBe(b)) == b
    ensures b != [] ==> FromBe(b) > 0
  {
    if b != [] {
      DigitsOfValue(Init(b));
      DigitSplit(FromBe(Init(b)), Last(b));
      if |b| == 1 {
        assert Init(b) == [];
      }
    }
  }

  lemma {:induction false} LeadingZero(b: bytes)
    ensures FromBe([0] + b) == FromBe(b)
  {
    if b == [] {
      assert Init([0] + b) == [];
    } else {
      LeadingZero(Init(b));
      assert Init([0] + b) == [0] + Init(b);
    }
  }

  lemma {:induction false} FromBeFits(b: bytes)
    ensures |Digits(FromBe(b))| <= |b|
  {
    if b != [] {
      FromBeFits(Init(b));
      DigitSplit(FromBe(Init(b)), Last(b));
    }
  }

  /** A number has at most k digits exactly when it is below 256 to the power k. */
  lemma {:induction false} DigitCount(n: nat, k: nat)
    ensures |Digits(n)| <= k <==> n < Power256(k)
  {
    if n > 0 && k > 0 {
      DigitCount(n / 256, k - 1);
      assert n == 256 * (n / 256) + n % 256;
    }
  }

  // ---------- DER integers ----------

  /** The content octets of a non-negative INTEGER: shortest form, with a zero in front if the sign bit would be set. */
  function IntegerContent(n: nat): bytes {
    var digits := Digits(n);
    if digits == [] || digits[0] >= 128 then [0] + digits else digits
  }

  predicate IsShortest(content: bytes) {
    && content != [] && content[0] < 128
    && (|content| > 1 && content[0] == 0 ==> content[1] >= 128)
  }

  lemma {:induction false} ContentRoundTrip(n: nat)
    ensures IsShortest(IntegerContent(n)) && FromBe(IntegerContent(n)) == n
  {
    DigitsValue(n);
    LeadingZero(Digits(n));
  }

  /** Shortest form is unique: content octets that pass the check are the encoding of their value. */
  lemma {:induction false} ContentUnique(content: bytes)
    requires IsShortest(content)
    ensures IntegerContent(FromBe(content)) == content
  {
    if content[0] == 0 {
      var rest := content[1..];
      assert content == [0] + rest;
      LeadingZero(rest);
      DigitsOfValue(rest);
    } else {
      DigitsOfValue(content);
    }
  }

  /** 32 bytes hold n: it is below 2 to the power 256. */
  predicate Fits(n: nat) {
    |Digits(n)| <= CURVE_SCALAR_LEN
  }

  /** `to_bytes` with 32 bytes succeeds exactly below 2 to the power 256, here 256 to the power k. */
  lemma {:induction false} FitsMeansBelowLimit(n: nat, k: nat)
    requires k == 32
    ensures Fits(n) <==> n < Power256(k)
  {
    DigitCount(n, k);
  }

  function EncodeInteger(n: nat): (b: bytes)
    requires Fits(n)
    ensures |b| <= CURVE_SCALAR_LEN + 3
  {
    [TAG_INTEGER, |IntegerContent(n)|] + IntegerContent(n)
  }

  datatype Parsed = Parsed(value: nat, rest: bytes)

  /** Reads one INTEGER off the front. */
  function ParseInteger(b: bytes): Option<Parsed> {
    if |b| < 2 || b[0] != TAG_INTEGER || b[1] >= 128 || |b| < 2 + b[1] then None
    else
      var content := b[2..2 + b[1]];
      if IsShortest(content) then Some(Parsed(FromBe(content), b[2 + b[1]..])) else None
  }

  lemma {:induction false} ParseEncoded(n: nat, rest: bytes)
    requires Fits(n)
    ensures ParseInteger(EncodeInteger(n) + rest) == Some(Parsed(n, rest))
  {
    var content := IntegerContent(n);
    var b := EncodeInteger(n) + rest;
    assert b[2..2 + |content|] == content && b[2 + |content|..] == rest;
    ContentRoundTrip(n);
  }

  lemma {:induction false} SplitContent(b: bytes, n: nat)
    requires 2 + n <= |b|
    ensures b == [b[0], b[1]] + b[2..2 + n] + b[2 + n..]
  {
  }

  lemma {:induction false} EncodeParsed(b: bytes)
    requires ParseInteger(b).Some? && Fits(ParseInteger(b).value.value)
    ensures EncodeInteger(ParseInteger(b).value.value) + ParseInteger(b).value.rest == b
  {
    var content := b[2..2 + b[1]];
    ContentUnique(content);
    SplitContent(b, b[1]);
  }

  // ---------- The signature codec ----------

  /** A SEQUENCE around its content; one length octet is enough. */
  function Framed(body: bytes): bytes
    requires |body| < 128
  {
    [TAG_SEQUENCE, |body|] + body
  }

  /** The content of a SEQUENCE with nothing behind it. */
  function Unframed(der: bytes): Option<bytes> {
    if |der| < 2 || der[0] != TAG_SEQUENCE || der[1] >= 128 || der[1] != |der| - 2 then None else Some(der[2..])
  }

  lemma {:induction false} FrameRoundTrip(body: bytes, der: bytes)
    requires |body| < 128
    ensures Framed(body) == der <==> Unframed(der) == Some(body)
  {
    if Unframed(der) == Some(body) {
      SplitContent(der, |body|);
    }
  }

  /** `encode_dss_signature`: the content has at most 70 octets. */
  function EncodeDss(r: nat, s: nat): bytes
    requires Fits(r) && Fits(s)
  {
    Framed(EncodeInteger(r) + EncodeInteger(s))
  }

  datatype Pair = Pair(r: nat, s: nat)

  /** Two INTEGERs and nothing else. */
  function ParsePair(b: bytes): Option<Pair> {
    match ParseInteger(b)
    case None => None
    case Some(first) =>
      match ParseInteger(first.rest)
      case None => None
      case Some(second) => if second.rest == [] then Some(Pair(first.value, second.value)) else None
  }

  /** `decode_dss_signature`: one SEQUENCE of two INTEGERs, and nothing behind it. */
  function DecodeDss(der: bytes): Option<Pair> {
    match Unframed(der)
    case None => None
    case Some(body) => ParsePair(body)
  }

  function DerToRaw(der: bytes): Result<bytes, SignatureError> {
    match DecodeDss(der)
    case None => Err(NotDer)
    case Some(p) =>
      if !Fits(p.r) || !Fits(p.s) then Err(IntegerTooLarge)
      else Ok(ToBe(p.r, CURVE_SCALAR_LEN) + ToBe(p.s, CURVE_SCALAR_LEN))
  }

  function RawToDer(raw: bytes): Result<bytes, SignatureError> {
    if |raw| != RAW_SIG_LEN then Err(WrongLength)
    else
      FromBeFits(raw[..CURVE_SCALAR_LEN]);
      FromBeFits(raw[CURVE_SCALAR_LEN..]);
      Ok(EncodeDss(FromBe(raw[..CURVE_SCALAR_LEN]), FromBe(raw[CURVE_SCALAR_LEN..])))
  }

  lemma {:induction false} PairRoundTrip(r: nat, s: nat)
    requires Fits(r) && Fits(s)
    ensures ParsePair(EncodeInteger(r) + EncodeInteger(s)) == Some(Pair(r, s))
  {
    ParseEncoded(r, EncodeInteger(s));
    ParseEncoded(s, []);
    assert EncodeInteger(s) + [] == EncodeInteger(s);
  }

  lemma {:induction false} PairUnique(b: bytes, r: nat, s: nat)
    requires ParsePair(b) == Some(Pair(r, s)) && Fits(r) && Fits(s)
    ensures EncodeInteger(r) + EncodeInteger(s) == b
  {
    var rest := ParseInteger(b).value.rest;
    EncodeParsed(b);
    EncodeParsed(rest);
    assert EncodeInteger(s) + [] == EncodeInteger(s);
  }

  lemma {:induction false} DssRoundTrip(r: nat, s: nat)
    requires Fits(r) && Fits(s)
    ensures DecodeDss(EncodeDss(r, s)) == Some(Pair(r, s))
  {
    var body := EncodeInteger(r) + EncodeInteger(s);
    PairRoundTrip(r, s);
    FrameRoundTrip(body, Framed(body));
  }

  lemma {:induction false} DssUnique(der: bytes, r: nat, s: nat)
    requires DecodeDss(der) == Some(Pair(r, s)) && Fits(r) && Fits(s)
    ensures EncodeDss(r, s) == der
  {
    var body := Unframed(der).value;
    PairUnique(body, r, s);
    FrameRoundTrip(body, der);
  }

  lemma {:induction false} HalvesRoundTrip(r: bytes, s: bytes)
    requires |r| == |s| == CURVE_SCALAR_LEN
    ensures Fits(FromBe(r)) && Fits(FromBe(s)) && DerToRaw(EncodeDss(FromBe(r), FromBe(s))) == Ok(r + s)
  {
    FromBeFits(r);
    FromBeFits(s);
    DssRoundTrip(FromBe(r), FromBe(s));
    ToBeOfValue(r);
    ToBeOfValue(s);
  }

  /** Every raw signature survives the way to DER and back. */
  lemma {:induction false} RawRoundTrip(raw: bytes)
    requires |raw| == 64
    ensures RawToDer(raw).Ok? && DerToRaw(RawToDer(raw).value) == Ok(raw)
  {
    HalvesRoundTrip(raw[..CURVE_SCALAR_LEN], raw[CURVE_SCALAR_LEN..]);
    assert raw == raw[..CURVE_SCALAR_LEN] + raw[CURVE_SCALAR_LEN..];
  }

  /**
   Every DER signature that converts to raw form at all converts back to itself: the conversions are inverse
   bijections between 64-byte strings and the DER signatures whose two numbers fit 32 bytes.
   */
  lemma {:induction false} DerRoundTrip(der: bytes)
    requires DerToRaw(der).Ok?
    ensures |DerToRaw(der).value| == 64 && RawToDer(DerToRaw(der).value) == Ok(der)
  {
    var p := DecodeDss(der).value;
    var raw := DerToRaw(der).value;
    ToBeValue(p.r, CURVE_SCALAR_LEN);
    ToBeValue(p.s, CURVE_SCALAR_LEN);
    assert raw[..CURVE_SCALAR_LEN] == ToBe(p.r, CURVE_SCALAR_LEN) && raw[CURVE_SCALAR_LEN..] == ToBe(p.s, CURVE_SCALAR_LEN);
    DssUnique(der, p.r, p.s);
  }

  /** Exactly which byte strings are accepted: the encodings of raw signatures. */
  lemma {:induction false} AcceptedDer(der: bytes)
    ensures DerToRaw(der).Ok? <==> exists raw :: |raw| == 64 && RawToDer(raw) == Ok(der)
  {
    if DerToRaw(der).Ok? {
      DerRoundTrip(der);
    }
    if raw :| |raw| == RAW_SIG_LEN && RawToDer(raw) == Ok(der) {
      RawRoundTrip(raw);
    }
  }

  // ---------- The two formats, byte by byte ----------

  /** The octets of a non-negative INTEGER: sign bit clear, and no zero in front that it does not need. */
  predicate IsNatural(a: bytes) {
    && a != [] && a[0] < 128
    && (|a| > 1 && a[0] == 0 ==> a[1] >= 128)
  }

  /** Its number fits 32 bytes: at most 33 octets, and 33 only for a zero in front. */
  predicate IsScalar(a: bytes) {
    IsNatural(a) && (|a| <= 32 || (|a| == 33 && a[0] == 0))
  }

  /** INTEGER, tag 0x02 */
  function IntegerOf(a: bytes): bytes
    requires |a| < 128
  {
    [0x02, |a|] + a
  }

  /** SEQUENCE, tag 0x30, of two INTEGERs, as far as one length octet reaches. */
  function DerOf(a: bytes, b: bytes): bytes
    requires |a| + |b| < 124
  {
    [0x30, 4 + |a| + |b|] + IntegerOf(a) + IntegerOf(b)
  }

  /** The same number in 32 bytes. */
  function RightAligned(a: bytes): (r: bytes)
    requires IsScalar(a)
    ensures |r| == 32
  {
    if |a| == 33 then a[1..] else Zeros(32 - |a|) + a
  }

  lemma {:induction false} ZerosInFront(k: nat, b: bytes)
    ensures FromBe(Zeros(k) + b) == FromBe(b)
  {
    if k == 0 {
      assert Zeros(k) + b == b;
    } else {
      ZerosInFront(k - 1, b);
      LeadingZero(Zeros(k - 1) + b);
      assert Zeros(k) + b == [0] + (Zeros(k - 1) + b);
    }
  }

  /** How many digits a content has: all its octets, but for a zero in front. */
  lemma {:induction false} ContentDigits(a: bytes)
    requires IsNatural(a)
    ensures |Digits(FromBe(a))| == if a[0] == 0 then |a| - 1 else |a|
    ensures Fits(FromBe(a)) <==> IsScalar(a)
  {
    if a[0] == 0 {
      assert a == [0] + a[1..];
      LeadingZero(a[1..]);
      DigitsOfValue(a[1..]);
    } else {
      DigitsOfValue(a);
    }
  }

  lemma {:induction false} AlignedValue(a: bytes)
    requires IsScalar(a)
    ensures Fits(FromBe(a)) && ToBe(FromBe(a), CURVE_SCALAR_LEN) == RightAligned(a) && FromBe(RightAligned(a)) == FromBe(a)
  {
    ContentDigits(a);
    if |a| == 33 {
      assert a == [0] + a[1..];
      LeadingZero(a[1..]);
    } else {
      ZerosInFront(32 - |a|, a);
    }
    ToBeOfValue(RightAligned(a));
  }

  lemma {:induction false} IntegerIsParsed(a: bytes, rest: bytes)
    requires IsNatural(a) && |a| < 128
    ensures ParseInteger(IntegerOf(a) + rest) == Some(Parsed(FromBe(a), rest))
  {
    var b := IntegerOf(a) + rest;
    assert b[2..2 + |a|] == a && b[2 + |a|..] == rest;
  }

  lemma {:induction false} ParsedIsInteger(b: bytes) returns (a: bytes)
    requires ParseInteger(b).Some?
    ensures IsNatural(a) && |a| < 128
    ensures b == IntegerOf(a) + ParseInteger(b).value.rest && ParseInteger(b).value.value == FromBe(a)
  {
    a := b[2..2 + b[1]];
    SplitContent(b, b[1]);
  }

  lemma {:induction false} DerIsDecoded(a: bytes, b: bytes)
    requires IsNatural(a) && IsNatural(b) && |a| + |b| < 124
    ensures DecodeDss(DerOf(a, b)) == Some(Pair(FromBe(a), FromBe(b)))
  {
    IntegerIsParsed(a, IntegerOf(b));
    IntegerIsParsed(b, []);
    assert IntegerOf(b) + [] == IntegerOf(b);
    assert DerOf(a, b)[2..] == IntegerOf(a) + IntegerOf(b);
  }

  lemma {:induction false} PairIsIntegers(body: bytes) returns (a: bytes, b: bytes)
    requires ParsePair(body).Some?
    ensures IsNatural(a) && |a| < 128 && IsNatural(b) && |b| < 128 && body == IntegerOf(a) + IntegerOf(b)
  {
    var rest := ParseInteger(body).value.rest;
    a := ParsedIsInteger(body);
    b := ParsedIsInteger(rest);
    assert IntegerOf(b) + [] == IntegerOf(b);
  }

  lemma {:induction false} UnframedIsSequence(der: bytes)
    requires Unframed(der).Some?
    ensures |Unframed(der).value| < 128 && der == [0x30, |Unframed(der).value|] + Unframed(der).value
  {
    assert der == [der[0], der[1]] + der[2..];
  }

  lemma {:induction false} SequenceOfTwo(a: bytes, b: bytes, body: bytes)
    requires |a| < 128 && |b| < 128 && body == IntegerOf(a) + IntegerOf(b) && |body| < 128
    ensures |a| + |b| < 124 && [0x30, |body|] + body == DerOf(a, b)
  {
    assert |body| == 4 + |a| + |b|;
  }

  lemma {:induction false} DecodedIsDer(der: bytes) returns (a: bytes, b: bytes)
    requires DecodeDss(der).Some?
    ensures IsNatural(a) && IsNatural(b) && |a| + |b| < 124 && der == DerOf(a, b)
  {
    UnframedIsSequence(der);
    a, b := PairIsIntegers(Unframed(der).value);
    SequenceOfTwo(a, b, Unframed(der).value);
  }

  /**
   The DER form, read: two contents side by side are r and s, in this order, each right-aligned in 32 bytes; a
   number that needs more is too large; and nothing else is DER.
   */
  lemma {:induction false} DerInBytes(der: bytes)
    ensures forall a, b :: IsNatural(a) && IsNatural(b) && |a| + |b| < 124 && der == DerOf(a, b) ==>
              DerToRaw(der) == if IsScalar(a) && IsScalar(b) then Ok(RightAligned(a) + RightAligned(b)) else Err(IntegerTooLarge)
    ensures DerToRaw(der) != Err(NotDer) <==> exists a, b :: IsNatural(a) && IsNatural(b) && |a| + |b| < 124 && der == DerOf(a, b)
  {
    forall a, b | IsNatural(a) && IsNatural(b) && |a| + |b| < 124 && der == DerOf(a, b)
      ensures DerToRaw(der) == if IsScalar(a) && IsScalar(b) then Ok(RightAligned(a) + RightAligned(b)) else Err(IntegerTooLarge)
    {
      DerIsDecoded(a, b);
      ContentDigits(a);
      ContentDigits(b);
      if IsScalar(a) && IsScalar(b) {
        AlignedValue(a);
        AlignedValue(b);
      }
    }
    if DecodeDss(der).Some? {
      var a, b := DecodedIsDer(der);
    }
  }

  /** Every scalar of 32 bytes has a content. */
  lemma {:induction false} ScalarContent(r: bytes) returns (a: bytes)
    requires |r| == 32
    ensures IsScalar(a) && RightAligned(a) == r
  {
    var n := FromBe(r);
    FromBeFits(r);
    a := IntegerContent(n);
    ContentRoundTrip(n);
    ContentDigits(a);
    AlignedValue(a);
    ToBeOfValue(r);
  }

  /** The raw form, written as DER: 64 bytes and no other number, the first half in front. */
  lemma {:induction false} RawInBytes(raw: bytes)
    ensures |raw| != 64 ==> RawToDer(raw) == Err(WrongLength)
    ensures |raw| == 64 ==>
              exists a, b :: IsScalar(a) && IsScalar(b) && raw == RightAligned(a) + RightAligned(b) && RawToDer(raw) == Ok(DerOf(a, b))
  {
    if |raw| == 64 {
      var a := ScalarContent(raw[..32]);
      var b := ScalarContent(raw[32..]);
      assert raw == RightAligned(a) + RightAligned(b);
      DerInBytes(DerOf(a, b));
      DerRoundTrip(DerOf(a, b));
    }
  }
}
