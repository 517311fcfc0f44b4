/** A library that obeys the laws: it shows that the hypotheses made about libraries contradict nothing. */
module ExampleLibrary {
  import opened Wrappers
  import opened Bytes
  import opened Crypto
  import opened Challenge

  /** Bytes with a mark before each one and an end mark: they can be told from whatever follows. */
  function Field(b: bytes): bytes {
    if b == [] then [0] else [1, b[0]] + Field(b[1..])
  }

  lemma {:induction false} FieldInjective(a: bytes, x: bytes, b: bytes, y: bytes)
    requires Field(a) + x == Field(b) + y
    ensures a == b && x == y
    decreases |a|
  {
    var left, right := Field(a) + x, Field(b) + y;
    assert left[0] == right[0];
    if a == [] {
      assert left[1..] == x && right[1..] == y;
    } else {
      assert left[1] == a[0] && right[1] == b[0];
      assert left[2..] == Field(a[1..]) + x && right[2..] == Field(b[1..]) + y;
      FieldInjective(a[1..], x, b[1..], y);
      assert a == [a[0]] + a[1..] && b == [b[0]] + b[1..];
    }
  }

  function EncodeFields(fields: seq<bytes>): bytes {
    if fields == [] then [] else Field(fields[0]) + EncodeFields(fields[1..])
  }

  lemma {:induction false} FieldsInjective(a: seq<bytes>, b: seq<bytes>)
    requires |a| == |b| && EncodeFields(a) == EncodeFields(b)
    ensures a == b
    decreases |a|
  {
    if a != [] {
      FieldInjective(a[0], EncodeFields(a[1..]), b[0], EncodeFields(b[1..]));
      FieldsInjective(a[1..], b[1..]);
      assert a == [a[0]] + a[1..] && b == [b[0]] + b[1..];
    }
  }

  function FieldsOf(c: Certificate): seq<bytes> {
    [c.batteryId, c.manufacturerId, c.publicKey, c.issueDate, c.expiryDate, c.signature]
  }

  ghost function Decoded(b: bytes): Option<Certificate> {
    if c: Certificate :| EncodeFields(FieldsOf(c)) == b then Some(c) else None
  }

  ghost function Loaded(b: bytes): Option<PublicKey> {
    if key: int :| Decimal(key) == b then Some(key) else None
  }

  function SignatureOf(key: int, digest: bytes): bytes {
    Field(digest) + Decimal(key)
  }

  /** It signs the digest of a message, by whatever digest function, so messages with one digest share signatures. */
  ghost function Example(digest: bytes -> bytes): Library {
    Library(
      (key, message) => SignatureOf(key, digest(message)),
      (key, message, signature) => signature == SignatureOf(key, digest(message)),
      key => key,
      key => Decimal(key),
      b => Loaded(b),
      c => Some(false),
      c => EncodeFields(FieldsOf(c)),
      b => Decoded(b),
      b => true)
  }

  lemma {:induction false} ExampleIsLawful(digest: bytes -> bytes)
    ensures Lawful(Example(digest))
  {
    forall key ensures Loaded(Decimal(key)) == Some(key) {
      var other := Loaded(Decimal(key)).value;
      DecimalInjective(other, key);
    }
    forall c: Certificate ensures Decoded(EncodeFields(FieldsOf(c))) == Some(c) {
      var d := Decoded(EncodeFields(FieldsOf(c))).value;
      FieldsInjective(FieldsOf(c), FieldsOf(d));
      assert FieldsOf(c)[0] == FieldsOf(d)[0] && FieldsOf(c)[1] == FieldsOf(d)[1] && FieldsOf(c)[2] == FieldsOf(d)[2];
      assert FieldsOf(c)[3] == FieldsOf(d)[3] && FieldsOf(c)[4] == FieldsOf(d)[4] && FieldsOf(c)[5] == FieldsOf(d)[5];
    }
  }

  /** A signature verifies over the messages with the digest of the one it was made for, and over no others. */
  lemma {:induction false} ExampleSignatures(digest: bytes -> bytes, key: PrivateKey, signed: bytes, message: bytes)
    ensures var lib := Example(digest);
            lib.verify(lib.publicKeyOf(key), message, lib.sign(key, signed)) <==> digest(message) == digest(signed)
  {
    if SignatureOf(key, digest(message)) == SignatureOf(key, digest(signed)) {
      FieldInjective(digest(message), Decimal(key), digest(signed), Decimal(key));
    }
  }
}
