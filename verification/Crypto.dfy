/**
 The cryptographic library as the protocol sees it: uninterpreted operations, and the laws that the
 handshake relies on. Certificates are checked as crypto/certs/certificate.py does.
 */
module Crypto {
  import opened Wrappers
  import opened Bytes

  type PrivateKey = int

  type PublicKey = int

  /** Text fields are given as their encoded bytes. */
  datatype Certificate = Certificate(
    batteryId: bytes,
    manufacturerId: bytes,
    publicKey: bytes,
    issueDate: bytes,
    expiryDate: bytes,
    signature: bytes)

  /** None is an exception: bytes that are not a certificate, a key that does not load, a date that does not parse. */
  datatype Library = Library(
    sign: (PrivateKey, bytes) -> bytes,
    verify: (PublicKey, bytes, bytes) -> bool,
    publicKeyOf: PrivateKey -> PublicKey,
    serializeKey: PublicKey -> bytes,
    loadKey: bytes -> Option<PublicKey>,
    expired: Certificate -> Option<bool>,
    encodeCertificate: Certificate -> bytes,
    decodeCertificate: bytes -> Option<Certificate>,
    isText: bytes -> bool)

  /** Signatures verify, keys and certificates survive serialization. Nothing is assumed about forging. */
  ghost predicate Lawful(lib: Library) {
    && (forall key, message :: lib.verify(lib.publicKeyOf(key), message, lib.sign(key, message)))
    && (forall key :: lib.loadKey(lib.serializeKey(key)) == Some(key))
    && (forall c :: lib.decodeCertificate(lib.encodeCertificate(c)) == Some(c))
  }

  /** The bytes the manufacturer signs. */
  function SignedData(c: Certificate): bytes {
    c.batteryId + c.manufacturerId + c.publicKey + c.issueDate + c.expiryDate
  }

  function CreateCertificate(lib: Library, rootKey: PrivateKey, unsigned: Certificate): Certificate {
    unsigned.(signature := lib.sign(rootKey, SignedData(unsigned)))
  }

  /** `verify_certificate`: None if the expiry date does not parse. */
  function VerifyCertificate(lib: Library, c: Certificate, root: PublicKey): Option<bool> {
    match lib.expired(c)
    case None => None
    case Some(true) => Some(false)
    case Some(false) => Some(lib.verify(root, SignedData(c), c.signature))
  }

  /** A certificate that is issued and not expired is accepted. */
  lemma {:induction false} IssuedCertificateVerifies(lib: Library, rootKey: PrivateKey, unsigned: Certificate)
    requires Lawful(lib)
    requires lib.expired(CreateCertificate(lib, rootKey, unsigned)) == Some(false)
    ensures VerifyCertificate(lib, CreateCertificate(lib, rootKey, unsigned), lib.publicKeyOf(rootKey)) == Some(true)
  {
    var c := CreateCertificate(lib, rootKey, unsigned);
    assert SignedData(c) == SignedData(unsigned);
  }

  // ---------- What the signed bytes determine ----------

  /** The lengths of the fields that are signed one behind the other. */
  datatype Layout = Layout(batteryId: nat, manufacturerId: nat, publicKey: nat, issueDate: nat, expiryDate: nat) {
    function Total(): nat {
      batteryId + manufacturerId + publicKey + issueDate + expiryDate
    }

    /** Where the key begins in the signed bytes. */
    function KeyAt(): nat {
      batteryId + manufacturerId
    }
  }

  function LayoutOf(c: Certificate): Layout {
    Layout(|c.batteryId|, |c.manufacturerId|, |c.publicKey|, |c.issueDate|, |c.expiryDate|)
  }

  /** The certificate with these signed bytes and this layout. */
  function Parsed(data: bytes, l: Layout): Certificate
    requires |data| == l.Total()
  {
    var a, b := l.batteryId, l.KeyAt();
    var c, d := b + l.publicKey, b + l.publicKey + l.issueDate;
    Certificate(data[..a], data[a..b], data[b..c], data[c..d], data[d..], [])
  }

  /** Layout and signed bytes are all there is to a certificate, its signature aside. */
  lemma {:induction false} ParsedIs(c: Certificate)
    ensures |SignedData(c)| == LayoutOf(c).Total() && Parsed(SignedData(c), LayoutOf(c)) == c.(signature := [])
  {
    var data, l := SignedData(c), LayoutOf(c);
    assert data == c.batteryId + (c.manufacturerId + (c.publicKey + (c.issueDate + c.expiryDate)));
    assert data[l.batteryId..] == c.manufacturerId + (c.publicKey + (c.issueDate + c.expiryDate));
    assert data[l.KeyAt()..] == c.publicKey + (c.issueDate + c.expiryDate);
    assert data[l.KeyAt() + l.publicKey..] == c.issueDate + c.expiryDate;
  }

  lemma {:induction false} ParsedBack(data: bytes, l: Layout)
    requires |data| == l.Total()
    ensures LayoutOf(Parsed(data, l)) == l && SignedData(Parsed(data, l)) == data
  {
  }

  /** No two different certificates with these layouts have the same signed bytes. */
  ghost predicate NeverSignAlike(l: Layout, m: Layout) {
    forall c, d :: LayoutOf(c) == l && LayoutOf(d) == m && SignedData(c) == SignedData(d) ==>
                     c.(signature := []) == d.(signature := [])
  }

  /** The fields are signed without separators: signed bytes tell certificates apart exactly when the field lengths do. */
  lemma {:induction false} SignedDataUnambiguousExactlyWhen(l: Layout, m: Layout)
    ensures NeverSignAlike(l, m) <==> l == m || l.Total() != m.Total()
  {
    if l == m || l.Total() != m.Total() {
      forall c, d | LayoutOf(c) == l && LayoutOf(d) == m && SignedData(c) == SignedData(d)
        ensures c.(signature := []) == d.(signature := [])
      {
        ParsedIs(c);
        ParsedIs(d);
      }
    } else {
      var data := Zeros(l.Total());
      ParsedBack(data, l);
      ParsedBack(data, m);
      var c, d := Parsed(data, l), Parsed(data, m);
      assert c.(signature := []) == c && d.(signature := []) == d;
    }
  }

  /** The signed bytes determine the key. */
  ghost predicate KeyDetermined(l: Layout, m: Layout) {
    forall c, d :: LayoutOf(c) == l && LayoutOf(d) == m && SignedData(c) == SignedData(d) ==> c.publicKey == d.publicKey
  }

  lemma {:induction false} KeysDiffer(l: Layout, m: Layout)
    requires l.Total() == m.Total() && (l.publicKey != m.publicKey || (l.KeyAt() != m.KeyAt() && l.publicKey > 0))
    ensures !KeyDetermined(l, m)
  {
    var zeros := Zeros(l.Total());
    var at := if l.KeyAt() < m.KeyAt() then l.KeyAt() else m.KeyAt();
    var data := if l.publicKey != m.publicKey then zeros else zeros[at := 1];
    ParsedBack(data, l);
    ParsedBack(data, m);
    var c, d := Parsed(data, l), Parsed(data, m);
    if l.publicKey == m.publicKey {
      assert c.publicKey[0] == data[l.KeyAt()] && d.publicKey[0] == data[m.KeyAt()];
    } else {
      assert |c.publicKey| != |d.publicKey|;
    }
    assert c.publicKey != d.publicKey;
  }

  /** They do exactly when both layouts have it in the same place, or can never sign alike, or have no key at all. */
  lemma {:induction false} KeyDeterminedExactlyWhen(l: Layout, m: Layout)
    ensures KeyDetermined(l, m) <==>
            l.Total() != m.Total() || (l.publicKey == m.publicKey && (l.KeyAt() == m.KeyAt() || l.publicKey == 0))
  {
    if l.Total() == m.Total() {
      if l.publicKey == m.publicKey && (l.KeyAt() == m.KeyAt() || l.publicKey == 0) {
        forall c, d | LayoutOf(c) == l && LayoutOf(d) == m && SignedData(c) == SignedData(d) ensures c.publicKey == d.publicKey {
          ParsedIs(c);
          ParsedIs(d);
        }
      } else {
        KeysDiffer(l, m);
      }
    } else {
      forall c, d | LayoutOf(c) == l && LayoutOf(d) == m ensures SignedData(c) != SignedData(d) {
        ParsedIs(c);
        ParsedIs(d);
      }
    }
  }
}
