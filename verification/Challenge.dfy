/** The challenge bytes: a nonce followed by the printed timestamp. */
module Challenge {
  import opened Bytes
  import opened Sequences

  const ZERO := 48

  const MINUS := 45

  /** `str(n).encode()` for n >= 0 */
  function DecimalNat(n: nat): (b: bytes)
    ensures b != [] && b[0] != MINUS
  {
    if n < 10 then [ZERO + n] else DecimalNat(n / 10) + [ZERO + n % 10]
  }

  /** `str(t).encode()` */
  function Decimal(t: int): bytes {
    if t < 0 then [MINUS] + DecimalNat(-t) else DecimalNat(t)
  }

  function ChallengeBytes(nonce: bytes, timestamp: int): bytes {
    nonce + Decimal(timestamp)
  }

  function ParseNat(b: bytes): int {
    if b == [] then 0 else 10 * ParseNat(Init(b)) + Last(b) - ZERO
  }

  lemma {:induction false} ParsePrinted(n: nat)
    ensures ParseNat(DecimalNat(n)) == n
  {
    if n >= 10 {
      ParsePrinted(n / 10);
      assert Init(DecimalNat(n)) == DecimalNat(n / 10);
    } else {
      assert Init(DecimalNat(n)) == [];
    }
  }

  /** No two integers print alike. */
  lemma {:induction false} DecimalInjective(t: int, u: int)
    requires Decimal(t) == Decimal(u)
    ensures t == u
  {
    assert Decimal(t)[0] == Decimal(u)[0];
    if t < 0 {
      assert Decimal(t)[1..] == DecimalNat(-t) && Decimal(u)[1..] == DecimalNat(-u);
      ParsePrinted(-t);
      ParsePrinted(-u);
    } else {
      ParsePrinted(t);
      ParsePrinted(u);
    }
  }

  /** Challenges with nonces of one length determine nonce and timestamp: nothing can be shifted between the two. */
  lemma {:induction false} ChallengeInjective(nonce: bytes, timestamp: int, nonce': bytes, timestamp': int)
    requires |nonce| == |nonce'|
    requires ChallengeBytes(nonce, timestamp) == ChallengeBytes(nonce', timestamp')
    ensures nonce == nonce' && timestamp == timestamp'
  {
    var c := ChallengeBytes(nonce, timestamp);
    assert nonce == c[..|nonce|] == nonce';
    assert Decimal(timestamp) == c[|nonce|..] == Decimal(timestamp');
    DecimalInjective(timestamp, timestamp');
  }

  /** Otherwise digits can move: a printed number at the end of the nonce reads as the front of the timestamp. */
  lemma {:induction false} DigitsMove(nonce: bytes, t: nat, d: nat)
    requires t >= 1 && d < 10
    ensures ChallengeBytes(nonce + DecimalNat(t), d) == ChallengeBytes(nonce, 10 * t + d)
  {
    assert (10 * t + d) / 10 == t && (10 * t + d) % 10 == d;
    assert DecimalNat(10 * t + d) == DecimalNat(t) + [ZERO + d];
    assert nonce + (DecimalNat(t) + [ZERO + d]) == nonce + DecimalNat(t) + [ZERO + d];
  }

  /** There is a number of every length. */
  lemma {:induction false} NumberOfLength(k: nat) returns (t: nat)
    requires k >= 1
    ensures t >= 1 && |DecimalNat(t)| == k
  {
    if k == 1 {
      t := 1;
    } else {
      var u := NumberOfLength(k - 1);
      t := 10 * u;
      assert t / 10 == u;
    }
  }

  /** No two different (nonce, timestamp) pairs with nonces of these lengths have the same challenge bytes. */
  ghost predicate NeverCollide(l: nat, m: nat) {
    forall nonce: bytes, t: int, nonce': bytes, t': int ::
      |nonce| == l && |nonce'| == m && ChallengeBytes(nonce, t) == ChallengeBytes(nonce', t') ==> nonce == nonce' && t == t'
  }

  lemma {:induction false} Collision(l: nat, m: nat) returns (nonce: bytes, t: int, nonce': bytes, t': int)
    requires l < m
    ensures |nonce| == l && |nonce'| == m && ChallengeBytes(nonce, t) == ChallengeBytes(nonce', t')
  {
    var u := NumberOfLength(m - l);
    nonce, t, nonce', t' := Zeros(l), 10 * u, Zeros(l) + DecimalNat(u), 0;
    DigitsMove(nonce, u, 0);
  }

  /** The challenge bytes are unambiguous for two nonce lengths exactly when the lengths are equal. */
  lemma {:induction false} UnambiguousExactlyWhen(l: nat, m: nat)
    ensures NeverCollide(l, m) <==> l == m
  {
    if l == m {
      forall nonce: bytes, t: int, nonce': bytes, t': int
        | |nonce| == l && |nonce'| == m && ChallengeBytes(nonce, t) == ChallengeBytes(nonce', t')
        ensures nonce == nonce' && t == t'
      {
        ChallengeInjective(nonce, t, nonce', t');
      }
    } else if l < m {
      var nonce, t, nonce', t' := Collision(l, m);
    } else {
      var nonce, t, nonce', t' := Collision(m, l);
      assert ChallengeBytes(nonce', t') == ChallengeBytes(nonce, t);
    }
  }

  // ---------- The timestamp, digit by digit ----------

  function Power10(k: nat): nat {
    if k == 0 then 1 else 10 * Power10(k - 1)
  }

  /** What decimal digits stand for, the first one weighing most. */
  function DigitSum(b: bytes): int {
    if b == [] then 0 else (b[0] - 48) * Power10(|b| - 1) + DigitSum(b[1..])
  }

  /** The digits '0' to '9' of t, without a zero in front except for zero itself. */
  ghost predicate Printed(b: bytes, t: nat) {
    && b != [] && (forall i :: 0 <= i < |b| ==> 48 <= b[i] <= 57)
    && (b[0] == 48 ==> |b| == 1)
    && DigitSum(b) == t
  }

  lemma {:induction false} DigitSumAppend(b: bytes, d: byte)
    ensures DigitSum(b + [d]) == 10 * DigitSum(b) + d - 48
  {
    if b == [] {
      assert (b + [d])[1..] == [];
    } else {
      DigitSumAppend(b[1..], d);
      assert (b + [d])[1..] == b[1..] + [d];
    }
  }

  lemma {:induction false} NaturalIsPrinted(n: nat)
    ensures Printed(DecimalNat(n), n) && (n > 0 ==> DecimalNat(n)[0] != 48)
  {
    if n < 10 {
      assert DecimalNat(n)[1..] == [];
    } else {
      NaturalIsPrinted(n / 10);
      DigitSumAppend(DecimalNat(n / 10), ZERO + n % 10);
    }
  }

  /** Behind the nonce stand the decimal digits of the timestamp, after a minus sign if it is negative. */
  lemma {:induction false} TimestampIsPrinted(nonce: bytes, t: int)
    ensures var b := ChallengeBytes(nonce, t);
            && nonce <= b
            && (t >= 0 ==> Printed(b[|nonce|..], t))
            && (t < 0 ==> |b| > |nonce| && b[|nonce|] == 45 && Printed(b[|nonce| + 1..], -t))
  {
    NaturalIsPrinted(if t < 0 then -t else t);
    var b := ChallengeBytes(nonce, t);
    assert b[|nonce|..] == Decimal(t);
    if t < 0 {
      assert b[|nonce| + 1..] == Decimal(t)[1..] == DecimalNat(-t);
    }
  }
}
