/**
 * Big-endian numbers: the length field of the long forms. `Minimal` is
 * what the encoder's `toBinary` computes, `Value` what the decoder's
 * `decodeLength` computes; the lemmas here connect the two.
 */
module BigEndian {
  import opened RlpTypes

  function Pow256(k: nat): (p: nat)
    ensures p >= 1
  {
    if k == 0 then 1 else 256 * Pow256(k - 1)
  }

  /**
   * The shortest big-endian byte sequence of `x`: empty for zero (and for
   * a negative number, on which the Go loop `for x > 0` never runs).
   */
  function Minimal(x: int): (r: seq<byte>)
    ensures x <= 0 ==> r == []
    ensures x > 0 ==> |r| >= 1 && r[0] != 0
    decreases x
  {
    if x <= 0 then [] else Minimal(x / 256) + [x % 256]
  }

  /**
   * The unsigned number a big-endian byte sequence denotes, as the decoder
   * folds it: each further byte shifts the number left by eight bits and
   * is added in. An empty field is 0, and a field of k bytes holds a
   * number below 256^k.
   */
  function Value(b: seq<byte>): (v: nat)
    ensures v < Pow256(|b|)
  {
    if b == [] then 0
    else
      var front := Value(b[..|b| - 1]);
      assert front * 256 + b[|b| - 1] < Pow256(|b|) by {
        assert front + 1 <= Pow256(|b| - 1);
        assert (front + 1) * 256 <= Pow256(|b| - 1) * 256;
      }
      front * 256 + b[|b| - 1]
  }

  /** The positional reading of a byte sequence: the sum of b[i] * 256^(|b|-1-i). */
  ghost function Positional(b: seq<byte>): (v: nat)
  {
    if b == [] then 0 else b[0] * Pow256(|b| - 1) + Positional(b[1..])
  }

  lemma {:induction false} PositionalSnoc(s: seq<byte>, c: byte)
    ensures Positional(s + [c]) == Positional(s) * 256 + c
    decreases |s|
  {
    if s != [] {
      assert (s + [c])[1..] == s[1..] + [c];
      PositionalSnoc(s[1..], c);
      calc {
        Positional(s + [c]);
        s[0] * Pow256(|s|) + Positional(s[1..] + [c]);
        s[0] * (256 * Pow256(|s| - 1)) + Positional(s[1..]) * 256 + c;
        { assert s[0] * (256 * Pow256(|s| - 1)) == (s[0] * Pow256(|s| - 1)) * 256; }
        (s[0] * Pow256(|s| - 1) + Positional(s[1..])) * 256 + c;
      }
    } else {
      assert s + [c] == [c];
    }
  }

  /** The decoder's fold computes the positional sum. */
  lemma {:induction false} ValueIsPositional(b: seq<byte>)
    ensures Value(b) == Positional(b)
    decreases |b|
  {
    if b != [] {
      var front := b[..|b| - 1];
      ValueIsPositional(front);
      PositionalSnoc(front, b[|b| - 1]);
      assert front + [b[|b| - 1]] == b;
    }
  }

  /** Reading back the minimal bytes of a number gives the number. */
  lemma {:induction false} ValueOfMinimal(x: nat)
    ensures Value(Minimal(x)) == x
    decreases x
  {
    if x > 0 {
      ValueOfMinimal(x / 256);
      var m := Minimal(x / 256);
      assert (m + [x % 256])[..|m|] == m;
    }
  }

  /** `Minimal(x)` fits in k bytes exactly when x < 256^k; so its length is the least that can hold x. */
  lemma {:induction false} MinimalFits(x: nat, k: nat)
    ensures |Minimal(x)| <= k <==> x < Pow256(k)
    decreases k
  {
    if k > 0 && x > 0 {
      MinimalFits(x / 256, k - 1);
    }
  }

  /** The length of `Minimal(x)` is the least number of bytes in which x fits. */
  lemma MinimalIsShortest(x: nat)
    ensures x < Pow256(|Minimal(x)|)
    ensures x > 0 ==> Pow256(|Minimal(x)| - 1) <= x
  {
    MinimalFits(x, |Minimal(x)|);
    if x > 0 {
      MinimalFits(x, |Minimal(x)| - 1);
    }
  }

  lemma {:induction false} Pow256Eight()
    ensures Pow256(8) == TwoTo64
  {
    assert Pow256(1) == 256;
    assert Pow256(2) == 0x1_0000;
    assert Pow256(4) == 0x1_0000_0000 by {
      assert Pow256(3) == 0x100_0000;
    }
    assert Pow256(6) == 0x1_0000_0000_0000 by {
      assert Pow256(5) == 0x100_0000_0000;
    }
    assert Pow256(7) == 0x100_0000_0000_0000;
  }

  /** A length the encoder accepts in long form needs between 1 and 8 length bytes. */
  lemma MinimalOfLength(length: nat)
    requires 56 <= length < TwoTo64
    ensures 1 <= |Minimal(length)| <= 8
  {
    Pow256Eight();
    MinimalFits(length, 8);
  }

  /** A length field of at most 8 bytes declares a length below 2^64. */
  lemma ShortFieldBound(b: seq<byte>)
    requires |b| <= 8
    ensures Value(b) < TwoTo64
  {
    Pow256Eight();
    Pow256Monotone(|b|, 8);
  }

  lemma {:induction false} Pow256Monotone(i: nat, j: nat)
    requires i <= j
    ensures Pow256(i) <= Pow256(j)
    decreases j
  {
    if i < j {
      Pow256Monotone(i, j - 1);
    }
  }
}
