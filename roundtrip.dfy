/**
 * The encoder and the decoder against each other: every item tree the
 * encoder accepts decodes back to itself and takes up its whole encoding.
 */
module RoundTrip {
  import opened RlpTypes
  import opened BigEndian
  import opened Encode
  import opened Decode

  /** An item tree as encoder input: byte-strings as `[]byte`, lists as slices. */
  function Lift(x: Item): (v: Input)
    decreases x
  {
    match x
    case Bytes(d) => Blob(d)
    case List(xs) => Slice(LiftAll(xs))
  }

  function LiftAll(xs: seq<Item>): (r: seq<Input>)
    ensures |r| == |xs|
    decreases xs
  {
    if xs == [] then [] else [Lift(xs[0])] + LiftAll(xs[1..])
  }

  /**
   * The decoder reads an encoded item back from the front of any buffer
   * that starts with its encoding, and takes up exactly that encoding.
   */
  lemma {:induction false} DecodeEncoded(x: Item, rest: seq<byte>)
    requires Encoding(Lift(x)).Ok?
    ensures DecodeItem(Encoding(Lift(x)).value + rest) ==
      Ok(Decoded(x, |Encoding(Lift(x)).value|))
    decreases x
  {
    match x
    case Bytes(d) =>
      DecodeEncodedBytes(d, rest);
    case List(xs) =>
      ParseEncodedAll(xs);
      DecodeFramedList(EncodeAll(LiftAll(xs)).value, xs, rest);
  }

  /** A byte-string's encoding decodes back to it, prefix and all. */
  lemma DecodeEncodedBytes(d: seq<byte>, rest: seq<byte>)
    requires EncodeBytes(d).Ok?
    ensures DecodeItem(EncodeBytes(d).value + rest) ==
      Ok(Decoded(Bytes(d), |EncodeBytes(d).value|))
  {
    var data := EncodeBytes(d).value + rest;
    if |d| == 1 && d[0] < 0x80 {
      SingleByte(data);
      assert [data[0]] == d;
    } else if |d| < 56 {
      ShortString(data);
      assert data[1..1 + |d|] == d;
    } else {
      DecodeLongBytes(d, rest);
    }
  }

  lemma DecodeLongBytes(d: seq<byte>, rest: seq<byte>)
    requires 56 <= |d| < TwoTo64
    ensures DecodeItem(EncodeBytes(d).value + rest) ==
      Ok(Decoded(Bytes(d), |EncodeBytes(d).value|))
  {
    var m := Minimal(|d|);
    MinimalOfLength(|d|);
    ValueOfMinimal(|d|);
    var p: seq<byte> := [0xb7 + |m|] + m;
    assert p[1..] == m;
    var data := p + d + rest;
    LongStringFrame(p, d, rest);
    StringFrame(data, |p|, |p| + |d|);
    assert data[|p|..|p| + |d|] == d;
  }

  /** A long string prefix frames exactly the payload it announces, whatever follows. */
  lemma LongStringFrame(p: seq<byte>, d: seq<byte>, rest: seq<byte>)
    requires 2 <= |p| <= 9 && p[0] == 0xb7 + |p| - 1 && Value(p[1..]) == |d|
    ensures Header(p + d + rest) == Ok(Frame(false, |p|, |p| + |d|))
  {
    var data := p + d + rest;
    assert data[1..|p|] == p[1..];
    LongStringHeader(data);
  }

  /**
   * A payload that decodes to `xs`, behind its list prefix, decodes to the
   * list `xs` and takes up the prefix and the payload.
   */
  lemma DecodeFramedList(body: seq<byte>, xs: seq<Item>, rest: seq<byte>)
    requires ParseItems(body) == Ok(xs) && |body| < TwoTo64
    ensures DecodeItem(EncodeLength(|body|, 0xc0).value + body + rest) ==
      Ok(Decoded(List(xs), |EncodeLength(|body|, 0xc0).value + body|))
  {
    var p := EncodeLength(|body|, 0xc0).value;
    assert |p + body| == |p| + |body|;
    if |body| < 56 {
      ShortPrefix(|body|, 0xc0);
      DecodeShortFramedList(body, xs, rest);
    } else {
      LongLength(|body|, 0xc0);
      DecodeLongFramedList(p, body, xs, rest);
    }
  }

  lemma DecodeShortFramedList(body: seq<byte>, xs: seq<Item>, rest: seq<byte>)
    requires ParseItems(body) == Ok(xs) && |body| < 56
    ensures DecodeItem([0xc0 + |body|] + body + rest) == Ok(Decoded(List(xs), 1 + |body|))
  {
    var data := [0xc0 + |body|] + body + rest;
    ShortList(data);
    assert data[1..1 + |body|] == body;
  }

  lemma DecodeLongFramedList(p: seq<byte>, body: seq<byte>, xs: seq<Item>, rest: seq<byte>)
    requires ParseItems(body) == Ok(xs)
    requires 2 <= |p| <= 9 && p[0] == 0xf7 + |p| - 1 && Value(p[1..]) == |body|
    ensures DecodeItem(p + body + rest) == Ok(Decoded(List(xs), |p| + |body|))
  {
    var data := p + body + rest;
    LongListFrame(p, body, rest);
    ListFrame(data, |p|, |p| + |body|);
    assert data[|p|..|p| + |body|] == body;
  }

  /** A long list prefix frames exactly the payload it announces, whatever follows. */
  lemma LongListFrame(p: seq<byte>, body: seq<byte>, rest: seq<byte>)
    requires 2 <= |p| <= 9 && p[0] == 0xf7 + |p| - 1 && Value(p[1..]) == |body|
    ensures Header(p + body + rest) == Ok(Frame(true, |p|, |p| + |body|))
  {
    var data := p + body + rest;
    assert data[1..|p|] == p[1..];
    LongListHeader(data);
  }

  /** A list payload made of encoded items decodes to those items, in order. */
  lemma {:induction false} ParseEncodedAll(xs: seq<Item>)
    requires EncodeAll(LiftAll(xs)).Ok?
    ensures ParseItems(EncodeAll(LiftAll(xs)).value) == Ok(xs)
    decreases xs
  {
    if xs != [] {
      var vs := LiftAll(xs);
      assert vs[0] == Lift(xs[0]) && vs[1..] == LiftAll(xs[1..]);
      var head := Encoding(Lift(xs[0])).value;
      var tail := EncodeAll(LiftAll(xs[1..])).value;
      DecodeEncoded(xs[0], []);
      assert head + [] == head;
      ParseEncodedAll(xs[1..]);
      ParseCons(head, tail);
      assert [xs[0]] + xs[1..] == xs;
    }
  }

  /**
   * Round trip: `RlpDecode` of the encoding of any item tree gives back
   * the tree, whatever bytes follow the encoding.
   */
  lemma DecodeOfEncode(x: Item, extra: seq<byte>)
    requires Encoding(Lift(x)).Ok?
    ensures RlpDecode(Encoding(Lift(x)).value + extra) == Ok(x)
    ensures RlpDecode(Encoding(Lift(x)).value) == Ok(x)
  {
    DecodeEncoded(x, extra);
    DecodeEncoded(x, []);
    assert Encoding(Lift(x)).value + [] == Encoding(Lift(x)).value;
  }

  /** The same through the imperative encoder. */
  method EncodeThenDecode(x: Item) returns (r: Result<Item>)
    ensures Encoding(Lift(x)).Ok? ==> r == Ok(x)
    ensures Encoding(Lift(x)).Err? ==> r == Err(InputTooLong)
  {
    var e := RlpEncode(Lift(x));
    if e.Err? {
      LiftNeverNegative(x);
      return Err(e.error);
    }
    DecodeOfEncode(x, []);
    r := RlpDecode(e.value);
  }

  /** An item tree holds no integer, so the only way its encoding can fail is a length of 2^64 or more. */
  lemma {:induction false} LiftNeverNegative(x: Item)
    ensures Encoding(Lift(x)).Err? ==> Encoding(Lift(x)).error == InputTooLong
    decreases x
  {
    match x
    case Bytes(_) =>
    case List(xs) => LiftAllNeverNegative(xs);
  }

  lemma {:induction false} LiftAllNeverNegative(xs: seq<Item>)
    ensures EncodeAll(LiftAll(xs)).Err? ==> EncodeAll(LiftAll(xs)).error == InputTooLong
    decreases xs
  {
    if xs != [] {
      var vs := LiftAll(xs);
      assert vs[0] == Lift(xs[0]) && vs[1..] == LiftAll(xs[1..]);
      LiftNeverNegative(xs[0]);
      LiftAllNeverNegative(xs[1..]);
    }
  }

  /** A text string decodes to the byte-string of its bytes: RLP carries no type tag. */
  lemma TextRoundTrip(s: seq<byte>)
    requires |s| < TwoTo64
    ensures Encoding(Text(s)).Ok?
    ensures RlpDecode(Encoding(Text(s)).value) == Ok(Bytes(s))
  {
    DecodeOfEncode(Bytes(s), []);
  }

  /**
   * A non-negative integer in Go's range decodes to the byte-string of
   * its minimal big-endian bytes, whose value is the integer again.
   */
  lemma IntegerRoundTrip(n: nat)
    requires n < TwoTo64
    ensures Encoding(Integer(n)).Ok?
    ensures RlpDecode(Encoding(Integer(n)).value) == Ok(Bytes(Minimal(n)))
    ensures Value(Minimal(n)) == n
  {
    IntegerIsBytes(n);
    IntegerBytes(n);
    assert Encoding(Lift(Bytes(Minimal(n)))) == Encoding(Integer(n));
    DecodeOfEncode(Bytes(Minimal(n)), []);
    ValueOfMinimal(n);
  }

  // Lengths 55 and 56 take different prefix forms, and both decode back.

  /** 55 bytes, the longest short string: one prefix byte 0xb7, and back. */
  lemma LastShort(d: seq<byte>)
    requires |d| == 55
    ensures Encoding(Blob(d)) == Ok([0xb7] + d)
    ensures RlpDecode([0xb7] + d) == Ok(Bytes(d))
  {
    DecodeOfEncode(Bytes(d), []);
  }

  /** 56 bytes, the shortest long string: 0xb8 and the one-byte length 0x38, and back. */
  lemma FirstLong(d: seq<byte>)
    requires |d| == 56
    ensures Encoding(Text(d)) == Ok([0xb8, 0x38] + d)
    ensures Encoding(Blob(d)) == Ok([0xb8, 0x38] + d)
    ensures RlpDecode([0xb8, 0x38] + d) == Ok(Bytes(d))
  {
    assert Minimal(56) == [56] by {
      assert Minimal(56) == Minimal(0) + [56];
    }
    assert [0xb7 + 1] + [56] + d == [0xb8, 0x38] + d;
    DecodeOfEncode(Bytes(d), []);
  }
}
