/**
 * The test tables of the encoder and the decoder, as lemmas: each input
 * of the encoder's table encodes to the bytes listed beside it, and the
 * decoder's table pairs the same bytes with the same values. Text is
 * spelled out as its ASCII bytes.
 */
module Vectors {
  import opened RlpTypes
  import opened BigEndian
  import opened Encode
  import opened Decode
  import opened RoundTrip

  const Dog: seq<byte> := [0x64, 0x6f, 0x67]
  const Cat: seq<byte> := [0x63, 0x61, 0x74]

  /** "Lorem ipsum dolor sit amet, consectetur adipisicing elit": 56 bytes. */
  const Lorem: seq<byte> := [
      0x4c, 0x6f, 0x72, 0x65, 0x6d, 0x20, 0x69, 0x70, 0x73, 0x75, 0x6d, 0x20, 0x64, 0x6f,
      0x6c, 0x6f, 0x72, 0x20, 0x73, 0x69, 0x74, 0x20, 0x61, 0x6d, 0x65, 0x74, 0x2c, 0x20,
      0x63, 0x6f, 0x6e, 0x73, 0x65, 0x63, 0x74, 0x65, 0x74, 0x75, 0x72, 0x20, 0x61, 0x64,
      0x69, 0x70, 0x69, 0x73, 0x69, 0x63, 0x69, 0x6e, 0x67, 0x20, 0x65, 0x6c, 0x69, 0x74
    ]

  /** [ [], [[]], [ [], [[]] ] ]: the set-theoretic representation of three. */
  const Three: Item := List([List([]), List([List([])]), List([List([]), List([List([])])])])

  const CatDog: Item := List([Bytes(Cat), Bytes(Dog)])

  lemma EncodeStrings()
    ensures Encoding(Text(Dog)) == Ok([0x83] + Dog)
    ensures Encoding(Blob(Dog)) == Ok([0x83] + Dog)
    ensures Encoding(Text([])) == Ok([0x80])
    ensures Encoding(Blob([0x00])) == Ok([0x00])
    ensures Encoding(Blob([0x0f])) == Ok([0x0f])
    ensures Encoding(Blob([0x04, 0x00])) == Ok([0x82, 0x04, 0x00])
  {
    assert [0x83] + Dog == [0x80 + |Dog|] + Dog;
    assert [0x80] + [] == [0x80];
    assert [0x82] + [0x04, 0x00] == [0x82, 0x04, 0x00];
    assert Encoding(Blob([0x04, 0x00])) == Ok([0x80 + 2] + [0x04, 0x00]);
  }

  /** The 56-byte string is the shortest that takes a one-byte length field. */
  lemma EncodeLongString()
    ensures Encoding(Text(Lorem)) == Ok([0xb8, 0x38] + Lorem)
  {
    FirstLong(Lorem);
  }

  lemma EncodeIntegers()
    ensures Encoding(Integer(0)) == Ok([0x80])
    ensures Encoding(Integer(15)) == Ok([0x0f])
    ensures Encoding(Integer(-1)) == Err(NegativeInteger)
  {
    assert Minimal(15) == Minimal(0) + [15];
  }

  /** 1024 takes two bytes, 0x04 0x00, behind the string prefix 0x82. */
  lemma EncodeKilo()
    ensures Encoding(Integer(1024)) == Ok([0x82, 0x04, 0x00])
  {
    assert Minimal(4) == [4] by {
      assert Minimal(4) == Minimal(0) + [4];
    }
    assert Minimal(1024) == [0x04, 0x00] by {
      assert Minimal(1024) == Minimal(4) + [0];
    }
    assert EncodeInteger(1024) == Ok([0x80 + 2] + [0x04, 0x00]);
    assert [0x82] + [0x04, 0x00] == [0x82, 0x04, 0x00];
  }

  /** The empty list and the nested lists of the representation of three. */
  lemma EncodeLists()
    ensures Encoding(Slice([])) == Ok([0xc0])
    ensures Encoding(Slice([Slice([]), Slice([Slice([])]), Slice([Slice([]), Slice([Slice([])])])])) ==
      Ok([0xc7, 0xc0, 0xc1, 0xc0, 0xc3, 0xc0, 0xc1, 0xc0])
  {
    var e := Slice([]);
    var one := Slice([e]);
    var two := Slice([e, one]);
    ListForm([]);
    assert Encoding(e) == Ok([0xc0]) by {
      assert [0xc0] + [] == [0xc0];
    }
    assert EncodeAll([e]) == Ok([0xc0]) by {
      assert [e][1..] == [];
      assert [0xc0] + [] == [0xc0];
    }
    ListForm([e]);
    assert Encoding(one) == Ok([0xc1, 0xc0]) by {
      assert [0xc0 + 1] + [0xc0] == [0xc1, 0xc0];
    }
    assert EncodeAll([one]) == Ok([0xc1, 0xc0]) by {
      assert [one][1..] == [];
      assert [0xc1, 0xc0] + [] == [0xc1, 0xc0];
    }
    assert EncodeAll([e, one]) == Ok([0xc0, 0xc1, 0xc0]) by {
      assert [e, one][1..] == [one];
      assert [0xc0] + [0xc1, 0xc0] == [0xc0, 0xc1, 0xc0];
    }
    ListForm([e, one]);
    assert Encoding(two) == Ok([0xc3, 0xc0, 0xc1, 0xc0]) by {
      assert [0xc0 + 3] + [0xc0, 0xc1, 0xc0] == [0xc3, 0xc0, 0xc1, 0xc0];
    }
    assert EncodeAll([two]) == Ok([0xc3, 0xc0, 0xc1, 0xc0]) by {
      assert [two][1..] == [];
      assert [0xc3, 0xc0, 0xc1, 0xc0] + [] == [0xc3, 0xc0, 0xc1, 0xc0];
    }
    assert EncodeAll([one, two]) == Ok([0xc1, 0xc0, 0xc3, 0xc0, 0xc1, 0xc0]) by {
      assert [one, two][1..] == [two];
      assert [0xc1, 0xc0] + [0xc3, 0xc0, 0xc1, 0xc0] == [0xc1, 0xc0, 0xc3, 0xc0, 0xc1, 0xc0];
    }
    assert EncodeAll([e, one, two]) == Ok([0xc0, 0xc1, 0xc0, 0xc3, 0xc0, 0xc1, 0xc0]) by {
      assert [e, one, two][1..] == [one, two];
      assert [0xc0] + [0xc1, 0xc0, 0xc3, 0xc0, 0xc1, 0xc0] == [0xc0, 0xc1, 0xc0, 0xc3, 0xc0, 0xc1, 0xc0];
    }
    ListForm([e, one, two]);
    assert [0xc0 + 7] + [0xc0, 0xc1, 0xc0, 0xc3, 0xc0, 0xc1, 0xc0] == [0xc7, 0xc0, 0xc1, 0xc0, 0xc3, 0xc0, 0xc1, 0xc0];
  }

  /** A list of two strings: the items' encodings behind one list prefix. */
  lemma EncodeCatDog()
    ensures Encoding(Slice([Text(Cat), Text(Dog)])) ==
      Ok([0xc8, 0x83, 0x63, 0x61, 0x74, 0x83, 0x64, 0x6f, 0x67])
  {
    var catDog := [Text(Cat), Text(Dog)];
    assert EncodeAll([Text(Dog)]) == Ok([0x83] + Dog) by {
      assert [Text(Dog)][1..] == [];
      assert [0x83] + Dog + [] == [0x83] + Dog;
    }
    assert EncodeAll(catDog) == Ok([0x83] + Cat + ([0x83] + Dog)) by {
      assert catDog[1..] == [Text(Dog)];
    }
    ListForm(catDog);
    assert [0xc0 + 8] + ([0x83] + Cat + ([0x83] + Dog)) ==
      [0xc8, 0x83, 0x63, 0x61, 0x74, 0x83, 0x64, 0x6f, 0x67];
  }

  /** The decoder's table, byte-strings: the same bytes give the same values back. */
  lemma DecodeStrings()
    ensures RlpDecode([0x83] + Dog) == Ok(Bytes(Dog))
    ensures RlpDecode([0x80]) == Ok(Bytes([]))
    ensures RlpDecode([0x0f]) == Ok(Bytes([0x0f]))
    ensures RlpDecode([0x82, 0x04, 0x00]) == Ok(Bytes([0x04, 0x00]))
    ensures RlpDecode([0x00]) == Ok(Bytes([0x00]))
  {
    EncodeStrings();
    DecodeOfEncode(Bytes(Dog), []);
    DecodeOfEncode(Bytes([]), []);
    DecodeOfEncode(Bytes([0x0f]), []);
    DecodeOfEncode(Bytes([0x04, 0x00]), []);
    DecodeOfEncode(Bytes([0x00]), []);
  }

  /** The 56-byte string comes back from behind its one-byte length field. */
  lemma DecodeLongString()
    ensures RlpDecode([0xb8, 0x38] + Lorem) == Ok(Bytes(Lorem))
  {
    FirstLong(Lorem);
  }

  /** The decoder's table, lists. */
  lemma DecodeLists()
    ensures RlpDecode([0xc8, 0x83, 0x63, 0x61, 0x74, 0x83, 0x64, 0x6f, 0x67]) == Ok(CatDog)
    ensures RlpDecode([0xc0]) == Ok(List([]))
    ensures RlpDecode([0xc7, 0xc0, 0xc1, 0xc0, 0xc3, 0xc0, 0xc1, 0xc0]) == Ok(Three)
  {
    EncodeLists();
    EncodeCatDog();
    LiftCatDog();
    DecodeOfEncode(CatDog, []);
    DecodeOfEncode(List([]), []);
    LiftThree();
    DecodeOfEncode(Three, []);
  }

  lemma LiftCatDog()
    ensures Encoding(Lift(CatDog)) == Encoding(Slice([Text(Cat), Text(Dog)]))
  {
    assert LiftAll([Bytes(Dog)]) == [Blob(Dog)] by {
      assert [Bytes(Dog)][1..] == [];
    }
    assert LiftAll([Bytes(Cat), Bytes(Dog)]) == [Blob(Cat), Blob(Dog)] by {
      assert [Bytes(Cat), Bytes(Dog)][1..] == [Bytes(Dog)];
    }
    assert [Blob(Cat), Blob(Dog)][1..] == [Blob(Dog)];
    assert [Text(Cat), Text(Dog)][1..] == [Text(Dog)];
    assert [Blob(Dog)][1..] == [] && [Text(Dog)][1..] == [];
    assert EncodeAll([Blob(Dog)]) == EncodeAll([Text(Dog)]);
    assert EncodeAll([Blob(Cat), Blob(Dog)]) == EncodeAll([Text(Cat), Text(Dog)]);
  }

  lemma LiftThree()
    ensures Lift(Three) == Slice([Slice([]), Slice([Slice([])]), Slice([Slice([]), Slice([Slice([])])])])
  {
    var e := List([]);
    var one := List([e]);
    var two := List([e, one]);
    assert Lift(e) == Slice([]);
    assert LiftAll([e]) == [Slice([])] by {
      assert [e][1..] == [];
    }
    assert Lift(one) == Slice([Slice([])]);
    assert LiftAll([one]) == [Slice([Slice([])])] by {
      assert [one][1..] == [];
    }
    assert LiftAll([e, one]) == [Slice([]), Slice([Slice([])])] by {
      assert [e, one][1..] == [one];
    }
    assert Lift(two) == Slice([Slice([]), Slice([Slice([])])]);
    assert LiftAll([two]) == [Lift(two)] by {
      assert [two][1..] == [];
    }
    assert LiftAll([one, two]) == [Lift(one), Lift(two)] by {
      assert [one, two][1..] == [two];
    }
    assert LiftAll([e, one, two]) == [Lift(e), Lift(one), Lift(two)] by {
      assert [e, one, two][1..] == [one, two];
    }
  }

  /** Inputs the decoder refuses, each with the error for its case. */
  lemma DecodeErrors()
    ensures RlpDecode([]) == Err(EmptyInput)
    ensures RlpDecode([0x83, 0x64, 0x6f]) == Err(ShortStringTooShort)
    ensures RlpDecode([0xb8]) == Err(LongStringPrefixTooShort)
    ensures RlpDecode([0xb8, 0x38] + Lorem[..55]) == Err(LongStringTooShort)
    ensures RlpDecode([0xc8, 0x83, 0x63, 0x61, 0x74]) == Err(ShortListTooShort)
    ensures RlpDecode([0xf8]) == Err(LongListPrefixTooShort)
    ensures RlpDecode([0xf8, 0x38, 0xc0]) == Err(LongListTooShort)
    ensures RlpDecode([0xc2, 0x81, 0x00]) == Ok(List([Bytes([0x00])]))
    ensures RlpDecode([0xc2, 0x82, 0x00]) == Err(ShortStringTooShort)
  {
    var long := [0xb8, 0x38] + Lorem[..55];
    assert long[1..2] == [0x38];
    assert Value([0x38]) == 56;
    var longList: seq<byte> := [0xf8, 0x38, 0xc0];
    assert longList[1..2] == [0x38];
    var inner: seq<byte> := [0xc2, 0x81, 0x00];
    assert inner[1..3] == [0x81, 0x00];
    assert DecodeItem([0x81, 0x00]) == Ok(Decoded(Bytes([0x00]), 2)) by {
      assert [0x81, 0x00][1..2] == [0x00];
    }
    assert [0x81, 0x00][2..] == [];
    assert ParseItems([0x81, 0x00]) == Ok([Bytes([0x00])]) by {
      assert [Bytes([0x00])] + [] == [Bytes([0x00])];
    }
    var bad: seq<byte> := [0xc2, 0x82, 0x00];
    assert bad[1..3] == [0x82, 0x00];
    assert DecodeItem([0x82, 0x00]) == Err(ShortStringTooShort);
    assert ParseItems([0x82, 0x00]) == Err(ShortStringTooShort);
  }
}
