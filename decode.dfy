/**
 * The RLP decoder (package `decode`): one item from the front of a buffer
 * by its prefix byte, the items of a list payload one after another, and
 * big-endian length fields.
 */
module Decode {
  import opened RlpTypes
  import opened BigEndian

  /**
   * Where an item's payload lies in the buffer, as its prefix declares:
   * `data[start..end]`, a byte-string or a list payload; the item takes
   * up the first `end` bytes.
   */
  datatype Frame = Frame(isList: bool, start: nat, end: nat)

  /**
   * The prefix classification of `decodeItem`. The first byte falls in
   * one of five ranges: a literal byte (up to 0x7f), a short string (up
   * to 0xb7), a long string (up to 0xbf), a short list (up to 0xf7) and a
   * long list. Every declared length is checked against the bytes
   * available, each failure with its own error.
   */
  function Header(data: seq<byte>): (r: Result<Frame>)
    ensures |data| == 0 ==> r == Err(EmptyInput)
    ensures r.Ok? ==> r.value.start <= r.value.end <= |data| && 1 <= r.value.end
    ensures r.Ok? && r.value.isList ==> 1 <= r.value.start
  {
    if |data| == 0 then
      Err(EmptyInput)
    else
      var prefix := data[0];
      if prefix <= 0x7f then
        Ok(Frame(false, 0, 1))
      else if prefix <= 0xb7 then
        var strLen := prefix - 0x80;
        if |data| < 1 + strLen then Err(ShortStringTooShort)
        else Ok(Frame(false, 1, 1 + strLen))
      else if prefix <= 0xbf then
        var lenOfLen := prefix - 0xb7;
        if |data| < 1 + lenOfLen then Err(LongStringPrefixTooShort)
        else
          var strLen := Value(data[1..1 + lenOfLen]);
          if |data| < 1 + lenOfLen + strLen then Err(LongStringTooShort)
          else Ok(Frame(false, 1 + lenOfLen, 1 + lenOfLen + strLen))
      else if prefix <= 0xf7 then
        var listLen := prefix - 0xc0;
        if |data| < 1 + listLen then Err(ShortListTooShort)
        else Ok(Frame(true, 1, 1 + listLen))
      else
        var lenOfLen := prefix - 0xf7;
        if |data| < 1 + lenOfLen then Err(LongListPrefixTooShort)
        else
          var listLen := Value(data[1..1 + lenOfLen]);
          if |data| < 1 + lenOfLen + listLen then Err(LongListTooShort)
          else Ok(Frame(true, 1 + lenOfLen, 1 + lenOfLen + listLen))
  }

  /**
   * `decodeItem`: the item at the front of `data` and the number of bytes
   * it takes up. A byte-string is the payload slice itself; a list is the
   * items decoded from exactly its payload, and an error among them is
   * the item's error.
   */
  function DecodeItem(data: seq<byte>): (r: Result<Decoded>)
    ensures |data| == 0 ==> r == Err(EmptyInput)
    ensures r.Ok? ==> 1 <= r.value.consumed <= |data|
    decreases |data|, 0
  {
    match Header(data)
    case Err(e) => Err(e)
    case Ok(f) =>
      if !f.isList then
        Ok(Decoded(Bytes(data[f.start..f.end]), f.end))
      else
        AsList(ParseItems(data[f.start..f.end]), f.end)
  }

  /** A list result as a decoded item taking up `end` bytes; an error stays an error. */
  function AsList(r: Result<seq<Item>>, end: nat): (d: Result<Decoded>)
  {
    match r
    case Err(e) => Err(e)
    case Ok(items) => Ok(Decoded(List(items), end))
  }

  /**
   * What `decodeList` computes: the items of a list payload, decoded one
   * after another until the payload is used up; the first item that fails
   * to decode makes the whole list fail with its error. Since every item
   * takes up at least one byte, there are never more items than bytes.
   */
  function ParseItems(payload: seq<byte>): (r: Result<seq<Item>>)
    ensures |payload| == 0 ==> r == Ok([])
    ensures r.Ok? ==> |r.value| <= |payload|
    ensures r.Ok? && |payload| > 0 ==> |r.value| >= 1
    decreases |payload|, 1
  {
    if |payload| == 0 then
      Ok([])
    else
      match DecodeItem(payload)
      case Err(e) => Err(e)
      case Ok(d) =>
        match ParseItems(payload[d.consumed..])
        case Err(e) => Err(e)
        case Ok(rest) => Ok([d.item] + rest)
  }

  /** `items` in front of a list result, an error left as it is. */
  function Prepend(items: seq<Item>, r: Result<seq<Item>>): (p: Result<seq<Item>>)
  {
    match r
    case Err(e) => Err(e)
    case Ok(rest) => Ok(items + rest)
  }

  /**
   * `decodeList`: an empty payload is the empty list; otherwise items are
   * decoded from the front, appended to the result, and the cursor moves
   * past the bytes each one took up; an error abandons the list.
   */
  method DecodeList(data: seq<byte>) returns (r: Result<seq<Item>>)
    ensures r == ParseItems(data)
  {
    if |data| == 0 {
      return Ok([]);
    }
    var result: seq<Item> := [];
    var rest := data;
    match ParseItems(data) {
      case Err(_) =>
      case Ok(all) => assert [] + all == all;
    }
    while |rest| > 0
      invariant ParseItems(data) == Prepend(result, ParseItems(rest))
      decreases |rest|
    {
      var d := DecodeItem(rest);
      if d.Err? {
        return Err(d.error);
      }
      match ParseItems(rest[d.value.consumed..]) {
        case Err(_) =>
        case Ok(tail) => assert result + ([d.value.item] + tail) == (result + [d.value.item]) + tail;
      }
      result := result + [d.value.item];
      rest := rest[d.value.consumed..];
    }
    assert result + [] == result;
    return Ok(result);
  }

  /**
   * `decodeLength`: the fold n = n * 256 + byte over the length field,
   * which computes its big-endian value (0 for an empty field; the
   * positional sum by `ValueIsPositional`).
   */
  method DecodeLength(b: seq<byte>) returns (n: nat)
    ensures n == Value(b)
    ensures n < Pow256(|b|)
  {
    n := 0;
    var i := 0;
    while i < |b|
      invariant 0 <= i <= |b|
      invariant n == Value(b[..i])
    {
      assert b[..i + 1][..i] == b[..i];
      n := n * 256 + b[i];
      i := i + 1;
    }
    assert b[..i] == b;
  }

  /** `RlpDecode`: the first item of the input; what follows it is not looked at. */
  function RlpDecode(input: seq<byte>): (r: Result<Item>)
    ensures |input| == 0 ==> r == Err(EmptyInput)
  {
    match DecodeItem(input)
    case Err(e) => Err(e)
    case Ok(d) => Ok(d.item)
  }

  // The five prefix ranges. The three one-byte headers are stated on the
  // decoded item; the two headers with a length field are stated on the
  // frame, and the frame lemmas below turn a frame into the item.

  /** A first byte up to 0x7f is a one-byte string holding that byte, and takes up one byte. */
  lemma SingleByte(data: seq<byte>)
    requires |data| >= 1 && data[0] <= 0x7f
    ensures DecodeItem(data) == Ok(Decoded(Bytes([data[0]]), 1))
  {
    assert data[0..1] == [data[0]];
  }

  /**
   * A first byte 0x80 + n with n up to 55 is a string of n bytes: it fails
   * when fewer than n bytes follow, and otherwise is the next n bytes.
   */
  lemma ShortString(data: seq<byte>)
    requires |data| >= 1 && 0x80 <= data[0] <= 0xb7
    ensures var n := data[0] - 0x80;
      DecodeItem(data) ==
        if |data| < 1 + n then Err(ShortStringTooShort)
        else Ok(Decoded(Bytes(data[1..1 + n]), 1 + n))
  {
  }

  /** A first byte 0xc0 + n with n up to 55 is a list whose items fill the next n bytes. */
  lemma ShortList(data: seq<byte>)
    requires |data| >= 1 && 0xc0 <= data[0] <= 0xf7
    ensures var n := data[0] - 0xc0;
      DecodeItem(data) ==
        if |data| < 1 + n then Err(ShortListTooShort)
        else
          AsList(ParseItems(data[1..1 + n]), 1 + n)
  {
  }

  /** A failed header is the item's error. */
  lemma FrameError(data: seq<byte>)
    requires Header(data).Err?
    ensures DecodeItem(data) == Err(Header(data).error)
  {
  }

  /** A list header makes the item the list decoded from exactly its payload. */
  lemma ListFrame(data: seq<byte>, start: nat, end: nat)
    requires Header(data) == Ok(Frame(true, start, end))
    ensures DecodeItem(data) == AsList(ParseItems(data[start..end]), end)
  {
  }

  /** A string header makes the item the bytes of exactly its payload. */
  lemma StringFrame(data: seq<byte>, start: nat, end: nat)
    requires Header(data) == Ok(Frame(false, start, end))
    ensures DecodeItem(data) == Ok(Decoded(Bytes(data[start..end]), end))
  {
  }

  /**
   * A first byte 0xb7 + k with k from 1 to 8 is followed by a k-byte length
   * field: the frame fails when the field or the payload it declares runs
   * past the buffer, and otherwise is the payload after the field.
   */
  lemma LongStringHeader(data: seq<byte>)
    requires |data| >= 1 && 0xb8 <= data[0] <= 0xbf
    ensures var k := data[0] - 0xb7;
      Header(data) ==
        if |data| < 1 + k then Err(LongStringPrefixTooShort)
        else
          var n := Value(data[1..1 + k]);
          if |data| < 1 + k + n then Err(LongStringTooShort)
          else Ok(Frame(false, 1 + k, 1 + k + n))
  {
  }

  /**
   * A first byte 0xf7 + k is a list whose payload length is in the k-byte
   * field that follows, with the same two failures as a long string.
   */
  lemma LongListHeader(data: seq<byte>)
    requires |data| >= 1 && 0xf8 <= data[0]
    ensures var k := data[0] - 0xf7;
      Header(data) ==
        if |data| < 1 + k then Err(LongListPrefixTooShort)
        else
          var n := Value(data[1..1 + k]);
          if |data| < 1 + k + n then Err(LongListTooShort)
          else Ok(Frame(true, 1 + k, 1 + k + n))
  {
  }

  /**
   * The two long forms carry a length field of at most 8 bytes, right
   * after the prefix, so the payload length they declare (which the Go
   * code holds in an `int`) is below 2^64.
   */
  lemma LongFormBound(data: seq<byte>)
    requires Header(data).Ok? && 0xb8 <= data[0] && !(0xc0 <= data[0] <= 0xf7)
    ensures var f := Header(data).value;
      2 <= f.start <= 9 && f.end - f.start == Value(data[1..f.start]) < TwoTo64
  {
    var f := Header(data).value;
    ShortFieldBound(data[1..f.start]);
  }

  /**
   * An item depends only on the bytes it takes up: whatever follows
   * them, the same item is decoded with the same count.
   */
  lemma Prefixed(data: seq<byte>, rest: seq<byte>)
    requires DecodeItem(data).Ok?
    ensures var c := DecodeItem(data).value.consumed;
      DecodeItem(data[..c] + rest) == DecodeItem(data)
  {
    var f := Header(data).value;
    var data' := data[..f.end] + rest;
    assert data'[0] == data[0];
    assert forall i, j :: 0 <= i <= j <= f.end ==> data'[i..j] == data[i..j];
    assert Header(data') == Header(data);
  }

  /** Bytes after the first item do not change what `RlpDecode` returns. */
  lemma TrailingIgnored(input: seq<byte>, extra: seq<byte>)
    requires RlpDecode(input).Ok?
    ensures RlpDecode(input + extra) == RlpDecode(input)
  {
    var c := DecodeItem(input).value.consumed;
    assert input + extra == input[..c] + (input[c..] + extra) by {
      assert input == input[..c] + input[c..];
    }
    Prefixed(input, input[c..] + extra);
  }

  /**
   * A payload that starts with one complete item `a` decodes to that item
   * followed by the items of the rest.
   */
  lemma {:induction false} ParseCons(a: seq<byte>, b: seq<byte>)
    requires DecodeItem(a).Ok? && DecodeItem(a).value.consumed == |a|
    ensures ParseItems(a + b) == Prepend([DecodeItem(a).value.item], ParseItems(b))
  {
    Prefixed(a, b);
    assert a[..|a|] == a;
    assert (a + b)[|a|..] == b;
  }

  /** The total of a run of byte counts. */
  function Sum(cs: seq<nat>): (total: nat)
  {
    if cs == [] then 0 else cs[0] + Sum(cs[1..])
  }

  /** The byte counts that `decodeList`'s cursor advances by, item after item. */
  ghost function Sizes(payload: seq<byte>): (cs: seq<nat>)
    requires ParseItems(payload).Ok?
    decreases |payload|
  {
    if |payload| == 0 then []
    else
      var c := DecodeItem(payload).value.consumed;
      [c] + Sizes(payload[c..])
  }

  /**
   * A payload that decodes is tiled by its items: the sizes add up to
   * exactly the payload length, and there is one size per item.
   */
  lemma SizesTile(payload: seq<byte>)
    requires ParseItems(payload).Ok?
    ensures |Sizes(payload)| == |ParseItems(payload).value|
    ensures Sum(Sizes(payload)) == |payload|
    ensures forall i :: 0 <= i < |Sizes(payload)| ==>
      Sizes(payload)[i] >= 1 && Sum(Sizes(payload)[..i]) + Sizes(payload)[i] <= |payload| &&
      DecodeItem(payload[Sum(Sizes(payload)[..i])..]) ==
        Ok(Decoded(ParseItems(payload).value[i], Sizes(payload)[i]))
  {
    SizesLength(payload);
    forall i | 0 <= i < |Sizes(payload)|
      ensures Sizes(payload)[i] >= 1 && Sum(Sizes(payload)[..i]) + Sizes(payload)[i] <= |payload|
      ensures DecodeItem(payload[Sum(Sizes(payload)[..i])..]) ==
        Ok(Decoded(ParseItems(payload).value[i], Sizes(payload)[i]))
    {
      SizesAt(payload, i);
    }
  }

  /** One size per item, and the sizes add up to the payload length. */
  lemma {:induction false} SizesLength(payload: seq<byte>)
    requires ParseItems(payload).Ok?
    ensures |Sizes(payload)| == |ParseItems(payload).value|
    ensures Sum(Sizes(payload)) == |payload|
    decreases |payload|
  {
    if |payload| > 0 {
      var c := DecodeItem(payload).value.consumed;
      SizesLength(payload[c..]);
    }
  }

  /**
   * The i-th item of a decoding payload is decoded at the sum of the sizes
   * before it, takes up at least one byte, and ends inside the payload.
   */
  lemma {:induction false} SizesAt(payload: seq<byte>, i: nat)
    requires ParseItems(payload).Ok? && i < |Sizes(payload)| == |ParseItems(payload).value|
    ensures Sizes(payload)[i] >= 1 && Sum(Sizes(payload)[..i]) + Sizes(payload)[i] <= |payload|
    ensures DecodeItem(payload[Sum(Sizes(payload)[..i])..]) ==
      Ok(Decoded(ParseItems(payload).value[i], Sizes(payload)[i]))
    decreases i
  {
    var d := DecodeItem(payload).value;
    var c := d.consumed;
    var rest := payload[c..];
    var cs := Sizes(payload);
    assert cs == [c] + Sizes(rest);
    assert ParseItems(payload).value == [d.item] + ParseItems(rest).value;
    if i == 0 {
      assert payload[Sum(cs[..0])..] == payload;
    } else {
      SizesAt(rest, i - 1);
      SumFront(c, Sizes(rest), i);
      assert payload[Sum(cs[..i])..] == rest[Sum(Sizes(rest)[..i - 1])..];
    }
  }

  /** The first i counts of c followed by `tail` add up to c and the first i - 1 of `tail`. */
  lemma SumFront(c: nat, tail: seq<nat>, i: nat)
    requires 0 < i <= |tail| + 1
    ensures Sum(([c] + tail)[..i]) == c + Sum(tail[..i - 1])
  {
    assert ([c] + tail)[..i][1..] == tail[..i - 1];
  }
}
