# RLP encoder and decoder, modelled in Dafny

This project models a Go implementation of Recursive Length Prefix (RLP), the serialisation of
Appendix B of the Ethereum Yellow Paper. The encoder (package `encode`) and the decoder (package
`decode`) share one framing rule, and the model proves properties of each and of the two together.

- `rlp_types.dfy` (`RlpTypes`): bytes, the decoded item tree `Item = Bytes | List`, the encoder's
  closed input type `Input = Text | Blob | Slice | Integer`, and one error constructor for each
  error and panic reachable from the closed `Input` type.
- `big_endian.dfy` (`BigEndian`): `Minimal(x)`, the minimal big-endian bytes that `toBinary`
  produces, and `Value(b)`, the big-endian number that `decodeLength` folds. It also shows that
  `Value` undoes `Minimal`, that `Minimal` has no leading zero, and that its length is the least
  that holds x.
- `encode.dfy` (`Encode`): `encodeLength`, `toBinary`, `encodeInteger` and `RlpEncode`.
  - `ToBinary` is a method. It runs the buffer loop and then `ReverseBytes`, the two-index reversal in place on an array.
  - `RlpEncode` is a recursive method. Its list branch appends each element's encoding in a loop.
  - Both are proved equal to specification functions (`Minimal`, `Encoding`).
- `decode.dfy` (`Decode`): `decodeItem` is split in two pure functions. `Header` is its switch over
  the five prefix ranges, with every length check and error; it gives the `Frame` where the
  payload lies. `DecodeItem` turns the frame into a byte-string or, through `ParseItems`, a list.
  `decodeList` is the method `DecodeList` with the cursor loop, proved equal to `ParseItems`.
  `decodeLength` is the method `DecodeLength` with the fold, proved equal to `Value`. `RlpDecode`
  is a function.
- `roundtrip.dfy` (`RoundTrip`): the decoder reads back every item tree that the encoder accepts.
  It consumes exactly the encoding, whatever bytes follow.
- `vectors.dfy` (`Vectors`): the two test tables. Each encoder input encodes to its listed bytes,
  and the decoder gives back the same values from the same bytes, plus one input for each decoder error.

Go integer inputs are mathematical integers. Go's `byte(...)` conversion in `encodeLength` is
written as `% 256`. A Go panic ("input too long", "RLP only supports unsigned integers") is an
`Err` result. Go strings are byte sequences, so `Text` holds bytes.

Unlike a strict canonical RLP decoder, this code (and so the model) accepts:
- a length field with leading zeros;
- a length under 56 written in long form.

Each decoder failure keeps the code's own message (`ShortStringTooShort`, `LongListPrefixTooShort`,
...).
- Bytes after the first item are ignored by `RlpDecode` (lemma `TrailingIgnored`).

## Model

| member | source | states |
|---|---|---|
| `BigEndian.Minimal` | encode/encode.go:67-82 | the big-endian bytes of x are empty for x = 0 (and for negative x, where the loop never runs); for x > 0 they are non-empty and the first byte is not zero |
| `BigEndian.PositionalSnoc` | decode/decode.go:104-107 | appending a byte c to a field multiplies its positional value by 256 and adds c |
| `BigEndian.ValueIsPositional` | decode/decode.go:102-109 | the decoder's shift-and-add fold equals the positional sum of b[i] * 256^(len-1-i) |
| `BigEndian.Value` | decode/decode.go:102-109 | the number a length field declares, folded as `decodeLength` does; a field of k bytes declares a number below 256^k |
| `BigEndian.ValueOfMinimal` | encode/encode.go:67-82 | decoding the bytes `toBinary` produces for x gives x back |
| `BigEndian.MinimalFits` | encode/encode.go:72-75 | the minimal bytes of x fit in k bytes if and only if x < 256^k |
| `BigEndian.MinimalIsShortest` | encode/encode.go:67-82 | the minimal bytes of x are the fewest that can hold x: x < 256^len and, for x > 0, 256^(len-1) <= x |
| `BigEndian.Pow256Eight` | encode/encode.go:58 | 256^8 is the 2^64 ceiling of the length check |
| `BigEndian.MinimalOfLength` | encode/encode.go:57-64 | a long-form length (56 up to 2^64) needs between 1 and 8 length bytes |
| `BigEndian.ShortFieldBound` | decode/decode.go:43-47 | a length field of at most 8 bytes declares a length below 2^64 |
| `BigEndian.Pow256Monotone` | decode/decode.go:43-47 | 256^i <= 256^j when i <= j |
| `Encode.ReversedAt` | encode/encode.go:77-80 | element k of the reversed buffer is element n-1-k of the buffer |
| `Encode.ReverseBytes` | encode/encode.go:77-80 | swapping from both ends of an array towards the middle leaves the buffer reversed |
| `Encode.ToBinary` | encode/encode.go:67-82 | the buffer loop followed by the in-place reversal yields exactly the minimal big-endian bytes of x |
| `Encode.EncodeLength` | encode/encode.go:52-65 | refused, with "input too long", exactly when length >= 2^64; under 56 the single byte (length+offset) mod 256 |
| `Encode.LongLength` | encode/encode.go:57-64 | from 56 on the prefix is 2 to 9 bytes: a byte (k+offset+55) mod 256, which is k+offset+55 when that fits in a byte, then k length bytes with no leading zero whose value is the length |
| `Encode.EncodeBytes` | encode/encode.go:12-23 | a single byte below 0x80 encodes as itself; any other string under 56 bytes (the empty one included) as [0x80+len] followed by the bytes; from 56 bytes on as [0xb7+k], then the k minimal length bytes (1 <= k <= 8), then the bytes; refused exactly when len >= 2^64 |
| `Encode.EncodeInteger` | encode/encode.go:84-93 | a negative integer is refused; 0 < n < 0x80 encodes as [n]; a larger n below 2^64 as [0x80+k] followed by its k minimal bytes |
| `Encode.IntegerBytes` | encode/encode.go:88 | the minimal bytes of a Go integer: [n] for 0 < n < 256, and 1 to 8 bytes below 2^64 |
| `Encode.Encoding` | encode/encode.go:10-50 | a successful encoding is never empty |
| `Encode.EncodeAll` | encode/encode.go:31-35 | the empty slice contributes no bytes; the elements' concatenated encodings take at least one byte per element |
| `Encode.EncodeAllAppend` | encode/encode.go:31-35 | encoding two runs of elements in turn gives the concatenation of their encodings; the first failure decides the error |
| `Encode.RlpEncode` | encode/encode.go:10-50 | the imperative encoder, including the list branch's append loop, computes exactly `Encoding` |
| `Encode.TextIsBytes` | encode/encode.go:12-23 | a string and a byte slice with the same bytes encode identically |
| `Encode.IntegerIsBytes` | encode/encode.go:40-46 | a negative integer is refused; any other integer, zero included, encodes as the byte-string of its minimal bytes |
| `Encode.ListForm` | encode/encode.go:30-37 | a list is its 0xc0-offset length prefix followed by its elements' encodings in order; under 56 bytes the prefix is 0xc0+len |
| `Decode.Header` | decode/decode.go:19-76 | empty input is an `EmptyInput` error; an accepted header's payload lies inside the buffer, the item takes up at least one byte, and a list payload starts after the prefix |
| `Decode.DecodeItem` | decode/decode.go:18-78 | empty input is an `EmptyInput` error; a successful decode consumes at least 1 and at most all of the bytes |
| `Decode.ParseItems` | decode/decode.go:82-98 | an empty payload is the empty list; a non-empty payload that decodes holds at least one item and never more items than bytes |
| `Decode.DecodeList` | decode/decode.go:82-98 | the cursor loop that appends items and returns the first error computes exactly `ParseItems` |
| `Decode.DecodeLength` | decode/decode.go:102-109 | the shift-and-add fold computes the big-endian value of the field, which is below 256^len |
| `Decode.RlpDecode` | decode/decode.go:9-12 | empty input is an `EmptyInput` error |
| `Decode.SingleByte` | decode/decode.go:27-28 | a first byte up to 0x7f is the one-byte string of that byte and consumes 1 byte |
| `Decode.ShortString` | decode/decode.go:32-37 | for 0x80+n, fails when fewer than n bytes follow; otherwise the next n bytes, consuming 1+n |
| `Decode.LongStringHeader` | decode/decode.go:42-51 | for 0xb7+k, fails when the k-byte field runs past the buffer, then when its declared payload does; otherwise the frame is the payload after the field, ending at 1+k+len |
| `Decode.ShortList` | decode/decode.go:55-61 | for 0xc0+n, fails when fewer than n bytes follow; otherwise the list decoded from exactly the next n bytes, with an inner error passed on |
| `Decode.LongListHeader` | decode/decode.go:66-76 | for 0xf7+k, fails when the length field runs past the buffer, then when the payload does; otherwise the frame is the declared payload after the field |
| `Decode.LongFormBound` | decode/decode.go:42-71 | in the long string and long list forms, the length field is 1 to 8 bytes right after the prefix, and the payload length it declares is its value and below 2^64 |
| `Decode.FrameError` | decode/decode.go:19-73 | a header error is the item's error |
| `Decode.StringFrame` | decode/decode.go:37-51 | a string frame makes the item exactly the bytes of its payload, consuming up to its end |
| `Decode.ListFrame` | decode/decode.go:60-76 | a list frame makes the item the list decoded from exactly its payload, with an inner error passed on |
| `Decode.Prefixed` | decode/decode.go:18-78 | a decoded item depends only on the bytes it consumed: any suffix after them gives the same item and count |
| `Decode.TrailingIgnored` | decode/decode.go:9-12 | bytes after the first item do not change `RlpDecode`'s result |
| `Decode.ParseCons` | decode/decode.go:89-96 | a payload that starts with one complete item decodes to that item followed by the items of the rest |
| `Decode.SizesLength` | decode/decode.go:89-96 | in a decoded payload there is one cursor step per item, and the steps add up to exactly the payload length |
| `Decode.SizesAt` | decode/decode.go:89-96 | the i-th item is decoded at the sum of the earlier steps, takes at least one byte and ends inside the payload |
| `Decode.SizesTile` | decode/decode.go:89-96 | the two together for every item: the items tile the payload in order |
| `RoundTrip.DecodeEncoded` | decode/decode.go:18-78 | the encoding of any item tree, followed by any bytes, decodes to that tree and consumes exactly the encoding |
| `RoundTrip.DecodeEncodedBytes` | decode/decode.go:27-51 | each of the three byte-string forms the encoder emits decodes back to the string and consumes all of it |
| `RoundTrip.DecodeLongBytes` | decode/decode.go:42-51 | a string of 56 bytes or more, behind its long prefix, decodes back and consumes prefix and string |
| `RoundTrip.LongStringFrame` | decode/decode.go:42-51 | a long string prefix whose field holds n frames exactly the next n bytes, whatever follows |
| `RoundTrip.DecodeFramedList` | decode/decode.go:55-76 | a payload decoding to xs, placed behind its list prefix, decodes to List(xs) and consumes the prefix and the payload |
| `RoundTrip.DecodeShortFramedList` | decode/decode.go:55-61 | the same behind a one-byte list prefix 0xc0+len |
| `RoundTrip.DecodeLongFramedList` | decode/decode.go:66-76 | the same behind a long list prefix whose field holds the payload length |
| `RoundTrip.LongListFrame` | decode/decode.go:66-76 | a long list prefix whose field holds n frames exactly the next n bytes, whatever follows |
| `RoundTrip.ParseEncodedAll` | decode/decode.go:82-98 | the concatenated encodings of xs decode, as a list payload, to exactly xs in order |
| `RoundTrip.DecodeOfEncode` | decode/decode.go:9-12 | `RlpDecode` of the encoding of any item tree is that tree, whether or not bytes follow |
| `RoundTrip.EncodeThenDecode` | encode/encode.go:10-50 | the imperative encoder followed by the decoder is the identity on item trees; encoding one can fail only with "input too long" |
| `RoundTrip.LiftNeverNegative` | encode/encode.go:84-87 | an item tree holds no integer, so its encoding never fails with the negative-integer error |
| `RoundTrip.LiftAllNeverNegative` | encode/encode.go:30-35 | the same for a run of list elements |
| `RoundTrip.TextRoundTrip` | encode/encode.go:12-17 | a string decodes back as the byte-string of its bytes (no type tag) |
| `RoundTrip.IntegerRoundTrip` | encode/encode.go:40-46 | an integer 0 <= n < 2^64 decodes to the byte-string of its minimal bytes, whose value is n |
| `RoundTrip.LastShort` | encode/encode.go:53-54 | a 55-byte string gets the one prefix byte 0xb7 and decodes back |
| `RoundTrip.FirstLong` | encode/encode.go:57-64 | a 56-byte string or text gets 0xb8 0x38 and decodes back |
| `Vectors.EncodeStrings` | encode/encode_test.go:13-56 | "dog" as text and as bytes gives 83 'd' 'o' 'g'; "" gives 80; [00] gives 00; [0f] gives 0f; [04 00] gives 82 04 00 |
| `Vectors.EncodeLongString` | encode/encode_test.go:68-71 | the 56-byte text gives b8 38 followed by the text |
| `Vectors.EncodeIntegers` | encode/encode_test.go:33-40 | 0 gives 80 and 15 gives 0f; -1 is refused |
| `Vectors.EncodeKilo` | encode/encode_test.go:41-44 | 1024 gives 82 04 00 |
| `Vectors.EncodeLists` | encode/encode_test.go:29-66 | [] gives c0; [[],[[]],[[],[[]]]] gives c7 c0 c1 c0 c3 c0 c1 c0 |
| `Vectors.EncodeCatDog` | encode/encode_test.go:17-20 | ["cat","dog"] gives c8 83 'c' 'a' 't' 83 'd' 'o' 'g' |
| `Vectors.DecodeStrings` | decode/decode_test.go:13-59 | 83 'd' 'o' 'g' gives "dog"; 80 gives the empty string; 0f, 00 and 82 04 00 give their bytes |
| `Vectors.DecodeLongString` | decode/decode_test.go:71-74 | b8 38 followed by the 56-byte text gives the text |
| `Vectors.DecodeLists` | decode/decode_test.go:17-70 | the list bytes of the table give ["cat","dog"], [] and [[],[[]],[[],[[]]]] |
| `Vectors.LiftCatDog` | encode/encode_test.go:17-20 | the decoded ["cat","dog"], fed back to the encoder, encodes like the table's []string input |
| `Vectors.LiftThree` | encode/encode_test.go:57-66 | the decoded representation of three, fed back to the encoder, is the table's []any input |
| `Vectors.DecodeErrors` | decode/decode.go:19-76 | an example input for each decoder error (empty, each truncation, an inner item's error inside a list) and a one-item list that decodes |

## Left out

- Reflection-based dispatch (`isIntegerKind`, `toInt`, `reflect.ValueOf`): the encoder takes the closed `Input` type instead. The "unsupported type" panic therefore cannot occur and is not modelled.
- The truncation of `int(v.Uint())` in `toInt` for unsigned values of 2^63 and above: integers are mathematical.
- Go `int` overflow in `decodeLength` for 8-byte length fields: lengths are `nat`. `ShortFieldBound` states that a field of at most 8 bytes declares a length below 2^64, and `LongFormBound` puts that bound on the payload length the decoder's two long forms declare.
- The `math/big` comparison in `encodeLength` is the plain test `length >= 2^64`, giving the `InputTooLong` error.
- Panics versus returned errors: both are `Err` results.
- Slices sharing memory: `decodeItem` returns sub-slices of its input, and `RlpEncode` returns a `[]byte` input itself for a one-byte literal. The model uses values, so this aliasing is not captured.
- The functional encoder (`EncodeLength`, `EncodeInteger`, `Encoding`) uses `Minimal` wherever the Go code calls `toBinary`. A function cannot call a method; `ToBinary` is proved to compute `Minimal`.
- The method `RlpEncode` calls these functions in its non-list branches.
- The functional decoder (`Header`) uses `Value` wherever the Go code calls `decodeLength`, for the same reason; `DecodeLength` is proved to compute `Value`.
- `ToBinary`'s reversal is the separate method `ReverseBytes`, which copies the buffer into a fresh array first; the Go code reverses the `bytes.Buffer`'s own slice.
- Strict canonical rejection (leading zeros in length fields, short lengths in long form) is not added. Nothing claims that encoding a decoded value gives back the original bytes.
- EncodeInteger: gives the exact encoding only for n below 2^64, Go's integer range. Larger n are covered only through `IntegerIsBytes`.
- EncodeLength: its long form is stated by the lemma `LongLength` rather than in its own contract.
- DecodeOfEncode: assumes the encoder accepted the tree, that is, every length in it is below 2^64. No separate predicate says which trees those are.
- The test harness (`t.Run`, `reflect.DeepEqual`): only the test vectors are kept.
