/**
 * The RLP encoder (package `encode`): length prefixes, minimal big-endian
 * integers, byte-strings, lists and integers.
 */
module Encode {
  import opened RlpTypes
  import opened BigEndian

  /** `s` read back to front. */
  function Reversed(s: seq<byte>): (r: seq<byte>)
    ensures |r| == |s|
  {
    if s == [] then [] else [s[|s| - 1]] + Reversed(s[..|s| - 1])
  }

  lemma {:induction false} ReversedAt(s: seq<byte>, k: nat)
    requires k < |s|
    ensures Reversed(s)[k] == s[|s| - 1 - k]
    decreases |s|
  {
    if k > 0 {
      ReversedAt(s[..|s| - 1], k - 1);
    }
  }

  /**
   * `toBinary`: writes the low byte of x into a buffer and shifts x right
   * by 8 until it is zero, then reverses the buffer in place. The result
   * is the minimal big-endian form of x.
   */
  method ToBinary(x: int) returns (b: seq<byte>)
    ensures b == Minimal(x)
  {
    if x == 0 {
      return [];
    }
    var buf: seq<byte> := [];
    var y := x;
    while y > 0
      invariant Minimal(x) == Minimal(y) + Reversed(buf)
      decreases y
    {
      assert (buf + [y % 256])[..|buf|] == buf;
      buf := buf + [y % 256];
      y := y / 256;
    }
    b := ReverseBytes(buf);
  }

  /** The reversal at the end of `toBinary`: swaps from both ends of a buffer towards the middle. */
  method ReverseBytes(buf: seq<byte>) returns (b: seq<byte>)
    ensures b == Reversed(buf)
  {
    var n := |buf|;
    var a := new byte[n](k requires 0 <= k < n => buf[k]);
    var i, j := 0, n - 1;
    while i < j
      invariant 0 <= i <= j + 1 <= n && j == n - 1 - i
      invariant forall k :: 0 <= k < i ==> a[k] == buf[n - 1 - k] && a[n - 1 - k] == buf[k]
      invariant forall k :: i <= k <= j ==> a[k] == buf[k]
    {
      a[i], a[j] := a[j], a[i];
      i, j := i + 1, j - 1;
    }
    b := a[..];
    forall k | 0 <= k < n
      ensures b[k] == Reversed(buf)[k]
    {
      ReversedAt(buf, k);
    }
  }

  /**
   * `encodeLength`: the prefix announcing a payload of `length` bytes.
   * Below 56 it is the single byte length + offset; otherwise one byte
   * |length bytes| + offset + 55 followed by the minimal big-endian length.
   * A length of 2^64 or more is refused. Go's `byte(...)` conversion keeps
   * the low eight bits, written here as `% 256`.
   */
  function EncodeLength(length: nat, offset: nat): (r: Result<seq<byte>>)
    ensures r.Err? <==> length >= TwoTo64
    ensures r.Err? ==> r.error == InputTooLong
    ensures r.Ok? && length < 56 ==> r.value == [(length + offset) % 256]
  {
    if length < 56 then
      Ok([(length + offset) % 256])
    else if length >= TwoTo64 then
      Err(InputTooLong)
    else
      var bl := Minimal(length);
      Ok([(|bl| + offset + 55) % 256] + bl)
  }

  /**
   * A long prefix can be read back: one to eight length bytes after the
   * size byte, no leading zero, and their big-endian value is the length.
   */
  lemma LongLength(length: nat, offset: nat)
    requires 56 <= length < TwoTo64
    ensures var p := EncodeLength(length, offset).value;
      2 <= |p| <= 9 && p[0] == (|p| - 1 + offset + 55) % 256 && p[1] != 0 && Value(p[1..]) == length
    ensures var p := EncodeLength(length, offset).value;
      offset + 63 < 256 ==> p[0] == |p| - 1 + offset + 55
  {
    var bl := Minimal(length);
    MinimalOfLength(length);
    ValueOfMinimal(length);
    assert ([(|bl| + offset + 55) % 256] + bl)[1..] == bl;
  }

  /**
   * The prefix of a length below 56 is one byte, when the offset leaves room
   * for it. This lemma and `LongPrefix` only unfold `EncodeLength` for the
   * proofs about `EncodeBytes` and lists.
   */
  lemma ShortPrefix(length: nat, offset: nat)
    requires length < 56 && length + offset < 256
    ensures EncodeLength(length, offset) == Ok([length + offset])
  {
  }

  /**
   * The prefix of a length of 56 or more, spelled out: its size byte, then
   * the minimal length. An unfolding helper, like `ShortPrefix`.
   */
  lemma LongPrefix(length: nat, offset: nat)
    requires 56 <= length < TwoTo64
    ensures 1 <= |Minimal(length)| <= 8
    ensures EncodeLength(length, offset) ==
      Ok([(|Minimal(length)| + offset + 55) % 256] + Minimal(length))
  {
    MinimalOfLength(length);
  }

  /**
   * A byte-string (the `string` and `[]byte` branches of `RlpEncode`): a
   * single byte below 0x80 stands for itself, anything else is prefixed
   * with its length at offset 0x80.
   */
  function EncodeBytes(d: seq<byte>): (r: Result<seq<byte>>)
    ensures r.Ok? <==> |d| < TwoTo64
    ensures |d| == 1 && d[0] < 0x80 ==> r == Ok(d)
    ensures !(|d| == 1 && d[0] < 0x80) && |d| < 56 ==> r == Ok([0x80 + |d|] + d)
    ensures 56 <= |d| < TwoTo64 ==>
      r == Ok([0xb7 + |Minimal(|d|)|] + Minimal(|d|) + d) && 1 <= |Minimal(|d|)| <= 8
  {
    if |d| == 1 && d[0] < 0x80 then
      Ok(d)
    else
      match EncodeLength(|d|, 0x80)
      case Err(e) => Err(e)
      case Ok(prefix) =>
        if |d| >= 56 then
          LongPrefix(|d|, 0x80);
          Ok(prefix + d)
        else
          ShortPrefix(|d|, 0x80);
          Ok(prefix + d)
  }

  /**
   * `encodeInteger`: a negative number is refused; otherwise the minimal
   * big-endian bytes of n encoded as a byte-string.
   */
  function EncodeInteger(n: int): (r: Result<seq<byte>>)
    ensures n < 0 ==> r == Err(NegativeInteger)
    ensures 0 < n < 0x80 ==> r == Ok([n])
    ensures 0x80 <= n < TwoTo64 ==>
      r == Ok([0x80 + |Minimal(n)|] + Minimal(n)) && 1 <= |Minimal(n)| <= 8
  {
    if n < 0 then
      Err(NegativeInteger)
    else
      var buf := Minimal(n);
      IntegerBytes(n);
      EncodeBytes(buf)
  }

  /** The minimal bytes of a Go integer: one byte below 256, at most eight below 2^64. */
  lemma IntegerBytes(n: nat)
    ensures 0 < n < 256 ==> Minimal(n) == [n]
    ensures 0 < n < TwoTo64 ==> 1 <= |Minimal(n)| <= 8
  {
    Pow256Eight();
    MinimalFits(n, 8);
    if 0 < n < 256 {
      assert Minimal(n) == Minimal(0) + [n];
    }
  }

  /** `RlpEncode` as a function of its input: what the method below computes. */
  function Encoding(v: Input): (r: Result<seq<byte>>)
    ensures r.Ok? ==> |r.value| >= 1
    decreases v
  {
    match v
    case Text(s) => EncodeBytes(s)
    case Blob(b) => EncodeBytes(b)
    case Slice(vs) =>
      (match EncodeAll(vs)
       case Err(e) => Err(e)
       case Ok(output) =>
         match EncodeLength(|output|, 0xc0)
         case Err(e) => Err(e)
         case Ok(prefix) => Ok(prefix + output))
    case Integer(n) =>
      if n == 0 then Ok([0x80]) else EncodeInteger(n)
  }

  /**
   * The encodings of `vs` concatenated in order; the first element that
   * cannot be encoded decides the error.
   */
  function EncodeAll(vs: seq<Input>): (r: Result<seq<byte>>)
    ensures vs == [] ==> r == Ok([])
    ensures r.Ok? ==> |r.value| >= |vs|
    decreases vs
  {
    if vs == [] then
      Ok([])
    else
      match Encoding(vs[0])
      case Err(e) => Err(e)
      case Ok(head) =>
        match EncodeAll(vs[1..])
        case Err(e) => Err(e)
        case Ok(tail) => Ok(head + tail)
  }

  /** Encoding two runs of elements one after the other concatenates their encodings. */
  lemma {:induction false} EncodeAllAppend(p: seq<Input>, q: seq<Input>)
    ensures EncodeAll(p + q) ==
      match EncodeAll(p)
      case Err(e) => Err(e)
      case Ok(a) =>
        match EncodeAll(q)
        case Err(e) => Err(e)
        case Ok(b) => Ok(a + b)
    decreases |p|
  {
    if p == [] {
      assert p + q == q;
      match EncodeAll(q)
      case Err(_) =>
      case Ok(b) => assert [] + b == b;
    } else {
      assert (p + q)[0] == p[0];
      assert (p + q)[1..] == p[1..] + q;
      EncodeAllAppend(p[1..], q);
      match Encoding(p[0])
      case Err(_) =>
      case Ok(head) =>
        match EncodeAll(p[1..])
        case Err(_) =>
        case Ok(a) =>
          match EncodeAll(q)
          case Err(_) =>
          case Ok(b) =>
            assert head + (a + b) == (head + a) + b;
    }
  }

  /**
   * `RlpEncode`: strings and byte slices are byte-strings, a slice has its
   * elements encoded in turn and appended to one output before the list
   * prefix is put in front, and an integer is zero (the empty string,
   * 0x80) or goes through `EncodeInteger`.
   */
  method RlpEncode(v: Input) returns (r: Result<seq<byte>>)
    ensures r == Encoding(v)
    decreases v
  {
    match v {
      case Text(s) =>
        r := EncodeBytes(s);
      case Blob(b) =>
        r := EncodeBytes(b);
      case Slice(vs) =>
        var output: seq<byte> := [];
        var i := 0;
        while i < |vs|
          invariant 0 <= i <= |vs|
          invariant EncodeAll(vs[..i]) == Ok(output)
        {
          var e := RlpEncode(vs[i]);
          if e.Err? {
            EncodeAllAppend(vs[..i], vs[i..]);
            assert vs[..i] + vs[i..] == vs;
            return Err(e.error);
          }
          assert EncodeAll([vs[i]]) == Ok(e.value) by {
            assert [vs[i]][0] == vs[i] && [vs[i]][1..] == [];
            assert e.value + [] == e.value;
          }
          EncodeAllAppend(vs[..i], [vs[i]]);
          assert vs[..i + 1] == vs[..i] + [vs[i]];
          output := output + e.value;
          i := i + 1;
        }
        assert vs[..i] == vs;
        var prefix := EncodeLength(|output|, 0xc0);
        if prefix.Err? {
          return Err(prefix.error);
        }
        r := Ok(prefix.value + output);
      case Integer(n) =>
        if n == 0 {
          r := Ok([0x80]);
        } else {
          r := EncodeInteger(n);
        }
    }
  }

  /** A text string and a byte slice with the same bytes encode alike. */
  lemma TextIsBytes(s: seq<byte>)
    ensures Encoding(Text(s)) == Encoding(Blob(s)) == EncodeBytes(s)
  {
  }

  /** Every integer that is not refused encodes as the byte-string of its minimal bytes; zero as the empty one. */
  lemma IntegerIsBytes(n: int)
    ensures n < 0 ==> Encoding(Integer(n)) == Err(NegativeInteger)
    ensures n >= 0 ==> Encoding(Integer(n)) == EncodeBytes(Minimal(n))
  {
    if n == 0 {
      assert EncodeLength(0, 0x80) == Ok([0x80]);
      assert [0x80] + Minimal(0) == [0x80];
    }
  }

  /** A list is its length prefix at offset 0xc0 followed by its elements' encodings in order. */
  lemma ListForm(vs: seq<Input>)
    requires EncodeAll(vs).Ok? && |EncodeAll(vs).value| < TwoTo64
    ensures Encoding(Slice(vs)).Ok?
    ensures var body := EncodeAll(vs).value;
      Encoding(Slice(vs)).value == EncodeLength(|body|, 0xc0).value + body
    ensures var body := EncodeAll(vs).value;
      |body| < 56 ==> Encoding(Slice(vs)).value == [0xc0 + |body|] + body
  {
    var body := EncodeAll(vs).value;
    assert Encoding(Slice(vs)) == Ok(EncodeLength(|body|, 0xc0).value + body);
    if |body| < 56 {
      ShortPrefix(|body|, 0xc0);
    }
  }
}
