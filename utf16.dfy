/** UTF-16 as defined in section 2.2 of RFC 2781, over little-endian code
    units: the decoder that turns the bytes of a title field into a string
    (`chunks_exact(2)`, `u16::from_le_bytes`, `String::from_utf16`), and the
    encoders that are its exact inverse. */
module Utf16 {
  import opened Wire

  /** Pairs of bytes read as little-endian 16-bit code units. */
  function Units(bs: Bytes): (r: seq<U16>)
    requires |bs| % 2 == 0
    ensures |r| * 2 == |bs|
    decreases |bs|
  {
    if bs == [] then []
    else
      Pow256Widths();
      [LeValue(bs[..2])] + Units(bs[2..])
  }

  /** The little-endian bytes of a sequence of code units. */
  function UnitBytes(us: seq<U16>): (r: Bytes)
    ensures |r| == 2 * |us|
  {
    if us == [] then []
    else
      Pow256Widths();
      LeBytes(us[0], 2) + UnitBytes(us[1..])
  }

  lemma {:induction false} UnitsOfBytes(us: seq<U16>)
    ensures Units(UnitBytes(us)) == us
  {
    if us != [] {
      Pow256Widths();
      var bs := UnitBytes(us);
      assert bs[..2] == LeBytes(us[0], 2);
      assert bs[2..] == UnitBytes(us[1..]);
      LeValueOfBytes(us[0], 2);
      UnitsOfBytes(us[1..]);
    }
  }

  lemma {:induction false} BytesOfUnits(bs: Bytes)
    requires |bs| % 2 == 0
    ensures UnitBytes(Units(bs)) == bs
    decreases |bs|
  {
    if bs != [] {
      var us := Units(bs);
      assert us[1..] == Units(bs[2..]);
      LeBytesOfValue(bs[..2]);
      BytesOfUnits(bs[2..]);
      assert bs == bs[..2] + bs[2..];
    }
  }

  predicate IsHighSurrogate(u: U16) { 0xD800 <= u <= 0xDBFF }
  predicate IsLowSurrogate(u: U16) { 0xDC00 <= u <= 0xDFFF }

  /** One scalar value as one code unit, or as a surrogate pair when it lies
      above the Basic Multilingual Plane. */
  function EncodeChar(c: char): (r: seq<U16>)
    ensures 1 <= |r| <= 2
  {
    var cp := c as int;
    if cp < 0x1_0000 then [cp]
    else
      var v := cp - 0x1_0000;
      [0xD800 + v / 1024, 0xDC00 + v % 1024]
  }

  function Encode(s: string): (r: seq<U16>)
    ensures |r| >= |s|
  {
    if s == [] then [] else EncodeChar(s[0]) + Encode(s[1..])
  }

  /** The first character of `us` and the number of units it takes, if `us`
      does not start with an unpaired surrogate. */
  function DecodeFirst(us: seq<U16>): (r: Option<(char, nat)>)
    ensures r.Some? ==> 1 <= r.value.1 <= |us|
  {
    if us == [] then None
    else if !IsHighSurrogate(us[0]) && !IsLowSurrogate(us[0]) then Some((us[0] as char, 1))
    else if IsHighSurrogate(us[0]) && |us| >= 2 && IsLowSurrogate(us[1]) then
      Some(((0x1_0000 + (us[0] as int - 0xD800) * 1024 + (us[1] as int - 0xDC00)) as char, 2))
    else None
  }

  /** `String::from_utf16`: the string `us` encodes, or `None` when it holds an
      unpaired surrogate. */
  function Decode(us: seq<U16>): (r: Option<string>)
    decreases |us|
  {
    if us == [] then Some([])
    else match DecodeFirst(us)
      case None => None
      case Some((c, n)) =>
        match Decode(us[n..])
        case None => None
        case Some(tail) => Some([c] + tail)
  }

  predicate Valid(us: seq<U16>) { Decode(us).Some? }

  lemma DecodeFirstOfChar(c: char, rest: seq<U16>)
    ensures DecodeFirst(EncodeChar(c) + rest) == Some((c, |EncodeChar(c)|))
  {
    var cp := c as int;
    var e := EncodeChar(c);
    assert (e + rest)[..|e|] == e;
    if cp >= 0x1_0000 {
      var v := cp - 0x1_0000;
      assert v == (v / 1024) * 1024 + v % 1024;
    }
  }

  lemma EncodeCharOfFirst(us: seq<U16>)
    requires DecodeFirst(us).Some?
    ensures EncodeChar(DecodeFirst(us).value.0) == us[..DecodeFirst(us).value.1]
  {
    if IsHighSurrogate(us[0]) {
      var x, y := us[0] as int - 0xD800, us[1] as int - 0xDC00;
      var v := x * 1024 + y;
      assert v / 1024 == x && v % 1024 == y;
      assert DecodeFirst(us).value.0 as int == 0x1_0000 + v;
    }
  }

  /** Every string round-trips: decoding its encoding gives it back. */
  lemma {:induction false} DecodeEncode(s: string)
    ensures Decode(Encode(s)) == Some(s)
  {
    if s != [] {
      var e := EncodeChar(s[0]);
      DecodeFirstOfChar(s[0], Encode(s[1..]));
      assert (e + Encode(s[1..]))[|e|..] == Encode(s[1..]);
      DecodeEncode(s[1..]);
      assert [s[0]] + s[1..] == s;
    }
  }

  /** Decoding loses nothing: re-encoding a decoded string reproduces the
      units, so the valid unit sequences are exactly the encodings of strings. */
  lemma {:induction false} EncodeDecode(us: seq<U16>)
    requires Valid(us)
    ensures Encode(Decode(us).value) == us
    decreases |us|
  {
    if us != [] {
      DecodeStep(us);
      var (c, n) := DecodeFirst(us).value;
      EncodeCharOfFirst(us);
      EncodeDecode(us[n..]);
      EncodeStep(us, n, c, Decode(us[n..]).value, Decode(us).value);
    }
  }

  /** A nonempty well-formed sequence is its first character followed by a
      well-formed rest. */
  lemma DecodeStep(us: seq<U16>)
    requires us != [] && Valid(us)
    ensures DecodeFirst(us).Some? && Valid(us[DecodeFirst(us).value.1..])
    ensures Decode(us).value ==
      [DecodeFirst(us).value.0] + Decode(us[DecodeFirst(us).value.1..]).value
  {
  }

  /** Re-encoding one decoding step: the first character's encoding, then the rest's. */
  lemma EncodeStep(us: seq<U16>, n: nat, c: char, tail: string, s: string)
    requires n <= |us| && s == [c] + tail
    requires EncodeChar(c) == us[..n] && Encode(tail) == us[n..]
    ensures Encode(s) == us
  {
    EncodeCons(c, tail);
    assert us == us[..n] + us[n..];
  }

  /** Encoding works character by character. */
  lemma EncodeCons(c: char, s: string)
    ensures Encode([c] + s) == EncodeChar(c) + Encode(s)
  {
    assert ([c] + s)[1..] == s;
  }
}
