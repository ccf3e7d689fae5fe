/** UTF-8 as defined in section 4 of RFC 3629: the decoder that turns the bytes
    of a url field into a string (`String::from_utf8`), and the encoder that is
    its exact inverse. Strings are sequences of Unicode scalar values. */
module Utf8 {
  import opened Wire

  /** A continuation byte `UTF8-tail = %x80-BF`. */
  predicate IsTail(b: Byte) { 0x80 <= b <= 0xBF }

  /** The six payload bits of a continuation byte. */
  function Low6(b: Byte): int { b as int - 0x80 }

  /** The bytes of one scalar value, one to four of them by its magnitude:
      the value's bits are cut into groups of six from the low end. */
  function EncodeChar(c: char): (r: Bytes)
    ensures 1 <= |r| <= 4
  {
    var cp := c as int;
    var t1 := cp / 64;
    var t2 := t1 / 64;
    if cp < 0x80 then [cp]
    else if cp < 0x800 then [0xC0 + t1, 0x80 + cp % 64]
    else if cp < 0x1_0000 then [0xE0 + t2, 0x80 + t1 % 64, 0x80 + cp % 64]
    else [0xF0 + t2 / 64, 0x80 + t2 % 64, 0x80 + t1 % 64, 0x80 + cp % 64]
  }

  function Encode(s: string): (r: Bytes)
    ensures |r| >= |s|
  {
    if s == [] then [] else EncodeChar(s[0]) + Encode(s[1..])
  }

  /** The first character of `bs` and its length in bytes, if `bs` starts
      with one of the well-formed sequences UTF8-1 .. UTF8-4. */
  function DecodeFirst(bs: Bytes): (r: Option<(char, nat)>)
    ensures r.Some? ==> 1 <= r.value.1 <= |bs|
  {
    if bs == [] then None
    else
      var b0: int := bs[0];
      if b0 < 0x80 then Some((b0 as char, 1))
      else if 0xC2 <= b0 <= 0xDF then
        if |bs| >= 2 && IsTail(bs[1]) then
          Some((((b0 - 0xC0) * 64 + Low6(bs[1])) as char, 2))
        else None
      else if 0xE0 <= b0 <= 0xEF then
        if |bs| >= 3 && IsTail(bs[1]) && IsTail(bs[2])
           && (b0 == 0xE0 ==> bs[1] >= 0xA0) && (b0 == 0xED ==> bs[1] <= 0x9F) then
          Some((((b0 - 0xE0) * 4096 + Low6(bs[1]) * 64 + Low6(bs[2])) as char, 3))
        else None
      else if 0xF0 <= b0 <= 0xF4 then
        if |bs| >= 4 && IsTail(bs[1]) && IsTail(bs[2]) && IsTail(bs[3])
           && (b0 == 0xF0 ==> bs[1] >= 0x90) && (b0 == 0xF4 ==> bs[1] <= 0x8F) then
          Some((((b0 - 0xF0) * 262144 + Low6(bs[1]) * 4096 + Low6(bs[2]) * 64 + Low6(bs[3])) as char, 4))
        else None
      else None
  }

  /** `String::from_utf8`: the string `bs` encodes, or `None` when `bs` is not
      well-formed UTF-8. */
  function Decode(bs: Bytes): (r: Option<string>)
    decreases |bs|
  {
    if bs == [] then Some([])
    else match DecodeFirst(bs)
      case None => None
      case Some((c, n)) =>
        match Decode(bs[n..])
        case None => None
        case Some(tail) => Some([c] + tail)
  }

  predicate Valid(bs: Bytes) { Decode(bs).Some? }

  /** Euclidean division by 64 undoes `q * 64 + r`. */
  lemma Div64(q: int, r: int)
    requires 0 <= r < 64
    ensures (q * 64 + r) / 64 == q && (q * 64 + r) % 64 == r
  {
  }

  /** Decoding the first character of an encoding gives the character back,
      and says how many bytes it took. */
  lemma DecodeFirstOfChar(c: char, rest: Bytes)
    ensures DecodeFirst(EncodeChar(c) + rest) == Some((c, |EncodeChar(c)|))
  {
    var cp := c as int;
    assert (EncodeChar(c) + rest)[..|EncodeChar(c)|] == EncodeChar(c);
    if cp < 0x80 {
    } else if cp < 0x800 {
      DecodeFirstOfChar2(c, rest);
    } else if cp < 0x1_0000 {
      DecodeFirstOfChar3(c, rest);
    } else {
      DecodeFirstOfChar4(c, rest);
    }
  }

  lemma DecodeFirstOfChar2(c: char, rest: Bytes)
    requires 0x80 <= c as int < 0x800
    ensures DecodeFirst(EncodeChar(c) + rest) == Some((c, 2))
  {
    var cp := c as int;
    assert cp == cp / 64 * 64 + cp % 64;
  }

  lemma DecodeFirstOfChar3(c: char, rest: Bytes)
    requires 0x800 <= c as int < 0x1_0000
    ensures DecodeFirst(EncodeChar(c) + rest) == Some((c, 3))
  {
    var cp := c as int;
    var t1 := cp / 64;
    assert cp == (t1 / 64 * 64 + t1 % 64) * 64 + cp % 64;
  }

  lemma DecodeFirstOfChar4(c: char, rest: Bytes)
    requires 0x1_0000 <= c as int
    ensures DecodeFirst(EncodeChar(c) + rest) == Some((c, 4))
  {
    var cp := c as int;
    var t1 := cp / 64;
    var t2 := t1 / 64;
    assert cp == ((t2 / 64 * 64 + t2 % 64) * 64 + t1 % 64) * 64 + cp % 64;
  }

  lemma EncodeCharOfFirst2(bs: Bytes)
    requires |bs| >= 2 && 0xC2 <= bs[0] <= 0xDF && IsTail(bs[1])
    ensures DecodeFirst(bs).Some? && EncodeChar(DecodeFirst(bs).value.0) == bs[..2]
  {
    var x, y := bs[0] as int - 0xC0, Low6(bs[1]);
    var cp := x * 64 + y;
    Div64(x, y);
    assert DecodeFirst(bs).value.0 as int == cp;
  }

  lemma EncodeCharOfFirst3(bs: Bytes)
    requires |bs| >= 3 && 0xE0 <= bs[0] <= 0xEF && DecodeFirst(bs).Some?
    ensures EncodeChar(DecodeFirst(bs).value.0) == bs[..3]
  {
    var x, y, z := bs[0] as int - 0xE0, Low6(bs[1]), Low6(bs[2]);
    var cp := (x * 64 + y) * 64 + z;
    Div64(x * 64 + y, z);
    Div64(x, y);
    assert DecodeFirst(bs).value.0 as int == cp;
  }

  lemma EncodeCharOfFirst4(bs: Bytes)
    requires |bs| >= 4 && 0xF0 <= bs[0] <= 0xF4 && DecodeFirst(bs).Some?
    ensures EncodeChar(DecodeFirst(bs).value.0) == bs[..4]
  {
    var w, x, y, z := bs[0] as int - 0xF0, Low6(bs[1]), Low6(bs[2]), Low6(bs[3]);
    var cp := ((w * 64 + x) * 64 + y) * 64 + z;
    Div64((w * 64 + x) * 64 + y, z);
    Div64(w * 64 + x, y);
    Div64(w, x);
    assert DecodeFirst(bs).value.0 as int == cp;
  }

  lemma EncodeCharOfFirst(bs: Bytes)
    requires DecodeFirst(bs).Some?
    ensures EncodeChar(DecodeFirst(bs).value.0) == bs[..DecodeFirst(bs).value.1]
  {
    if bs[0] < 0x80 {
    } else if bs[0] <= 0xDF {
      EncodeCharOfFirst2(bs);
    } else if bs[0] <= 0xEF {
      EncodeCharOfFirst3(bs);
    } else {
      EncodeCharOfFirst4(bs);
    }
  }

  /** Every string round-trips: decoding its encoding gives it back. */
  lemma {:induction false} DecodeEncode(s: string)
    ensures Decode(Encode(s)) == Some(s)
  {
    if s != [] {
      var e := EncodeChar(s[0]);
      DecodeFirstOfChar(s[0], Encode(s[1..]));
      assert (e + Encode(s[1..]))[|e|..] == Encode(s[1..]);
      DecodeEncode(s[1..]);
      assert [s[0]] + s[1..] == s;
    }
  }

  /** Decoding loses nothing: re-encoding a decoded string reproduces the bytes,
      so the valid byte strings are exactly the encodings of strings. */
  lemma {:induction false} EncodeDecode(bs: Bytes)
    requires Valid(bs)
    ensures Encode(Decode(bs).value) == bs
    decreases |bs|
  {
    if bs != [] {
      DecodeStep(bs);
      var (c, n) := DecodeFirst(bs).value;
      EncodeCharOfFirst(bs);
      EncodeDecode(bs[n..]);
      EncodeStep(bs, n, c, Decode(bs[n..]).value, Decode(bs).value);
    }
  }

  /** A nonempty well-formed sequence is its first character followed by a
      well-formed rest. */
  lemma DecodeStep(bs: Bytes)
    requires bs != [] && Valid(bs)
    ensures DecodeFirst(bs).Some? && Valid(bs[DecodeFirst(bs).value.1..])
    ensures Decode(bs).value ==
      [DecodeFirst(bs).value.0] + Decode(bs[DecodeFirst(bs).value.1..]).value
  {
  }

  /** Re-encoding one decoding step: the first character's encoding, then the rest's. */
  lemma EncodeStep(bs: Bytes, n: nat, c: char, tail: string, s: string)
    requires n <= |bs| && s == [c] + tail
    requires EncodeChar(c) == bs[..n] && Encode(tail) == bs[n..]
    ensures Encode(s) == bs
  {
    EncodeCons(c, tail);
    assert bs == bs[..n] + bs[n..];
  }

  /** Encoding works character by character. */
  lemma EncodeCons(c: char, s: string)
    ensures Encode([c] + s) == EncodeChar(c) + Encode(s)
  {
    assert ([c] + s)[1..] == s;
  }
}
