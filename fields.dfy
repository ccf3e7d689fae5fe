/** The length-prefixed, 4-byte-aligned fields of a tab record. Each starts
    with a little-endian `u32` length; the field then occupies that length
    rounded up to a multiple of four, and only the first `length` bytes are its
    value. For the title the prefix counts UTF-16 code units, so it is doubled
    to get the byte length first. Lengths are computed without overflow; the
    wrapping arithmetic of the source is modelled separately below. */
module Fields {
  import opened Wire
  import Utf8
  import Utf16

  /** `n.next_multiple_of(4)` on unbounded naturals. */
  function RoundUp4(n: nat): (r: nat)
    ensures r % 4 == 0
    ensures n <= r < n + 4
  {
    (n + 3) / 4 * 4
  }

  /** `take(roundup4(len)).and_then(take(len))`: consume the value and its
      padding, keep the value. */
  function PaddedBody(s: Bytes, len: nat): (r: Result<Bytes>)
    ensures r.Ok? <==> RoundUp4(len) <= |s|
    ensures r.Ok? ==> r.value == s[..len] && r.rest == s[RoundUp4(len)..]
  {
    var padded := Take(s, RoundUp4(len));
    if padded.Fail? then Fail
    else
      var body := Take(padded.value, len);
      if body.Fail? then Fail else Ok(body.value, padded.rest)
  }

  /** A field whose prefix counts bytes (`state`, and the bytes of the three
      url fields): it takes `4 + roundup4(len)` bytes and its value is the
      `len` bytes after the prefix. */
  function LengthPrefixed(s: Bytes): (r: Result<Bytes>)
    ensures r.Ok? <==> 4 <= |s| && 4 + RoundUp4(LeValue(s[..4])) <= |s|
    ensures r.Ok? ==>
      var len := LeValue(s[..4]);
      r.value == s[4..4 + len] && r.rest == s[4 + RoundUp4(len)..]
  {
    var len := ReadU32(s);
    if len.Fail? then Fail
    else
      PaddedBody(len.rest, len.value)
  }

  /** The title's bytes: the prefix counts code units, so the field holds
      `2 * count` bytes of value and takes `4 + roundup4(2 * count)` bytes. */
  function TitleBytes(s: Bytes): (r: Result<Bytes>)
    ensures r.Ok? <==> 4 <= |s| && 4 + RoundUp4(2 * LeValue(s[..4])) <= |s|
    ensures r.Ok? ==>
      var len := 2 * LeValue(s[..4]);
      r.value == s[4..4 + len] && r.rest == s[4 + RoundUp4(len)..]
    ensures r.Ok? ==> |r.value| % 2 == 0
  {
    var count := ReadU32(s);
    if count.Fail? then Fail
    else
      DoubleIsEven(count.value);
      PaddedBody(count.rest, 2 * count.value)
  }

  /** Twice a count is even. */
  lemma DoubleIsEven(n: nat)
    ensures (2 * n) % 2 == 0
  {
  }

  /** `url`, `referrer_url`, `original_request_url`: a byte-counted field
      whose value must be well-formed UTF-8. */
  function Utf8Field(s: Bytes): Result<string>
  {
    var bytes := LengthPrefixed(s);
    if bytes.Fail? then Fail
    else match Utf8.Decode(bytes.value)
      case None => Fail
      case Some(text) => Ok(text, bytes.rest)
  }

  /** A url field reads exactly when its bytes are well-formed UTF-8, and its
      text is the one those bytes encode. */
  lemma Utf8FieldSpec(s: Bytes)
    ensures Utf8Field(s).Ok? <==> LengthPrefixed(s).Ok? && Utf8.Valid(LengthPrefixed(s).value)
    ensures Utf8Field(s).Ok? ==>
      Utf8.Encode(Utf8Field(s).value) == LengthPrefixed(s).value && Utf8Field(s).rest == LengthPrefixed(s).rest
  {
    if Utf8Field(s).Ok? {
      Utf8.EncodeDecode(LengthPrefixed(s).value);
    }
  }

  /** `title`: a unit-counted field whose value must be well-formed UTF-16LE. */
  function TitleField(s: Bytes): Result<string>
  {
    var bytes := TitleBytes(s);
    if bytes.Fail? then Fail
    else
      var units := Utf16.Units(bytes.value);
      match Utf16.Decode(units)
      case None => Fail
      case Some(text) => Ok(text, bytes.rest)
  }

  /** A title field reads exactly when its code units are well-formed UTF-16,
      and its text is the one whose UTF-16LE encoding is those bytes. */
  lemma TitleFieldSpec(s: Bytes)
    ensures TitleField(s).Ok? <==> TitleBytes(s).Ok? && Utf16.Valid(Utf16.Units(TitleBytes(s).value))
    ensures TitleField(s).Ok? ==>
      Utf16.UnitBytes(Utf16.Encode(TitleField(s).value)) == TitleBytes(s).value
      && TitleField(s).rest == TitleBytes(s).rest
  {
    if TitleField(s).Ok? {
      var bytes := TitleBytes(s).value;
      Utf16.EncodeDecode(Utf16.Units(bytes));
      Utf16.BytesOfUnits(bytes);
    }
  }

  /** A padded field as it lies on the wire: the prefix, the value, the padding. */
  datatype PaddedImage = PaddedImage(prefix: U32, data: Bytes, pad: Bytes)

  function PaddedWire(p: PaddedImage): Bytes
  {
    Pow256Widths();
    LeBytes(p.prefix, 4) + (p.data + p.pad)
  }

  /** The value holds `len` bytes and the padding brings it to `roundup4(len)`. */
  predicate WellPadded(p: PaddedImage, len: nat)
  {
    |p.data| == len && |p.data| + |p.pad| == RoundUp4(len)
  }

  /** Laying out a byte-counted field and reading it back gives its value and
      leaves exactly what followed it, whatever the padding bytes are. */
  lemma LengthPrefixedOfWire(p: PaddedImage, rest: Bytes)
    requires WellPadded(p, p.prefix)
    ensures LengthPrefixed(PaddedWire(p) + rest) == Ok(p.data, rest)
  {
    var s := PaddedWire(p) + rest;
    assert s[..4] == LeBytes(p.prefix, 4);
    LeValueOfBytes(p.prefix, 4);
    assert s[4..4 + p.prefix] == p.data;
    assert s[4 + RoundUp4(p.prefix)..] == rest;
  }

  /** Every byte-counted field that reads is such a layout: the bytes it
      consumed are a prefix, a value and its padding. */
  lemma LengthPrefixedLayout(s: Bytes) returns (p: PaddedImage)
    requires LengthPrefixed(s).Ok?
    ensures WellPadded(p, p.prefix) && p.data == LengthPrefixed(s).value
    ensures PaddedWire(p) + LengthPrefixed(s).rest == s
  {
    var len := LeValue(s[..4]);
    Pow256Widths();
    p := PaddedImage(len, s[4..4 + len], s[4 + len..4 + RoundUp4(len)]);
    PaddedSplit(s, len, RoundUp4(len));
  }

  /** Laying out a unit-counted field and reading it back gives its bytes and
      leaves exactly what followed it, whatever the padding bytes are. */
  lemma TitleBytesOfWire(p: PaddedImage, rest: Bytes)
    requires WellPadded(p, 2 * p.prefix)
    ensures TitleBytes(PaddedWire(p) + rest) == Ok(p.data, rest)
  {
    var s := PaddedWire(p) + rest;
    assert s[..4] == LeBytes(p.prefix, 4);
    LeValueOfBytes(p.prefix, 4);
    assert s[4..4 + 2 * p.prefix] == p.data;
    assert s[4 + RoundUp4(2 * p.prefix)..] == rest;
  }

  /** Every unit-counted field that reads is such a layout. */
  lemma TitleBytesLayout(s: Bytes) returns (p: PaddedImage)
    requires TitleBytes(s).Ok?
    ensures WellPadded(p, 2 * p.prefix) && p.data == TitleBytes(s).value
    ensures PaddedWire(p) + TitleBytes(s).rest == s
  {
    var count := LeValue(s[..4]);
    var len := 2 * count;
    Pow256Widths();
    p := PaddedImage(count, s[4..4 + len], s[4 + len..4 + RoundUp4(len)]);
    PaddedSplit(s, len, RoundUp4(len));
  }

  /** Bytes that hold a prefix, a value of `len` bytes and padding up to
      `total` bytes are the wire form of that field followed by the rest. */
  lemma PaddedSplit(s: Bytes, len: nat, total: nat)
    requires len <= total && 4 + total <= |s|
    ensures PaddedWire(PaddedImage(LeValue(s[..4]), s[4..4 + len], s[4 + len..4 + total])) + s[4 + total..] == s
  {
    LeBytesOfValue(s[..4]);
    assert s[..4] + (s[4..4 + len] + s[4 + len..4 + total]) + s[4 + total..] == s;
  }

  /** A url field on the wire: byte-counted, holding well-formed UTF-8. */
  predicate Utf8Image(p: PaddedImage)
  {
    WellPadded(p, p.prefix) && Utf8.Valid(p.data)
  }

  /** A title field on the wire: unit-counted, holding well-formed UTF-16LE. */
  predicate Utf16Image(p: PaddedImage)
  {
    WellPadded(p, 2 * p.prefix) && |p.data| % 2 == 0 && Utf16.Valid(Utf16.Units(p.data))
  }

  lemma Utf8FieldOfWire(p: PaddedImage, rest: Bytes)
    requires Utf8Image(p)
    ensures Utf8Field(PaddedWire(p) + rest) == Ok(Utf8.Decode(p.data).value, rest)
  {
    LengthPrefixedOfWire(p, rest);
  }

  /** A url field reads exactly when it lies on the wire as a padded, well-formed
      UTF-8 value; its text is what that value decodes to. */
  lemma Utf8FieldLayout(s: Bytes) returns (p: PaddedImage)
    requires Utf8Field(s).Ok?
    ensures Utf8Image(p) && Utf8.Decode(p.data) == Some(Utf8Field(s).value)
    ensures PaddedWire(p) + Utf8Field(s).rest == s
  {
    p := LengthPrefixedLayout(s);
  }

  lemma TitleFieldOfWire(p: PaddedImage, rest: Bytes)
    requires Utf16Image(p)
    ensures TitleField(PaddedWire(p) + rest) == Ok(Utf16.Decode(Utf16.Units(p.data)).value, rest)
  {
    TitleBytesOfWire(p, rest);
  }

  /** A title field reads exactly when it lies on the wire as a padded,
      well-formed UTF-16LE value; its text is what those units decode to. */
  lemma TitleFieldLayout(s: Bytes) returns (p: PaddedImage)
    requires TitleField(s).Ok?
    ensures Utf16Image(p) && Utf16.Decode(Utf16.Units(p.data)) == Some(TitleField(s).value)
    ensures PaddedWire(p) + TitleField(s).rest == s
  {
    p := TitleBytesLayout(s);
  }

  // The source's `u32` arithmetic, as a release build evaluates it (a debug
  // build panics instead of wrapping).

  /** `len.next_multiple_of(4)` on a `u32`, wrapping modulo 2^32. */
  function NextMultipleOf4Wrapping(len: U32): (r: U32)
    ensures len <= 0xFFFF_FFFC ==> r == RoundUp4(len)
    ensures len > 0xFFFF_FFFC ==> r == 0
  {
    RoundUp4(len) % 0x1_0000_0000
  }

  /** `take(len.next_multiple_of(4)).and_then(take(len))` with the wrapping
      rounding. */
  function PaddedBodyAsWritten(s: Bytes, len: U32): Result<Bytes>
  {
    var padded := Take(s, NextMultipleOf4Wrapping(len));
    if padded.Fail? then Fail
    else
      var body := Take(padded.value, len);
      if body.Fail? then Fail else Ok(body.value, padded.rest)
  }

  /** The wrapping rounding is harmless: when it wraps, the inner `take(len)`
      fails on the empty slice, exactly where the unbounded rounding fails for
      want of bytes. */
  lemma PaddedBodyWrapHarmless(s: Bytes, len: U32)
    requires |s| < 0x1_0000_0000
    ensures PaddedBodyAsWritten(s, len) == PaddedBody(s, len)
  {
  }

  /** The title's bytes as written: `clen * 2` wraps modulo 2^32 before the
      rounding. */
  function TitleBytesAsWritten(s: Bytes): Result<Bytes>
  {
    var count := ReadU32(s);
    if count.Fail? then Fail
    else PaddedBodyAsWritten(count.rest, (2 * count.value) % 0x1_0000_0000)
  }

  /** The title field with the wrapping byte length. The wrapped length is
      always even, so the parity test never fails; it is there only because
      `Utf16.Units` is defined on whole pairs (`chunks_exact(2)` would drop an
      odd last byte rather than fail). */
  function TitleFieldAsWritten(s: Bytes): Result<string>
  {
    var bytes := TitleBytesAsWritten(s);
    if bytes.Fail? || |bytes.value| % 2 != 0 then Fail
    else match Utf16.Decode(Utf16.Units(bytes.value))
      case None => Fail
      case Some(text) => Ok(text, bytes.rest)
  }

  /** Below 2^31 code units the doubling does not wrap, so on any record-sized
      input the title reads as written exactly as the corrected one does. */
  lemma TitleAgree(s: Bytes)
    requires |s| < 0x1_0000_0000 && 4 <= |s| && LeValue(s[..4]) < 0x8000_0000
    ensures TitleBytesAsWritten(s) == TitleBytes(s)
  {
    var count := ReadU32(s);
    assert (2 * count.value) % 0x1_0000_0000 == 2 * count.value;
    PaddedBodyWrapHarmless(count.rest, 2 * count.value);
  }

  /** A title prefix of 0x8000_0001 code units followed by four bytes: the
      wrapped byte length is 2, so the field as written reads the title "A"
      although the declared 0x1_0000_0002 bytes are not there; the unbounded
      rule rejects the field. */
  lemma TitleWrapAccepts()
    ensures Pow256(4) == 0x1_0000_0000
    ensures TitleFieldAsWritten(LeBytes(0x8000_0001, 4) + [0x41, 0, 0, 0]) == Ok("A", [])
    ensures TitleField(LeBytes(0x8000_0001, 4) + [0x41, 0, 0, 0]).Fail?
  {
    Pow256Widths();
    TitleWrapBytes();
    DecodeLetterA();
  }

  /** The bytes of that title: two as written, none (a failure) unbounded. */
  lemma TitleWrapBytes()
    ensures Pow256(4) == 0x1_0000_0000
    ensures TitleBytesAsWritten(LeBytes(0x8000_0001, 4) + [0x41, 0, 0, 0]) == Ok([0x41, 0], [])
    ensures TitleBytes(LeBytes(0x8000_0001, 4) + [0x41, 0, 0, 0]).Fail?
  {
    Pow256Widths();
    TitleWrapOf(0x8000_0001, [0x41, 0, 0, 0]);
  }

  /** The same, with the count and the tail as variables rather than literals. */
  lemma TitleWrapOf(v: U32, rest: Bytes)
    requires v == 0x8000_0001 && rest == [0x41, 0, 0, 0]
    ensures TitleBytesAsWritten(LeBytes(v, 4) + rest) == Ok([0x41, 0], [])
    ensures TitleBytes(LeBytes(v, 4) + rest).Fail?
  {
    DoubledCountWraps();
    assert (2 * v) % 0x1_0000_0000 == 2;
    TitleOfCount(v, rest);
    PaddedLetterA();
  }

  /** Doubling 0x8000_0001 in 32 bits leaves 2. */
  lemma DoubledCountWraps()
    ensures (2 * 0x8000_0001) % 0x1_0000_0000 == 2
  {
    assert 2 * 0x8000_0001 == 0x1_0000_0000 + 2;
  }

  /** Both title readers after a count prefix `v`. */
  lemma TitleOfCount(v: U32, rest: Bytes)
    ensures TitleBytesAsWritten(LeBytes(v, 4) + rest)
         == PaddedBodyAsWritten(rest, (2 * v) % 0x1_0000_0000)
    ensures TitleBytes(LeBytes(v, 4) + rest).Ok? <==> RoundUp4(2 * v) <= |rest|
  {
    ReadU32OfBytes(v, rest);
  }

  /** Two bytes of value and two of padding, read with the wrapping rounding. */
  lemma PaddedLetterA()
    ensures PaddedBodyAsWritten([0x41, 0, 0, 0], 2) == Ok([0x41, 0], [])
  {
    var tail: Bytes := [0x41, 0, 0, 0];
    assert NextMultipleOf4Wrapping(2) == 4;
    assert tail[..4] == tail && tail[4..] == [];
    assert tail[..2] == [0x41, 0];
  }

  /** The two bytes 0x41 0x00 are the UTF-16LE text "A". */
  lemma DecodeLetterA()
    ensures Utf16.Decode(Utf16.Units([0x41, 0])) == Some("A")
  {
    assert Utf16.Units([0x41, 0]) == [0x41] by {
      assert LeValue([0x41, 0]) == 0x41;
    }
    assert 0x41 as char == 'A';
    var units: seq<U16> := [0x41];
    assert Utf16.DecodeFirst(units) == Some(('A', 1));
    assert units[1..] == [] && Utf16.Decode([]) == Some([]);
    var a: string := ['A'];
    assert a + [] == a;
  }
}
