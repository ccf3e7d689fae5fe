/** The primitive byte reader: a cursor over an immutable byte buffer, threaded
    functionally. Every parser takes the remaining input and returns the value
    it read together with the input left after it, or `Fail`. */
module Wire {

  type Byte = b: int | 0 <= b < 0x100
  type Bytes = seq<Byte>
  type U16 = n: int | 0 <= n < 0x1_0000
  type U32 = n: int | 0 <= n < 0x1_0000_0000
  type I32 = n: int | -0x8000_0000 <= n < 0x8000_0000

  /** Outcome of one parser step: the value and the unconsumed input. */
  datatype Result<+T> = Ok(value: T, rest: Bytes) | Fail

  datatype Option<+T> = None | Some(value: T)

  /** 256 to the power `n`: one more than the largest `n`-byte unsigned value. */
  function Pow256(n: nat): (r: nat)
    ensures r >= 1
  {
    if n == 0 then 1 else 256 * Pow256(n - 1)
  }

  /** The powers behind the two- and four-byte readers. */
  lemma Pow256Widths()
    ensures Pow256(2) == 0x1_0000 && Pow256(4) == 0x1_0000_0000
  {
  }

  /** The unsigned value of `bs` read little-endian (least significant byte first). */
  function LeValue(bs: Bytes): (r: nat)
    ensures r < Pow256(|bs|)
  {
    if bs == [] then 0 else bs[0] + 256 * LeValue(bs[1..])
  }

  /** Two bytes read little-endian. */
  lemma LeValuePair(bs: Bytes)
    requires |bs| == 2
    ensures LeValue(bs) == bs[0] as int + 256 * (bs[1] as int)
  {
    assert bs[1..][1..] == [];
  }

  /** The `n` little-endian bytes that encode `v`. */
  function LeBytes(v: nat, n: nat): (r: Bytes)
    requires v < Pow256(n)
    ensures |r| == n
  {
    if n == 0 then [] else [v % 256] + LeBytes(v / 256, n - 1)
  }

  /** Reading back the bytes of a value gives the value. */
  lemma {:induction false} LeValueOfBytes(v: nat, n: nat)
    requires v < Pow256(n)
    ensures LeValue(LeBytes(v, n)) == v
  {
    if n > 0 {
      LeValueOfBytes(v / 256, n - 1);
      assert LeBytes(v, n)[1..] == LeBytes(v / 256, n - 1);
    }
  }

  /** Encoding the value of some bytes gives back those bytes. */
  lemma {:induction false} LeBytesOfValue(bs: Bytes)
    ensures LeBytes(LeValue(bs), |bs|) == bs
  {
    if bs != [] {
      var v := LeValue(bs);
      LeBytesOfValue(bs[1..]);
      assert v % 256 == bs[0] && v / 256 == LeValue(bs[1..]);
    }
  }

  /** A `u32` read as the `i32` with the same two's-complement bits. */
  function AsI32(u: U32): (r: I32)
    ensures 0 <= r ==> r == u
    ensures r < 0 ==> r == u - 0x1_0000_0000
  {
    if u < 0x8000_0000 then u else u - 0x1_0000_0000
  }

  /** The four little-endian two's-complement bytes of an `i32`. */
  function I32Bytes(v: I32): (r: Bytes)
    ensures |r| == 4
  {
    Pow256Widths();
    LeBytes(if v < 0 then v + 0x1_0000_0000 else v, 4)
  }

  /** `take(n)`: the next `n` bytes, failing when fewer remain. */
  function Take(s: Bytes, n: nat): (r: Result<Bytes>)
    ensures r.Ok? <==> n <= |s|
    ensures r.Ok? ==> |r.value| == n && r.value + r.rest == s
  {
    if n <= |s| then Ok(s[..n], s[n..]) else Fail
  }

  /** `le_u16`, `le_u32`: an `n`-byte unsigned little-endian integer. */
  function ReadUnsigned(s: Bytes, n: nat): (r: Result<nat>)
    ensures r.Ok? <==> n <= |s|
    ensures r.Ok? ==> r.value < Pow256(n) && LeBytes(r.value, n) + r.rest == s
    ensures r.Ok? ==> r.value == LeValue(s[..n]) && r.rest == s[n..]
  {
    if n <= |s| then
      LeBytesOfValue(s[..n]);
      Ok(LeValue(s[..n]), s[n..])
    else Fail
  }

  function ReadU8(s: Bytes): (r: Result<Byte>)
    ensures r.Ok? <==> 1 <= |s|
    ensures r.Ok? ==> r.value == s[0] && r.rest == s[1..]
  {
    if 1 <= |s| then Ok(s[0], s[1..]) else Fail
  }

  function ReadU16(s: Bytes): (r: Result<U16>)
    ensures r.Ok? <==> 2 <= |s|
    ensures r.Ok? ==> LeBytes(r.value, 2) + r.rest == s
    ensures r.Ok? ==> r.value == LeValue(s[..2]) == s[0] as int + 256 * (s[1] as int) && r.rest == s[2..]
  {
    var u := ReadUnsigned(s, 2);
    Pow256Widths();
    if u.Fail? then Fail
    else
      LeValuePair(s[..2]);
      Ok(u.value, u.rest)
  }

  function ReadU32(s: Bytes): (r: Result<U32>)
    ensures r.Ok? <==> 4 <= |s|
    ensures r.Ok? ==> LeBytes(r.value, 4) + r.rest == s
    ensures r.Ok? ==> r.value == LeValue(s[..4]) && r.rest == s[4..]
  {
    var u := ReadUnsigned(s, 4);
    Pow256Widths();
    if u.Fail? then Fail else Ok(u.value, u.rest)
  }

  /** `le_i32`: four bytes read as a two's-complement little-endian integer. */
  function ReadI32(s: Bytes): (r: Result<I32>)
    ensures r.Ok? <==> 4 <= |s|
    ensures r.Ok? ==> I32Bytes(r.value) + r.rest == s
    ensures r.Ok? ==> r.value == AsI32(LeValue(s[..4])) && r.rest == s[4..]
  {
    var u := ReadU32(s);
    if u.Fail? then Fail else Ok(AsI32(u.value), u.rest)
  }

  /** Reading an `i32` from its encoding gives it back and leaves what follows. */
  lemma ReadI32OfBytes(v: I32, rest: Bytes)
    ensures ReadI32(I32Bytes(v) + rest) == Ok(v, rest)
  {
    var s := I32Bytes(v) + rest;
    assert s[..4] == I32Bytes(v);
    Pow256Widths();
    LeValueOfBytes(if v < 0 then v + 0x1_0000_0000 else v, 4);
  }

  /** Reading a `u32` from its encoding gives it back and leaves what follows. */
  lemma ReadU32OfBytes(v: U32, rest: Bytes)
    ensures Pow256(4) == 0x1_0000_0000
    ensures ReadU32(LeBytes(v, 4) + rest) == Ok(v, rest)
  {
    Pow256Widths();
    var s := LeBytes(v, 4) + rest;
    assert s[..4] == LeBytes(v, 4);
    LeValueOfBytes(v, 4);
  }

  /** Reading a `u16` from its encoding gives it back and leaves what follows. */
  lemma ReadU16OfBytes(v: U16, rest: Bytes)
    ensures Pow256(2) == 0x1_0000
    ensures ReadU16(LeBytes(v, 2) + rest) == Ok(v, rest)
  {
    Pow256Widths();
    var s := LeBytes(v, 2) + rest;
    assert s[..2] == LeBytes(v, 2);
    LeValueOfBytes(v, 2);
  }
}
