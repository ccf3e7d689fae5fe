/** The tab record: the payload of commands 1 and 6, a navigation entry laid
    out as a fixed sequence of fields. */
module TabRecord {
  import opened Wire
  import opened Fields
  import Utf8
  import Utf16
  import Transition

  datatype Tab = Tab(
    id: I32,
    index: I32,               // index in the tab's back-forward list
    url: string,
    title: string,
    state: Bytes,
    transition: Transition.PageTransition,
    post: bool,               // the page has POST data
    referrerUrl: string,
    referencePolicy: I32,
    originalRequestUrl: string,
    userAgent: bool)          // the user agent was overridden

  /** `parse_tab`: the fields in their fixed order, then the rest of the
      record discarded. */
  function ParseTab(s: Bytes): Result<Tab>
  {
    var skip := Take(s, 4);
    if skip.Fail? then Fail else
    var id := ReadI32(skip.rest);
    if id.Fail? then Fail else
    var index := ReadI32(id.rest);
    if index.Fail? then Fail else
    var url := Utf8Field(index.rest);
    if url.Fail? then Fail else
    var title := TitleField(url.rest);
    if title.Fail? then Fail else
    var state := LengthPrefixed(title.rest);
    if state.Fail? then Fail else
    var transition := ReadU32(state.rest);
    if transition.Fail? then Fail else
    var post := ReadI32(transition.rest);
    if post.Fail? then Fail else
    var referrer := Utf8Field(post.rest);
    if referrer.Fail? then Fail else
    var policy := ReadI32(referrer.rest);
    if policy.Fail? then Fail else
    var original := Utf8Field(policy.rest);
    if original.Fail? then Fail else
    var userAgent := ReadI32(original.rest);
    if userAgent.Fail? then Fail else
    Ok(Tab(id.value, index.value, url.value, title.value, state.value,
           Transition.PageTransition(transition.value), post.value != 0,
           referrer.value, policy.value, original.value, userAgent.value != 0),
       [])
  }

  /** A tab record as it lies on the wire, every byte accounted for: the
      skipped header, the raw integers, each padded field with its padding,
      and the trailing bytes the parser discards. */
  datatype TabImage = TabImage(
    skip: Bytes,
    id: I32,
    index: I32,
    url: PaddedImage,
    title: PaddedImage,
    state: PaddedImage,
    transition: U32,
    post: I32,
    referrerUrl: PaddedImage,
    referencePolicy: I32,
    originalRequestUrl: PaddedImage,
    userAgent: I32,
    trailer: Bytes)

  predicate WellFormed(img: TabImage)
  {
    && |img.skip| == 4
    && Utf8Image(img.url)
    && Utf16Image(img.title)
    && WellPadded(img.state, img.state.prefix)
    && Utf8Image(img.referrerUrl)
    && Utf8Image(img.originalRequestUrl)
  }

  /** The bytes of an image, field after field in wire order. */
  function Serialize(img: TabImage): Bytes
  {
    Pow256Widths();
    img.skip + (I32Bytes(img.id) + (I32Bytes(img.index) + (PaddedWire(img.url)
    + (PaddedWire(img.title) + (PaddedWire(img.state) + (LeBytes(img.transition, 4)
    + (I32Bytes(img.post) + (PaddedWire(img.referrerUrl) + (I32Bytes(img.referencePolicy)
    + (PaddedWire(img.originalRequestUrl) + (I32Bytes(img.userAgent) + img.trailer)))))))))))
  }

  /** What an image means: texts decoded, flags true when nonzero, the
      transition word kept raw, padding and trailer dropped. */
  function Interpret(img: TabImage): Tab
    requires WellFormed(img)
  {
    Tab(img.id, img.index,
        Utf8.Decode(img.url.data).value,
        Utf16.Decode(Utf16.Units(img.title.data)).value,
        img.state.data,
        Transition.PageTransition(img.transition),
        img.post != 0,
        Utf8.Decode(img.referrerUrl.data).value,
        img.referencePolicy,
        Utf8.Decode(img.originalRequestUrl.data).value,
        img.userAgent != 0)
  }

  /** Every well-formed layout reads as the tab it means, whatever its skipped
      bytes, padding bytes and trailer. */
  lemma ParseTabOfImage(img: TabImage)
    requires WellFormed(img)
    ensures ParseTab(Serialize(img)) == Ok(Interpret(img), [])
  {
    Pow256Widths();
    var s12 := I32Bytes(img.userAgent) + img.trailer;
    var s11 := PaddedWire(img.originalRequestUrl) + s12;
    var s10 := I32Bytes(img.referencePolicy) + s11;
    var s9 := PaddedWire(img.referrerUrl) + s10;
    var s8 := I32Bytes(img.post) + s9;
    var s7 := LeBytes(img.transition, 4) + s8;
    var s6 := PaddedWire(img.state) + s7;
    var s5 := PaddedWire(img.title) + s6;
    var s4 := PaddedWire(img.url) + s5;
    var s3 := I32Bytes(img.index) + s4;
    var s2 := I32Bytes(img.id) + s3;
    var s := img.skip + s2;
    assert s == Serialize(img);
    var skip := Take(s, 4);
    assert skip == Ok(img.skip, s2) by {
      assert s[..4] == img.skip && s[4..] == s2;
    }
    var id := ReadI32(skip.rest);
    assert id == Ok(img.id, s3) by {
      ReadI32OfBytes(img.id, s3);
    }
    var index := ReadI32(id.rest);
    assert index == Ok(img.index, s4) by {
      ReadI32OfBytes(img.index, s4);
    }
    var url := Utf8Field(index.rest);
    assert url == Ok(Utf8.Decode(img.url.data).value, s5) by {
      Utf8FieldOfWire(img.url, s5);
    }
    var title := TitleField(url.rest);
    assert title == Ok(Utf16.Decode(Utf16.Units(img.title.data)).value, s6) by {
      TitleFieldOfWire(img.title, s6);
    }
    var state := LengthPrefixed(title.rest);
    assert state == Ok(img.state.data, s7) by {
      LengthPrefixedOfWire(img.state, s7);
    }
    var transition := ReadU32(state.rest);
    assert transition == Ok(img.transition, s8) by {
      ReadU32OfBytes(img.transition, s8);
    }
    var post := ReadI32(transition.rest);
    assert post == Ok(img.post, s9) by {
      ReadI32OfBytes(img.post, s9);
    }
    var referrer := Utf8Field(post.rest);
    assert referrer == Ok(Utf8.Decode(img.referrerUrl.data).value, s10) by {
      Utf8FieldOfWire(img.referrerUrl, s10);
    }
    var policy := ReadI32(referrer.rest);
    assert policy == Ok(img.referencePolicy, s11) by {
      ReadI32OfBytes(img.referencePolicy, s11);
    }
    var original := Utf8Field(policy.rest);
    assert original == Ok(Utf8.Decode(img.originalRequestUrl.data).value, s12) by {
      Utf8FieldOfWire(img.originalRequestUrl, s12);
    }
    var userAgent := ReadI32(original.rest);
    assert userAgent == Ok(img.userAgent, img.trailer) by {
      ReadI32OfBytes(img.userAgent, img.trailer);
    }
    var tab := Tab(id.value, index.value, url.value, title.value, state.value,
           Transition.PageTransition(transition.value), post.value != 0,
           referrer.value, policy.value, original.value, userAgent.value != 0);
    assert tab == Interpret(img);
    ParseTabSteps(s, skip, id, index, url, title, state, transition, post, referrer, policy, original, userAgent);
  }

  /** `ParseTab` in terms of its steps, each taken where the previous one left off. */
  lemma ParseTabSteps(s: Bytes, skip: Result<Bytes>, id: Result<I32>, index: Result<I32>, url: Result<string>,
                      title: Result<string>, state: Result<Bytes>, transition: Result<U32>, post: Result<I32>,
                      referrer: Result<string>, policy: Result<I32>, original: Result<string>, userAgent: Result<I32>)
    requires skip == Take(s, 4) && skip.Ok?
    requires id == ReadI32(skip.rest) && id.Ok?
    requires index == ReadI32(id.rest) && index.Ok?
    requires url == Utf8Field(index.rest) && url.Ok?
    requires title == TitleField(url.rest) && title.Ok?
    requires state == LengthPrefixed(title.rest) && state.Ok?
    requires transition == ReadU32(state.rest) && transition.Ok?
    requires post == ReadI32(transition.rest) && post.Ok?
    requires referrer == Utf8Field(post.rest) && referrer.Ok?
    requires policy == ReadI32(referrer.rest) && policy.Ok?
    requires original == Utf8Field(policy.rest) && original.Ok?
    requires userAgent == ReadI32(original.rest) && userAgent.Ok?
    ensures ParseTab(s) == Ok(Tab(id.value, index.value, url.value, title.value, state.value,
           Transition.PageTransition(transition.value), post.value != 0,
           referrer.value, policy.value, original.value, userAgent.value != 0), [])
  {
  }

  /** Every record that reads as a tab is a well-formed layout of that tab:
      the fields lie in wire order and nothing else decides the result. */
  lemma ParseTabLayout(s: Bytes) returns (img: TabImage)
    requires ParseTab(s).Ok?
    ensures WellFormed(img) && Serialize(img) == s
    ensures Interpret(img) == ParseTab(s).value
  {
    var skip := Take(s, 4);
    var id := ReadI32(skip.rest);
    var index := ReadI32(id.rest);
    var url := Utf8Field(index.rest);
    var title := TitleField(url.rest);
    var state := LengthPrefixed(title.rest);
    var transition := ReadU32(state.rest);
    var post := ReadI32(transition.rest);
    var referrer := Utf8Field(post.rest);
    var policy := ReadI32(referrer.rest);
    var original := Utf8Field(policy.rest);
    var userAgent := ReadI32(original.rest);
    ParseTabSteps(s, skip, id, index, url, title, state, transition, post, referrer, policy, original, userAgent);
    img := LayoutOfSteps(s, skip, id, index, url, title, state, transition, post, referrer, policy, original, userAgent);
  }

  /** The image that a successful run of the steps reads. */
  lemma LayoutOfSteps(s: Bytes, skip: Result<Bytes>, id: Result<I32>, index: Result<I32>, url: Result<string>,
                      title: Result<string>, state: Result<Bytes>, transition: Result<U32>, post: Result<I32>,
                      referrer: Result<string>, policy: Result<I32>, original: Result<string>, userAgent: Result<I32>)
    returns (img: TabImage)
    requires skip == Take(s, 4) && skip.Ok?
    requires id == ReadI32(skip.rest) && id.Ok?
    requires index == ReadI32(id.rest) && index.Ok?
    requires url == Utf8Field(index.rest) && url.Ok?
    requires title == TitleField(url.rest) && title.Ok?
    requires state == LengthPrefixed(title.rest) && state.Ok?
    requires transition == ReadU32(state.rest) && transition.Ok?
    requires post == ReadI32(transition.rest) && post.Ok?
    requires referrer == Utf8Field(post.rest) && referrer.Ok?
    requires policy == ReadI32(referrer.rest) && policy.Ok?
    requires original == Utf8Field(policy.rest) && original.Ok?
    requires userAgent == ReadI32(original.rest) && userAgent.Ok?
    ensures WellFormed(img) && Serialize(img) == s
    ensures Interpret(img) == Tab(id.value, index.value, url.value, title.value, state.value,
           Transition.PageTransition(transition.value), post.value != 0,
           referrer.value, policy.value, original.value, userAgent.value != 0)
  {
    Pow256Widths();
    var urlImage := Utf8FieldLayout(index.rest);
    var titleImage := TitleFieldLayout(url.rest);
    var stateImage := LengthPrefixedLayout(title.rest);
    var referrerImage := Utf8FieldLayout(post.rest);
    var originalImage := Utf8FieldLayout(policy.rest);
    img := TabImage(skip.value, id.value, index.value, urlImage, titleImage, stateImage,
                    transition.value, post.value, referrerImage, policy.value, originalImage,
                    userAgent.value, userAgent.rest);
    SerializeOfChain(img, s, skip.rest, id.rest, index.rest, url.rest, title.rest, state.rest,
                     transition.rest, post.rest, referrer.rest, policy.rest, original.rest);
  }

  /** The bytes of an image, given each field followed by what comes after it. */
  lemma SerializeOfChain(img: TabImage, s: Bytes, t2: Bytes, t3: Bytes, t4: Bytes, t5: Bytes, t6: Bytes,
                         t7: Bytes, t8: Bytes, t9: Bytes, t10: Bytes, t11: Bytes, t12: Bytes)
    requires Pow256(4) == 0x1_0000_0000
    requires s == img.skip + t2
    requires t2 == I32Bytes(img.id) + t3
    requires t3 == I32Bytes(img.index) + t4
    requires t4 == PaddedWire(img.url) + t5
    requires t5 == PaddedWire(img.title) + t6
    requires t6 == PaddedWire(img.state) + t7
    requires t7 == LeBytes(img.transition, 4) + t8
    requires t8 == I32Bytes(img.post) + t9
    requires t9 == PaddedWire(img.referrerUrl) + t10
    requires t10 == I32Bytes(img.referencePolicy) + t11
    requires t11 == PaddedWire(img.originalRequestUrl) + t12
    requires t12 == I32Bytes(img.userAgent) + img.trailer
    ensures Serialize(img) == s
  {
  }

  /** Bytes after `user_agent` are discarded: appending any bytes to a record
      that reads as a tab reads as the same tab. */
  lemma {:induction false} ParseTabIgnoresTrailer(s: Bytes, extra: Bytes)
    requires ParseTab(s).Ok?
    ensures ParseTab(s + extra) == ParseTab(s)
  {
    var img := ParseTabLayout(s);
    var longer := img.(trailer := img.trailer + extra);
    SerializeTrailer(img, extra);
    ParseTabOfImage(longer);
  }

  /** Extending the trailer of an image extends its bytes. */
  lemma SerializeTrailer(img: TabImage, extra: Bytes)
    ensures Serialize(img.(trailer := img.trailer + extra)) == Serialize(img) + extra
  {
    Pow256Widths();
    var t12 := I32Bytes(img.userAgent) + img.trailer;
    var t11 := PaddedWire(img.originalRequestUrl) + t12;
    var t10 := I32Bytes(img.referencePolicy) + t11;
    var t9 := PaddedWire(img.referrerUrl) + t10;
    var t8 := I32Bytes(img.post) + t9;
    var t7 := LeBytes(img.transition, 4) + t8;
    var t6 := PaddedWire(img.state) + t7;
    var t5 := PaddedWire(img.title) + t6;
    var t4 := PaddedWire(img.url) + t5;
    var t3 := I32Bytes(img.index) + t4;
    var t2 := I32Bytes(img.id) + t3;
    assert I32Bytes(img.userAgent) + (img.trailer + extra) == t12 + extra;
    assert PaddedWire(img.originalRequestUrl) + (t12 + extra) == t11 + extra;
    assert I32Bytes(img.referencePolicy) + (t11 + extra) == t10 + extra;
    assert PaddedWire(img.referrerUrl) + (t10 + extra) == t9 + extra;
    assert I32Bytes(img.post) + (t9 + extra) == t8 + extra;
    assert LeBytes(img.transition, 4) + (t8 + extra) == t7 + extra;
    assert PaddedWire(img.state) + (t7 + extra) == t6 + extra;
    assert PaddedWire(img.title) + (t6 + extra) == t5 + extra;
    assert PaddedWire(img.url) + (t5 + extra) == t4 + extra;
    assert I32Bytes(img.index) + (t4 + extra) == t3 + extra;
    assert I32Bytes(img.id) + (t3 + extra) == t2 + extra;
    assert img.skip + (t2 + extra) == (img.skip + t2) + extra;
  }

  /** The layout a writer would produce for a tab: zero header, zero padding,
      flags written as 1 or 0. Defined for tabs whose fields fit their `u32`
      length prefixes. */
  function CanonicalImage(t: Tab): (img: TabImage)
    requires |Utf8.Encode(t.url)| < 0x1_0000_0000
    requires |Utf16.Encode(t.title)| < 0x1_0000_0000
    requires |t.state| < 0x1_0000_0000
    requires |Utf8.Encode(t.referrerUrl)| < 0x1_0000_0000
    requires |Utf8.Encode(t.originalRequestUrl)| < 0x1_0000_0000
    ensures WellFormed(img) && Interpret(img) == t
  {
    TabImage(
      [0, 0, 0, 0], t.id, t.index,
      Utf8Text(t.url),
      Utf16Text(t.title),
      ZeroPadded(t.state),
      t.transition.raw,
      if t.post then 1 else 0,
      Utf8Text(t.referrerUrl),
      t.referencePolicy,
      Utf8Text(t.originalRequestUrl),
      if t.userAgent then 1 else 0,
      [])
  }

  function Zeros(n: nat): (r: Bytes)
    ensures |r| == n
  {
    seq(n, _ => 0)
  }

  /** A byte-counted field holding `data`, zero-padded. */
  function ZeroPadded(data: Bytes): (p: PaddedImage)
    requires |data| < 0x1_0000_0000
    ensures WellPadded(p, p.prefix) && p.data == data
  {
    PaddedImage(|data|, data, Zeros(RoundUp4(|data|) - |data|))
  }

  /** A url field holding the UTF-8 encoding of `text`. */
  function Utf8Text(text: string): (p: PaddedImage)
    requires |Utf8.Encode(text)| < 0x1_0000_0000
    ensures Utf8Image(p) && Utf8.Decode(p.data) == Some(text)
  {
    Utf8.DecodeEncode(text);
    ZeroPadded(Utf8.Encode(text))
  }

  /** A title field holding the UTF-16LE encoding of `text`. */
  function Utf16Text(text: string): (p: PaddedImage)
    requires |Utf16.Encode(text)| < 0x1_0000_0000
    ensures Utf16Image(p) && Utf16.Decode(Utf16.Units(p.data)) == Some(text)
  {
    var units := Utf16.Encode(text);
    var len := 2 * |units|;
    Utf16.DecodeEncode(text);
    Utf16.UnitsOfBytes(units);
    DoubleIsEven(|units|);
    PaddedImage(|units|, Utf16.UnitBytes(units), Zeros(RoundUp4(len) - len))
  }

  /** Every tab whose fields fit their length prefixes can be written so that
      it reads back unchanged. */
  lemma ParseTabRoundTrip(t: Tab)
    requires |Utf8.Encode(t.url)| < 0x1_0000_0000
    requires |Utf16.Encode(t.title)| < 0x1_0000_0000
    requires |t.state| < 0x1_0000_0000
    requires |Utf8.Encode(t.referrerUrl)| < 0x1_0000_0000
    requires |Utf8.Encode(t.originalRequestUrl)| < 0x1_0000_0000
    ensures ParseTab(Serialize(CanonicalImage(t))) == Ok(t, [])
  {
    ParseTabOfImage(CanonicalImage(t));
  }
}
