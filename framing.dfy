/** The record stream of an SNSS file: a run of records, each a `u16`
    little-endian length L followed by L bytes of body. The two combinators
    are generic in the parser applied to each body, as the parser library's
    `length_and_then` and `repeat` are. */
module Framing {
  import opened Wire

  /** The length a record announces: its first two bytes, little-endian. */
  function Prefix(s: Bytes): nat
    requires 2 <= |s|
  {
    s[0] as int + 256 * (s[1] as int)
  }

  /** `length_and_then(le_u16, p)`: a `u16` length L, then `p` run on exactly
      the next L bytes; whatever of those `p` leaves unread is dropped, and
      reading resumes after them. */
  function LengthAndThen<T>(s: Bytes, p: Bytes -> Result<T>): (r: Result<T>)
    ensures r.Ok? <==>
      2 <= |s| && 2 + Prefix(s) <= |s| && p(s[2..2 + Prefix(s)]).Ok?
    ensures r.Ok? ==>
      var len := Prefix(s);
      r.value == p(s[2..2 + len]).value && r.rest == s[2 + len..]
  {
    if |s| < 2 || |s| < 2 + Prefix(s) then Fail
    else
      var item := p(s[2..2 + Prefix(s)]);
      if item.Fail? then Fail else Ok(item.value, s[2 + Prefix(s)..])
  }

  /** The same combinator spelled as the source composes it: `le_u16`, then
      `take` of that many bytes, then `p` on the bytes taken. */
  lemma LengthAndThenReads<T>(s: Bytes, p: Bytes -> Result<T>)
    ensures LengthAndThen(s, p) ==
      var len := ReadU16(s);
      if len.Fail? then Fail
      else
        var body := Take(len.rest, len.value);
        if body.Fail? then Fail
        else
          var item := p(body.value);
          if item.Fail? then Fail else Ok(item.value, body.rest)
  {
    if 2 <= |s| {
      assert ReadU16(s).rest == s[2..];
      if 2 + Prefix(s) <= |s| {
        assert s[2..][..Prefix(s)] == s[2..2 + Prefix(s)];
        assert s[2..][Prefix(s)..] == s[2 + Prefix(s)..];
      }
    }
  }

  /** `repeat(0.., length_and_then(le_u16, p))`: records for as long as they
      parse. It never fails; it stops before the first record that does not
      parse, or at the end of the input. */
  function RepeatRecords<T>(s: Bytes, p: Bytes -> Result<T>): (r: Result<seq<T>>)
    ensures r.Ok? && |r.rest| <= |s|
    decreases |s|
  {
    var first := LengthAndThen(s, p);
    if first.Fail? then Ok([], s)
    else
      var more := RepeatRecords(first.rest, p);
      Ok([first.value] + more.value, more.rest)
  }

  // The framing, stated independently of the parsers above.

  /** The record bodies of a stream, cut purely by their length prefixes;
      `None` when the stream does not split exactly into records. */
  function Frame(s: Bytes): Option<seq<Bytes>>
    decreases |s|
  {
    if s == [] then Some([])
    else if |s| < 2 || |s| < 2 + Prefix(s) then None
    else
      var len := Prefix(s);
      match Frame(s[2 + len..])
      case None => None
      case Some(bodies) => Some([s[2..2 + len]] + bodies)
  }

  /** Every body fits a `u16` length prefix. */
  predicate Framable(bodies: seq<Bytes>)
  {
    forall i :: 0 <= i < |bodies| ==> |bodies[i]| < 0x1_0000
  }

  /** One record on the wire: the `u16` length, then the body. */
  function RecordWire(body: Bytes): Bytes
    requires |body| < 0x1_0000
  {
    Pow256Widths();
    LeBytes(|body|, 2) + body
  }

  /** The stream that holds `bodies` as its records, in order. */
  function Unframe(bodies: seq<Bytes>): Bytes
    requires Framable(bodies)
  {
    if bodies == [] then [] else RecordWire(bodies[0]) + Unframe(bodies[1..])
  }

  /** The total of `2 + L` over the records. */
  function FramedSize(bodies: seq<Bytes>): nat
  {
    if bodies == [] then 0 else 2 + |bodies[0]| + FramedSize(bodies[1..])
  }

  /** Cutting a stream that starts with a whole record: that record's body,
      then the cut of what follows it. */
  lemma FrameCons(body: Bytes, tail: Bytes)
    requires |body| < 0x1_0000
    ensures Frame(RecordWire(body) + tail) ==
      match Frame(tail)
      case None => None
      case Some(bodies) => Some([body] + bodies)
  {
    Pow256Widths();
    var s := RecordWire(body) + tail;
    assert s[..2] == LeBytes(|body|, 2);
    LeValueOfBytes(|body|, 2);
    LeValuePair(s[..2]);
    assert s[2..2 + |body|] == body && s[2 + |body|..] == tail;
  }

  /** A nonempty stream that cuts into records starts with its first record:
      its length prefix, its body, then a stream that cuts into the others. */
  lemma FrameFirst(s: Bytes)
    requires s != [] && Frame(s).Some?
    ensures 2 <= |s| && 2 + Prefix(s) <= |s|
    ensures Frame(s).value[0] == s[2..2 + Prefix(s)]
    ensures |Frame(s).value[0]| < 0x1_0000
    ensures s == RecordWire(Frame(s).value[0]) + s[2 + Prefix(s)..]
    ensures Frame(s[2 + Prefix(s)..]) == Some(Frame(s).value[1..])
  {
    FrameShape(s);
    FrameStep(s);
    RecordAt(s);
    var rest := Frame(s[2 + Prefix(s)..]).value;
    assert ([s[2..2 + Prefix(s)]] + rest)[1..] == rest;
  }

  /** A nonempty stream that cuts into records holds its first record whole. */
  lemma FrameShape(s: Bytes)
    requires s != [] && Frame(s).Some?
    ensures 2 <= |s| && 2 + Prefix(s) <= |s|
  {
  }

  /** A stream that holds a whole first record is that record on the wire,
      then what follows it. */
  lemma RecordAt(s: Bytes)
    requires 2 <= |s| && 2 + Prefix(s) <= |s|
    ensures Prefix(s) < 0x1_0000
    ensures s == RecordWire(s[2..2 + Prefix(s)]) + s[2 + Prefix(s)..]
  {
    Pow256Widths();
    var len := Prefix(s);
    assert LeBytes(len, 2) == s[..2] by {
      LeBytesOfValue(s[..2]);
      LeValuePair(s[..2]);
    }
    assert s == s[..2] + s[2..2 + len] + s[2 + len..];
  }

  /** Cutting a laid-out stream gives back its bodies. */
  lemma {:induction false} FrameOfUnframe(bodies: seq<Bytes>)
    requires Framable(bodies)
    ensures Frame(Unframe(bodies)) == Some(bodies)
  {
    if bodies != [] {
      FrameCons(bodies[0], Unframe(bodies[1..]));
      FrameOfUnframe(bodies[1..]);
      assert [bodies[0]] + bodies[1..] == bodies;
    }
  }

  /** A stream that cuts into records is exactly those records laid out, and
      its length is the sum of `2 + L` over them. */
  lemma {:induction false} UnframeOfFrame(s: Bytes)
    requires Frame(s).Some?
    ensures Framable(Frame(s).value)
    ensures Unframe(Frame(s).value) == s
    ensures FramedSize(Frame(s).value) == |s|
    decreases |s|
  {
    if s != [] {
      FrameFirst(s);
      UnframeOfFrame(s[2 + Prefix(s)..]);
    }
  }

  /** Appending to a laid-out stream: the cut is those records followed by
      the cut of what was appended. */
  lemma {:induction false} FrameAppend(bodies: seq<Bytes>, more: Bytes)
    requires Framable(bodies)
    ensures Frame(Unframe(bodies) + more) ==
      match Frame(more)
      case None => None
      case Some(tail) => Some(bodies + tail)
  {
    if bodies == [] {
      assert Unframe(bodies) + more == more;
      if Frame(more).Some? {
        assert bodies + Frame(more).value == Frame(more).value;
      }
    } else {
      var b := bodies[0];
      assert Unframe(bodies) + more == RecordWire(b) + (Unframe(bodies[1..]) + more);
      FrameCons(b, Unframe(bodies[1..]) + more);
      FrameAppend(bodies[1..], more);
      if Frame(more).Some? {
        assert [b] + (bodies[1..] + Frame(more).value) == bodies + Frame(more).value;
      }
    }
  }

  /** Every body parses. */
  predicate AllParse<T>(bodies: seq<Bytes>, p: Bytes -> Result<T>)
  {
    forall i :: 0 <= i < |bodies| ==> p(bodies[i]).Ok?
  }

  /** Item i is what body i alone parses to. */
  ghost predicate ParsesTo<T>(bodies: seq<Bytes>, items: seq<T>, p: Bytes -> Result<T>)
  {
    |bodies| == |items|
    && forall i :: 0 <= i < |bodies| ==> p(bodies[i]).Ok? && p(bodies[i]).value == items[i]
  }

  /** A body in front parses as one item in front. */
  lemma AllParseCons<T>(body: Bytes, bodies: seq<Bytes>, p: Bytes -> Result<T>)
    ensures AllParse([body] + bodies, p) <==> p(body).Ok? && AllParse(bodies, p)
  {
    var all := [body] + bodies;
    assert forall i :: 0 < i < |all| ==> all[i] == bodies[i - 1];
    if p(body).Ok? && AllParse(bodies, p) {
      forall i | 0 < i < |all|
        ensures p(all[i]).Ok?
      {
        assert p(bodies[i - 1]).Ok?;
      }
    }
    if AllParse(all, p) {
      assert all[0] == body;
      forall i | 0 <= i < |bodies|
        ensures p(bodies[i]).Ok?
      {
        assert p(all[i + 1]).Ok?;
      }
    }
  }

  lemma ParsesToCons<T>(body: Bytes, bodies: seq<Bytes>, item: T, items: seq<T>, p: Bytes -> Result<T>)
    requires p(body).Ok? && p(body).value == item && ParsesTo(bodies, items, p)
    ensures ParsesTo([body] + bodies, [item] + items, p)
  {
    var all := [body] + bodies;
    var allItems := [item] + items;
    forall i | 0 < i < |all|
      ensures p(all[i]).Ok? && p(all[i]).value == allItems[i]
    {
      assert all[i] == bodies[i - 1] && allItems[i] == items[i - 1];
    }
  }

  /** What the bodies parse to is determined by the bodies. */
  lemma ParsesToUnique<T>(bodies: seq<Bytes>, items: seq<T>, others: seq<T>, p: Bytes -> Result<T>)
    requires ParsesTo(bodies, items, p) && ParsesTo(bodies, others, p)
    ensures items == others
  {
    assert forall i :: 0 <= i < |items| ==> items[i] == p(bodies[i]).value == others[i];
  }

  /** Three bodies that each fit a length prefix. */
  lemma FramableThree(b0: Bytes, b1: Bytes, b2: Bytes)
    requires |b0| < 0x1_0000 && |b1| < 0x1_0000 && |b2| < 0x1_0000
    ensures Framable([b0, b1, b2])
  {
  }

  /** Three bodies, each parsing to its item. */
  lemma ParsesToThree<T>(b0: Bytes, b1: Bytes, b2: Bytes, i0: T, i1: T, i2: T, p: Bytes -> Result<T>)
    requires p(b0).Ok? && p(b0).value == i0
    requires p(b1).Ok? && p(b1).value == i1
    requires p(b2).Ok? && p(b2).value == i2
    ensures ParsesTo([b0, b1, b2], [i0, i1, i2], p)
  {
  }

  /** A record cut short does not frame: no nonempty proper prefix of one
      record is a whole stream of records. */
  lemma FrameCutRecord(body: Bytes, k: nat)
    requires |body| < 0x1_0000
    requires 0 < k < 2 + |body|
    ensures Frame(RecordWire(body)[..k]).None?
  {
    Pow256Widths();
    var cut := RecordWire(body)[..k];
    if k >= 2 {
      assert cut[..2] == LeBytes(|body|, 2);
      LeValueOfBytes(|body|, 2);
      LeValuePair(cut[..2]);
    }
  }

  /** The records consume the whole stream exactly when it cuts into records
      that all parse, and then item i is parsed from body i alone. */
  lemma {:induction false} RepeatRecordsFramed<T>(s: Bytes, p: Bytes -> Result<T>)
    ensures RepeatRecords(s, p).rest == [] <==> Frame(s).Some? && AllParse(Frame(s).value, p)
    ensures RepeatRecords(s, p).rest == [] ==> ParsesTo(Frame(s).value, RepeatRecords(s, p).value, p)
    decreases |s|
  {
    if s != [] {
      if LengthAndThen(s, p).Fail? {
        if Frame(s).Some? {
          FrameFirst(s);
        }
      } else {
        var len := Prefix(s);
        var body, rest := s[2..2 + len], s[2 + len..];
        RepeatRecordsStep(s, p);
        FrameStep(s);
        RepeatRecordsFramed(rest, p);
        RecordsCons(body, p, RepeatRecords(rest, p), Frame(rest), RepeatRecords(s, p), Frame(s));
      }
    }
  }

  /** The inductive step of `RepeatRecordsFramed`, over the values alone: one
      record that parses in front of a stream for which the statement holds. */
  lemma RecordsCons<T>(body: Bytes, p: Bytes -> Result<T>,
                       tailRecords: Result<seq<T>>, tailFrame: Option<seq<Bytes>>,
                       records: Result<seq<T>>, frame: Option<seq<Bytes>>)
    requires p(body).Ok? && tailRecords.Ok? && records.Ok?
    requires records.rest == tailRecords.rest
    requires records.value == [p(body).value] + tailRecords.value
    requires frame == match tailFrame
      case None => None
      case Some(bodies) => Some([body] + bodies)
    requires tailRecords.rest == [] <==> tailFrame.Some? && AllParse(tailFrame.value, p)
    requires tailRecords.rest == [] ==> ParsesTo(tailFrame.value, tailRecords.value, p)
    ensures records.rest == [] <==> frame.Some? && AllParse(frame.value, p)
    ensures records.rest == [] ==> ParsesTo(frame.value, records.value, p)
  {
    if tailFrame.Some? {
      AllParseCons(body, tailFrame.value, p);
      if tailRecords.rest == [] {
        ParsesToCons(body, tailFrame.value, p(body).value, tailRecords.value, p);
      }
    }
  }

  /** After a record that parses, the repetition goes on from where it ended. */
  lemma RepeatRecordsStep<T>(s: Bytes, p: Bytes -> Result<T>)
    requires LengthAndThen(s, p).Ok?
    ensures var len := Prefix(s);
      && RepeatRecords(s, p).rest == RepeatRecords(s[2 + len..], p).rest
      && RepeatRecords(s, p).value == [p(s[2..2 + len]).value] + RepeatRecords(s[2 + len..], p).value
  {
  }

  /** A stream that starts with a whole record cuts into that record's body,
      then the cut of what follows. */
  lemma FrameStep(s: Bytes)
    requires 2 <= |s| && 2 + Prefix(s) <= |s|
    ensures var len := Prefix(s);
      Frame(s) ==
        match Frame(s[2 + len..])
        case None => None
        case Some(bodies) => Some([s[2..2 + len]] + bodies)
  {
  }
}
