/** The SNSS container: the `"SNSS"` header and version, the stream of
    length-prefixed command records, and the dispatch of each record body on
    its command id. */
module SnssFile {
  import opened Wire
  import opened Framing
  import TabRecord

  datatype Content = Tab(tab: TabRecord.Tab) | Other(bytes: Bytes)

  datatype Command = Command(id: Byte, content: Content)

  datatype Snss = Snss(version: I32, commands: seq<Command>)

  /** The ASCII tag `"SNSS"` every file starts with. */
  const Magic: Bytes := [0x53, 0x4E, 0x53, 0x53]

  /** The two command ids whose records carry a navigation entry. */
  predicate IsTabCommand(id: Byte)
  {
    id == 1 || id == 6
  }

  /** A literal tag: the input must start with exactly `lit`. */
  function Tag(s: Bytes, lit: Bytes): (r: Result<Bytes>)
    ensures r.Ok? <==> |lit| <= |s| && s[..|lit|] == lit
    ensures r.Ok? ==> lit + r.rest == s
  {
    if |lit| <= |s| && s[..|lit|] == lit then Ok(lit, s[|lit|..]) else Fail
  }

  /** `parse_command`: the id byte, then a tab for ids 1 and 6, and for every
      other id the rest of the record kept verbatim. */
  function ParseCommand(s: Bytes): (r: Result<Command>)
    ensures r.Ok? <==> 1 <= |s| && (IsTabCommand(s[0]) ==> TabRecord.ParseTab(s[1..]).Ok?)
    ensures r.Ok? ==> r.value.id == s[0]
    ensures r.Ok? ==> (r.value.content.Tab? <==> IsTabCommand(s[0]))
    ensures r.Ok? && r.value.content.Tab? ==> r.value.content.tab == TabRecord.ParseTab(s[1..]).value
    ensures r.Ok? && r.value.content.Other? ==> r.value.content.bytes == s[1..]
  {
    var id := ReadU8(s);
    if id.Fail? then Fail
    else if id.value == 1 || id.value == 6 then
      var tab := TabRecord.ParseTab(id.rest);
      if tab.Fail? then Fail else Ok(Command(id.value, Tab(tab.value)), tab.rest)
    else Ok(Command(id.value, Other(id.rest)), id.rest)
  }

  /** A record whose id is not a tab command keeps everything after the id. */
  lemma ParseCommandOther(id: Byte, bytes: Bytes)
    requires !IsTabCommand(id)
    ensures ParseCommand([id] + bytes) == Ok(Command(id, Other(bytes)), bytes)
  {
    assert ([id] + bytes)[1..] == bytes;
  }

  /** A tab command reads as the tab its body reads as. */
  lemma ParseCommandTab(id: Byte, body: Bytes)
    requires IsTabCommand(id) && TabRecord.ParseTab(body).Ok?
    ensures ParseCommand([id] + body) ==
      Ok(Command(id, Tab(TabRecord.ParseTab(body).value)), TabRecord.ParseTab(body).rest)
  {
    assert ([id] + body)[1..] == body;
  }

  /** `parse_snss`: the tag, the version, then records for as long as they
      parse as commands. */
  function ParseSnss(s: Bytes): (r: Result<Snss>)
    ensures r.Ok? <==> 8 <= |s| && s[..4] == Magic
  {
    var tag := Tag(s, Magic);
    if tag.Fail? then Fail
    else
      var version := ReadI32(tag.rest);
      if version.Fail? then Fail
      else
        var commands := RepeatRecords(version.rest, ParseCommand);
        Ok(Snss(version.value, commands.value), commands.rest)
  }

  /** `parse`: `parse_snss`, which must consume the whole input. */
  function Parse(data: Bytes): Option<Snss>
  {
    var snss := ParseSnss(data);
    if snss.Fail? || snss.rest != [] then None else Some(snss.value)
  }

  /** A file parses exactly when it is the tag, a version, and a stream that
      cuts into records that all parse as commands; the version is the `i32`
      in bytes 4..8, and command i is what record i alone parses to. */
  lemma ParseFramed(data: Bytes)
    ensures Parse(data).Some? <==>
      8 <= |data| && data[..4] == Magic
      && Frame(data[8..]).Some? && AllParse(Frame(data[8..]).value, ParseCommand)
    ensures Parse(data).Some? ==>
      && Parse(data).value.version == AsI32(LeValue(data[4..8]))
      && ParsesTo(Frame(data[8..]).value, Parse(data).value.commands, ParseCommand)
  {
    if 8 <= |data| && data[..4] == Magic {
      var tag := Tag(data, Magic);
      assert tag.rest == data[4..];
      assert data[4..][..4] == data[4..8] && data[4..][4..] == data[8..];
      RepeatRecordsFramed(data[8..], ParseCommand);
    }
  }

  /** The records of a file that parses account for every byte after the
      header: the sum of `2 + L` over them is the length of the stream. */
  lemma ParseRecordsSize(data: Bytes)
    ensures Parse(data).Some? ==>
      8 <= |data| && Frame(data[8..]).Some? && FramedSize(Frame(data[8..]).value) == |data| - 8
  {
    if Parse(data).Some? {
      ParseFramed(data);
      FramedStreamSize(data[8..]);
    }
  }

  /** A stream that cuts into records is as long as those records. */
  lemma FramedStreamSize(stream: Bytes)
    requires Frame(stream).Some?
    ensures FramedSize(Frame(stream).value) == |stream|
  {
    UnframeOfFrame(stream);
  }

  /** Writing the tag, a version and records that parse as commands gives a
      file that parses to that version and those commands. */
  lemma ParseOfLayout(version: I32, bodies: seq<Bytes>, commands: seq<Command>)
    requires Framable(bodies) && ParsesTo(bodies, commands, ParseCommand)
    ensures Parse(Magic + I32Bytes(version) + Unframe(bodies)) == Some(Snss(version, commands))
  {
    var data := Magic + I32Bytes(version) + Unframe(bodies);
    assert data[..4] == Magic && data[4..8] == I32Bytes(version) && data[8..] == Unframe(bodies);
    FrameOfUnframe(bodies);
    ParseFramed(data);
    ReadI32OfBytes(version, []);
    assert I32Bytes(version) + [] == I32Bytes(version);
    ParsesToUnique(bodies, Parse(data).value.commands, commands, ParseCommand);
  }

  /** A file holding only the header parses to no commands. */
  lemma ParseHeaderOnly(version: I32)
    ensures Parse(Magic + I32Bytes(version)) == Some(Snss(version, []))
  {
    ParseOfLayout(version, [], []);
    assert Magic + I32Bytes(version) + Unframe([]) == Magic + I32Bytes(version);
  }

  /** A file whose records do not cut the stream exactly does not parse. */
  lemma ParseRejectsUnframed(version: I32, stream: Bytes)
    requires Frame(stream).None?
    ensures Parse(Magic + I32Bytes(version) + stream).None?
  {
    var data := Magic + I32Bytes(version) + stream;
    assert data[..4] == Magic && data[8..] == stream;
    ParseFramed(data);
  }

  /** A file cut off inside a record does not parse: after whole records,
      a nonempty proper prefix of one more record is rejected. */
  lemma ParseRejectsCutRecord(version: I32, bodies: seq<Bytes>, body: Bytes, k: nat)
    requires Framable(bodies) && |body| < 0x1_0000
    requires 0 < k < 2 + |body|
    ensures Parse(Magic + I32Bytes(version) + Unframe(bodies) + RecordWire(body)[..k]).None?
  {
    var cut := RecordWire(body)[..k];
    FrameCutRecord(body, k);
    FrameAppend(bodies, cut);
    ParseRejectsUnframed(version, Unframe(bodies) + cut);
    assert Magic + I32Bytes(version) + (Unframe(bodies) + cut)
        == Magic + I32Bytes(version) + Unframe(bodies) + cut;
  }

  /** Bytes after the last whole record are rejected, even a single byte. */
  lemma ParseRejectsTrailingByte(version: I32, bodies: seq<Bytes>, b: Byte)
    requires Framable(bodies)
    ensures Parse(Magic + I32Bytes(version) + Unframe(bodies) + [b]).None?
  {
    FrameAppend(bodies, [b]);
    ParseRejectsUnframed(version, Unframe(bodies) + [b]);
    assert Magic + I32Bytes(version) + (Unframe(bodies) + [b])
        == Magic + I32Bytes(version) + Unframe(bodies) + [b];
  }

  /** A tab command whose body is a well-formed tab layout reads as the tab
      that layout means. */
  lemma ParseCommandOfImage(id: Byte, img: TabRecord.TabImage)
    requires IsTabCommand(id) && TabRecord.WellFormed(img)
    ensures ParseCommand([id] + TabRecord.Serialize(img)) ==
      Ok(Command(id, Tab(TabRecord.Interpret(img))), [])
  {
    TabRecord.ParseTabOfImage(img);
    ParseCommandTab(id, TabRecord.Serialize(img));
  }

  /** The shape of a saved session: version 3, a 24-byte command 14, then two
      navigation entries in commands 6, read back as exactly those three
      commands in order. */
  lemma ParseSession(other: Bytes, first: TabRecord.TabImage, second: TabRecord.TabImage)
    requires |other| == 24
    requires TabRecord.WellFormed(first) && |TabRecord.Serialize(first)| < 0xFFFF
    requires TabRecord.WellFormed(second) && |TabRecord.Serialize(second)| < 0xFFFF
    ensures
      var bodies := [[14] + other, [6] + TabRecord.Serialize(first), [6] + TabRecord.Serialize(second)];
      Framable(bodies)
      && Parse(Magic + I32Bytes(3) + Unframe(bodies)) == Some(Snss(3, [
           Command(14, Other(other)),
           Command(6, Tab(TabRecord.Interpret(first))),
           Command(6, Tab(TabRecord.Interpret(second)))]))
  {
    var b0: Bytes := [14] + other;
    var b1: Bytes := [6] + TabRecord.Serialize(first);
    var b2: Bytes := [6] + TabRecord.Serialize(second);
    var c0 := Command(14, Other(other));
    var c1 := Command(6, Tab(TabRecord.Interpret(first)));
    var c2 := Command(6, Tab(TabRecord.Interpret(second)));
    var bodies, commands := [b0, b1, b2], [c0, c1, c2];
    assert ParsesTo(bodies, commands, ParseCommand) by {
      ParseCommandOther(14, other);
      ParseCommandOfImage(6, first);
      ParseCommandOfImage(6, second);
      ParsesToThree(b0, b1, b2, c0, c1, c2, ParseCommand);
    }
    FramableThree(b0, b1, b2);
    ParseOfLayout(3, bodies, commands);
  }
}
