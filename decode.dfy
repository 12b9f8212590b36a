/** The record decoders as the source runs them: each advances one cursor
    through the input and builds its list by appending inside a counted
    loop. Every method computes exactly the PdcLayout function of the same
    record. */
module PdcDecode {
  import opened Struct
  import opened PdcRecords
  import opened PdcLayout

  /** `strct.unpack(f.read(strct.size))` with the stream at `pos`: the read
      comes up short exactly when fewer than `Size(fmt)` bytes remain, and
      the unpack then fails. */
  function ReadStruct(data: seq<Byte>, pos: nat, fmt: Format): (r: Parsed<seq<int>>)
    requires pos <= |data|
    ensures r.Ok? <==> pos + Size(fmt) <= |data|
    ensures r.Ok? ==> r.next == pos + Size(fmt) && r.value == Fields(fmt, data[pos..pos + Size(fmt)], 0)
    ensures r.Fail? ==> r.error == Truncated(pos)
  {
    match Unpack(fmt, Read(data, pos, Size(fmt)))
    case None => Fail(Truncated(pos))
    case Some(vals) => Ok(vals, pos + Size(fmt))
  }

  /** The point loop of PebbleDrawCommand.__init__: append one point per
      iteration, each read at the cursor and scaled by the command's type. */
  method DecodePoints(data: seq<Byte>, pos: nat, ptype: int, count: nat) returns (r: Parsed<seq<Point>>)
    requires pos <= |data|
    ensures r == ParsePoints(data, pos, ptype, count)
  {
    var points: seq<Point> := [];
    var cursor: nat := pos;
    var i: nat := 0;
    WithPrefixEmpty(ParsePoints(data, pos, ptype, count));
    while i < count
      invariant i <= count && cursor <= |data|
      invariant ParsePoints(data, pos, ptype, count)
             == WithPrefix(points, ParsePoints(data, cursor, ptype, count - i))
    {
      var point := PointOf(Read(data, cursor, 4), ptype);
      if point.None? {
        return Fail(Truncated(cursor));
      }
      WithPrefixTwice(points, [point.value], ParsePoints(data, cursor + 4, ptype, count - i - 1));
      points := points + [point.value];
      cursor := cursor + 4;
      i := i + 1;
    }
    assert points + [] == points;
    return Ok(points, cursor);
  }

  /** PebbleDrawCommand.__init__: unpack the 9-byte header, then the points
      it announces. */
  method DecodeCommand(data: seq<Byte>, pos: nat) returns (r: Parsed<Command>)
    requires pos <= |data|
    ensures r == ParseCommand(data, pos)
  {
    FormatSizes();
    var header := ReadStruct(data, pos, CommandFormat);
    if header.Fail? {
      return Fail(header.error);
    }
    CommandLayout(data[pos..pos + 9], 0);
    var h := header.value;
    var points := DecodePoints(data, header.next, h[0], h[6]);
    if points.Fail? {
      return Fail(points.error);
    }
    return Ok(Command(h[0], h[1], h[2], h[3], h[4], h[5], h[6], points.value), points.next);
  }

  /** The command loop of PDCList.__init__: append one command per
      iteration. */
  method DecodeCommands(data: seq<Byte>, pos: nat, count: nat) returns (r: Parsed<seq<Command>>)
    requires pos <= |data|
    ensures r == ParseCommands(data, pos, count)
  {
    var commands: seq<Command> := [];
    var cursor: nat := pos;
    var i: nat := 0;
    WithPrefixEmpty(ParseCommands(data, pos, count));
    while i < count
      invariant i <= count && cursor <= |data|
      invariant ParseCommands(data, pos, count)
             == WithPrefix(commands, ParseCommands(data, cursor, count - i))
    {
      var command := DecodeCommand(data, cursor);
      if command.Fail? {
        return Fail(command.error);
      }
      WithPrefixTwice(commands, [command.value], ParseCommands(data, command.next, count - i - 1));
      commands := commands + [command.value];
      cursor := command.next;
      i := i + 1;
    }
    assert commands + [] == commands;
    return Ok(commands, cursor);
  }

  /** PDCList.__init__: read the count, then that many commands. */
  method DecodeList(data: seq<Byte>, pos: nat) returns (r: Parsed<CommandList>)
    requires pos <= |data|
    ensures r == ParseList(data, pos)
  {
    FormatSizes();
    var header := ReadStruct(data, pos, CountFormat);
    if header.Fail? {
      return Fail(header.error);
    }
    CountLayout(data[pos..pos + 2], 0);
    var count: nat := header.value[0];
    var commands := DecodeCommands(data, header.next, count);
    if commands.Fail? {
      return Fail(commands.error);
    }
    return Ok(CommandList(count, commands.value), commands.next);
  }

  /** PDCFrame.__init__: the duration, then one command list. */
  method DecodeFrame(data: seq<Byte>, pos: nat) returns (r: Parsed<Frame>)
    requires pos <= |data|
    ensures r == ParseFrame(data, pos)
  {
    FormatSizes();
    var header := ReadStruct(data, pos, CountFormat);
    if header.Fail? {
      return Fail(header.error);
    }
    CountLayout(data[pos..pos + 2], 0);
    var list := DecodeList(data, header.next);
    if list.Fail? {
      return Fail(list.error);
    }
    return Ok(Frame(header.value[0], list.value), list.next);
  }

  /** PDCImage.__init__: version and reserved byte, the view box, one
      command list. */
  method DecodeImage(data: seq<Byte>, pos: nat) returns (r: Parsed<Image>)
    requires pos <= |data|
    ensures r == ParseImage(data, pos)
  {
    FormatSizes();
    var header := ReadStruct(data, pos, VersionFormat);
    if header.Fail? {
      return Fail(header.error);
    }
    VersionLayout(data[pos..pos + 2], 0);
    var viewBox := ViewBoxOf(Read(data, header.next, 4));
    if viewBox.None? {
      return Fail(Truncated(header.next));
    }
    var list := DecodeList(data, header.next + 4);
    if list.Fail? {
      return Fail(list.error);
    }
    return Ok(Image(header.value[0], header.value[1], viewBox.value, list.value), list.next);
  }

  /** The frame loop of PDCSequence.__init__: append one frame per
      iteration. */
  method DecodeFrames(data: seq<Byte>, pos: nat, count: nat) returns (r: Parsed<seq<Frame>>)
    requires pos <= |data|
    ensures r == ParseFrames(data, pos, count)
  {
    var frames: seq<Frame> := [];
    var cursor: nat := pos;
    var i: nat := 0;
    WithPrefixEmpty(ParseFrames(data, pos, count));
    while i < count
      invariant i <= count && cursor <= |data|
      invariant ParseFrames(data, pos, count)
             == WithPrefix(frames, ParseFrames(data, cursor, count - i))
    {
      var frame := DecodeFrame(data, cursor);
      if frame.Fail? {
        return Fail(frame.error);
      }
      WithPrefixTwice(frames, [frame.value], ParseFrames(data, frame.next, count - i - 1));
      frames := frames + [frame.value];
      cursor := frame.next;
      i := i + 1;
    }
    assert frames + [] == frames;
    return Ok(frames, cursor);
  }

  /** PDCSequence.__init__: version and reserved byte, the view box, play
      count and frame count, then that many frames. */
  method DecodeSequence(data: seq<Byte>, pos: nat) returns (r: Parsed<Sequence>)
    requires pos <= |data|
    ensures r == ParseSequence(data, pos)
  {
    FormatSizes();
    var header := ReadStruct(data, pos, VersionFormat);
    if header.Fail? {
      return Fail(header.error);
    }
    VersionLayout(data[pos..pos + 2], 0);
    var viewBox := ViewBoxOf(Read(data, header.next, 4));
    if viewBox.None? {
      return Fail(Truncated(header.next));
    }
    var counts := ReadStruct(data, header.next + 4, PlayFormat);
    if counts.Fail? {
      return Fail(counts.error);
    }
    PlayLayout(data[header.next + 4..header.next + 8], 0);
    var frames := DecodeFrames(data, counts.next, counts.value[1]);
    if frames.Fail? {
      return Fail(frames.error);
    }
    var version, reserved := header.value[0], header.value[1];
    return Ok(Sequence(version, reserved, viewBox.value, counts.value[0], counts.value[1], frames.value), frames.next);
  }

  /** pdci2svg: the size word, then the image. */
  method DecodeImageFile(data: seq<Byte>, pos: nat) returns (r: Parsed<Document>)
    requires pos <= |data|
    ensures r == ParseImageFile(data, pos)
  {
    FormatSizes();
    var size := ReadStruct(data, pos, SizeFormat);
    if size.Fail? {
      return Fail(size.error);
    }
    SizeLayout(data[pos..pos + 4], 0);
    var image := DecodeImage(data, size.next);
    if image.Fail? {
      return Fail(image.error);
    }
    return Ok(ImageDocument(size.value[0], image.value), image.next);
  }

  /** pdcs2svg: the size word, then the sequence. */
  method DecodeSequenceFile(data: seq<Byte>, pos: nat) returns (r: Parsed<Document>)
    requires pos <= |data|
    ensures r == ParseSequenceFile(data, pos)
  {
    FormatSizes();
    var size := ReadStruct(data, pos, SizeFormat);
    if size.Fail? {
      return Fail(size.error);
    }
    SizeLayout(data[pos..pos + 4], 0);
    var sequence := DecodeSequence(data, size.next);
    if sequence.Fail? {
      return Fail(sequence.error);
    }
    return Ok(SequenceDocument(size.value[0], sequence.value), sequence.next);
  }

  /** pdc2svg: dispatch on the magic word at the start of the stream. */
  method Decode(data: seq<Byte>) returns (r: Parsed<Document>)
    ensures r == ParseDocument(data)
  {
    var magic := Read(data, 0, 4);
    if |magic| != 4 {
      return Fail(Truncated(0));
    }
    if magic == MAGIC_IMAGE {
      r := DecodeImageFile(data, 4);
    } else if magic == MAGIC_SEQUENCE {
      r := DecodeSequenceFile(data, 4);
    } else {
      r := Fail(BadMagic(magic));
    }
  }
}
