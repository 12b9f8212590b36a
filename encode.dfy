/** An encoder for every record, and the two directions of the round trip
    with the byte-offset decoders: decoding an encoding gives the record
    back and consumes exactly its bytes, and every record that decodes is
    well formed and sits, encoded, at the cursor. */
module PdcEncode {
  import opened Struct
  import opened PdcRecords
  import opened PdcLayout

  /** A coordinate that some int16 decodes to, for a command of type `ptype`. */
  predicate CoordinateFits(v: real, ptype: int) {
    IsInt16(RawCoordinate(v, ptype)) && Coordinate(RawCoordinate(v, ptype), ptype) == v
  }

  predicate PointFits(p: Point, ptype: int) {
    CoordinateFits(p.x, ptype) && CoordinateFits(p.y, ptype)
  }

  predicate PointsFit(ps: seq<Point>, ptype: int) {
    ps == [] || (PointFits(ps[0], ptype) && PointsFit(ps[1..], ptype))
  }

  predicate CommandFits(c: Command) {
    && IsInt16(c.pathRadius)
    && c.numPoints == |c.points| && IsUint16(c.numPoints)
    && PointsFit(c.points, c.ctype)
  }

  predicate CommandsFit(cs: seq<Command>) {
    cs == [] || (CommandFits(cs[0]) && CommandsFit(cs[1..]))
  }

  predicate ListFits(l: CommandList) {
    l.numCommands == |l.commands| && IsUint16(l.numCommands) && CommandsFit(l.commands)
  }

  predicate FrameFits(f: Frame) {
    IsUint16(f.duration) && ListFits(f.commandList)
  }

  predicate FramesFit(fs: seq<Frame>) {
    fs == [] || (FrameFits(fs[0]) && FramesFit(fs[1..]))
  }

  predicate ViewBoxFits(v: ViewBox) {
    IsInt16(v.w) && IsInt16(v.h)
  }

  predicate ImageFits(i: Image) {
    ViewBoxFits(i.viewBox) && ListFits(i.commandList)
  }

  predicate SequenceFits(s: Sequence) {
    && ViewBoxFits(s.viewBox) && IsUint16(s.playCount)
    && s.frameCount == |s.frames| && IsUint16(s.frameCount)
    && FramesFit(s.frames)
  }

  predicate DocumentFits(d: Document) {
    IsInt32(d.size) &&
    match d
    case ImageDocument(_, image) => ImageFits(image)
    case SequenceDocument(_, sequence) => SequenceFits(sequence)
  }

  function EncodePoint(p: Point, ptype: int): (b: seq<Byte>)
    requires PointFits(p, ptype)
    ensures |b| == 4
  {
    Le16(RawCoordinate(p.x, ptype)) + Le16(RawCoordinate(p.y, ptype))
  }

  function EncodePoints(ps: seq<Point>, ptype: int): (b: seq<Byte>)
    requires PointsFit(ps, ptype)
    ensures |b| == 4 * |ps|
  {
    if ps == [] then [] else EncodePoint(ps[0], ptype) + EncodePoints(ps[1..], ptype)
  }

  function EncodeCommand(c: Command): (b: seq<Byte>)
    requires CommandFits(c)
    ensures |b| == 9 + 4 * c.numPoints
  {
    [c.ctype, c.flags, c.strokeColor, c.strokeWidth, c.fillColor]
      + Le16(c.pathRadius) + Le16(c.numPoints)
      + EncodePoints(c.points, c.ctype)
  }

  function EncodeCommands(cs: seq<Command>): seq<Byte>
    requires CommandsFit(cs)
  {
    if cs == [] then [] else EncodeCommand(cs[0]) + EncodeCommands(cs[1..])
  }

  function EncodeList(l: CommandList): seq<Byte>
    requires ListFits(l)
  {
    Le16(l.numCommands) + EncodeCommands(l.commands)
  }

  function EncodeFrame(f: Frame): seq<Byte>
    requires FrameFits(f)
  {
    Le16(f.duration) + EncodeList(f.commandList)
  }

  function EncodeFrames(fs: seq<Frame>): seq<Byte>
    requires FramesFit(fs)
  {
    if fs == [] then [] else EncodeFrame(fs[0]) + EncodeFrames(fs[1..])
  }

  function EncodeViewBox(v: ViewBox): (b: seq<Byte>)
    requires ViewBoxFits(v)
    ensures |b| == 4
  {
    Le16(v.w) + Le16(v.h)
  }

  function EncodeImage(i: Image): seq<Byte>
    requires ImageFits(i)
  {
    [i.version, i.reserved] + EncodeViewBox(i.viewBox) + EncodeList(i.commandList)
  }

  function EncodeSequence(s: Sequence): seq<Byte>
    requires SequenceFits(s)
  {
    [s.version, s.reserved] + EncodeViewBox(s.viewBox)
      + Le16(s.playCount) + Le16(s.frameCount)
      + EncodeFrames(s.frames)
  }

  function EncodeDocument(d: Document): seq<Byte>
    requires DocumentFits(d)
  {
    match d
    case ImageDocument(size, image) => MAGIC_IMAGE + Le32(size) + EncodeImage(image)
    case SequenceDocument(size, sequence) => MAGIC_SEQUENCE + Le32(size) + EncodeSequence(sequence)
  }

  /** A document's encoding is its magic word followed by the rest. */
  lemma EncodeDocumentParts(d: Document)
    requires DocumentFits(d)
    ensures d.ImageDocument? ==> EncodeDocument(d) == MAGIC_IMAGE + (Le32(d.size) + EncodeImage(d.image))
    ensures d.SequenceDocument? ==>
      EncodeDocument(d) == MAGIC_SEQUENCE + (Le32(d.size) + EncodeSequence(d.sequence))
  {
  }

  // Decoding an encoding gives the record back and stops right after it.

  lemma DecodePointOfEncoding(data: seq<Byte>, pos: nat, p: Point, ptype: int)
    requires PointFits(p, ptype) && HoldsAt(data, pos, EncodePoint(p, ptype))
    ensures ParsePoint(data, pos, ptype) == Ok(p, pos + 4)
  {
    var rx, ry := RawCoordinate(p.x, ptype), RawCoordinate(p.y, ptype);
    HoldsAtSplit(data, pos, Le16(rx), Le16(ry));
    Int16OfLe16(rx);
    Int16OfLe16(ry);
    HoldsAtSlice(data, pos, Le16(rx));
    HoldsAtSlice(data, pos + 2, Le16(ry));
  }

  lemma SplitPoints(data: seq<Byte>, pos: nat, ps: seq<Point>, ptype: int)
    requires ps != [] && PointsFit(ps, ptype) && HoldsAt(data, pos, EncodePoints(ps, ptype))
    ensures HoldsAt(data, pos, EncodePoint(ps[0], ptype))
    ensures HoldsAt(data, pos + 4, EncodePoints(ps[1..], ptype))
  {
    HoldsAtSplit(data, pos, EncodePoint(ps[0], ptype), EncodePoints(ps[1..], ptype));
  }

  lemma {:induction false} DecodePointsOfEncoding(data: seq<Byte>, pos: nat, ps: seq<Point>, ptype: int)
    requires PointsFit(ps, ptype) && HoldsAt(data, pos, EncodePoints(ps, ptype))
    ensures ParsePoints(data, pos, ptype, |ps|) == Ok(ps, pos + 4 * |ps|)
    decreases ps
  {
    if ps != [] {
      SplitPoints(data, pos, ps, ptype);
      DecodePointOfEncoding(data, pos, ps[0], ptype);
      DecodePointsOfEncoding(data, pos + 4, ps[1..], ptype);
      PointsJoin(data, pos, ptype, ps, pos + 4 + 4 * |ps[1..]|);
    }
  }

  lemma DecodeCommandOfEncoding(data: seq<Byte>, pos: nat, c: Command)
    requires CommandFits(c) && HoldsAt(data, pos, EncodeCommand(c))
    ensures ParseCommand(data, pos) == Ok(c, pos + |EncodeCommand(c)|)
  {
    var bytes := [c.ctype, c.flags, c.strokeColor, c.strokeWidth, c.fillColor];
    var radius, count := Le16(c.pathRadius), Le16(c.numPoints);
    var header := bytes + radius + count;
    HoldsAtSplit(data, pos, header, EncodePoints(c.points, c.ctype));
    HoldsAtSplit(data, pos, bytes + radius, count);
    HoldsAtSplit(data, pos, bytes, radius);
    HoldsAtSlice(data, pos, bytes);
    assert data[pos] == c.ctype && data[pos + 1] == c.flags && data[pos + 2] == c.strokeColor;
    assert data[pos + 3] == c.strokeWidth && data[pos + 4] == c.fillColor;
    HoldsAtSlice(data, pos + 5, radius);
    HoldsAtSlice(data, pos + 7, count);
    Int16OfLe16(c.pathRadius);
    Uint16OfLe16(c.numPoints);
    DecodePointsOfEncoding(data, pos + 9, c.points, c.ctype);
  }

  lemma SplitCommands(data: seq<Byte>, pos: nat, cs: seq<Command>)
    requires cs != [] && CommandsFit(cs) && HoldsAt(data, pos, EncodeCommands(cs))
    ensures HoldsAt(data, pos, EncodeCommand(cs[0]))
    ensures HoldsAt(data, pos + |EncodeCommand(cs[0])|, EncodeCommands(cs[1..]))
    ensures |EncodeCommands(cs)| == |EncodeCommand(cs[0])| + |EncodeCommands(cs[1..])|
  {
    HoldsAtSplit(data, pos, EncodeCommand(cs[0]), EncodeCommands(cs[1..]));
  }
  /** The converse of SplitCommands. */
  lemma JoinCommands(data: seq<Byte>, pos: nat, cs: seq<Command>)
    requires cs != [] && CommandFits(cs[0]) && CommandsFit(cs[1..])
    requires HoldsAt(data, pos, EncodeCommand(cs[0]))
    requires HoldsAt(data, pos + |EncodeCommand(cs[0])|, EncodeCommands(cs[1..]))
    ensures CommandsFit(cs) && HoldsAt(data, pos, EncodeCommands(cs))
    ensures |EncodeCommands(cs)| == |EncodeCommand(cs[0])| + |EncodeCommands(cs[1..])|
  {
    HoldsAtSplit(data, pos, EncodeCommand(cs[0]), EncodeCommands(cs[1..]));
  }


  lemma {:induction false} DecodeCommandsOfEncoding(data: seq<Byte>, pos: nat, cs: seq<Command>)
    requires CommandsFit(cs) && HoldsAt(data, pos, EncodeCommands(cs))
    ensures ParseCommands(data, pos, |cs|) == Ok(cs, pos + |EncodeCommands(cs)|)
    decreases cs
  {
    if cs != [] {
      var mid := pos + |EncodeCommand(cs[0])|;
      SplitCommands(data, pos, cs);
      DecodeCommandOfEncoding(data, pos, cs[0]);
      DecodeCommandsOfEncoding(data, mid, cs[1..]);
      CommandsJoin(data, pos, cs, mid, mid + |EncodeCommands(cs[1..])|);
    }
  }

  lemma DecodeListOfEncoding(data: seq<Byte>, pos: nat, l: CommandList)
    requires ListFits(l) && HoldsAt(data, pos, EncodeList(l))
    ensures ParseList(data, pos) == Ok(l, pos + |EncodeList(l)|)
  {
    HoldsAtSplit(data, pos, Le16(l.numCommands), EncodeCommands(l.commands));
    HoldsAtSlice(data, pos, Le16(l.numCommands));
    Uint16OfLe16(l.numCommands);
    DecodeCommandsOfEncoding(data, pos + 2, l.commands);
  }

  lemma DecodeFrameOfEncoding(data: seq<Byte>, pos: nat, f: Frame)
    requires FrameFits(f) && HoldsAt(data, pos, EncodeFrame(f))
    ensures ParseFrame(data, pos) == Ok(f, pos + |EncodeFrame(f)|)
  {
    HoldsAtSplit(data, pos, Le16(f.duration), EncodeList(f.commandList));
    HoldsAtSlice(data, pos, Le16(f.duration));
    Uint16OfLe16(f.duration);
    DecodeListOfEncoding(data, pos + 2, f.commandList);
  }

  lemma SplitFrames(data: seq<Byte>, pos: nat, fs: seq<Frame>)
    requires fs != [] && FramesFit(fs) && HoldsAt(data, pos, EncodeFrames(fs))
    ensures HoldsAt(data, pos, EncodeFrame(fs[0]))
    ensures HoldsAt(data, pos + |EncodeFrame(fs[0])|, EncodeFrames(fs[1..]))
    ensures |EncodeFrames(fs)| == |EncodeFrame(fs[0])| + |EncodeFrames(fs[1..])|
  {
    HoldsAtSplit(data, pos, EncodeFrame(fs[0]), EncodeFrames(fs[1..]));
  }
  /** The converse of SplitFrames. */
  lemma JoinFrames(data: seq<Byte>, pos: nat, fs: seq<Frame>)
    requires fs != [] && FrameFits(fs[0]) && FramesFit(fs[1..])
    requires HoldsAt(data, pos, EncodeFrame(fs[0]))
    requires HoldsAt(data, pos + |EncodeFrame(fs[0])|, EncodeFrames(fs[1..]))
    ensures FramesFit(fs) && HoldsAt(data, pos, EncodeFrames(fs))
    ensures |EncodeFrames(fs)| == |EncodeFrame(fs[0])| + |EncodeFrames(fs[1..])|
  {
    HoldsAtSplit(data, pos, EncodeFrame(fs[0]), EncodeFrames(fs[1..]));
  }


  lemma {:induction false} DecodeFramesOfEncoding(data: seq<Byte>, pos: nat, fs: seq<Frame>)
    requires FramesFit(fs) && HoldsAt(data, pos, EncodeFrames(fs))
    ensures ParseFrames(data, pos, |fs|) == Ok(fs, pos + |EncodeFrames(fs)|)
    decreases fs
  {
    if fs != [] {
      var mid := pos + |EncodeFrame(fs[0])|;
      SplitFrames(data, pos, fs);
      DecodeFrameOfEncoding(data, pos, fs[0]);
      DecodeFramesOfEncoding(data, mid, fs[1..]);
      FramesJoin(data, pos, fs, mid, mid + |EncodeFrames(fs[1..])|);
    }
  }

  lemma DecodeViewBoxOfEncoding(data: seq<Byte>, pos: nat, v: ViewBox)
    requires ViewBoxFits(v) && HoldsAt(data, pos, EncodeViewBox(v))
    ensures pos + 4 <= |data| && ViewBoxAt(data, pos) == v
  {
    HoldsAtSplit(data, pos, Le16(v.w), Le16(v.h));
    HoldsAtSlice(data, pos, Le16(v.w));
    HoldsAtSlice(data, pos + 2, Le16(v.h));
    Int16OfLe16(v.w);
    Int16OfLe16(v.h);
  }

  lemma DecodeImageOfEncoding(data: seq<Byte>, pos: nat, i: Image)
    requires ImageFits(i) && HoldsAt(data, pos, EncodeImage(i))
    ensures ParseImage(data, pos) == Ok(i, pos + |EncodeImage(i)|)
  {
    var head := [i.version, i.reserved];
    HoldsAtSplit(data, pos, head + EncodeViewBox(i.viewBox), EncodeList(i.commandList));
    HoldsAtSplit(data, pos, head, EncodeViewBox(i.viewBox));
    HoldsAtSlice(data, pos, head);
    DecodeViewBoxOfEncoding(data, pos + 2, i.viewBox);
    DecodeListOfEncoding(data, pos + 6, i.commandList);
  }

  lemma DecodeSequenceOfEncoding(data: seq<Byte>, pos: nat, s: Sequence)
    requires SequenceFits(s) && HoldsAt(data, pos, EncodeSequence(s))
    ensures ParseSequence(data, pos) == Ok(s, pos + |EncodeSequence(s)|)
  {
    var head := [s.version, s.reserved];
    var play, count := Le16(s.playCount), Le16(s.frameCount);
    HoldsAtSplit(data, pos, head + EncodeViewBox(s.viewBox) + play + count, EncodeFrames(s.frames));
    HoldsAtSplit(data, pos, head + EncodeViewBox(s.viewBox) + play, count);
    HoldsAtSplit(data, pos, head + EncodeViewBox(s.viewBox), play);
    HoldsAtSplit(data, pos, head, EncodeViewBox(s.viewBox));
    HoldsAtSlice(data, pos, head);
    HoldsAtSlice(data, pos + 6, play);
    HoldsAtSlice(data, pos + 8, count);
    assert data[pos] == s.version && data[pos + 1] == s.reserved;
    assert data[pos + 6] == play[0] && data[pos + 7] == play[1];
    assert data[pos + 8] == count[0] && data[pos + 9] == count[1];
    Uint16OfLe16(s.playCount);
    Uint16OfLe16(s.frameCount);
    DecodeViewBoxOfEncoding(data, pos + 2, s.viewBox);
    DecodeFramesOfEncoding(data, pos + 10, s.frames);
    assert |EncodeSequence(s)| == 10 + |EncodeFrames(s.frames)|;
  }

  lemma DecodeImageFileOfEncoding(data: seq<Byte>, pos: nat, size: int, i: Image)
    requires IsInt32(size) && ImageFits(i)
    requires HoldsAt(data, pos, Le32(size) + EncodeImage(i))
    ensures ParseImageFile(data, pos) == Ok(ImageDocument(size, i), pos + 4 + |EncodeImage(i)|)
  {
    HoldsAtSplit(data, pos, Le32(size), EncodeImage(i));
    HoldsAtSlice(data, pos, Le32(size));
    Int32OfLe32(size);
    DecodeImageOfEncoding(data, pos + 4, i);
  }

  lemma DecodeSequenceFileOfEncoding(data: seq<Byte>, pos: nat, size: int, s: Sequence)
    requires IsInt32(size) && SequenceFits(s)
    requires HoldsAt(data, pos, Le32(size) + EncodeSequence(s))
    ensures ParseSequenceFile(data, pos) == Ok(SequenceDocument(size, s), pos + 4 + |EncodeSequence(s)|)
  {
    HoldsAtSplit(data, pos, Le32(size), EncodeSequence(s));
    HoldsAtSlice(data, pos, Le32(size));
    Int32OfLe32(size);
    DecodeSequenceOfEncoding(data, pos + 4, s);
  }

  /** A magic word followed by the rest of a file. */
  lemma SplitMagic(data: seq<Byte>, magic: seq<Byte>, rest: seq<Byte>)
    requires |magic| == 4 && HoldsAt(data, 0, magic + rest)
    ensures 4 <= |data| && data[..4] == magic && HoldsAt(data, 4, rest)
  {
    HoldsAtSplit(data, 0, magic, rest);
    HoldsAtSlice(data, 0, magic);
  }

  lemma DecodeImageDocumentOfEncoding(data: seq<Byte>, size: int, i: Image)
    requires IsInt32(size) && ImageFits(i)
    requires HoldsAt(data, 0, MAGIC_IMAGE + (Le32(size) + EncodeImage(i)))
    ensures ParseDocument(data) == Ok(ImageDocument(size, i), 8 + |EncodeImage(i)|)
  {
    SplitMagic(data, MAGIC_IMAGE, Le32(size) + EncodeImage(i));
    DecodeImageFileOfEncoding(data, 4, size, i);
  }

  lemma DecodeSequenceDocumentOfEncoding(data: seq<Byte>, size: int, s: Sequence)
    requires IsInt32(size) && SequenceFits(s)
    requires HoldsAt(data, 0, MAGIC_SEQUENCE + (Le32(size) + EncodeSequence(s)))
    ensures ParseDocument(data) == Ok(SequenceDocument(size, s), 8 + |EncodeSequence(s)|)
  {
    SplitMagic(data, MAGIC_SEQUENCE, Le32(size) + EncodeSequence(s));
    assert data[..4][3] != MAGIC_IMAGE[3];
    DecodeSequenceFileOfEncoding(data, 4, size, s);
  }

  /** A whole file: the encoding of a document, followed by anything, decodes
      to that document and stops at the end of its encoding. */
  lemma DecodeDocumentOfEncoding(data: seq<Byte>, d: Document)
    requires DocumentFits(d) && HoldsAt(data, 0, EncodeDocument(d))
    ensures ParseDocument(data) == Ok(d, |EncodeDocument(d)|)
  {
    match d
    case ImageDocument(size, image) =>
      EncodeDocumentParts(d);
      DecodeImageDocumentOfEncoding(data, size, image);
    case SequenceDocument(size, sequence) =>
      EncodeDocumentParts(d);
      DecodeSequenceDocumentOfEncoding(data, size, sequence);
  }
}
