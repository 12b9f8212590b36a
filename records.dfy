/** The records of the Pebble Draw Command format, the `struct` layouts they
    are read with, and the two fixed records (Point and ViewBox) that are
    decoded from a buffer already read. */
module PdcRecords {
  import opened Struct

  const TYPE_PATH := 1
  const TYPE_CIRCLE := 2
  const TYPE_PRECISE_PATH := 3

  /** '<2h': a point, and also a view box. */
  const PointFormat: Format := Field(I16, Field(I16, Done))
  /** '<BBBBBhH': type, flags, stroke color, stroke width, fill color,
      path/radius, number of points. */
  const CommandFormat: Format :=
    Field(U8, Field(U8, Field(U8, Field(U8, Field(U8, Field(I16, Field(U16, Done)))))))
  /** '<H': the command count of a list, and the duration of a frame. */
  const CountFormat: Format := Field(U16, Done)
  /** '<BB': version and reserved byte of an image or a sequence. */
  const VersionFormat: Format := Field(U8, Field(U8, Done))
  /** '<HH': play count and frame count of a sequence. */
  const PlayFormat: Format := Field(U16, Field(U16, Done))
  /** '<i': the size word that follows the magic word. */
  const SizeFormat: Format := Field(I32, Done)

  /** The magic words "PDCI" and "PDCS" as bytes. */
  const MAGIC_IMAGE: seq<Byte> := [0x50, 0x44, 0x43, 0x49]
  const MAGIC_SEQUENCE: seq<Byte> := [0x50, 0x44, 0x43, 0x53]

  /** The 0xFFFF play count that stands for endless looping. */
  const INFINITE_PLAY_COUNT := 0xFFFF

  datatype Point = Point(x: real, y: real)

  datatype ViewBox = ViewBox(w: int, h: int)

  datatype Command = Command(
    ctype: Byte,
    flags: Byte,
    strokeColor: Byte,
    strokeWidth: Byte,
    fillColor: Byte,
    pathRadius: int,
    numPoints: nat,
    points: seq<Point>)

  datatype CommandList = CommandList(numCommands: nat, commands: seq<Command>)

  datatype Frame = Frame(duration: nat, commandList: CommandList)

  datatype Image = Image(version: Byte, reserved: Byte, viewBox: ViewBox, commandList: CommandList)

  datatype Sequence = Sequence(
    version: Byte,
    reserved: Byte,
    viewBox: ViewBox,
    playCount: nat,
    frameCount: nat,
    frames: seq<Frame>)

  /** A decoded file: the size word read after the magic word (kept as read,
      never checked) and the image or sequence that follows it. */
  datatype Document =
    | ImageDocument(size: int, image: Image)
    | SequenceDocument(size: int, sequence: Sequence)

  /** Truncated: a read at offset `at` returned fewer bytes than its layout
      needs. BadMagic: the first four bytes name neither document kind. */
  datatype Error = Truncated(at: nat) | BadMagic(magic: seq<Byte>)

  /** The outcome of decoding a record at a cursor: the record and the
      cursor after it, or the error that stopped the decoding. */
  datatype Parsed<T> = Ok(value: T, next: nat) | Fail(error: Error)

  lemma FormatSizes()
    ensures Size(PointFormat) == 4
    ensures Size(CommandFormat) == 9
    ensures Size(CountFormat) == 2
    ensures Size(VersionFormat) == 2
    ensures Size(PlayFormat) == 4
    ensures Size(SizeFormat) == 4
  {
  }

  /** Which bytes each field of a layout comes from. */
  lemma PointLayout(b: seq<Byte>, at: nat)
    requires at + 4 <= |b|
    ensures Fields(PointFormat, b, at) == [Int16(b[at], b[at + 1]), Int16(b[at + 2], b[at + 3])]
  {
    TwoByteFields(b[at..at + 2]);
    TwoByteFields(b[at + 2..at + 4]);
  }

  lemma VersionLayout(b: seq<Byte>, at: nat)
    requires at + 2 <= |b|
    ensures Fields(VersionFormat, b, at) == [b[at], b[at + 1]]
  {
    OneByteField(b[at..at + 1]);
    OneByteField(b[at + 1..at + 2]);
  }

  lemma PlayLayout(b: seq<Byte>, at: nat)
    requires at + 4 <= |b|
    ensures Fields(PlayFormat, b, at) == [Uint16(b[at], b[at + 1]), Uint16(b[at + 2], b[at + 3])]
  {
    TwoByteFields(b[at..at + 2]);
    TwoByteFields(b[at + 2..at + 4]);
  }

  lemma CountLayout(b: seq<Byte>, at: nat)
    requires at + 2 <= |b|
    ensures Fields(CountFormat, b, at) == [Uint16(b[at], b[at + 1])]
  {
    TwoByteFields(b[at..at + 2]);
  }

  lemma SizeLayout(b: seq<Byte>, at: nat)
    requires at + 4 <= |b|
    ensures Fields(SizeFormat, b, at) == [Int32(b[at], b[at + 1], b[at + 2], b[at + 3])]
  {
    FourByteField(b[at..at + 4]);
  }

  /** The 9-byte command header: five bytes, an int16 and a uint16. */
  lemma CommandLayout(b: seq<Byte>, at: nat)
    requires at + 9 <= |b|
    ensures Fields(CommandFormat, b, at)
         == [b[at], b[at + 1], b[at + 2], b[at + 3], b[at + 4],
             Int16(b[at + 5], b[at + 6]), Uint16(b[at + 7], b[at + 8])]
  {
    var f1 := CommandFormat.rest;
    var f2 := f1.rest;
    var f3 := f2.rest;
    var f4 := f3.rest;
    var f5 := f4.rest;
    TwoByteFields(b[at + 5..at + 7]);
    TwoByteFields(b[at + 7..at + 9]);
    OneByteField(b[at..at + 1]);
    OneByteField(b[at + 1..at + 2]);
    OneByteField(b[at + 2..at + 3]);
    OneByteField(b[at + 3..at + 4]);
    OneByteField(b[at + 4..at + 5]);
    var tail := [Int16(b[at + 5], b[at + 6]), Uint16(b[at + 7], b[at + 8])];
    assert Fields(f5, b, at + 5) == tail;
    assert Fields(f4, b, at + 4) == [b[at + 4]] + tail;
    assert Fields(f3, b, at + 3) == [b[at + 3], b[at + 4]] + tail;
    assert Fields(f2, b, at + 2) == [b[at + 2], b[at + 3], b[at + 4]] + tail;
    assert Fields(f1, b, at + 1) == [b[at + 1], b[at + 2], b[at + 3], b[at + 4]] + tail;
  }

  /** A point coordinate: raw units of 1/8 pixel in a precise path, whole
      pixels otherwise, moved by half a pixel. */
  function Coordinate(raw: int, ptype: int): real {
    (if ptype == TYPE_PRECISE_PATH then raw as real / 8.0 else raw as real) + 0.5
  }

  /** The raw value a coordinate was decoded from. */
  function RawCoordinate(v: real, ptype: int): int {
    if ptype == TYPE_PRECISE_PATH then ((v - 0.5) * 8.0).Floor else (v - 0.5).Floor
  }

  lemma CoordinateInverse(raw: int, ptype: int)
    ensures RawCoordinate(Coordinate(raw, ptype), ptype) == raw
  {
  }

  /** Point(bytestream, type): unpacks exactly four bytes as two little-endian
      int16 and scales them by the owning command's type. */
  function PointOf(buf: seq<Byte>, ptype: int): (p: Option<Point>)
    ensures p.Some? <==> |buf| == 4
    ensures p.Some? ==> p.value == Point(Coordinate(Int16(buf[0], buf[1]), ptype),
                                         Coordinate(Int16(buf[2], buf[3]), ptype))
  {
    if |buf| == 4 then PointLayout(buf, 0); PointFromFields(Unpack(PointFormat, buf), ptype)
    else PointFromFields(Unpack(PointFormat, buf), ptype)
  }

  function PointFromFields(fields: Option<seq<int>>, ptype: int): Option<Point>
    requires fields.Some? ==> |fields.value| == 2
  {
    match fields
    case None => None
    case Some(v) => Some(Point(Coordinate(v[0], ptype), Coordinate(v[1], ptype)))
  }

  /** ViewBox(bytestream): unpacks exactly four bytes as the little-endian
      int16 width and height. */
  function ViewBoxOf(buf: seq<Byte>): (v: Option<ViewBox>)
    ensures v.Some? <==> |buf| == 4
    ensures v.Some? ==> v.value == ViewBox(Int16(buf[0], buf[1]), Int16(buf[2], buf[3]))
  {
    if |buf| == 4 then PointLayout(buf, 0); ViewBoxFromFields(Unpack(PointFormat, buf))
    else ViewBoxFromFields(Unpack(PointFormat, buf))
  }

  function ViewBoxFromFields(fields: Option<seq<int>>): Option<ViewBox>
    requires fields.Some? ==> |fields.value| == 2
  {
    match fields
    case None => None
    case Some(v) => Some(ViewBox(v[0], v[1]))
  }

  predicate IsPathType(ctype: int) {
    ctype == TYPE_PATH || ctype == TYPE_PRECISE_PATH
  }

  /** How the path/radius field reads: for a path or a precise path, 0 is a
      closed path and 1 an open one (no other value is named); for any other
      type the field is a radius. */
  datatype PathRadius = ClosedPath | OpenPath | UnnamedPathFlag(flag: int) | Radius(radius: int)

  function PathRadiusOf(c: Command): (v: PathRadius)
    ensures v.Radius? <==> !IsPathType(c.ctype)
    ensures v.Radius? ==> v.radius == c.pathRadius
    ensures v == ClosedPath <==> IsPathType(c.ctype) && c.pathRadius == 0
    ensures v == OpenPath <==> IsPathType(c.ctype) && c.pathRadius == 1
    ensures v.UnnamedPathFlag? ==> v.flag == c.pathRadius
  {
    if !IsPathType(c.ctype) then Radius(c.pathRadius)
    else if c.pathRadius == 0 then ClosedPath
    else if c.pathRadius == 1 then OpenPath
    else UnnamedPathFlag(c.pathRadius)
  }

  /** The play count of a sequence: 0xFFFF is a tag for endless looping. */
  datatype PlayCount = Infinite | Times(count: nat)

  function PlayCountOf(s: Sequence): (p: PlayCount)
    ensures p.Infinite? <==> s.playCount == INFINITE_PLAY_COUNT
    ensures p.Times? ==> p.count == s.playCount
  {
    if s.playCount == INFINITE_PLAY_COUNT then Infinite else Times(s.playCount)
  }
}
