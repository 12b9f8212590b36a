/** The format as byte offsets: each function reads the record that starts
    at a cursor straight from the bytes, field by field, and returns it with
    the cursor after it, or the error that stops it. These are the reference
    definitions the decoders of PdcDecode are proved to compute. */
module PdcLayout {
  import opened Struct
  import opened PdcRecords

  /** A point: two little-endian int16 at `pos`, scaled by the type of the
      command that owns it. */
  function ParsePoint(data: seq<Byte>, pos: nat, ptype: int): (r: Parsed<Point>)
    requires pos <= |data|
    ensures r.Ok? <==> pos + 4 <= |data|
    ensures r.Ok? ==> r.next == pos + 4
    ensures r.Fail? ==> r.error == Truncated(pos)
  {
    if pos + 4 <= |data| then
      Ok(Point(Coordinate(Int16(data[pos], data[pos + 1]), ptype),
               Coordinate(Int16(data[pos + 2], data[pos + 3]), ptype)), pos + 4)
    else Fail(Truncated(pos))
  }

  /** `r` with `acc` in front of the records it holds. */
  function WithPrefix<T>(acc: seq<T>, r: Parsed<seq<T>>): (s: Parsed<seq<T>>)
    ensures s.Ok? <==> r.Ok?
    ensures s.Ok? ==> s.value == acc + r.value && s.next == r.next
    ensures s.Fail? ==> s.error == r.error
  {
    match r
    case Ok(v, next) => Ok(acc + v, next)
    case Fail(e) => Fail(e)
  }

  lemma WithPrefixEmpty<T>(r: Parsed<seq<T>>)
    ensures WithPrefix([], r) == r
  {
    if r.Ok? {
      assert [] + r.value == r.value;
    }
  }

  lemma WithPrefixTwice<T>(a: seq<T>, b: seq<T>, r: Parsed<seq<T>>)
    ensures WithPrefix(a, WithPrefix(b, r)) == WithPrefix(a + b, r)
  {
    if r.Ok? {
      assert a + (b + r.value) == (a + b) + r.value;
    }
  }

  /** `n` points in a row, all scaled by the owning command's type. */
  function ParsePoints(data: seq<Byte>, pos: nat, ptype: int, n: nat): (r: Parsed<seq<Point>>)
    requires pos <= |data|
    ensures r.Fail? ==> r.error.Truncated?
    ensures r.Ok? ==> |r.value| == n && r.next == pos + 4 * n && r.next <= |data|
    decreases n
  {
    if n == 0 then Ok([], pos)
    else
      match ParsePoint(data, pos, ptype)
      case Fail(e) => Fail(e)
      case Ok(p, mid) => WithPrefix([p], ParsePoints(data, mid, ptype, n - 1))
  }

  /** A first point followed by the rest of a run of points. */
  lemma PointsJoin(data: seq<Byte>, pos: nat, ptype: int, ps: seq<Point>, next: nat)
    requires pos + 4 <= |data| && ps != [] && ParsePoint(data, pos, ptype) == Ok(ps[0], pos + 4)
    requires ParsePoints(data, pos + 4, ptype, |ps| - 1) == Ok(ps[1..], next)
    ensures ParsePoints(data, pos, ptype, |ps|) == Ok(ps, next)
  {
    assert [ps[0]] + ps[1..] == ps;
  }
  /** A run of points that decodes starts with a point that decodes. */
  lemma PointsParts(data: seq<Byte>, pos: nat, ptype: int, n: nat, ps: seq<Point>, next: nat)
    requires pos <= |data| && 0 < n && ParsePoints(data, pos, ptype, n) == Ok(ps, next)
    ensures pos + 4 <= |data| && ParsePoint(data, pos, ptype) == Ok(ps[0], pos + 4)
    ensures ParsePoints(data, pos + 4, ptype, n - 1) == Ok(ps[1..], next)
  {
  }

  /** A command: type, flags, stroke color, stroke width and fill color at
      `pos` .. `pos + 4`, the int16 path/radius field at `pos + 5`, the
      uint16 point count at `pos + 7`, then the points from `pos + 9`. Any
      type byte is accepted. */
  function ParseCommand(data: seq<Byte>, pos: nat): (r: Parsed<Command>)
    requires pos <= |data|
    ensures r.Fail? ==> r.error.Truncated?
    ensures r.Ok? ==> |r.value.points| == r.value.numPoints
    ensures r.Ok? ==> r.next == pos + 9 + 4 * r.value.numPoints && r.next <= |data|
  {
    if |data| < pos + 9 then Fail(Truncated(pos))
    else
      var numPoints := Uint16(data[pos + 7], data[pos + 8]);
      match ParsePoints(data, pos + 9, data[pos], numPoints)
      case Fail(e) => Fail(e)
      case Ok(points, next) =>
        Ok(Command(data[pos], data[pos + 1], data[pos + 2], data[pos + 3], data[pos + 4],
                   Int16(data[pos + 5], data[pos + 6]), numPoints, points), next)
  }
  /** What a command that decodes is made of. */
  lemma CommandParts(data: seq<Byte>, pos: nat, c: Command, next: nat)
    requires pos <= |data| && ParseCommand(data, pos) == Ok(c, next)
    ensures pos + 9 <= |data|
    ensures c.ctype == data[pos] && c.flags == data[pos + 1] && c.strokeColor == data[pos + 2]
    ensures c.strokeWidth == data[pos + 3] && c.fillColor == data[pos + 4]
    ensures c.pathRadius == Int16(data[pos + 5], data[pos + 6])
    ensures c.numPoints == Uint16(data[pos + 7], data[pos + 8])
    ensures ParsePoints(data, pos + 9, c.ctype, c.numPoints) == Ok(c.points, next)
  {
  }

  /** `n` commands in a row, in stream (paint) order. */
  function ParseCommands(data: seq<Byte>, pos: nat, n: nat): (r: Parsed<seq<Command>>)
    requires pos <= |data|
    ensures r.Fail? ==> r.error.Truncated?
    ensures r.Ok? ==> |r.value| == n && pos <= r.next <= |data|
    decreases n
  {
    if n == 0 then Ok([], pos)
    else
      match ParseCommand(data, pos)
      case Fail(e) => Fail(e)
      case Ok(c, mid) => WithPrefix([c], ParseCommands(data, mid, n - 1))
  }

  /** A first command followed by the rest of a run of commands. */
  lemma CommandsJoin(data: seq<Byte>, pos: nat, cs: seq<Command>, mid: nat, next: nat)
    requires pos <= |data| && cs != [] && ParseCommand(data, pos) == Ok(cs[0], mid)
    requires ParseCommands(data, mid, |cs| - 1) == Ok(cs[1..], next)
    ensures ParseCommands(data, pos, |cs|) == Ok(cs, next)
  {
    assert [cs[0]] + cs[1..] == cs;
  }
  /** A run of commands that decodes starts with a command that decodes. */
  lemma CommandsParts(data: seq<Byte>, pos: nat, n: nat, cs: seq<Command>, next: nat) returns (mid: nat)
    requires pos <= |data| && 0 < n && ParseCommands(data, pos, n) == Ok(cs, next)
    ensures mid <= |data| && ParseCommand(data, pos) == Ok(cs[0], mid)
    ensures ParseCommands(data, mid, n - 1) == Ok(cs[1..], next)
  {
    mid := ParseCommand(data, pos).next;
  }

  /** A command list: the uint16 count at `pos`, then the commands from
      `pos + 2`. */
  function ParseList(data: seq<Byte>, pos: nat): (r: Parsed<CommandList>)
    requires pos <= |data|
    ensures r.Fail? ==> r.error.Truncated?
    ensures r.Ok? ==> |r.value.commands| == r.value.numCommands
    ensures r.Ok? ==> pos + 2 <= r.next <= |data|
  {
    if |data| < pos + 2 then Fail(Truncated(pos))
    else
      var n := Uint16(data[pos], data[pos + 1]);
      match ParseCommands(data, pos + 2, n)
      case Fail(e) => Fail(e)
      case Ok(commands, next) => Ok(CommandList(n, commands), next)
  }
  /** What a command list that decodes is made of. */
  lemma ListParts(data: seq<Byte>, pos: nat, l: CommandList, next: nat)
    requires pos <= |data| && ParseList(data, pos) == Ok(l, next)
    ensures pos + 2 <= |data| && l.numCommands == Uint16(data[pos], data[pos + 1])
    ensures ParseCommands(data, pos + 2, l.numCommands) == Ok(l.commands, next)
  {
  }

  /** A frame: the uint16 duration at `pos`, then a command list. */
  function ParseFrame(data: seq<Byte>, pos: nat): (r: Parsed<Frame>)
    requires pos <= |data|
    ensures r.Fail? ==> r.error.Truncated?
    ensures r.Ok? ==> pos + 4 <= r.next <= |data|
  {
    if |data| < pos + 2 then Fail(Truncated(pos))
    else
      match ParseList(data, pos + 2)
      case Fail(e) => Fail(e)
      case Ok(list, next) => Ok(Frame(Uint16(data[pos], data[pos + 1]), list), next)
  }
  /** What a frame that decodes is made of. */
  lemma FrameParts(data: seq<Byte>, pos: nat, f: Frame, next: nat)
    requires pos <= |data| && ParseFrame(data, pos) == Ok(f, next)
    ensures pos + 2 <= |data| && f.duration == Uint16(data[pos], data[pos + 1])
    ensures ParseList(data, pos + 2) == Ok(f.commandList, next)
  {
  }

  /** `n` frames in a row, in stream order. */
  function ParseFrames(data: seq<Byte>, pos: nat, n: nat): (r: Parsed<seq<Frame>>)
    requires pos <= |data|
    ensures r.Fail? ==> r.error.Truncated?
    ensures r.Ok? ==> |r.value| == n && pos <= r.next <= |data|
    decreases n
  {
    if n == 0 then Ok([], pos)
    else
      match ParseFrame(data, pos)
      case Fail(e) => Fail(e)
      case Ok(f, mid) => WithPrefix([f], ParseFrames(data, mid, n - 1))
  }

  /** A first frame followed by the rest of a run of frames. */
  lemma FramesJoin(data: seq<Byte>, pos: nat, fs: seq<Frame>, mid: nat, next: nat)
    requires pos <= |data| && fs != [] && ParseFrame(data, pos) == Ok(fs[0], mid)
    requires ParseFrames(data, mid, |fs| - 1) == Ok(fs[1..], next)
    ensures ParseFrames(data, pos, |fs|) == Ok(fs, next)
  {
    assert [fs[0]] + fs[1..] == fs;
  }
  /** A run of frames that decodes starts with a frame that decodes. */
  lemma FramesParts(data: seq<Byte>, pos: nat, n: nat, fs: seq<Frame>, next: nat) returns (mid: nat)
    requires pos <= |data| && 0 < n && ParseFrames(data, pos, n) == Ok(fs, next)
    ensures mid <= |data| && ParseFrame(data, pos) == Ok(fs[0], mid)
    ensures ParseFrames(data, mid, n - 1) == Ok(fs[1..], next)
  {
    mid := ParseFrame(data, pos).next;
  }

  /** The view box: two little-endian int16 at `pos`. */
  function ViewBoxAt(data: seq<Byte>, pos: nat): ViewBox
    requires pos + 4 <= |data|
  {
    ViewBox(Int16(data[pos], data[pos + 1]), Int16(data[pos + 2], data[pos + 3]))
  }

  /** An image: version and reserved byte at `pos`, the view box at
      `pos + 2`, the command list from `pos + 6`. */
  function ParseImage(data: seq<Byte>, pos: nat): (r: Parsed<Image>)
    requires pos <= |data|
    ensures r.Fail? ==> r.error.Truncated?
    ensures r.Ok? ==> pos + 8 <= r.next <= |data|
  {
    if |data| < pos + 2 then Fail(Truncated(pos))
    else if |data| < pos + 6 then Fail(Truncated(pos + 2))
    else
      match ParseList(data, pos + 6)
      case Fail(e) => Fail(e)
      case Ok(list, next) => Ok(Image(data[pos], data[pos + 1], ViewBoxAt(data, pos + 2), list), next)
  }
  /** What an image that decodes is made of. */
  lemma ImageParts(data: seq<Byte>, pos: nat, i: Image, next: nat)
    requires pos <= |data| && ParseImage(data, pos) == Ok(i, next)
    ensures pos + 6 <= |data|
    ensures i.version == data[pos] && i.reserved == data[pos + 1] && i.viewBox == ViewBoxAt(data, pos + 2)
    ensures ParseList(data, pos + 6) == Ok(i.commandList, next)
  {
  }

  /** A sequence: version and reserved byte at `pos`, the view box at
      `pos + 2`, the uint16 play count at `pos + 6` and frame count at
      `pos + 8`, the frames from `pos + 10`. */
  function ParseSequence(data: seq<Byte>, pos: nat): (r: Parsed<Sequence>)
    requires pos <= |data|
    ensures r.Fail? ==> r.error.Truncated?
    ensures r.Ok? ==> |r.value.frames| == r.value.frameCount
    ensures r.Ok? ==> pos + 10 <= r.next <= |data|
  {
    if |data| < pos + 2 then Fail(Truncated(pos))
    else if |data| < pos + 6 then Fail(Truncated(pos + 2))
    else if |data| < pos + 10 then Fail(Truncated(pos + 6))
    else
      var frameCount := Uint16(data[pos + 8], data[pos + 9]);
      match ParseFrames(data, pos + 10, frameCount)
      case Fail(e) => Fail(e)
      case Ok(frames, next) =>
        Ok(Sequence(data[pos], data[pos + 1], ViewBoxAt(data, pos + 2),
                    Uint16(data[pos + 6], data[pos + 7]), frameCount, frames), next)
  }
  /** What a sequence that decodes is made of. */
  lemma SequenceParts(data: seq<Byte>, pos: nat, s: Sequence, next: nat)
    requires pos <= |data| && ParseSequence(data, pos) == Ok(s, next)
    ensures pos + 10 <= |data|
    ensures s.version == data[pos] && s.reserved == data[pos + 1] && s.viewBox == ViewBoxAt(data, pos + 2)
    ensures s.playCount == Uint16(data[pos + 6], data[pos + 7])
    ensures s.frameCount == Uint16(data[pos + 8], data[pos + 9])
    ensures ParseFrames(data, pos + 10, s.frameCount) == Ok(s.frames, next)
  {
  }

  /** An image file after its magic word: the int32 size word at `pos`, then
      the image. */
  function ParseImageFile(data: seq<Byte>, pos: nat): (r: Parsed<Document>)
    requires pos <= |data|
    ensures r.Fail? ==> r.error.Truncated?
    ensures r.Ok? ==> r.value.ImageDocument? && pos + 12 <= r.next <= |data|
  {
    if |data| < pos + 4 then Fail(Truncated(pos))
    else
      match ParseImage(data, pos + 4)
      case Fail(e) => Fail(e)
      case Ok(image, next) =>
        Ok(ImageDocument(Int32(data[pos], data[pos + 1], data[pos + 2], data[pos + 3]), image), next)
  }
  /** What an image file that decodes is made of. */
  lemma ImageFileParts(data: seq<Byte>, pos: nat, d: Document, next: nat)
    requires pos <= |data| && ParseImageFile(data, pos) == Ok(d, next)
    ensures pos + 4 <= |data| && d.ImageDocument?
    ensures d.size == Int32(data[pos], data[pos + 1], data[pos + 2], data[pos + 3])
    ensures ParseImage(data, pos + 4) == Ok(d.image, next)
  {
  }

  /** A sequence file after its magic word: the int32 size word at `pos`,
      then the sequence. */
  function ParseSequenceFile(data: seq<Byte>, pos: nat): (r: Parsed<Document>)
    requires pos <= |data|
    ensures r.Fail? ==> r.error.Truncated?
    ensures r.Ok? ==> r.value.SequenceDocument? && pos + 14 <= r.next <= |data|
  {
    if |data| < pos + 4 then Fail(Truncated(pos))
    else
      match ParseSequence(data, pos + 4)
      case Fail(e) => Fail(e)
      case Ok(sequence, next) =>
        Ok(SequenceDocument(Int32(data[pos], data[pos + 1], data[pos + 2], data[pos + 3]), sequence), next)
  }
  /** What a sequence file that decodes is made of. */
  lemma SequenceFileParts(data: seq<Byte>, pos: nat, d: Document, next: nat)
    requires pos <= |data| && ParseSequenceFile(data, pos) == Ok(d, next)
    ensures pos + 4 <= |data| && d.SequenceDocument?
    ensures d.size == Int32(data[pos], data[pos + 1], data[pos + 2], data[pos + 3])
    ensures ParseSequence(data, pos + 4) == Ok(d.sequence, next)
  {
  }

  /** A whole file: the magic word in the first four bytes selects the
      record; any other word stops the decoding before anything else is
      read. */
  function ParseDocument(data: seq<Byte>): (r: Parsed<Document>)
    ensures r.Ok? ==> 4 <= r.next <= |data|
  {
    if |data| < 4 then Fail(Truncated(0))
    else if data[..4] == MAGIC_IMAGE then ParseImageFile(data, 4)
    else if data[..4] == MAGIC_SEQUENCE then ParseSequenceFile(data, 4)
    else Fail(BadMagic(data[..4]))
  }
}
