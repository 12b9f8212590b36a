/** The other direction of the round trip: every record that decodes is
    well formed, its encoding is exactly the bytes it was decoded from, and
    it consumed exactly that many bytes. Together with PdcEncode this makes
    the byte-offset decoders and the encoders inverse to each other. */
module PdcCanonical {
  import opened Struct
  import opened PdcRecords
  import opened PdcLayout
  import opened PdcEncode

  /** The bytes at `pos .. pos + 4`, read as a pair of little-endian int16,
      re-encode to themselves. */
  lemma Int16PairAt(data: seq<Byte>, pos: nat)
    requires pos + 4 <= |data|
    ensures Le16(Int16(data[pos], data[pos + 1])) + Le16(Int16(data[pos + 2], data[pos + 3]))
         == data[pos..pos + 4]
  {
    Le16OfInt16(data[pos], data[pos + 1]);
    Le16OfInt16(data[pos + 2], data[pos + 3]);
  }

  lemma PointOfDecoding(data: seq<Byte>, pos: nat, ptype: int, p: Point, next: nat)
    requires pos <= |data| && ParsePoint(data, pos, ptype) == Ok(p, next)
    ensures PointFits(p, ptype) && HoldsAt(data, pos, EncodePoint(p, ptype))
    ensures next == pos + |EncodePoint(p, ptype)|
  {
    var rx, ry := Int16(data[pos], data[pos + 1]), Int16(data[pos + 2], data[pos + 3]);
    CoordinateInverse(rx, ptype);
    CoordinateInverse(ry, ptype);
    Int16PairAt(data, pos);
    HoldsAtSlice(data, pos, EncodePoint(p, ptype));
  }

  lemma {:induction false} PointsOfDecoding(data: seq<Byte>, pos: nat, ptype: int, n: nat, ps: seq<Point>, next: nat)
    requires pos <= |data| && ParsePoints(data, pos, ptype, n) == Ok(ps, next)
    ensures PointsFit(ps, ptype) && HoldsAt(data, pos, EncodePoints(ps, ptype))
    ensures next == pos + |EncodePoints(ps, ptype)|
    decreases n
  {
    if n == 0 {
      assert ps == [];
    } else {
      PointsParts(data, pos, ptype, n, ps, next);
      PointOfDecoding(data, pos, ptype, ps[0], pos + 4);
      PointsOfDecoding(data, pos + 4, ptype, n - 1, ps[1..], next);
      HoldsAtSplit(data, pos, EncodePoint(ps[0], ptype), EncodePoints(ps[1..], ptype));
    }
  }

  /** The nine header bytes of a decoded command re-encode to themselves. */
  lemma CommandHeaderAt(data: seq<Byte>, pos: nat)
    requires pos + 9 <= |data|
    ensures [data[pos], data[pos + 1], data[pos + 2], data[pos + 3], data[pos + 4]]
              + Le16(Int16(data[pos + 5], data[pos + 6]))
              + Le16(Uint16(data[pos + 7], data[pos + 8]))
         == data[pos..pos + 9]
  {
    Le16OfInt16(data[pos + 5], data[pos + 6]);
    Le16OfUint16(data[pos + 7], data[pos + 8]);
  }

  lemma CommandOfDecoding(data: seq<Byte>, pos: nat, c: Command, next: nat)
    requires pos <= |data| && ParseCommand(data, pos) == Ok(c, next)
    ensures CommandFits(c) && HoldsAt(data, pos, EncodeCommand(c))
    ensures next == pos + |EncodeCommand(c)|
  {
    CommandParts(data, pos, c, next);
    var header := [c.ctype, c.flags, c.strokeColor, c.strokeWidth, c.fillColor]
      + Le16(c.pathRadius) + Le16(c.numPoints);
    CommandHeaderAt(data, pos);
    HoldsAtSlice(data, pos, header);
    PointsOfDecoding(data, pos + 9, c.ctype, c.numPoints, c.points, next);
    HoldsAtSplit(data, pos, header, EncodePoints(c.points, c.ctype));
  }

  lemma {:induction false} CommandsOfDecoding(data: seq<Byte>, pos: nat, n: nat, cs: seq<Command>, next: nat)
    requires pos <= |data| && ParseCommands(data, pos, n) == Ok(cs, next)
    ensures CommandsFit(cs) && HoldsAt(data, pos, EncodeCommands(cs))
    ensures next == pos + |EncodeCommands(cs)|
    decreases n
  {
    if n == 0 {
      assert cs == [];
    } else {
      var mid := CommandsParts(data, pos, n, cs, next);
      CommandOfDecoding(data, pos, cs[0], mid);
      CommandsOfDecoding(data, mid, n - 1, cs[1..], next);
      JoinCommands(data, pos, cs);
    }
  }

  lemma ListOfDecoding(data: seq<Byte>, pos: nat, l: CommandList, next: nat)
    requires pos <= |data| && ParseList(data, pos) == Ok(l, next)
    ensures ListFits(l) && HoldsAt(data, pos, EncodeList(l))
    ensures next == pos + |EncodeList(l)|
  {
    ListParts(data, pos, l, next);
    Le16OfUint16(data[pos], data[pos + 1]);
    HoldsAtSlice(data, pos, Le16(l.numCommands));
    CommandsOfDecoding(data, pos + 2, l.numCommands, l.commands, next);
    HoldsAtSplit(data, pos, Le16(l.numCommands), EncodeCommands(l.commands));
  }

  lemma FrameOfDecoding(data: seq<Byte>, pos: nat, f: Frame, next: nat)
    requires pos <= |data| && ParseFrame(data, pos) == Ok(f, next)
    ensures FrameFits(f) && HoldsAt(data, pos, EncodeFrame(f))
    ensures next == pos + |EncodeFrame(f)|
  {
    FrameParts(data, pos, f, next);
    Le16OfUint16(data[pos], data[pos + 1]);
    HoldsAtSlice(data, pos, Le16(f.duration));
    ListOfDecoding(data, pos + 2, f.commandList, next);
    HoldsAtSplit(data, pos, Le16(f.duration), EncodeList(f.commandList));
  }

  lemma {:induction false} FramesOfDecoding(data: seq<Byte>, pos: nat, n: nat, fs: seq<Frame>, next: nat)
    requires pos <= |data| && ParseFrames(data, pos, n) == Ok(fs, next)
    ensures FramesFit(fs) && HoldsAt(data, pos, EncodeFrames(fs))
    ensures next == pos + |EncodeFrames(fs)|
    decreases n
  {
    if n == 0 {
      assert fs == [];
    } else {
      var mid := FramesParts(data, pos, n, fs, next);
      FrameOfDecoding(data, pos, fs[0], mid);
      FramesOfDecoding(data, mid, n - 1, fs[1..], next);
      JoinFrames(data, pos, fs);
    }
  }

  lemma ViewBoxOfDecoding(data: seq<Byte>, pos: nat)
    requires pos + 4 <= |data|
    ensures ViewBoxFits(ViewBoxAt(data, pos)) && HoldsAt(data, pos, EncodeViewBox(ViewBoxAt(data, pos)))
  {
    Int16PairAt(data, pos);
    HoldsAtSlice(data, pos, EncodeViewBox(ViewBoxAt(data, pos)));
  }

  /** The six head bytes of a decoded image or sequence re-encode to
      themselves. */
  lemma HeadAt(data: seq<Byte>, pos: nat)
    requires pos + 6 <= |data|
    ensures ViewBoxFits(ViewBoxAt(data, pos + 2))
    ensures [data[pos], data[pos + 1]] + EncodeViewBox(ViewBoxAt(data, pos + 2)) == data[pos..pos + 6]
  {
    Int16PairAt(data, pos + 2);
  }

  lemma ImageOfDecoding(data: seq<Byte>, pos: nat, i: Image, next: nat)
    requires pos <= |data| && ParseImage(data, pos) == Ok(i, next)
    ensures ImageFits(i) && HoldsAt(data, pos, EncodeImage(i))
    ensures next == pos + |EncodeImage(i)|
  {
    ImageParts(data, pos, i, next);
    var head := [i.version, i.reserved] + EncodeViewBox(i.viewBox);
    HeadAt(data, pos);
    HoldsAtSlice(data, pos, head);
    ListOfDecoding(data, pos + 6, i.commandList, next);
    HoldsAtSplit(data, pos, head, EncodeList(i.commandList));
  }

  /** The ten head bytes of a decoded sequence re-encode to themselves. */
  lemma SequenceHeadAt(data: seq<Byte>, pos: nat)
    requires pos + 10 <= |data|
    ensures ViewBoxFits(ViewBoxAt(data, pos + 2))
    ensures [data[pos], data[pos + 1]] + EncodeViewBox(ViewBoxAt(data, pos + 2))
              + Le16(Uint16(data[pos + 6], data[pos + 7])) + Le16(Uint16(data[pos + 8], data[pos + 9]))
         == data[pos..pos + 10]
  {
    HeadAt(data, pos);
    Le16OfUint16(data[pos + 6], data[pos + 7]);
    Le16OfUint16(data[pos + 8], data[pos + 9]);
    assert data[pos..pos + 10] == data[pos..pos + 6] + data[pos + 6..pos + 8] + data[pos + 8..pos + 10];
  }

  lemma SequenceOfDecoding(data: seq<Byte>, pos: nat, s: Sequence, next: nat)
    requires pos <= |data| && ParseSequence(data, pos) == Ok(s, next)
    ensures SequenceFits(s) && HoldsAt(data, pos, EncodeSequence(s))
    ensures next == pos + |EncodeSequence(s)|
  {
    SequenceParts(data, pos, s, next);
    var head := [s.version, s.reserved] + EncodeViewBox(s.viewBox) + Le16(s.playCount) + Le16(s.frameCount);
    SequenceHeadAt(data, pos);
    HoldsAtSlice(data, pos, head);
    FramesOfDecoding(data, pos + 10, s.frameCount, s.frames, next);
    HoldsAtSplit(data, pos, head, EncodeFrames(s.frames));
  }

  lemma ImageFileOfDecoding(data: seq<Byte>, pos: nat, d: Document, next: nat)
    requires pos <= |data| && ParseImageFile(data, pos) == Ok(d, next)
    ensures IsInt32(d.size) && ImageFits(d.image) && HoldsAt(data, pos, Le32(d.size) + EncodeImage(d.image))
    ensures next == pos + 4 + |EncodeImage(d.image)|
  {
    ImageFileParts(data, pos, d, next);
    Le32OfInt32(data[pos], data[pos + 1], data[pos + 2], data[pos + 3]);
    HoldsAtSlice(data, pos, Le32(d.size));
    ImageOfDecoding(data, pos + 4, d.image, next);
    HoldsAtSplit(data, pos, Le32(d.size), EncodeImage(d.image));
  }

  lemma SequenceFileOfDecoding(data: seq<Byte>, pos: nat, d: Document, next: nat)
    requires pos <= |data| && ParseSequenceFile(data, pos) == Ok(d, next)
    ensures IsInt32(d.size) && SequenceFits(d.sequence)
    ensures HoldsAt(data, pos, Le32(d.size) + EncodeSequence(d.sequence))
    ensures next == pos + 4 + |EncodeSequence(d.sequence)|
  {
    SequenceFileParts(data, pos, d, next);
    Le32OfInt32(data[pos], data[pos + 1], data[pos + 2], data[pos + 3]);
    HoldsAtSlice(data, pos, Le32(d.size));
    SequenceOfDecoding(data, pos + 4, d.sequence, next);
    HoldsAtSplit(data, pos, Le32(d.size), EncodeSequence(d.sequence));
  }

  /** The magic word in front of the rest of a file. */
  lemma MagicAt(data: seq<Byte>, rest: seq<Byte>)
    requires 4 <= |data| && HoldsAt(data, 4, rest)
    ensures HoldsAt(data, 0, data[..4] + rest)
  {
    HoldsAtSlice(data, 0, data[..4]);
    HoldsAtSplit(data, 0, data[..4], rest);
  }

  lemma ImageDocumentOfDecoding(data: seq<Byte>, d: Document, next: nat)
    requires 4 <= |data| && data[..4] == MAGIC_IMAGE && ParseImageFile(data, 4) == Ok(d, next)
    ensures DocumentFits(d) && HoldsAt(data, 0, EncodeDocument(d))
    ensures next == |EncodeDocument(d)|
  {
    ImageFileOfDecoding(data, 4, d, next);
    MagicAt(data, Le32(d.size) + EncodeImage(d.image));
    EncodeDocumentParts(d);
  }

  lemma SequenceDocumentOfDecoding(data: seq<Byte>, d: Document, next: nat)
    requires 4 <= |data| && data[..4] == MAGIC_SEQUENCE && ParseSequenceFile(data, 4) == Ok(d, next)
    ensures DocumentFits(d) && HoldsAt(data, 0, EncodeDocument(d))
    ensures next == |EncodeDocument(d)|
  {
    SequenceFileOfDecoding(data, 4, d, next);
    MagicAt(data, Le32(d.size) + EncodeSequence(d.sequence));
    EncodeDocumentParts(d);
  }

  /** A file that decodes starts with the encoding of the document it decodes
      to, and the decoding stops right after it. */
  lemma DocumentOfDecoding(data: seq<Byte>, d: Document, next: nat)
    requires ParseDocument(data) == Ok(d, next)
    ensures DocumentFits(d) && HoldsAt(data, 0, EncodeDocument(d))
    ensures next == |EncodeDocument(d)|
  {
    if data[..4] == MAGIC_IMAGE {
      ImageDocumentOfDecoding(data, d, next);
    } else {
      SequenceDocumentOfDecoding(data, d, next);
    }
  }
}
