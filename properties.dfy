/** What the decoders promise, stated on the byte-offset definitions: how
    many bytes each record consumes, where every point and command comes
    from, where a short input stops the decoding, how the magic word
    dispatches, and that the bytes after a document are never read. */
module PdcProperties {
  import opened Struct
  import opened PdcRecords
  import opened PdcLayout
  import opened PdcEncode
  import opened PdcCanonical

  // ----- Bytes consumed -----

  /** The bytes a command occupies: its 9-byte header and 4 bytes a point. */
  function CommandSize(c: Command): nat {
    9 + 4 * c.numPoints
  }

  function CommandsSize(cs: seq<Command>): nat {
    if cs == [] then 0 else CommandSize(cs[0]) + CommandsSize(cs[1..])
  }

  /** The bytes a frame occupies: its duration, its count and its commands. */
  function FrameSize(f: Frame): nat {
    4 + CommandsSize(f.commandList.commands)
  }

  function FramesSize(fs: seq<Frame>): nat {
    if fs == [] then 0 else FrameSize(fs[0]) + FramesSize(fs[1..])
  }

  lemma {:induction false} CommandsConsumed(data: seq<Byte>, pos: nat, n: nat, cs: seq<Command>, next: nat)
    requires pos <= |data| && ParseCommands(data, pos, n) == Ok(cs, next)
    ensures next == pos + CommandsSize(cs)
    decreases n
  {
    if n == 0 {
      assert cs == [];
    } else {
      var mid := CommandsParts(data, pos, n, cs, next);
      CommandsConsumed(data, mid, n - 1, cs[1..], next);
    }
  }

  /** A command list consumes its 2-byte count and exactly the bytes of its
      commands: nothing is skipped and nothing is read twice. */
  lemma ListConsumed(data: seq<Byte>, pos: nat, l: CommandList, next: nat)
    requires pos <= |data| && ParseList(data, pos) == Ok(l, next)
    ensures next == pos + 2 + CommandsSize(l.commands)
  {
    ListParts(data, pos, l, next);
    CommandsConsumed(data, pos + 2, l.numCommands, l.commands, next);
  }

  lemma {:induction false} FramesConsumed(data: seq<Byte>, pos: nat, n: nat, fs: seq<Frame>, next: nat)
    requires pos <= |data| && ParseFrames(data, pos, n) == Ok(fs, next)
    ensures next == pos + FramesSize(fs)
    decreases n
  {
    if n == 0 {
      assert fs == [];
    } else {
      var mid := FramesParts(data, pos, n, fs, next);
      FrameParts(data, pos, fs[0], mid);
      ListConsumed(data, pos + 2, fs[0].commandList, mid);
      FramesConsumed(data, mid, n - 1, fs[1..], next);
    }
  }

  /** A whole file: magic word and size word, then the 8-byte image head
      and its commands, or the 10-byte sequence head and its frames. */
  lemma DocumentConsumed(data: seq<Byte>, d: Document, next: nat)
    requires ParseDocument(data) == Ok(d, next)
    ensures d.ImageDocument? ==> next == 8 + 8 + CommandsSize(d.image.commandList.commands)
    ensures d.SequenceDocument? ==> next == 8 + 10 + FramesSize(d.sequence.frames)
  {
    if data[..4] == MAGIC_IMAGE {
      ImageFileParts(data, 4, d, next);
      ImageParts(data, 8, d.image, next);
      ListConsumed(data, 14, d.image.commandList, next);
    } else {
      SequenceFileParts(data, 4, d, next);
      SequenceParts(data, 8, d.sequence, next);
      FramesConsumed(data, 18, d.sequence.frameCount, d.sequence.frames, next);
    }
  }

  // ----- Where each point and each command comes from -----

  /** `n` points succeed exactly when `4 * n` bytes remain; a short input
      stops at the first point that does not fit. */
  lemma {:induction false} PointsSucceed(data: seq<Byte>, pos: nat, ptype: int, n: nat)
    requires pos <= |data|
    ensures ParsePoints(data, pos, ptype, n).Ok? <==> pos + 4 * n <= |data|
    ensures ParsePoints(data, pos, ptype, n).Fail? ==>
      ParsePoints(data, pos, ptype, n).error == Truncated(pos + 4 * ((|data| - pos) / 4))
    decreases n
  {
    if n > 0 && pos + 4 <= |data| {
      PointsSucceed(data, pos + 4, ptype, n - 1);
      assert pos + 4 + 4 * ((|data| - (pos + 4)) / 4) == pos + 4 * ((|data| - pos) / 4);
    }
  }

  /** Point `k` of a run is Point(f.read(4), type) of the four bytes at
      `pos + 4 * k`. */
  lemma {:induction false} PointsFromBytes(data: seq<Byte>, pos: nat, ptype: int, n: nat, ps: seq<Point>, next: nat)
    requires pos <= |data| && ParsePoints(data, pos, ptype, n) == Ok(ps, next)
    ensures forall k | 0 <= k < n :: PointOf(data[pos + 4 * k..pos + 4 * k + 4], ptype) == Some(ps[k])
    decreases n
  {
    if n > 0 {
      PointsParts(data, pos, ptype, n, ps, next);
      PointsFromBytes(data, pos + 4, ptype, n - 1, ps[1..], next);
      forall k | 0 <= k < n
        ensures PointOf(data[pos + 4 * k..pos + 4 * k + 4], ptype) == Some(ps[k])
      {
        if k > 0 {
          assert pos + 4 * k == (pos + 4) + 4 * (k - 1);
          assert ps[k] == ps[1..][k - 1];
        }
      }
    }
  }

  /** A command succeeds exactly when its header and all the points it
      announces fit; every point is decoded with the command's own type; a
      short input stops at the header or at the first point that does not
      fit. */
  lemma CommandClosedForm(data: seq<Byte>, pos: nat)
    requires pos <= |data|
    ensures ParseCommand(data, pos).Ok? <==>
      pos + 9 <= |data| && pos + 9 + 4 * Uint16(data[pos + 7], data[pos + 8]) <= |data|
    ensures ParseCommand(data, pos).Ok? ==>
      var c := ParseCommand(data, pos).value;
      forall k | 0 <= k < c.numPoints ::
        PointOf(data[pos + 9 + 4 * k..pos + 9 + 4 * k + 4], c.ctype) == Some(c.points[k])
    ensures ParseCommand(data, pos).Fail? ==>
      ParseCommand(data, pos).error ==
        if |data| < pos + 9 then Truncated(pos) else Truncated(pos + 9 + 4 * ((|data| - (pos + 9)) / 4))
  {
    if pos + 9 <= |data| {
      var n := Uint16(data[pos + 7], data[pos + 8]);
      PointsSucceed(data, pos + 9, data[pos], n);
      var r := ParsePoints(data, pos + 9, data[pos], n);
      if r.Ok? {
        PointsFromBytes(data, pos + 9, data[pos], n, r.value, r.next);
      }
    }
  }

  /** The commands of a run in stream (paint) order: command `k` is the one
      that starts right after the first `k`. */
  lemma {:induction false} CommandsInOrder(data: seq<Byte>, pos: nat, n: nat, cs: seq<Command>, next: nat)
    requires pos <= |data| && ParseCommands(data, pos, n) == Ok(cs, next)
    ensures forall k | 0 <= k < |cs| :: CommandAtOffset(data, pos, cs, k)
    decreases n
  {
    if n > 0 {
      var mid := CommandsParts(data, pos, n, cs, next);
      CommandsInOrder(data, mid, n - 1, cs[1..], next);
      forall k | 0 <= k < |cs|
        ensures CommandAtOffset(data, pos, cs, k)
      {
        if k > 0 {
          assert CommandAtOffset(data, mid, cs[1..], k - 1);
          CommandAtOffsetStep(data, pos, cs, mid, k);
        }
      }
    }
  }

  /** Command `k` of `cs` is the one that starts right after the first `k`. */
  predicate CommandAtOffset(data: seq<Byte>, pos: nat, cs: seq<Command>, k: nat)
    requires k < |cs|
  {
    && pos + CommandsSize(cs[..k]) <= |data|
    && ParseCommand(data, pos + CommandsSize(cs[..k])) == Ok(cs[k], pos + CommandsSize(cs[..k + 1]))
  }

  lemma CommandAtOffsetStep(data: seq<Byte>, pos: nat, cs: seq<Command>, mid: nat, k: nat)
    requires 0 < k < |cs| && mid == pos + CommandSize(cs[0])
    requires CommandAtOffset(data, mid, cs[1..], k - 1)
    ensures CommandAtOffset(data, pos, cs, k)
  {
    CommandsSizeOfPrefix(cs, k);
    CommandsSizeOfPrefix(cs, k + 1);
    assert cs[1..][..k - 1] == cs[1..k] && cs[1..][..k] == cs[1..k + 1];
  }

  /** How the size of a prefix of a nonempty run splits. */
  lemma CommandsSizeOfPrefix(cs: seq<Command>, k: nat)
    requires 0 < k <= |cs|
    ensures CommandsSize(cs[..k]) == CommandSize(cs[0]) + CommandsSize(cs[1..k])
  {
    assert cs[..k][1..] == cs[1..k];
  }

  // ----- Where a short input stops -----

  /** A decoding that fails for lack of bytes fails at a read that starts
      at or after `pos`, within the input, and needed more bytes than were
      left: never more than the 9 of a command header. */
  predicate StopsAtEnd<T>(data: seq<Byte>, pos: nat, r: Parsed<T>) {
    r.Fail? && r.error.Truncated? ==> pos <= r.error.at <= |data| < r.error.at + 9
  }

  lemma {:induction false} CommandsStopAtEnd(data: seq<Byte>, pos: nat, n: nat)
    requires pos <= |data|
    ensures StopsAtEnd(data, pos, ParseCommands(data, pos, n))
    decreases n
  {
    if n > 0 {
      CommandClosedForm(data, pos);
      if ParseCommand(data, pos).Ok? {
        CommandsStopAtEnd(data, ParseCommand(data, pos).next, n - 1);
      }
    }
  }

  lemma ListStopsAtEnd(data: seq<Byte>, pos: nat)
    requires pos <= |data|
    ensures StopsAtEnd(data, pos, ParseList(data, pos))
  {
    if pos + 2 <= |data| {
      CommandsStopAtEnd(data, pos + 2, Uint16(data[pos], data[pos + 1]));
    }
  }

  lemma {:induction false} FramesStopAtEnd(data: seq<Byte>, pos: nat, n: nat)
    requires pos <= |data|
    ensures StopsAtEnd(data, pos, ParseFrames(data, pos, n))
    decreases n
  {
    if n > 0 {
      if pos + 2 <= |data| {
        ListStopsAtEnd(data, pos + 2);
      }
      if ParseFrame(data, pos).Ok? {
        FramesStopAtEnd(data, ParseFrame(data, pos).next, n - 1);
      }
    }
  }

  /** A file that is too short fails with the offset of the read that came
      up short, inside the last nine bytes of the input. */
  lemma DocumentStopsAtEnd(data: seq<Byte>)
    ensures StopsAtEnd(data, 0, ParseDocument(data))
  {
    if 8 <= |data| && data[..4] == MAGIC_IMAGE && 14 <= |data| {
      ListStopsAtEnd(data, 14);
    } else if 8 <= |data| && data[..4] == MAGIC_SEQUENCE && 18 <= |data| {
      FramesStopAtEnd(data, 18, Uint16(data[16], data[17]));
    }
  }

  // ----- Dispatch on the magic word -----

  /** "PDCI" leads to the size word and an image, "PDCS" to the size word
      and a sequence; any other word is refused before anything else is
      read, so the rest of the input does not matter. */
  lemma DispatchOnMagic(data: seq<Byte>)
    ensures ParseDocument(data).Ok? && ParseDocument(data).value.ImageDocument? <==>
      4 <= |data| && data[..4] == MAGIC_IMAGE && ParseImageFile(data, 4).Ok?
    ensures ParseDocument(data).Ok? && ParseDocument(data).value.SequenceDocument? <==>
      4 <= |data| && data[..4] == MAGIC_SEQUENCE && ParseSequenceFile(data, 4).Ok?
    ensures ParseDocument(data).Fail? && ParseDocument(data).error.BadMagic? <==>
      4 <= |data| && data[..4] != MAGIC_IMAGE && data[..4] != MAGIC_SEQUENCE
    ensures ParseDocument(data).Fail? && ParseDocument(data).error.BadMagic? ==>
      ParseDocument(data).error.magic == data[..4] && ParseDocument(data) == ParseDocument(data[..4])
  {
    if 4 <= |data| {
      assert data[..4][..4] == data[..4];
    }
  }

  // ----- The bytes after a document are never read -----

  /** A file that decodes is the encoding of its document followed by
      bytes the decoder never looks at: dropping them or appending more
      gives the same document and the same end offset. */
  lemma TrailingBytesIgnored(data: seq<Byte>, extra: seq<Byte>, d: Document, n: nat)
    requires ParseDocument(data) == Ok(d, n)
    ensures DocumentFits(d) && n <= |data| && data[..n] == EncodeDocument(d)
    ensures ParseDocument(data[..n]) == Ok(d, n)
    ensures ParseDocument(data + extra) == Ok(d, n)
  {
    DocumentOfDecoding(data, d, n);
    var e := EncodeDocument(d);
    HoldsAtSlice(data, 0, e);
    HoldsAtSlice(data[..n], 0, e);
    assert (data + extra)[0..n] == data[0..n];
    HoldsAtSlice(data + extra, 0, e);
    DecodeDocumentOfEncoding(data[..n], d);
    DecodeDocumentOfEncoding(data + extra, d);
  }

  /** Decoding is a bijection between well-formed documents and their
      encodings: two documents with the same encoding are the same. */
  lemma EncodingInjective(d1: Document, d2: Document)
    requires DocumentFits(d1) && DocumentFits(d2) && EncodeDocument(d1) == EncodeDocument(d2)
    ensures d1 == d2
  {
    var e := EncodeDocument(d1);
    HoldsAtSlice(e, 0, e);
    DecodeDocumentOfEncoding(e, d1);
    DecodeDocumentOfEncoding(e, d2);
  }

  // ----- Examples -----

  /** A precise path point at raw (80, 160) is (10.5, 20.5); any other type
      keeps whole pixels; a negative raw value is read as two's complement. */
  lemma PointExamples()
    ensures PointOf([80, 0, 160, 0], TYPE_PRECISE_PATH) == Some(Point(10.5, 20.5))
    ensures PointOf([80, 0, 160, 0], TYPE_PATH) == Some(Point(80.5, 160.5))
    ensures PointOf([0xF8, 0xFF, 0, 0], TYPE_PRECISE_PATH) == Some(Point(-0.5, 0.5))
    ensures PointOf([80, 0, 160], TYPE_PATH) == None
  {
  }

  /** An empty image, the same file cut after its command count, and a file
      with an unknown magic word. */
  lemma DocumentExamples()
    ensures ParseDocument([0x50, 0x44, 0x43, 0x49, 10, 0, 0, 0, 1, 0, 20, 0, 30, 0, 0, 0])
         == Ok(ImageDocument(10, Image(1, 0, ViewBox(20, 30), CommandList(0, []))), 16)
    ensures ParseDocument([0x50, 0x44, 0x43, 0x49, 10, 0, 0, 0, 1, 0, 20, 0, 30, 0, 1, 0])
         == Fail(Truncated(16))
    ensures ParseDocument([0x50, 0x44, 0x43, 0x58, 10, 0, 0, 0]) == Fail(BadMagic([0x50, 0x44, 0x43, 0x58]))
  {
    var cut: seq<Byte> := [0x50, 0x44, 0x43, 0x49, 10, 0, 0, 0, 1, 0, 20, 0, 30, 0, 1, 0];
    assert cut[..4] == MAGIC_IMAGE;
    assert ParseCommands(cut, 16, 1) == Fail(Truncated(16));
    var bad: seq<Byte> := [0x50, 0x44, 0x43, 0x58, 10, 0, 0, 0];
    assert bad[..4] == [0x50, 0x44, 0x43, 0x58];
    assert bad[..4][3] != MAGIC_IMAGE[3] && bad[..4][3] != MAGIC_SEQUENCE[3];
  }
}
