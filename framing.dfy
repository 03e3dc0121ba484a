/**
 * The frame format inside one dump file, after decompression: repeated
 * `varint32(len)` followed by `len` bytes of a serialized record, ended by a
 * `varint32(0)` sentinel. The compression layer is taken as the identity on
 * this byte stream.
 */
module Framing {
  import opened Common
  import opened Varint

  /** The serialized bytes of one record. */
  type Payload = seq<byte>

  /** A record the writer can frame: a positive length that fits a C `int`. */
  predicate Framable(p: Payload) {
    0 < |p| <= IntMax
  }

  predicate AllFramable(ps: seq<Payload>) {
    forall i :: 0 <= i < |ps| ==> Framable(ps[i])
  }

  /** `WriteVarint32(len)` then `WriteRaw(buffer, len)`. */
  function Frame(p: Payload): seq<byte> {
    Encode(|p|) + p
  }

  /** The frames of `ps`, in order, as the writer appends them. */
  function Frames(ps: seq<Payload>): seq<byte> {
    if |ps| == 0 then [] else Frames(ps[..|ps| - 1]) + Frame(ps[|ps| - 1])
  }

  /** The end-of-file mark `WriteVarint32(0)`. */
  function Sentinel(): (s: seq<byte>)
    ensures s == [0]
  {
    Encode(0)
  }

  /** The whole decompressed content of a dump file holding `ps`. */
  function FileBytes(ps: seq<Payload>): seq<byte> {
    Frames(ps) + Sentinel()
  }

  /**
   * What the loop of `bgz_foreach` hands to the executor for one file's
   * bytes `s`: it reads a varint; a failed read or a zero ends the file;
   * otherwise it reads that many bytes. A frame cut short by the end of the
   * data is handed over with the bytes that were there, and the next read
   * then fails.
   */
  function Deframe(s: seq<byte>): (r: seq<Payload>)
    decreases |s|
  {
    match ReadVarint32(s)
    case None => []
    case Some((len, k)) =>
      if len == 0 then []
      else if k + len <= |s| then [s[k..k + len]] + Deframe(s[k + len..])
      else [s[k..]]
  }

  /** The frames of all files, one file after the other. */
  function DeframeAll(files: seq<seq<byte>>): seq<Payload> {
    if |files| == 0 then [] else DeframeAll(files[..|files| - 1]) + Deframe(files[|files| - 1])
  }

  /** The frames of `ps` read from the front: the first frame, then the others. */
  lemma {:induction false} FramesCons(p: Payload, ps: seq<Payload>)
    ensures Frames([p] + ps) == Frame(p) + Frames(ps)
    decreases |ps|
  {
    if |ps| > 0 {
      var q := [p] + ps;
      assert q[..|q| - 1] == [p] + ps[..|ps| - 1];
      FramesCons(p, ps[..|ps| - 1]);
    } else {
      assert [p][..0] == [];
    }
  }

  /** One frame is read back as its record, leaving the reader just after it. */
  lemma DeframeFrame(p: Payload, rest: seq<byte>)
    requires Framable(p)
    ensures Deframe(Frame(p) + rest) == [p] + Deframe(rest)
  {
    var s := Frame(p) + rest;
    var k := |Encode(|p|)|;
    assert s == Encode(|p|) + (p + rest);
    ReadWriteVarint32(|p|, p + rest);
    assert s[k..k + |p|] == p;
    assert s[k + |p|..] == rest;
  }

  /** Frames written one after the other are read back in order, and the reader continues after them. */
  lemma {:induction false} DeframeFrames(ps: seq<Payload>, tail: seq<byte>)
    requires AllFramable(ps)
    ensures Deframe(Frames(ps) + tail) == ps + Deframe(tail)
    decreases |ps|
  {
    if |ps| > 0 {
      var p, rest := ps[0], ps[1..];
      assert [p] + rest == ps;
      FramesCons(p, rest);
      var x := Frames(rest) + tail;
      assert Frames(ps) + tail == Frame(p) + x;
      DeframeFrame(p, x);
      DeframeFrames(rest, tail);
      var d := Deframe(tail);
      ConsAppend(p, rest, d);
      calc {
        Deframe(Frames(ps) + tail);
        Deframe(Frame(p) + x);
        [p] + Deframe(x);
        [p] + (rest + d);
        ([p] + rest) + d;
      }
    } else {
      assert Frames(ps) + tail == tail;
      assert ps + Deframe(tail) == Deframe(tail);
    }
  }

  lemma ConsAppend<T>(x: T, a: seq<T>, b: seq<T>)
    ensures [x] + (a + b) == ([x] + a) + b
  {
  }

  /**
   * A dump file is read back as exactly the records written into it; the
   * sentinel ends the reading, so bytes after it are never looked at.
   */
  lemma FileRoundTrip(ps: seq<Payload>, after: seq<byte>)
    requires AllFramable(ps)
    ensures Deframe(FileBytes(ps) + after) == ps
  {
    assert FileBytes(ps) + after == Frames(ps) + (Sentinel() + after);
    DeframeFrames(ps, Sentinel() + after);
    assert ReadVarint32(Sentinel() + after) == Some((0, 1)) by {
      ReadWriteVarint32(0, after);
    }
  }

  /** The files of an archive are read back, one after the other, as the records written into them. */
  lemma {:induction false} ArchiveRoundTrip(plan: seq<seq<Payload>>)
    requires forall i :: 0 <= i < |plan| ==> AllFramable(plan[i])
    ensures DeframeAll(FileContents(plan)) == Flatten(plan)
    decreases |plan|
  {
    if |plan| > 0 {
      var init := plan[..|plan| - 1];
      ArchiveRoundTrip(init);
      assert FileContents(plan)[..|plan| - 1] == FileContents(init);
      FileRoundTrip(plan[|plan| - 1], []);
      assert FileBytes(plan[|plan| - 1]) + [] == FileBytes(plan[|plan| - 1]);
      FlattenAppend(init, plan[|plan| - 1]);
      assert init + [plan[|plan| - 1]] == plan;
    }
  }

  /** The bytes of each file of an archive whose files hold `plan`. */
  function FileContents(plan: seq<seq<Payload>>): (files: seq<seq<byte>>)
    ensures |files| == |plan|
    ensures forall i :: 0 <= i < |plan| ==> files[i] == FileBytes(plan[i])
  {
    seq(|plan|, i requires 0 <= i < |plan| => FileBytes(plan[i]))
  }

  /** One more file: its bytes come after those of the files before it. */
  lemma FileContentsSnoc(plan: seq<seq<Payload>>, file: seq<Payload>)
    ensures FileContents(plan + [file]) == FileContents(plan) + [FileBytes(file)]
  {
  }
}
