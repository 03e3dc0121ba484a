/**
 * The dump writer `tsv_to_bgz` and the reader `bgz_foreach`.
 *
 * A record type is seen through its `Codec`: the value a cleared record has,
 * its `ByteSize` and its serialization. The row mapper is a function of the
 * current line and the record it fills. The file system is a set of names
 * that cannot be opened for writing, and a map from readable names to their
 * (decompressed) contents. The per-file byte count that decides rotation is
 * an arbitrary function of the bytes written to the file so far.
 */
module Protodump {
  import opened Common
  import opened Varint
  import opened Framing
  import opened DumpNaming
  import opened TsvParser
  import opened TsvBuffer

  /** `dump_request_t`. */
  datatype DumpRequest = DumpRequest(inputFile: string, dumpFileSuffix: string, eachDumpSize: int)

  /** The counters of `dump_result_t`. */
  datatype Tally = Tally(total: nat, parsed: nat, zeroLength: nat, invalidLength: nat)

  /** `dump_result_t` without its clock reading. */
  datatype DumpResult = DumpResult(counts: Tally, totalRead: nat, dumpFiles: seq<string>)

  /** `foreach_result_t` without its clock reading. */
  datatype ForeachResult = ForeachResult(readCount: nat, readFiles: seq<string>)

  /** What the writer uses of a record type: a cleared record, `ByteSize` and `SerializeToArray`. */
  datatype Codec<!M> = Codec(empty: M, byteSize: M -> int, serialize: M -> Payload)

  /** The record type keeps its promises: `ByteSize` fits an `int`, and a positive size is the serialization's length. */
  ghost predicate Honest<M(!new)>(c: Codec<M>) {
    forall m :: IntMin <= c.byteSize(m) <= IntMax && (c.byteSize(m) > 0 ==> |c.serialize(m)| == c.byteSize(m))
  }

  /** What became of one row. */
  datatype Outcome = Rejected | ZeroLength | InvalidLength | Written(payload: Payload)

  // ---------------------------------------------------------------------------
  // The writer, row by row

  /**
   * One row of the inner loop of `tsv_to_bgz`, given the record the previous
   * rows left: the mapper fills the record; a rejected row, a zero size and a
   * negative size are counted and skipped, and the record is kept as it is;
   * otherwise the record is serialized and cleared.
   */
  function Step<M>(c: Codec<M>, mapper: (string, M) -> (bool, M), log: M, line: string): (Outcome, M)
  {
    var (accepted, filled) := mapper(line, log);
    if !accepted then (Rejected, filled)
    else if c.byteSize(filled) == 0 then (ZeroLength, filled)
    else if c.byteSize(filled) < 0 then (InvalidLength, filled)
    else (Written(c.serialize(filled)), c.empty)
  }

  /** The outcomes of the rows, in order, and the record left after the last one. */
  function Run<M>(c: Codec<M>, mapper: (string, M) -> (bool, M), rows: seq<string>): (r: (seq<Outcome>, M))
    ensures |r.0| == |rows|
  {
    if |rows| == 0 then ([], c.empty)
    else
      var prev := Run(c, mapper, rows[..|rows| - 1]);
      var step := Step(c, mapper, prev.1, rows[|rows| - 1]);
      (prev.0 + [step.0], step.1)
  }

  /** The records written, in order. */
  function WrittenPayloads(outs: seq<Outcome>): seq<Payload> {
    if |outs| == 0 then []
    else
      WrittenPayloads(outs[..|outs| - 1])
      + (if outs[|outs| - 1].Written? then [outs[|outs| - 1].payload] else [])
  }

  /** The counters after one more row with outcome `o`. */
  function Count(t: Tally, o: Outcome): Tally {
    match o
    case Rejected => t.(total := t.total + 1)
    case ZeroLength => t.(total := t.total + 1, zeroLength := t.zeroLength + 1)
    case InvalidLength => t.(total := t.total + 1, invalidLength := t.invalidLength + 1)
    case Written(_) => t.(total := t.total + 1, parsed := t.parsed + 1)
  }

  /** The counters after the rows with these outcomes. */
  function TallyOf(outs: seq<Outcome>): Tally {
    if |outs| == 0 then Tally(0, 0, 0, 0) else Count(TallyOf(outs[..|outs| - 1]), outs[|outs| - 1])
  }

  /** The rows the mapper rejected. */
  function RejectedCount(outs: seq<Outcome>): nat {
    if |outs| == 0 then 0
    else RejectedCount(outs[..|outs| - 1]) + (if outs[|outs| - 1].Rejected? then 1 else 0)
  }

  /**
   * The counters account for every row: each is counted once in `total`, and
   * in at most one of the three other counters, none when it was rejected;
   * `parsed` is the number of records written.
   */
  lemma {:induction false} TallyPartition(outs: seq<Outcome>)
    ensures var t := TallyOf(outs);
      && t.total == |outs|
      && t.total == t.parsed + t.zeroLength + t.invalidLength + RejectedCount(outs)
      && t.parsed == |WrittenPayloads(outs)|
    decreases |outs|
  {
    if |outs| > 0 {
      TallyPartition(outs[..|outs| - 1]);
    }
  }

  /** Every record written by an honest record type can be framed. */
  lemma {:induction false} RunFramable<M(!new)>(c: Codec<M>, mapper: (string, M) -> (bool, M), rows: seq<string>)
    requires Honest(c)
    ensures AllFramable(WrittenPayloads(Run(c, mapper, rows).0))
    decreases |rows|
  {
    if |rows| > 0 {
      var init := rows[..|rows| - 1];
      RunFramable(c, mapper, init);
      var prev := Run(c, mapper, init);
      var step := Step(c, mapper, prev.1, rows[|rows| - 1]);
      assert Run(c, mapper, rows).0[..|rows| - 1] == prev.0;
      var filled := mapper(rows[|rows| - 1], prev.1).1;
      assert step.0.Written? ==> Framable(c.serialize(filled));
      assert WrittenPayloads(Run(c, mapper, rows).0)
        == WrittenPayloads(prev.0) + (if step.0.Written? then [step.0.payload] else []);
    }
  }

  /** One more row: its outcome is the step from the record the earlier rows left. */
  lemma RunSnoc<M>(c: Codec<M>, mapper: (string, M) -> (bool, M), rows: seq<string>, line: string)
    ensures var prev := Run(c, mapper, rows);
      var step := Step(c, mapper, prev.1, line);
      Run(c, mapper, rows + [line]) == (prev.0 + [step.0], step.1)
  {
    assert (rows + [line])[..|rows|] == rows;
  }

  lemma WrittenSnoc(outs: seq<Outcome>, o: Outcome)
    ensures WrittenPayloads(outs + [o]) == WrittenPayloads(outs) + (if o.Written? then [o.payload] else [])
    ensures TallyOf(outs + [o]) == Count(TallyOf(outs), o)
  {
    assert (outs + [o])[..|outs|] == outs;
  }

  // ---------------------------------------------------------------------------
  // Rotation

  /**
   * How the written records are spread over the dump files: each record goes
   * to the current file; when the byte count of that file then exceeds
   * `limit`, a new empty file is started. The last file may stay empty.
   */
  function Plan(ps: seq<Payload>, limit: int, byteCount: seq<byte> -> int): (plan: seq<seq<Payload>>)
    ensures |plan| >= 1
  {
    if |ps| == 0 then [[]]
    else
      var prev := Plan(ps[..|ps| - 1], limit, byteCount);
      var cur := prev[|prev| - 1] + [ps[|ps| - 1]];
      prev[..|prev| - 1] + (if byteCount(Frames(cur)) > limit then [cur, []] else [cur])
  }

  /** The files hold all the records, in order, each exactly once: no record is split or lost. */
  lemma {:induction false} PlanFlatten(ps: seq<Payload>, limit: int, byteCount: seq<byte> -> int)
    ensures Flatten(Plan(ps, limit, byteCount)) == ps
    decreases |ps|
  {
    if |ps| > 0 {
      var init, x := ps[..|ps| - 1], ps[|ps| - 1];
      var prev := Plan(init, limit, byteCount);
      PlanFlatten(init, limit, byteCount);
      var front, last := prev[..|prev| - 1], prev[|prev| - 1];
      assert prev == front + [last];
      FlattenGrowLast(front, last, x);
      assert ps == init + [x];
      var closed := front + [last + [x]];
      if byteCount(Frames(last + [x])) > limit {
        FlattenAppend(closed, []);
        assert closed + [[]] == Plan(ps, limit, byteCount);
      }
    }
  }

  /** A record added to the last file comes last in the flattened archive. */
  lemma FlattenGrowLast(front: seq<seq<Payload>>, last: seq<Payload>, x: Payload)
    ensures Flatten(front + [last + [x]]) == Flatten(front + [last]) + [x]
  {
    FlattenAppend(front, last);
    FlattenAppend(front, last + [x]);
  }

  /**
   * Rotation happens exactly after the record that pushes a file over the
   * limit: a non-empty prefix of a file exceeds the limit if and only if it
   * is the whole of a file that is not the last.
   */
  lemma {:induction false} PlanRotation(ps: seq<Payload>, limit: int, byteCount: seq<byte> -> int)
    ensures forall i, j :: 0 <= i < |Plan(ps, limit, byteCount)| && 0 < j <= |Plan(ps, limit, byteCount)[i]| ==>
      (byteCount(Frames(Plan(ps, limit, byteCount)[i][..j])) > limit <==>
        i < |Plan(ps, limit, byteCount)| - 1 && j == |Plan(ps, limit, byteCount)[i]|)
    decreases |ps|
  {
    if |ps| > 0 {
      var init, x := ps[..|ps| - 1], ps[|ps| - 1];
      var prev := Plan(init, limit, byteCount);
      PlanRotation(init, limit, byteCount);
      var n := |prev| - 1;
      var last := prev[n];
      var cur := last + [x];
      var plan := Plan(ps, limit, byteCount);
      forall i, j | 0 <= i < |plan| && 0 < j <= |plan[i]|
        ensures byteCount(Frames(plan[i][..j])) > limit <==> i < |plan| - 1 && j == |plan[i]|
      {
        if i < n {
          assert plan[i] == prev[i];
        } else if i == n {
          assert plan[i] == cur;
          if j <= |last| {
            assert plan[i][..j] == last[..j];
          } else {
            assert plan[i][..j] == cur;
          }
        }
      }
    }
  }

  /** Every file but the last holds at least one record. */
  lemma {:induction false} PlanNoEmptyFile(ps: seq<Payload>, limit: int, byteCount: seq<byte> -> int)
    ensures forall i :: 0 <= i < |Plan(ps, limit, byteCount)| - 1 ==> Plan(ps, limit, byteCount)[i] != []
    decreases |ps|
  {
    if |ps| > 0 {
      var init := ps[..|ps| - 1];
      var prev := Plan(init, limit, byteCount);
      PlanNoEmptyFile(init, limit, byteCount);
      var plan := Plan(ps, limit, byteCount);
      forall i | 0 <= i < |plan| - 1 ensures plan[i] != [] {
        if i < |prev| - 1 {
          assert plan[i] == prev[i];
        } else {
          assert |plan[i]| > 0;
        }
      }
    }
  }

  /** The files of the plan hold only records from `ps`. */
  lemma {:induction false} PlanFramable(ps: seq<Payload>, limit: int, byteCount: seq<byte> -> int)
    requires AllFramable(ps)
    ensures forall i :: 0 <= i < |Plan(ps, limit, byteCount)| ==> AllFramable(Plan(ps, limit, byteCount)[i])
    decreases |ps|
  {
    if |ps| > 0 {
      var init, x := ps[..|ps| - 1], ps[|ps| - 1];
      assert Framable(x);
      var prev := Plan(init, limit, byteCount);
      PlanFramable(init, limit, byteCount);
      var plan := Plan(ps, limit, byteCount);
      var cur := prev[|prev| - 1] + [x];
      assert AllFramable(cur) by {
        assert AllFramable(prev[|prev| - 1]);
        forall k | 0 <= k < |cur| ensures Framable(cur[k]) {
          if k < |cur| - 1 {
            assert cur[k] == prev[|prev| - 1][k];
          }
        }
      }
      forall i | 0 <= i < |plan| ensures AllFramable(plan[i]) {
        if i < |prev| - 1 {
          assert plan[i] == prev[i];
        } else if i == |prev| - 1 {
          assert plan[i] == cur;
        } else {
          assert plan[i] == [];
        }
      }
    }
  }

  /**
   * The round trip: the dump files written for `ps`, read back one after
   * the other, give exactly the records of `ps`, in order.
   */
  lemma DumpRoundTrip(ps: seq<Payload>, limit: int, byteCount: seq<byte> -> int)
    requires AllFramable(ps)
    ensures DeframeAll(FileContents(Plan(ps, limit, byteCount))) == ps
  {
    PlanFramable(ps, limit, byteCount);
    ArchiveRoundTrip(Plan(ps, limit, byteCount));
    PlanFlatten(ps, limit, byteCount);
  }

  /** One more record: it joins the last file, which is then closed if it went over the limit. */
  lemma PlanSnoc(ps: seq<Payload>, p: Payload, limit: int, byteCount: seq<byte> -> int)
    ensures var prev := Plan(ps, limit, byteCount);
      var cur := prev[|prev| - 1] + [p];
      Plan(ps + [p], limit, byteCount)
        == prev[..|prev| - 1] + (if byteCount(Frames(cur)) > limit then [cur, []] else [cur])
  {
    assert (ps + [p])[..|ps|] == ps;
  }

  /** Every element but the last. */
  function Front<T>(s: seq<T>): seq<T>
    requires |s| > 0
  {
    s[..|s| - 1]
  }

  function Last<T>(s: seq<T>): T
    requires |s| > 0
  {
    s[|s| - 1]
  }

  /** The files an archive of these rows is spread over, and what each holds. */
  function ArchivePlan<M>(c: Codec<M>, mapper: (string, M) -> (bool, M), rows: seq<string>,
                          limit: int, byteCount: seq<byte> -> int): (plan: seq<seq<Payload>>)
    ensures |plan| >= 1
  {
    Plan(WrittenPayloads(Run(c, mapper, rows).0), limit, byteCount)
  }

  lemma FramesSnoc(ps: seq<Payload>, p: Payload)
    ensures Frames(ps + [p]) == Frames(ps) + Encode(|p|) + p
  {
    assert (ps + [p])[..|ps|] == ps;
    assert Frames(ps) + (Encode(|p|) + p) == Frames(ps) + Encode(|p|) + p;
  }

  lemma PrefixGrows<T>(a: seq<T>, b: seq<T>, x: T)
    requires a <= b
    ensures a <= b + [x]
  {
    assert (b + [x])[..|a|] == b[..|a|];
  }

  // ---------------------------------------------------------------------------
  // tsv_to_bgz

  /**
   * The writer's state after `rows`: `log` is the record they left, `counts`
   * their counters; the archive's plan is the closed files `front`, then the
   * open file, which holds `cur` and whose bytes so far are `content`.
   */
  ghost predicate Accounts<M>(c: Codec<M>, mapper: (string, M) -> (bool, M), limit: int, byteCount: seq<byte> -> int,
                              rows: seq<string>, front: seq<seq<Payload>>,
                              log: M, counts: Tally, cur: seq<Payload>, content: seq<byte>)
  {
    && Run(c, mapper, rows).1 == log && TallyOf(Run(c, mapper, rows).0) == counts
    && ArchivePlan(c, mapper, rows, limit, byteCount) == front + [cur]
    && content == Frames(cur)
  }

  /**
   * The inner loop of `tsv_to_bgz` for one open dump file: rows are read,
   * mapped and written until the file goes over the limit (`rotated`) or
   * the input has no line left; then the sentinel is written. `content` is
   * the file's bytes and `cur` the records in it; after a rotation, a new
   * empty file is open.
   */
  method WriteDumpFile<M(!new)>(p: Parser, c: Codec<M>, mapper: (string, M) -> (bool, M),
                                limit: int, byteCount: seq<byte> -> int,
                                log0: M, counts0: Tally, ghost rows0: seq<string>, ghost front: seq<seq<Payload>>)
    returns (log: M, counts: Tally, content: seq<byte>, rotated: bool,
             ghost rows: seq<string>, ghost cur: seq<Payload>)
    requires p.Valid() && Honest(c)
    requires Accounts(c, mapper, limit, byteCount, rows0, front, log0, counts0, [], [])
    requires LinesFit(p.Source) ==> LinesFit(p.Pending()) && Lines(p.Source) == rows0 + Lines(p.Pending())
    modifies p, p.buf
    ensures p.Valid()
    ensures rows0 <= rows
    ensures content == FileBytes(cur)
    ensures rotated ==> Accounts(c, mapper, limit, byteCount, rows, front + [cur], log, counts, [], [])
    ensures !rotated ==> Accounts(c, mapper, limit, byteCount, rows, front, log, counts, cur, Frames(cur))
    ensures LinesFit(p.Source) ==> LinesFit(p.Pending()) && Lines(p.Source) == rows + Lines(p.Pending())
    ensures |p.Pending()| <= old(|p.Pending()|) && (rotated ==> |p.Pending()| < old(|p.Pending()|))
    ensures !rotated ==> '\n' !in p.Pending() && p.input == []
    ensures rotated ==> rows0 < rows && Last(Run(c, mapper, rows).0).Written?
  {
    log, counts, content, rows, cur, rotated := log0, counts0, [], rows0, [], false;
    ghost var pending0 := |p.Pending()|;
    while true
      invariant p.Valid() && !rotated
      invariant rows0 <= rows
      invariant Accounts(c, mapper, limit, byteCount, rows, front, log, counts, cur, content)
      invariant LinesFit(p.Source) ==> LinesFit(p.Pending()) && Lines(p.Source) == rows + Lines(p.Pending())
      invariant |p.Pending()| <= pending0 && (|rows| > |rows0| ==> |p.Pending()| < pending0)
      decreases |p.Pending()|
    {
      ghost var p0 := p.Pending();
      var more, line := NextRow(p);
      LinesTrack(p.Source, rows, p0, if more then [line] else [], p.Pending());
      if !more {
        assert rows + [] == rows;
        break;
      }
      var full;
      ghost var cur1;
      log, counts, content, full, cur1 := HandleRow(c, mapper, limit, byteCount, line, log, counts, content,
                                                    rows, cur, front);
      PrefixGrows(rows0, rows, line);
      assert rows0 < rows + [line];
      rows := rows + [line];
      if full {
        cur, rotated := cur1, true;
        break;
      }
      cur := cur1;
    }
    content := content + Sentinel();
  }

  /**
   * One row of that loop, once `next_line` gave it: the mapper fills the
   * record; a rejected row, a zero and a negative `ByteSize` are counted and
   * skipped; otherwise the record is framed into the file, counted and
   * cleared, and `full` says whether the file went over the limit.
   */
  method HandleRow<M(!new)>(c: Codec<M>, mapper: (string, M) -> (bool, M), limit: int, byteCount: seq<byte> -> int,
                            line: string, log0: M, counts0: Tally, content0: seq<byte>,
                            ghost rows: seq<string>, ghost cur0: seq<Payload>, ghost front: seq<seq<Payload>>)
    returns (log: M, counts: Tally, content: seq<byte>, full: bool, ghost cur: seq<Payload>)
    requires Honest(c)
    requires Accounts(c, mapper, limit, byteCount, rows, front, log0, counts0, cur0, content0)
    ensures full ==> Accounts(c, mapper, limit, byteCount, rows + [line], front + [cur], log, counts, [], [])
    ensures full ==> content == Frames(cur)
    ensures !full ==> Accounts(c, mapper, limit, byteCount, rows + [line], front, log, counts, cur, content)
    ensures full ==> Last(Run(c, mapper, rows + [line]).0).Written?
  {
    RowSnoc(c, mapper, rows, line);
    log, counts, content, full, cur := log0, counts0, content0, false, cur0;
    ghost var outcome := Step(c, mapper, log0, line).0;
    var (accepted, filled) := mapper(line, log);
    log := filled;
    if !accepted {
      assert outcome == Rejected;
      SameArchive(c, mapper, rows, line, limit, byteCount);
      counts := counts.(total := counts.total + 1);
      return;
    }
    var len := c.byteSize(log);
    if len == 0 {
      assert outcome == ZeroLength;
      SameArchive(c, mapper, rows, line, limit, byteCount);
      counts := counts.(total := counts.total + 1, zeroLength := counts.zeroLength + 1);
      return;
    } else if len < 0 {
      assert outcome == InvalidLength;
      SameArchive(c, mapper, rows, line, limit, byteCount);
      counts := counts.(total := counts.total + 1, invalidLength := counts.invalidLength + 1);
      return;
    }
    var buffer := c.serialize(log);
    log := c.empty;
    assert outcome == Written(buffer);
    GrowArchive(c, mapper, rows, line, limit, byteCount, front, cur0);
    FramesSnoc(cur, buffer);
    content := content + Encode(len) + buffer;
    cur := cur + [buffer];
    counts := counts.(total := counts.total + 1, parsed := counts.parsed + 1);
    full := byteCount(content) > limit;
  }

  /** One more row, in terms of the step that handles it: its outcome, the record left, the counters and the records written. */
  lemma RowSnoc<M>(c: Codec<M>, mapper: (string, M) -> (bool, M), rows: seq<string>, line: string)
    ensures var step := Step(c, mapper, Run(c, mapper, rows).1, line);
      && Run(c, mapper, rows + [line]).1 == step.1
      && Last(Run(c, mapper, rows + [line]).0) == step.0
      && WrittenPayloads(Run(c, mapper, rows + [line]).0)
         == WrittenPayloads(Run(c, mapper, rows).0) + (if step.0.Written? then [step.0.payload] else [])
      && TallyOf(Run(c, mapper, rows + [line]).0) == Count(TallyOf(Run(c, mapper, rows).0), step.0)
  {
    var step := Step(c, mapper, Run(c, mapper, rows).1, line);
    RunSnoc(c, mapper, rows, line);
    WrittenSnoc(Run(c, mapper, rows).0, step.0);
  }

  /** A row that writes nothing leaves the archive's plan as it was. */
  lemma SameArchive<M>(c: Codec<M>, mapper: (string, M) -> (bool, M), rows: seq<string>, line: string,
                       limit: int, byteCount: seq<byte> -> int)
    requires !Step(c, mapper, Run(c, mapper, rows).1, line).0.Written?
    ensures ArchivePlan(c, mapper, rows + [line], limit, byteCount) == ArchivePlan(c, mapper, rows, limit, byteCount)
  {
    RowSnoc(c, mapper, rows, line);
    assert WrittenPayloads(Run(c, mapper, rows).0) + [] == WrittenPayloads(Run(c, mapper, rows).0);
  }

  /** A row that writes a record adds it to the last file, which is closed when it went over the limit. */
  lemma GrowArchive<M>(c: Codec<M>, mapper: (string, M) -> (bool, M), rows: seq<string>, line: string,
                       limit: int, byteCount: seq<byte> -> int, front: seq<seq<Payload>>, cur: seq<Payload>)
    requires Step(c, mapper, Run(c, mapper, rows).1, line).0.Written?
    requires ArchivePlan(c, mapper, rows, limit, byteCount) == front + [cur]
    ensures var grown := cur + [Step(c, mapper, Run(c, mapper, rows).1, line).0.payload];
      ArchivePlan(c, mapper, rows + [line], limit, byteCount)
        == front + [grown] + (if byteCount(Frames(grown)) > limit then [[]] else [])
  {
    RowSnoc(c, mapper, rows, line);
    var x := Step(c, mapper, Run(c, mapper, rows).1, line).0.payload;
    var ws := WrittenPayloads(Run(c, mapper, rows).0);
    PlanSnoc(ws, x, limit, byteCount);
    GrowLastFile(Plan(ws, limit, byteCount), front, cur, x, byteCount(Frames(cur + [x])) > limit);
  }

  /** Growing the last file of `front + [cur]` by `x`, and opening a new empty one when `full`. */
  lemma GrowLastFile<T>(prev: seq<seq<T>>, front: seq<seq<T>>, cur: seq<T>, x: T, full: bool)
    requires prev == front + [cur]
    ensures prev[..|prev| - 1] + (if full then [prev[|prev| - 1] + [x], []] else [prev[|prev| - 1] + [x]])
            == front + [cur + [x]] + (if full then [[]] else [])
  {
    assert prev[..|prev| - 1] == front && prev[|prev| - 1] == cur;
    assert front + [cur + [x], []] == front + [cur + [x]] + [[]];
    assert front + [cur + [x]] + [] == front + [cur + [x]];
  }

  /**
   * The dump files opened so far: they are files 0, 1, ... of the archive,
   * none of them failed to open, and file `i` holds the records `done[i]`.
   */
  ghost predicate Opened(prefix: string, suffix: string, unwritable: set<string>,
                         names: seq<string>, files: seq<seq<byte>>, done: seq<seq<Payload>>)
  {
    && names == DumpNames(prefix, suffix, |names|)
    && (forall i :: 0 <= i < |names| ==> names[i] !in unwritable)
    && files == FileContents(done) && |files| == |names|
  }

  lemma OpenedOneMore(prefix: string, suffix: string, unwritable: set<string>,
                      names: seq<string>, files: seq<seq<byte>>, done: seq<seq<Payload>>, cur: seq<Payload>)
    requires Opened(prefix, suffix, unwritable, names, files, done)
    requires DumpName(prefix, |names|, suffix) !in unwritable
    ensures Opened(prefix, suffix, unwritable, names + [DumpName(prefix, |names|, suffix)],
                   files + [FileBytes(cur)], done + [cur])
  {
    FileContentsSnoc(done, cur);
  }

  /** When no file is open, the plan ends in an empty archive after the ones written. */
  lemma StoppedPlan<M>(c: Codec<M>, mapper: (string, M) -> (bool, M), limit: int, byteCount: seq<byte> -> int,
                       rows: seq<string>, done: seq<seq<Payload>>, log: M, counts: Tally)
    requires Accounts(c, mapper, limit, byteCount, rows, done, log, counts, [], [])
    ensures Last(ArchivePlan(c, mapper, rows, limit, byteCount)) == []
    ensures Front(ArchivePlan(c, mapper, rows, limit, byteCount)) == done
  {
    assert ArchivePlan(c, mapper, rows, limit, byteCount) == done + [[]];
  }

  /** What the parser reads of the input file: its content, or nothing when it cannot be opened. */
  function InputText(input: Option<string>): string {
    if input.Some? then input.value else []
  }

  /**
   * `tsv_to_bgz`. `input` is the content of the input file (None when it
   * cannot be opened); opening a dump file fails exactly for the names in
   * `unwritable`; `files` are the contents of the dump files written, in
   * order; `rows` are the lines the mapper was given.
   *
   * On success (`ok`), the files hold the archive's plan of the records
   * written, each followed by its sentinel, and all the input was read; when
   * a dump file cannot be opened, the files written before it are complete
   * and the call stops with the counters reached so far.
   */
  method TsvToBgz<M(!new)>(request: DumpRequest, input: Option<string>, unwritable: set<string>,
                           c: Codec<M>, mapper: (string, M) -> (bool, M), byteCount: seq<byte> -> int)
    returns (ok: bool, result: DumpResult, files: seq<seq<byte>>, ghost rows: seq<string>)
    requires input.Some? ==> NoNul(input.value)
    requires Honest(c)
    ensures result.dumpFiles == DumpNames(StripExtension(request.inputFile), request.dumpFileSuffix, |files|)
    ensures forall i :: 0 <= i < |files| ==> result.dumpFiles[i] !in unwritable
    ensures result.counts == TallyOf(Run(c, mapper, rows).0)
    ensures ok ==> files == FileContents(ArchivePlan(c, mapper, rows, request.eachDumpSize, byteCount))
    ensures ok ==> result.totalRead == |InputText(input)|
    ensures ok && LinesFit(InputText(input)) ==> rows == Lines(InputText(input))
    ensures !ok && LinesFit(InputText(input)) ==> rows <= Lines(InputText(input))
    ensures !ok ==> rows == [] || Last(Run(c, mapper, rows).0).Written?
    ensures !ok ==>
      && DumpName(StripExtension(request.inputFile), |files|, request.dumpFileSuffix) in unwritable
      && Last(ArchivePlan(c, mapper, rows, request.eachDumpSize, byteCount)) == []
      && files == FileContents(Front(ArchivePlan(c, mapper, rows, request.eachDumpSize, byteCount)))
      && result.totalRead == 0
  {
    var p := new Parser(input, '\t');
    var counts, names;
    ok, counts, names, files, rows := DumpAll(p, request.eachDumpSize, StripExtension(request.inputFile),
                                              request.dumpFileSuffix, unwritable, c, mapper, byteCount);
    result := DumpResult(counts, if ok then p.TotalRead() else 0, names);
  }

  /**
   * The outer loop of `tsv_to_bgz` over the reader `p`: dump files are
   * opened in turn and filled, until one cannot be opened (`!ok`) or a file
   * ends without a rotation.
   */
  method DumpAll<M(!new)>(p: Parser, limit: int, prefix: string, suffix: string, unwritable: set<string>,
                          c: Codec<M>, mapper: (string, M) -> (bool, M), byteCount: seq<byte> -> int)
    returns (ok: bool, counts: Tally, names: seq<string>, files: seq<seq<byte>>, ghost rows: seq<string>)
    requires p.Valid() && p.Pending() == p.Source && Honest(c)
    modifies p, p.buf
    ensures p.Valid() && (ok ==> p.input == [])
    ensures Ended(c, mapper, limit, byteCount, prefix, suffix, unwritable, p.Source, ok, rows, names, files, counts)
  {
    var log := c.empty;
    counts := Tally(0, 0, 0, 0);
    names, files, rows := [], [], [];
    ghost var done: seq<seq<Payload>> := [];
    NothingDumped(c, mapper, limit, byteCount, prefix, suffix, unwritable, p.Source);
    while true
      invariant p.Valid()
      invariant Progress(c, mapper, limit, byteCount, prefix, suffix, unwritable, p.Source, p.Pending(),
                         rows, names, files, done, log, counts)
      decreases |p.Pending()|
    {
      var stop;
      stop, ok, log, counts, names, files, rows, done :=
        DumpNext(p, c, mapper, limit, byteCount, prefix, suffix, unwritable, names, files, done, log, counts, rows);
      if stop {
        return;
      }
    }
  }

  /**
   * The state of the outer loop between two dump files: the files opened so
   * far hold the finished archives `done`, the writer's state accounts for
   * the rows read, which are the first lines of the input, and the last of
   * them (if any) wrote the record that caused the last rotation.
   */
  ghost predicate Progress<M>(c: Codec<M>, mapper: (string, M) -> (bool, M), limit: int, byteCount: seq<byte> -> int,
                              prefix: string, suffix: string, unwritable: set<string>, source: string, pending: string,
                              rows: seq<string>, names: seq<string>, files: seq<seq<byte>>, done: seq<seq<Payload>>,
                              log: M, counts: Tally)
  {
    && Opened(prefix, suffix, unwritable, names, files, done)
    && Accounts(c, mapper, limit, byteCount, rows, done, log, counts, [], [])
    && (LinesFit(source) ==> LinesFit(pending) && Lines(source) == rows + Lines(pending))
    && (rows == [] || Last(Run(c, mapper, rows).0).Written?)
  }

  /** Before the first dump file, nothing is read and nothing is written. */
  lemma NothingDumped<M>(c: Codec<M>, mapper: (string, M) -> (bool, M), limit: int, byteCount: seq<byte> -> int,
                         prefix: string, suffix: string, unwritable: set<string>, source: string)
    ensures Progress(c, mapper, limit, byteCount, prefix, suffix, unwritable, source, source,
                     [], [], [], [], c.empty, Tally(0, 0, 0, 0))
  {
    assert Lines(source) == [] + Lines(source);
    assert ArchivePlan(c, mapper, [], limit, byteCount) == [] + [[]];
  }

  /**
   * How the outer loop ends: the names are those of the files written, none
   * of which failed to open, and the counters account for the rows read.
   * A run that wrote every dump file (`ok`) wrote the whole plan and read
   * every line; a run stopped because the next dump file cannot be opened
   * read the first lines, ending with the one whose record caused the last
   * rotation, and the plan's last file is that empty one, the files before
   * it complete.
   */
  ghost predicate Ended<M>(c: Codec<M>, mapper: (string, M) -> (bool, M), limit: int, byteCount: seq<byte> -> int,
                           prefix: string, suffix: string, unwritable: set<string>, source: string,
                           ok: bool, rows: seq<string>, names: seq<string>, files: seq<seq<byte>>, counts: Tally)
  {
    && names == DumpNames(prefix, suffix, |files|)
    && (forall i :: 0 <= i < |files| ==> names[i] !in unwritable)
    && counts == TallyOf(Run(c, mapper, rows).0)
    && (ok ==>
          && files == FileContents(ArchivePlan(c, mapper, rows, limit, byteCount))
          && (LinesFit(source) ==> rows == Lines(source)))
    && (!ok ==>
          && (LinesFit(source) ==> rows <= Lines(source))
          && (rows == [] || Last(Run(c, mapper, rows).0).Written?)
          && DumpName(prefix, |files|, suffix) in unwritable
          && Last(ArchivePlan(c, mapper, rows, limit, byteCount)) == []
          && files == FileContents(Front(ArchivePlan(c, mapper, rows, limit, byteCount))))
  }

  /**
   * One turn of the outer loop of `tsv_to_bgz`: the next dump file is
   * opened and written. The loop goes on (`!stop`) after a rotation, having
   * read at least one more line; it stops when the file cannot be opened
   * (`!ok`) or the input is used up.
   */
  method DumpNext<M(!new)>(p: Parser, c: Codec<M>, mapper: (string, M) -> (bool, M),
                           limit: int, byteCount: seq<byte> -> int, prefix: string, suffix: string,
                           unwritable: set<string>, names0: seq<string>, files0: seq<seq<byte>>,
                           ghost done0: seq<seq<Payload>>, log0: M, counts0: Tally, ghost rows0: seq<string>)
    returns (stop: bool, ok: bool, log: M, counts: Tally, names: seq<string>, files: seq<seq<byte>>,
             ghost rows: seq<string>, ghost done: seq<seq<Payload>>)
    requires p.Valid() && Honest(c)
    requires Progress(c, mapper, limit, byteCount, prefix, suffix, unwritable, p.Source, p.Pending(),
                      rows0, names0, files0, done0, log0, counts0)
    modifies p, p.buf
    ensures p.Valid()
    ensures !stop ==> |p.Pending()| < old(|p.Pending()|)
    ensures !stop ==> Progress(c, mapper, limit, byteCount, prefix, suffix, unwritable, p.Source, p.Pending(),
                               rows, names, files, done, log, counts)
    ensures stop ==> (ok ==> p.input == [])
    ensures stop ==> Ended(c, mapper, limit, byteCount, prefix, suffix, unwritable, p.Source, ok, rows, names, files, counts)
  {
    var name := DumpName(prefix, |names0|, suffix);
    if name in unwritable {
      StopAt(c, mapper, limit, byteCount, prefix, suffix, unwritable, p.Source, p.Pending(),
             rows0, names0, files0, done0, log0, counts0);
      return true, false, log0, counts0, names0, files0, rows0, done0;
    }
    var content, rotated;
    ghost var cur;
    log, counts, content, rotated, rows, cur := WriteDumpFile(p, c, mapper, limit, byteCount, log0, counts0, rows0, done0);
    OpenedOneMore(prefix, suffix, unwritable, names0, files0, done0, cur);
    names, files, done := names0 + [name], files0 + [content], done0 + [cur];
    stop, ok := !rotated, true;
    if stop {
      FinishAt(c, mapper, limit, byteCount, prefix, suffix, unwritable, p.Source, p.Pending(),
               rows, names, files, done, counts);
    }
  }

  /** The outer loop stops at a dump file that cannot be opened. */
  lemma StopAt<M>(c: Codec<M>, mapper: (string, M) -> (bool, M), limit: int, byteCount: seq<byte> -> int,
                  prefix: string, suffix: string, unwritable: set<string>, source: string, pending: string,
                  rows: seq<string>, names: seq<string>, files: seq<seq<byte>>, done: seq<seq<Payload>>,
                  log: M, counts: Tally)
    requires Progress(c, mapper, limit, byteCount, prefix, suffix, unwritable, source, pending,
                      rows, names, files, done, log, counts)
    requires DumpName(prefix, |names|, suffix) in unwritable
    ensures Ended(c, mapper, limit, byteCount, prefix, suffix, unwritable, source, false, rows, names, files, counts)
  {
    assert LinesFit(source) ==> rows <= rows + Lines(pending);
    StoppedPlan(c, mapper, limit, byteCount, rows, done, log, counts);
  }

  /** The outer loop stops after a dump file that did not go over the limit, with no line left. */
  lemma FinishAt<M>(c: Codec<M>, mapper: (string, M) -> (bool, M), limit: int, byteCount: seq<byte> -> int,
                    prefix: string, suffix: string, unwritable: set<string>, source: string, pending: string,
                    rows: seq<string>, names: seq<string>, files: seq<seq<byte>>, done: seq<seq<Payload>>,
                    counts: Tally)
    requires Opened(prefix, suffix, unwritable, names, files, done)
    requires done == ArchivePlan(c, mapper, rows, limit, byteCount)
    requires counts == TallyOf(Run(c, mapper, rows).0)
    requires '\n' !in pending
    requires LinesFit(source) ==> Lines(source) == rows + Lines(pending)
    ensures Ended(c, mapper, limit, byteCount, prefix, suffix, unwritable, source, true, rows, names, files, counts)
  {
    assert Lines(pending) == [];
    assert rows + [] == rows;
  }

  /**
   * What `tsv_to_bgz` returns as it stands: false when a dump file cannot be
   * opened, and otherwise `dump_files.empty()`.
   */
  function ReturnedAsWritten(ok: bool, result: DumpResult): bool {
    if !ok then false else |result.dumpFiles| == 0
  }

  /**
   * A run that opened every file it needed has opened at least one, so the
   * value returned as written is false on success as well as on failure.
   */
  lemma ReturnedAsWrittenIsFalse(ok: bool, result: DumpResult, files: seq<seq<byte>>,
                                 ps: seq<Payload>, limit: int, byteCount: seq<byte> -> int)
    requires ok ==> files == FileContents(Plan(ps, limit, byteCount)) && |result.dumpFiles| == |files|
    ensures !ReturnedAsWritten(ok, result)
  {
    if ok {
      assert |files| == |Plan(ps, limit, byteCount)| >= 1;
    }
  }

  // ---------------------------------------------------------------------------
  // bgz_foreach

  /**
   * The inner loop of `bgz_foreach` over the (decompressed) bytes `s` of one
   * dump file: the records handed to the executor, in order.
   */
  method ReadDumpFile(s: seq<byte>) returns (records: seq<Payload>)
    ensures records == Deframe(s)
  {
    records := [];
    var rest := s;
    while true
      invariant records + Deframe(rest) == Deframe(s)
      decreases |rest|
    {
      var read := ReadVarint32(rest);
      if read.None? || read.value.0 == 0 {
        DeframeEnd(rest);
        assert records + [] == records;
        break;
      }
      var len, k := read.value.0, read.value.1;
      if k + len <= |rest| {
        var record := rest[k..k + len];
        DeframeNext(rest);
        assert records + ([record] + Deframe(rest[k + len..])) == (records + [record]) + Deframe(rest[k + len..]);
        records := records + [record];
        rest := rest[k + len..];
      } else {
        // The frame runs past the end of the data: what is there is handed
        // over, and the next varint read fails.
        DeframeCut(rest);
        records := records + [rest[k..]];
        break;
      }
    }
  }

  lemma DeframeEnd(t: seq<byte>)
    requires ReadVarint32(t).None? || ReadVarint32(t).value.0 == 0
    ensures Deframe(t) == []
  {
  }

  /** A whole frame at the front: its record, then the frames after it. */
  lemma DeframeNext(t: seq<byte>)
    requires ReadVarint32(t).Some?
    requires ReadVarint32(t).value.0 > 0 && ReadVarint32(t).value.1 + ReadVarint32(t).value.0 <= |t|
    ensures var (len, k) := ReadVarint32(t).value;
      Deframe(t) == [t[k..k + len]] + Deframe(t[k + len..])
  {
  }

  /** A frame cut short: the bytes that are there, and nothing after. */
  lemma DeframeCut(t: seq<byte>)
    requires ReadVarint32(t).Some?
    requires ReadVarint32(t).value.0 > 0 && ReadVarint32(t).value.1 + ReadVarint32(t).value.0 > |t|
    ensures Deframe(t) == [t[ReadVarint32(t).value.1..]]
  {
  }

  /** The bytes of the named files, in order. */
  function Contents(names: seq<string>, disk: map<string, seq<byte>>): (files: seq<seq<byte>>)
    requires forall i :: 0 <= i < |names| ==> names[i] in disk
    ensures |files| == |names|
    ensures forall i :: 0 <= i < |names| ==> files[i] == disk[names[i]]
  {
    seq(|names|, i requires 0 <= i < |names| => disk[names[i]])
  }

  /**
   * `bgz_foreach`. `disk` maps the names that can be opened to their
   * decompressed bytes; `delivered` are the records handed to the executor,
   * in order. Files are read in the given order; the first one that cannot
   * be opened stops the call with false.
   */
  method BgzForeach(dumpFiles: seq<string>, disk: map<string, seq<byte>>)
    returns (ok: bool, result: ForeachResult, delivered: seq<Payload>)
    ensures result.readFiles <= dumpFiles
    ensures forall i :: 0 <= i < |result.readFiles| ==> result.readFiles[i] in disk
    ensures ok <==> |result.readFiles| == |dumpFiles|
    ensures !ok ==> dumpFiles[|result.readFiles|] !in disk
    ensures delivered == DeframeAll(Contents(result.readFiles, disk))
    ensures result.readCount == |delivered|
  {
    result := ForeachResult(0, []);
    delivered := [];
    var n := 0;
    while n < |dumpFiles|
      invariant n <= |dumpFiles| && result.readFiles == dumpFiles[..n]
      invariant forall i :: 0 <= i < n ==> dumpFiles[i] in disk
      invariant delivered == DeframeAll(Contents(result.readFiles, disk))
      invariant result.readCount == |delivered|
    {
      var dumpFile := dumpFiles[n];
      if dumpFile !in disk {
        ok := false;
        return;
      }
      ReadOneMore(result.readFiles, disk, dumpFile);
      result := result.(readFiles := result.readFiles + [dumpFile]);
      var records := ReadDumpFile(disk[dumpFile]);
      delivered := delivered + records;
      result := result.(readCount := result.readCount + |records|);
      n := n + 1;
      assert dumpFiles[..n] == dumpFiles[..n - 1] + [dumpFile];
    }
    ok := true;
    assert dumpFiles[..n] == dumpFiles;
  }

  /** Reading one more file delivers its records after those of the files read before. */
  lemma ReadOneMore(names: seq<string>, disk: map<string, seq<byte>>, name: string)
    requires forall i :: 0 <= i < |names| ==> names[i] in disk
    requires name in disk
    ensures DeframeAll(Contents(names + [name], disk)) == DeframeAll(Contents(names, disk)) + Deframe(disk[name])
  {
    assert Contents(names + [name], disk)[..|names|] == Contents(names, disk);
  }

  // ---------------------------------------------------------------------------
  // Writing, finding and reading an archive

  /** A directory holding just the files of one archive: file `i` under the name of dump file `i`. */
  function Directory(names: seq<string>, files: seq<seq<byte>>): (disk: map<string, seq<byte>>)
    requires |names| == |files|
    requires forall i, j :: 0 <= i < j < |names| ==> names[i] != names[j]
    ensures disk.Keys == set i | 0 <= i < |names| :: names[i]
    ensures forall i :: 0 <= i < |names| ==> disk[names[i]] == files[i]
  {
    map i | 0 <= i < |names| :: names[i] := files[i]
  }

  /** Different indices give different names, so the names of an archive are all distinct. */
  lemma DumpNamesDistinct(prefix: string, suffix: string, n: nat)
    ensures forall i, j :: 0 <= i < j < n ==> DumpNames(prefix, suffix, n)[i] != DumpNames(prefix, suffix, n)[j]
  {
    forall i, j | 0 <= i < j < n
      ensures DumpNames(prefix, suffix, n)[i] != DumpNames(prefix, suffix, n)[j]
    {
      if DumpName(prefix, i, suffix) == DumpName(prefix, j, suffix) {
        DumpNameInjective(prefix, suffix, i, j);
      }
    }
  }

  /** In a directory holding exactly the files 0 .. n-1 of an archive, discovery finds exactly those. */
  lemma FindsAll(prefix: string, suffix: string, n: nat, found: seq<string>, existing: set<string>)
    requires existing == set i | 0 <= i < n :: DumpName(prefix, i, suffix)
    requires found == DumpNames(prefix, suffix, |found|)
    requires forall j :: 0 <= j < |found| ==> found[j] in existing
    requires DumpName(prefix, |found|, suffix) !in existing
    ensures found == DumpNames(prefix, suffix, n)
  {
    if |found| < n {
      assert false;
    } else if |found| > n {
      assert found[n] in existing;
      var i :| 0 <= i < n && DumpName(prefix, i, suffix) == found[n];
      DumpNameInjective(prefix, suffix, i, n);
    }
  }

  /**
   * Reading back an archive from a directory that holds just its files:
   * discovery finds all of them, in order, and every record in them is
   * handed to the executor.
   */
  method FindAndRead(prefix: string, suffix: string, names: seq<string>, files: seq<seq<byte>>)
    returns (found: seq<string>, readBack: ForeachResult, delivered: seq<Payload>)
    requires names == DumpNames(prefix, suffix, |files|)
    ensures found == names && readBack.readFiles == names
    ensures delivered == DeframeAll(files) && readBack.readCount == |delivered|
  {
    DumpNamesDistinct(prefix, suffix, |files|);
    var disk := Directory(names, files);
    ArchiveDirectory(prefix, suffix, names, files);
    found := FindDumpFiles(prefix, suffix, disk.Keys);
    FindsAll(prefix, suffix, |files|, found, disk.Keys);
    var allRead;
    allRead, readBack, delivered := BgzForeach(found, disk);
  }

  /** The directory of an archive: its names are those of files 0 .. n-1, and reading them all gives the files back. */
  lemma ArchiveDirectory(prefix: string, suffix: string, names: seq<string>, files: seq<seq<byte>>)
    requires names == DumpNames(prefix, suffix, |files|)
    requires forall i, j :: 0 <= i < j < |names| ==> names[i] != names[j]
    ensures Directory(names, files).Keys == set i | 0 <= i < |files| :: DumpName(prefix, i, suffix)
    ensures Contents(names, Directory(names, files)) == files
  {
  }

  /** The records written by a run, read back from the files of its plan, are the records written, `parsed_count` of them. */
  lemma RunRoundTrip<M(!new)>(c: Codec<M>, mapper: (string, M) -> (bool, M), rows: seq<string>,
                              limit: int, byteCount: seq<byte> -> int)
    requires Honest(c)
    ensures DeframeAll(FileContents(ArchivePlan(c, mapper, rows, limit, byteCount)))
      == WrittenPayloads(Run(c, mapper, rows).0)
    ensures |WrittenPayloads(Run(c, mapper, rows).0)| == TallyOf(Run(c, mapper, rows).0).parsed
  {
    RunFramable(c, mapper, rows);
    DumpRoundTrip(WrittenPayloads(Run(c, mapper, rows).0), limit, byteCount);
    TallyPartition(Run(c, mapper, rows).0);
  }

  /**
   * The whole cycle: `tsv_to_bgz` writes an archive into a directory where
   * every name can be created, `find_dump_files` finds its files again and
   * `bgz_foreach` reads them. The executor receives exactly the records
   * written, in order, and as many as `parsed_count` says.
   */
  method DumpThenRead<M(!new)>(request: DumpRequest, input: Option<string>,
                               c: Codec<M>, mapper: (string, M) -> (bool, M), byteCount: seq<byte> -> int)
    returns (result: DumpResult, readBack: ForeachResult, delivered: seq<Payload>, ghost rows: seq<string>)
    requires input.Some? ==> NoNul(input.value)
    requires Honest(c)
    ensures delivered == WrittenPayloads(Run(c, mapper, rows).0)
    ensures readBack.readCount == result.counts.parsed
    ensures readBack.readFiles == result.dumpFiles
    ensures result.counts == TallyOf(Run(c, mapper, rows).0)
    ensures LinesFit(InputText(input)) ==> rows == Lines(InputText(input))
  {
    var ok, files;
    ok, result, files, rows := TsvToBgz(request, input, {}, c, mapper, byteCount);
    var found;
    found, readBack, delivered := FindAndRead(StripExtension(request.inputFile), request.dumpFileSuffix,
                                              result.dumpFiles, files);
    RunRoundTrip(c, mapper, rows, request.eachDumpSize, byteCount);
  }
}
