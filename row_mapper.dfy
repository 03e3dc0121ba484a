/**
 * Row mappers written with `PROTODUMP_begin`, `PROTODUMP_req`,
 * `PROTODUMP_opt` and `PROTODUMP_end`: a list of record fields, each taken
 * from the next field of the line and converted to its type. A required
 * field with no line field left rejects the row; an optional one is then
 * skipped.
 */
module RowMapper {
  import opened Common
  import opened TsvParser
  import opened TsvBuffer
  import opened Framing
  import opened Protodump

  /** One `PROTODUMP_req(name, type)` or `PROTODUMP_opt(name, type)` line. */
  datatype FieldSpec = FieldSpec(name: string, kind: Kind, required: bool)

  type Schema = seq<FieldSpec>

  /** A record as its setters leave it: the value last set for each field name. */
  type Record = map<string, Value>

  /**
   * The mapper over the fields still on the line: each spec takes the next
   * field, if there is one, and sets its record field (`set_<name>`); a
   * required spec that finds none stops the mapper with false, leaving the
   * fields set so far in the record.
   */
  function ApplySchema(schema: Schema, fields: seq<string>, log: Record): (bool, Record)
    decreases |schema|
  {
    if |schema| == 0 then (true, log)
    else if |fields| == 0 then
      if schema[0].required then (false, log) else ApplySchema(schema[1..], fields, log)
    else ApplySchema(schema[1..], fields[1..], log[schema[0].name := Val(schema[0].kind, fields[0])])
  }

  /** The record fields the mapper sets: one per spec, for as many specs as the line has fields. */
  function SetNames(schema: Schema, n: nat): set<string> {
    set j | 0 <= j < |schema| && j < n :: schema[j].name
  }

  /** The line fields the mapper consumes. */
  function Taken(schema: Schema, fields: seq<string>): (k: nat)
    ensures k <= |fields| && k <= |schema|
  {
    if |schema| < |fields| then |schema| else |fields|
  }

  /** A row is accepted exactly when every required spec has a field of its own: spec `j` takes field `j`. */
  lemma {:induction false} SchemaAccepts(schema: Schema, fields: seq<string>, log: Record)
    ensures ApplySchema(schema, fields, log).0
      <==> forall j :: 0 <= j < |schema| && schema[j].required ==> j < |fields|
    decreases |schema|
  {
    if |schema| > 0 {
      var rest := if |fields| == 0 then fields else fields[1..];
      var next := if |fields| == 0 then log else log[schema[0].name := Val(schema[0].kind, fields[0])];
      SchemaAccepts(schema[1..], rest, next);
      if |fields| > 0 || !schema[0].required {
        assert forall j :: 1 <= j < |schema| ==> schema[1..][j - 1] == schema[j];
        if forall j :: 0 <= j < |schema| && schema[j].required ==> j < |fields| {
          assert forall j :: 0 <= j < |schema| - 1 && schema[1..][j].required ==> j < |rest|;
        }
        if forall j :: 0 <= j < |schema| - 1 && schema[1..][j].required ==> j < |rest| {
          forall j | 0 <= j < |schema| && schema[j].required ensures j < |fields| {
            if j > 0 {
              assert schema[1..][j - 1].required;
            }
          }
        }
      }
    }
  }

  /**
   * With distinct field names, spec `j` sets its record field to field `j`
   * converted to its type, for every spec that has a field, whether the row
   * is accepted or not.
   */
  lemma {:induction false} SchemaSets(schema: Schema, fields: seq<string>, log: Record)
    requires forall i, j :: 0 <= i < j < |schema| ==> schema[i].name != schema[j].name
    ensures forall j :: 0 <= j < |schema| && j < |fields| ==>
      schema[j].name in ApplySchema(schema, fields, log).1
      && ApplySchema(schema, fields, log).1[schema[j].name] == Val(schema[j].kind, fields[j])
    decreases |schema|
  {
    if |schema| > 0 && |fields| > 0 {
      var next := log[schema[0].name := Val(schema[0].kind, fields[0])];
      var r := ApplySchema(schema, fields, log).1;
      assert r == ApplySchema(schema[1..], fields[1..], next).1;
      SchemaSets(schema[1..], fields[1..], next);
      SchemaKeeps(schema[1..], fields[1..], next);
      assert schema[0].name !in SetNames(schema[1..], |fields| - 1);
      forall j | 0 <= j < |schema| && j < |fields|
        ensures schema[j].name in r && r[schema[j].name] == Val(schema[j].kind, fields[j])
      {
        if j > 0 {
          assert schema[1..][j - 1] == schema[j] && fields[1..][j - 1] == fields[j];
        }
      }
    }
  }

  /** The mapper sets only the fields of the specs that have a line field; every other record field keeps its value. */
  lemma {:induction false} SchemaKeeps(schema: Schema, fields: seq<string>, log: Record)
    ensures ApplySchema(schema, fields, log).1.Keys == log.Keys + SetNames(schema, |fields|)
    ensures forall k :: k in log && k !in SetNames(schema, |fields|) ==> ApplySchema(schema, fields, log).1[k] == log[k]
    decreases |schema|
  {
    if |schema| > 0 {
      if |fields| == 0 {
        SchemaKeeps(schema[1..], fields, log);
        assert SetNames(schema, 0) == {} && SetNames(schema[1..], 0) == {};
      } else {
        var next := log[schema[0].name := Val(schema[0].kind, fields[0])];
        SchemaKeeps(schema[1..], fields[1..], next);
        assert SetNames(schema, |fields|) == {schema[0].name} + SetNames(schema[1..], |fields| - 1) by {
          forall x | x in SetNames(schema, |fields|) ensures x in {schema[0].name} + SetNames(schema[1..], |fields| - 1) {
            var j :| 0 <= j < |schema| && j < |fields| && schema[j].name == x;
            if j > 0 {
              assert schema[1..][j - 1].name == x;
            }
          }
          forall x | x in SetNames(schema[1..], |fields| - 1) ensures x in SetNames(schema, |fields|) {
            var j :| 0 <= j < |schema| - 1 && j < |fields| - 1 && schema[1..][j].name == x;
            assert schema[j + 1].name == x;
          }
        }
      }
    }
  }

  /** A rejected row has used up every field of its line. */
  lemma {:induction false} RejectedUsesAll(schema: Schema, fields: seq<string>, log: Record)
    requires !ApplySchema(schema, fields, log).0
    ensures |fields| < |schema| && Taken(schema, fields) == |fields|
    decreases |schema|
  {
    if |fields| > 0 {
      RejectedUsesAll(schema[1..], fields[1..], log[schema[0].name := Val(schema[0].kind, fields[0])]);
    } else if !schema[0].required {
      RejectedUsesAll(schema[1..], fields, log);
    }
  }

  /**
   * One `PROTODUMP_req` or `PROTODUMP_opt` line on the current row: with a
   * field left it sets the record field to that field, converted; without
   * one, a required spec stops the mapper and an optional one does nothing.
   */
  method MapField(p: Parser, spec: FieldSpec, log0: Record) returns (ok: bool, log: Record)
    requires p.Valid() && p.onLine
    modifies p`fieldPos, p.buf
    ensures p.Valid() && p.onLine
    ensures ok <==> old(p.RemainingFields()) != [] || !spec.required
    ensures old(p.RemainingFields()) == [] ==> log == log0 && p.RemainingFields() == []
    ensures old(p.RemainingFields()) != [] ==>
      && log == log0[spec.name := Val(spec.kind, old(p.RemainingFields())[0])]
      && p.RemainingFields() == old(p.RemainingFields())[1..]
  {
    ok, log := true, log0;
    if p.HasMoreField() {
      var v := p.NextField(spec.kind);
      log := log[spec.name := v];
    } else if spec.required {
      ok := false;
    }
  }

  /**
   * A mapper `PROTODUMP_begin(type) ... PROTODUMP_end()` run on the current
   * line: its result and the record it leaves are those of `ApplySchema` on
   * the line's fields, and it consumes one field per spec, as far as they go.
   */
  method MapRow(p: Parser, schema: Schema, log0: Record) returns (accepted: bool, log: Record)
    requires p.Valid() && p.onLine
    modifies p`fieldPos, p.buf
    ensures p.Valid() && p.onLine
    ensures (accepted, log) == ApplySchema(schema, old(p.RemainingFields()), log0)
    ensures p.RemainingFields() == old(p.RemainingFields())[Taken(schema, old(p.RemainingFields()))..]
  {
    ghost var fields := p.RemainingFields();
    ghost var t := 0;
    log := log0;
    var i := 0;
    while i < |schema|
      invariant i <= |schema| && p.Valid() && p.onLine
      invariant ApplySchema(schema[i..], p.RemainingFields(), log) == ApplySchema(schema, fields, log0)
      invariant t == if i < |fields| then i else |fields|
      invariant p.RemainingFields() == fields[t..]
    {
      assert schema[i..][0] == schema[i] && schema[i..][1..] == schema[i + 1..];
      var ok;
      ok, log := MapField(p, schema[i], log);
      if !ok {
        accepted := false;
        assert Taken(schema, fields) == |fields| by {
          RejectedUsesAll(schema, fields, log0);
        }
        return;
      }
      if t < |fields| {
        assert fields[t..][1..] == fields[t + 1..];
        t := t + 1;
      }
      i := i + 1;
    }
    // PROTODUMP_end
    accepted := true;
    assert schema[i..] == [];
  }

  /** The mapper as a function of the current line, as the dump writer applies it. */
  function SchemaMapper(schema: Schema): (string, Record) -> (bool, Record) {
    (line: string, log: Record) => ApplySchema(schema, Fields(line), log)
  }

  // ---------------------------------------------------------------------------
  // Two rows through a three-field mapper

  /** Three required text fields. */
  function ThreeTexts(): Schema {
    [FieldSpec("x", TextKind, true), FieldSpec("y", TextKind, true), FieldSpec("z", TextKind, true)]
  }

  /** A record type whose records serialize to one byte each as soon as a field is set. */
  function OneByteCodec(): (c: Codec<Record>)
    ensures Honest(c)
  {
    Codec(map[], (m: Record) => if |m| == 0 then 0 else 1, (m: Record) => if |m| == 0 then [] else [1])
  }

  /** Text that can be one field of a line. */
  predicate Plain(f: string) {
    '\t' !in f && '\n' !in f
  }

  /**
   * The lines `a\tb\tc` and `a\tb` through a mapper that requires three
   * text fields: the first row is written with the fields `a`, `b` and `c`;
   * the second is rejected for want of its third field; two rows are
   * counted, one of them parsed.
   */
  lemma ThreeFieldScenario(a: string, b: string, c: string)
    requires Plain(a) && Plain(b) && Plain(c) && |b| > 0 && |c| > 0
    ensures Lines(a + "\t" + b + "\t" + c + "\n" + a + "\t" + b + "\n") == [a + "\t" + b + "\t" + c, a + "\t" + b]
    ensures ApplySchema(ThreeTexts(), Fields(a + "\t" + b + "\t" + c), map[])
      == (true, map["x" := TextVal(a), "y" := TextVal(b), "z" := TextVal(c)])
    ensures !ApplySchema(ThreeTexts(), Fields(a + "\t" + b), map[]).0
    ensures TallyOf(Run(OneByteCodec(), SchemaMapper(ThreeTexts()), [a + "\t" + b + "\t" + c, a + "\t" + b]).0)
      == Tally(2, 1, 0, 0)
  {
    var l1, l2 := a + "\t" + b + "\t" + c, a + "\t" + b;
    TwoRows(a, b, c);
    FieldsOfThree(a, b, c);
    FieldsOfTwo(a, b);
    var full := map["x" := TextVal(a), "y" := TextVal(b), "z" := TextVal(c)];
    FirstRowWritten(a, b, c);
    SecondRowRejected(a, b);
    ScenarioTally(l1, l2, full);
  }

  lemma TwoRows(a: string, b: string, c: string)
    requires Plain(a) && Plain(b) && Plain(c)
    ensures Lines(a + "\t" + b + "\t" + c + "\n" + a + "\t" + b + "\n") == [a + "\t" + b + "\t" + c, a + "\t" + b]
  {
    var l1, l2 := a + "\t" + b + "\t" + c, a + "\t" + b;
    assert '\n' !in l1 && '\n' !in l2;
    var text := a + "\t" + b + "\t" + c + "\n" + a + "\t" + b + "\n";
    assert text == l1 + "\n" + (l2 + "\n");
    LinesCons(l1, l2 + "\n");
    LinesCons(l2, "");
    assert l2 + "\n" == l2 + "\n" + "";
    assert Lines("") == [];
  }

  lemma FirstRowWritten(a: string, b: string, c: string)
    ensures ApplySchema(ThreeTexts(), [a, b, c], map[]) == (true, map["x" := TextVal(a), "y" := TextVal(b), "z" := TextVal(c)])
  {
    var schema := ThreeTexts();
    var r := ApplySchema(schema, [a, b, c], map[]);
    SchemaSets(schema, [a, b, c], map[]);
    SchemaKeeps(schema, [a, b, c], map[]);
    SchemaAccepts(schema, [a, b, c], map[]);
    assert SetNames(schema, 3) == {"x", "y", "z"} by {
      assert schema[0].name == "x" && schema[1].name == "y" && schema[2].name == "z";
    }
    assert r.1 == map["x" := TextVal(a), "y" := TextVal(b), "z" := TextVal(c)];
  }

  lemma SecondRowRejected(a: string, b: string)
    ensures !ApplySchema(ThreeTexts(), [a, b], map[]).0
  {
    SchemaAccepts(ThreeTexts(), [a, b], map[]);
    assert ThreeTexts()[2].required;
  }

  /** The run of the two rows, given what the mapper makes of each. */
  lemma ScenarioTally(l1: string, l2: string, full: Record)
    requires ApplySchema(ThreeTexts(), Fields(l1), map[]) == (true, full) && |full| > 0
    requires !ApplySchema(ThreeTexts(), Fields(l2), map[]).0
    ensures TallyOf(Run(OneByteCodec(), SchemaMapper(ThreeTexts()), [l1, l2]).0) == Tally(2, 1, 0, 0)
  {
    var c, m := OneByteCodec(), SchemaMapper(ThreeTexts());
    var rows := [l1, l2];
    var o1 := FirstOutcome(l1, full);
    assert Step(c, m, o1, rows[1]).0 == Rejected;
    assert rows[..1] == [l1];
    TallyOfTwo([1]);
  }

  /** The first row alone: one record of one byte written, and the empty record to fill next. */
  lemma FirstOutcome(l1: string, full: Record) returns (left: Record)
    requires ApplySchema(ThreeTexts(), Fields(l1), map[]) == (true, full) && |full| > 0
    ensures Run(OneByteCodec(), SchemaMapper(ThreeTexts()), [l1]) == ([Written([1])], left)
  {
    var c, m := OneByteCodec(), SchemaMapper(ThreeTexts());
    var rows := [l1];
    assert rows[..0] == [];
    assert c.empty == map[];
    assert m(rows[0], c.empty) == (true, full);
    assert c.byteSize(full) == 1 && c.serialize(full) == [1];
    var step := Step(c, m, c.empty, rows[0]);
    assert step == (Written([1]), c.empty);
    assert Run(c, m, rows) == ([] + [step.0], step.1);
    assert [] + [step.0] == [Written([1])];
    left := c.empty;
  }

  lemma TallyOfTwo(p: Payload)
    ensures TallyOf([Written(p), Rejected]) == Tally(2, 1, 0, 0)
  {
    assert [Written(p), Rejected][..1] == [Written(p)];
    assert [Written(p)][..0] == [];
    assert TallyOf([Written(p)]) == Tally(1, 1, 0, 0);
  }

  /** A line and its terminator in front of `rest`. */
  lemma LinesCons(l: string, rest: string)
    requires '\n' !in l
    ensures Lines(l + "\n" + rest) == [l] + Lines(rest)
  {
    var s := l + "\n" + rest;
    NewlineAtIs(s, |l|);
    assert s[..|l|] == l;
    assert s[|l| + 1..] == rest;
    LinesStep(s);
  }

  /** A field and its tab in front of `rest`. */
  lemma FieldsCons(f: string, rest: string)
    requires '\t' !in f
    ensures Fields(f + "\t" + rest) == [f] + Fields(rest)
  {
    var t := f + "\t" + rest;
    TabAtIs(t, |f|);
    assert t[..|f|] == f;
    assert t[|f| + 1..] == rest;
    CutField(t, |f|, rest);
  }

  /** A last field, with no tab after it. */
  lemma FieldsLast(f: string)
    requires '\t' !in f && |f| > 0
    ensures Fields(f) == [f]
  {
    TabAtIs(f, |f|);
    CutField(f, |f|, []);
    assert f[..|f|] == f;
  }

  lemma FieldsOfThree(a: string, b: string, c: string)
    requires Plain(a) && Plain(b) && Plain(c) && |c| > 0
    ensures Fields(a + "\t" + b + "\t" + c) == [a, b, c]
  {
    assert a + "\t" + b + "\t" + c == a + "\t" + (b + "\t" + c);
    FieldsCons(a, b + "\t" + c);
    FieldsCons(b, c);
    FieldsLast(c);
  }

  lemma FieldsOfTwo(a: string, b: string)
    requires Plain(a) && Plain(b) && |b| > 0
    ensures Fields(a + "\t" + b) == [a, b]
  {
    FieldsCons(a, b);
    FieldsLast(b);
  }
}
