/**
 * The buffered line/field reader of tab-separated text (`tsv::parser`).
 *
 * The reader keeps one array of FileBufferSize + 1 characters whose last
 * cell is a permanent NUL. `NextLine` finds the next '\n' in the array and
 * overwrites it with NUL; when it meets a NUL first, it refills the array
 * (moving the unconsumed tail to the front) and tries again. The fields of
 * the current line are then cut off one by one, in place, at tab characters.
 */
module TsvParser {
  import opened Common

  /** The capacity of the line buffer, `(1 << 14) - 1`. */
  const FileBufferSize: nat := 0x3FFF

  const NUL: char := 0 as char

  /** Text as the reader sees it: C strings end at the first NUL, so the input must hold none. */
  ghost predicate NoNul(s: string) {
    NUL !in s
  }

  // ---------------------------------------------------------------------------
  // Lines

  /** The index of the first '\n' in `s`, or |s| when there is none. */
  function NewlineAt(s: string): (k: nat)
    ensures k <= |s|
    ensures k < |s| ==> s[k] == '\n'
    ensures '\n' !in s[..k]
    ensures k == |s| <==> '\n' !in s
  {
    if |s| == 0 then 0
    else if s[0] == '\n' then 0
    else 1 + NewlineAt(s[1..])
  }

  /** A '\n' with none before it is the first one. */
  lemma NewlineAtIs(s: string, m: nat)
    requires m < |s| && s[m] == '\n'
    requires forall j :: 0 <= j < m ==> s[j] != '\n'
    ensures NewlineAt(s) == m
  {
  }

  /** The text up to, and not including, the first '\n'. */
  function FirstLine(s: string): string {
    s[..NewlineAt(s)]
  }

  /** The '\n'-terminated lines of `s`, in order; trailing text with no '\n' is not a line. */
  function Lines(s: string): seq<string>
    decreases |s|
  {
    if '\n' !in s then [] else [FirstLine(s)] + Lines(s[NewlineAt(s) + 1..])
  }

  /** Text with no '\n' that the pending text starts with, followed there by a '\n', is its first line. */
  lemma FirstLineIs(p: string, d: string)
    requires |d| < |p| && p[|d|] == '\n' && '\n' !in d
    requires forall j :: 0 <= j < |d| ==> p[j] == d[j]
    ensures NewlineAt(p) == |d| && FirstLine(p) == d
  {
    forall j | 0 <= j < |d| ensures p[j] != '\n' {
      assert d[j] in d;
    }
    NewlineAtIs(p, |d|);
    assert p[..|d|] == d;
  }

  /** A text with a line end: its first line, then the lines after that line end. */
  lemma LinesStep(s: string)
    requires '\n' in s
    ensures Lines(s) == [FirstLine(s)] + Lines(s[NewlineAt(s) + 1..])
  {
  }

  /** Every line of `s` fits in the buffer together with its terminator. */
  ghost predicate LinesFit(s: string) {
    forall l :: l in Lines(s) ==> |l| < FileBufferSize
  }

  /** Lines met so far followed by the lines still pending: taking more of them keeps that account. */
  lemma LinesTrack(src: string, seen: seq<string>, p0: string, taken: seq<string>, p1: string)
    requires LinesFit(src) ==> LinesFit(p0) && Lines(src) == seen + Lines(p0)
    requires LinesFit(p0) ==> LinesFit(p1) && Lines(p0) == taken + Lines(p1)
    ensures LinesFit(src) ==> LinesFit(p1) && Lines(src) == (seen + taken) + Lines(p1)
  {
    if LinesFit(src) {
      assert seen + (taken + Lines(p1)) == (seen + taken) + Lines(p1);
    }
  }

  lemma LinesFitFirst(s: string)
    requires LinesFit(s) && '\n' in s
    ensures NewlineAt(s) < FileBufferSize
    ensures LinesFit(s[NewlineAt(s) + 1..])
  {
    assert FirstLine(s) in Lines(s);
    forall l | l in Lines(s[NewlineAt(s) + 1..]) ensures |l| < FileBufferSize {
      assert l in Lines(s);
    }
  }

  /** `IsSuffix(a, b)`: `a` is what remains of `b` after some prefix. */
  ghost predicate IsSuffix<T>(a: seq<T>, b: seq<T>) {
    |a| <= |b| && b[|b| - |a|..] == a
  }

  /**
   * How much of a line of length `n` the reader throws away: one whole
   * buffer-full at a time, for as long as the buffer holds no '\n'.
   */
  function Dropped(n: nat): (d: nat)
    ensures d <= n && n - d < FileBufferSize
    ensures n < FileBufferSize ==> d == 0
  {
    (n / FileBufferSize) * FileBufferSize
  }

  /** One more buffer-full in front of the line is one more buffer-full dropped. */
  lemma DroppedShift(n: nat)
    ensures Dropped(n + FileBufferSize) == Dropped(n) + FileBufferSize
  {
  }

  /**
   * `rest` is what the parser holds of the first line of `p`: all of it, or,
   * for a line of FileBufferSize characters or more, the part after its last
   * whole buffer-full (empty when the length is a multiple of the size).
   */
  ghost predicate LineOf(rest: string, p: string) {
    rest == FirstLine(p)[Dropped(NewlineAt(p))..]
  }

  lemma SuffixKeepsOut<T>(x: T, a: seq<T>, b: seq<T>)
    requires IsSuffix(a, b) && x !in b
    ensures x !in a
  {
    forall k | 0 <= k < |a| ensures a[k] != x {
      assert a[k] == b[|b| - |a| + k];
    }
  }

  lemma SuffixTrans<T>(a: seq<T>, b: seq<T>, c: seq<T>)
    requires IsSuffix(a, b) && IsSuffix(b, c)
    ensures IsSuffix(a, c)
  {
    assert c[|c| - |a|..] == c[|c| - |b|..][|b| - |a|..];
  }

  /** Dropping a newline-free prefix keeps the first newline, and the first line ends the same way. */
  lemma DropNewlineFree(d: string, p: string)
    requires '\n' !in d
    ensures ('\n' in d + p) <==> ('\n' in p)
    ensures NewlineAt(d + p) == |d| + NewlineAt(p)
    ensures '\n' in p ==> (d + p)[NewlineAt(d + p) + 1..] == p[NewlineAt(p) + 1..]
    ensures IsSuffix(FirstLine(p), FirstLine(d + p))
  {
    var s := d + p;
    var k := NewlineAt(p);
    assert forall i :: 0 <= i < |d| ==> s[i] == d[i];
    assert forall i :: 0 <= i < |p| ==> s[|d| + i] == p[i];
    if k < |p| {
      assert s[|d| + k] == '\n';
    }
    assert NewlineAt(s) == |d| + k;
    if k < |p| {
      assert s[|d| + k + 1..] == p[k + 1..];
    }
    assert FirstLine(s)[|FirstLine(s)| - |FirstLine(p)|..] == FirstLine(p);
  }

  /**
   * What `next_line` finds after a refill, stated on the pending text before
   * it: the refill either kept that text or dropped a first part of it that
   * has no '\n'.
   */
  lemma LineAfterRefill(p0: string, p1: string, p2: string, shifted: bool, ok: bool, rest: string)
    requires shifted ==> |p0| >= FileBufferSize && '\n' !in p0[..FileBufferSize] && p1 == p0[FileBufferSize..]
    requires !shifted ==> p1 == p0
    requires ok <==> '\n' in p1
    requires ok ==> p2 == p1[NewlineAt(p1) + 1..] && LineOf(rest, p1)
    requires !ok ==> '\n' !in p2 && IsSuffix(p2, p1)
    ensures ok <==> '\n' in p0
    ensures ok ==> p2 == p0[NewlineAt(p0) + 1..] && LineOf(rest, p0)
    ensures !ok ==> '\n' !in p2 && IsSuffix(p2, p0)
  {
    if shifted {
      ShiftedPending(p0, p1, FileBufferSize);
      if ok {
        var n1 := NewlineAt(p1);
        assert FirstLine(p0)[FileBufferSize..] == FirstLine(p1);
        DroppedShift(n1);
        assert FirstLine(p0)[Dropped(n1) + FileBufferSize..] == FirstLine(p1)[Dropped(n1)..];
      } else {
        SuffixTrans(p2, p1, p0);
      }
    }
  }

  /** Dropping a prefix with no '\n' leaves the first line's end and what follows it in place. */
  lemma ShiftedPending(p0: string, p1: string, n: nat)
    requires n <= |p0| && '\n' !in p0[..n] && p1 == p0[n..]
    ensures ('\n' in p0) <==> ('\n' in p1)
    ensures NewlineAt(p0) == n + NewlineAt(p1)
    ensures '\n' in p1 ==> p0[NewlineAt(p0) + 1..] == p1[NewlineAt(p1) + 1..]
    ensures FirstLine(p0)[n..] == FirstLine(p1)
  {
    DropNewlineFree(p0[..n], p1);
    assert p0 == p0[..n] + p1;
  }

  // ---------------------------------------------------------------------------
  // Fields

  /** The index of the first tab in `t`, or |t|. */
  function TabAt(t: string): (k: nat)
    ensures k <= |t|
    ensures k < |t| ==> t[k] == '\t'
    ensures '\t' !in t[..k]
  {
    if |t| == 0 then 0
    else if t[0] == '\t' then 0
    else 1 + TabAt(t[1..])
  }

  /** A tab, or the end, with no tab before it is where the first field ends. */
  lemma TabAtIs(t: string, m: nat)
    requires m <= |t| && (m < |t| ==> t[m] == '\t')
    requires forall j :: 0 <= j < m ==> t[j] != '\t'
    ensures TabAt(t) == m
  {
  }

  /**
   * The fields the reader yields from the rest `t` of a line: text up to the
   * next tab, again and again, until nothing is left. An empty rest has no
   * field, so a trailing tab does not produce an empty last field.
   */
  function Fields(t: string): (fs: seq<string>)
    ensures |fs| == 0 <==> |t| == 0
    ensures |fs| <= |t|
    decreases |t|
  {
    if |t| == 0 then []
    else [t[..TabAt(t)]] + (if TabAt(t) < |t| then Fields(t[TabAt(t) + 1..]) else [])
  }

  /** The first field, and the fields of what follows its tab. */
  lemma CutField(t: string, m: nat, rest: string)
    requires t != [] && m == TabAt(t)
    requires rest == if m < |t| then t[m + 1..] else []
    ensures Fields(t) == [t[..m]] + Fields(rest)
  {
  }

  /** No field holds a tab, and the fields joined by tabs rebuild the text (up to a dropped trailing tab). */
  lemma {:induction false} FieldsHaveNoTab(t: string)
    ensures forall f :: f in Fields(t) ==> '\t' !in f
    ensures |t| > 0 ==> |Fields(t)| >= 1
    decreases |t|
  {
    if |t| > 0 {
      var k := TabAt(t);
      assert '\t' !in t[..k];
      if k < |t| {
        FieldsHaveNoTab(t[k + 1..]);
      }
    }
  }

  lemma CutAtTab(t: string, k: nat)
    requires k < |t| && t[k] == '\t'
    ensures t == t[..k] + "\t" + t[k + 1..]
  {
  }

  /** Fields joined back with tab separators. */
  function JoinTabs(fs: seq<string>): string {
    if |fs| == 0 then "" else if |fs| == 1 then fs[0] else fs[0] + "\t" + JoinTabs(fs[1..])
  }

  /** Splitting text that does not end in a tab and joining the fields gives the text back. */
  lemma {:induction false} JoinFields(t: string)
    requires |t| == 0 || t[|t| - 1] != '\t'
    ensures JoinTabs(Fields(t)) == t
    decreases |t|
  {
    if |t| > 0 {
      var k := TabAt(t);
      if k < |t| {
        var rest := t[k + 1..];
        assert |rest| > 0;
        JoinFields(rest);
        FieldsHaveNoTab(rest);
        var fs := Fields(t);
        assert fs == [t[..k]] + Fields(rest);
        assert fs[1..] == Fields(rest);
        assert JoinTabs(fs) == t[..k] + "\t" + rest;
        CutAtTab(t, k);
      }
    }
  }

  // ---------------------------------------------------------------------------
  // Conversion of a field to a value (`tsv::val`)

  /** The target types of the conversion table that this model covers. */
  datatype Kind = BoolKind | IntKind | LongKind | LongLongKind | TextKind

  datatype Value = BoolVal(b: bool) | IntVal(i: int) | TextVal(s: string)

  /** `val<bool>`: exactly the text "true" is true. */
  function ValBool(s: string): bool {
    s == "true"
  }

  predicate IsSpace(c: char) {
    c == ' ' || c == '\t' || c == '\n' || c == '\U{B}' || c == '\U{C}' || c == '\r'
  }

  predicate IsDigit(c: char) {
    '0' <= c <= '9'
  }

  /** The value of the longest run of decimal digits at the front of `s`, and its length. */
  function DigitRun(s: string): (r: (nat, nat))
    ensures r.1 <= |s|
    ensures forall i :: 0 <= i < r.1 ==> IsDigit(s[i])
    ensures r.1 < |s| ==> !IsDigit(s[r.1])
    decreases |s|
  {
    if |s| == 0 || !IsDigit(s[0]) then (0, 0)
    else
      var rest := DigitRun(s[1..]);
      (Place(s[0] as int - '0' as int, rest.1) + rest.0, rest.1 + 1)
  }

  /** Digit `d` at decimal place `k`. */
  function Place(d: nat, k: nat): (r: nat) {
    d * Pow10(k)
  }

  function Pow10(k: nat): (r: nat)
    ensures r >= 1
  {
    if k == 0 then 1 else 10 * Pow10(k - 1)
  }

  /**
   * What `strtol(s, NULL, 10)` reads before clamping: leading white space,
   * an optional sign, then decimal digits up to the first non-digit.
   */
  function ParseDecimal(s: string): int
    decreases |s|
  {
    if |s| > 0 && IsSpace(s[0]) then ParseDecimal(s[1..])
    else if |s| > 0 && s[0] == '-' then 0 - DigitRun(s[1..]).0 as int
    else if |s| > 0 && s[0] == '+' then DigitRun(s[1..]).0
    else DigitRun(s).0
  }

  /** `atol`/`atoll` (glibc: `strtol`, saturating at the 64-bit bounds). */
  function ValLong(s: string): (r: int)
    ensures LongMin <= r <= LongMax
  {
    var v := ParseDecimal(s);
    if v < LongMin then LongMin else if v > LongMax then LongMax else v
  }

  /** `atoi` (glibc: `(int) strtol`, keeping the low 32 bits as a signed value). */
  function ValInt(s: string): (r: int)
    ensures IntMin <= r <= IntMax
  {
    var low := ValLong(s) % TwoTo32;
    if low > IntMax then low - TwoTo32 else low
  }

  /** The conversion table: the value `next_field<T>` gives for target type `kind`. */
  function Val(kind: Kind, s: string): Value {
    match kind
    case BoolKind => BoolVal(ValBool(s))
    case IntKind => IntVal(ValInt(s))
    case LongKind => IntVal(ValLong(s))
    case LongLongKind => IntVal(ValLong(s))
    case TextKind => TextVal(s)
  }
}

module TsvBuffer {
  import opened Common
  import opened TsvParser

  // ---------------------------------------------------------------------------
  // The array after a refill

  /**
   * `fill_file_buffer` as written: the `|b| - 1 - from` cells from `from` on
   * are moved to the front, the `chunk` the read delivered lands right after
   * them, and every later cell keeps what it held.
   */
  function RefillAsWritten(b: seq<char>, from: nat, chunk: string): (r: seq<char>)
    requires 1 <= from < |b| && |chunk| <= from
    ensures |r| == |b|
  {
    b[from..|b| - 1] + chunk + b[|b| - 1 - from + |chunk|..]
  }

  /**
   * The refill this model uses: as written, except that after a read that
   * delivered fewer bytes than asked for, the cell right after the new data
   * becomes NUL, so that scanning stops where the data stops.
   */
  function Refill(b: seq<char>, from: nat, chunk: string): (r: seq<char>)
    requires 1 <= from < |b| && |chunk| <= from
    ensures |r| == |b|
  {
    var n := |b| - 1;
    if |chunk| < from then b[from..n] + chunk + [NUL] + b[n - from + |chunk| + 1..]
    else b[from..n] + chunk + b[n..]
  }

  /** What one cell holds after the refill. */
  lemma RefillAt(b: seq<char>, from: nat, chunk: string, i: nat)
    requires 1 <= from < |b| && |chunk| <= from && i < |b|
    ensures i < |b| - 1 - from ==> Refill(b, from, chunk)[i] == b[from + i]
    ensures |b| - 1 - from <= i < |b| - 1 - from + |chunk| ==> Refill(b, from, chunk)[i] == chunk[i - (|b| - 1 - from)]
    ensures i == |b| - 1 - from + |chunk| && |chunk| < from ==> Refill(b, from, chunk)[i] == NUL
    ensures i > |b| - 1 - from + |chunk| || (i == |b| - 1 && |chunk| == from) ==> Refill(b, from, chunk)[i] == b[i]
  {
  }

  /** The corrected refill differs from the refill as written in one cell only, the one after a short read's data. */
  lemma RefillDiffersInOneCell(b: seq<char>, from: nat, chunk: string, i: nat)
    requires 1 <= from < |b| && |chunk| <= from && i < |b|
    requires i != |b| - 1 - from + |chunk| || |chunk| == from
    ensures Refill(b, from, chunk)[i] == RefillAsWritten(b, from, chunk)[i]
  {
  }

  /** The text a scan sees from the front of `b`: everything before the first NUL. */
  function TextBeforeNul(b: seq<char>): (t: string)
    ensures |t| <= |b| && t == b[..|t|]
    ensures NoNul(t)
  {
    if |b| == 0 || b[0] == NUL then [] else [b[0]] + TextBeforeNul(b[1..])
  }

  lemma {:induction false} TextBeforeNulStops(s: string, rest: seq<char>)
    requires NoNul(s)
    ensures TextBeforeNul(s + [NUL] + rest) == s
  {
    if |s| > 0 {
      assert (s + [NUL] + rest)[1..] == s[1..] + [NUL] + rest;
      TextBeforeNulStops(s[1..], rest);
    }
  }

  /**
   * The first fill reads into a freshly allocated array whose cells hold
   * whatever they held. When the file is shorter than the buffer, the scan
   * goes on past the data into those cells: here a file "x\n", with the
   * cells after it holding "b\n" and a NUL, gives a line "b" the file does
   * not hold. The refill this model uses ends the data after "x\n".
   */
  lemma FirstFillReadsGarbage(b: seq<char>)
    requires |b| == FileBufferSize + 1 && b[FileBufferSize] == NUL
    requires b[2] == 'b' && b[3] == '\n' && b[4] == NUL
    ensures Lines(TextBeforeNul(RefillAsWritten(b, FileBufferSize, "x\n"))) == ["x", "b"]
    ensures Lines(TextBeforeNul(Refill(b, FileBufferSize, "x\n"))) == ["x"]
  {
    var w := RefillAsWritten(b, FileBufferSize, "x\n");
    assert w == "x\nb\n" + [NUL] + b[5..];
    TextBeforeNulStops("x\nb\n", b[5..]);
    LinesOfTwo();
    var c := Refill(b, FileBufferSize, "x\n");
    assert c == "x\n" + [NUL] + b[3..];
    TextBeforeNulStops("x\n", b[3..]);
    LinesOfOne("x");
  }

  /** A scan over NUL-free text goes on into what follows it. */
  lemma {:induction false} TextBeforeNulAppend(d: string, s: seq<char>)
    requires NoNul(d)
    ensures TextBeforeNul(d + s) == d + TextBeforeNul(s)
    decreases |d|
  {
    if |d| > 0 {
      assert d[0] in d;
      assert (d + s)[0] == d[0] != NUL;
      assert (d + s)[1..] == d[1..] + s;
      TextBeforeNulAppend(d[1..], s);
      assert TextBeforeNul(d + s) == [d[0]] + TextBeforeNul(d[1..] + s);
      assert [d[0]] + (d[1..] + TextBeforeNul(s)) == d + TextBeforeNul(s);
    } else {
      assert d + s == s;
    }
  }

  /** Text with no '\n' after the last line end adds no line. */
  lemma {:induction false} LinesLineFreeTail(d: string, t: string)
    requires '\n' !in t
    ensures Lines(d + t) == Lines(d)
    decreases |d|
  {
    var s := d + t;
    if '\n' in d {
      var k := NewlineAt(d);
      forall j | 0 <= j < k ensures s[j] != '\n' {
        assert s[j] == d[..k][j];
      }
      assert s[k] == '\n';
      NewlineAtIs(s, k);
      assert FirstLine(s) == FirstLine(d);
      assert s[k + 1..] == d[k + 1..] + t;
      LinesLineFreeTail(d[k + 1..], t);
    } else {
      forall j | 0 <= j < |s| ensures s[j] != '\n' {
        if j < |d| {
          assert s[j] == d[j];
        } else {
          assert s[j] == t[j - |d|];
        }
      }
    }
  }

  /** Text with no NUL, followed by '\n'-free cells, is read as the lines of that text alone. */
  lemma LinesPastNulFree(d: string, stale: seq<char>)
    requires NoNul(d) && '\n' !in stale
    ensures Lines(TextBeforeNul(d + stale)) == Lines(d)
  {
    TextBeforeNulAppend(d, stale);
    var t := TextBeforeNul(stale);
    assert '\n' !in t by {
      forall j | 0 <= j < |t| ensures t[j] != '\n' {
        assert t[j] == stale[j];
      }
    }
    LinesLineFreeTail(d, t);
  }

  /**
   * After a short read, the refill as written and the one this model uses
   * yield the same lines when the cells after the new data hold no '\n':
   * the scan then only adds '\n'-free text after the last line end.
   */
  lemma ShortReadSameLines(b: seq<char>, from: nat, chunk: string)
    requires 1 <= from < |b| && |chunk| < from
    requires NoNul(b[from..|b| - 1]) && NoNul(chunk)
    requires forall k :: |b| - 1 - from + |chunk| <= k < |b| ==> b[k] != '\n'
    ensures Lines(TextBeforeNul(RefillAsWritten(b, from, chunk))) == Lines(TextBeforeNul(Refill(b, from, chunk)))
  {
    var n := |b| - 1;
    var d := b[from..n] + chunk;
    var stale := b[n - from + |chunk|..];
    ShortReadParts(b, from, chunk);
    assert RefillAsWritten(b, from, chunk) == d + stale;
    LinesPastNulFree(d, stale);
    assert Refill(b, from, chunk) == d + [NUL] + b[n - from + |chunk| + 1..];
    TextBeforeNulStops(d, b[n - from + |chunk| + 1..]);
  }

  /** The two parts of the buffer after a short read: the data, free of NUL, then the untouched cells. */
  lemma ShortReadParts(b: seq<char>, from: nat, chunk: string)
    requires 1 <= from < |b| && |chunk| < from
    requires NoNul(b[from..|b| - 1]) && NoNul(chunk)
    requires forall k :: |b| - 1 - from + |chunk| <= k < |b| ==> b[k] != '\n'
    ensures NoNul(b[from..|b| - 1] + chunk)
    ensures '\n' !in b[|b| - 1 - from + |chunk|..]
  {
    var n := |b| - 1;
    var d := b[from..n] + chunk;
    var stale := b[n - from + |chunk|..];
    forall j | 0 <= j < |d| ensures d[j] != NUL {
      if j < n - from {
        assert d[j] == b[from..n][j];
      } else {
        assert d[j] == chunk[j - (n - from)];
      }
    }
    forall j | 0 <= j < |stale| ensures stale[j] != '\n' {
      assert stale[j] == b[n - from + |chunk| + j];
    }
  }

  lemma LinesOfOne(l: string)
    requires '\n' !in l
    ensures Lines(l + "\n") == [l]
  {
    var s := l + "\n";
    assert NewlineAt(s) == |l|;
    assert s[|l| + 1..] == "";
  }

  lemma LinesOfTwo()
    ensures Lines("x\nb\n") == ["x", "b"]
  {
    var s := "x\nb\n";
    assert NewlineAt(s) == 1;
    assert FirstLine(s) == "x";
    assert s[2..] == "b" + "\n";
    LinesOfOne("b");
    assert Lines(s) == [FirstLine(s)] + Lines(s[NewlineAt(s) + 1..]);
  }

  /** For any buffer size: as written, the cells after a short read still hold the old bytes. */
  lemma ShortReadKeepsStaleCells(b: seq<char>, from: nat, chunk: string, i: nat)
    requires 1 <= from < |b| && |chunk| < from
    requires |b| - 1 - from + |chunk| <= i < |b|
    ensures RefillAsWritten(b, from, chunk)[i] == b[i]
  {
  }

  /** The move of the tail followed by the read gives the refilled buffer. */
  lemma RefillSteps(b: seq<char>, n: nat, chunk: string, m: seq<char>, after: seq<char>)
    requires |b| == FileBufferSize + 1 && 1 <= n <= FileBufferSize && |chunk| <= n
    requires m == b[n..FileBufferSize] + b[FileBufferSize - n..]
    requires after == m[..FileBufferSize - n] + chunk
      + (if |chunk| < n then [NUL] + m[FileBufferSize - n + |chunk| + 1..] else m[FileBufferSize - n + |chunk|..])
    ensures after == Refill(b, n, chunk)
  {
    var start := FileBufferSize - n;
    assert m[..start] == b[n..FileBufferSize];
    assert m[start..] == b[start..];
  }

  /**
   * After a refill that read `chunk`, the front of the array is one piece of
   * `src`: the `FileBufferSize - n` moved cells held the text from offset `c`
   * on, and the chunk is the text that follows them.
   */
  lemma RefillData(b: seq<char>, n: nat, chunk: string, src: string, c: nat)
    requires |b| == FileBufferSize + 1 && 1 <= n <= FileBufferSize && |chunk| <= n
    requires c + (FileBufferSize - n) + |chunk| <= |src|
    requires chunk == src[c + (FileBufferSize - n)..c + (FileBufferSize - n) + |chunk|]
    requires forall k :: n <= k < FileBufferSize ==> b[k] == src[c + (k - n)]
    ensures forall k :: 0 <= k < FileBufferSize - n + |chunk| ==> Refill(b, n, chunk)[k] == src[c + k]
    ensures |chunk| < n ==> Refill(b, n, chunk)[FileBufferSize - n + |chunk|] == NUL
    ensures Refill(b, n, chunk)[FileBufferSize] == b[FileBufferSize]
  {
    forall k | 0 <= k < FileBufferSize - n + |chunk| ensures Refill(b, n, chunk)[k] == src[c + k] {
      RefillAt(b, n, chunk, k);
    }
    RefillAt(b, n, chunk, FileBufferSize);
    if |chunk| < n {
      RefillAt(b, n, chunk, FileBufferSize - n + |chunk|);
    }
  }

  /**
   * A compacting refill that read nothing has still moved the cells: from `n`
   * on, up to the NUL it leaves, the array again holds a piece of `src`.
   */
  lemma EmptyRefillData(b: seq<char>, n: nat, src: string, c: nat)
    requires |b| == FileBufferSize + 1 && 1 <= n <= FileBufferSize && b[FileBufferSize] == NUL
    requires c + (FileBufferSize - n) <= |src|
    requires forall k :: n <= k < FileBufferSize ==> b[k] == src[c + (k - n)]
    ensures Refill(b, n, [])[FileBufferSize] == NUL
    ensures n <= FileBufferSize - n ==> Refill(b, n, [])[FileBufferSize - n] == NUL
    ensures n <= FileBufferSize - n ==>
      forall k :: n <= k < FileBufferSize - n ==> Refill(b, n, [])[k] == src[c + n + (k - n)]
    ensures FileBufferSize - n < n ==>
      forall k :: n <= k < FileBufferSize ==> Refill(b, n, [])[k] == src[c + (k - n)]
  {
    RefillAt(b, n, [], FileBufferSize);
    RefillAt(b, n, [], FileBufferSize - n);
    forall k | n <= k < FileBufferSize ensures k < FileBufferSize - n ==> Refill(b, n, [])[k] == src[c + n + (k - n)]
      ensures FileBufferSize - n < k ==> Refill(b, n, [])[k] == b[k]
    {
      RefillAt(b, n, [], k);
    }
  }

  // ---------------------------------------------------------------------------
  // The reader

  class Parser {
    /** The line buffer: FileBufferSize cells of data and a final NUL that is never overwritten. */
    const buf: array<char>
    /** The delimiter given at construction; the field split itself uses '\t'. */
    const delim: char
    /** Whether a file is attached (`file_ != nullptr`). */
    const hasFile: bool
    /** What the file still holds beyond what has been read. */
    var input: string
    /** The stream's end-of-file indicator. */
    var eof: bool
    /** `total_read_`: bytes delivered by the file so far. */
    var totalRead: nat
    /** Whether `line_pos_` has been set (it starts out null). */
    var loaded: bool
    /** `line_pos_`: where the unconsumed data starts. */
    var linePos: nat
    /** `field_pos_`: where the next field of the current line starts. */
    var fieldPos: nat

    /** The whole content of the file. */
    ghost const Source: string
    /** How much of the file lies before `linePos`: the lines taken, and the dropped parts of overlong lines. */
    ghost var consumed: nat
    /** Where the buffered data ends; the cell there is NUL. */
    ghost var dataEnd: nat
    /** Whether a line is current, so that its fields may be taken. */
    ghost var onLine: bool
    /** Where the current line ends (its '\n' became the NUL there). */
    ghost var lineEnd: nat

    /** No NUL and no '\n' among the cells i..j-1. */
    ghost predicate PlainCells(i: nat, j: nat)
      reads buf
    {
      forall k :: i <= k < j && k < buf.Length ==> buf[k] != NUL && buf[k] != '\n'
    }

    /** The cells i..j-1 hold the file's text from offset `at` on. */
    ghost predicate Holds(i: nat, j: nat, at: nat)
      reads buf
    {
      forall k :: i <= k < j ==> k < buf.Length && at + (k - i) < |Source| && buf[k] == Source[at + (k - i)]
    }

    ghost predicate Valid()
      reads this, buf
    {
      && buf.Length == FileBufferSize + 1 && buf[FileBufferSize] == NUL
      && NoNul(Source)
      && totalRead <= |Source| && input == Source[totalRead..]
      && (!hasFile ==> Source == [])
      && (eof ==> input == [])
      && (!loaded ==> totalRead == 0 && consumed == 0 && !onLine)
      && (loaded ==>
            && linePos <= dataEnd <= FileBufferSize && buf[dataEnd] == NUL
            && (!eof ==> dataEnd == FileBufferSize)
            && consumed + (dataEnd - linePos) == totalRead
            && Holds(linePos, dataEnd, consumed))
      && (onLine ==>
            && fieldPos <= lineEnd < linePos && buf[lineEnd] == NUL && PlainCells(fieldPos, lineEnd))
    }

    /** The text not yet returned as lines: the buffered data from `linePos` on, then the unread file. */
    ghost function Pending(): string
      reads this
    {
      if consumed <= |Source| then Source[consumed..] else []
    }

    /** The unconsumed rest of the current line (what `next_all` points at). */
    ghost function Rest(): string
      reads this, buf
      requires Valid() && onLine
    {
      buf[fieldPos..lineEnd]
    }

    /** The fields still to be taken from the current line. */
    ghost function RemainingFields(): seq<string>
      reads this, buf
      requires Valid() && onLine
    {
      Fields(Rest())
    }

    /** How many bytes the next refill asks for: the consumed prefix, or the whole buffer. */
    function RequestSize(): (n: nat)
      reads this
      ensures 1 <= n <= FileBufferSize
    {
      if loaded && 0 < linePos <= FileBufferSize then linePos else FileBufferSize
    }

    constructor (file: Option<string>, delim: char)
      requires file.Some? ==> NoNul(file.value)
      ensures Valid() && fresh(buf)
      ensures hasFile == file.Some? && Source == (if file.Some? then file.value else [])
      ensures totalRead == 0 && !loaded && !onLine && Pending() == Source
    {
      this.buf := new char[FileBufferSize + 1];
      this.delim := delim;
      this.hasFile := file.Some?;
      this.Source := if file.Some? then file.value else [];
      this.input := if file.Some? then file.value else [];
      this.eof := false;
      this.totalRead := 0;
      this.loaded := false;
      this.linePos := 0;
      this.fieldPos := 0;
      this.consumed := 0;
      this.dataEnd := 0;
      this.onLine := false;
      this.lineEnd := 0;
      new;
      buf[FileBufferSize] := NUL;
    }

    /** `total_read`: how many bytes the file has delivered so far. */
    function TotalRead(): (n: nat)
      reads this, buf
      requires Valid()
      ensures n + |input| == |Source|
    {
      totalRead
    }

    // -------------------------------------------------------------------------
    // Lines

    /**
     * The state after a `next_line` that found a line in pending text `p0`:
     * the line is current, and the text after its '\n' is pending.
     */
    ghost predicate Took(p0: string)
      reads this, buf
    {
      && Valid() && onLine && '\n' in p0
      && Pending() == p0[NewlineAt(p0) + 1..] && LineOf(Rest(), p0)
    }

    /**
     * The state after a `next_line` that found none in `p0`: the file is read
     * to its end, and what is left pending has no '\n'.
     */
    ghost predicate Exhausted(p0: string)
      reads this, buf
    {
      && Valid() && !onLine && input == []
      && '\n' !in p0 && '\n' !in Pending() && IsSuffix(Pending(), p0)
    }

    /**
     * `next_line`: makes the next '\n'-terminated line of the pending text
     * current. Its '\n' becomes NUL, the field cursor goes to its start and
     * `linePos` just past it. A line longer than the buffer loses its first
     * part, one buffer-full at a time; text after the last '\n' is never a line.
     */
    method NextLine() returns (ok: bool)
      requires Valid()
      modifies this, buf
      ensures totalRead >= old(totalRead)
      ensures ok ==> Took(old(Pending()))
      ensures !ok ==> Exhausted(old(Pending()))
      decreases |input|, 1
    {
      if !loaded {
        ok := RefillAndRetry();
        return;
      }
      var pos := ScanLine();
      if buf[pos] == NUL {
        ok := RefillAndRetry();
        return;
      }
      TakeLine(pos);
      ok := true;
    }

    /** The scan of `next_line` from `linePos` for a '\n'; it stops at the NUL that ends the data. */
    method ScanLine() returns (pos: nat)
      requires Valid() && loaded
      ensures linePos <= pos <= dataEnd && buf[pos] in {'\n', NUL}
      ensures forall k :: linePos <= k < pos ==> buf[k] != '\n' && buf[k] != NUL
      ensures buf[pos] == NUL ==> pos == dataEnd
    {
      NoNulInData();
      pos := linePos;
      while buf[pos] != '\n' && buf[pos] != NUL
        invariant linePos <= pos <= dataEnd
        invariant forall k :: linePos <= k < pos ==> buf[k] != '\n' && buf[k] != NUL
        decreases dataEnd - pos
      {
        pos := pos + 1;
      }
    }

    /** The end of `next_line` once a '\n' was found at `pos`: the line from `linePos` to it becomes current. */
    method TakeLine(pos: nat)
      requires Valid() && loaded && linePos <= pos < dataEnd && buf[pos] == '\n'
      requires forall k :: linePos <= k < pos ==> buf[k] != '\n'
      modifies this`fieldPos, this`lineEnd, this`linePos, this`onLine, this`consumed, buf
      ensures totalRead == old(totalRead)
      ensures Took(old(Pending()))
    {
      LineInData(pos);
      NoNulInData();
      ghost var p0 := Pending();
      ghost var b0 := buf[..];
      ghost var c0 := consumed;
      assert forall k :: linePos <= k < dataEnd ==> b0[k] == Source[c0 + (k - linePos)];
      assert forall k :: linePos <= k < pos ==> b0[k] != '\n' && b0[k] != NUL;
      buf[pos] := NUL;
      fieldPos, linePos := linePos, pos + 1;
      SettleTake(b0, p0, c0, pos);
    }

    /**
     * After `next_line` turned the '\n' at `pos` into NUL and moved the
     * cursors: the line from `fieldPos` to `pos` is current, and the data
     * after it is what is pending.
     */
    ghost method SettleTake(b0: seq<char>, p0: string, c0: nat, pos: nat)
      requires buf.Length == FileBufferSize + 1 && |b0| == FileBufferSize + 1 && pos < FileBufferSize
      requires buf[..] == b0[pos := NUL] && b0[FileBufferSize] == NUL && NoNul(Source)
      requires totalRead <= |Source| && input == Source[totalRead..] && (!hasFile ==> Source == [])
      requires (eof ==> input == []) && loaded
      requires fieldPos <= pos && linePos == pos + 1 <= dataEnd <= FileBufferSize && b0[dataEnd] == NUL
      requires !eof ==> dataEnd == FileBufferSize
      requires consumed == c0 && c0 + (dataEnd - fieldPos) == totalRead
      requires forall k :: fieldPos <= k < dataEnd ==> b0[k] == Source[c0 + (k - fieldPos)]
      requires forall k :: fieldPos <= k < pos ==> b0[k] != '\n' && b0[k] != NUL
      requires p0 == Source[c0..] && NewlineAt(p0) == pos - fieldPos && FirstLine(p0) == b0[fieldPos..pos]
      modifies this`lineEnd, this`onLine, this`consumed
      ensures Took(p0)
    {
      consumed := c0 + (pos - fieldPos) + 1;
      lineEnd, onLine := pos, true;
      forall k | linePos <= k < dataEnd
        ensures buf[k] == Source[consumed + (k - linePos)]
      {
        assert buf[k] == buf[..][k] == b0[k];
      }
      forall k | fieldPos <= k < lineEnd
        ensures buf[k] != NUL && buf[k] != '\n'
      {
        assert buf[k] == buf[..][k] == b0[k];
      }
      assert buf[lineEnd] == buf[..][lineEnd] && buf[FileBufferSize] == buf[..][FileBufferSize];
      assert buf[dataEnd] == buf[..][dataEnd];
      assert Valid();
      assert buf[fieldPos..lineEnd] == b0[fieldPos..pos];
      assert Pending() == p0[NewlineAt(p0) + 1..];
      assert Rest() == FirstLine(p0);
      assert Dropped(NewlineAt(p0)) == 0;
    }

    /**
     * The refill-and-rescan step of `next_line`, taken when the scan met the
     * NUL that ends the buffered data (or nothing was loaded yet).
     */
    method RefillAndRetry() returns (ok: bool)
      requires Valid() && (loaded ==> PlainCells(linePos, dataEnd))
      modifies this, buf
      ensures totalRead >= old(totalRead)
      ensures ok ==> Took(old(Pending()))
      ensures !ok ==> Exhausted(old(Pending()))
      decreases |input|, 0
    {
      ghost var p0 := Pending();
      ghost var shifted := loaded && linePos == 0;
      var filled := FillFileBuffer();
      if !filled {
        ok := false;
        return;
      }
      ok := RetryAfterFill(p0, shifted);
    }

    /** The rescan of `next_line` after a refill that read something. */
    method RetryAfterFill(ghost p0: string, ghost shifted: bool) returns (ok: bool)
      requires Valid() && !onLine
      requires shifted ==> DroppedBlock(p0)
      requires !shifted ==> Pending() == p0
      modifies this, buf
      ensures totalRead >= old(totalRead)
      ensures ok ==> Took(p0)
      ensures !ok ==> Exhausted(p0)
      decreases |input|, 2
    {
      ghost var p1 := Pending();
      ok := NextLine();
      SettleRetry(p0, p1, shifted, ok);
    }

    /** The line found (or not) in the pending text after a fill is the one of the text before it. */
    lemma SettleRetry(p0: string, p1: string, shifted: bool, ok: bool)
      requires shifted ==> |p0| >= FileBufferSize && '\n' !in p0[..FileBufferSize] && p1 == p0[FileBufferSize..]
      requires !shifted ==> p1 == p0
      requires ok ==> Took(p1)
      requires !ok ==> Exhausted(p1)
      ensures ok ==> Took(p0)
      ensures !ok ==> Exhausted(p0)
    {
      var rest := if ok then Rest() else [];
      LineAfterRefill(p0, p1, Pending(), shifted, ok, rest);
    }

    /** The buffered data holds no NUL: a NUL met while scanning it is the one where it ends. */
    lemma NoNulInData()
      requires Valid() && loaded
      ensures forall k :: linePos <= k < dataEnd ==> buf[k] != NUL
    {
      forall k | linePos <= k < dataEnd ensures buf[k] != NUL {
        assert Source[consumed + (k - linePos)] in Source;
      }
    }

    /** Buffered data in which the scan met no '\n' is text with no line end. */
    lemma NoLineInData()
      requires Valid() && loaded && PlainCells(linePos, dataEnd)
      ensures '\n' !in Source[consumed..totalRead]
    {
      var d := Source[consumed..totalRead];
      forall j | 0 <= j < |d| ensures d[j] != '\n' {
        assert buf[linePos + j] == d[j];
      }
    }

    /** The first '\n' of the buffered data is the first '\n' of the pending text. */
    lemma LineInData(pos: nat)
      requires Valid() && loaded && linePos <= pos < dataEnd && buf[pos] == '\n'
      requires forall k :: linePos <= k < pos ==> buf[k] != '\n'
      ensures NewlineAt(Pending()) == pos - linePos
      ensures FirstLine(Pending()) == buf[linePos..pos]
    {
      var p := Pending();
      var m := pos - linePos;
      var d := buf[linePos..pos];
      assert p[m] == buf[pos];
      forall j | 0 <= j < m ensures p[j] == d[j] {
        assert d[j] == buf[linePos + j];
      }
      assert '\n' !in d by {
        forall j | 0 <= j < m ensures d[j] != '\n' {
          assert d[j] == buf[linePos + j];
        }
      }
      FirstLineIs(p, d);
    }

    // -------------------------------------------------------------------------
    // Refill

    /**
     * The file position and end-of-file flag after one `fread` of up to `n`
     * bytes, from unread text `in0` at offset `t0`.
     */
    ghost predicate ReadUpTo(in0: string, t0: nat, n: nat)
      reads this
    {
      var r := if |in0| < n then |in0| else n;
      && input == in0[r..] && eof == (|in0| < n) && totalRead == t0 + r
    }

    /**
     * A refill while a line fills the whole buffer: the buffer-full of text
     * from the pending `p0` had no '\n', and is dropped.
     */
    ghost predicate DroppedBlock(p0: string)
      reads this
    {
      |p0| >= FileBufferSize && '\n' !in p0[..FileBufferSize] && Pending() == p0[FileBufferSize..]
    }

    /**
     * `fill_file_buffer`. It is called when the scan from `linePos` reached
     * the end of the buffered data without meeting a '\n'.
     */
    method FillFileBuffer() returns (ok: bool)
      requires Valid()
      requires loaded ==> PlainCells(linePos, dataEnd)
      modifies this, buf
      ensures Valid() && !onLine
      ensures ok <==> hasFile && !old(eof) && old(input) != []
      ensures !hasFile || old(eof) ==>
        && input == old(input) && eof == old(eof)
        && totalRead == old(totalRead) && loaded == old(loaded) && linePos == old(linePos)
        && unchanged(buf) && fieldPos == old(fieldPos) && Pending() == old(Pending())
      ensures hasFile && !old(eof) ==> ReadUpTo(old(input), old(totalRead), old(RequestSize()))
      ensures ok ==> loaded && linePos == 0
      ensures !ok ==> loaded == old(loaded) && linePos == old(linePos)
      ensures ok && old(loaded) && old(linePos) == 0 ==> DroppedBlock(old(Pending()))
      ensures ok && !(old(loaded) && old(linePos) == 0) ==> Pending() == old(Pending())
      ensures !ok ==> '\n' !in old(Pending()) && '\n' !in Pending() && IsSuffix(Pending(), old(Pending()))
    {
      if !hasFile || eof {
        ok := NoFill();
        return;
      }
      onLine := false;
      if loaded && linePos != 0 {
        ok := FillCompacting();
      } else {
        ok := FillFresh();
      }
    }

    /** `fill_file_buffer` with no file, or at end of file: nothing is read, and no line is left in the data. */
    method NoFill() returns (ok: bool)
      requires Valid() && (!hasFile || eof)
      requires loaded ==> PlainCells(linePos, dataEnd)
      modifies this`onLine
      ensures Valid() && !onLine && !ok
      ensures '\n' !in Pending()
    {
      onLine := false;
      if loaded {
        NoLineInData();
        assert Pending() == Source[consumed..totalRead];
      }
      ok := false;
    }

    /** The refill when a consumed prefix exists: the rest of the data moves to the front first. */
    method FillCompacting() returns (ok: bool)
      requires Valid() && hasFile && !eof && loaded && 0 < linePos && !onLine
      requires PlainCells(linePos, dataEnd)
      modifies this, buf
      ensures Valid() && !onLine && loaded
      ensures ReadUpTo(old(input), old(totalRead), old(linePos))
      ensures ok <==> old(input) != []
      ensures ok ==> linePos == 0 && Pending() == old(Pending())
      ensures !ok ==> linePos == old(linePos) && '\n' !in old(Pending()) && '\n' !in Pending()
      ensures !ok ==> IsSuffix(Pending(), old(Pending()))
    {
      NoLineInData();
      ghost var b0 := buf[..];
      ghost var c := consumed;
      ghost var t := totalRead;
      var n := linePos;
      assert forall k :: n <= k < FileBufferSize ==> b0[k] == Source[c + (k - n)];
      var r := Reload(true, n);
      if r == 0 {
        SettleEmptyCompaction(b0, c, t);
        ok := false;
        return;
      }
      assert old(input)[..r] == Source[t..t + r];
      totalRead := totalRead + r;
      linePos := 0;
      SettleCompaction(b0, n, c, t, r);
      ok := true;
    }

    /**
     * After a compacting refill that read `r > 0` bytes, the front of the
     * array holds the pending text from `consumed` on, up to the new data end.
     */
    ghost method SettleCompaction(b0: seq<char>, n: nat, c: nat, t: nat, r: nat)
      requires buf.Length == FileBufferSize + 1 && NoNul(Source) && hasFile && loaded && !onLine
      requires linePos == 0 && 0 < n <= FileBufferSize && 0 < r <= n
      requires totalRead == t + r <= |Source| && input == Source[t..][r..]
      requires eof ==> input == []
      requires |b0| == FileBufferSize + 1 && b0[FileBufferSize] == NUL
      requires buf[..] == Refill(b0, n, Source[t..t + r])
      requires consumed == c && c + (FileBufferSize - n) == t
      requires forall k :: n <= k < FileBufferSize ==> b0[k] == Source[c + (k - n)]
      requires !eof ==> r == n
      modifies this`dataEnd
      ensures Valid()
    {
      RefillData(b0, n, Source[t..t + r], Source, c);
      assert input == Source[totalRead..];
      dataEnd := FileBufferSize - n + r;
      forall k | 0 <= k < dataEnd ensures buf[k] == Source[c + k] {
        assert buf[k] == buf[..][k];
      }
      assert buf[dataEnd] == buf[..][dataEnd] && buf[FileBufferSize] == buf[..][FileBufferSize];
    }

    /**
     * After a compacting refill that read nothing, `linePos` still points into
     * the moved cells; up to the NUL the refill left, they hold a piece of the
     * file with no '\n' in it.
     */
    ghost method SettleEmptyCompaction(b0: seq<char>, c: nat, t: nat)
      requires buf.Length == FileBufferSize + 1 && NoNul(Source) && hasFile && loaded && !onLine && eof
      requires totalRead == t == |Source| && input == [] && 0 < linePos <= FileBufferSize
      requires |b0| == FileBufferSize + 1 && b0[FileBufferSize] == NUL && buf[..] == Refill(b0, linePos, [])
      requires consumed == c && c + (FileBufferSize - linePos) == t
      requires forall k :: linePos <= k < FileBufferSize ==> b0[k] == Source[c + (k - linePos)]
      requires '\n' !in Source[c..t]
      modifies this`dataEnd, this`consumed
      ensures Valid() && '\n' !in Pending() && IsSuffix(Pending(), Source[c..]) && '\n' !in Source[c..]
    {
      var n := linePos;
      assert Source[c..] == Source[c..t];
      EmptyRefillData(b0, n, Source, c);
      assert Source[c..] == Source[c..t];
      assert buf[FileBufferSize] == buf[..][FileBufferSize];
      if n <= FileBufferSize - n {
        dataEnd := FileBufferSize - n;
        consumed := c + n;
        assert buf[dataEnd] == buf[..][dataEnd];
        forall k | n <= k < dataEnd ensures buf[k] == Source[consumed + (k - n)] {
          assert buf[k] == buf[..][k];
        }
        assert Holds(linePos, dataEnd, consumed);
        assert Pending() == Source[c..][n..];
        SuffixKeepsOut('\n', Pending(), Source[c..]);
      } else {
        dataEnd := FileBufferSize;
        forall k | n <= k < dataEnd ensures buf[k] == Source[consumed + (k - n)] {
          assert buf[k] == buf[..][k];
        }
        assert Holds(linePos, dataEnd, consumed);
      }
      assert Valid();
    }

    /** The refill into the whole buffer: at the start, or when a line has filled the buffer. */
    method FillFresh() returns (ok: bool)
      requires Valid() && hasFile && !eof && (loaded ==> linePos == 0) && !onLine
      requires loaded ==> PlainCells(0, dataEnd)
      modifies this, buf
      ensures Valid() && !onLine
      ensures ReadUpTo(old(input), old(totalRead), FileBufferSize)
      ensures ok <==> old(input) != []
      ensures ok ==> linePos == 0 && loaded
      ensures ok && old(loaded) ==> DroppedBlock(old(Pending()))
      ensures ok && !old(loaded) ==> Pending() == old(Pending())
      ensures !ok ==> loaded == old(loaded) && linePos == old(linePos)
      ensures !ok ==> Pending() == [] && '\n' !in old(Pending())
    {
      ghost var b0 := buf[..];
      ghost var t := totalRead;
      ghost var p0 := Pending();
      if loaded {
        NoLineInData();
        assert p0[..FileBufferSize] == Source[consumed..t];
      }
      var r := Reload(false, FileBufferSize);
      if r == 0 {
        if loaded {
          SettleEmptyFresh(b0, t);
        }
        ok := false;
        return;
      }
      assert old(input)[..r] == Source[t..t + r];
      consumed := t;
      totalRead := totalRead + r;
      linePos := 0;
      loaded := true;
      SettleFresh(b0, t, r);
      assert old(loaded) ==> Pending() == p0[FileBufferSize..];
      ok := true;
    }

    /** After a whole-buffer refill that read `r > 0` cells: the data starts at the first cell read. */
    ghost method SettleFresh(b0: seq<char>, t: nat, r: nat)
      requires buf.Length == FileBufferSize + 1 && NoNul(Source) && hasFile && loaded && !onLine
      requires linePos == 0 && 0 < r <= FileBufferSize && consumed == t
      requires totalRead == t + r <= |Source| && input == Source[t..][r..]
      requires eof ==> input == []
      requires !eof ==> r == FileBufferSize
      requires |b0| == FileBufferSize + 1 && b0[FileBufferSize] == NUL
      requires buf[..] == Refill(b0, FileBufferSize, Source[t..t + r])
      modifies this`dataEnd
      ensures Valid() && Pending() == Source[t..]
    {
      SettleCompaction(b0, FileBufferSize, t, t, r);
    }

    /** After a whole-buffer refill that read nothing: the data is empty, and everything read is consumed. */
    ghost method SettleEmptyFresh(b0: seq<char>, t: nat)
      requires buf.Length == FileBufferSize + 1 && |b0| == FileBufferSize + 1 && b0[FileBufferSize] == NUL
      requires buf[..] == Refill(b0, FileBufferSize, [])
      requires NoNul(Source) && hasFile && loaded && !onLine && eof && input == []
      requires totalRead == t == |Source| && linePos == 0
      modifies this`dataEnd, this`consumed
      ensures Valid() && Pending() == []
    {
      RefillAt(b0, FileBufferSize, [], 0);
      RefillAt(b0, FileBufferSize, [], FileBufferSize);
      assert buf[0] == buf[..][0] && buf[FileBufferSize] == buf[..][FileBufferSize];
      dataEnd := 0;
      consumed := t;
    }

    /**
     * The two steps of a refill on the array: when `compact`, `memmove` of
     * the cells after the consumed prefix to the front; then the `fread` into
     * the freed end.
     */
    method Reload(compact: bool, n: nat) returns (r: nat)
      requires buf.Length == FileBufferSize + 1 && 1 <= n <= FileBufferSize
      requires !compact ==> n == FileBufferSize
      modifies buf, this`input, this`eof
      ensures r == if |old(input)| < n then |old(input)| else n
      ensures input == old(input)[r..] && eof == (|old(input)| < n)
      ensures buf[..] == Refill(old(buf[..]), n, old(input)[..r])
    {
      ghost var b0 := buf[..];
      ghost var in0 := input;
      ghost var m := b0[n..FileBufferSize] + b0[FileBufferSize - n..];
      if compact {
        MoveTail(n);
      } else {
        assert b0 == b0[FileBufferSize..FileBufferSize] + b0[0..];
      }
      r := ReadChunk(FileBufferSize - n, n);
      RefillSteps(b0, n, in0[..r], m, buf[..]);
    }

    /** `memmove`: the cells from `from` up to the terminator move to the front. */
    method MoveTail(from: nat)
      requires buf.Length == FileBufferSize + 1 && 1 <= from <= FileBufferSize
      modifies buf
      ensures buf[..] == old(buf[from..FileBufferSize]) + old(buf[FileBufferSize - from..])
    {
      forall i | 0 <= i < FileBufferSize - from {
        buf[i] := buf[i + from];
      }
    }

    /**
     * `fread` of up to `n` bytes into the cells from `start`, followed by the
     * NUL after a short read that this model adds.
     */
    method ReadChunk(start: nat, n: nat) returns (r: nat)
      requires buf.Length == FileBufferSize + 1 && 1 <= n && start + n == FileBufferSize
      modifies buf, this`input, this`eof
      ensures r == if |old(input)| < n then |old(input)| else n
      ensures input == old(input)[r..] && eof == (|old(input)| < n)
      ensures buf[..] == old(buf[..start]) + old(input)[..r]
        + (if r < n then [NUL] + old(buf[start + r + 1..]) else old(buf[start + r..]))
    {
      r := if |input| < n then |input| else n;
      forall i | 0 <= i < r {
        buf[start + i] := input[i];
      }
      if r < n {
        buf[start + r] := NUL;
      }
      eof := |input| < n;
      input := input[r..];
    }

    // -------------------------------------------------------------------------
    // Fields

    /** `has_more_field`: the current line still has a field to give. */
    function HasMoreField(): (r: bool)
      reads this, buf
      requires Valid() && onLine
      ensures r <==> RemainingFields() != []
    {
      buf[fieldPos] != NUL
    }

    /**
     * `move_next_field`: cuts the next field off the current line (its tab
     * becomes NUL) and gives it; None when the line has no field left.
     */
    method MoveNextField() returns (r: Option<string>)
      requires Valid() && onLine
      modifies this`fieldPos, buf
      ensures Valid() && onLine
      ensures r.None? <==> old(RemainingFields()) == []
      ensures r.Some? ==> old(RemainingFields()) == [r.value] + RemainingFields()
      ensures r.None? ==> RemainingFields() == old(RemainingFields())
    {
      if buf[fieldPos] == NUL {
        r := None;
        return;
      }
      ghost var t := Rest();
      ghost var f0 := fieldPos;
      var p := ScanField();
      var field := buf[fieldPos..p];
      assert field == t[..p - f0];
      EndField(p);
      CutField(t, p - f0, Rest());
      r := Some(field);
    }

    /** The end of `move_next_field`: a tab at `p` becomes NUL and the cursor moves past it; at the NUL it stays. */
    method EndField(p: nat)
      requires Valid() && onLine && fieldPos <= p <= lineEnd && p - fieldPos == TabAt(Rest())
      modifies this`fieldPos, buf
      ensures Valid() && onLine
      ensures Rest() == if p < old(lineEnd) then old(Rest())[p - old(fieldPos) + 1..] else []
    {
      ghost var t := Rest();
      if buf[p] == '\t' {
        buf[p] := NUL;
        fieldPos := p + 1;
        assert Rest() == t[p - old(fieldPos) + 1..];
      } else {
        fieldPos := p;
      }
    }

    /** The scan of `move_next_field` for the tab, or the NUL, that ends the next field. */
    method ScanField() returns (p: nat)
      requires Valid() && onLine
      ensures fieldPos <= p <= lineEnd && p - fieldPos == TabAt(Rest())
      ensures buf[fieldPos..p] == Rest()[..p - fieldPos]
    {
      p := fieldPos;
      while buf[p] != '\t' && buf[p] != NUL
        invariant fieldPos <= p <= lineEnd
        invariant forall k :: fieldPos <= k < p ==> buf[k] != '\t'
        decreases lineEnd - p
      {
        p := p + 1;
      }
      TabAtIs(Rest(), p - fieldPos);
    }

    /** `skip_field`: drops the next field; false when none is left. */
    method SkipField() returns (ok: bool)
      requires Valid() && onLine
      modifies this`fieldPos, buf
      ensures Valid() && onLine
      ensures ok <==> old(RemainingFields()) != []
      ensures RemainingFields() == if ok then old(RemainingFields())[1..] else old(RemainingFields())
    {
      var f := MoveNextField();
      ok := f.Some?;
    }

    /** `next_field<T>`: the next field converted to `kind`; the caller must know that one is left. */
    method NextField(kind: Kind) returns (v: Value)
      requires Valid() && onLine && RemainingFields() != []
      modifies this`fieldPos, buf
      ensures Valid() && onLine
      ensures v == Val(kind, old(RemainingFields())[0])
      ensures RemainingFields() == old(RemainingFields())[1..]
    {
      var f := MoveNextField();
      v := Val(kind, f.value);
    }

    /** The copy of the cells from the field start up to the NUL that ends the line. */
    method CopyRest() returns (s: string)
      requires Valid() && onLine
      ensures s == Rest()
    {
      s := [];
      var p := fieldPos;
      while buf[p] != NUL
        invariant fieldPos <= p <= lineEnd
        invariant s == buf[fieldPos..p]
        decreases lineEnd - p
      {
        s := s + [buf[p]];
        p := p + 1;
      }
    }

    /** `next_all`: the unconsumed rest of the current line, tabs and all. */
    method NextAll() returns (s: string)
      requires Valid() && onLine
      ensures s == Rest() && '\n' !in s && NoNul(s)
      ensures |s| == 0 || s[|s| - 1] != '\t' ==> JoinTabs(RemainingFields()) == s
    {
      s := CopyRest();
      RestJoins();
    }

    /** The rest of the line is plain text, and the fields left on it join back to it unless it ends in a tab. */
    lemma RestJoins()
      requires Valid() && onLine
      ensures '\n' !in Rest() && NoNul(Rest())
      ensures |Rest()| == 0 || Rest()[|Rest()| - 1] != '\t' ==> JoinTabs(RemainingFields()) == Rest()
    {
      var s := Rest();
      if |s| == 0 || s[|s| - 1] != '\t' {
        JoinFields(s);
      }
    }
  }

  /**
   * The loop `while (p.next_line())` over a fresh reader: when every line
   * fits in the buffer, it meets exactly the lines of the file, in order.
   */
  method ReadAllLines(p: Parser) returns (lines: seq<string>)
    requires p.Valid() && !p.loaded && LinesFit(p.Source)
    modifies p, p.buf
    ensures lines == Lines(p.Source)
  {
    lines := [];
    var more := true;
    while more
      invariant p.Valid() && LinesFit(p.Pending())
      invariant more ==> Lines(p.Source) == lines + Lines(p.Pending())
      invariant !more ==> Lines(p.Source) == lines
      decreases |p.Pending()|, more
    {
      ghost var p0 := p.Pending();
      var line;
      more, line := NextRow(p);
      if more {
        LinesTrack(p.Source, lines, p0, [line], p.Pending());
        lines := lines + [line];
      } else {
        assert Lines(p0) == [] + Lines(p.Pending()) && Lines(p.Pending()) == [];
        assert lines + [] == lines;
      }
    }
  }

  /**
   * One turn of that loop: `next_line`, then the whole line through
   * `next_all`. When the pending lines fit the buffer, the line is the first
   * of them; when it returns false, the file has been read to its end.
   */
  method NextRow(p: Parser) returns (more: bool, line: string)
    requires p.Valid()
    modifies p, p.buf
    ensures p.Valid()
    ensures more ==> p.onLine && |p.Pending()| < |old(p.Pending())|
    ensures !more ==> '\n' !in p.Pending() && p.input == [] && |p.Pending()| <= |old(p.Pending())|
    ensures LinesFit(old(p.Pending())) ==>
      && LinesFit(p.Pending())
      && Lines(old(p.Pending())) == (if more then [line] else []) + Lines(p.Pending())
  {
    ghost var p0 := p.Pending();
    more := p.NextLine();
    line := "";
    if more {
      line := p.NextAll();
      if LinesFit(p0) {
        LinesFitFirst(p0);
        LinesStep(p0);
      }
    }
  }
}
