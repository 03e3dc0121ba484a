/**
 * Names of dump files and their discovery (`protodump::dump_file_pattern`,
 * the prefix cut in `tsv_to_bgz`, and `find_dump_files`).
 *
 * File `k` of an archive is `prefix + "." + %02d(k) + "." + suffix`; the
 * prefix is the input path without its last '.'-extension.
 */
module DumpNaming {
  import opened Common
  import opened TsvParser

  /** The index of the last '.' in `s`, or -1 when there is none (`find_last_of('.')`). */
  function LastDot(s: string): (k: int)
    ensures -1 <= k < |s|
    ensures k >= 0 ==> s[k] == '.'
    ensures forall j :: k < j < |s| ==> s[j] != '.'
  {
    if |s| == 0 then -1
    else if s[|s| - 1] == '.' then |s| - 1
    else LastDot(s[..|s| - 1])
  }

  /**
   * The dump file prefix: the input path cut at its last '.', or the whole
   * path when it has none. The '.' may sit anywhere, a directory name included.
   */
  function StripExtension(path: string): (prefix: string)
    ensures '.' !in path ==> prefix == path
    ensures '.' in path ==>
      && |prefix| < |path| && prefix == path[..|prefix|]
      && path[|prefix|] == '.' && '.' !in path[|prefix| + 1..]
  {
    var k := LastDot(path);
    if k < 0 then path else path[..k]
  }

  /** The character of decimal digit `d`. */
  function DigitChar(d: nat): (c: char)
    requires d < 10
    ensures IsDigit(c)
  {
    ('0' as int + d) as char
  }

  /** `%d` of a non-negative number: its decimal digits, no leading zero. */
  function Decimal(n: nat): (s: string)
    ensures 1 <= |s|
    ensures forall i :: 0 <= i < |s| ==> IsDigit(s[i])
  {
    if n < 10 then [DigitChar(n)] else Decimal(n / 10) + [DigitChar(n % 10)]
  }

  /** `%02d`: the decimal digits, padded with one '0' in front to at least two. */
  function Pad2(n: nat): (s: string)
    ensures 2 <= |s|
    ensures forall i :: 0 <= i < |s| ==> IsDigit(s[i])
  {
    if n < 10 then ['0'] + Decimal(n) else Decimal(n)
  }

  /** `"%s.%02d.%s"`: the name of dump file `k`. */
  function DumpName(prefix: string, k: nat, suffix: string): string {
    prefix + "." + Pad2(k) + "." + suffix
  }

  // ---------------------------------------------------------------------------
  // Reading an index back

  /** A digit appended to a run of digits: the run's value shifts one decimal place. */
  lemma {:induction false} DigitRunSnoc(s: string, c: char)
    requires forall i :: 0 <= i < |s| ==> IsDigit(s[i])
    requires IsDigit(c)
    ensures DigitRun(s + [c]) == (10 * DigitRun(s).0 + (c as int - '0' as int), |s| + 1)
    decreases |s|
  {
    if |s| == 0 {
      assert DigitRun([c]) == ((c as int - '0' as int) * Pow10(0) + 0, 1) by {
        assert [c][1..] == [];
      }
    } else {
      assert (s + [c])[1..] == s[1..] + [c];
      DigitRunSnoc(s[1..], c);
      DigitRunAll(s[1..]);
      var v := s[0] as int - '0' as int;
      var d := c as int - '0' as int;
      var w := DigitRun(s[1..]).0;
      var pw := Pow10(|s| - 1);
      assert DigitRun(s + [c]).0 == v * Pow10(|s|) + DigitRun(s[1..] + [c]).0;
      assert DigitRun(s).0 == v * pw + w;
      assert Pow10(|s|) == 10 * pw;
      ShiftPlace(v, pw);
    }
  }

  lemma ShiftPlace(v: int, p: int)
    ensures v * (10 * p) == 10 * (v * p)
  {
  }

  /** A run of digits is read to its end. */
  lemma {:induction false} DigitRunAll(s: string)
    requires forall i :: 0 <= i < |s| ==> IsDigit(s[i])
    ensures DigitRun(s).1 == |s|
    decreases |s|
  {
    if |s| > 0 {
      DigitRunAll(s[1..]);
    }
  }

  /** Reading the digits of `%d` back gives the number. */
  lemma {:induction false} DecimalValue(n: nat)
    ensures DigitRun(Decimal(n)) == (n, |Decimal(n)|)
    decreases n
  {
    if n < 10 {
      assert Decimal(n)[1..] == [];
    } else {
      DecimalValue(n / 10);
      DigitRunSnoc(Decimal(n / 10), DigitChar(n % 10));
    }
  }

  /** `atol` of the `%02d` text gives the index back, the padding zero included. */
  lemma Pad2Value(n: nat)
    requires n <= LongMax
    ensures ValLong(Pad2(n)) == n
  {
    DecimalValue(n);
    var s := Pad2(n);
    if n < 10 {
      assert s == ['0'] + Decimal(n);
      assert s[1..] == Decimal(n);
      assert DigitRun(s).0 == 0 * Pow10(1) + DigitRun(Decimal(n)).0;
    }
    assert !IsSpace(s[0]) && s[0] != '-' && s[0] != '+';
  }

  /** Two dump files of one archive have the same name only when they have the same index. */
  lemma DumpNameInjective(prefix: string, suffix: string, i: nat, j: nat)
    requires DumpName(prefix, i, suffix) == DumpName(prefix, j, suffix)
    ensures i == j
  {
    var a, b := Pad2(i) + "." + suffix, Pad2(j) + "." + suffix;
    var name := DumpName(prefix, i, suffix);
    var h := |prefix| + 1;
    assert name == (prefix + ".") + a;
    assert name == (prefix + ".") + b;
    assert a == name[h..] == b;
    assert a[|Pad2(i)|] == '.' && b[|Pad2(j)|] == '.';
    if |Pad2(i)| < |Pad2(j)| {
      assert false;
    } else if |Pad2(j)| < |Pad2(i)| {
      assert false;
    }
    assert Pad2(i) == a[..|Pad2(i)|] == b[..|Pad2(j)|] == Pad2(j);
    DecimalValue(i);
    DecimalValue(j);
    Pad2Digits(i);
    Pad2Digits(j);
  }

  /** The value of the `%02d` text, as a run of digits. */
  lemma Pad2Digits(n: nat)
    ensures DigitRun(Pad2(n)).0 == n
  {
    DecimalValue(n);
    if n < 10 {
      assert Pad2(n)[1..] == Decimal(n);
      assert DigitRun(Pad2(n)).0 == 0 * Pow10(1) + DigitRun(Decimal(n)).0;
    }
  }

  // ---------------------------------------------------------------------------
  // Discovery

  /** The names of files 0 .. n-1 of an archive, in index order. */
  function DumpNames(prefix: string, suffix: string, n: nat): (names: seq<string>)
    ensures |names| == n
    ensures forall j :: 0 <= j < n ==> names[j] == DumpName(prefix, j, suffix)
  {
    if n == 0 then [] else DumpNames(prefix, suffix, n - 1) + [DumpName(prefix, n - 1, suffix)]
  }

  /** A name that is not among the first `n` names has an index of at least `n`. */
  lemma NotAmongFirst(prefix: string, suffix: string, n: nat)
    ensures DumpName(prefix, n, suffix) !in DumpNames(prefix, suffix, n)
  {
    if DumpName(prefix, n, suffix) in DumpNames(prefix, suffix, n) {
      var j :| 0 <= j < n && DumpNames(prefix, suffix, n)[j] == DumpName(prefix, n, suffix);
      DumpNameInjective(prefix, suffix, j, n);
    }
  }

  /**
   * `find_dump_files`: the names of files 0, 1, 2, ... as long as each one
   * can be opened; it stops at the first that cannot, whatever comes later.
   * `existing` stands for the files that `open` succeeds on.
   */
  method FindDumpFiles(prefix: string, suffix: string, existing: set<string>) returns (names: seq<string>)
    ensures names == DumpNames(prefix, suffix, |names|)
    ensures forall j :: 0 <= j < |names| ==> names[j] in existing
    ensures DumpName(prefix, |names|, suffix) !in existing
  {
    names := [];
    ghost var seen: set<string> := {};
    var dumpNo := 0;
    while DumpName(prefix, dumpNo, suffix) in existing
      invariant names == DumpNames(prefix, suffix, dumpNo)
      invariant seen <= existing
      invariant forall x :: x in names <==> x in seen
      decreases |existing - seen|
    {
      var name := DumpName(prefix, dumpNo, suffix);
      NotAmongFirst(prefix, suffix, dumpNo);
      assert existing - (seen + {name}) < existing - seen by {
        assert name in existing - seen;
      }
      names := names + [name];
      seen := seen + {name};
      dumpNo := dumpNo + 1;
    }
  }

  /**
   * Files 0, 1 and 3 exist and file 2 does not: discovery returns files 0
   * and 1 and never looks past the gap.
   */
  method FindStopsAtGap(prefix: string, suffix: string) returns (names: seq<string>)
    ensures names == [DumpName(prefix, 0, suffix), DumpName(prefix, 1, suffix)]
  {
    var existing := {DumpName(prefix, 0, suffix), DumpName(prefix, 1, suffix), DumpName(prefix, 3, suffix)};
    names := FindDumpFiles(prefix, suffix, existing);
    if |names| == 0 || |names| == 1 {
      assert false;
    }
    if |names| > 2 {
      assert names[2] in existing;
      if names[2] == DumpName(prefix, 0, suffix) {
        DumpNameInjective(prefix, suffix, 2, 0);
      } else if names[2] == DumpName(prefix, 1, suffix) {
        DumpNameInjective(prefix, suffix, 2, 1);
      } else {
        DumpNameInjective(prefix, suffix, 2, 3);
      }
      assert false;
    }
    assert DumpNames(prefix, suffix, 2) == [DumpName(prefix, 0, suffix), DumpName(prefix, 1, suffix)];
  }
}
