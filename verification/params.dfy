/**
 * The numeric parameters of an escape sequence, as the demo emulation scans
 * them: a single left-to-right pass that turns each run of decimal digits
 * ended by another character into a number, turns each `;` that does not
 * end a digit run into the blank parameter 1, and ignores everything else.
 */
module Params {
  import opened Cell

  const SEMICOLON: CodeUnit := 0x3B

  predicate IsDigit(c: CodeUnit) {
    0x30 <= c <= 0x39
  }

  function DigitValue(c: CodeUnit): nat
    requires IsDigit(c)
  {
    (c - 0x30) as int
  }

  /** The decimal value of a digit string, most significant digit first. */
  function Number(digits: seq<CodeUnit>): nat
    requires forall k :: 0 <= k < |digits| ==> IsDigit(digits[k])
  {
    if |digits| == 0 then 0
    else Number(digits[..|digits| - 1]) * 10 + DigitValue(digits[|digits| - 1])
  }

  /** The number of leading digits of `t`. */
  function RunLength(t: seq<CodeUnit>): (n: nat)
    ensures n <= |t|
    ensures forall k :: 0 <= k < n ==> IsDigit(t[k])
    ensures n < |t| ==> !IsDigit(t[n])
  {
    if |t| == 0 || !IsDigit(t[0]) then 0 else 1 + RunLength(t[1..])
  }

  /**
   * The parameters of `t`, defined run by run: a digit run followed by a
   * character yields its value and consumes that character too; a digit run
   * reaching the end of `t` yields nothing; a `;` yields 1; any other
   * character is skipped.
   */
  function ParamsOf(t: seq<CodeUnit>): seq<nat>
    decreases |t|
  {
    if |t| == 0 then []
    else if IsDigit(t[0]) then
      var n := RunLength(t);
      if n == |t| then [] else [Number(t[..n])] + ParamsOf(t[n + 1..])
    else if t[0] == SEMICOLON then [1] + ParamsOf(t[1..])
    else ParamsOf(t[1..])
  }

  /** The characters `scanParams(seq, off, len)` looks at: none when `len <= 0`. */
  function Slice(s: seq<CodeUnit>, off: int, len: int): seq<CodeUnit>
    requires len <= 0 || (0 <= off && off + len <= |s|)
  {
    if len <= 0 then [] else s[off..off + len]
  }

  /** `scanParams(seq, off, len)`, as the emulation's handlers see it. */
  function Scan(s: seq<CodeUnit>, off: int, len: int): seq<nat>
    requires len <= 0 || (0 <= off && off + len <= |s|)
  {
    ParamsOf(Slice(s, off, len))
  }

  /** A digit run of length `n` ended by a non-digit (or the end) has run length `n`. */
  lemma {:induction false} RunLengthIs(t: seq<CodeUnit>, n: nat)
    requires n <= |t| && forall k :: 0 <= k < n ==> IsDigit(t[k])
    requires n < |t| ==> !IsDigit(t[n])
    ensures RunLength(t) == n
  {
    if n > 0 {
      assert forall k :: 0 <= k < n - 1 ==> IsDigit(t[1..][k]) by {
        forall k | 0 <= k < n - 1 ensures IsDigit(t[1..][k]) {
          assert t[1..][k] == t[k + 1];
        }
      }
      if n - 1 < |t[1..]| {
        assert t[1..][n - 1] == t[n];
      }
      RunLengthIs(t[1..], n - 1);
    }
  }

  /** Each parameter consumes at least one character, so there are at most `|t|`. */
  lemma {:induction false} ParamsOfLength(t: seq<CodeUnit>)
    ensures |ParamsOf(t)| <= |t|
    decreases |t|
  {
    if |t| > 0 {
      if IsDigit(t[0]) {
        var n := RunLength(t);
        if n < |t| {
          ParamsOfLength(t[n + 1..]);
        }
      } else {
        ParamsOfLength(t[1..]);
      }
    }
  }

  /** A slice without digits and without `;` has no parameters. */
  lemma {:induction false} NoParamsWithoutDigitsOrSemicolons(t: seq<CodeUnit>)
    requires forall k :: 0 <= k < |t| ==> !IsDigit(t[k]) && t[k] != SEMICOLON
    ensures ParamsOf(t) == []
    decreases |t|
  {
    if |t| > 0 {
      assert forall k :: 0 <= k < |t| - 1 ==> t[1..][k] == t[k + 1];
      NoParamsWithoutDigitsOrSemicolons(t[1..]);
    }
  }

  /**
   * `scanParams(seq, off, len)`: the loop of the source, with `inNumber`
   * and `begin` tracking the digit run being read.
   */
  method ScanParams(s: seq<CodeUnit>, off: int, len: int) returns (list: seq<nat>)
    requires len <= 0 || (0 <= off && off + len <= |s|)
    ensures list == Scan(s, off, len)
    ensures |list| <= Max0(len)
  {
    list := ScanSlice(Slice(s, off, len));
  }

  /** The loop of `scanParams` over the characters of the slice. */
  method ScanSlice(t: seq<CodeUnit>) returns (list: seq<nat>)
    ensures list == ParamsOf(t)
    ensures |list| <= |t|
  {
    list := [];
    var begin := -1;
    var inNumber := false;
    var j := 0;
    while j < |t|
      invariant 0 <= j <= |t|
      invariant !inNumber ==> list + ParamsOf(t[j..]) == ParamsOf(t)
      invariant inNumber ==> 0 <= begin < j
      invariant inNumber ==> forall k :: begin <= k < j ==> IsDigit(t[k])
      invariant inNumber ==> list + ParamsOf(t[begin..]) == ParamsOf(t)
    {
      if inNumber {
        inNumber := IsDigit(t[j]);
        if !inNumber {
          list := EndRun(t, list, begin, j);
        }
      } else if IsDigit(t[j]) {
        inNumber := true;
        begin := j;
      } else {
        list := Other(t, list, j);
      }
      j := j + 1;
    }
    if inNumber {
      RunToEnd(t, begin);
    }
    ParamsOfLength(t);
  }

  /** The list after a digit run `t[begin..j]` is ended by `t[j]`. */
  function EndRun(t: seq<CodeUnit>, list: seq<nat>, begin: int, j: int): (r: seq<nat>)
    requires 0 <= begin < j < |t|
    requires forall k :: begin <= k < j ==> IsDigit(t[k])
    requires !IsDigit(t[j])
    ensures r + ParamsOf(t[j + 1..]) == list + ParamsOf(t[begin..])
  {
    RunStep(t, begin, j);
    var x := Number(t[begin..j]);
    assert list + [x] + ParamsOf(t[j + 1..]) == list + ([x] + ParamsOf(t[j + 1..]));
    list + [x]
  }

  /** The list after a character `t[j]` outside any digit run. */
  function Other(t: seq<CodeUnit>, list: seq<nat>, j: int): (r: seq<nat>)
    requires 0 <= j < |t| && !IsDigit(t[j])
    ensures r + ParamsOf(t[j + 1..]) == list + ParamsOf(t[j..])
  {
    OtherStep(t, j);
    var x := if t[j] == SEMICOLON then [1] else [];
    assert list + x + ParamsOf(t[j + 1..]) == list + (x + ParamsOf(t[j + 1..]));
    list + x
  }

  function Max0(n: int): nat { if n < 0 then 0 else n }

  /** A digit run `t[begin..j]` ended by `t[j]` yields its number and resumes after `t[j]`. */
  lemma RunStep(t: seq<CodeUnit>, begin: int, j: int)
    requires 0 <= begin < j < |t|
    requires forall k :: begin <= k < j ==> IsDigit(t[k])
    requires !IsDigit(t[j])
    ensures forall k :: 0 <= k < j - begin ==> IsDigit(t[begin..j][k])
    ensures ParamsOf(t[begin..]) == [Number(t[begin..j])] + ParamsOf(t[j + 1..])
  {
    var u := t[begin..];
    assert forall k :: 0 <= k < j - begin ==> u[k] == t[begin + k];
    assert u[j - begin] == t[j];
    RunLengthIs(u, j - begin);
    assert u[..j - begin] == t[begin..j];
    assert u[j - begin + 1..] == t[j + 1..];
  }

  /** A character that starts no digit run contributes 1 if it is `;` and nothing otherwise. */
  lemma OtherStep(t: seq<CodeUnit>, j: int)
    requires 0 <= j < |t| && !IsDigit(t[j])
    ensures ParamsOf(t[j..]) == (if t[j] == SEMICOLON then [1] else []) + ParamsOf(t[j + 1..])
  {
    assert t[j..][0] == t[j];
    assert t[j..][1..] == t[j + 1..];
  }

  /** A digit run reaching the end of the slice yields nothing. */
  lemma RunToEnd(t: seq<CodeUnit>, begin: int)
    requires 0 <= begin < |t|
    requires forall k :: begin <= k < |t| ==> IsDigit(t[k])
    ensures ParamsOf(t[begin..]) == []
  {
    var u := t[begin..];
    assert forall k :: 0 <= k < |u| ==> u[k] == t[begin + k];
    RunLengthIs(u, |u|);
  }

  /** `ESC[5;;12H` gives 5, then 1 for the blank parameter, then 12. */
  lemma ScanExampleBlankMiddle()
    ensures ParamsOf([0x1B, 0x5B, 0x35, 0x3B, 0x3B, 0x31, 0x32, 0x48]) == [5, 1, 12]
  {
    BlankMiddle([0x1B, 0x5B, 0x35, 0x3B, 0x3B, 0x31, 0x32, 0x48]);
  }

  /** Any text spelling `ESC[5;;12H`, taken apart one step at a time. */
  lemma BlankMiddle(a: seq<CodeUnit>)
    requires |a| == 8 && a[0] == 0x1B && a[1] == 0x5B && a[2] == 0x35 && a[3] == 0x3B
    requires a[4] == 0x3B && a[5] == 0x31 && a[6] == 0x32 && a[7] == 0x48
    ensures ParamsOf(a) == [5, 1, 12]
  {
    assert ParamsOf(a[5..]) == [12] by { Twelve(a[5..]); }
    assert ParamsOf(a[4..]) == [1] + ParamsOf(a[5..]) by { OtherStep(a, 4); }
    assert ParamsOf(a[2..]) == [5] + ParamsOf(a[4..]) by {
      Single(a[2..], 0x35);
      assert a[2..][2..] == a[4..];
    }
    assert ParamsOf(a[1..]) == ParamsOf(a[2..]) by { OtherStep(a, 1); }
    assert ParamsOf(a) == ParamsOf(a[1..]) by {
      OtherStep(a, 0);
      assert a[0..] == a;
    }
  }

  /** `ESC[5;H` gives only 5: the `;` ends the run and is not a blank parameter. */
  lemma ScanExampleTrailingSemicolon()
    ensures ParamsOf([0x1B, 0x5B, 0x35, 0x3B, 0x48]) == [5]
  {
    var b: seq<CodeUnit> := [0x1B, 0x5B, 0x35, 0x3B, 0x48];
    OtherStep(b, 0);
    OtherStep(b, 1);
    assert b[0..] == b && b[1..][1..] == b[2..];
    assert ParamsOf(b[2..]) == [5] + ParamsOf(b[4..]) by { Single(b[2..], 0x35); }
    OtherStep(b, 4);
    assert b[4..][1..] == [];
  }

  /** A digit run reaching the end of the slice is dropped: `5;;12` gives 5 and 1. */
  lemma ScanExampleRunAtEnd()
    ensures ParamsOf([0x35, 0x3B, 0x3B, 0x31, 0x32]) == [5, 1]
  {
    var c: seq<CodeUnit> := [0x35, 0x3B, 0x3B, 0x31, 0x32];
    assert ParamsOf(c) == [5] + ParamsOf(c[2..]) by { Single(c, 0x35); }
    OtherStep(c, 2);
    assert c[2..] == c[2..][0..] && c[2..][1..] == c[3..];
    RunToEnd(c, 3);
  }

  /** A lone `;` is one blank parameter. */
  lemma ScanExampleLoneSemicolon()
    ensures ParamsOf([0x3B]) == [1]
  {
    OtherStep([0x3B], 0);
  }

  /** A one-digit run ended by a non-digit. */
  lemma Single(t: seq<CodeUnit>, d: CodeUnit)
    requires |t| >= 2 && t[0] == d && IsDigit(d) && !IsDigit(t[1])
    ensures ParamsOf(t) == [DigitValue(d)] + ParamsOf(t[2..])
  {
    RunLengthIs(t, 1);
    var u := t[..1];
    assert u == [d] && u[..0] == [];
    assert Number(u) == Number([]) * 10 + DigitValue(d);
  }

  /** The run `12` ended by a non-digit. */
  lemma Twelve(t: seq<CodeUnit>)
    requires |t| == 3 && t[0] == 0x31 && t[1] == 0x32 && !IsDigit(t[2])
    ensures ParamsOf(t) == [12]
  {
    RunLengthIs(t, 2);
    var d := t[..2];
    assert d == [0x31, 0x32];
    var e := d[..1];
    assert e == [0x31] && e[..0] == [];
    assert DigitValue(0x31) == 1 && DigitValue(0x32) == 2;
    assert Number(e) == 1;
    assert Number(d) == Number(e) * 10 + DigitValue(0x32);
    assert t[3..] == [];
  }
}
