/** The MD tag of a SAM record (the SAMtags document, tag MD): a string of
    matched-base counts separated by mismatched bases and deletions, with the
    grammar `[0-9]+(([A-Z]|\^[A-Z]+)[0-9]+)*`, and `calcScoreFromMD`, which
    turns it into a proxy alignment score. */
module MdTag {
  import opened JavaInt
  import opened JavaSplit

  predicate IsDigit(c: char) { '0' <= c <= '9' }
  predicate IsUpper(c: char) { 'A' <= c <= 'Z' }

  /** The character class of the separator regex `[a-zA-Z^]+`. */
  predicate IsOpChar(c: char) { 'a' <= c <= 'z' || 'A' <= c <= 'Z' || c == '^' }
  predicate NotOpChar(c: char) { !IsOpChar(c) }

  predicate AllDigits(s: string) {
    forall i :: 0 <= i < |s| ==> IsDigit(s[i])
  }

  // ---------------------------------------------------------------------------
  // The grammar

  /** Length of the operation at the head of `t`: one mismatched base `[A-Z]`,
      or a deletion `\^[A-Z]+`; 0 when `t` does not start with one. */
  function OpLength(t: string): (n: nat)
    ensures n <= |t|
    ensures forall i :: 0 <= i < n ==> IsOpChar(t[i])
  {
    if |t| > 0 && IsUpper(t[0]) then 1
    else if |t| > 0 && t[0] == '^' && Span(t[1..], IsUpper) > 0 then 1 + Span(t[1..], IsUpper)
    else 0
  }

  /** Length of the decimal run at the head of `md`. */
  function RunLength(md: string): (n: nat)
    ensures n <= |md|
  {
    Span(md, IsDigit)
  }

  /** Length of the operation that follows the head run. */
  function OpAfterRun(md: string): (n: nat)
    ensures RunLength(md) + n <= |md|
  {
    OpLength(md[RunLength(md)..])
  }

  /** What is left after the head run and the operation after it. */
  function AfterOp(md: string): string
  {
    md[RunLength(md) + OpAfterRun(md)..]
  }

  /** `md` matches `[0-9]+(([A-Z]|\^[A-Z]+)[0-9]+)*`. */
  predicate WellFormedMD(md: string)
    decreases |md|
  {
    0 < RunLength(md) &&
    (RunLength(md) == |md| || (0 < OpAfterRun(md) && WellFormedMD(AfterOp(md))))
  }

  /** The decimal runs of a well-formed MD string, as the grammar reads them. */
  function DigitRuns(md: string): (r: seq<string>)
    requires WellFormedMD(md)
    ensures |r| >= 1
    ensures forall i :: 0 <= i < |r| ==> r[i] != "" && AllDigits(r[i])
    decreases |md|
  {
    if RunLength(md) == |md| then [md]
    else [md[..RunLength(md)]] + DigitRuns(AfterOp(md))
  }

  /** Value of a string of decimal digits (what `Integer.parseInt` returns
      for one that fits in an `int`). */
  function Decimal(s: string): nat
    requires AllDigits(s)
  {
    if s == [] then 0
    else 10 * Decimal(s[..|s| - 1]) + (s[|s| - 1] as int - '0' as int)
  }

  function SumDecimals(xs: seq<string>): nat
    requires forall i :: 0 <= i < |xs| ==> AllDigits(xs[i])
  {
    if xs == [] then 0
    else SumDecimals(xs[..|xs| - 1]) + Decimal(xs[|xs| - 1])
  }

  lemma SumDecimalsStep(xs: seq<string>, i: nat)
    requires i < |xs|
    requires forall j :: 0 <= j < |xs| ==> AllDigits(xs[j])
    ensures SumDecimals(xs[..i + 1]) == SumDecimals(xs[..i]) + Decimal(xs[i])
  {
    assert xs[..i + 1][..i] == xs[..i];
  }

  /** Adding one more run to a running total kept in an `int` gives the
      wrapped sum of one more run. */
  lemma WrappedSumStep(xs: seq<string>, i: nat, total: int32, n: int)
    requires i < |xs|
    requires forall j :: 0 <= j < |xs| ==> AllDigits(xs[j])
    requires total == Wrap(SumDecimals(xs[..i])) && n == Decimal(xs[i])
    ensures Wrap(total as int + n) == Wrap(SumDecimals(xs[..i + 1]))
  {
    SumDecimalsStep(xs, i);
    WrapAdd(SumDecimals(xs[..i]), Decimal(xs[i]));
  }

  /** Number of bases the MD string reports as matched: the sum of its runs. */
  function MatchedBases(md: string): nat
    requires WellFormedMD(md)
  {
    SumDecimals(DigitRuns(md))
  }

  /** A sufficient condition for `calcScoreFromMD` to return normally: a
      well-formed MD string whose runs each fit in an `int`. Java also sums
      some malformed strings without an exception, such as "10A", "10a5" and
      "5AB5". */
  predicate ParsableMD(md: string) {
    WellFormedMD(md) &&
    forall i :: 0 <= i < |DigitRuns(md)| ==> Decimal(DigitRuns(md)[i]) <= MaxInt
  }

  // ---------------------------------------------------------------------------
  // Java's `md.split("[a-zA-Z^]+")`

  predicate OpFree(s: string) {
    forall j :: 0 <= j < |s| ==> !IsOpChar(s[j])
  }

  /** Pieces between maximal runs of separator characters, every one kept. */
  function Pieces(s: string): (r: seq<string>)
    ensures |r| >= 1
    decreases |s|
  {
    var n := Span(s, NotOpChar);
    if n == |s| then [s]
    else
      var m := Span(s[n..], IsOpChar);
      [s[..n]] + Pieces(s[n + m..])
  }

  /** `md.split("[a-zA-Z^]+")`: the whole string when no separator occurs,
      otherwise the pieces less the empty ones at the end. */
  function SplitOnOps(md: string): (r: seq<string>)
    ensures OpFree(md) ==> r == [md]
    ensures !OpFree(md) ==> r == [] || r[|r| - 1] != ""
  {
    if Span(md, NotOpChar) == |md| then [md] else DropTrailingEmpty(Pieces(md))
  }

  /** No piece contains a separator character. */
  lemma {:induction false} PiecesOpFree(s: string)
    ensures forall i :: 0 <= i < |Pieces(s)| ==> OpFree(Pieces(s)[i])
    decreases |s|
  {
    var n := Span(s, NotOpChar);
    if n < |s| {
      var m := Span(s[n..], IsOpChar);
      PiecesStep(s, n, m);
      PiecesOpFree(s[n + m..]);
    }
  }

  /** No field of `md.split("[a-zA-Z^]+")` contains a separator character. */
  lemma SplitOnOpsOpFree(md: string)
    ensures forall i :: 0 <= i < |SplitOnOps(md)| ==> OpFree(SplitOnOps(md)[i])
  {
    PiecesOpFree(md);
  }

  lemma PiecesStep(s: string, n: nat, m: nat)
    requires n == Span(s, NotOpChar) < |s|
    requires m == Span(s[n..], IsOpChar)
    ensures Pieces(s) == [s[..n]] + Pieces(s[n + m..])
  {
  }

  /** The operation at the head of `t`, when a digit follows it, is a maximal
      run of separator characters. */
  lemma OpIsSeparatorRun(t: string)
    requires 0 < OpLength(t) < |t| && IsDigit(t[OpLength(t)])
    ensures Span(t, IsOpChar) == OpLength(t)
  {
    SpanIs(t, IsOpChar, OpLength(t));
  }

  /** On a well-formed MD string the separator runs are exactly the
      grammar's operations, so the pieces are the decimal runs. */
  lemma {:induction false} PiecesAreDigitRuns(md: string)
    requires WellFormedMD(md)
    ensures Pieces(md) == DigitRuns(md)
    decreases |md|
  {
    var d := RunLength(md);
    if d == |md| {
      SpanIs(md, NotOpChar, d);
    } else {
      PiecesHeadRun(md);
      PiecesAreDigitRuns(AfterOp(md));
    }
  }

  /** The first piece of a well-formed MD string with an operation is its
      head run, and the rest are the pieces after that operation. */
  lemma PiecesHeadRun(md: string)
    requires WellFormedMD(md) && RunLength(md) < |md|
    ensures Pieces(md) == [md[..RunLength(md)]] + Pieces(AfterOp(md))
  {
    var d := RunLength(md);
    SpanIs(md, NotOpChar, d);
    var op := OpAfterRun(md);
    HeadOpIsSeparatorRun(md);
    PiecesStep(md, d, op);
    assert md[d + op..] == AfterOp(md);
  }

  /** In a well-formed MD string, the operation after the head run is the
      whole run of separator characters there. */
  lemma HeadOpIsSeparatorRun(md: string)
    requires WellFormedMD(md) && RunLength(md) < |md|
    ensures Span(md[RunLength(md)..], IsOpChar) == OpAfterRun(md)
  {
    var t := md[RunLength(md)..];
    var op := OpAfterRun(md);
    assert AfterOp(md) == t[op..];
    assert IsDigit(t[op]) by {
      assert 0 < RunLength(AfterOp(md));
    }
    OpIsSeparatorRun(t);
  }

  lemma SplitOnOpsAreDigitRuns(md: string)
    requires WellFormedMD(md)
    ensures SplitOnOps(md) == DigitRuns(md)
  {
    var d := RunLength(md);
    SpanIs(md, NotOpChar, d);
    PiecesAreDigitRuns(md);
    var runs := DigitRuns(md);
    if d < |md| {
      DropTrailingEmptyKeeps(runs);
    }
  }

  // ---------------------------------------------------------------------------
  // calcScoreFromMD

  /** Sums the decimal runs of `md` into a Java `int`, which wraps on overflow;
      when the exact sum fits, the result is that sum and so non-negative. */
  method CalcScoreFromMD(md: string) returns (total: int32)
    requires ParsableMD(md)
    ensures total == Wrap(MatchedBases(md))
    ensures MatchedBases(md) <= MaxInt ==> total as int == MatchedBases(md) && total >= 0
  {
    var nums := SplitOnOps(md);
    SplitOnOpsAreDigitRuns(md);
    total := 0;
    for i := 0 to |nums|
      invariant total == Wrap(SumDecimals(nums[..i]))
    {
      var n := Decimal(nums[i]) as int32;
      WrappedSumStep(nums, i, total, n as int);
      total := Wrap(total as int + n as int);
    }
    assert nums[..|nums|] == nums;
  }
}
