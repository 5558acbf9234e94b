/** filter/replay.c, build_newrows_from_file: the history file is read line by line, up to a line that is too long. */
module Replay {
  import opened Gf2
  import opened MergeIndex
  import opened SparseRows
  import opened History

  const STRLENMAX := 2048

  // ---------- The history file ----------

  /** What merge writes: additions, the cost so far, and the least cost at the end */
  datatype Record = Line(line: seq<int>) | Cost(cost: nat) | CostMin(cost: nat)

  function TextOf(r: Record): string {
    match r
    case Line(l) => if l == [] then "\n" else Print(l)
    case Cost(c) => "BWCOST: " + Digits(c) + "\n"
    case CostMin(c) => "BWCOSTMIN: " + Digits(c) + "\n"
  }

  function Text(records: seq<Record>): string {
    if records == [] then "" else TextOf(records[0]) + Text(records[1..])
  }

  /** The lines among the records */
  function LinesOf(records: seq<Record>): seq<seq<int>>
    decreases |records|
  {
    if records == [] then [] else
      var k := |records| - 1;
      LinesOf(records[..k]) + if records[k].Line? then [records[k].line] else []
  }

  /** fgets: at most STRLENMAX - 1 characters, up to the end of the line */
  function LineEnd(file: string, pos: nat): (e: nat)
    requires pos < |file|
    ensures pos < e <= |file|
    ensures forall k :: pos <= k < e - 1 ==> file[k] != '\n'
    ensures file[e - 1] == '\n' || e == |file|
    decreases |file| - pos
  {
    if file[pos] == '\n' || pos + 1 == |file| then pos + 1 else LineEnd(file, pos + 1)
  }

  function Fgets(file: string, pos: nat): (str: string)
    requires pos < |file|
    ensures str != [] && |str| <= |file| - pos
  {
    var e := LineEnd(file, pos);
    if e - pos < STRLENMAX then file[pos..e] else file[pos..pos + STRLENMAX - 1]
  }

  /** A text is one line: its only newline is at its end. */
  ghost predicate OneLine(s: string) {
    s != [] && s[|s| - 1] == '\n' && forall k :: 0 <= k < |s| - 1 ==> s[k] != '\n'
  }

  lemma OneLineAfter(p: string, s: string)
    requires OneLine(s) && forall k :: 0 <= k < |p| ==> p[k] != '\n'
    ensures OneLine(p + s)
  {
  }

  lemma {:induction false} PrintRestOneLine(l: seq<int>)
    ensures OneLine(PrintRest(l))
    decreases |l|
  {
    RestStart(l);
    if l != [] {
      PrintRestOneLine(l[1..]);
      OneLineAfter(PrintInt(l[0]), PrintRest(l[1..]));
      OneLineAfter(" ", PrintInt(l[0]) + PrintRest(l[1..]));
    }
  }

  lemma TextIsOneLine(r: Record)
    ensures OneLine(TextOf(r))
  {
    hide Digits;
    match r
    case Line(l) =>
      if l != [] {
        PrintRestOneLine(l[1..]);
        OneLineAfter(PrintInt(l[0]), PrintRest(l[1..]));
      }
    case Cost(c) => OneLineAfter("BWCOST: " + Digits(c), "\n");
    case CostMin(c) => OneLineAfter("BWCOSTMIN: " + Digits(c), "\n");
  }

  /** fgets gives a whole line exactly if it is short enough. */
  lemma FgetsLine(file: string, pos: nat, s: string, rest: string)
    requires pos <= |file| && file[pos..] == s + rest && OneLine(s)
    ensures pos < |file|
    ensures |s| < STRLENMAX ==> Fgets(file, pos) == s
    ensures |s| >= STRLENMAX ==> Fgets(file, pos)[|Fgets(file, pos)| - 1] != '\n'
  {
    assert forall k :: 0 <= k < |s| ==> file[pos + k] == file[pos..][k] == s[k];
    var e := LineEnd(file, pos);
    assert e == pos + |s|;
    if |s| < STRLENMAX {
      assert file[pos..e] == file[pos..][..|s|] == s;
    } else {
      assert file[pos + STRLENMAX - 2] == s[STRLENMAX - 2];
    }
  }

  // ---------- Where reading stops ----------

  /** A record at which reading stops: too long, or the cost that was asked for */
  predicate Stops(r: Record, costmin: nat) {
    |TextOf(r)| >= STRLENMAX || (r.Cost? && costmin != 0 && r.cost == costmin)
  }

  /** The records that are read before one at which reading stops */
  function ReadCount(records: seq<Record>, costmin: nat): (n: nat)
    ensures n <= |records| && (forall k :: 0 <= k < n ==> !Stops(records[k], costmin))
    ensures n < |records| ==> Stops(records[n], costmin)
  {
    if records == [] || Stops(records[0], costmin) then 0 else
      var n := ReadCount(records[1..], costmin);
      assert forall k :: 0 < k <= n ==> records[k] == records[1..][k - 1] || k == n + 1;
      1 + n
  }

  /** Everything is read exactly if no record stops the reading. */
  lemma ReadsAll(records: seq<Record>, costmin: nat)
    ensures ReadCount(records, costmin) == |records| <==> forall k :: 0 <= k < |records| ==> !Stops(records[k], costmin)
  {
  }

  lemma {:induction false} ReadCountIs(records: seq<Record>, costmin: nat, n: nat)
    requires n <= |records| && (forall k :: 0 <= k < n ==> !Stops(records[k], costmin))
    requires n < |records| ==> Stops(records[n], costmin)
    ensures n == ReadCount(records, costmin)
  {
    hide Stops;
  }

  // ---------- Reading ----------

  lemma {:induction false} TextSplit(records: seq<Record>, n: nat)
    requires n < |records|
    ensures Text(records[n..]) == TextOf(records[n]) + Text(records[n + 1..])
  {
    assert records[n..][1..] == records[n + 1..];
  }

  lemma LinesSnoc(records: seq<Record>, n: nat)
    requires n < |records|
    ensures LinesOf(records[..n + 1]) == if records[n].Line? then LinesOf(records[..n]) + [records[n].line] else LinesOf(records[..n])
  {
    assert records[..n + 1][..n] == records[..n];
  }

  lemma {:induction false} LinesPrefixOf(records: seq<Record>, n: nat)
    requires n <= |records|
    ensures LinesOf(records[..n]) <= LinesOf(records)
    decreases |records| - n
  {
    if n == |records| {
      assert records[..n] == records;
    } else {
      LinesSnoc(records, n);
      LinesPrefixOf(records, n + 1);
    }
  }

  /** strncmp (str, w, |w|) == 0 */
  predicate StartsWith(str: string, w: string) {
    |w| <= |str| && str[..|w|] == w
  }

  lemma Prefix(w: string, s: string)
    ensures StartsWith(w + s, w)
  {
  }

  /** How the kind of a record is recognized */
  lemma KindOf(r: Record)
    ensures r.Line? <==> !StartsWith(TextOf(r), "BWCOST")
    ensures !r.Line? ==> (r.CostMin? <==> StartsWith(TextOf(r), "BWCOSTMIN"))
    ensures r.Cost? ==> 8 <= |TextOf(r)| && TextOf(r)[8..] == Digits(r.cost) + "\n"
  {
    hide StartsWith, Digits, Print;
    match r
    case Line(l) => LineKind(l);
    case Cost(c) => CostKind(c);
    case CostMin(c) => CostMinKind(c);
  }

  lemma LineKind(l: seq<int>)
    ensures !StartsWith(TextOf(Line(l)), "BWCOST")
  {
    hide Digits, Print;
    if l != [] {
      FirstChar(l);
    }
    assert "BWCOST"[0] == 'B';
  }

  lemma CostKind(c: nat)
    ensures StartsWith(TextOf(Cost(c)), "BWCOST") && !StartsWith(TextOf(Cost(c)), "BWCOSTMIN")
    ensures 8 <= |TextOf(Cost(c))| && TextOf(Cost(c))[8..] == Digits(c) + "\n"
  {
    hide Digits;
    var t := TextOf(Cost(c));
    assert t == "BWCOST" + (": " + Digits(c) + "\n");
    Prefix("BWCOST", ": " + Digits(c) + "\n");
    assert t[6] == ':' && "BWCOSTMIN"[6] == 'M';
  }

  lemma CostMinKind(c: nat)
    ensures StartsWith(TextOf(CostMin(c)), "BWCOST") && StartsWith(TextOf(CostMin(c)), "BWCOSTMIN")
  {
    hide Digits, StartsWith;
    var t := TextOf(CostMin(c));
    assert t == "BWCOSTMIN" + (": " + Digits(c) + "\n");
    Prefix("BWCOSTMIN", ": " + Digits(c) + "\n");
    assert t == "BWCOST" + ("MIN: " + Digits(c) + "\n");
    Prefix("BWCOST", "MIN: " + Digits(c) + "\n");
  }

  lemma FirstChar(l: seq<int>)
    requires l != []
    ensures Print(l) != [] && Print(l)[0] != 'B'
  {
    hide PrintRest;
    var d := Digits(if l[0] < 0 then -l[0] else l[0]);
    assert Print(l)[0] == if l[0] < 0 then '-' else d[0];
  }

  /** sscanf ("%lu") at the start of a text: the value of its leading digits */
  function Scan(s: string): int {
    ValueOf(s[..DigitCount(s)])
  }

  function DigitCount(s: string): (n: nat)
    ensures n <= |s|
  {
    if s == [] || !('0' <= s[0] <= '9') then 0 else 1 + DigitCount(s[1..])
  }

  lemma {:induction false} CountDigits(d: string, s: string)
    requires (forall k :: 0 <= k < |d| ==> '0' <= d[k] <= '9') && s != [] && !('0' <= s[0] <= '9')
    ensures DigitCount(d + s) == |d|
    decreases |d|
  {
    if d == [] {
      assert d + s == s;
    } else {
      assert (d + s)[1..] == d[1..] + s;
      CountDigits(d[1..], s);
    }
  }

  lemma ScanCost(c: nat)
    ensures Scan(Digits(c) + "\n") == c
  {
    hide Digits;
    CountDigits(Digits(c), "\n");
    assert (Digits(c) + "\n")[..|Digits(c)|] == Digits(c);
    ValueOfDigits(c);
  }

  /** The file is read up to record n, and what was read is done. */
  ghost predicate ReadUpTo(file: string, records: seq<Record>, pos: nat, n: nat) {
    n <= |records| && pos <= |file| && file[pos..] == Text(records[n..])
  }

  lemma ReadOne(file: string, records: seq<Record>, pos: nat, n: nat)
    requires ReadUpTo(file, records, pos, n) && pos < |file|
    ensures n < |records|
    ensures |TextOf(records[n])| < STRLENMAX <==> Fgets(file, pos)[|Fgets(file, pos)| - 1] == '\n'
    ensures |TextOf(records[n])| < STRLENMAX ==>
      Fgets(file, pos) == TextOf(records[n]) && ReadUpTo(file, records, pos + |TextOf(records[n])|, n + 1)
  {
    hide TextOf, Fgets;
    var s := TextOf(records[n]);
    TextSplit(records, n);
    TextIsOneLine(records[n]);
    FgetsLine(file, pos, s, Text(records[n + 1..]));
    assert file[pos + |s|..] == file[pos..][|s|..];
  }

  lemma ReadNone(file: string, records: seq<Record>, pos: nat, n: nat)
    requires ReadUpTo(file, records, pos, n) && pos == |file|
    ensures n == |records|
  {
    hide TextOf;
    assert file[pos..] == "";
    if n < |records| {
      TextSplit(records, n);
      TextIsOneLine(records[n]);
    }
  }

  /** One complete line of the file: additions are done, and the cost that was asked for stops the reading. */
  method DoRecord(newrows: array<Option<seq<nat>>>, str: string, costmin: nat, ghost r: Record) returns (stop: bool)
    requires RowsSorted(newrows[..]) && str == TextOf(r) && |str| < STRLENMAX
    requires r.Line? ==> r.line != [] && LineOk(Values(newrows[..]), r.line)
    modifies newrows
    ensures stop <==> Stops(r, costmin)
    ensures RowsSorted(newrows[..])
    ensures Values(newrows[..]) == if r.Line? then DoLine(old(Values(newrows[..])), r.line) else old(Values(newrows[..]))
  {
    hide Values, RowsSorted, LineOk, DoLine, StartsWith, Scan, Digits, Print;
    stop := false;
    KindOf(r);
    if !StartsWith(str, "BWCOST") {
      DoAllAdds(newrows, str, r.line);
    } else if !StartsWith(str, "BWCOSTMIN") {
      var bwcost := Scan(str[8..]);
      ScanCost(r.cost);
      stop := costmin != 0 && bwcost == costmin;
    }
  }

  /** build_newrows_from_file: the lines before the first record that stops the reading are done, and no others. */
  method BuildNewRows(file: string, nrows: nat, costmin: nat, ghost records: seq<Record>) returns (newrows: array<Option<seq<nat>>>)
    requires file == Text(records) && LinesOk(Units(nrows), LinesOf(records))
    ensures newrows.Length == nrows && RowsSorted(newrows[..])
    ensures Values(newrows[..]) == DoLines(Units(nrows), LinesOf(records[..ReadCount(records, costmin)]))
  {
    hide Values, RowsSorted, LinesOk, LineOk, DoLine, DoLines, Units, Fgets, TextOf, Text, LinesOf, ReadUpTo, ReadCount, Stops;
    newrows := NewUnits(nrows);
    var pos := 0;
    ghost var n := 0;
    ReadStarts(file, records, nrows);
    while pos < |file|
      invariant pos <= |file| && n <= |records| && ReadUpTo(file, records, pos, n)
      invariant newrows.Length == nrows && fresh(newrows) && RowsSorted(newrows[..])
      invariant Values(newrows[..]) == DoLines(Units(nrows), LinesOf(records[..n]))
      invariant forall k :: 0 <= k < n ==> !Stops(records[k], costmin)
      decreases |file| - pos
    {
      var str := Fgets(file, pos);
      ReadOne(file, records, pos, n);
      pos := pos + |str|;
      if str[|str| - 1] != '\n' {
        TooLong(records[n], costmin);
        ReadCountIs(records, costmin, n);
        return;
      }
      NextRecord(Units(nrows), records, n);
      var stop := DoRecord(newrows, str, costmin, records[n]);
      if stop {
        StopIsCost(records[n], costmin);
        ReadCountIs(records, costmin, n);
        return;
      }
      n := n + 1;
    }
    ReadNone(file, records, pos, n);
    ReadCountIs(records, costmin, n);
  }

  lemma TooLong(r: Record, costmin: nat)
    requires |TextOf(r)| >= STRLENMAX
    ensures Stops(r, costmin)
  {
  }

  lemma StopIsCost(r: Record, costmin: nat)
    requires |TextOf(r)| < STRLENMAX && Stops(r, costmin)
    ensures r.Cost?
  {
  }

  lemma ReadStarts(file: string, records: seq<Record>, nrows: nat)
    requires file == Text(records)
    ensures ReadUpTo(file, records, 0, 0) && DoLines(Units(nrows), LinesOf(records[..0])) == Units(nrows)
  {
    assert records[0..] == records && file[0..] == file;
  }

  /** The line of record n is good for the rows that the lines before it leave. */
  lemma NextRecord(V: Rowset, records: seq<Record>, n: nat)
    requires n < |records| && LinesOk(V, LinesOf(records))
    ensures var W, r := DoLines(V, LinesOf(records[..n])), records[n];
      && (r.Line? ==> r.line != [] && LineOk(W, r.line))
      && DoLines(V, LinesOf(records[..n + 1])) == if r.Line? then DoLine(W, r.line) else W
  {
    hide LineOk, DoLine;
    LinesSnoc(records, n);
    if records[n].Line? {
      var all, l := LinesOf(records), LinesOf(records[..n]);
      LinesPrefixOf(records, n + 1);
      assert all[..|l| + 1] == LinesOf(records[..n + 1]) && all[..|l|] == l && all[|l|] == records[n].line;
      LinesPrefix(V, all, |l| + 1);
      NextLine(V, all, |l|);
      LineNotEmpty(DoLines(V, l), records[n].line);
    }
  }

  lemma LineNotEmpty(V: Rowset, line: seq<int>)
    requires LineOk(V, line)
    ensures line != []
  {
  }

  // ---------- How long lines are ----------

  function Pow10(D: nat): nat {
    if D == 0 then 1 else 10 * Pow10(D - 1)
  }

  lemma {:induction false} DigitsLength(n: nat, D: nat)
    requires D >= 1
    ensures |Digits(n)| <= D <==> n < Pow10(D)
    decreases D
  {
    if D == 1 {
      assert Pow10(1) == 10;
    } else if n >= 10 {
      DigitsLength(n / 10, D - 1);
    } else {
      PowLarge(D);
    }
  }

  lemma {:induction false} PowLarge(D: nat)
    requires D >= 1
    ensures Pow10(D) >= 10
    decreases D
  {
    if D > 1 {
      PowLarge(D - 1);
    }
  }

  /** All numbers of l are row numbers with at most D digits. */
  ghost predicate Below(l: seq<int>, D: nat) {
    forall k :: 0 <= k < |l| ==> 0 <= l[k] < Pow10(D)
  }

  lemma {:induction false} RestLength(l: seq<int>, D: nat)
    requires D >= 1 && Below(l, D)
    ensures |PrintRest(l)| <= 1 + |l| * (D + 1)
    ensures (forall k :: 0 <= k < |l| ==> l[k] >= Pow10(D - 1)) && D >= 2 ==> |PrintRest(l)| == 1 + |l| * (D + 1)
    decreases |l|
  {
    hide Digits, Pow10;
    RestStart(l);
    if l != [] {
      RestLength(l[1..], D);
      DigitsLength(l[0], D);
      if D >= 2 {
        DigitsLength(l[0], D - 1);
      }
      assert |l| * (D + 1) == (|l| - 1) * (D + 1) + (D + 1);
    }
  }

  /** A line with at most m numbers of rows below 10^D is short enough if 1 + m (D + 1) < 2048. */
  lemma LineFits(V: Rowset, line: seq<int>, m: nat, D: nat)
    requires LineOk(V, line) && |line| <= m && D >= 1 && |V| < Pow10(D) && 1 + m * (D + 1) < STRLENMAX
    ensures |Print(line)| < STRLENMAX
  {
    hide Digits, Pow10;
    RestLength(line[1..], D);
    DigitsLength(if line[0] < 0 then -line[0] else line[0], D);
    assert |Print(line)| <= 1 + D + 1 + (|line| - 1) * (D + 1);
    ProductBound(|line|, m, D + 1);
  }

  lemma ProductBound(n: int, m: int, x: int)
    requires n <= m && x >= 0
    ensures (n - 1) * x + x <= m * x
  {
    assert (m - n) * x >= 0;
  }

  /** Costs are 64-bit numbers, and so have at most 20 digits. */
  lemma CostFits(r: Record)
    requires !r.Line? && r.cost < Pow10(20)
    ensures |TextOf(r)| < STRLENMAX
  {
    hide Digits, Pow10;
    DigitsLength(r.cost, 20);
  }

  lemma {:induction false} LineAt(V: Rowset, lines: seq<seq<int>>, k: nat)
    requires LinesOk(V, lines) && k < |lines|
    ensures LineOk(DoLines(V, lines[..k]), lines[k])
  {
    LinesPrefix(V, lines, k + 1);
    NextLine(V, lines, k);
  }

  /** A history of merges of at most m rows, with fewer than 10^D rows, is read to its end. */
  lemma ShortHistory(V: Rowset, records: seq<Record>, m: nat, D: nat)
    requires LinesOk(V, LinesOf(records)) && Extends([], LinesOf(records), m)
    requires D >= 1 && |V| < Pow10(D) && 1 + m * (D + 1) < STRLENMAX
    requires forall k :: 0 <= k < |records| && !records[k].Line? ==> records[k].cost < Pow10(20)
    ensures ReadCount(records, 0) == |records|
  {
    hide LineOk, LinesOk, DoLines, TextOf, Pow10;
    forall k | 0 <= k < |records| ensures !Stops(records[k], 0) {
      if records[k].Line? {
        var all, l := LinesOf(records), LinesOf(records[..k]);
        LinesSnoc(records, k);
        LinesPrefixOf(records, k + 1);
        assert all[|l|] == records[k].line;
        LineAt(V, all, |l|);
        LineFits(DoLines(V, all[..|l|]), all[|l|], m, D);
        LineText(DoLines(V, all[..|l|]), records[k]);
      } else {
        CostFits(records[k]);
      }
    }
    ReadsAll(records, 0);
  }

  lemma LineText(V: Rowset, r: Record)
    requires r.Line? && LineOk(V, r.line)
    ensures TextOf(r) == Print(r.line)
  {
  }

  // ---------- A line that is too long ----------

  /** The history starts with a line that is too long: nothing is read, so that the row that the line destroys is still there. */
  lemma LongLineStops(V: Rowset, line: seq<int>, rest: seq<Record>, costmin: nat)
    requires LineOk(V, line) && Destroys(line) && |Print(line)| >= STRLENMAX
    ensures var records := [Line(line)] + rest;
      ReadCount(records, costmin) == 0 && DoLines(V, LinesOf(records[..ReadCount(records, costmin)])) == V
    ensures DoLine(V, line)[Source(line)] == None && V[Source(line)] != None
  {
    hide Print;
    var records := [Line(line)] + rest;
    assert records[0] == Line(line);
  }
}
