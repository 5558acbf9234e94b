/** filter/report.c and filter/replay.c: history lines, what they mean, and how they are written and read. */
module History {
  import opened Gf2
  import opened MergeIndex
  import opened SparseRows

  /** The rows that are not destroyed, as sets */
  type Rowset = seq<Option<set<nat>>>

  // ---------- What a line means ----------

  /** The row that a line adds to others: i, or -(i+1) for a row that is not destroyed */
  function Source(line: seq<int>): nat {
    if line == [] then 0 else if line[0] >= 0 then line[0] else -line[0] - 1
  }

  predicate Destroys(line: seq<int>) {
    line != [] && line[0] >= 0
  }

  function Added(V: Rowset, i1: int, i2: int): Rowset {
    if 0 <= i1 < |V| && 0 <= i2 < |V| && V[i1].Some? && V[i2].Some? then V[i1 := Some(Xor(V[i1].value, V[i2].value))] else V
  }

  function AddAll(V: Rowset, src: nat, targets: seq<int>): (r: Rowset)
    ensures |r| == |V|
    decreases |targets|
  {
    if targets == [] then V else
      var k := |targets| - 1;
      Added(AddAll(V, src, targets[..k]), targets[k], src)
  }

  function DoLine(V: Rowset, line: seq<int>): (r: Rowset)
    ensures |r| == |V|
  {
    if line == [] then V else
      var V' := AddAll(V, Source(line), line[1..]);
      if Destroys(line) && Source(line) < |V| then V'[Source(line) := None] else V'
  }

  function DoLines(V: Rowset, lines: seq<seq<int>>): (r: Rowset)
    ensures |r| == |V|
    decreases |lines|
  {
    if lines == [] then V else
      var k := |lines| - 1;
      DoLine(DoLines(V, lines[..k]), lines[k])
  }

  /** A line names rows that exist, the source among the targets excepted. */
  ghost predicate LineOk(V: Rowset, line: seq<int>) {
    && line != [] && Source(line) < |V| && V[Source(line)].Some?
    && forall k :: 1 <= k < |line| ==> 0 <= line[k] < |V| && line[k] != Source(line) && V[line[k]].Some?
  }

  ghost predicate LinesOk(V: Rowset, lines: seq<seq<int>>)
    decreases |lines|
  {
    lines == [] || (var k := |lines| - 1; LinesOk(V, lines[..k]) && LineOk(DoLines(V, lines[..k]), lines[k]))
  }

  /** The rows V' are what the lines that were added make of the rows V. */
  ghost predicate Written(V: Rowset, V': Rowset, lines: seq<seq<int>>, lines': seq<seq<int>>) {
    lines <= lines' && LinesOk(V, lines'[|lines|..]) && V' == DoLines(V, lines'[|lines|..])
  }

  lemma WrittenLine(V: Rowset, V': Rowset, lines: seq<seq<int>>, line: seq<int>)
    requires LineOk(V, line) && V' == DoLine(V, line)
    ensures Written(V, V', lines, lines + [line])
  {
    assert (lines + [line])[|lines|..] == [line];
    assert [line][..0] == [];
  }

  lemma WrittenLines(V: Rowset, V': Rowset, lines: seq<seq<int>>, more: seq<seq<int>>)
    requires LinesOk(V, more) && V' == DoLines(V, more)
    ensures Written(V, V', lines, lines + more)
  {
    assert (lines + more)[|lines|..] == more;
  }

  /** Lines are added at the end, with at most m numbers each. */
  ghost predicate Extends(lines: seq<seq<int>>, lines': seq<seq<int>>, m: nat) {
    lines <= lines' && forall k :: |lines| <= k < |lines'| ==> |lines'[k]| <= m
  }

  /** What has at most m numbers has at most n, if n is not smaller. */
  lemma ExtendsWider(lines: seq<seq<int>>, lines': seq<seq<int>>, m: nat, n: nat)
    requires Extends(lines, lines', m) && m <= n
    ensures Extends(lines, lines', n)
  {
  }

  lemma ExtendsNone(lines: seq<seq<int>>, m: nat)
    ensures Extends(lines, lines, m)
  {
  }

  lemma ExtendsTwice(a: seq<seq<int>>, b: seq<seq<int>>, c: seq<seq<int>>, m: nat)
    requires Extends(a, b, m) && Extends(b, c, m)
    ensures Extends(a, c, m)
  {
    forall k | |a| <= k < |c| ensures |c[k]| <= m {
      if k < |b| {
        assert c[k] == b[k];
      }
    }
  }

  lemma {:induction false} AddAllKeeps(V: Rowset, src: nat, targets: seq<int>)
    requires src < |V| && V[src].Some?
    requires forall k :: 0 <= k < |targets| ==> 0 <= targets[k] < |V| && targets[k] != src && V[targets[k]].Some?
    ensures AddAll(V, src, targets)[src] == V[src]
    ensures forall i :: 0 <= i < |V| ==> AddAll(V, src, targets)[i].Some? == V[i].Some?
    decreases |targets|
  {
    if targets != [] {
      AddAllKeeps(V, src, targets[..|targets| - 1]);
    }
  }

  // ---------- Two runs of the same lines ----------

  /** Every row of V is the sum of the original rows that the corresponding row of N lists. */
  ghost predicate Represents(V: Rowset, N: Rowset, orig: seq<set<nat>>) {
    && |N| == |V|
    && forall i :: 0 <= i < |V| && V[i].Some? ==> N[i].Some? && V[i].value == Comb(orig, N[i].value)
  }

  lemma {:induction false} AddAllRepresents(V: Rowset, N: Rowset, orig: seq<set<nat>>, src: nat, targets: seq<int>)
    requires Represents(V, N, orig) && src < |V| && V[src].Some?
    requires forall k :: 0 <= k < |targets| ==> 0 <= targets[k] < |V| && targets[k] != src && V[targets[k]].Some?
    ensures Represents(AddAll(V, src, targets), AddAll(N, src, targets), orig)
    decreases |targets|
  {
    if targets != [] {
      var k := |targets| - 1;
      AddAllRepresents(V, N, orig, src, targets[..k]);
      AddAllKeeps(V, src, targets[..k]);
      var V', N', t := AddAll(V, src, targets[..k]), AddAll(N, src, targets[..k]), targets[k];
      CombXor(orig, N'[t].value, N'[src].value);
    }
  }

  lemma DoLineRepresents(V: Rowset, N: Rowset, orig: seq<set<nat>>, line: seq<int>)
    requires Represents(V, N, orig) && LineOk(V, line)
    ensures Represents(DoLine(V, line), DoLine(N, line), orig)
  {
    AddAllRepresents(V, N, orig, Source(line), line[1..]);
  }

  lemma {:induction false} DoLinesRepresents(V: Rowset, N: Rowset, orig: seq<set<nat>>, lines: seq<seq<int>>)
    requires Represents(V, N, orig) && LinesOk(V, lines)
    ensures Represents(DoLines(V, lines), DoLines(N, lines), orig)
    decreases |lines|
  {
    if lines != [] {
      var k := |lines| - 1;
      DoLinesRepresents(V, N, orig, lines[..k]);
      DoLineRepresents(DoLines(V, lines[..k]), DoLines(N, lines[..k]), orig, lines[k]);
    }
  }

  /** The live rows of V are the rows of W; V may have dropped some more. */
  ghost predicate LiveIn(V: Rowset, W: Rowset) {
    |V| == |W| && forall i :: 0 <= i < |V| && V[i].Some? ==> W[i] == V[i]
  }

  lemma {:induction false} AddAllLive(V: Rowset, W: Rowset, src: nat, targets: seq<int>)
    requires LiveIn(V, W) && src < |V| && V[src].Some?
    requires forall k :: 0 <= k < |targets| ==> 0 <= targets[k] < |V| && targets[k] != src && V[targets[k]].Some?
    ensures LiveIn(AddAll(V, src, targets), AddAll(W, src, targets))
    decreases |targets|
  {
    if targets != [] {
      AddAllLive(V, W, src, targets[..|targets| - 1]);
      AddAllKeeps(V, src, targets[..|targets| - 1]);
    }
  }

  /** A line on live rows does the same to V and W. */
  lemma DoLineLive(V: Rowset, W: Rowset, line: seq<int>)
    requires LiveIn(V, W) && LineOk(V, line)
    ensures LineOk(W, line) && LiveIn(DoLine(V, line), DoLine(W, line))
  {
    AddAllLive(V, W, Source(line), line[1..]);
  }

  /** The history explains the matrix: replaying it on the original rows gives the live rows. */
  ghost predicate Explains(start: Rowset, history: seq<seq<int>>, V: Rowset) {
    LinesOk(start, history) && LiveIn(V, DoLines(start, history))
  }

  lemma ExplainsLine(start: Rowset, history: seq<seq<int>>, V: Rowset, line: seq<int>)
    requires Explains(start, history, V) && LineOk(V, line)
    ensures Explains(start, history + [line], DoLine(V, line))
  {
    var h := history + [line];
    assert h[..|h| - 1] == history && h[|h| - 1] == line;
    DoLineLive(V, DoLines(start, history), line);
  }

  /** A row may be dropped without a line. */
  lemma ExplainsDrop(start: Rowset, history: seq<seq<int>>, V: Rowset, i: nat)
    requires Explains(start, history, V) && i < |V|
    ensures Explains(start, history, V[i := None])
  {
  }

  function Units(n: nat): Rowset {
    seq(n, i requires 0 <= i < n => Some({i}))
  }

  function Sets(V: Rowset): (r: seq<set<nat>>)
    ensures |r| == |V|
  {
    seq(|V|, i requires 0 <= i < |V| => if V[i].Some? then V[i].value else {})
  }

  /** Replaying the history on the numbers of the original rows tells, for every live row,
      which original rows it is the sum of. */
  lemma ReplayMeansMerge(start: Rowset, history: seq<seq<int>>, V: Rowset)
    requires Explains(start, history, V)
    ensures Represents(V, DoLines(Units(|start|), history), Sets(start))
  {
    UnitsRepresent(start);
    DoLinesRepresents(start, Units(|start|), Sets(start), history);
  }

  // ---------- Writing and reading lines ----------

  function Digit(d: nat): char
    requires d < 10
  {
    '0' + d as char
  }

  function Digits(n: nat): (s: string)
    ensures s != [] && forall k :: 0 <= k < |s| ==> '0' <= s[k] <= '9'
  {
    if n < 10 then [Digit(n)] else Digits(n / 10) + [Digit(n % 10)]
  }

  /** *t - '0' */
  function DigitValue(c: char): int {
    c as int - '0' as int
  }

  function ValueOf(s: string): int {
    if s == [] then 0 else 10 * ValueOf(s[..|s| - 1]) + DigitValue(s[|s| - 1])
  }

  lemma {:induction false} ValueOfDigits(n: nat)
    ensures ValueOf(Digits(n)) == n
  {
    if n < 10 {
      assert Digits(n)[..0] == [];
    } else {
      ValueOfDigits(n / 10);
      var s := Digits(n);
      assert s[..|s| - 1] == Digits(n / 10);
    }
  }

  lemma ValueOfNext(s: string, c: nat)
    requires c < |s|
    ensures ValueOf(s[..c + 1]) == 10 * ValueOf(s[..c]) + DigitValue(s[c])
  {
    assert s[..c + 1][..c] == s[..c];
  }

  function PrintInt(x: int): string {
    if x < 0 then "-" + Digits(-x) else Digits(x)
  }

  /** The numbers after the first one, and the end of the line */
  function PrintRest(l: seq<int>): (s: string)
    ensures s != []
  {
    if l == [] then "\n" else " " + PrintInt(l[0]) + PrintRest(l[1..])
  }

  function Print(line: seq<int>): string
    requires line != []
  {
    PrintInt(line[0]) + PrintRest(line[1..])
  }

  /** What is still to be written when i numbers are */
  function Unwritten(ind: seq<int>, i: nat): string {
    if i < |ind| then PrintInt(ind[i]) + PrintRest(ind[i + 1..]) else "\n"
  }

  lemma WriteNext(ind: seq<int>, i: nat)
    requires i < |ind|
    ensures Unwritten(ind, i) == PrintInt(ind[i]) + (if i < |ind| - 1 then " " else "") + Unwritten(ind, i + 1)
  {
    hide PrintInt;
    if i < |ind| - 1 {
      assert ind[i + 1..][1..] == ind[i + 2..];
    } else {
      assert ind[i + 1..] == [];
    }
  }

  lemma WriteAll(ind: seq<int>)
    requires ind != []
    ensures "" + Unwritten(ind, 0) == Print(ind)
  {
  }

  lemma WriteNone(ind: seq<int>)
    ensures Unwritten(ind, |ind|) == "\n"
  {
  }

  /** reportn */
  method ReportLine(ind: seq<int>) returns (str: string)
    requires ind != []
    ensures str == Print(ind)
  {
    hide PrintInt, Unwritten;
    str := "";
    var i := 0;
    WriteAll(ind);
    while i < |ind|
      invariant i <= |ind| && str + Unwritten(ind, i) == Print(ind)
    {
      WriteNext(ind, i);
      str := str + PrintInt(ind[i]);
      if i < |ind| - 1 {
        str := str + " ";
      }
      i := i + 1;
    }
    WriteNone(ind);
    str := str + "\n";
  }

  // ---------- Replay ----------

  function Value(r: Option<seq<nat>>): Option<set<nat>> {
    match r
    case None => None
    case Some(l) => Some(Cols(l))
  }

  function Values(rows: seq<Option<seq<nat>>>): (V: Rowset)
    ensures |V| == |rows|
  {
    seq(|rows|, i requires 0 <= i < |rows| => Value(rows[i]))
  }

  ghost predicate RowsSorted(rows: seq<Option<seq<nat>>>) {
    forall i :: 0 <= i < |rows| && rows[i].Some? ==> Sorted(rows[i].value)
  }

  /** addRows(newrows, ii, i, -1) */
  method AddNewRow(newrows: array<Option<seq<nat>>>, ii: nat, i: nat)
    requires ii < newrows.Length && i < newrows.Length && newrows[ii].Some? && newrows[i].Some? && RowsSorted(newrows[..])
    modifies newrows
    ensures Values(newrows[..]) == Added(old(Values(newrows[..])), ii, i) && RowsSorted(newrows[..])
  {
    assert newrows[..][ii].Some? && newrows[..][i].Some?;
    var r := AddRows(newrows[ii].value, newrows[i].value, -1);
    ghost var s := newrows[..];
    newrows[ii] := Some(r);
    assert newrows[..] == s[ii := Some(r)];
  }

  ghost predicate NonNegative(l: seq<int>) {
    forall x :: 0 <= x < |l| ==> l[x] >= 0
  }

  /** What is left of the text while number k of the targets is read and c of its digits are done */
  ghost predicate Reading(str: string, t: nat, targets: seq<int>, k: nat, c: nat, ii: int) {
    && k < |targets| && targets[k] >= 0 && c <= |Digits(targets[k])| && t <= |str|
    && str[t..] == Digits(targets[k])[c..] + PrintRest(targets[k + 1..]) && ii == ValueOf(Digits(targets[k])[..c])
  }

  lemma ReadDigit(str: string, t: nat, targets: seq<int>, k: nat, c: nat, ii: int)
    requires Reading(str, t, targets, k, c, ii) && c < |Digits(targets[k])|
    ensures t < |str| && '0' <= str[t] <= '9' && Reading(str, t + 1, targets, k, c + 1, 10 * ii + DigitValue(str[t]))
  {
    var d := Digits(targets[k]);
    assert str[t] == str[t..][0] == d[c];
    assert str[t + 1..] == str[t..][1..] == d[c + 1..] + PrintRest(targets[k + 1..]);
    ValueOfNext(d, c);
  }

  lemma ValueOfNone()
    ensures ValueOf([]) == 0
  {
  }

  lemma RestHead(l: seq<int>)
    requires l != [] ==> l[0] >= 0
    ensures PrintRest(l)[0] == if l != [] then ' ' else '\n'
    ensures l != [] ==> PrintRest(l)[1..] == Digits(l[0]) + PrintRest(l[1..])
  {
    hide Digits, PrintRest;
    RestStart(l);
    if l != [] {
      Prefixed(" ", Digits(l[0]) + PrintRest(l[1..]));
    }
  }

  lemma RestStart(l: seq<int>)
    ensures l == [] ==> PrintRest(l) == "\n"
    ensures l != [] ==> PrintRest(l) == " " + (PrintInt(l[0]) + PrintRest(l[1..]))
  {
    hide PrintInt;
  }

  lemma ReadEnd(str: string, t: nat, targets: seq<int>, k: nat, c: nat, ii: int)
    requires Reading(str, t, targets, k, c, ii) && c == |Digits(targets[k])|
    requires NonNegative(targets)
    ensures ii == targets[k] && t < |str| && str[t] == if k + 1 < |targets| then ' ' else '\n'
    ensures k + 1 < |targets| ==> Reading(str, t + 1, targets, k + 1, 0, 0)
  {
    hide Digits, ValueOf, PrintRest;
    var d, r := Digits(targets[k]), PrintRest(targets[k + 1..]);
    ValueOfDigits(targets[k]);
    assert d[..c] == d && d[c..] == [];
    RestHead(targets[k + 1..]);
    assert str[t..] == r && str[t] == r[0];
    if k + 1 < |targets| {
      ReadSpace(str, t, targets, k);
    }
  }

  lemma ReadSpace(str: string, t: nat, targets: seq<int>, k: nat)
    requires k + 1 < |targets| && targets[k + 1] >= 0 && t < |str| && str[t..] == PrintRest(targets[k + 1..])
    ensures Reading(str, t + 1, targets, k + 1, 0, 0)
  {
    hide Digits, ValueOf, PrintRest;
    ValueOfNone();
    RestHead(targets[k + 1..]);
    assert targets[k + 1..][1..] == targets[k + 2..];
    assert str[t + 1..] == str[t..][1..];
  }

  /** The numbers of a line as they are printed, without the sign */
  ghost function Numbers(line: seq<int>): seq<int>
    requires line != []
  {
    [if line[0] < 0 then -line[0] else line[0]] + line[1..]
  }

  lemma ReadStart(line: seq<int>)
    requires line != []
    ensures |Print(line)| > 0 && (Print(line)[0] == '-' <==> line[0] < 0)
    ensures Reading(Print(line), if line[0] < 0 then 1 else 0, Numbers(line), 0, 0, 0)
  {
    hide Digits, ValueOf, PrintRest;
    ValueOfNone();
    var str, d, r := Print(line), Digits(Numbers(line)[0]), PrintRest(line[1..]);
    assert Numbers(line)[1..] == line[1..];
    if line[0] < 0 {
      Prefixed("-", d + r);
      assert str == "-" + (d + r);
    } else {
      assert str == d + r && str[0] == d[0];
    }
  }

  lemma Prefixed(p: string, s: string)
    ensures (p + s)[|p|..] == s
  {
  }

  lemma ReadNumber(str: string, t: nat, targets: seq<int>, k: nat, c: nat, ii: int)
    requires Reading(str, t, targets, k, c, ii)
    requires NonNegative(targets)
    ensures t < |str| && ((str[t] == ' ' || str[t] == '\n') <==> c == |Digits(targets[k])|)
  {
    hide Digits, ValueOf;
    if c < |Digits(targets[k])| {
      ReadDigit(str, t, targets, k, c, ii);
    } else {
      ReadEnd(str, t, targets, k, c, ii);
    }
  }

  lemma AddNext(V: Rowset, src: nat, targets: seq<int>, k: nat)
    requires 1 <= k < |targets|
    ensures AddAll(V, src, targets[1..k + 1]) == Added(AddAll(V, src, targets[1..k]), targets[k], src)
  {
    var l := targets[1..k + 1];
    assert l[..|l| - 1] == targets[1..k] && l[|l| - 1] == targets[k];
  }

  /** The first loop: the number before the first blank */
  method ReadFirst(str: string, t0: nat, ghost numbers: seq<int>) returns (i: int, t: nat)
    requires Reading(str, t0, numbers, 0, 0, 0) && NonNegative(numbers)
    ensures i == numbers[0] && t < |str| && str[t] == if 1 < |numbers| then ' ' else '\n'
    ensures 1 < |numbers| ==> Reading(str, t + 1, numbers, 1, 0, 0)
  {
    hide Reading, Digits, NonNegative;
    ghost var c: nat := 0;
    i, t := 0, t0;
    ReadBound(str, t, numbers, 0, 0, 0);
    ReadNumber(str, t, numbers, 0, c, i);
    while str[t] != ' ' && str[t] != '\n'
      invariant t < |str| && 0 < |numbers| && c <= |Digits(numbers[0])| && Reading(str, t, numbers, 0, c, i)
      invariant (str[t] == ' ' || str[t] == '\n') <==> c == |Digits(numbers[0])|
      decreases |str| - t
    {
      ReadDigit(str, t, numbers, 0, c, i);
      i, t := 10 * i + DigitValue(str[t]), t + 1;
      c := c + 1;
      ReadNumber(str, t, numbers, 0, c, i);
    }
    ReadEnd(str, t, numbers, 0, c, i);
  }

  lemma ReadBound(str: string, t: nat, targets: seq<int>, k: nat, c: nat, ii: int)
    requires Reading(str, t, targets, k, c, ii)
    ensures k < |targets| && targets[k] >= 0 && c <= |Digits(targets[k])|
  {
  }

  lemma TargetLive(V: Rowset, line: seq<int>, k: nat)
    requires LineOk(V, line) && 1 <= k < |line|
    ensures Numbers(line)[k] == line[k] && 0 <= line[k] < |V| && line[k] != Source(line)
    ensures var W := AddAll(V, Source(line), Numbers(line)[1..k]); W[line[k]].Some? && W[Source(line)].Some?
  {
    hide AddAll, Numbers, LineOk;
    TargetOk(V, line, k);
    AddAllKeeps(V, Source(line), line[1..k]);
  }

  lemma TargetOk(V: Rowset, line: seq<int>, k: nat)
    requires LineOk(V, line) && 1 <= k < |line|
    ensures Numbers(line)[k] == line[k] && 0 <= line[k] < |V| && line[k] != Source(line) && V[line[k]].Some?
    ensures Numbers(line)[1..k] == line[1..k] && Source(line) < |V| && V[Source(line)].Some?
    ensures forall l :: 0 <= l < |line[1..k]| ==> 0 <= line[1..k][l] < |V| && line[1..k][l] != Source(line) && V[line[1..k][l]].Some?
  {
    assert Numbers(line)[1..k] == line[1..k];
    forall l | 0 <= l < |line[1..k]|
      ensures 0 <= line[1..k][l] < |V| && line[1..k][l] != Source(line) && V[line[1..k][l]].Some?
    {
      assert line[1..k][l] == line[l + 1];
    }
  }

  method AddTarget(newrows: array<Option<seq<nat>>>, ii: int, i: nat, ghost V: Rowset, ghost line: seq<int>, ghost k: nat)
    requires RowsSorted(newrows[..]) && LineOk(V, line) && i == Source(line) && 1 <= k < |line| && ii == Numbers(line)[k]
    requires Values(newrows[..]) == AddAll(V, i, Numbers(line)[1..k])
    modifies newrows
    ensures Values(newrows[..]) == AddAll(V, i, Numbers(line)[1..k + 1]) && RowsSorted(newrows[..])
  {
    NumbersOk(V, line);
    hide RowsSorted, Numbers, Values, Added;
    TargetLive(V, line, k);
    AddNext(V, i, Numbers(line), k);
    ValuesLive(newrows[..], ii, i);
    AddNewRow(newrows, ii, i);
  }

  /** The second loop: every further number names a row to which row i is added. */
  method AddToEach(newrows: array<Option<seq<nat>>>, str: string, t0: nat, i: nat, ghost line: seq<int>)
    requires RowsSorted(newrows[..]) && LineOk(Values(newrows[..]), line) && i == Source(line)
    requires 1 < |line| && t0 < |str| && Reading(str, t0, Numbers(line), 1, 0, 0)
    modifies newrows
    ensures Values(newrows[..]) == AddAll(old(Values(newrows[..])), i, line[1..]) && RowsSorted(newrows[..])
  {
    hide Reading, Digits, RowsSorted, LineOk, Numbers, Values, Added, AddAll, NonNegative;
    ghost var V, numbers := Values(newrows[..]), Numbers(line);
    NumbersOk(V, line);
    ghost var k: nat, c: nat := 1, 0;
    var ii, t := 0, t0;
    AddNone(V, i, numbers);
    while true
      invariant t < |str| && 1 <= k < |numbers| && numbers[k] >= 0 && c <= |Digits(numbers[k])| && Reading(str, t, numbers, k, c, ii)
      invariant Values(newrows[..]) == AddAll(V, i, numbers[1..k]) && RowsSorted(newrows[..])
      decreases |str| - t
    {
      ReadNumber(str, t, numbers, k, c, ii);
      if str[t] == '\n' || str[t] == ' ' {
        ReadEnd(str, t, numbers, k, c, ii);
        AddTarget(newrows, ii, i, V, line, k);
        ii := 0;
      } else {
        ReadDigit(str, t, numbers, k, c, ii);
        ii := 10 * ii + DigitValue(str[t]);
        c := c + 1;
      }
      if str[t] == '\n' {
        AllTargets(numbers, k);
        break;
      }
      if str[t] == ' ' {
        k, c := k + 1, 0;
        ReadBound(str, t + 1, numbers, k, c, ii);
      }
      t := t + 1;
      ReadNumber(str, t, numbers, k, c, ii);
    }
  }

  lemma AllTargets(numbers: seq<int>, k: nat)
    requires k + 1 == |numbers|
    ensures numbers[1..k + 1] == numbers[1..]
  {
  }

  lemma AddNone(V: Rowset, src: nat, numbers: seq<int>)
    requires numbers != []
    ensures AddAll(V, src, numbers[1..1]) == V
  {
  }

  lemma NumbersOk(V: Rowset, line: seq<int>)
    requires LineOk(V, line)
    ensures |Numbers(line)| == |line| && Numbers(line)[1..] == line[1..]
    ensures NonNegative(Numbers(line))
  {
  }

  lemma ValuesLive(rows: seq<Option<seq<nat>>>, ii: nat, i: nat)
    requires ii < |rows| && i < |rows| && Values(rows)[ii].Some? && Values(rows)[i].Some?
    ensures rows[ii].Some? && rows[i].Some?
  {
  }

  method DoAllAdds(newrows: array<Option<seq<nat>>>, str: string, ghost line: seq<int>)
    requires RowsSorted(newrows[..]) && LineOk(Values(newrows[..]), line) && str == Print(line)
    modifies newrows
    ensures Values(newrows[..]) == DoLine(old(Values(newrows[..])), line) && RowsSorted(newrows[..])
  {
    hide Reading, RowsSorted, Numbers, Values, Print, AddAll, NonNegative;
    ghost var V := Values(newrows[..]);
    NumbersOk(V, line);
    ReadStart(line);
    var t, destroy := 0, true;
    if str[t] == '-' {
      destroy := false;
      t := t + 1;
    }
    var i: int;
    i, t := ReadFirst(str, t, Numbers(line));
    FirstNumber(V, line);
    if !destroy {
      i := i - 1;
    }
    if str[t] != '\n' {
      t := t + 1;
      ReadsOn(str, t, Numbers(line));
      AddToEach(newrows, str, t, i, line);
    } else {
      AddNothing(V, i, line);
    }
    if destroy {
      DestroyRow(newrows, i);
    }
  }

  lemma ReadsOn(str: string, t: nat, numbers: seq<int>)
    requires Reading(str, t, numbers, 1, 0, 0)
    ensures t < |str|
  {
  }

  lemma FirstNumber(V: Rowset, line: seq<int>)
    requires LineOk(V, line)
    ensures Source(line) == if line[0] < 0 then Numbers(line)[0] - 1 else Numbers(line)[0]
  {
  }

  lemma AddNothing(V: Rowset, i: nat, line: seq<int>)
    requires |line| == 1
    ensures AddAll(V, i, line[1..]) == V
  {
  }

  method DestroyRow(newrows: array<Option<seq<nat>>>, i: nat)
    requires i < newrows.Length && RowsSorted(newrows[..])
    modifies newrows
    ensures Values(newrows[..]) == old(Values(newrows[..]))[i := None] && RowsSorted(newrows[..])
  {
    ghost var s := newrows[..];
    newrows[i] := None;
    assert newrows[..] == s[i := None];
  }

  method NewUnits(nrows: nat) returns (newrows: array<Option<seq<nat>>>)
    ensures fresh(newrows) && newrows.Length == nrows && Values(newrows[..]) == Units(nrows) && RowsSorted(newrows[..])
  {
    newrows := new Option<seq<nat>>[nrows](i requires 0 <= i < nrows => Some([i]));
    assert forall i: nat :: i < nrows ==> newrows[i] == Some([i]) && Cols([i]) == {i};
    assert Values(newrows[..]) == Units(nrows);
  }

  lemma NextLine(V: Rowset, lines: seq<seq<int>>, k: nat)
    requires k < |lines| && LinesOk(V, lines[..k + 1])
    ensures LineOk(DoLines(V, lines[..k]), lines[k])
    ensures DoLines(V, lines[..k + 1]) == DoLine(DoLines(V, lines[..k]), lines[k])
  {
    assert lines[..k + 1][..k] == lines[..k];
  }

  lemma {:induction false} LinesPrefix(V: Rowset, lines: seq<seq<int>>, k: nat)
    requires LinesOk(V, lines) && k <= |lines|
    ensures LinesOk(V, lines[..k])
    decreases |lines|
  {
    if k < |lines| {
      LinesPrefix(V, lines[..|lines| - 1], k);
      assert lines[..|lines| - 1][..k] == lines[..k];
    } else {
      assert lines[..k] == lines;
    }
  }

  /** The lines that are good for V are good for a list of row numbers that represents it. */
  lemma {:induction false} LinesOkRepresents(V: Rowset, N: Rowset, orig: seq<set<nat>>, lines: seq<seq<int>>)
    requires LinesOk(V, lines) && Represents(V, N, orig)
    ensures LinesOk(N, lines)
    decreases |lines|
  {
    if lines != [] {
      var k := |lines| - 1;
      LinesOkRepresents(V, N, orig, lines[..k]);
      DoLinesRepresents(V, N, orig, lines[..k]);
    }
  }

  lemma UnitsRepresent(start: Rowset)
    ensures Represents(start, Units(|start|), Sets(start))
  {
    forall i | 0 <= i < |start| && start[i].Some? ensures start[i].value == Comb(Sets(start), Units(|start|)[i].value) {
      CombUnit(Sets(start), i);
    }
  }
}
