/**
 Command lines: splitting into arguments, quoting an argument for the splitter, and expanding variables.

 Which code units are white space, and which are letters or numbers, are Qt's tables; they enter as parameters.
 */
module Commandline {
  import opened Text
  import opened Separators

  type CharTable = QChar -> bool

  const NO_QUOTE: QChar := 0

  // ---------- The splitter ----------

  datatype Scanner = Scanner(argv: seq<QString>, current: QString, escape: bool, inquotes: QChar)

  const START := Scanner([], [], false, NO_QUOTE)

  ghost predicate IsSpaceTable(space: CharTable) {
    space(SPACE) && !space(QUOTE) && !space(APOSTROPHE) && !space(BACKSLASH)
  }

  predicate QuoteMark(c: QChar) {
    c == QUOTE || c == APOSTROPHE
  }

  /** One step on the first character of rest; a backslash looks at the one after it. */
  function Step(space: CharTable, st: Scanner, rest: QString): Scanner
    requires rest != []
  {
    var c := rest[0];
    if st.escape then st.(current := st.current + [c], escape := false)
    else if st.inquotes != NO_QUOTE then
      if c == BACKSLASH && |rest| > 1 && (rest[1] == st.inquotes || rest[1] == BACKSLASH) then st.(escape := true)
      else if c == st.inquotes then st.(inquotes := NO_QUOTE)
      else st.(current := st.current + [c])
    else if space(c) then
      if st.current != [] then st.(argv := st.argv + [st.current], current := []) else st
    else if QuoteMark(c) then st.(inquotes := c)
    else st.(current := st.current + [c])
  }

  function Scan(space: CharTable, st: Scanner, rest: QString): Scanner
    decreases |rest|
  {
    if rest == [] then st else Scan(space, Step(space, st, rest), rest[1..])
  }

  function Finish(st: Scanner): seq<QString> {
    if st.current != [] then st.argv + [st.current] else st.argv
  }

  function Arguments(space: CharTable, args: QString): seq<QString> {
    Finish(Scan(space, START, args))
  }

  method SplitArgs(space: CharTable, args: QString) returns (argv: seq<QString>)
    ensures argv == Arguments(space, args)
  {
    argv := [];
    var current: QString := [];
    var escape := false;
    var inquotes := NO_QUOTE;
    for i := 0 to |args|
      invariant Scan(space, START, args) == Scan(space, Scanner(argv, current, escape, inquotes), args[i..])
    {
      var cchar := args[i];
      assert args[i..][1..] == args[i + 1..];
      assert i + 1 < |args| ==> args[i..][1] == args[i + 1];
      if escape {
        current := current + [cchar];
        escape := false;
      } else if inquotes != NO_QUOTE {
        if cchar == BACKSLASH && i + 1 < |args| && (args[i + 1] == inquotes || args[i + 1] == BACKSLASH) {
          escape := true;
        } else if cchar == inquotes {
          inquotes := NO_QUOTE;
        } else {
          current := current + [cchar];
        }
      } else if space(cchar) {
        if current != [] {
          argv := argv + [current];
          current := [];
        }
      } else if QuoteMark(cchar) {
        inquotes := cchar;
      } else {
        current := current + [cchar];
      }
    }
    assert args[|args|..] == [];
    if current != [] {
      argv := argv + [current];
    }
  }

  // ---------- Quoting ----------

  function ReplaceChar(s: QString, c: QChar, after: QString): QString {
    if s == [] then [] else (if s[0] == c then after else [s[0]]) + ReplaceChar(s[1..], c, after)
  }

  function Quote(a: QString): QString {
    if SPACE !in a then a
    else [QUOTE] + ReplaceChar(ReplaceChar(a, BACKSLASH, [BACKSLASH, BACKSLASH]), QUOTE, [BACKSLASH, QUOTE]) + [QUOTE]
  }

  /** The two replacements in one pass. */
  function Escape(a: QString): QString {
    if a == [] then []
    else (if a[0] == BACKSLASH || a[0] == QUOTE then [BACKSLASH, a[0]] else [a[0]]) + Escape(a[1..])
  }

  lemma {:induction false} ReplaceAppend(a: QString, b: QString, c: QChar, after: QString)
    ensures ReplaceChar(a + b, c, after) == ReplaceChar(a, c, after) + ReplaceChar(b, c, after)
  {
    if a == [] {
      assert a + b == b;
    } else {
      assert (a + b)[1..] == a[1..] + b;
      ReplaceAppend(a[1..], b, c, after);
    }
  }

  lemma {:induction false} EscapeIsTwoReplacements(a: QString)
    ensures ReplaceChar(ReplaceChar(a, BACKSLASH, [BACKSLASH, BACKSLASH]), QUOTE, [BACKSLASH, QUOTE]) == Escape(a)
  {
    if a == [] {
    } else {
      var first := if a[0] == BACKSLASH then [BACKSLASH, BACKSLASH] else [a[0]];
      EscapeIsTwoReplacements(a[1..]);
      ReplaceAppend(first, ReplaceChar(a[1..], BACKSLASH, [BACKSLASH, BACKSLASH]), QUOTE, [BACKSLASH, QUOTE]);
      ReplaceOne(a[0], QUOTE, [BACKSLASH, QUOTE]);
      ReplaceOne(BACKSLASH, QUOTE, [BACKSLASH, QUOTE]);
      ReplaceAppend([BACKSLASH], [BACKSLASH], QUOTE, [BACKSLASH, QUOTE]);
      assert [BACKSLASH] + [BACKSLASH] == [BACKSLASH, BACKSLASH];
    }
  }

  lemma ReplaceOne(x: QChar, c: QChar, after: QString)
    ensures ReplaceChar([x], c, after) == if x == c then after else [x]
  {
    assert ReplaceChar([x][1..], c, after) == [];
  }

  /** The command line for a list of arguments: each quoted, joined with single spaces. */
  function QuoteAll(args: seq<QString>): (r: seq<QString>)
    ensures |r| == |args| && forall i :: 0 <= i < |r| ==> r[i] == Quote(args[i])
  {
    seq(|args|, i requires 0 <= i < |args| => Quote(args[i]))
  }

  function CommandLine(args: seq<QString>): QString {
    Join(QuoteAll(args), SPACE)
  }

  // ---------- Scanning in pieces ----------

  predicate Regular(st: Scanner) {
    st.inquotes == NO_QUOTE || QuoteMark(st.inquotes)
  }

  /** Can rest follow without being what a backslash before it looks for? */
  predicate Neutral(rest: QString) {
    rest == [] || !(QuoteMark(rest[0]) || rest[0] == BACKSLASH)
  }

  lemma {:induction false} ScanAppend(space: CharTable, st: Scanner, a: QString, rest: QString)
    requires Regular(st) && Neutral(rest)
    ensures Scan(space, st, a + rest) == Scan(space, Scan(space, st, a), rest)
    ensures Regular(Scan(space, st, a))
    decreases |a|
  {
    if a == [] {
      assert a + rest == rest;
    } else {
      assert (a + rest)[1..] == a[1..] + rest;
      assert Step(space, st, a + rest) == Step(space, st, a);
      ScanAppend(space, Step(space, st, a), a[1..], rest);
    }
  }

  /** What has been completed before plays no role. */
  lemma {:induction false} ScanFrame(space: CharTable, argv: seq<QString>, st: Scanner, a: QString)
    ensures Scan(space, st.(argv := argv + st.argv), a) ==
            Scan(space, st, a).(argv := argv + Scan(space, st, a).argv)
    decreases |a|
  {
    if a == [] {
    } else {
      var next := Step(space, st, a);
      AppendAssociative(argv, st.argv, [st.current]);
      assert Step(space, st.(argv := argv + st.argv), a) == next.(argv := argv + next.argv);
      ScanFrame(space, argv, next, a[1..]);
    }
  }

  // ---------- A quoted argument ----------

  lemma {:induction false} ScanEscaped(space: CharTable, st: Scanner, a: QString)
    requires !st.escape && st.inquotes == QUOTE
    ensures Scan(space, st, Escape(a) + [QUOTE]) == st.(current := st.current + a, inquotes := NO_QUOTE)
    decreases |a|
  {
    if a == [] {
      assert Escape(a) + [QUOTE] == [QUOTE];
      assert [QUOTE][1..] == [];
      assert st.current + a == st.current;
    } else {
      var next := st.(current := st.current + [a[0]]);
      ScanEscapedHead(space, st, a[0], Escape(a[1..]) + [QUOTE]);
      ScanEscaped(space, next, a[1..]);
      assert next.current + a[1..] == st.current + a;
      assert Escape(a) + [QUOTE] == Escape([a[0]]) + (Escape(a[1..]) + [QUOTE]) by {
        assert [a[0]][1..] == [];
      }
    }
  }

  lemma ScanEscapedHead(space: CharTable, st: Scanner, c: QChar, rest: QString)
    requires !st.escape && st.inquotes == QUOTE
    ensures Scan(space, st, Escape([c]) + rest) == Scan(space, st.(current := st.current + [c]), rest)
  {}

  /** Quoted text comes back as it was, backslashes and quotes included. */
  lemma ScanQuoted(space: CharTable, a: QString)
    requires IsSpaceTable(space) && SPACE in a
    ensures Scan(space, START, Quote(a)) == START.(current := a)
  {
    EscapeIsTwoReplacements(a);
    var s := Quote(a);
    assert s == [QUOTE] + (Escape(a) + [QUOTE]) && s[1..] == Escape(a) + [QUOTE];
    assert Step(space, START, s) == START.(inquotes := QUOTE);
    ScanEscaped(space, START.(inquotes := QUOTE), a);
    assert [] + a == a;
  }

  // ---------- What one argument contributes ----------

  /** Twice the characters plus the number of strings: what splitting can only lose. */
  function Weight(list: seq<QString>): nat {
    if list == [] then 0 else Weight(list[..|list| - 1]) + 2 * |list[|list| - 1]| + 1
  }

  function SpacedCount(list: seq<QString>): nat {
    if list == [] then 0 else SpacedCount(list[..|list| - 1]) + if SPACE in list[|list| - 1] then 1 else 0
  }

  lemma {:induction false} MeasuresAppend(a: seq<QString>, b: seq<QString>)
    ensures Weight(a + b) == Weight(a) + Weight(b)
    ensures SpacedCount(a + b) == SpacedCount(a) + SpacedCount(b)
  {
    if b == [] {
      assert a + b == a;
    } else {
      var n := |b| - 1;
      assert (a + b)[..|a + b| - 1] == a + b[..n];
      MeasuresAppend(a, b[..n]);
    }
  }

  lemma MeasuresOne(a: QString)
    ensures Weight([a]) == 2 * |a| + 1
    ensures SpacedCount([a]) == if SPACE in a then 1 else 0
  {}

  /** A character that a bare argument keeps. */
  predicate Plain(space: CharTable, c: QChar) {
    !space(c) && !QuoteMark(c)
  }

  predicate AllPlain(space: CharTable, a: QString) {
    forall i :: 0 <= i < |a| ==> Plain(space, a[i])
  }

  /** The arguments that survive quoting, joining and splitting. */
  predicate Survives(space: CharTable, a: QString) {
    SPACE in a || (a != [] && AllPlain(space, a))
  }

  lemma {:induction false} ScanPlain(space: CharTable, st: Scanner, a: QString)
    requires AllPlain(space, a) && !st.escape && st.inquotes == NO_QUOTE
    ensures Scan(space, st, a) == st.(current := st.current + a)
    decreases |a|
  {
    if a == [] {
      assert st.current + a == st.current;
    } else {
      ScanPlain(space, Step(space, st, a), a[1..]);
      assert st.current + [a[0]] + a[1..] == st.current + a;
    }
  }

  /** The measure of a scanner in the middle of an argument. */
  function Held(st: Scanner): nat {
    Weight(st.argv) + 2 * |st.current|
  }

  /** A scanner in the middle of an argument without spaces. */
  ghost predicate InBare(st: Scanner, a: QString) {
    && Regular(st) && SPACE !in a && SPACE !in st.current
    && (st.escape ==> a != [] && st.inquotes != NO_QUOTE)
  }

  /** What the scanner has become after an argument without spaces. */
  ghost predicate BareRead(space: CharTable, st: Scanner, a: QString, end: Scanner) {
    && !end.escape && Regular(end) && SPACE !in end.current
    && st.argv <= end.argv && SpacedCount(end.argv) == SpacedCount(st.argv)
    && Held(end) <= Held(st) + 2 * |a|
    && (|end.argv| > |st.argv| ==> Held(end) < Held(st) + 2 * |a|)
    && (!AllPlain(space, a) && !st.escape && st.inquotes == NO_QUOTE ==> Held(end) < Held(st) + 2 * |a|)
    && (end.inquotes != NO_QUOTE && st.inquotes == NO_QUOTE ==> Held(end) <= Held(st) + 2 * |a| - 2)
  }

  lemma StepBare(space: CharTable, st: Scanner, a: QString)
    requires IsSpaceTable(space) && a != [] && InBare(st, a)
    ensures InBare(Step(space, st, a), a[1..])
  {}

  lemma BareReadStep(space: CharTable, st: Scanner, a: QString, end: Scanner)
    requires IsSpaceTable(space) && a != [] && InBare(st, a)
    requires BareRead(space, Step(space, st, a), a[1..], end)
    ensures BareRead(space, st, a, end)
  {
    MeasuresAppend(st.argv, [st.current]);
    MeasuresOne(st.current);
    assert a == [a[0]] + a[1..];
  }

  /** A bare argument without spaces adds nothing, loses every quote and white space, and completes no spaced string. */
  lemma {:induction false} ScanBare(space: CharTable, st: Scanner, a: QString)
    requires IsSpaceTable(space) && InBare(st, a)
    ensures BareRead(space, st, a, Scan(space, st, a))
    decreases |a|
  {
    if a == [] {
    } else {
      StepBare(space, st, a);
      ScanBare(space, Step(space, st, a), a[1..]);
      BareReadStep(space, st, a, Scan(space, st, a));
    }
  }

  /** Does a bare argument leave a quotation open at its end? */
  predicate Opens(space: CharTable, a: QString) {
    SPACE !in a && Scan(space, START, a).inquotes != NO_QUOTE
  }

  /** The strings that an argument turns into when it leaves no quotation open. */
  function Out(space: CharTable, a: QString): seq<QString> {
    if SPACE in a then [a] else Finish(Scan(space, START, a))
  }

  function OutAll(space: CharTable, args: seq<QString>): seq<QString> {
    if args == [] then [] else Out(space, args[0]) + OutAll(space, args[1..])
  }

  lemma OutMeasures(space: CharTable, a: QString)
    requires IsSpaceTable(space) && !Opens(space, a)
    ensures Survives(space, a) ==> Out(space, a) == [a]
    ensures !Survives(space, a) ==> Weight(Out(space, a)) < 2 * |a| + 1
    ensures SpacedCount(Out(space, a)) == if SPACE in a then 1 else 0
  {
    if SPACE in a {
      MeasuresOne(a);
    } else {
      var end := Scan(space, START, a);
      ScanBare(space, START, a);
      MeasuresAppend(end.argv, [end.current]);
      MeasuresOne(end.current);
      if Survives(space, a) {
        ScanPlain(space, START, a);
        assert [] + a == a;
        assert [] + [a] == [a];
      }
    }
  }

  /** No argument of the list leaves a quotation open. */
  ghost predicate NoneOpens(space: CharTable, args: seq<QString>) {
    forall i :: 0 <= i < |args| ==> !Opens(space, args[i])
  }

  ghost predicate AllSurvive(space: CharTable, args: seq<QString>) {
    forall i :: 0 <= i < |args| ==> Survives(space, args[i])
  }

  /** What arguments that leave no quotation open turn into: themselves if all survive, else something lighter. */
  ghost predicate Measured(space: CharTable, args: seq<QString>) {
    && (AllSurvive(space, args) ==> OutAll(space, args) == args)
    && Weight(OutAll(space, args)) <= Weight(args)
    && (!AllSurvive(space, args) ==> Weight(OutAll(space, args)) < Weight(args))
    && SpacedCount(OutAll(space, args)) == SpacedCount(args)
  }

  lemma {:induction false} OutAllMeasures(space: CharTable, args: seq<QString>)
    requires IsSpaceTable(space) && NoneOpens(space, args)
    ensures Measured(space, args)
  {
    if args == [] {
    } else {
      OutAllMeasures(space, args[1..]);
      MeasuredCons(space, args[0], args[1..]);
      assert args == [args[0]] + args[1..];
    }
  }

  lemma MeasuredCons(space: CharTable, a: QString, rest: seq<QString>)
    requires IsSpaceTable(space) && !Opens(space, a) && Measured(space, rest)
    ensures Measured(space, [a] + rest)
  {
    OutMeasures(space, a);
    MeasuresCons(space, a, rest);
  }

  lemma MeasuresCons(space: CharTable, a: QString, rest: seq<QString>)
    ensures var all := [a] + rest;
            && OutAll(space, all) == Out(space, a) + OutAll(space, rest)
            && (AllSurvive(space, all) <==> Survives(space, a) && AllSurvive(space, rest))
            && Weight(all) == 2 * |a| + 1 + Weight(rest)
            && Weight(OutAll(space, all)) == Weight(Out(space, a)) + Weight(OutAll(space, rest))
            && SpacedCount(all) == (if SPACE in a then 1 else 0) + SpacedCount(rest)
            && SpacedCount(OutAll(space, all)) == SpacedCount(Out(space, a)) + SpacedCount(OutAll(space, rest))
  {
    var all := [a] + rest;
    assert all[1..] == rest;
    MeasuresOne(a);
    MeasuresAppend([a], rest);
    MeasuresAppend(Out(space, a), OutAll(space, rest));
    if AllSurvive(space, all) {
      forall i | 0 <= i < |rest| ensures Survives(space, rest[i]) {
        assert rest[i] == all[i + 1];
      }
    }
  }

  // ---------- A whole command line ----------

  lemma CommandLineCons(a: QString, rest: seq<QString>)
    requires rest != []
    ensures CommandLine([a] + rest) == Quote(a) + [SPACE] + CommandLine(rest)
    ensures CommandLine([a]) == Quote(a)
  {
    QuoteAllCons(a, rest);
    JoinCons(Quote(a), QuoteAll(rest), SPACE);
  }

  lemma QuoteAllCons(a: QString, rest: seq<QString>)
    ensures QuoteAll([a] + rest) == [Quote(a)] + QuoteAll(rest) && QuoteAll([a]) == [Quote(a)]
  {}

  lemma ScanOne(space: CharTable, a: QString)
    requires IsSpaceTable(space) && !Opens(space, a)
    ensures var end := Scan(space, START, Quote(a));
            !end.escape && end.inquotes == NO_QUOTE && Finish(end) == Out(space, a)
  {
    if SPACE in a {
      ScanQuoted(space, a);
      assert [] + [a] == [a];
    } else {
      ScanBare(space, START, a);
    }
  }

  /** A space between arguments completes what has been read. */
  lemma ScanSpace(space: CharTable, st: Scanner, rest: QString)
    requires IsSpaceTable(space) && !st.escape && st.inquotes == NO_QUOTE
    ensures Finish(Scan(space, st, [SPACE] + rest)) == Finish(st) + Finish(Scan(space, START, rest))
  {
    assert ([SPACE] + rest)[1..] == rest;
    var argv := Finish(st);
    assert Step(space, st, [SPACE] + rest) == START.(argv := argv + []);
    ScanFrame(space, argv, START, rest);
    var end := Scan(space, START, rest);
    AppendAssociative(argv, end.argv, [end.current]);
  }

  lemma ScanFirst(space: CharTable, a: QString, rest: QString)
    requires IsSpaceTable(space) && !Opens(space, a)
    ensures Arguments(space, Quote(a) + [SPACE] + rest) == Out(space, a) + Arguments(space, rest)
  {
    assert Quote(a) + [SPACE] + rest == Quote(a) + ([SPACE] + rest);
    ScanAppend(space, START, Quote(a), [SPACE] + rest);
    ScanOne(space, a);
    ScanSpace(space, Scan(space, START, Quote(a)), rest);
  }

  lemma {:induction false} ArgumentsOfAligned(space: CharTable, args: seq<QString>)
    requires IsSpaceTable(space) && NoneOpens(space, args)
    ensures Arguments(space, CommandLine(args)) == OutAll(space, args)
  {
    if |args| == 1 {
      CommandLineCons(args[0], [[]]);
      assert args == [args[0]];
      ScanOne(space, args[0]);
      assert args[1..] == [];
      assert Out(space, args[0]) + [] == Out(space, args[0]);
    } else if |args| > 1 {
      CommandLineCons(args[0], args[1..]);
      assert args == [args[0]] + args[1..];
      ScanFirst(space, args[0], CommandLine(args[1..]));
      ArgumentsOfAligned(space, args[1..]);
    }
  }

  /** Once the string being read holds a space, that string becomes the next argument. */
  lemma {:induction false} SpacedNext(space: CharTable, st: Scanner, rest: QString)
    requires SPACE in st.current
    ensures var out, t := Finish(Scan(space, st, rest)), |st.argv|;
            |out| > t && out[..t] == st.argv && SPACE in out[t]
    decreases |rest|
  {
    if rest == [] {
    } else {
      var next := Step(space, st, rest);
      if next.current != [] {
        SpacedNext(space, next, rest[1..]);
      } else {
        ArgvKept(space, next, rest[1..]);
      }
    }
  }

  lemma {:induction false} ArgvKept(space: CharTable, st: Scanner, rest: QString)
    ensures st.argv <= Finish(Scan(space, st, rest))
    decreases |rest|
  {
    if rest == [] {
    } else {
      ArgvKept(space, Step(space, st, rest), rest[1..]);
    }
  }

  /** The list starts with the known strings, and the next one holds a space. */
  predicate StartsKnown(list: seq<QString>, known: seq<QString>) {
    |known| < |list| && list[..|known|] == known && SPACE in list[|known|]
  }

  /** An open quotation swallows the separator after its argument. */
  lemma OpenSwallows(space: CharTable, y: QString, rest: QString)
    requires IsSpaceTable(space) && Opens(space, y)
    ensures StartsKnown(Arguments(space, y + [SPACE] + rest), Scan(space, START, y).argv)
  {
    assert y + [SPACE] + rest == y + ([SPACE] + rest);
    ScanAppend(space, START, y, [SPACE] + rest);
    ScanBare(space, START, y);
    var end := Scan(space, START, y);
    assert ([SPACE] + rest)[1..] == rest;
    SpacedNext(space, Step(space, end, [SPACE] + rest), rest);
  }

  lemma StartsKnownAfter(first: seq<QString>, list: seq<QString>, known: seq<QString>)
    requires StartsKnown(list, known)
    ensures StartsKnown(first + list, first + known)
  {}

  /** The arguments before the first open quotation come out as usual; the one after them holds a space. */
  lemma {:induction false} ArgumentsUntilOpen(space: CharTable, pre: seq<QString>, y: QString, post: seq<QString>)
    requires IsSpaceTable(space) && NoneOpens(space, pre) && Opens(space, y) && post != []
    ensures StartsKnown(Arguments(space, CommandLine(pre + [y] + post)),
                        OutAll(space, pre) + Scan(space, START, y).argv)
  {
    if pre == [] {
      assert pre + [y] + post == [y] + post;
      CommandLineCons(y, post);
      OpenSwallows(space, y, CommandLine(post));
      assert [] + Scan(space, START, y).argv == Scan(space, START, y).argv;
    } else {
      var rest := pre[1..] + [y] + post;
      assert pre + [y] + post == [pre[0]] + rest;
      CommandLineCons(pre[0], rest);
      ScanFirst(space, pre[0], CommandLine(rest));
      ArgumentsUntilOpen(space, pre[1..], y, post);
      var first, others, argv := Out(space, pre[0]), OutAll(space, pre[1..]), Scan(space, START, y).argv;
      StartsKnownAfter(first, Arguments(space, CommandLine(rest)), others + argv);
      AppendAssociative(first, others, argv);
    }
  }

  lemma {:induction false} ArgumentsOpenAtEnd(space: CharTable, pre: seq<QString>, y: QString)
    requires IsSpaceTable(space) && NoneOpens(space, pre) && Opens(space, y)
    ensures Arguments(space, CommandLine(pre + [y])) == OutAll(space, pre) + Finish(Scan(space, START, y))
  {
    if pre == [] {
      assert pre + [y] == [y];
      CommandLineCons(y, [[]]);
      assert [] + Finish(Scan(space, START, y)) == Finish(Scan(space, START, y));
    } else {
      assert pre + [y] == [pre[0]] + (pre[1..] + [y]);
      CommandLineCons(pre[0], pre[1..] + [y]);
      ScanFirst(space, pre[0], CommandLine(pre[1..] + [y]));
      ArgumentsOpenAtEnd(space, pre[1..], y);
      AppendAssociative(Out(space, pre[0]), OutAll(space, pre[1..]), Finish(Scan(space, START, y)));
    }
  }

  // ---------- The round trip ----------

  lemma {:induction false} FirstOpen(space: CharTable, args: seq<QString>) returns (j: nat)
    requires !NoneOpens(space, args)
    ensures j < |args| && Opens(space, args[j]) && NoneOpens(space, args[..j])
  {
    j := 0;
    while !Opens(space, args[j])
      invariant j < |args| && NoneOpens(space, args[..j])
      invariant exists i :: j <= i < |args| && Opens(space, args[i])
      decreases |args| - j
    {
      j := j + 1;
    }
  }

  lemma MeasuresPrefix(list: seq<QString>, m: nat, n: nat)
    requires m <= n <= |list|
    ensures Weight(list[..m]) <= Weight(list[..n])
    ensures SpacedCount(list[..m]) <= SpacedCount(list[..n])
  {
    assert list[..n] == list[..m] + list[m..n];
    MeasuresAppend(list[..m], list[m..n]);
  }

  /** What is known to come out weighs less than the arguments up to the open quotation. */
  lemma KnownMeasures(space: CharTable, pre: seq<QString>, y: QString)
    requires IsSpaceTable(space) && NoneOpens(space, pre) && Opens(space, y)
    ensures var known := OutAll(space, pre) + Scan(space, START, y).argv;
            Weight(known) < Weight(pre + [y]) && SpacedCount(known) == SpacedCount(pre + [y])
  {
    ScanBare(space, START, y);
    OutAllMeasures(space, pre);
    MeasuresAppend(OutAll(space, pre), Scan(space, START, y).argv);
    MeasuresAppend(pre, [y]);
    MeasuresOne(y);
  }

  /** A prefix that weighs less than list[..n] and is followed by a spaced string has fewer of those than list[..n]. */
  lemma SpacedAfterPrefix(list: seq<QString>, t: nat, n: nat)
    requires t < |list| && n <= |list| && SPACE in list[t] && Weight(list[..t]) < Weight(list[..n])
    ensures SpacedCount(list[..t]) < SpacedCount(list[..n])
  {
    if n <= t {
      MeasuresPrefix(list, n, t);
    } else {
      assert list[..t + 1] == list[..t] + [list[t]];
      MeasuresAppend(list[..t], [list[t]]);
      MeasuresOne(list[t]);
      MeasuresPrefix(list, t + 1, n);
    }
  }

  lemma CannotStart(list: seq<QString>, known: seq<QString>, n: nat)
    requires n <= |list| && Weight(known) < Weight(list[..n]) && SpacedCount(known) == SpacedCount(list[..n])
    ensures !StartsKnown(list, known)
  {
    if StartsKnown(list, known) {
      SpacedAfterPrefix(list, |known|, n);
    }
  }

  /** With a quotation left open before the last argument, the lists cannot agree: they differ in spaced strings. */
  lemma OpenInsideFails(space: CharTable, args: seq<QString>, j: nat)
    requires IsSpaceTable(space) && j + 1 < |args| && Opens(space, args[j]) && NoneOpens(space, args[..j])
    ensures Arguments(space, CommandLine(args)) != args
  {
    var pre, y := args[..j], args[j];
    KnownCannotStart(space, args, j);
    assert args == pre + [y] + args[j + 1..];
    ArgumentsUntilOpen(space, pre, y, args[j + 1..]);
  }

  lemma KnownCannotStart(space: CharTable, args: seq<QString>, j: nat)
    requires IsSpaceTable(space) && j < |args| && Opens(space, args[j]) && NoneOpens(space, args[..j])
    ensures !StartsKnown(args, OutAll(space, args[..j]) + Scan(space, START, args[j]).argv)
  {
    KnownMeasures(space, args[..j], args[j]);
    assert args[..j + 1] == args[..j] + [args[j]];
    CannotStart(args, OutAll(space, args[..j]) + Scan(space, START, args[j]).argv, j + 1);
  }

  lemma OpenAtEndFails(space: CharTable, args: seq<QString>, j: nat)
    requires IsSpaceTable(space) && j + 1 == |args| && Opens(space, args[j]) && NoneOpens(space, args[..j])
    ensures Arguments(space, CommandLine(args)) != args
  {
    var pre, y := args[..j], args[j];
    assert args == pre + [y];
    var end := Scan(space, START, y);
    ArgumentsOpenAtEnd(space, pre, y);
    ScanBare(space, START, y);
    OutAllMeasures(space, pre);
    MeasuresAppend(OutAll(space, pre), Finish(end));
    MeasuresAppend(end.argv, [end.current]);
    MeasuresOne(end.current);
    MeasuresAppend(pre, [y]);
    MeasuresOne(y);
  }

  /**
   Quoting every argument, joining with spaces and splitting returns the same list exactly when every argument either
   holds a space or is non-empty and free of white space and quote marks.
   */
  lemma RoundTrip(space: CharTable, args: seq<QString>)
    requires IsSpaceTable(space)
    ensures Arguments(space, CommandLine(args)) == args <==> AllSurvive(space, args)
  {
    if NoneOpens(space, args) {
      ArgumentsOfAligned(space, args);
      OutAllMeasures(space, args);
    } else {
      var j := FirstOpen(space, args);
      if j + 1 < |args| {
        OpenInsideFails(space, args, j);
      } else {
        OpenAtEndFails(space, args, j);
      }
      if Survives(space, args[j]) {
        ScanPlain(space, START, args[j]);
      }
    }
  }

  lemma OneCharacter(space: CharTable, c: QChar)
    requires c != SPACE
    ensures CommandLine([[c]]) == [c] && Scan(space, START, [c]) == Step(space, START, [c])
  {
    assert QuoteAll([[c]]) == [[c]] && [c][1..] == [];
  }

  /** Lists of one argument that come back empty: the empty argument, a quote mark, and white space other than ' '. */
  lemma LostArguments(space: CharTable, blank: QChar)
    requires IsSpaceTable(space) && space(blank) && blank != SPACE
    ensures Arguments(space, CommandLine([[]])) == []
    ensures Arguments(space, CommandLine([[QUOTE]])) == []
    ensures Arguments(space, CommandLine([[blank]])) == []
    ensures !AllSurvive(space, [[]]) && !AllSurvive(space, [[QUOTE]]) && !AllSurvive(space, [[blank]])
  {
    assert QuoteAll([[]]) == [[]];
    OneCharacter(space, QUOTE);
    OneCharacter(space, blank);
    RoundTrip(space, [[]]);
    RoundTrip(space, [[QUOTE]]);
    RoundTrip(space, [[blank]]);
  }

  lemma {:induction false} EscapeAppend(x: QString, c: QChar, y: QString)
    ensures Escape(x + [c] + y) == Escape(x) + (if c == 0x5C || c == 0x22 then [0x5C, c] else [c]) + Escape(y)
    ensures Escape([]) == []
  {
    if x == [] {
      assert ([] + [c] + y)[1..] == y && x + [c] + y == [c] + y;
    } else {
      assert (x + [c] + y)[1..] == x[1..] + [c] + y;
      EscapeAppend(x[1..], c, y);
    }
  }

  /** What quoting writes: nothing new without a space; otherwise the escaped text between double quotes. */
  lemma QuoteMeans(a: QString)
    ensures 0x20 !in a ==> Quote(a) == a
    ensures 0x20 in a ==> Quote(a) == [0x22] + Escape(a) + [0x22]
  {
    EscapeIsTwoReplacements(a);
  }
}
