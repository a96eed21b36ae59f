/**
 The theory of the version order.

 Comparison is antisymmetric on all strings but transitive only on some. `Regular` says on which: it is a
 condition on the sections of one string, and it cannot be weakened, because every string outside it forms a
 strict cycle with two strings inside it.
 */
module VersionOrder {
  import opened Text
  import opened Versions

  // ---------- What the tokenizer produces ----------

  predicate Lone(x: Section) {
    x.value == [DASH] || x.value == [SPACE]
  }

  predicate LoneHyphen(x: Section) {
    x.t == Textual && Lone(x)
  }

  /** A text has no digit, dash or '+'; a pre-release begins with a dash or space and goes on without digit or '+'. */
  ghost predicate ShapeOne(digit: DigitTable, x: Section) {
    && x.value != []
    && match x.t
       case Null => false
       case Numeric => forall i :: 0 <= i < |x.value| ==> digit(x.value[i])
       case Textual =>
         || LoneHyphen(x)
         || (x.value[0] != SPACE && forall i :: 0 <= i < |x.value| ==> InText(digit, x.value[i]) && x.value[i] != DASH)
       case PreRelease =>
         x.value[0] in {DASH, SPACE} && forall i :: 1 <= i < |x.value| ==> InText(digit, x.value[i])
  }

  predicate InText(digit: DigitTable, c: QChar) {
    !digit(c) && c != PLUS
  }

  /** Can section y come right after section x? */
  ghost predicate Follows(x: Section, y: Section)
    requires y.value != []
  {
    match x.t
    case Numeric => y.t != Numeric
    case Textual => y.t == Numeric || (!LoneHyphen(x) && y.value[0] == DASH)
    case PreRelease => y.t == Numeric && |x.value| > 1
    case Null => false
  }

  ghost predicate Shape(digit: DigitTable, raw: seq<Section>) {
    && (forall i :: 0 <= i < |raw| ==> ShapeOne(digit, raw[i]))
    && (forall i :: 0 < i < |raw| ==> Follows(raw[i - 1], raw[i]))
  }

  function Render(raw: seq<Section>): QString {
    if raw == [] then [] else raw[0].value + Render(raw[1..])
  }

  function BeforePlus(s: QString): QString {
    if s == [] || s[0] == PLUS then [] else [s[0]] + BeforePlus(s[1..])
  }

  lemma {:induction false} BeforePlusSplit(s: QString, n: nat)
    requires n <= |s| && forall i :: 0 <= i < n ==> s[i] != PLUS
    ensures BeforePlus(s) == s[..n] + BeforePlus(s[n..])
  {
    if n > 0 {
      BeforePlusSplit(s[1..], n - 1);
      assert s[..n] == [s[0]] + s[1..][..n - 1] && s[1..][n - 1..] == s[n..];
    } else {
      assert s[..0] == [] && s[0..] == s;
    }
  }

  lemma HeadShape(digit: DigitTable, s: QString)
    requires IsDigitTable(digit) && s != [] && s[0] != PLUS
    ensures var n := HeadLength(digit, s);
            && ShapeOne(digit, Section(HeadType(digit, s), s[..n]))
            && (forall i :: 0 <= i < n ==> s[i] != PLUS)
  {}

  /** The text before the first '+' is cut into sections of the expected shapes; nothing is lost. */
  lemma {:induction false} ParseRenders(digit: DigitTable, s: QString)
    requires IsDigitTable(digit)
    ensures Render(RawSections(digit, s)) == BeforePlus(s)
    ensures Shape(digit, RawSections(digit, s))
    decreases |s|
  {
    if s != [] && s[0] != PLUS {
      HeadProgress(digit, s);
      HeadShape(digit, s);
      var n := HeadLength(digit, s);
      ParseRenders(digit, s[n..]);
      BeforePlusSplit(s, n);
      RawSectionsUnfold(digit, s);
      NextFollows(digit, s);
    }
  }

  /** The section at the head of s is followed by one that may come after it. */
  lemma NextFollows(digit: DigitTable, s: QString)
    requires IsDigitTable(digit) && s != [] && s[0] != PLUS
    ensures var n := HeadLength(digit, s);
            var tail := RawSections(digit, s[n..]);
            tail != [] && tail[0].value != [] ==> Follows(Section(HeadType(digit, s), s[..n]), tail[0])
  {
    HeadShape(digit, s);
    HeadProgress(digit, s);
    var n := HeadLength(digit, s);
    var rest := s[n..];
    if rest != [] && rest[0] != PLUS {
      HeadShape(digit, rest);
      HeadProgress(digit, rest);
      RawSectionsUnfold(digit, rest);
      assert RawSections(digit, rest)[0].value[0] == rest[0] == s[n];
      if Hyphen(s[0]) {
        assert s[1..][n - 1] == s[n];
      }
    }
  }

  /** Can rest come after section x, so that x ends there? */
  predicate EndsBefore(digit: DigitTable, x: Section, rest: QString) {
    && (rest != [] ==> EndsRun(digit, x.t, rest[0]) && (LoneHyphen(x) ==> digit(rest[0])))
    && (x.t == PreRelease && |x.value| == 1 ==> rest != [] && !digit(rest[0]))
  }

  lemma HeadOfRender(digit: DigitTable, x: Section, rest: QString)
    requires IsDigitTable(digit) && ShapeOne(digit, x) && EndsBefore(digit, x, rest)
    ensures HeadType(digit, x.value + rest) == x.t && HeadLength(digit, x.value + rest) == |x.value|
  {
    var s := x.value + rest;
    assert forall i :: 0 <= i < |x.value| ==> s[i] == x.value[i];
    assert rest != [] ==> s[|x.value|] == rest[0];
    assert s[0..] == s;
    RunLengthIs(digit, x.t, s, if Hyphen(s[0]) then 1 else 0, |x.value|);
  }

  lemma ParseHead(digit: DigitTable, x: Section, rest: QString)
    requires IsDigitTable(digit) && ShapeOne(digit, x) && EndsBefore(digit, x, rest)
    ensures RawSections(digit, x.value + rest) == [x] + RawSections(digit, rest)
  {
    var s, n := x.value + rest, |x.value|;
    HeadOfRender(digit, x, rest);
    assert s[..n] == x.value && s[n..] == rest && s[0] == x.value[0];
    RawSectionsUnfold(digit, s);
  }

  lemma {:induction false} RenderHead(digit: DigitTable, raw: seq<Section>)
    requires Shape(digit, raw)
    ensures raw == [] <==> Render(raw) == []
    ensures raw != [] ==> Render(raw)[0] == raw[0].value[0]
  {}

  lemma ShapeTail(digit: DigitTable, raw: seq<Section>)
    requires Shape(digit, raw) && raw != []
    ensures ShapeOne(digit, raw[0]) && Shape(digit, raw[1..])
    ensures |raw| > 1 ==> ShapeOne(digit, raw[1]) && Follows(raw[0], raw[1])
  {}

  /** A dash or space at the very end is a text, but right before a '+' it is a pre-release. */
  predicate EndsRight(raw: seq<Section>, plus: bool) {
    raw != [] && Lone(raw[|raw| - 1]) ==> (raw[|raw| - 1].t == PreRelease <==> plus)
  }

  lemma {:induction false} RenderParsesBefore(digit: DigitTable, raw: seq<Section>, tail: QString)
    requires IsDigitTable(digit) && Shape(digit, raw)
    requires (tail != [] ==> tail[0] == PLUS) && EndsRight(raw, tail != [])
    ensures RawSections(digit, Render(raw) + tail) == raw
  {
    if raw == [] {
      assert Render(raw) + tail == tail;
    } else {
      ShapeTail(digit, raw);
      RenderUnfold(raw, tail);
      HeadEnds(digit, raw, tail);
      RenderParsesBefore(digit, raw[1..], tail);
      ParseHead(digit, raw[0], Render(raw[1..]) + tail);
    }
  }

  lemma RenderUnfold(raw: seq<Section>, tail: QString)
    requires raw != []
    ensures Render(raw) + tail == raw[0].value + (Render(raw[1..]) + tail)
    ensures EndsRight(raw, tail != []) ==> EndsRight(raw[1..], tail != [])
    ensures raw == [raw[0]] + raw[1..]
  {
    assert raw[1..] != [] ==> raw[1..][|raw[1..]| - 1] == raw[|raw| - 1];
    AppendAssociative(raw[0].value, Render(raw[1..]), tail);
  }

  lemma HeadEnds(digit: DigitTable, raw: seq<Section>, tail: QString)
    requires IsDigitTable(digit) && Shape(digit, raw) && raw != []
    requires (tail != [] ==> tail[0] == PLUS) && EndsRight(raw, tail != [])
    ensures EndsBefore(digit, raw[0], Render(raw[1..]) + tail)
  {
    var rest := raw[1..];
    ShapeTail(digit, raw);
    RenderHead(digit, rest);
    if rest == [] {
      assert Render(rest) + tail == tail;
    } else {
      assert (Render(rest) + tail)[0] == rest[0].value[0] && rest[0] == raw[1];
      assert Follows(raw[0], raw[1]) && ShapeOne(digit, raw[1]);
    }
  }

  /** Parsing inverts rendering, so sections and the text they stand for determine each other. */
  lemma RenderParses(digit: DigitTable, raw: seq<Section>)
    requires IsDigitTable(digit) && Shape(digit, raw)
    requires raw != [] && raw[|raw| - 1].t == PreRelease ==> |raw[|raw| - 1].value| > 1
    ensures RawSections(digit, Render(raw)) == raw
  {
    RenderParsesBefore(digit, raw, []);
    assert Render(raw) + [] == Render(raw);
  }

  lemma {:induction false} LastLone(digit: DigitTable, s: QString)
    requires IsDigitTable(digit)
    ensures EndsRight(RawSections(digit, s), PLUS in s)
    decreases |s|
  {
    if s != [] && s[0] != PLUS {
      HeadProgress(digit, s);
      RawSectionsUnfold(digit, s);
      var n := HeadLength(digit, s);
      LastLone(digit, s[n..]);
      PlusAfterHead(digit, s);
      if RawSections(digit, s[n..]) == [] {
        LoneHead(digit, s);
      } else {
        var raw := RawSections(digit, s);
        assert raw[|raw| - 1] == raw[1..][|raw[1..]| - 1];
      }
    }
  }

  lemma PlusAfterHead(digit: DigitTable, s: QString)
    requires IsDigitTable(digit) && s != [] && s[0] != PLUS
    ensures PLUS in s <==> PLUS in s[HeadLength(digit, s)..]
  {
    HeadShape(digit, s);
    var n := HeadLength(digit, s);
    assert s == s[..n] + s[n..];
  }

  /** A dash or space that is the last section is followed by nothing or by a '+'. */
  lemma LoneHead(digit: DigitTable, s: QString)
    requires IsDigitTable(digit) && s != [] && s[0] != PLUS
    requires var rest := s[HeadLength(digit, s)..]; rest == [] || rest[0] == PLUS
    ensures Lone(Section(HeadType(digit, s), s[..HeadLength(digit, s)])) ==>
            (HeadType(digit, s) == PreRelease <==> s[HeadLength(digit, s)..] != [])
  {}

  lemma {:induction false} AtPlus(s: QString)
    ensures BeforePlus(s) <= s
    ensures var rest := s[|BeforePlus(s)|..]; if PLUS in s then rest != [] && rest[0] == PLUS else rest == []
  {
    if s != [] && s[0] != PLUS {
      AtPlus(s[1..]);
      assert s == [s[0]] + s[1..];
    }
  }

  /**
   The sections of a string are the one list of well-shaped, rightly following sections that make up its text before
   the first '+'; and what a dash or space at the end is depends on whether there is a '+'.
   */
  lemma CutExactly(digit: DigitTable, s: QString, raw: seq<Section>)
    requires IsDigitTable(digit)
    ensures RawSections(digit, s) == raw <==>
            Shape(digit, raw) && Render(raw) == BeforePlus(s) && EndsRight(raw, PLUS in s)
  {
    ParseRenders(digit, s);
    LastLone(digit, s);
    if Shape(digit, raw) && Render(raw) == BeforePlus(s) && EndsRight(raw, PLUS in s) {
      AtPlus(s);
      var tail := s[|BeforePlus(s)|..];
      assert s == Render(raw) + tail;
      RenderParsesBefore(digit, raw, tail);
    }
  }

  // ---------- Numeric sections ----------

  function Pow10(n: nat): nat {
    if n == 0 then 1 else 10 * Pow10(n - 1)
  }

  predicate AsciiDigits(v: QString) {
    forall i :: 0 <= i < |v| ==> DIGIT_0 <= v[i] <= DIGIT_9
  }

  /** The natural number a string of ASCII digits denotes. */
  function ValueOf(v: QString): nat
    requires AsciiDigits(v)
  {
    if v == [] then 0 else (v[0] - DIGIT_0) * Pow10(|v| - 1) + ValueOf(v[1..])
  }

  lemma DigitBound(d: nat, p: nat)
    requires d <= 9
    ensures d * p <= 9 * p
    ensures d >= 1 ==> d * p >= p
  {}

  lemma {:induction false} ValueBound(v: QString)
    requires AsciiDigits(v)
    ensures ValueOf(v) < Pow10(|v|)
    ensures v != [] && v[0] != DIGIT_0 ==> ValueOf(v) >= Pow10(|v| - 1)
  {
    if v == [] {
    } else {
      ValueBound(v[1..]);
      DigitBound(v[0] - DIGIT_0, Pow10(|v| - 1));
    }
  }

  lemma {:induction false} Pow10Monotonic(m: nat, n: nat)
    requires m <= n
    ensures Pow10(m) <= Pow10(n)
  {
    if m < n {
      Pow10Monotonic(m, n - 1);
    }
  }

  lemma {:induction false} StripKeepsValue(v: QString)
    requires AsciiDigits(v)
    ensures AsciiDigits(StripZeros(v)) && ValueOf(StripZeros(v)) == ValueOf(v)
    ensures StripZeros(v) != [] ==> StripZeros(v)[0] != DIGIT_0
  {
    if v != [] && v[0] == DIGIT_0 {
      StripKeepsValue(v[1..]);
    }
  }

  lemma LeadingDigitDecides(x: nat, y: nat, p: nat, u: nat, v: nat)
    requires u < p && v < p
    ensures x < y ==> x * p + u < y * p + v
    ensures y < x ==> y * p + v < x * p + u
  {
    if x < y {
      assert (x + 1) * p <= y * p;
    } else if y < x {
      assert (y + 1) * p <= x * p;
    }
  }

  lemma {:induction false} SameLengthByValue(a: QString, b: QString)
    requires AsciiDigits(a) && AsciiDigits(b) && |a| == |b|
    ensures CompareUnits(a, b) == CompareInts(ValueOf(a), ValueOf(b))
  {
    if a == [] {
    } else {
      SameLengthByValue(a[1..], b[1..]);
      ValueBound(a[1..]);
      ValueBound(b[1..]);
      var x, y, p := a[0] - DIGIT_0, b[0] - DIGIT_0, Pow10(|a| - 1);
      LeadingDigitDecides(x, y, p, ValueOf(a[1..]), ValueOf(b[1..]));
    }
  }

  lemma ShorterIsSmaller(a: QString, b: QString)
    requires AsciiDigits(a) && AsciiDigits(b) && |a| < |b| && b[0] != DIGIT_0
    ensures ValueOf(a) < ValueOf(b)
  {
    ValueBound(a);
    ValueBound(b);
    Pow10Monotonic(|a|, |b| - 1);
  }

  /** Numeric sections written in ASCII compare as the unbounded numbers they denote, leading zeros or not. */
  lemma NumericByValue(a: Section, b: Section)
    requires a.t == Numeric && b.t == Numeric && AsciiDigits(a.value) && AsciiDigits(b.value)
    ensures CompareSection(Strip(a), Strip(b)) == CompareInts(ValueOf(a.value), ValueOf(b.value))
  {
    StripKeepsValue(a.value);
    StripKeepsValue(b.value);
    var x, y := StripZeros(a.value), StripZeros(b.value);
    if |x| == |y| {
      SameLengthByValue(x, y);
    } else if |x| < |y| {
      ShorterIsSmaller(x, y);
    } else {
      ShorterIsSmaller(y, x);
    }
  }

  lemma {:induction false} StripZerosMeans(v: QString)
    ensures StripZeros(v) == [] || StripZeros(v)[0] != DIGIT_0
    ensures var n := |v| - |StripZeros(v)|;
            n >= 0 && v[n..] == StripZeros(v) && forall i :: 0 <= i < n ==> v[i] == DIGIT_0
  {
    if v != [] && v[0] == DIGIT_0 {
      StripZerosMeans(v[1..]);
    }
  }

  // ---------- The order, in terms of code units ----------

  /** A section is missing (Null) after a pre-release, and before everything else; numbers go by length first. */
  ghost predicate ComesBefore(x: Section, y: Section) {
    if x.t == Null then y.t != PreRelease
    else if y.t == Null then x.t == PreRelease
    else if x.t == Numeric && y.t == Numeric && |x.value| != |y.value| then |x.value| < |y.value|
    else Lower(x.value, y.value)
  }

  lemma SectionByUnits(x: Section, y: Section)
    requires x.t != Null || y.t != Null
    ensures CompareSection(x, y) == Less <==> ComesBefore(x, y)
    ensures CompareSection(x, y) == Greater <==> ComesBefore(y, x)
    ensures CompareSection(x, y) == Equal <==> x.t != Null && y.t != Null && x.value == y.value
  {
    CompareUnitsMeans(x.value, y.value);
    CompareUnitsReverse(x.value, y.value);
  }

  function SectionAt(xs: seq<Section>, k: nat): Section {
    if k < |xs| then xs[k] else NULL_SECTION
  }

  /** xs and ys have the same values before section k, where xs comes first. */
  ghost predicate DecidedAt(xs: seq<Section>, ys: seq<Section>, k: nat) {
    && k <= |xs| && k <= |ys| && (k < |xs| || k < |ys|)
    && (forall i :: 0 <= i < k ==> xs[i].value == ys[i].value)
    && ComesBefore(SectionAt(xs, k), SectionAt(ys, k))
  }

  ghost predicate FirstByUnits(xs: seq<Section>, ys: seq<Section>) {
    exists k: nat :: DecidedAt(xs, ys, k)
  }

  lemma {:induction false} CompareMeans(xs: seq<Section>, ys: seq<Section>)
    requires NoNull(xs) && NoNull(ys)
    ensures Compare(xs, ys) == Less <==> FirstByUnits(xs, ys)
    ensures Compare(xs, ys) == Equal <==> |xs| == |ys| && forall i :: 0 <= i < |xs| ==> xs[i].value == ys[i].value
    decreases |xs| + |ys|
  {
    if xs == [] && ys == [] {
    } else {
      var x, y := HeadOrNull(xs), HeadOrNull(ys);
      SectionByUnits(x, y);
      assert DecidedAt(xs, ys, 0) <==> ComesBefore(x, y);
      if CompareSection(x, y) == Equal {
        CompareMeans(xs[1..], ys[1..]);
        DecidedLater(xs, ys);
      } else if FirstByUnits(xs, ys) {
        var k: nat :| DecidedAt(xs, ys, k);
        assert k == 0;
      }
    }
  }

  lemma DecidedLater(xs: seq<Section>, ys: seq<Section>)
    requires xs != [] && ys != [] && xs[0].value == ys[0].value && !ComesBefore(xs[0], ys[0])
    ensures FirstByUnits(xs, ys) <==> FirstByUnits(xs[1..], ys[1..])
    ensures (|xs| == |ys| && forall i :: 0 <= i < |xs| ==> xs[i].value == ys[i].value) <==>
            (|xs[1..]| == |ys[1..]| && forall i :: 0 <= i < |xs[1..]| ==> xs[1..][i].value == ys[1..][i].value)
  {
    if FirstByUnits(xs, ys) {
      var k: nat :| DecidedAt(xs, ys, k);
      assert k > 0;
      assert DecidedAt(xs[1..], ys[1..], k - 1);
    }
    if FirstByUnits(xs[1..], ys[1..]) {
      var k: nat :| DecidedAt(xs[1..], ys[1..], k);
      assert forall i :: 0 < i < k + 1 ==> xs[i] == xs[1..][i - 1] && ys[i] == ys[1..][i - 1];
      assert DecidedAt(xs, ys, k + 1);
    }
    if forall i :: 0 <= i < |xs[1..]| ==> |xs| == |ys| && xs[1..][i].value == ys[1..][i].value {
      forall i | 0 <= i < |xs| && |xs| == |ys| ensures xs[i].value == ys[i].value {
        assert i > 0 ==> xs[i] == xs[1..][i - 1] && ys[i] == ys[1..][i - 1];
      }
    }
  }

  /** The order of any two strings, in terms of the code units of the first sections that differ. */
  lemma OrderByUnits(digit: DigitTable, a: QString, b: QString)
    requires IsDigitTable(digit)
    ensures CompareStrings(digit, a, b) == Less <==> FirstByUnits(Sections(digit, a), Sections(digit, b))
    ensures CompareStrings(digit, a, b) == Greater <==> FirstByUnits(Sections(digit, b), Sections(digit, a))
  {
    ParseRenders(digit, a);
    ParseRenders(digit, b);
    CompareMeans(Sections(digit, a), Sections(digit, b));
    CompareMeans(Sections(digit, b), Sections(digit, a));
    Antisymmetric(digit, a, b);
  }

  // ---------- Antisymmetry, on every string ----------

  lemma SectionReverse(a: Section, b: Section)
    requires a.t != Null || b.t != Null
    ensures CompareSection(b, a) == CompareSection(a, b).Reverse()
  {
    CompareUnitsReverse(a.value, b.value);
  }

  ghost predicate NoNull(xs: seq<Section>) {
    forall i :: 0 <= i < |xs| ==> xs[i].t != Null
  }

  lemma {:induction false} CompareReverse(xs: seq<Section>, ys: seq<Section>)
    requires NoNull(xs) && NoNull(ys)
    ensures Compare(ys, xs) == Compare(xs, ys).Reverse()
    decreases |xs| + |ys|
  {
    if xs != [] || ys != [] {
      SectionReverse(HeadOrNull(xs), HeadOrNull(ys));
      CompareReverse(TailOrNone(xs), TailOrNone(ys));
    }
  }

  lemma Antisymmetric(digit: DigitTable, a: QString, b: QString)
    requires IsDigitTable(digit)
    ensures CompareStrings(digit, b, a) == CompareStrings(digit, a, b).Reverse()
  {
    ParseRenders(digit, a);
    ParseRenders(digit, b);
    CompareReverse(Sections(digit, a), Sections(digit, b));
  }

  // ---------- Where the order is transitive ----------

  /** Is x, coming right after a section of type prev (None at the start), in the domain of the order? */
  predicate Allowed(prev: Option<Type>, x: Section) {
    && (x.t == PreRelease ==> prev == Some(Numeric))
    && (x.t == Textual && prev == Some(Numeric) ==> x.value != [] && x.value[0] > DASH)
    && (x.t == Numeric && prev == None && x.value != [] ==> x.value[0] <= DIGIT_9)
  }

  predicate RegularFrom(prev: Option<Type>, xs: seq<Section>)
    decreases |xs|
  {
    xs == [] || (Allowed(prev, xs[0]) && RegularFrom(Some(xs[0].t), xs[1..]))
  }

  /**
   The domain of the order: a pre-release section directly follows a number, a textual section that directly
   follows a number starts above '-', and a number at the start does not begin with a non-ASCII digit.
   */
  predicate Regular(digit: DigitTable, s: QString) {
    RegularFrom(None, Sections(digit, s))
  }

  /** What the tokenizer guarantees of x when it comes after a section of type prev. */
  ghost predicate Parsed(digit: DigitTable, prev: Option<Type>, x: Section) {
    && x.t != Null && prev != Some(Null)
    && (x.t != Numeric ==> x.value != [] && !digit(x.value[0]))
    && (x.t == Numeric ==> forall i :: 0 <= i < |x.value| ==> digit(x.value[i]))
    && (x.t == PreRelease ==> Hyphen(x.value[0]))
    && (prev == Some(Numeric) ==> x.t != Numeric)
    && (prev == Some(PreRelease) ==> x.t == Numeric)
    && (prev == Some(Textual) ==> x.t != Textual || x.value[0] == DASH)
  }

  ghost predicate ParsedFrom(digit: DigitTable, prev: Option<Type>, xs: seq<Section>)
    decreases |xs|
  {
    xs == [] || (Parsed(digit, prev, xs[0]) && ParsedFrom(digit, Some(xs[0].t), xs[1..]))
  }

  lemma {:induction false} StripZerosDigits(digit: DigitTable, v: QString)
    requires forall i :: 0 <= i < |v| ==> digit(v[i])
    ensures forall i :: 0 <= i < |StripZeros(v)| ==> digit(StripZeros(v)[i])
  {
    if v != [] && v[0] == DIGIT_0 {
      StripZerosDigits(digit, v[1..]);
    }
  }

  lemma {:induction false} ShapeIsParsed(digit: DigitTable, prev: Option<Section>, raw: seq<Section>)
    requires IsDigitTable(digit) && Shape(digit, raw)
    requires prev.Some? && raw != [] ==> Follows(prev.value, raw[0])
    ensures ParsedFrom(digit, if prev.Some? then Some(prev.value.t) else None, StripAll(raw))
    decreases |raw|
  {
    if raw == [] {
    } else {
      ShapeTail(digit, raw);
      if raw[0].t == Numeric {
        StripZerosDigits(digit, raw[0].value);
      }
      ShapeIsParsed(digit, Some(raw[0]), raw[1..]);
      assert StripAll(raw)[1..] == StripAll(raw[1..]);
    }
  }

  lemma SectionsParsed(digit: DigitTable, s: QString)
    requires IsDigitTable(digit)
    ensures ParsedFrom(digit, None, Sections(digit, s))
  {
    ParseRenders(digit, s);
    ShapeIsParsed(digit, None, RawSections(digit, s));
  }

  /** A section that may stand at a given position of a regular version, or the null section. */
  ghost predicate Possible(digit: DigitTable, prev: Option<Type>, x: Section) {
    x == NULL_SECTION || (Parsed(digit, prev, x) && Allowed(prev, x))
  }

  function Rank(x: Section): int {
    match x.t
    case PreRelease => 0
    case Null => 1
    case Numeric => if x.value == [] then 2 else 4
    case Textual => if x.value != [] && x.value[0] < DIGIT_0 then 3 else 5
  }

  lemma LowerRankIsLess(digit: DigitTable, prev: Option<Type>, a: Section, b: Section)
    requires IsDigitTable(digit) && Possible(digit, prev, a) && Possible(digit, prev, b)
    requires Rank(a) < Rank(b)
    ensures CompareSection(a, b) == Less
  {
    if a.t == Null || b.t == Null {
    } else if a.t == Numeric && b.t == Numeric {
    } else if a.t == Numeric {
      assert !digit(b.value[0]) && (a.value != [] ==> digit(a.value[0]));
      if prev.Some? {
        match prev.value {
          case Textual => assert b.value[0] == DASH;
          case _ =>
        }
      }
      assert a.value == [] || a.value[0] < b.value[0];
    } else if b.t == Numeric {
      assert b.value != [];
      assert digit(b.value[0]);
      assert a.value[0] < b.value[0];
    } else {
      assert a.value[0] < b.value[0];
    }
  }

  lemma RankOfOrder(digit: DigitTable, prev: Option<Type>, a: Section, b: Section)
    requires IsDigitTable(digit) && Possible(digit, prev, a) && Possible(digit, prev, b)
    requires a.t != Null || b.t != Null
    requires CompareSection(a, b) != Greater
    ensures Rank(a) <= Rank(b)
    ensures CompareSection(a, b) == Equal ==> a == b
  {
    SectionReverse(a, b);
    CompareUnitsReverse(a.value, b.value);
    if Rank(b) < Rank(a) {
      LowerRankIsLess(digit, prev, b, a);
    } else if Rank(a) < Rank(b) {
      LowerRankIsLess(digit, prev, a, b);
    }
  }

  lemma SectionTransitive(digit: DigitTable, prev: Option<Type>, a: Section, b: Section, c: Section)
    requires IsDigitTable(digit)
    requires Possible(digit, prev, a) && Possible(digit, prev, b) && Possible(digit, prev, c)
    requires (a.t != Null || b.t != Null) && (b.t != Null || c.t != Null)
    requires CompareSection(a, b) != Greater && CompareSection(b, c) != Greater
    ensures a.t != Null || c.t != Null
    ensures CompareSection(a, c) != Greater
    ensures CompareSection(a, b) == Less || CompareSection(b, c) == Less ==> CompareSection(a, c) == Less
  {
    RankOfOrder(digit, prev, a, b);
    RankOfOrder(digit, prev, b, c);
    if Rank(a) < Rank(c) {
      LowerRankIsLess(digit, prev, a, c);
    } else {
      assert a.t == b.t == c.t;
      if a.t == Numeric {
        if |a.value| == |b.value| == |c.value| {
          CompareUnitsTransitive(a.value, b.value, c.value);
        }
      } else {
        CompareUnitsTransitive(a.value, b.value, c.value);
      }
    }
  }

  lemma {:induction false} EqualIsSame(digit: DigitTable, prev: Option<Type>, xs: seq<Section>, ys: seq<Section>)
    requires IsDigitTable(digit)
    requires ParsedFrom(digit, prev, xs) && RegularFrom(prev, xs)
    requires ParsedFrom(digit, prev, ys) && RegularFrom(prev, ys)
    requires Compare(xs, ys) == Equal
    ensures xs == ys
    decreases |xs|
  {
    if xs != [] || ys != [] {
      RankOfOrder(digit, prev, HeadOrNull(xs), HeadOrNull(ys));
      EqualIsSame(digit, Some(xs[0].t), xs[1..], ys[1..]);
      assert xs == [xs[0]] + xs[1..] && ys == [ys[0]] + ys[1..];
    }
  }

  lemma {:induction false} CompareTransitive(digit: DigitTable, prev: Option<Type>,
                                             xs: seq<Section>, ys: seq<Section>, zs: seq<Section>)
    requires IsDigitTable(digit)
    requires ParsedFrom(digit, prev, xs) && RegularFrom(prev, xs)
    requires ParsedFrom(digit, prev, ys) && RegularFrom(prev, ys)
    requires ParsedFrom(digit, prev, zs) && RegularFrom(prev, zs)
    requires Compare(xs, ys) != Greater && Compare(ys, zs) != Greater
    ensures Compare(xs, zs) != Greater
    ensures Compare(xs, ys) == Less || Compare(ys, zs) == Less ==> Compare(xs, zs) == Less
    decreases |xs|
  {
    if (xs == [] && ys == []) || (ys == [] && zs == []) {
      return;
    }
    var a, b, c := HeadOrNull(xs), HeadOrNull(ys), HeadOrNull(zs);
    SectionTransitive(digit, prev, a, b, c);
    if CompareSection(a, c) == Equal {
      RankOfOrder(digit, prev, a, b);
      RankOfOrder(digit, prev, b, c);
      CompareTransitive(digit, Some(a.t), xs[1..], ys[1..], zs[1..]);
    }
  }

  /** On regular strings the comparison is a total preorder, and equal versions have the same sections. */
  lemma TransitiveOnRegular(digit: DigitTable, a: QString, b: QString, c: QString)
    requires IsDigitTable(digit)
    requires Regular(digit, a) && Regular(digit, b) && Regular(digit, c)
    ensures CompareStrings(digit, a, b) == Equal <==> Sections(digit, a) == Sections(digit, b)
    ensures CompareStrings(digit, a, b) != Greater && CompareStrings(digit, b, c) != Greater
            ==> CompareStrings(digit, a, c) != Greater
    ensures CompareStrings(digit, a, b) == Less && CompareStrings(digit, b, c) != Greater
            ==> CompareStrings(digit, a, c) == Less
    ensures CompareStrings(digit, a, b) != Greater && CompareStrings(digit, b, c) == Less
            ==> CompareStrings(digit, a, c) == Less
  {
    SectionsParsed(digit, a);
    SectionsParsed(digit, b);
    SectionsParsed(digit, c);
    var xs, ys, zs := Sections(digit, a), Sections(digit, b), Sections(digit, c);
    Antisymmetric(digit, a, a);
    if Compare(xs, ys) == Equal {
      EqualIsSame(digit, None, xs, ys);
    }
    if Compare(xs, ys) != Greater && Compare(ys, zs) != Greater {
      CompareTransitive(digit, None, xs, ys, zs);
    }
  }

  // ---------- The domain cannot be made larger ----------

  ghost predicate Cycle(digit: DigitTable, s: QString, a: QString, b: QString) {
    CompareStrings(digit, s, a) == Less && CompareStrings(digit, a, b) == Less && CompareStrings(digit, b, s) == Less
  }

  lemma {:induction false} CompareAfterPrefix(p: seq<Section>, xs: seq<Section>, ys: seq<Section>)
    requires NoNull(p)
    ensures Compare(p + xs, p + ys) == Compare(xs, ys)
  {
    if p == [] {
      assert p + xs == xs && p + ys == ys;
    } else {
      CompareUnitsReverse(p[0].value, p[0].value);
      assert (p + xs)[1..] == p[1..] + xs && (p + ys)[1..] == p[1..] + ys;
      CompareAfterPrefix(p[1..], xs, ys);
    }
  }

  function TypeBefore(prev: Option<Type>, xs: seq<Section>, k: nat): Option<Type>
    requires k <= |xs|
  {
    if k == 0 then prev else Some(xs[k - 1].t)
  }

  /** The first section that breaks regularity. */
  lemma {:induction false} FirstBreak(prev: Option<Type>, xs: seq<Section>) returns (k: nat)
    requires !RegularFrom(prev, xs)
    ensures k < |xs| && !Allowed(TypeBefore(prev, xs, k), xs[k])
    ensures RegularFrom(prev, xs[..k])
    decreases |xs|
  {
    if !Allowed(prev, xs[0]) {
      k := 0;
    } else {
      var j := FirstBreak(Some(xs[0].t), xs[1..]);
      k := j + 1;
      assert xs[..k] == [xs[0]] + xs[1..][..j];
    }
  }

  lemma {:induction false} RegularSnoc(prev: Option<Type>, xs: seq<Section>, x: Section)
    requires RegularFrom(prev, xs) && Allowed(TypeBefore(prev, xs, |xs|), x)
    ensures RegularFrom(prev, xs + [x])
    decreases |xs|
  {
    if xs == [] {
      assert (xs + [x])[1..] == [];
    } else {
      RegularSnoc(Some(xs[0].t), xs[1..], x);
      assert (xs + [x])[1..] == xs[1..] + [x];
    }
  }

  lemma {:induction false} StripAllPrefix(raw: seq<Section>, k: nat)
    requires k <= |raw|
    ensures StripAll(raw[..k]) == StripAll(raw)[..k]
  {}

  lemma ShapePrefix(digit: DigitTable, raw: seq<Section>, k: nat)
    requires Shape(digit, raw) && k <= |raw|
    ensures Shape(digit, raw[..k])
  {}

  lemma ShapeSnoc(digit: DigitTable, raw: seq<Section>, x: Section)
    requires Shape(digit, raw) && raw != [] && ShapeOne(digit, x) && Follows(raw[|raw| - 1], x)
    ensures Shape(digit, raw + [x])
  {}

  /** Cutting a version after its first k sections. */
  lemma Cut(digit: DigitTable, raw: seq<Section>, k: nat)
    requires IsDigitTable(digit) && Shape(digit, raw) && 0 < k < |raw|
    requires RegularFrom(None, StripAll(raw)[..k])
    ensures Sections(digit, Render(raw[..k])) == StripAll(raw)[..k] && Regular(digit, Render(raw[..k]))
  {
    assert ShapeOne(digit, raw[k]) && Follows(raw[k - 1], raw[k]);
    ShapePrefix(digit, raw, k);
    RenderParses(digit, raw[..k]);
    StripAllPrefix(raw, k);
  }

  lemma ReplaceParses(digit: DigitTable, raw: seq<Section>, k: nat, x: Section)
    requires IsDigitTable(digit) && Shape(digit, raw) && 0 < k < |raw|
    requires ShapeOne(digit, x) && (x.t == PreRelease ==> |x.value| > 1) && Follows(raw[k - 1], x)
    ensures RawSections(digit, Render(raw[..k] + [x])) == raw[..k] + [x]
  {
    ShapePrefix(digit, raw, k);
    ShapeSnoc(digit, raw[..k], x);
    var replaced := raw[..k] + [x];
    assert replaced[|replaced| - 1] == x;
    RenderParses(digit, replaced);
  }

  /** The same with one more section x put there instead of the rest. */
  lemma Replace(digit: DigitTable, raw: seq<Section>, k: nat, x: Section)
    requires IsDigitTable(digit) && Shape(digit, raw) && 0 < k < |raw|
    requires RegularFrom(None, StripAll(raw)[..k])
    requires ShapeOne(digit, x) && (x.t == PreRelease ==> |x.value| > 1)
    requires Follows(raw[k - 1], x) && Allowed(Some(raw[k - 1].t), Strip(x))
    ensures var longer := Render(raw[..k] + [x]);
            Sections(digit, longer) == StripAll(raw)[..k] + [Strip(x)] && Regular(digit, longer)
  {
    ReplaceParses(digit, raw, k, x);
    StripAllPrefix(raw, k);
    StripAllSnoc(raw[..k], x);
    RegularSnoc(None, StripAll(raw)[..k], Strip(x));
  }

  lemma {:induction false} OnesParse(digit: DigitTable, n: nat)
    requires IsDigitTable(digit) && n > 0
    ensures var ones := seq(n, _ => DIGIT_1);
            Sections(digit, ones) == [Section(Numeric, ones)] && Regular(digit, ones)
  {
    var ones := seq(n, _ => DIGIT_1);
    RenderParses(digit, [Section(Numeric, ones)]);
    assert Render([Section(Numeric, ones)]) == ones;
  }

  lemma CycleAtNumber(digit: DigitTable, s: QString) returns (a: QString, b: QString)
    requires IsDigitTable(digit)
    requires var xs := Sections(digit, s);
             xs != [] && xs[0].t == Numeric && xs[0].value != [] && xs[0].value[0] > DIGIT_9
    ensures Regular(digit, a) && Regular(digit, b) && Cycle(digit, s, a, b)
  {
    SectionsParsed(digit, s);
    var n := Sections(digit, s)[0].value;
    assert digit(n[0]);
    a := seq(|n| + 1, _ => DIGIT_1);
    OnesParse(digit, |n| + 1);
    b := [LOWER_Z];
    RenderParses(digit, [Section(Textual, b)]);
    assert Render([Section(Textual, b)]) == b;
  }

  lemma CycleAtStart(digit: DigitTable, s: QString) returns (a: QString, b: QString)
    requires IsDigitTable(digit)
    requires var xs := Sections(digit, s); xs != [] && xs[0].t == PreRelease
    ensures Regular(digit, a) && Regular(digit, b) && Cycle(digit, s, a, b)
  {
    SectionsParsed(digit, s);
    a, b := [], [DIGIT_0];
    RenderParses(digit, [Section(Numeric, b)]);
    assert Render([Section(Numeric, b)]) == b;
    assert StripZeros(b) == [];
    assert Sections(digit, b) == [Section(Numeric, [])];
  }

  /** s, cut versions a and b agree on p; what they have after it decides. */
  lemma CycleAfterPrefix(digit: DigitTable, s: QString, a: QString, b: QString, p: seq<Section>,
                         x: seq<Section>, y: seq<Section>, z: seq<Section>)
    requires NoNull(p) && Sections(digit, s) == p + x && Sections(digit, a) == p + y && Sections(digit, b) == p + z
    requires Compare(x, y) == Less && Compare(y, z) == Less && Compare(z, x) == Less
    ensures Cycle(digit, s, a, b)
  {
    CompareAfterPrefix(p, x, y);
    CompareAfterPrefix(p, y, z);
    CompareAfterPrefix(p, z, x);
  }

  lemma PrefixNoNull(digit: DigitTable, raw: seq<Section>, k: nat)
    requires Shape(digit, raw) && k <= |raw|
    ensures NoNull(StripAll(raw)[..k])
  {}

  /** The text of the first k sections of s. */
  function Before(digit: DigitTable, s: QString, k: nat): QString
    requires k <= |RawSections(digit, s)|
  {
    Render(RawSections(digit, s)[..k])
  }

  lemma CutAt(digit: DigitTable, s: QString, k: nat)
    requires IsDigitTable(digit) && 0 < k < |Sections(digit, s)| && RegularFrom(None, Sections(digit, s)[..k])
    ensures Sections(digit, Before(digit, s, k)) == Sections(digit, s)[..k] && Regular(digit, Before(digit, s, k))
    ensures NoNull(Sections(digit, s)[..k])
    ensures var x := Sections(digit, s)[k];
            x.t != Numeric ==> x.value != [] && (x.t == Textual && x.value[0] == DASH ==> |x.value| == 1)
  {
    var raw := RawSections(digit, s);
    ParseRenders(digit, s);
    Cut(digit, raw, k);
    PrefixNoNull(digit, raw, k);
    assert ShapeOne(digit, raw[k]);
  }

  lemma ReplaceAt(digit: DigitTable, s: QString, k: nat, x: Section)
    requires IsDigitTable(digit) && 0 < k < |Sections(digit, s)| && RegularFrom(None, Sections(digit, s)[..k])
    requires var before, at := Sections(digit, s)[k - 1].t, Sections(digit, s)[k].t;
             || (x == Section(Numeric, [DIGIT_0]) && at == PreRelease && before != Numeric)
             || (x == Section(PreRelease, [DASH, LOWER_A]) && before == Numeric)
    ensures var t := Render(RawSections(digit, s)[..k] + [x]);
            Sections(digit, t) == Sections(digit, s)[..k] + [Strip(x)] && Regular(digit, t)
  {
    var raw := RawSections(digit, s);
    ParseRenders(digit, s);
    assert ShapeOne(digit, raw[k - 1]) && ShapeOne(digit, raw[k]) && Follows(raw[k - 1], raw[k]);
    Replace(digit, raw, k, x);
  }

  lemma CycleAtPreRelease(digit: DigitTable, s: QString, k: nat) returns (a: QString, b: QString)
    requires IsDigitTable(digit)
    requires var xs := Sections(digit, s);
             0 < k < |xs| && RegularFrom(None, xs[..k]) && xs[k].t == PreRelease && xs[k - 1].t != Numeric
    ensures Regular(digit, a) && Regular(digit, b) && Cycle(digit, s, a, b)
  {
    var xs, zero := Sections(digit, s), Section(Numeric, [DIGIT_0]);
    CutAt(digit, s, k);
    ReplaceAt(digit, s, k, zero);
    assert StripZeros([DIGIT_0]) == [];
    a, b := Before(digit, s, k), Render(RawSections(digit, s)[..k] + [zero]);
    assert xs == xs[..k] + xs[k..] && xs[..k] == xs[..k] + [];
    CycleAfterPrefix(digit, s, a, b, xs[..k], xs[k..], [], [Strip(zero)]);
  }

  /** A textual section below or at '-' comes before a pre-release, that before the end, and the end before it. */
  lemma LowTextCycle(rest: seq<Section>, pre: Section)
    requires rest != [] && rest[0].t == Textual
    requires var v := rest[0].value; v != [] && v[0] <= DASH && (v[0] == DASH ==> |v| == 1)
    requires pre == Section(PreRelease, [DASH, LOWER_A])
    ensures Compare(rest, [pre]) == Less && Compare([pre], []) == Less && Compare([], rest) == Less
  {
    var x := rest[0];
    assert CompareSection(x, pre) == Less by {
      if x.value[0] == DASH {
        assert CompareUnits(x.value[1..], pre.value[1..]) == Less;
      }
    }
  }

  lemma CycleAtText(digit: DigitTable, s: QString, k: nat) returns (a: QString, b: QString)
    requires IsDigitTable(digit)
    requires var xs := Sections(digit, s);
             && 0 < k < |xs| && RegularFrom(None, xs[..k])
             && xs[k].t == Textual && xs[k - 1].t == Numeric && (xs[k].value == [] || xs[k].value[0] <= DASH)
    ensures Regular(digit, a) && Regular(digit, b) && Cycle(digit, s, a, b)
  {
    var xs, pre := Sections(digit, s), Section(PreRelease, [DASH, LOWER_A]);
    CutAt(digit, s, k);
    ReplaceAt(digit, s, k, pre);
    LowTextCycle(xs[k..], pre);
    a, b := Render(RawSections(digit, s)[..k] + [pre]), Before(digit, s, k);
    assert xs == xs[..k] + xs[k..] && xs[..k] == xs[..k] + [];
    CycleAfterPrefix(digit, s, a, b, xs[..k], xs[k..], [pre], []);
  }

  /** A string is regular exactly when it forms no strict cycle with two regular strings. */
  lemma RegularIsExact(digit: DigitTable, s: QString)
    requires IsDigitTable(digit)
    ensures Regular(digit, s) <==>
            forall a, b :: Regular(digit, a) && Regular(digit, b) ==> !Cycle(digit, s, a, b)
  {
    if Regular(digit, s) {
      forall a, b | Regular(digit, a) && Regular(digit, b) ensures !Cycle(digit, s, a, b) {
        TransitiveOnRegular(digit, s, a, b);
        Antisymmetric(digit, s, b);
      }
    } else {
      var k := FirstBreak(None, Sections(digit, s));
      var a, b;
      if k > 0 {
        if Sections(digit, s)[k].t == PreRelease {
          a, b := CycleAtPreRelease(digit, s, k);
        } else {
          a, b := CycleAtText(digit, s, k);
        }
      } else if Sections(digit, s)[0].t == PreRelease {
        a, b := CycleAtStart(digit, s);
      } else {
        a, b := CycleAtNumber(digit, s);
      }
    }
  }

  // ---------- A cycle of three short versions ----------

  const ONE: Section := Section(Numeric, [DIGIT_1])
  const TWO: Section := Section(Numeric, [DIGIT_1 + 1])
  const HYPHEN: Section := Section(Textual, [DASH])
  const ALPHA: Section := Section(PreRelease, [DASH, LOWER_A])

  const V1: QString := [DIGIT_1]
  const V1_2: QString := [DIGIT_1, DASH, DIGIT_1 + 1]
  const V1_A: QString := [DIGIT_1, DASH, LOWER_A]

  /** A rendered list of sections without leading zeros is what its text consists of. */
  lemma Written(digit: DigitTable, xs: seq<Section>)
    requires IsDigitTable(digit) && Shape(digit, xs) && StripAll(xs) == xs
    requires xs != [] && xs[|xs| - 1].t == PreRelease ==> |xs[|xs| - 1].value| > 1
    ensures Sections(digit, Render(xs)) == xs
  {
    RenderParses(digit, xs);
  }

  lemma RenderCons(x: Section, rest: seq<Section>)
    ensures Render([x] + rest) == x.value + Render(rest)
    ensures Render([x]) == x.value
  {
    assert ([x] + rest)[1..] == rest && [x][1..] == [];
  }

  lemma SectionsOfOne(digit: DigitTable)
    requires IsDigitTable(digit)
    ensures Sections(digit, V1) == [ONE]
  {
    RenderCons(ONE, []);
    Written(digit, [ONE]);
  }

  lemma SectionsOfOneA(digit: DigitTable)
    requires IsDigitTable(digit)
    ensures Sections(digit, V1_A) == [ONE, ALPHA]
  {
    var xs := [ONE, ALPHA];
    RenderCons(ONE, [ALPHA]);
    RenderCons(ALPHA, []);
    assert xs == [ONE] + [ALPHA] && ONE.value + ALPHA.value == V1_A;
    assert ShapeOne(digit, ONE) && ShapeOne(digit, ALPHA) && Follows(ONE, ALPHA);
    assert StripAll(xs) == [ONE] + StripAll([ALPHA]);
    Written(digit, xs);
  }

  lemma SectionsOfOneTwo(digit: DigitTable)
    requires IsDigitTable(digit)
    ensures Sections(digit, V1_2) == [ONE, HYPHEN, TWO]
  {
    var xs := [ONE, HYPHEN, TWO];
    RenderCons(ONE, [HYPHEN] + [TWO]);
    RenderCons(HYPHEN, [TWO]);
    RenderCons(TWO, []);
    assert xs == [ONE] + ([HYPHEN] + [TWO]) && ONE.value + (HYPHEN.value + TWO.value) == V1_2;
    assert ShapeOne(digit, ONE) && ShapeOne(digit, HYPHEN) && ShapeOne(digit, TWO);
    assert Follows(ONE, HYPHEN) && Follows(HYPHEN, TWO);
    assert StripAll(xs) == [ONE] + StripAll(xs[1..]);
    Written(digit, xs);
  }

  /** 1-a < 1 < 1-2 < 1-a, where "1-2" is not regular and the others are. */
  lemma ShortCycle(digit: DigitTable)
    requires IsDigitTable(digit)
    ensures Cycle(digit, V1_2, V1_A, V1)
    ensures Regular(digit, V1_A) && Regular(digit, V1) && !Regular(digit, V1_2)
  {
    SectionsOfOne(digit);
    SectionsOfOneA(digit);
    SectionsOfOneTwo(digit);
    assert [ONE, HYPHEN, TWO] == [ONE] + [HYPHEN, TWO] && [ONE, ALPHA] == [ONE] + [ALPHA] && [ONE] == [ONE] + [];
    LowTextCycle([HYPHEN, TWO], ALPHA);
    CycleAfterPrefix(digit, V1_2, V1_A, V1, [ONE], [HYPHEN, TWO], [ALPHA], []);
    RegularIsExact(digit, V1_2);
  }
}
