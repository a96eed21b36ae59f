/**
 FlexVer version strings: the tokenizer, the section order and the version order.

 Which code units are decimal digits is Qt's table. It enters as the parameter `digit`, and all that is assumed
 of it is that below 128 exactly '0'..'9' are digits.
 */
module Versions {
  import opened Text

  datatype Type = Null | Textual | Numeric | PreRelease

  datatype Section = Section(t: Type, value: QString)

  const NULL_SECTION := Section(Null, [])

  type DigitTable = QChar -> bool

  ghost predicate IsDigitTable(digit: DigitTable) {
    forall c: QChar :: c < 128 ==> (digit(c) <==> DIGIT_0 <= c <= DIGIT_9)
  }

  // ---------- Tokenizer ----------

  predicate Hyphen(c: QChar) {
    c == DASH || c == SPACE
  }

  /** Does rune r end a run of type t? */
  predicate EndsRun(digit: DigitTable, t: Type, r: QChar) {
    || digit(r) != (t == Numeric)
    || (r == SPACE && t == Numeric)
    || (r == DASH && t != PreRelease)
    || r == PLUS
  }

  /** Type of the section that starts at the head of s. */
  function HeadType(digit: DigitTable, s: QString): Type
    requires s != []
  {
    if Hyphen(s[0]) then (if |s| > 1 && !digit(s[1]) then PreRelease else Textual)
    else if digit(s[0]) then Numeric
    else Textual
  }

  /** Length of the run of type t at the head of s. */
  function RunLength(digit: DigitTable, t: Type, s: QString): (n: nat)
    ensures n <= |s|
    ensures forall i :: 0 <= i < n ==> !EndsRun(digit, t, s[i])
    ensures n < |s| ==> EndsRun(digit, t, s[n])
  {
    if s == [] || EndsRun(digit, t, s[0]) then 0 else 1 + RunLength(digit, t, s[1..])
  }

  /** Length of the section at the head of s: a leading hyphen belongs to it unconditionally. */
  function HeadLength(digit: DigitTable, s: QString): (n: nat)
    requires s != []
    ensures n <= |s|
  {
    if Hyphen(s[0]) then 1 + RunLength(digit, HeadType(digit, s), s[1..]) else RunLength(digit, HeadType(digit, s), s)
  }

  lemma HeadProgress(digit: DigitTable, s: QString)
    requires s != [] && s[0] != PLUS
    ensures HeadLength(digit, s) > 0
  {}

  /** The sections of s before zero stripping. */
  function RawSections(digit: DigitTable, s: QString): seq<Section> {
    if s == [] || s[0] == PLUS then []
    else
      HeadProgress(digit, s);
      var n := HeadLength(digit, s);
      [Section(HeadType(digit, s), s[..n])] + RawSections(digit, s[n..])
  }

  function StripZeros(v: QString): QString {
    if v != [] && v[0] == DIGIT_0 then StripZeros(v[1..]) else v
  }

  function Strip(sec: Section): Section {
    if sec.t == Numeric then sec.(value := StripZeros(sec.value)) else sec
  }

  function StripAll(raw: seq<Section>): (r: seq<Section>)
    ensures |r| == |raw|
    ensures forall i :: 0 <= i < |r| ==> r[i] == Strip(raw[i])
  {
    if raw == [] then [] else [Strip(raw[0])] + StripAll(raw[1..])
  }

  function Sections(digit: DigitTable, s: QString): seq<Section> {
    StripAll(RawSections(digit, s))
  }

  // ---------- Order ----------

  function CompareSection(a: Section, b: Section): Ordering {
    if a.t == Numeric && b.t == Numeric then
      if |a.value| != |b.value| then CompareInts(|a.value|, |b.value|) else CompareUnits(a.value, b.value)
    else if a.t == Null then (if b.t == PreRelease then Greater else Less)
    else if b.t == Null then (if a.t == PreRelease then Less else Greater)
    else CompareUnits(a.value, b.value)
  }

  function HeadOrNull(xs: seq<Section>): Section {
    if xs == [] then NULL_SECTION else xs[0]
  }

  function TailOrNone(xs: seq<Section>): seq<Section> {
    if xs == [] then [] else xs[1..]
  }

  /** Section by section, the shorter version padded with null sections. */
  function Compare(xs: seq<Section>, ys: seq<Section>): Ordering
    decreases |xs| + |ys|
  {
    if xs == [] && ys == [] then Equal
    else
      var cmp := CompareSection(HeadOrNull(xs), HeadOrNull(ys));
      if cmp != Equal then cmp else Compare(TailOrNone(xs), TailOrNone(ys))
  }

  function CompareStrings(digit: DigitTable, a: QString, b: QString): Ordering {
    Compare(Sections(digit, a), Sections(digit, b))
  }

  // ---------- The object ----------

  /** Textual order of two section values, scanned from the left. */
  method CompareRunes(a: QString, b: QString) returns (r: Ordering)
    ensures r == CompareUnits(a, b)
  {
    var minLen := if |a| <= |b| then |a| else |b|;
    var i := 0;
    while i < minLen
      invariant 0 <= i <= minLen
      invariant CompareUnits(a, b) == CompareUnits(a[i..], b[i..])
    {
      if a[i] != b[i] {
        return CompareInts(a[i], b[i]);
      }
      i := i + 1;
    }
    r := CompareInts(|a|, |b|);
  }

  class Version {
    const str: QString
    const digit: DigitTable
    var sections: seq<Section>

    constructor (str: QString, digit: DigitTable)
      requires IsDigitTable(digit)
      ensures this.str == str && this.digit == digit
      ensures sections == Sections(digit, str)
    {
      this.str, this.digit, this.sections := str, digit, [];
      new;
      Parse();
    }

    /** One round of the tokenizer's outer loop: reads the section that starts at `start`. */
    method NextSection(start: nat) returns (cur: Section, i: nat)
      requires IsDigitTable(digit) && start < |str| && str[start] != PLUS
      ensures start < i <= |str| && i - start == HeadLength(digit, str[start..])
      ensures cur == Section(HeadType(digit, str[start..]), str[start..i])
    {
      var t := Textual;
      i := start;
      var c := str[i];
      if Hyphen(c) {
        i := i + 1;
        if i < |str| && !digit(str[i]) {
          t := PreRelease;
        }
      } else if digit(c) {
        t := Numeric;
      }
      ghost var rest := str[start..];
      assert rest[0] == c && t == HeadType(digit, rest);
      ghost var run: nat := i;
      while i < |str| && !EndsRun(digit, t, str[i])
        invariant run <= i <= |str|
        invariant forall j :: run <= j < i ==> !EndsRun(digit, t, str[j])
      {
        i := i + 1;
      }
      RunLengthIs(digit, t, str, run, i);
      assert rest[run - start..] == str[run..];
      HeadProgress(digit, rest);
      cur := Section(t, str[start..i]);
    }

    method Parse()
      requires IsDigitTable(digit) && sections == []
      modifies this
      ensures sections == Sections(digit, str)
    {
      ghost var done: seq<Section> := [];
      var i := 0;
      while i < |str| && str[i] != PLUS
        invariant 0 <= i <= |str|
        invariant sections == StripAll(done)
        invariant RawSections(digit, str) == done + RawSections(digit, str[i..])
      {
        var cur, next := NextSection(i);
        ParseStep(digit, str, i, next, done, cur);
        done := done + [cur];
        if cur.t == Numeric {
          cur := cur.(value := StripZeros(cur.value));
        }
        sections := sections + [cur];
        i := next;
      }
      assert RawSections(digit, str[i..]) == [];
    }

    method CompareTo(other: Version) returns (r: Ordering)
      ensures r == Compare(sections, other.sections)
    {
      var size := if |sections| >= |other.sections| then |sections| else |other.sections|;
      var i := 0;
      while i < size
        invariant 0 <= i <= size
        invariant Compare(sections, other.sections) == Compare(Rest(sections, i), Rest(other.sections, i))
      {
        var sec1 := if i >= |sections| then NULL_SECTION else sections[i];
        var sec2 := if i >= |other.sections| then NULL_SECTION else other.sections[i];
        assert sec1 == HeadOrNull(Rest(sections, i)) && sec2 == HeadOrNull(Rest(other.sections, i));
        assert TailOrNone(Rest(sections, i)) == Rest(sections, i + 1);
        assert TailOrNone(Rest(other.sections, i)) == Rest(other.sections, i + 1);
        var cmp := CompareSection(sec1, sec2);
        if cmp != Equal {
          return cmp;
        }
        i := i + 1;
      }
      r := Equal;
    }
  }

  /** The run that starts at `from` ends at `end`, since nothing before `end` ends it and `end` does. */
  lemma {:induction false} RunLengthIs(digit: DigitTable, t: Type, s: QString, from: nat, end: nat)
    requires from <= end <= |s|
    requires forall j :: from <= j < end ==> !EndsRun(digit, t, s[j])
    requires end < |s| ==> EndsRun(digit, t, s[end])
    ensures RunLength(digit, t, s[from..]) == end - from
    decreases end - from
  {}

  lemma ParseStep(digit: DigitTable, str: QString, i: nat, next: nat, done: seq<Section>, cur: Section)
    requires i < next <= |str| && str[i] != PLUS
    requires next - i == HeadLength(digit, str[i..])
    requires cur == Section(HeadType(digit, str[i..]), str[i..next])
    ensures done + RawSections(digit, str[i..]) == (done + [cur]) + RawSections(digit, str[next..])
    ensures StripAll(done + [cur]) == StripAll(done) + [Strip(cur)]
  {
    RawSectionsUnfold(digit, str[i..]);
    assert str[i..][..next - i] == cur.value && str[i..][next - i..] == str[next..];
    AppendAssociative(done, [cur], RawSections(digit, str[next..]));
    StripAllSnoc(done, cur);
  }

  lemma RawSectionsUnfold(digit: DigitTable, s: QString)
    requires s != [] && s[0] != PLUS
    ensures var n := HeadLength(digit, s);
            RawSections(digit, s) == [Section(HeadType(digit, s), s[..n])] + RawSections(digit, s[n..])
  {}

  function Rest(xs: seq<Section>, i: nat): seq<Section> {
    if i <= |xs| then xs[i..] else []
  }

  lemma {:induction false} StripAllSnoc(xs: seq<Section>, x: Section)
    ensures StripAll(xs + [x]) == StripAll(xs) + [Strip(x)]
  {}
}
