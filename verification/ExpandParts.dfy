/**
 The expansion of variables, part by part: plain characters, references that are replaced or kept, and possibly an
 open reference at the end.
 */
module ExpandParts {
  import opened Text
  import opened Variables
  import Commandline

  type Table = Commandline.CharTable

  ghost predicate IsWordTable(word: Table) {
    forall c: QChar :: c < 128 ==>
      (word(c) <==> 0x30 <= c <= 0x39 || 0x41 <= c <= 0x5A || 0x61 <= c <= 0x7A)
  }

  // ---------- Parts ----------

  /** How a text ends: between references, after "$" or inside "$name", or inside "${name". */
  datatype Ending = AtRest | InReference | InBrace(name: QString)

  datatype Part = Part(size: nat, text: QString, ending: Ending)

  function Or(value: QString, text: QString): QString {
    if value != [] then value else text
  }

  function Braced(name: QString): QString {
    [DOLLAR, OPEN_BRACE] + name + [CLOSE_BRACE]
  }

  /** The part that begins with "${". */
  function BracePart(dict: Dictionary, s: QString): (p: Part)
    requires |s| > 1
    ensures 1 < p.size <= |s| && p.text != [] && (p.ending != AtRest ==> p.size == |s|)
  {
    var n := BraceLength(s[2..]);
    if n == |s| - 2 then Part(|s|, s, InBrace(s[2..]))
    else Part(n + 3, Or(Value(dict, s[2..n + 2]), s[..n + 3]), AtRest)
  }

  /** The part that begins with "$" and a character of a name. */
  function NamePart(word: Table, dict: Dictionary, s: QString): (p: Part)
    requires |s| > 1
    ensures 0 < p.size <= |s| && p.text != [] && (p.ending != AtRest ==> p.size == |s|)
  {
    var n := NameLength(word, s[1..]);
    var value := Value(dict, s[1..n + 1]);
    if n == |s| - 1 then Part(|s|, Or(value, s), InReference)
    else if value != [] then Part(n + 1, value, AtRest)
    else Part(n + 2, s[..n + 2], AtRest)
  }

  /** The first part of a text: how much of it is read, what it becomes, and whether it is still open. */
  function Head(word: Table, dict: Dictionary, s: QString): (p: Part)
    requires s != []
    ensures 0 < p.size <= |s| && p.text != [] && (p.ending != AtRest ==> p.size == |s|)
  {
    if s[0] != DOLLAR then Part(1, s[..1], AtRest)
    else if |s| == 1 then Part(1, s, InReference)
    else if s[1] == OPEN_BRACE then BracePart(dict, s)
    else if NameChar(word, s[1]) then NamePart(word, dict, s)
    else Part(2, s[..2], AtRest)
  }

  lemma ExpandByParts(word: Table, dict: Dictionary, s: QString)
    requires s != []
    ensures var p := Head(word, dict, s); Expand(word, dict, s) == p.text + Expand(word, dict, s[p.size..])
  {
    if s[0] == DOLLAR && |s| > 1 {
      if s[1] == OPEN_BRACE {
        BraceByParts(word, dict, s);
      } else if NameChar(word, s[1]) {
        NameByParts(word, dict, s);
      } else {
        assert s[1..][1..] == s[2..] && [DOLLAR, s[1]] == s[..2];
      }
    }
  }

  lemma BraceByParts(word: Table, dict: Dictionary, s: QString)
    requires |s| > 1 && s[0] == DOLLAR && s[1] == OPEN_BRACE
    ensures var p := BracePart(dict, s); Expand(word, dict, s) == p.text + Expand(word, dict, s[p.size..])
  {
    var rest := s[1..];
    var n := BraceLength(rest[1..]);
    assert rest[1..] == s[2..] && s == [DOLLAR] + rest;
    if n < |rest| - 1 {
      assert rest[1..n + 1] == s[2..n + 2] && rest[n + 2..] == s[n + 3..];
      assert [DOLLAR] + rest[..n + 2] == s[..n + 3];
    }
  }

  lemma NameByParts(word: Table, dict: Dictionary, s: QString)
    requires |s| > 1 && s[0] == DOLLAR && s[1] != OPEN_BRACE && NameChar(word, s[1])
    ensures var p := NamePart(word, dict, s); Expand(word, dict, s) == p.text + Expand(word, dict, s[p.size..])
  {
    var rest := s[1..];
    var n := NameLength(word, rest);
    assert s == [DOLLAR] + rest;
    NameSlicesOf(s, n);
  }

  lemma NameSlicesOf(s: QString, n: nat)
    requires n < |s| && s[0] == DOLLAR
    ensures s[1..][..n] == s[1..n + 1] && s[1..][n..] == s[n + 1..] && [DOLLAR] + s[1..] == s
    ensures n + 1 < |s| ==> s[1..][n + 1..] == s[n + 2..] && [DOLLAR] + s[1..][..n + 1] == s[..n + 2]
  {}

  lemma BracePartStable(dict: Dictionary, s: QString, t: QString)
    requires |s| > 1 && BracePart(dict, s).ending == AtRest
    ensures BracePart(dict, s + t) == BracePart(dict, s)
  {
    var n := BraceLength(s[2..]);
    BraceLengthMeans(s[2..]);
    assert (s + t)[2..] == s[2..] + t;
    BraceLengthIs(s[2..] + t, n);
    assert (s + t)[2..n + 2] == s[2..n + 2] && (s + t)[..n + 3] == s[..n + 3];
  }

  lemma NamePartStable(word: Table, dict: Dictionary, s: QString, t: QString)
    requires |s| > 1 && NamePart(word, dict, s).ending == AtRest
    ensures NamePart(word, dict, s + t) == NamePart(word, dict, s)
  {
    var n := NameLength(word, s[1..]);
    NameLengthMeans(word, s[1..]);
    assert (s + t)[1..] == s[1..] + t;
    NameLengthIs(word, s[1..] + t, n);
    assert (s + t)[1..n + 1] == s[1..n + 1] && (s + t)[..n + 2] == s[..n + 2];
  }

  /** More text after a closed part does not change it. */
  lemma HeadStable(word: Table, dict: Dictionary, s: QString, t: QString)
    requires s != [] && Head(word, dict, s).ending == AtRest
    ensures Head(word, dict, s + t) == Head(word, dict, s)
  {
    if s[0] == DOLLAR && |s| > 1 {
      if s[1] == OPEN_BRACE {
        BracePartStable(dict, s, t);
      } else if NameChar(word, s[1]) {
        NamePartStable(word, dict, s, t);
      } else {
        assert (s + t)[..2] == s[..2];
      }
    }
  }

  predicate AllName(word: Table, m: QString) {
    m != [] && m[0] != OPEN_BRACE && forall j :: 0 <= j < |m| ==> NameChar(word, m[j])
  }

  /** Can the variable be named in braces, and has it a value? */
  predicate Nameable(dict: Dictionary, m: QString) {
    m in dict && dict[m] != [] && CLOSE_BRACE !in m
  }

  /** Does replacing the variable's reference in braces change the text? */
  predicate Live(dict: Dictionary, m: QString) {
    Nameable(dict, m) && dict[m] != Braced(m)
  }

  lemma BraceReplaces(dict: Dictionary, s: QString) returns (m: QString)
    requires |s| > 1 && s[0] == DOLLAR && s[1] == OPEN_BRACE
    requires var p := BracePart(dict, s); p.ending == AtRest && p.text != s[..p.size]
    ensures var p := BracePart(dict, s); Nameable(dict, m) && p.text == dict[m] && s[..p.size] == Braced(m)
  {
    var n := BraceLength(s[2..]);
    BraceLengthMeans(s[2..]);
    m := s[2..n + 2];
    assert s[2..][n] == s[n + 2] == CLOSE_BRACE;
    assert s[..n + 3] == Braced(m);
  }

  lemma NameReplaces(word: Table, dict: Dictionary, s: QString) returns (m: QString)
    requires IsWordTable(word) && |s| > 1 && s[0] == DOLLAR && s[1] != OPEN_BRACE && NameChar(word, s[1])
    requires var p := NamePart(word, dict, s); p.ending == AtRest && p.text != s[..p.size]
    ensures var p := NamePart(word, dict, s);
            && Nameable(dict, m) && p.text == dict[m]
            && s[..p.size] == [DOLLAR] + m && AllName(word, m) && p.size < |s| && !NameChar(word, s[p.size])
  {
    var n := NameLength(word, s[1..]);
    NameLengthMeans(word, s[1..]);
    m := s[1..n + 1];
    assert forall j :: 0 <= j < n ==> m[j] == s[1..][j];
    assert s[..n + 1] == [DOLLAR] + m;
    assert s[n + 1] == s[1..][n];
  }

  /** A closed part that changes is a reference to a variable with another text as its value. */
  lemma HeadReplaces(word: Table, dict: Dictionary, s: QString) returns (m: QString)
    requires IsWordTable(word) && s != []
    requires var p := Head(word, dict, s); p.ending == AtRest && p.text != s[..p.size]
    ensures var p := Head(word, dict, s); Nameable(dict, m) && p.text == dict[m] && IsReference(word, s, p.size, m)
  {
    if s[1] == OPEN_BRACE {
      m := BraceReplaces(dict, s);
    } else {
      m := NameReplaces(word, dict, s);
    }
  }

  /** The first n characters of s are a reference to m: in braces, or bare and followed by a character of no name. */
  ghost predicate IsReference(word: Table, s: QString, n: nat, m: QString) {
    && n <= |s|
    && (|| s[..n] == Braced(m)
        || (s[..n] == [DOLLAR] + m && AllName(word, m) && n < |s| && !NameChar(word, s[n])))
  }

  lemma NameOpen(word: Table, dict: Dictionary, s: QString)
    requires |s| > 1 && s[1] != OPEN_BRACE && NameChar(word, s[1]) && NamePart(word, dict, s).ending != AtRest
    ensures AllName(word, s[1..])
    ensures NamePart(word, dict, s) == Part(|s|, Or(Value(dict, s[1..]), s), InReference)
  {
    var m := s[1..];
    NameLengthMeans(word, m);
    assert s[1..NameLength(word, m) + 1] == m;
  }

  lemma BraceOpen(dict: Dictionary, s: QString)
    requires |s| > 1 && s[0] == DOLLAR && s[1] == OPEN_BRACE && BracePart(dict, s).ending != AtRest
    ensures CLOSE_BRACE !in s[2..] && s == [DOLLAR, OPEN_BRACE] + s[2..]
    ensures BracePart(dict, s) == Part(|s|, s, InBrace(s[2..]))
  {
    BraceLengthMeans(s[2..]);
  }

  /** An open part: a brace without its end, a lone dollar sign, or a bare name. */
  lemma OpenHead(word: Table, dict: Dictionary, s: QString)
    requires s != [] && Head(word, dict, s).ending != AtRest
    ensures s[0] == DOLLAR
    ensures var e := Head(word, dict, s).ending;
            e.InBrace? ==> CLOSE_BRACE !in e.name && s == [DOLLAR, OPEN_BRACE] + e.name && Head(word, dict, s).text == s
    ensures Head(word, dict, s).ending == InReference ==>
              || (s == [DOLLAR] && Head(word, dict, s).text == s)
              || (AllName(word, s[1..]) && Head(word, dict, s).text == Or(Value(dict, s[1..]), s))
  {
    if |s| > 1 {
      if s[1] == OPEN_BRACE {
        BraceOpen(dict, s);
      } else {
        NameOpen(word, dict, s);
      }
    }
  }

  lemma BraceKept(dict: Dictionary, s: QString)
    requires |s| > 1
    requires var p := BracePart(dict, s); p.ending == AtRest && p.text == s[..p.size]
    ensures var p := BracePart(dict, s); 1 < |p.text| && BracePart(dict, p.text) == p
  {
    var n := BraceLength(s[2..]);
    var t := s[..n + 3];
    BraceLengthMeans(s[2..]);
    assert forall j :: 0 <= j <= n ==> t[2..][j] == s[2..][j];
    BraceLengthIs(t[2..], n);
    assert t[2..n + 2] == s[2..n + 2];
  }

  lemma NameKept(word: Table, dict: Dictionary, s: QString)
    requires |s| > 1
    requires var p := NamePart(word, dict, s); p.ending == AtRest && p.text == s[..p.size]
    requires Value(dict, s[1..NameLength(word, s[1..]) + 1]) == []
    ensures var p := NamePart(word, dict, s); 1 < |p.text| && NamePart(word, dict, p.text) == p
  {
    var n := NameLength(word, s[1..]);
    var t := s[..n + 2];
    NameLengthMeans(word, s[1..]);
    assert forall j :: 0 <= j <= n ==> t[1..][j] == s[1..][j];
    NameLengthIs(word, t[1..], n);
    assert t[1..n + 1] == s[1..n + 1];
  }

  ghost predicate IsValue(dict: Dictionary, v: QString) {
    exists m :: Nameable(dict, m) && dict[m] == v
  }

  /** A closed part that is kept reads the same on its own, unless it is a bare name standing for its own reference. */
  lemma KeptAlone(word: Table, dict: Dictionary, s: QString)
    requires IsWordTable(word) && s != []
    requires var p := Head(word, dict, s); p.ending == AtRest && p.text == s[..p.size]
    ensures var p := Head(word, dict, s); Head(word, dict, p.text) == p || IsValue(dict, p.text)
  {
    if s[0] == DOLLAR && |s| > 1 {
      if s[1] == OPEN_BRACE {
        BraceKept(dict, s);
      } else if NameChar(word, s[1]) {
        var m := s[1..NameLength(word, s[1..]) + 1];
        if Value(dict, m) == [] {
          NameKept(word, dict, s);
        } else {
          NameLengthMeans(word, s[1..]);
          assert forall j :: 0 <= j < |m| ==> m[j] == s[1..][j] != CLOSE_BRACE;
          assert Nameable(dict, m);
        }
      }
    }
  }

  // ---------- Whole texts ----------

  function EndingOf(word: Table, dict: Dictionary, s: QString): Ending {
    if s == [] then AtRest
    else
      var p := Head(word, dict, s);
      if p.ending != AtRest then p.ending else EndingOf(word, dict, s[p.size..])
  }

  /** Does every closed part stand for itself? */
  predicate Stable(word: Table, dict: Dictionary, s: QString) {
    s == [] ||
    var p := Head(word, dict, s);
    p.ending == AtRest ==> p.text == s[..p.size] && Stable(word, dict, s[p.size..])
  }

  /** What the closed parts become. */
  function Done(word: Table, dict: Dictionary, s: QString): QString {
    if s == [] then []
    else
      var p := Head(word, dict, s);
      if p.ending != AtRest then [] else p.text + Done(word, dict, s[p.size..])
  }

  /** The open part at the end. */
  function OpenTail(word: Table, dict: Dictionary, s: QString): QString {
    if s == [] then []
    else
      var p := Head(word, dict, s);
      if p.ending != AtRest then s else OpenTail(word, dict, s[p.size..])
  }

  lemma {:induction false} OpenTailMeans(word: Table, dict: Dictionary, s: QString)
    ensures var q := OpenTail(word, dict, s);
            && (q == [] <==> EndingOf(word, dict, s) == AtRest)
            && (q != [] ==> Head(word, dict, q).ending == EndingOf(word, dict, s))
            && |q| <= |s| && s[|s| - |q|..] == q
    decreases |s|
  {
    if s == [] {
    } else {
      var p := Head(word, dict, s);
      if p.ending == AtRest {
        OpenTailMeans(word, dict, s[p.size..]);
      }
    }
  }

  /** Closed parts are expanded on their own; the open one goes on with the text that follows. */
  lemma {:induction false} Splits(word: Table, dict: Dictionary, s: QString, t: QString)
    ensures Expand(word, dict, s + t) == Done(word, dict, s) + Expand(word, dict, OpenTail(word, dict, s) + t)
    decreases |s|
  {
    if s == [] {
      assert s + t == t && [] + t == t;
    } else {
      var p := Head(word, dict, s);
      if p.ending == AtRest {
        HeadStable(word, dict, s, t);
        ExpandByParts(word, dict, s + t);
        DropAppend(s, t, p.size);
        Splits(word, dict, s[p.size..], t);
        DoneUnfold(word, dict, s);
        AppendAssociative(p.text, Done(word, dict, s[p.size..]), Expand(word, dict, OpenTail(word, dict, s) + t));
      } else {
        assert Done(word, dict, s) == [] && OpenTail(word, dict, s) == s;
      }
    }
  }

  lemma DoneUnfold(word: Table, dict: Dictionary, s: QString)
    requires s != [] && Head(word, dict, s).ending == AtRest
    ensures var p := Head(word, dict, s);
            && Done(word, dict, s) == p.text + Done(word, dict, s[p.size..])
            && OpenTail(word, dict, s) == OpenTail(word, dict, s[p.size..])
  {}

  lemma SplitsAtRest(word: Table, dict: Dictionary, s: QString, t: QString)
    requires EndingOf(word, dict, s) == AtRest
    ensures Expand(word, dict, s + t) == Expand(word, dict, s) + Expand(word, dict, t)
    ensures Expand(word, dict, s) == Done(word, dict, s)
  {
    OpenTailMeans(word, dict, s);
    Splits(word, dict, s, t);
    assert [] + t == t;
    AloneAtRest(word, dict, s);
  }

  lemma AloneAtRest(word: Table, dict: Dictionary, s: QString)
    requires OpenTail(word, dict, s) == []
    ensures Expand(word, dict, s) == Done(word, dict, s)
  {
    Splits(word, dict, s, []);
    assert s + [] == s;
    assert Expand(word, dict, []) == [];
  }

  lemma {:induction false} StableDone(word: Table, dict: Dictionary, s: QString)
    requires Stable(word, dict, s)
    ensures s == Done(word, dict, s) + OpenTail(word, dict, s)
    decreases |s|
  {
    if s == [] {
    } else {
      var p := Head(word, dict, s);
      if p.ending == AtRest {
        StableDone(word, dict, s[p.size..]);
        InThree(s, p.size, Done(word, dict, s[p.size..]), OpenTail(word, dict, s[p.size..]));
      }
    }
  }

  lemma InThree(s: QString, n: nat, a: QString, b: QString)
    requires n <= |s| && s[n..] == a + b
    ensures s == s[..n] + a + b
  {}

  lemma {:induction false} StablePrefix(word: Table, dict: Dictionary, s: QString, t: QString)
    requires EndingOf(word, dict, s) == AtRest && Stable(word, dict, s + t)
    ensures Stable(word, dict, s)
    decreases |s|
  {
    if s == [] {
    } else {
      var n := Head(word, dict, s).size;
      HeadStable(word, dict, s, t);
      StableUnfold(word, dict, s);
      StableUnfold(word, dict, s + t);
      DropAppend(s, t, n);
      StablePrefix(word, dict, s[n..], t);
    }
  }

  lemma StableUnfold(word: Table, dict: Dictionary, s: QString)
    requires s != [] && Head(word, dict, s).ending == AtRest
    ensures var p := Head(word, dict, s);
            Stable(word, dict, s) <==> p.text == s[..p.size] && Stable(word, dict, s[p.size..])
  {}

  lemma DropAppend(s: QString, t: QString, n: nat)
    requires n <= |s|
    ensures (s + t)[n..] == s[n..] + t && (s + t)[..n] == s[..n]
  {}

  /** A stable text that ends at rest is expanded to itself. */
  lemma StableStays(word: Table, dict: Dictionary, s: QString)
    requires Stable(word, dict, s) && EndingOf(word, dict, s) == AtRest
    ensures Expand(word, dict, s) == s
  {
    StableDone(word, dict, s);
    OpenTailMeans(word, dict, s);
    SplitsAtRest(word, dict, s, []);
  }

  /** After a closing brace no reference is open. */
  lemma {:induction false} ClosedAtRest(word: Table, dict: Dictionary, s: QString)
    requires IsWordTable(word) && s != [] && s[|s| - 1] == CLOSE_BRACE
    ensures EndingOf(word, dict, s) == AtRest
    decreases |s|
  {
    OpenLast(word, dict, s);
    var p := Head(word, dict, s);
    if p.size < |s| {
      ClosedAtRest(word, dict, s[p.size..]);
    }
  }

  lemma OpenLast(word: Table, dict: Dictionary, s: QString)
    requires IsWordTable(word) && s != []
    ensures Head(word, dict, s).ending != AtRest ==> s[|s| - 1] != CLOSE_BRACE
  {
    var e := Head(word, dict, s).ending;
    if e != AtRest {
      OpenHead(word, dict, s);
      assert e.InBrace? ==> forall j :: 2 <= j < |s| ==> s[j] == e.name[j - 2];
      assert e == InReference && |s| > 1 ==> s[|s| - 1] == s[1..][|s| - 2];
    }
  }

  lemma BracedExpands(word: Table, dict: Dictionary, m: QString, t: QString)
    requires CLOSE_BRACE !in m
    ensures Expand(word, dict, Braced(m) + t) == Or(Value(dict, m), Braced(m)) + Expand(word, dict, t)
  {
    var s, n := Braced(m) + t, |m|;
    BraceLengthIs(s[2..], n);
    BracedSlices(m, t);
    ExpandByParts(word, dict, s);
  }

  lemma BracedSlices(m: QString, t: QString)
    ensures var s, n := Braced(m) + t, |m|; s[2..n + 2] == m && s[..n + 3] == Braced(m) && s[n + 3..] == t
  {}

  lemma OpenBraceStays(word: Table, dict: Dictionary, x: QString)
    requires CLOSE_BRACE !in x
    ensures Expand(word, dict, [DOLLAR, OPEN_BRACE] + x) == [DOLLAR, OPEN_BRACE] + x
  {
    var s := [DOLLAR, OPEN_BRACE] + x;
    assert s[2..] == x;
    BraceLengthIs(x, |x|);
    ExpandByParts(word, dict, s);
  }

  lemma BareExpands(word: Table, dict: Dictionary, m: QString, t: QString)
    requires AllName(word, m) && t != [] && !NameChar(word, t[0])
    ensures Expand(word, dict, [DOLLAR] + m + t) ==
            if Value(dict, m) != [] then Value(dict, m) + Expand(word, dict, t)
            else [DOLLAR] + m + t[..1] + Expand(word, dict, t[1..])
  {
    var s, n := [DOLLAR] + m + t, |m|;
    assert s[1..] == m + t;
    NameLengthIs(word, s[1..], n);
    assert s[1..n + 1] == m && s[n + 1..] == t && s[n + 2..] == t[1..] && s[..n + 2] == [DOLLAR] + m + t[..1];
    ExpandByParts(word, dict, s);
  }
}
