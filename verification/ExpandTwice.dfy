/**
 When expanding variables a second time changes nothing: `Settled` is a condition on the dictionary alone, and
 expansion is idempotent on every input exactly when it holds.
 */
module ExpandTwice {
  import opened Text
  import opened Variables
  import opened ExpandParts

  /** After an open "${x", is there a variable whose name goes on from x in a text that expansion leaves alone? */
  ghost predicate Completes(word: Table, dict: Dictionary, x: QString, m: QString) {
    && Live(dict, m) && x <= m
    && Expand(word, dict, m[|x|..] + [CLOSE_BRACE]) == m[|x|..] + [CLOSE_BRACE]
  }

  /**
   A value that expansion leaves alone in front of any expanded text: its references stand for themselves, it does not
   end in a bare reference, and a reference in braces that it leaves open is one that no expanded text completes.
   */
  ghost predicate SettledValue(word: Table, dict: Dictionary, v: QString) {
    && Stable(word, dict, v)
    && EndingOf(word, dict, v) != InReference
    && (EndingOf(word, dict, v).InBrace? ==>
          forall m :: m in dict ==> !Completes(word, dict, EndingOf(word, dict, v).name, m))
  }

  ghost predicate Settled(word: Table, dict: Dictionary) {
    forall n :: Nameable(dict, n) ==> SettledValue(word, dict, dict[n])
  }

  ghost predicate Fixed(word: Table, dict: Dictionary, s: QString) {
    Expand(word, dict, s) == s
  }

  ghost predicate TwiceIsOnce(word: Table, dict: Dictionary) {
    forall s :: Fixed(word, dict, Expand(word, dict, s))
  }

  // ---------- A settled dictionary is enough ----------

  /** Whatever an expansion puts into its result is a settled value. */
  lemma TextSettled(word: Table, dict: Dictionary, t: QString)
    requires IsWordTable(word) && Settled(word, dict) && t != []
    requires var p := Head(word, dict, t); p.ending == AtRest || p.text != t
    ensures SettledValue(word, dict, Head(word, dict, t).text)
  {
    var p := Head(word, dict, t);
    if p.ending != AtRest {
      OpenHead(word, dict, t);
      var m := t[1..];
      assert forall j :: 0 <= j < |m| ==> m[j] != CLOSE_BRACE;
      assert Nameable(dict, m);
    } else if p.text != t[..p.size] {
      var m := HeadReplaces(word, dict, t);
    } else {
      KeptAlone(word, dict, t);
      if Head(word, dict, p.text) == p {
        AloneSettled(word, dict, p.text);
      }
    }
  }

  lemma AloneSettled(word: Table, dict: Dictionary, s: QString)
    requires s != [] && Head(word, dict, s) == Part(|s|, s, AtRest)
    ensures SettledValue(word, dict, s)
  {
    assert s[..|s|] == s && s[|s|..] == [];
  }

  /** Expanded text without a closing brace at its head, or with one: what comes up to it is fixed on its own. */
  lemma {:induction false} FirstBrace(word: Table, dict: Dictionary, t: QString, y: QString, u: QString)
    requires IsWordTable(word) && Settled(word, dict)
    requires Expand(word, dict, t) == y + [CLOSE_BRACE] + u && CLOSE_BRACE !in y
    ensures Fixed(word, dict, y + [CLOSE_BRACE])
    decreases |t|
  {
    assert t != [];
    var p := Head(word, dict, t);
    var r := t[p.size..];
    ExpandByParts(word, dict, t);
    if p.ending != AtRest {
      assert r == [] && p.text + [] == p.text;
      assert p.text[|y|] == CLOSE_BRACE;
      OpenWithoutBrace(word, dict, t);
    }
    TextSettled(word, dict, t);
    if CLOSE_BRACE in p.text {
      FirstInText(p.text, Expand(word, dict, r), y, u);
      BraceInside(word, dict, p.text, y);
    } else {
      BraceAfter(p.text, Expand(word, dict, r), y, u);
      var y' := y[|p.text|..];
      FirstBrace(word, dict, r, y', u);
      BraceFollows(word, dict, p.text, y');
      assert y == p.text + y' && y + [CLOSE_BRACE] == p.text + (y' + [CLOSE_BRACE]);
    }
  }

  lemma OpenWithoutBrace(word: Table, dict: Dictionary, t: QString)
    requires IsWordTable(word) && t != [] && Head(word, dict, t).ending != AtRest
    requires CLOSE_BRACE in Head(word, dict, t).text
    ensures Head(word, dict, t).text != t
  {
    OpenHead(word, dict, t);
    assert forall j :: 1 <= j < |t| ==> t[j] == t[1..][j - 1];
    assert |t| >= 2 ==> t[2..] == t[1..][1..];
  }

  lemma FirstInText(text: QString, rest: QString, y: QString, u: QString)
    requires text + rest == y + [CLOSE_BRACE] + u && CLOSE_BRACE !in y && CLOSE_BRACE in text
    ensures |y| < |text| && text[..|y| + 1] == y + [CLOSE_BRACE]
  {
    var i :| 0 <= i < |text| && text[i] == CLOSE_BRACE;
    assert (text + rest)[i] == CLOSE_BRACE;
    assert i >= |y|;
    assert forall j :: 0 <= j <= |y| ==> text[j] == (text + rest)[j];
  }

  lemma BraceAfter(text: QString, rest: QString, y: QString, u: QString)
    requires text + rest == y + [CLOSE_BRACE] + u && CLOSE_BRACE !in text
    ensures |text| <= |y| && y == text + y[|text|..] && rest == y[|text|..] + [CLOSE_BRACE] + u
  {
    assert (text + rest)[|y|] == CLOSE_BRACE;
    assert forall j :: 0 <= j < |text| ==> y[j] == (text + rest)[j] == text[j];
    assert rest == (text + rest)[|text|..] == (y + [CLOSE_BRACE] + u)[|text|..];
  }

  /** Up to a closing brace inside it, a stable text is fixed. */
  lemma BraceInside(word: Table, dict: Dictionary, text: QString, y: QString)
    requires IsWordTable(word) && Stable(word, dict, text)
    requires |y| < |text| && text[..|y| + 1] == y + [CLOSE_BRACE]
    ensures Fixed(word, dict, y + [CLOSE_BRACE])
  {
    var s := y + [CLOSE_BRACE];
    assert text == s + text[|s|..];
    ClosedAtRest(word, dict, s);
    StablePrefix(word, dict, s, text[|s|..]);
    StableStays(word, dict, s);
  }

  /** A settled value without a closing brace stays fixed when text that is fixed up to one follows. */
  lemma BraceFollows(word: Table, dict: Dictionary, v: QString, y: QString)
    requires IsWordTable(word) && SettledValue(word, dict, v) && CLOSE_BRACE !in y
    requires Fixed(word, dict, y + [CLOSE_BRACE])
    ensures Fixed(word, dict, v + (y + [CLOSE_BRACE]))
  {
    assert y + [CLOSE_BRACE] + [] == y + [CLOSE_BRACE];
    SettledFollow(word, dict, v, y, []);
  }

  /** An open reference in braces. */
  ghost predicate OpenBraced(q: QString, x: QString) {
    CLOSE_BRACE !in x && q == [DOLLAR, OPEN_BRACE] + x
  }

  /** The closed parts of a settled value stay; a reference in braces that it leaves open goes on with what follows. */
  lemma SettledSplits(word: Table, dict: Dictionary, v: QString, w: QString) returns (a: QString, q: QString)
    requires SettledValue(word, dict, v)
    ensures v == a + q && Expand(word, dict, v + w) == a + Expand(word, dict, q + w)
    ensures var e := EndingOf(word, dict, v); if e == AtRest then q == [] else e.InBrace? && OpenBraced(q, e.name)
  {
    a, q := Done(word, dict, v), OpenTail(word, dict, v);
    Splits(word, dict, v, w);
    StableDone(word, dict, v);
    OpenTailMeans(word, dict, v);
    if q != [] {
      OpenHead(word, dict, q);
    }
  }

  lemma InFront(word: Table, dict: Dictionary, v: QString, a: QString, q: QString, w: QString)
    requires v == a + q && Expand(word, dict, v + w) == a + Expand(word, dict, q + w) && Fixed(word, dict, q + w)
    ensures Fixed(word, dict, v + w)
  {
    AppendAssociative(a, q, w);
  }

  lemma NothingInFront(word: Table, dict: Dictionary, w: QString)
    ensures Fixed(word, dict, w) ==> Fixed(word, dict, [] + w)
  {
    assert [] + w == w;
  }

  /** A completed reference that stands for itself. */
  lemma ReferenceStays(word: Table, dict: Dictionary, m: QString, u: QString)
    requires CLOSE_BRACE !in m && !Live(dict, m) && Fixed(word, dict, u)
    ensures Fixed(word, dict, Braced(m) + u)
  {
    BracedExpands(word, dict, m, u);
  }

  lemma Completed(q: QString, x: QString, y: QString, u: QString)
    requires OpenBraced(q, x)
    ensures q + (y + [CLOSE_BRACE] + u) == Braced(x + y) + u
  {}

  /** A settled value is left alone in front of text that begins with a fixed text up to a closing brace. */
  lemma SettledFollow(word: Table, dict: Dictionary, v: QString, y: QString, u: QString)
    requires IsWordTable(word) && SettledValue(word, dict, v) && CLOSE_BRACE !in y
    requires Fixed(word, dict, y + [CLOSE_BRACE]) && Fixed(word, dict, y + [CLOSE_BRACE] + u)
    ensures Fixed(word, dict, v + (y + [CLOSE_BRACE] + u))
  {
    var w := y + [CLOSE_BRACE] + u;
    var a, q := SettledSplits(word, dict, v, w);
    if q == [] {
      NothingInFront(word, dict, w);
    } else {
      var x := EndingOf(word, dict, v).name;
      RestFixed(word, dict, y, u);
      NotCompleted(word, dict, x, y);
      ReferenceStays(word, dict, x + y, u);
      Completed(q, x, y, u);
    }
    InFront(word, dict, v, a, q, w);
  }

  lemma RestFixed(word: Table, dict: Dictionary, y: QString, u: QString)
    requires IsWordTable(word)
    requires Fixed(word, dict, y + [CLOSE_BRACE]) && Fixed(word, dict, y + [CLOSE_BRACE] + u)
    ensures Fixed(word, dict, u)
  {
    ClosedAtRest(word, dict, y + [CLOSE_BRACE]);
    SplitsAtRest(word, dict, y + [CLOSE_BRACE], u);
    Cancel(y + [CLOSE_BRACE], Expand(word, dict, u), u);
  }

  lemma Cancel(p: QString, a: QString, b: QString)
    ensures p + a == p + b ==> a == b
    ensures a + p == b + p ==> a == b
  {
    assert a == (p + a)[|p|..] == (a + p)[..|a|] && b == (p + b)[|p|..] == (b + p)[..|b|];
  }

  lemma NotCompleted(word: Table, dict: Dictionary, x: QString, y: QString)
    requires forall m :: m in dict ==> !Completes(word, dict, x, m)
    requires Fixed(word, dict, y + [CLOSE_BRACE])
    ensures !Live(dict, x + y)
  {
    assert (x + y)[|x|..] == y;
  }

  lemma BraceSplits(u: QString) returns (n: nat)
    requires CLOSE_BRACE in u
    ensures n < |u| && CLOSE_BRACE !in u[..n] && u == u[..n] + [CLOSE_BRACE] + u[n + 1..]
  {
    n := BraceLength(u);
    BraceLengthMeans(u);
    var j :| 0 <= j < |u| && u[j] == CLOSE_BRACE;
    assert n <= j;
  }

  /** A settled value is left alone in front of any text that expansion leaves alone. */
  lemma SettledInFront(word: Table, dict: Dictionary, v: QString, t: QString)
    requires IsWordTable(word) && Settled(word, dict) && SettledValue(word, dict, v)
    requires Fixed(word, dict, Expand(word, dict, t))
    ensures Fixed(word, dict, v + Expand(word, dict, t))
  {
    var u := Expand(word, dict, t);
    if CLOSE_BRACE in u {
      var n := BraceSplits(u);
      FirstBrace(word, dict, t, u[..n], u[n + 1..]);
      SettledFollow(word, dict, v, u[..n], u[n + 1..]);
    } else {
      SettledUnclosed(word, dict, v, u);
    }
  }

  lemma SettledUnclosed(word: Table, dict: Dictionary, v: QString, u: QString)
    requires SettledValue(word, dict, v) && Fixed(word, dict, u) && CLOSE_BRACE !in u
    ensures Fixed(word, dict, v + u)
  {
    var a, q := SettledSplits(word, dict, v, u);
    if q == [] {
      NothingInFront(word, dict, u);
    } else {
      StillOpen(word, dict, q, EndingOf(word, dict, v).name, u);
    }
    InFront(word, dict, v, a, q, u);
  }

  lemma StillOpen(word: Table, dict: Dictionary, q: QString, x: QString, u: QString)
    requires OpenBraced(q, x) && CLOSE_BRACE !in u
    ensures Fixed(word, dict, q + u)
  {
    OpenBraceStays(word, dict, x + u);
    assert q + u == [DOLLAR, OPEN_BRACE] + (x + u);
  }

  lemma {:induction false} SettledTwice(word: Table, dict: Dictionary, t: QString)
    requires IsWordTable(word) && Settled(word, dict)
    ensures Fixed(word, dict, Expand(word, dict, t))
    decreases |t|
  {
    if t == [] {
    } else {
      var p := Head(word, dict, t);
      var r := t[p.size..];
      ExpandByParts(word, dict, t);
      SettledTwice(word, dict, r);
      if p.ending == AtRest || p.text != t {
        TextSettled(word, dict, t);
        SettledInFront(word, dict, p.text, r);
      } else {
        assert Expand(word, dict, r) == [] && p.text + [] == t;
      }
    }
  }

  // ---------- It is needed, too ----------

  /** A value followed by fixed text is fixed. */
  lemma ValueFollowed(word: Table, dict: Dictionary, n: QString, u: QString)
    requires TwiceIsOnce(word, dict) && Nameable(dict, n) && Fixed(word, dict, u)
    ensures Fixed(word, dict, dict[n] + u)
  {
    BracedExpands(word, dict, n, u);
    assert Fixed(word, dict, Expand(word, dict, Braced(n) + u));
  }

  lemma ValueFixed(word: Table, dict: Dictionary, n: QString)
    requires TwiceIsOnce(word, dict) && Nameable(dict, n)
    ensures Fixed(word, dict, dict[n])
  {
    ValueFollowed(word, dict, n, []);
    assert dict[n] + [] == dict[n];
  }

  /** The first closed part that does not stand for itself. */
  lemma {:induction false} FirstUnstable(word: Table, dict: Dictionary, s: QString) returns (m: QString, braced: bool)
    requires IsWordTable(word) && !Stable(word, dict, s)
    ensures Nameable(dict, m) && |m| + 2 <= |s|
    ensures if braced then Live(dict, m) else AllName(word, m) && dict[m] != [DOLLAR] + m
    decreases |s|
  {
    var p := Head(word, dict, s);
    if p.text == s[..p.size] {
      m, braced := FirstUnstable(word, dict, s[p.size..]);
    } else {
      m := HeadReplaces(word, dict, s);
      braced := s[..p.size] == Braced(m);
    }
  }

  lemma PlainStays(word: Table, dict: Dictionary, a: QString)
    requires DOLLAR !in a
    ensures Fixed(word, dict, a)
  {
    ExpandPlain(word, dict, a, []);
    assert a + [] == a;
  }

  /** Some fixed text is not fixed after a dollar sign. */
  lemma {:induction false} DollarBreaks(word: Table, dict: Dictionary, n: QString) returns (u: QString)
    requires IsWordTable(word) && Live(dict, n)
    ensures Fixed(word, dict, u) && !Fixed(word, dict, [DOLLAR] + u)
    decreases |n|
  {
    if Stable(word, dict, n + [CLOSE_BRACE]) {
      u := [OPEN_BRACE] + (n + [CLOSE_BRACE]);
      StableBreaks(word, dict, n);
    } else {
      var m, braced := FirstUnstable(word, dict, n + [CLOSE_BRACE]);
      if braced {
        u := DollarBreaks(word, dict, m);
      } else {
        u := m + [CLOSE_BRACE];
        BareBreaks(word, dict, m);
        AppendAssociative([DOLLAR], m, [CLOSE_BRACE]);
      }
    }
  }

  lemma StableBreaks(word: Table, dict: Dictionary, n: QString)
    requires IsWordTable(word) && Live(dict, n) && Stable(word, dict, n + [CLOSE_BRACE])
    ensures var u := [OPEN_BRACE] + (n + [CLOSE_BRACE]); Fixed(word, dict, u) && !Fixed(word, dict, [DOLLAR] + u)
  {
    ClosedAtRest(word, dict, n + [CLOSE_BRACE]);
    StableStays(word, dict, n + [CLOSE_BRACE]);
    AfterBrace(word, dict, n + [CLOSE_BRACE]);
    BracedBreaks(word, dict, n);
    BracedInPieces(n);
  }

  lemma AfterBrace(word: Table, dict: Dictionary, t: QString)
    requires Fixed(word, dict, t)
    ensures Fixed(word, dict, [OPEN_BRACE] + t)
  {
    assert ([OPEN_BRACE] + t)[1..] == t;
  }

  lemma BracedInPieces(n: QString)
    ensures [DOLLAR] + ([OPEN_BRACE] + (n + [CLOSE_BRACE])) == Braced(n)
  {}

  lemma BracedBreaks(word: Table, dict: Dictionary, n: QString)
    requires Live(dict, n)
    ensures !Fixed(word, dict, Braced(n))
  {
    BracedExpands(word, dict, n, []);
    assert Braced(n) + [] == Braced(n) && dict[n] + [] == dict[n];
  }

  lemma BareBreaks(word: Table, dict: Dictionary, m: QString)
    requires IsWordTable(word) && Nameable(dict, m) && AllName(word, m) && dict[m] != [DOLLAR] + m
    ensures Fixed(word, dict, m + [CLOSE_BRACE]) && !Fixed(word, dict, [DOLLAR] + m + [CLOSE_BRACE])
  {
    assert DOLLAR !in m + [CLOSE_BRACE];
    PlainStays(word, dict, m + [CLOSE_BRACE]);
    PlainStays(word, dict, [CLOSE_BRACE]);
    BareExpands(word, dict, m, [CLOSE_BRACE]);
    Cancel([CLOSE_BRACE], dict[m], [DOLLAR] + m);
  }

  // A value that ends in a bare reference is not left alone by some text after it.

  lemma {:induction false} LongestKey(keys: set<QString>) returns (b: nat)
    ensures forall k :: k in keys ==> |k| <= b
    decreases keys
  {
    if keys == {} {
      b := 0;
    } else {
      var key :| key in keys;
      b := LongestKey(keys - {key});
      b := if |key| > b then |key| else b;
    }
  }

  function Underscores(k: nat): (w: QString)
    ensures |w| == k && forall j :: 0 <= j < k ==> w[j] == UNDERSCORE
  {
    seq(k, _ => UNDERSCORE)
  }

  /** A name that no variable has, longer than m. */
  lemma FreshName(word: Table, dict: Dictionary, m: QString) returns (w: QString)
    requires AllName(word, m)
    ensures w != [] && forall j :: 0 <= j < |w| ==> w[j] == UNDERSCORE
    ensures AllName(word, m + w) && Value(dict, m + w) == []
  {
    var b := LongestKey(dict.Keys);
    w := Underscores(b + 1);
    assert |m + w| > b;
  }

  lemma DollarEnd(word: Table, dict: Dictionary, v: QString, a: QString, u: QString)
    requires Expand(word, dict, v) == a + Expand(word, dict, [DOLLAR])
    requires Expand(word, dict, v + u) == a + Expand(word, dict, [DOLLAR] + u)
    requires Fixed(word, dict, v) && Fixed(word, dict, v + u)
    ensures Fixed(word, dict, [DOLLAR] + u)
  {
    assert Expand(word, dict, [DOLLAR]) == [DOLLAR];
    AppendAssociative(a, [DOLLAR], u);
    Cancel(a, Expand(word, dict, [DOLLAR] + u), [DOLLAR] + u);
  }

  /** An unset bare name at the end, or followed by two dollar signs. */
  lemma UnsetBare(word: Table, dict: Dictionary, m: QString, u: QString)
    requires IsWordTable(word) && AllName(word, m) && Value(dict, m) == []
    ensures Fixed(word, dict, [DOLLAR] + m)
    ensures Expand(word, dict, [DOLLAR] + m + ([DOLLAR, DOLLAR] + u)) ==
            [DOLLAR] + m + [DOLLAR] + Expand(word, dict, [DOLLAR] + u)
  {
    LastName(word, dict, m);
    assert ([DOLLAR] + m)[1..] == m;
    var t := [DOLLAR, DOLLAR] + u;
    assert t[..1] == [DOLLAR] && t[1..] == [DOLLAR] + u;
    BareExpands(word, dict, m, t);
  }

  lemma NameEnd(word: Table, dict: Dictionary, v: QString, a: QString, m: QString, w: QString, u: QString)
    requires IsWordTable(word) && AllName(word, m + w) && Value(dict, m + w) == []
    requires Expand(word, dict, v + w) == a + Expand(word, dict, [DOLLAR] + (m + w))
    requires var t := [DOLLAR, DOLLAR] + u;
             && Expand(word, dict, v + w + t) == a + Expand(word, dict, [DOLLAR] + (m + w) + t)
             && Fixed(word, dict, v + w) && Fixed(word, dict, v + w + t)
    ensures Fixed(word, dict, [DOLLAR] + u)
  {
    var q := [DOLLAR] + (m + w);
    UnsetBare(word, dict, m + w, u);
    var e := Expand(word, dict, [DOLLAR] + u);
    SameEnd(v + w, a, q, [DOLLAR, DOLLAR] + u, e, u);
  }

  lemma SameEnd(s: QString, a: QString, q: QString, t: QString, e: QString, u: QString)
    requires s == a + q && t == [DOLLAR, DOLLAR] + u && s + t == a + (q + [DOLLAR] + e)
    ensures e == [DOLLAR] + u
  {
    assert s + t == (a + q + [DOLLAR]) + e && s + t == (a + q + [DOLLAR]) + ([DOLLAR] + u);
    Cancel(a + q + [DOLLAR], e, [DOLLAR] + u);
  }

  lemma PlainThenDollars(word: Table, dict: Dictionary, w: QString, u: QString)
    requires IsWordTable(word) && DOLLAR !in w && Fixed(word, dict, u)
    ensures Fixed(word, dict, w + ([DOLLAR, DOLLAR] + u))
  {
    var t := [DOLLAR, DOLLAR] + u;
    assert t[..2] == [DOLLAR, DOLLAR] && t[2..] == u;
    ExpandByParts(word, dict, t);
    ExpandPlain(word, dict, w, t);
  }

  lemma EndsInReference(word: Table, dict: Dictionary, v: QString)
    requires IsWordTable(word) && EndingOf(word, dict, v) == InReference
    ensures var q := OpenTail(word, dict, v);
            && v != [] && v[|v| - 1] != CLOSE_BRACE
            && (q == [DOLLAR] || (|q| > 1 && q == [DOLLAR] + q[1..] && AllName(word, q[1..])))
  {
    OpenTailMeans(word, dict, v);
    var q := OpenTail(word, dict, v);
    OpenHead(word, dict, q);
    OpenLast(word, dict, q);
    assert v[|v| - 1] == q[|q| - 1];
  }

  lemma ClosedReference(m: QString)
    ensures Braced(m)[|Braced(m)| - 1] == CLOSE_BRACE
  {}

  lemma NoDollarEnd(word: Table, dict: Dictionary, n: QString)
    requires IsWordTable(word) && TwiceIsOnce(word, dict) && Live(dict, n)
    ensures OpenTail(word, dict, dict[n]) != [DOLLAR]
  {
    var v := dict[n];
    if OpenTail(word, dict, v) == [DOLLAR] {
      var u := DollarBreaks(word, dict, n);
      ValueFixed(word, dict, n);
      ValueFollowed(word, dict, n, u);
      Splits(word, dict, v, []);
      Splits(word, dict, v, u);
      assert v + [] == v && [DOLLAR] + [] == [DOLLAR];
      DollarEnd(word, dict, v, Done(word, dict, v), u);
    }
  }

  lemma NoNameEnd(word: Table, dict: Dictionary, n: QString, m: QString)
    requires IsWordTable(word) && TwiceIsOnce(word, dict) && Live(dict, n) && AllName(word, m)
    ensures OpenTail(word, dict, dict[n]) != [DOLLAR] + m
  {
    var v := dict[n];
    if OpenTail(word, dict, v) == [DOLLAR] + m {
      var u := DollarBreaks(word, dict, n);
      var w := FreshName(word, dict, m);
      var t := [DOLLAR, DOLLAR] + u;
      PlainStays(word, dict, w);
      PlainThenDollars(word, dict, w, u);
      ValueFollowed(word, dict, n, w);
      ValueFollowed(word, dict, n, w + t);
      TailNameGoesOn(word, dict, v, m, w, []);
      TailNameGoesOn(word, dict, v, m, w, t);
      WithNothing(v + w, [DOLLAR] + (m + w));
      AppendAssociative(v, w, t);
      NameEnd(word, dict, v, Done(word, dict, v), m, w, u);
    }
  }

  lemma WithNothing(a: QString, b: QString)
    ensures a + [] == a && b + [] == b
  {}

  lemma TailNameGoesOn(word: Table, dict: Dictionary, v: QString, m: QString, w: QString, t: QString)
    requires OpenTail(word, dict, v) == [DOLLAR] + m
    ensures Expand(word, dict, v + w + t) == Done(word, dict, v) + Expand(word, dict, [DOLLAR] + (m + w) + t)
  {
    Splits(word, dict, v, w + t);
    NameRegrouped(v, m, w, t);
  }

  lemma NameRegrouped(v: QString, m: QString, w: QString, t: QString)
    ensures v + (w + t) == v + w + t && [DOLLAR] + m + (w + t) == [DOLLAR] + (m + w) + t
  {}

  lemma NoReferenceEnd(word: Table, dict: Dictionary, n: QString)
    requires IsWordTable(word) && TwiceIsOnce(word, dict) && Nameable(dict, n)
    ensures EndingOf(word, dict, dict[n]) != InReference
  {
    var v := dict[n];
    if EndingOf(word, dict, v) == InReference {
      EndsInReference(word, dict, v);
      ClosedReference(n);
      NoDollarEnd(word, dict, n);
      NoNameEnd(word, dict, n, OpenTail(word, dict, v)[1..]);
    }
  }

  // A fixed text has only references that stand for themselves.

  /** A reference that grows: its value would be read as the reference and something more. */
  lemma NoLonger(word: Table, dict: Dictionary, n: QString, m: QString, x: QString)
    requires TwiceIsOnce(word, dict) && Nameable(dict, n) && dict[n] == m + x
    requires m != [] && Head(word, dict, m + x) == Part(|m|, m + x, AtRest)
    ensures x == []
  {
    ValueFixed(word, dict, n);
    ExpandByParts(word, dict, m + x);
    assert (m + x)[|m|..] == x;
    NothingFromSomething(word, dict, x);
  }

  lemma NothingFromSomething(word: Table, dict: Dictionary, x: QString)
    ensures Expand(word, dict, x) == [] ==> x == []
  {
    if x != [] {
      ExpandByParts(word, dict, x);
    }
  }

  /** No text becomes itself with something closed in front. */
  lemma NoGrowth(word: Table, dict: Dictionary, z: QString, r: QString)
    requires IsWordTable(word) && TwiceIsOnce(word, dict) && z != [] && z[|z| - 1] == CLOSE_BRACE
    ensures Expand(word, dict, r) != z + r
  {
    if Expand(word, dict, r) == z + r {
      assert Fixed(word, dict, z + r);
      ClosedAtRest(word, dict, z);
      SplitsAtRest(word, dict, z, r);
      NothingFromSomething(word, dict, z);
    }
  }

  lemma BareHead(word: Table, dict: Dictionary, m: QString, x: QString)
    requires AllName(word, m) && Nameable(dict, m) && x != [] && !NameChar(word, x[0])
    ensures Head(word, dict, [DOLLAR] + m + x) == Part(|m| + 1, dict[m], AtRest)
  {
    var s := [DOLLAR] + m + x;
    assert s[1..] == m + x;
    NameLengthIs(word, s[1..], |m|);
    assert s[1..|m| + 1] == m;
  }

  lemma BracedHead(word: Table, dict: Dictionary, m: QString, x: QString)
    requires Nameable(dict, m)
    ensures Head(word, dict, Braced(m) + x) == Part(|m| + 3, dict[m], AtRest)
  {
    var s := Braced(m) + x;
    BraceLengthIs(s[2..], |m|);
    assert s[2..|m| + 2] == m;
  }

  /** A beginning of a bare reference is one that is still open. */
  lemma NameBegun(word: Table, dict: Dictionary, m: QString, k: nat)
    requires AllName(word, m) && k < |m|
    ensures EndingOf(word, dict, [DOLLAR] + m[..k]) == InReference
  {
    var s := [DOLLAR] + m[..k];
    if k > 0 {
      assert s[1..] == m[..k];
      NameLengthIs(word, s[1..], k);
    }
  }

  /** In a fixed text a value cannot be a longer text that begins with its reference. */
  lemma NotLonger(word: Table, dict: Dictionary, m: QString, ref: QString, r: QString, x: QString)
    requires TwiceIsOnce(word, dict) && Nameable(dict, m) && dict[m] == ref + x && x <= r
    requires IsReference(word, ref + r, |ref|, m)
    ensures x == []
  {
    assert (ref + r)[..|ref|] == ref;
    if x != [] {
      assert (ref + r)[|ref|] == r[0] == x[0];
      if ref == Braced(m) {
        BracedHead(word, dict, m, x);
      } else {
        BareHead(word, dict, m, x);
      }
      NoLonger(word, dict, m, ref, x);
    }
  }

  lemma ShorterGrows(word: Table, dict: Dictionary, v: QString, ref: QString, r: QString)
    requires IsWordTable(word) && TwiceIsOnce(word, dict) && v < ref && ref[|ref| - 1] == CLOSE_BRACE
    ensures v + Expand(word, dict, r) != ref + r
  {
    var z := ref[|v|..];
    NoGrowth(word, dict, z, r);
    assert ref + r == v + (z + r);
    Cancel(v, Expand(word, dict, r), z + r);
  }

  /** Nor can it be a shorter one with which its reference begins. */
  lemma NotShorter(word: Table, dict: Dictionary, m: QString, ref: QString, r: QString)
    requires IsWordTable(word) && TwiceIsOnce(word, dict) && Nameable(dict, m) && dict[m] < ref
    requires IsReference(word, ref + r, |ref|, m)
    ensures dict[m] + Expand(word, dict, r) != ref + r
  {
    var v := dict[m];
    assert (ref + r)[..|ref|] == ref;
    if ref == Braced(m) {
      ShorterGrows(word, dict, v, ref, r);
    } else {
      assert v == [DOLLAR] + m[..|v| - 1];
      NameBegun(word, dict, m, |v| - 1);
      NoReferenceEnd(word, dict, m);
    }
  }

  lemma Comparable(a: QString, b: QString, c: QString, d: QString)
    requires a + b == c + d
    ensures if |a| >= |c| then a == c + a[|c|..] && a[|c|..] <= d else a < c
  {
    assert a == (c + d)[..|a|] && c == (a + b)[..|c|];
    if |a| >= |c| {
      assert d == (a + b)[|c|..] == a[|c|..] + b;
    }
  }

  lemma HeadKept(word: Table, dict: Dictionary, s: QString)
    requires IsWordTable(word) && TwiceIsOnce(word, dict)
    requires s != [] && Fixed(word, dict, s) && Head(word, dict, s).ending == AtRest
    ensures var p := Head(word, dict, s); p.text == s[..p.size]
  {
    var p := Head(word, dict, s);
    var ref, r := s[..p.size], s[p.size..];
    assert s == ref + r;
    ExpandByParts(word, dict, s);
    if p.text != ref {
      var m := HeadReplaces(word, dict, s);
      Comparable(p.text, Expand(word, dict, r), ref, r);
      if |p.text| >= |ref| {
        NotLonger(word, dict, m, ref, r, p.text[|ref|..]);
      } else {
        NotShorter(word, dict, m, ref, r);
      }
    }
  }

  lemma {:induction false} FixedIsStable(word: Table, dict: Dictionary, s: QString)
    requires IsWordTable(word) && TwiceIsOnce(word, dict) && Fixed(word, dict, s)
    ensures Stable(word, dict, s)
    decreases |s|
  {
    if s == [] {
    } else {
      var p := Head(word, dict, s);
      if p.ending == AtRest {
        HeadKept(word, dict, s);
        ExpandByParts(word, dict, s);
        assert s == s[..p.size] + s[p.size..];
        Cancel(p.text, Expand(word, dict, s[p.size..]), s[p.size..]);
        FixedIsStable(word, dict, s[p.size..]);
      }
    }
  }

  /** A reference that a value leaves open is not completed by fixed text to one that is replaced. */
  lemma NoCompletion(word: Table, dict: Dictionary, n: QString, m: QString)
    requires IsWordTable(word) && TwiceIsOnce(word, dict) && Nameable(dict, n) && EndingOf(word, dict, dict[n]).InBrace?
    ensures !Completes(word, dict, EndingOf(word, dict, dict[n]).name, m)
  {
    var v := dict[n];
    var x := EndingOf(word, dict, v).name;
    if Completes(word, dict, x, m) {
      var w := m[|x|..] + [CLOSE_BRACE];
      var a, q := Done(word, dict, v), OpenTail(word, dict, v);
      ValueFixed(word, dict, n);
      FixedIsStable(word, dict, v);
      StableDone(word, dict, v);
      OpenTailMeans(word, dict, v);
      OpenHead(word, dict, q);
      ValueFollowed(word, dict, n, w);
      Splits(word, dict, v, w);
      CompletedBreaks(word, dict, v, a, q, x, m);
    }
  }

  lemma CompletedBreaks(word: Table, dict: Dictionary, v: QString, a: QString, q: QString, x: QString, m: QString)
    requires OpenBraced(q, x) && x <= m && Live(dict, m) && v == a + q
    requires var w := m[|x|..] + [CLOSE_BRACE]; Expand(word, dict, v + w) == a + Expand(word, dict, q + w)
    ensures !Fixed(word, dict, v + (m[|x|..] + [CLOSE_BRACE]))
  {
    var w := m[|x|..] + [CLOSE_BRACE];
    assert q + w == Braced(m);
    BracedBreaks(word, dict, m);
    AppendAssociative(a, q, w);
    Cancel(a, Expand(word, dict, q + w), q + w);
  }

  // ---------- The condition is exact ----------

  /** Expanding twice is expanding once, on every input, if and only if the dictionary is settled. */
  lemma IdempotentExactly(word: Table, dict: Dictionary)
    requires IsWordTable(word)
    ensures TwiceIsOnce(word, dict) <==> Settled(word, dict)
  {
    if Settled(word, dict) {
      forall s ensures Fixed(word, dict, Expand(word, dict, s)) {
        SettledTwice(word, dict, s);
      }
    }
    if TwiceIsOnce(word, dict) {
      forall n | Nameable(dict, n) ensures SettledValue(word, dict, dict[n]) {
        ValueFixed(word, dict, n);
        FixedIsStable(word, dict, dict[n]);
        NoReferenceEnd(word, dict, n);
        if EndingOf(word, dict, dict[n]).InBrace? {
          forall m | m in dict ensures !Completes(word, dict, EndingOf(word, dict, dict[n]).name, m) {
            NoCompletion(word, dict, n, m);
          }
        }
      }
    }
  }

  // ---------- Dictionaries that meet it, and one that does not ----------

  lemma {:induction false} PlainSettled(word: Table, dict: Dictionary, v: QString)
    requires DOLLAR !in v
    ensures Stable(word, dict, v) && EndingOf(word, dict, v) == AtRest
  {
    if v == [] {
    } else {
      assert v[0] != DOLLAR;
      PlainSettled(word, dict, v[1..]);
    }
  }

  /** Values without a dollar sign are settled. */
  lemma Idempotent(word: Table, dict: Dictionary, s: QString)
    requires IsWordTable(word) && forall name :: name in dict ==> DOLLAR !in dict[name]
    ensures Expand(word, dict, Expand(word, dict, s)) == Expand(word, dict, s)
  {
    forall n | Nameable(dict, n) ensures SettledValue(word, dict, dict[n]) {
      PlainSettled(word, dict, dict[n]);
    }
    SettledTwice(word, dict, s);
  }

  /** When no name has a dollar sign, an open reference in braces must not begin the name of a live variable. */
  lemma PlainNamesComplete(word: Table, dict: Dictionary, x: QString, m: QString)
    requires DOLLAR !in m
    ensures Completes(word, dict, x, m) <==> Live(dict, m) && x <= m
  {
    if x <= m {
      PlainStays(word, dict, m[|x|..] + [CLOSE_BRACE]);
    }
  }

  /** A dollar sign before a space is harmless. */
  lemma HarmlessDollar(word: Table)
    requires IsWordTable(word)
    ensures Settled(word, map[[LOWER_A] := [DOLLAR, SPACE]])
  {
    var dict, v := map[[LOWER_A] := [DOLLAR, SPACE]], [DOLLAR, SPACE];
    assert v[..2] == v;
    AloneSettled(word, dict, v);
  }

  /** With A = "$z" and z = "1", the text "${A}" needs two rounds. */
  lemma NotIdempotentWithDollar(word: Table)
    requires IsWordTable(word)
    ensures var dict := map[[LOWER_A] := [DOLLAR, LOWER_Z], [LOWER_Z] := [DIGIT_1]];
            var s := Braced([LOWER_A]);
            Expand(word, dict, s) == [DOLLAR, LOWER_Z] && Expand(word, dict, Expand(word, dict, s)) == [DIGIT_1]
  {
    var dict := map[[LOWER_A] := [DOLLAR, LOWER_Z], [LOWER_Z] := [DIGIT_1]];
    BracedExpands(word, dict, [LOWER_A], []);
    assert Braced([LOWER_A]) + [] == Braced([LOWER_A]);
    LastName(word, dict, [LOWER_Z]);
    assert [DOLLAR, LOWER_Z][1..] == [LOWER_Z];
  }
}
