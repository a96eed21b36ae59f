/** Splitting strings at a separator and joining them again. */
module Separators {
  import opened Text

  /** Index of the first c in s, or -1. */
  function IndexOf(s: QString, c: QChar): (i: int)
    ensures -1 <= i < |s|
  {
    if s == [] then -1
    else if s[0] == c then 0
    else
      var i := IndexOf(s[1..], c);
      if i == -1 then -1 else i + 1
  }

  lemma {:induction false} IndexOfMeans(s: QString, c: QChar)
    ensures var i := IndexOf(s, c);
            if i == -1 then c !in s else s[i] == c && c !in s[..i]
  {
    if s != [] && s[0] != c {
      IndexOfMeans(s[1..], c);
      var i := IndexOf(s[1..], c);
      assert s == [s[0]] + s[1..];
      assert i >= 0 ==> s[..i + 1] == [s[0]] + s[1..][..i];
    }
  }

  function Split(s: QString, sep: QChar): (r: seq<QString>)
    ensures r != []
    decreases |s|
  {
    var i := IndexOf(s, sep);
    if i == -1 then [s] else [s[..i]] + Split(s[i + 1..], sep)
  }

  lemma {:induction false} SplitHasNoSeparator(s: QString, sep: QChar, k: nat)
    requires k < |Split(s, sep)|
    ensures sep !in Split(s, sep)[k]
    decreases |s|
  {
    IndexOfMeans(s, sep);
    var i := IndexOf(s, sep);
    if k == 0 {
    } else {
      SplitHasNoSeparator(s[i + 1..], sep, k - 1);
    }
  }

  function Join(parts: seq<QString>, sep: QChar): QString {
    if parts == [] then [] else if |parts| == 1 then parts[0] else parts[0] + [sep] + Join(parts[1..], sep)
  }

  lemma JoinCons(part: QString, rest: seq<QString>, sep: QChar)
    requires rest != []
    ensures Join([part] + rest, sep) == part + [sep] + Join(rest, sep)
  {}

  lemma FirstSeparator(a: QString, sep: QChar, b: QString)
    requires sep !in a
    ensures IndexOf(a + [sep] + b, sep) == |a|
    ensures (a + [sep] + b)[..|a|] == a && (a + [sep] + b)[|a| + 1..] == b
  {
    var s := a + [sep] + b;
    IndexOfMeans(s, sep);
    assert s[|a|] == sep && sep in s;
    assert forall k :: 0 <= k < |a| ==> s[k] == a[k] && a[k] != sep;
    forall k | |a| < k <= |s| ensures sep in s[..k] {
      assert s[..k][|a|] == sep;
    }
  }

  lemma {:induction false} SplitJoin(parts: seq<QString>, sep: QChar)
    requires parts != [] && forall i :: 0 <= i < |parts| ==> sep !in parts[i]
    ensures Split(Join(parts, sep), sep) == parts
  {
    if |parts| == 1 {
      IndexOfMeans(parts[0], sep);
    } else {
      FirstSeparator(parts[0], sep, Join(parts[1..], sep));
      SplitJoin(parts[1..], sep);
    }
  }

  lemma {:induction false} JoinSplit(s: QString, sep: QChar)
    ensures Join(Split(s, sep), sep) == s
    decreases |s|
  {
    var i := IndexOf(s, sep);
    if i >= 0 {
      IndexOfMeans(s, sep);
      JoinSplit(s[i + 1..], sep);
      JoinCons(s[..i], Split(s[i + 1..], sep), sep);
      assert s == s[..i] + [sep] + s[i + 1..];
    }
  }
}
