/** Expansion of $NAME and ${NAME} in a command-line argument. */
module Variables {
  import opened Text
  import Commandline

  type Dictionary = map<QString, QString>

  /** The value of a variable; an unset one has the empty value. */
  function Value(dict: Dictionary, name: QString): QString {
    if name in dict then dict[name] else []
  }

  /** May c be part of a bare variable name? `word` is the table of letters and numbers. */
  predicate NameChar(word: Commandline.CharTable, c: QChar) {
    word(c) || c == UNDERSCORE
  }

  function NameLength(word: Commandline.CharTable, s: QString): (n: nat)
    ensures n <= |s|
  {
    if s == [] || !NameChar(word, s[0]) then 0 else 1 + NameLength(word, s[1..])
  }

  /** Index of the first closing brace, or |s|. */
  function BraceLength(s: QString): (n: nat)
    ensures n <= |s|
  {
    if s == [] || s[0] == CLOSE_BRACE then 0 else 1 + BraceLength(s[1..])
  }

  // ---------- The reference scanner ----------

  /** Left to right, each part of the input read once and inserted text never read. */
  function Expand(word: Commandline.CharTable, dict: Dictionary, s: QString): QString
    decreases |s|
  {
    if s == [] then []
    else if s[0] == DOLLAR then ExpandDollar(word, dict, s[1..])
    else [s[0]] + Expand(word, dict, s[1..])
  }

  /** rest is what follows a dollar sign. */
  function ExpandDollar(word: Commandline.CharTable, dict: Dictionary, rest: QString): QString
    decreases |rest|
  {
    if rest == [] then [DOLLAR]
    else if rest[0] == OPEN_BRACE then
      var n := BraceLength(rest[1..]);
      if n == |rest| - 1 then [DOLLAR] + rest
      else
        var value := Value(dict, rest[1..n + 1]);
        (if value != [] then value else [DOLLAR] + rest[..n + 2]) + Expand(word, dict, rest[n + 2..])
    else if NameChar(word, rest[0]) then
      var n := NameLength(word, rest);
      var value := Value(dict, rest[..n]);
      if value != [] then value + Expand(word, dict, rest[n..])
      else if n == |rest| then [DOLLAR] + rest
      else [DOLLAR] + rest[..n + 1] + Expand(word, dict, rest[n + 1..])
    else [DOLLAR, rest[0]] + Expand(word, dict, rest[1..])
  }

  lemma {:induction false} NameLengthIs(word: Commandline.CharTable, s: QString, n: nat)
    requires n <= |s| && forall j :: 0 <= j < n ==> NameChar(word, s[j])
    requires n < |s| ==> !NameChar(word, s[n])
    ensures NameLength(word, s) == n
  {
    if n == 0 {
    } else {
      NameLengthIs(word, s[1..], n - 1);
    }
  }

  lemma {:induction false} BraceLengthIs(s: QString, n: nat)
    requires n <= |s| && forall j :: 0 <= j < n ==> s[j] != CLOSE_BRACE
    requires n < |s| ==> s[n] == CLOSE_BRACE
    ensures BraceLength(s) == n
  {
    if n == 0 {
    } else {
      BraceLengthIs(s[1..], n - 1);
    }
  }

  // ---------- The loop that edits its own input ----------

  datatype State = Base | MaybeBrace | Variable | Brace

  /** What the loop knows in each state: how much of the result is final, and what the rest will expand to. */
  ghost predicate Progress(word: Commandline.CharTable, dict: Dictionary, all: QString,
                           result: QString, i: int, state: State, startIdx: int)
  {
    && 0 <= i <= |result|
    && match state
       case Base => all == result[..i] + Expand(word, dict, result[i..])
       case MaybeBrace =>
         && i > 0 && result[i - 1] == DOLLAR
         && all == result[..i - 1] + ExpandDollar(word, dict, result[i..])
       case Variable =>
         && 0 < startIdx < i && result[startIdx - 1] == DOLLAR && result[startIdx] != OPEN_BRACE
         && (forall j :: startIdx <= j < i ==> NameChar(word, result[j]))
         && all == result[..startIdx - 1] + ExpandDollar(word, dict, result[startIdx..])
       case Brace =>
         && 2 <= startIdx <= i && result[startIdx - 2] == DOLLAR && result[startIdx - 1] == OPEN_BRACE
         && (forall j :: startIdx <= j < i ==> result[j] != CLOSE_BRACE)
         && all == result[..startIdx - 2] + ExpandDollar(word, dict, result[startIdx - 1..])
  }

  /** At the closing brace: the whole reference is replaced when the variable has a value. */
  method CloseBrace(word: Commandline.CharTable, dict: Dictionary, ghost all: QString, input: QString, at: nat,
                    startIdx: int)
    returns (result: QString, i: nat)
    requires at < |input| && Progress(word, dict, all, input, at, Brace, startIdx) && input[at] == CLOSE_BRACE
    ensures Progress(word, dict, all, result, i, Base, startIdx)
    ensures |result| - i == |input| - at - 1
  {
    BraceEnd(word, dict, all, input, at, startIdx);
    result, i := input, at + 1;
    var res := Value(dict, input[startIdx..at]);
    if res != [] {
      result := input[..startIdx - 2] + res + input[i..];
      i := startIdx - 2 + |res|;
    }
  }

  /** At the first character after a bare name: it is read again when the variable has a value. */
  method EndName(word: Commandline.CharTable, dict: Dictionary, ghost all: QString, input: QString, at: nat,
                 startIdx: int)
    returns (result: QString, i: nat)
    requires at < |input| && Progress(word, dict, all, input, at, Variable, startIdx) && !NameChar(word, input[at])
    ensures Progress(word, dict, all, result, i, Base, startIdx)
    ensures |input| - at - 1 <= |result| - i <= |input| - at
  {
    VariableEnd(word, dict, all, input, at, startIdx);
    result, i := input, at + 1;
    var res := Value(dict, input[startIdx..at]);
    if res != [] {
      result := input[..startIdx - 1] + res + input[at..];
      i := startIdx - 1 + |res|;
    }
  }

  method ExpandVariables(word: Commandline.CharTable, input: QString, dict: Dictionary) returns (result: QString)
    ensures result == Expand(word, dict, input)
  {
    result := input;
    var state := Base;
    var startIdx := -1;
    var i := 0;
    ghost var all := Expand(word, dict, input);
    Start(word, dict, all, result);
    while i < |result|
      invariant Progress(word, dict, all, result, i, state, startIdx)
      decreases |result| - i, state == Variable
    {
      var c := result[i];
      match state {
        case Base =>
          BaseStep(word, dict, all, result, i);
          i := i + 1;
          if c == DOLLAR {
            state := MaybeBrace;
          }
        case MaybeBrace =>
          MaybeBraceStep(word, dict, all, result, i);
          i := i + 1;
          if c == OPEN_BRACE {
            state := Brace;
            startIdx := i;
          } else if NameChar(word, c) {
            state := Variable;
            startIdx := i - 1;
          } else {
            state := Base;
          }
        case Brace =>
          if c == CLOSE_BRACE {
            result, i := CloseBrace(word, dict, all, result, i, startIdx);
            state := Base;
          } else {
            NameStep(word, dict, all, result, i, Brace, startIdx);
            i := i + 1;
          }
        case Variable =>
          if !NameChar(word, c) {
            result, i := EndName(word, dict, all, result, i, startIdx);
            state := Base;
          } else {
            NameStep(word, dict, all, result, i, Variable, startIdx);
            i := i + 1;
          }
      }
    }
    AtEnd(word, dict, all, result, state, startIdx);
    if state == Variable {
      var res := Value(dict, result[startIdx..]);
      if res != [] {
        result := result[..startIdx - 1] + res;
      }
    }
  }

  lemma Start(word: Commandline.CharTable, dict: Dictionary, all: QString, input: QString)
    requires all == Expand(word, dict, input)
    ensures Progress(word, dict, all, input, 0, Base, -1)
  {}

  /** Inside a name or a brace, a character that does not end it only moves the index. */
  lemma NameStep(word: Commandline.CharTable, dict: Dictionary, all: QString, result: QString, i: nat, state: State,
                 startIdx: int)
    requires i < |result| && Progress(word, dict, all, result, i, state, startIdx)
    requires state == Brace || state == Variable
    requires if state == Brace then result[i] != CLOSE_BRACE else NameChar(word, result[i])
    ensures Progress(word, dict, all, result, i + 1, state, startIdx)
  {}

  lemma BaseStep(word: Commandline.CharTable, dict: Dictionary, all: QString, result: QString, i: nat)
    requires i < |result| && Progress(word, dict, all, result, i, Base, -1)
    ensures Progress(word, dict, all, result, i + 1, if result[i] == DOLLAR then MaybeBrace else Base, -1)
  {}

  lemma MaybeBraceStep(word: Commandline.CharTable, dict: Dictionary, all: QString, result: QString, i: nat)
    requires i < |result| && Progress(word, dict, all, result, i, MaybeBrace, -1)
    ensures result[i] == OPEN_BRACE ==> Progress(word, dict, all, result, i + 1, Brace, i + 1)
    ensures result[i] != OPEN_BRACE && NameChar(word, result[i]) ==>
              Progress(word, dict, all, result, i + 1, Variable, i)
    ensures result[i] != OPEN_BRACE && !NameChar(word, result[i]) ==> Progress(word, dict, all, result, i + 1, Base, -1)
  {}

  lemma BraceEnd(word: Commandline.CharTable, dict: Dictionary, all: QString, result: QString, i: nat, startIdx: nat)
    requires i < |result| && Progress(word, dict, all, result, i, Brace, startIdx) && result[i] == CLOSE_BRACE
    ensures var res := Value(dict, result[startIdx..i]);
            if res != [] then
              Progress(word, dict, all, result[..startIdx - 2] + res + result[i + 1..], startIdx - 2 + |res|, Base, -1)
            else Progress(word, dict, all, result, i + 1, Base, -1)
  {
    var before, res := result[..startIdx - 2], Value(dict, result[startIdx..i]);
    BraceExpands(word, dict, result, i, startIdx);
    if res != [] {
      Substituted(word, dict, all, before, res, result[i + 1..]);
    } else {
      AppendAssociative(before, result[startIdx - 2..i + 1], Expand(word, dict, result[i + 1..]));
      assert before + result[startIdx - 2..i + 1] == result[..i + 1];
    }
  }

  /** What a whole reference in braces expands to. */
  lemma BraceExpands(word: Commandline.CharTable, dict: Dictionary, result: QString, i: nat, startIdx: nat)
    requires 2 <= startIdx <= i < |result| && result[startIdx - 2] == DOLLAR && result[startIdx - 1] == OPEN_BRACE
    requires (forall j :: startIdx <= j < i ==> result[j] != CLOSE_BRACE) && result[i] == CLOSE_BRACE
    ensures var res := Value(dict, result[startIdx..i]);
            ExpandDollar(word, dict, result[startIdx - 1..]) ==
            (if res != [] then res else result[startIdx - 2..i + 1]) + Expand(word, dict, result[i + 1..])
  {
    var rest := result[startIdx - 1..];
    BraceSlices(result, i, startIdx);
    BraceLengthIs(rest[1..], i - startIdx);
  }

  lemma BraceSlices(result: QString, i: nat, startIdx: nat)
    requires 2 <= startIdx <= i < |result| && result[startIdx - 2] == DOLLAR
    ensures var rest, n := result[startIdx - 1..], i - startIdx;
            && rest[1..] == result[startIdx..]
            && rest[1..n + 1] == result[startIdx..i] && rest[n + 2..] == result[i + 1..]
            && [DOLLAR] + rest[..n + 2] == result[startIdx - 2..i + 1]
  {}

  /** Progress right after a replacement. */
  lemma Substituted(word: Commandline.CharTable, dict: Dictionary, all: QString, before: QString, res: QString,
                    t: QString)
    requires all == before + (res + Expand(word, dict, t))
    ensures Progress(word, dict, all, before + res + t, |before| + |res|, Base, -1)
  {}

  lemma VariableEnd(word: Commandline.CharTable, dict: Dictionary, all: QString, result: QString, i: nat, startIdx: nat)
    requires i < |result| && Progress(word, dict, all, result, i, Variable, startIdx) && !NameChar(word, result[i])
    ensures var res := Value(dict, result[startIdx..i]);
            if res != [] then
              Progress(word, dict, all, result[..startIdx - 1] + res + result[i..], startIdx - 1 + |res|, Base, -1)
            else Progress(word, dict, all, result, i + 1, Base, -1)
  {
    var before, name := result[..startIdx - 1], result[startIdx..i];
    NameSlices(result, startIdx, i);
    if Value(dict, name) != [] {
      SetName(word, dict, name, result[i..]);
      Substituted(word, dict, all, before, Value(dict, name), result[i..]);
    } else {
      SkippedName(word, dict, before, name, result[i], result[i + 1..]);
    }
  }

  lemma NameSlices(s: QString, from: nat, i: nat)
    requires 0 < from <= i < |s|
    ensures s[from..] == s[from..i] + s[i..] && s[from..] == s[from..i] + [s[i]] + s[i + 1..]
    ensures s[..i + 1] == s[..from - 1] + [s[from - 1]] + s[from..i] + [s[i]]
  {}

  lemma SkippedName(word: Commandline.CharTable, dict: Dictionary, before: QString, name: QString, c: QChar, t: QString)
    requires name != [] && name[0] != OPEN_BRACE && (forall j :: 0 <= j < |name| ==> NameChar(word, name[j]))
    requires !NameChar(word, c) && Value(dict, name) == []
    ensures before + ExpandDollar(word, dict, name + [c] + t) == before + [DOLLAR] + name + [c] + Expand(word, dict, t)
  {
    UnsetName(word, dict, name, c, t);
    assert before + [DOLLAR] + name + [c] == before + ([DOLLAR] + (name + [c]));
    AppendAssociative(before, [DOLLAR] + (name + [c]), Expand(word, dict, t));
  }

  lemma SetName(word: Commandline.CharTable, dict: Dictionary, name: QString, t: QString)
    requires name != [] && name[0] != OPEN_BRACE && (forall j :: 0 <= j < |name| ==> NameChar(word, name[j]))
    requires t != [] && !NameChar(word, t[0]) && Value(dict, name) != []
    ensures ExpandDollar(word, dict, name + t) == Value(dict, name) + Expand(word, dict, t)
  {
    NameLengthIs(word, name + t, |name|);
    assert (name + t)[..|name|] == name && (name + t)[|name|..] == t;
  }

  lemma AtEnd(word: Commandline.CharTable, dict: Dictionary, all: QString, result: QString, state: State, startIdx: int)
    requires Progress(word, dict, all, result, |result|, state, startIdx)
    ensures all == if state == Variable && Value(dict, result[startIdx..]) != []
                   then result[..startIdx - 1] + Value(dict, result[startIdx..])
                   else result
  {
    var n := |result|;
    assert result[n..] == [] && result[..n] == result;
    match state {
      case Base =>
      case MaybeBrace =>
        Rejoined(result, n);
      case Brace =>
        UnclosedBrace(word, dict, result[startIdx - 1..]);
        Rejoined(result, startIdx - 1);
      case Variable =>
        LastName(word, dict, result[startIdx..]);
        Rejoined(result, startIdx);
    }
  }

  lemma Rejoined(s: QString, i: nat)
    requires 0 < i <= |s| && s[i - 1] == DOLLAR
    ensures s[..i - 1] + ([DOLLAR] + s[i..]) == s
    ensures i == |s| ==> s[..i - 1] + [DOLLAR] == s
  {}

  lemma UnclosedBrace(word: Commandline.CharTable, dict: Dictionary, rest: QString)
    requires rest != [] && rest[0] == OPEN_BRACE && forall j :: 1 <= j < |rest| ==> rest[j] != CLOSE_BRACE
    ensures ExpandDollar(word, dict, rest) == [DOLLAR] + rest
  {
    BraceLengthIs(rest[1..], |rest| - 1);
  }

  lemma LastName(word: Commandline.CharTable, dict: Dictionary, rest: QString)
    requires rest != [] && rest[0] != OPEN_BRACE && forall j :: 0 <= j < |rest| ==> NameChar(word, rest[j])
    ensures ExpandDollar(word, dict, rest) == if Value(dict, rest) != [] then Value(dict, rest) else [DOLLAR] + rest
  {
    NameLengthIs(word, rest, |rest|);
    assert rest[..|rest|] == rest && rest[|rest|..] == [];
    assert Value(dict, rest) + [] == Value(dict, rest);
  }

  lemma {:induction false} ExpandPlain(word: Commandline.CharTable, dict: Dictionary, a: QString, t: QString)
    requires DOLLAR !in a
    ensures Expand(word, dict, a + t) == a + Expand(word, dict, t)
  {
    if a == [] {
      assert a + t == t;
    } else {
      assert a[0] in a && (a + t)[0] == a[0] && (a + t)[1..] == a[1..] + t;
      ExpandPlain(word, dict, a[1..], t);
      AppendAssociative([a[0]], a[1..], Expand(word, dict, t));
      assert a == [a[0]] + a[1..];
    }
  }

  lemma {:induction false} BraceLengthMeans(s: QString)
    ensures var n := BraceLength(s);
            (forall j :: 0 <= j < n ==> s[j] != CLOSE_BRACE) && (n < |s| ==> s[n] == CLOSE_BRACE)
  {
    if s != [] && s[0] != CLOSE_BRACE {
      BraceLengthMeans(s[1..]);
    }
  }

  lemma {:induction false} NameLengthMeans(word: Commandline.CharTable, s: QString)
    ensures var n := NameLength(word, s);
            (forall j :: 0 <= j < n ==> NameChar(word, s[j])) && (n < |s| ==> !NameChar(word, s[n]))
  {
    if s != [] && NameChar(word, s[0]) {
      NameLengthMeans(word, s[1..]);
    }
  }

  lemma UnsetName(word: Commandline.CharTable, dict: Dictionary, name: QString, c: QChar, t: QString)
    requires name != [] && name[0] != OPEN_BRACE && (forall j :: 0 <= j < |name| ==> NameChar(word, name[j]))
    requires !NameChar(word, c) && Value(dict, name) == []
    ensures ExpandDollar(word, dict, name + [c] + t) == [DOLLAR] + (name + [c]) + Expand(word, dict, t)
  {
    var rest, n := name + [c] + t, |name|;
    NameLengthIs(word, rest, n);
    assert rest[..n] == name && rest[..n + 1] == name + [c] && rest[n + 1..] == t;
  }

  /** Splits a command and expands each argument; values are never split again. */
  method Process(space: Commandline.CharTable, word: Commandline.CharTable, cmd: QString, dict: Dictionary)
    returns (args: seq<QString>)
    ensures var parts := Commandline.Arguments(space, cmd);
            |args| == |parts| && forall i :: 0 <= i < |args| ==> args[i] == Expand(word, dict, parts[i])
  {
    var parts := Commandline.SplitArgs(space, cmd);
    args := parts;
    for i := 0 to |args|
      invariant |args| == |parts|
      invariant forall j :: 0 <= j < i ==> args[j] == Expand(word, dict, parts[j])
      invariant forall j :: i <= j < |args| ==> args[j] == parts[j]
    {
      var expanded := ExpandVariables(word, args[i], dict);
      args := args[i := expanded];
    }
  }

  // ---------- What expansion does, rule by rule ----------

  /** Letters, numbers and underscores only. */
  ghost predicate WordText(word: Commandline.CharTable, m: QString) {
    forall i :: 0 <= i < |m| ==> word(m[i]) || m[i] == UNDERSCORE
  }

  /** t does not go on with a letter, a number or an underscore. */
  ghost predicate WordEnds(word: Commandline.CharTable, t: QString) {
    t == [] || !(word(t[0]) || t[0] == UNDERSCORE)
  }

  /** Other characters stand for themselves. */
  lemma PlainCharacter(word: Commandline.CharTable, dict: Dictionary, c: QChar, t: QString)
    requires c != DOLLAR
    ensures Expand(word, dict, [c] + t) == [c] + Expand(word, dict, t)
  {
    assert ([c] + t)[1..] == t;
  }

  /** A set variable with a non-empty value, in braces: its name goes up to the first closing brace. */
  lemma SetInBraces(word: Commandline.CharTable, dict: Dictionary, m: QString, t: QString)
    requires CLOSE_BRACE !in m && m in dict && dict[m] != []
    ensures Expand(word, dict, [DOLLAR, OPEN_BRACE] + m + [CLOSE_BRACE] + t) == dict[m] + Expand(word, dict, t)
  {
    BracesOpen(word, dict, m, t);
  }

  /** Any other complete reference in braces stays as it is. */
  lemma UnsetInBraces(word: Commandline.CharTable, dict: Dictionary, m: QString, t: QString)
    requires CLOSE_BRACE !in m && (m in dict ==> dict[m] == [])
    ensures Expand(word, dict, [DOLLAR, OPEN_BRACE] + m + [CLOSE_BRACE] + t) ==
            [DOLLAR, OPEN_BRACE] + m + [CLOSE_BRACE] + Expand(word, dict, t)
  {
    BracesOpen(word, dict, m, t);
  }

  lemma BracesOpen(word: Commandline.CharTable, dict: Dictionary, m: QString, t: QString)
    requires CLOSE_BRACE !in m
    ensures var whole := [DOLLAR, OPEN_BRACE] + m + [CLOSE_BRACE];
            Expand(word, dict, whole + t) ==
            (if Value(dict, m) != [] then Value(dict, m) else whole) + Expand(word, dict, t)
  {
    var rest := [OPEN_BRACE] + m + [CLOSE_BRACE] + t;
    var s := [DOLLAR, OPEN_BRACE] + m + [CLOSE_BRACE] + t;
    assert s[1..] == rest && rest[1..] == m + [CLOSE_BRACE] + t;
    BraceLengthIs(rest[1..], |m|);
    assert rest[1..|m| + 1] == m && rest[|m| + 2..] == t && rest[..|m| + 2] == [OPEN_BRACE] + m + [CLOSE_BRACE];
    assert [DOLLAR] + rest[..|m| + 2] == [DOLLAR, OPEN_BRACE] + m + [CLOSE_BRACE];
  }

  /** A brace that is never closed: the rest stays as it is. */
  lemma OpenBrace(word: Commandline.CharTable, dict: Dictionary, m: QString)
    requires CLOSE_BRACE !in m
    ensures Expand(word, dict, [DOLLAR, OPEN_BRACE] + m) == [DOLLAR, OPEN_BRACE] + m
  {
    var s := [DOLLAR, OPEN_BRACE] + m;
    assert s[1..] == [OPEN_BRACE] + m && s[1..][1..] == m;
    BraceLengthIs(m, |m|);
    assert [DOLLAR] + s[1..] == s;
  }

  /** A set variable with a non-empty value, bare: its name goes on as long as there are word characters. */
  lemma SetBare(word: Commandline.CharTable, dict: Dictionary, m: QString, t: QString)
    requires m != [] && WordText(word, m) && m[0] != OPEN_BRACE && WordEnds(word, t)
    requires m in dict && dict[m] != []
    ensures Expand(word, dict, [DOLLAR] + m + t) == dict[m] + Expand(word, dict, t)
  {
    BareOpens(word, m, t);
  }

  /** Any other bare reference stays as it is, together with the character after it, whatever that is. */
  lemma UnsetBareThen(word: Commandline.CharTable, dict: Dictionary, m: QString, c: QChar, t: QString)
    requires m != [] && WordText(word, m) && m[0] != OPEN_BRACE && !(word(c) || c == UNDERSCORE)
    requires m in dict ==> dict[m] == []
    ensures Expand(word, dict, [DOLLAR] + m + ([c] + t)) == [DOLLAR] + m + [c] + Expand(word, dict, t)
  {
    BareOpens(word, m, [c] + t);
    var rest := m + ([c] + t);
    assert rest[..|m| + 1] == m + [c] && rest[|m| + 1..] == t;
    assert [DOLLAR] + (m + [c]) == [DOLLAR] + m + [c];
  }

  lemma UnsetBareAtEnd(word: Commandline.CharTable, dict: Dictionary, m: QString)
    requires m != [] && WordText(word, m) && m[0] != OPEN_BRACE && (m in dict ==> dict[m] == [])
    ensures Expand(word, dict, [DOLLAR] + m) == [DOLLAR] + m
  {
    BareOpens(word, m, []);
    assert [DOLLAR] + m + [] == [DOLLAR] + m && m + [] == m;
  }

  lemma BareOpens(word: Commandline.CharTable, m: QString, t: QString)
    requires m != [] && WordText(word, m) && WordEnds(word, t)
    ensures var rest := m + t;
            && NameLength(word, rest) == |m| && rest[..|m|] == m && rest[|m|..] == t && NameChar(word, rest[0])
            && ([DOLLAR] + m + t)[1..] == rest
  {
    NameLengthIs(word, m + t, |m|);
  }

  /** A dollar sign before anything else stays, together with that character; so "$$" begins no reference. */
  lemma DollarThen(word: Commandline.CharTable, dict: Dictionary, c: QChar, t: QString)
    requires c != OPEN_BRACE && !(word(c) || c == UNDERSCORE)
    ensures Expand(word, dict, [DOLLAR, c] + t) == [DOLLAR, c] + Expand(word, dict, t)
  {
    assert ([DOLLAR, c] + t)[1..] == [c] + t && ([c] + t)[1..] == t;
  }

  lemma DollarAtEnd(word: Commandline.CharTable, dict: Dictionary)
    ensures Expand(word, dict, [DOLLAR]) == [DOLLAR] && Expand(word, dict, []) == []
  {}

  ghost predicate IsBraced(s: QString, m: QString, t: QString) {
    CLOSE_BRACE !in m && s == [DOLLAR, OPEN_BRACE] + m + [CLOSE_BRACE] + t
  }

  ghost predicate IsBare(word: Commandline.CharTable, s: QString, m: QString, t: QString) {
    m != [] && WordText(word, m) && m[0] != OPEN_BRACE && WordEnds(word, t) && s == [DOLLAR] + m + t
  }

  /** Some rule applies to every input. */
  lemma RulesCover(word: Commandline.CharTable, s: QString)
    ensures || s == [] || s[0] != DOLLAR || s == [DOLLAR]
            || (s[1] == OPEN_BRACE && CLOSE_BRACE !in s[2..]) || (exists m, t :: IsBraced(s, m, t))
            || (exists m, t :: IsBare(word, s, m, t))
            || (s[1] != OPEN_BRACE && !(word(s[1]) || s[1] == UNDERSCORE))
  {
    if |s| > 1 && s[0] == DOLLAR && s[1] == OPEN_BRACE && CLOSE_BRACE in s[2..] {
      var m, t := BracedParts(s);
    } else if |s| > 1 && s[0] == DOLLAR && s[1] != OPEN_BRACE && NameChar(word, s[1]) {
      var m, t := BareParts(word, s);
    }
  }

  lemma BracedParts(s: QString) returns (m: QString, t: QString)
    requires |s| > 1 && s[0] == DOLLAR && s[1] == OPEN_BRACE && CLOSE_BRACE in s[2..]
    ensures IsBraced(s, m, t)
  {
    var rest := s[2..];
    var n := BraceLength(rest);
    BraceLengthMeans(rest);
    var j :| 0 <= j < |rest| && rest[j] == CLOSE_BRACE;
    assert n <= j;
    m, t := rest[..n], rest[n + 1..];
    assert s == [DOLLAR, OPEN_BRACE] + rest && rest == m + [CLOSE_BRACE] + t;
    AppendAssociative([DOLLAR, OPEN_BRACE], m + [CLOSE_BRACE], t);
    AppendAssociative([DOLLAR, OPEN_BRACE], m, [CLOSE_BRACE]);
  }

  lemma BareParts(word: Commandline.CharTable, s: QString) returns (m: QString, t: QString)
    requires |s| > 1 && s[0] == DOLLAR && s[1] != OPEN_BRACE && NameChar(word, s[1])
    ensures IsBare(word, s, m, t)
  {
    var rest := s[1..];
    var n := NameLength(word, rest);
    NameLengthMeans(word, rest);
    m, t := rest[..n], rest[n..];
    assert s == [DOLLAR] + rest && rest == m + t;
    AppendAssociative([DOLLAR], m, t);
  }
}
