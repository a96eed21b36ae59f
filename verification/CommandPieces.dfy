/**
 What a command line means, read piece by piece: characters, blanks, and quotations. Every command line consists of such
 pieces, so this says what the splitter makes of any text.
 */
module CommandPieces {
  import opened Text
  import opened Commandline

  /** An open quotation is one that is never closed; it goes on to the end. */
  datatype Piece =
    | Char(c: QChar)
    | Blank(c: QChar)
    | Quoted(mark: QChar, raw: QString)
    | Open(mark: QChar, raw: QString)

  predicate IsMark(c: QChar) {
    c == QUOTE || c == APOSTROPHE
  }

  // ---------- Inside a quotation ----------

  /** Does the text begin with a backslash that counts: one before the quotation's own mark or before a backslash? */
  predicate Escapes(mark: QChar, raw: QString) {
    |raw| > 1 && raw[0] == BACKSLASH && (raw[1] == mark || raw[1] == BACKSLASH)
  }

  /** Can raw stand between two marks, so that it ends at the second one? */
  predicate Closed(mark: QChar, raw: QString) {
    if raw == [] then true
    else if Escapes(mark, raw) then Closed(mark, raw[2..])
    else raw[0] != mark && raw != [BACKSLASH] && Closed(mark, raw[1..])
  }

  /** Does the quotation not end in raw? */
  predicate NeverClosed(mark: QChar, raw: QString) {
    if raw == [] then true
    else if Escapes(mark, raw) then NeverClosed(mark, raw[2..])
    else raw[0] != mark && NeverClosed(mark, raw[1..])
  }

  /** The text without the backslashes that count. */
  function Content(mark: QChar, raw: QString): QString {
    if raw == [] then []
    else if Escapes(mark, raw) then [raw[1]] + Content(mark, raw[2..])
    else [raw[0]] + Content(mark, raw[1..])
  }

  // ---------- Pieces ----------

  predicate ValidPiece(space: CharTable, p: Piece) {
    match p
    case Char(c) => !space(c) && !IsMark(c)
    case Blank(c) => space(c)
    case Quoted(mark, raw) => IsMark(mark) && !space(mark) && Closed(mark, raw)
    case Open(mark, raw) => IsMark(mark) && !space(mark) && NeverClosed(mark, raw)
  }

  ghost predicate ValidPieces(space: CharTable, ps: seq<Piece>) {
    forall i :: 0 <= i < |ps| ==> ValidPiece(space, ps[i]) && (ps[i].Open? ==> i == |ps| - 1)
  }

  function PieceText(p: Piece): QString {
    match p
    case Char(c) => [c]
    case Blank(c) => [c]
    case Quoted(mark, raw) => [mark] + raw + [mark]
    case Open(mark, raw) => [mark] + raw
  }

  function TextOf(ps: seq<Piece>): QString {
    if ps == [] then [] else PieceText(ps[0]) + TextOf(ps[1..])
  }

  /** What a piece adds to the word it is part of. */
  function Adds(p: Piece): QString {
    match p
    case Char(c) => [c]
    case Blank(_) => []
    case Quoted(mark, raw) => Content(mark, raw)
    case Open(mark, raw) => Content(mark, raw)
  }

  /** A word that is empty is no argument. */
  function Word(w: QString): seq<QString> {
    if w == [] then [] else [w]
  }

  /** The words between the blanks, where w has been read of the first one. */
  function Words(w: QString, ps: seq<Piece>): seq<QString>
    decreases |ps|
  {
    if ps == [] then Word(w)
    else if ps[0].Blank? then Word(w) + Words([], ps[1..])
    else Words(w + Adds(ps[0]), ps[1..])
  }

  // ---------- The splitter reads pieces ----------

  /** In the middle of a quotation, the scanner reads raw and the closing mark. */
  lemma {:induction false} ScanClosed(space: CharTable, st: Scanner, mark: QChar, raw: QString, rest: QString)
    requires IsMark(mark) && st.inquotes == mark && !st.escape && Closed(mark, raw)
    ensures Scan(space, st, raw + [mark] + rest) ==
            Scan(space, st.(current := st.current + Content(mark, raw), inquotes := NO_QUOTE), rest)
    decreases |raw|
  {
    var s := raw + [mark] + rest;
    if raw == [] {
      assert s[0] == mark && s[1..] == rest && st.current + [] == st.current;
    } else if Escapes(mark, raw) {
      var next := st.(current := st.current + [raw[1]]);
      TwoSteps(space, st, s, next);
      assert s[2..] == raw[2..] + [mark] + rest;
      ScanClosed(space, next, mark, raw[2..], rest);
      AppendAssociative(st.current, [raw[1]], Content(mark, raw[2..]));
    } else {
      var next := st.(current := st.current + [raw[0]]);
      OneStep(space, st, s, raw, next);
      assert s[1..] == raw[1..] + [mark] + rest;
      ScanClosed(space, next, mark, raw[1..], rest);
      AppendAssociative(st.current, [raw[0]], Content(mark, raw[1..]));
    }
  }

  lemma TwoSteps(space: CharTable, st: Scanner, s: QString, next: Scanner)
    requires IsMark(st.inquotes) && !st.escape && Escapes(st.inquotes, s)
    requires next == st.(current := st.current + [s[1]])
    ensures Scan(space, st, s) == Scan(space, next, s[2..])
  {
    var between := st.(escape := true);
    assert Scan(space, st, s) == Scan(space, between, s[1..]);
    assert s[1..][0] == s[1] && s[1..][1..] == s[2..];
  }

  lemma OneStep(space: CharTable, st: Scanner, s: QString, raw: QString, next: Scanner)
    requires IsMark(st.inquotes) && !st.escape && raw != [] && raw <= s && raw[0] != st.inquotes
    requires !Escapes(st.inquotes, raw) && (raw == [BACKSLASH] ==> s == raw)
    requires next == st.(current := st.current + [raw[0]])
    ensures Scan(space, st, s) == Scan(space, next, s[1..])
  {
    assert s[0] == raw[0] && (|raw| > 1 ==> s[1] == raw[1]);
    assert raw[0] == BACKSLASH && |raw| == 1 ==> raw == [BACKSLASH];
  }

  lemma {:induction false} ScanNeverClosed(space: CharTable, st: Scanner, mark: QChar, raw: QString)
    requires IsMark(mark) && st.inquotes == mark && !st.escape && NeverClosed(mark, raw)
    ensures Scan(space, st, raw) == st.(current := st.current + Content(mark, raw))
    decreases |raw|
  {
    if raw == [] {
      assert st.current + [] == st.current;
    } else if Escapes(mark, raw) {
      var next := st.(current := st.current + [raw[1]]);
      TwoSteps(space, st, raw, next);
      ScanNeverClosed(space, next, mark, raw[2..]);
      AppendAssociative(st.current, [raw[1]], Content(mark, raw[2..]));
    } else {
      var next := st.(current := st.current + [raw[0]]);
      OneStep(space, st, raw, raw, next);
      ScanNeverClosed(space, next, mark, raw[1..]);
      AppendAssociative(st.current, [raw[0]], Content(mark, raw[1..]));
    }
  }

  lemma {:induction false} ScanPieces(space: CharTable, argv: seq<QString>, w: QString, ps: seq<Piece>)
    requires ValidPieces(space, ps)
    ensures Finish(Scan(space, Scanner(argv, w, false, NO_QUOTE), TextOf(ps))) == argv + Words(w, ps)
    decreases |ps|
  {
    if ps == [] {
      assert argv + [] == argv;
    } else {
      var p, rest := ps[0], ps[1..];
      assert ValidPiece(space, p) && ValidPieces(space, rest);
      ScanPiece(space, argv, w, p, TextOf(rest));
      if p.Blank? {
        ScanPieces(space, argv + Word(w), [], rest);
        AppendAssociative(argv, Word(w), Words([], rest));
      } else {
        assert p.Open? ==> rest == [];
        ScanPieces(space, argv, w + Adds(p), rest);
      }
    }
  }

  /** Reading one piece; an open quotation is the last, and what it leaves open does not matter at the end. */
  lemma ScanPiece(space: CharTable, argv: seq<QString>, w: QString, p: Piece, rest: QString)
    requires ValidPiece(space, p) && (p.Open? ==> rest == [])
    ensures Finish(Scan(space, Scanner(argv, w, false, NO_QUOTE), PieceText(p) + rest)) ==
            if p.Blank? then Finish(Scan(space, Scanner(argv + Word(w), [], false, NO_QUOTE), rest))
            else Finish(Scan(space, Scanner(argv, w + Adds(p), false, NO_QUOTE), rest))
  {
    var st, s := Scanner(argv, w, false, NO_QUOTE), PieceText(p) + rest;
    match p {
      case Char(c) =>
        assert s[1..] == rest;
      case Blank(c) =>
        assert s[1..] == rest && argv + [] == argv;
      case Quoted(mark, raw) =>
        assert s[0] == mark && s[1..] == raw + [mark] + rest;
        assert Step(space, st, s) == st.(inquotes := mark);
        ScanClosed(space, st.(inquotes := mark), mark, raw, rest);
      case Open(mark, raw) =>
        assert s[0] == mark && s[1..] == raw;
        assert Step(space, st, s) == st.(inquotes := mark);
        ScanNeverClosed(space, st.(inquotes := mark), mark, raw);
    }
  }

  /** The arguments of a command line are its words: the pieces between blanks, joined, where they are not empty. */
  lemma ArgumentsAreWords(space: CharTable, ps: seq<Piece>)
    requires ValidPieces(space, ps)
    ensures Arguments(space, TextOf(ps)) == Words([], ps)
  {
    ScanPieces(space, [], [], ps);
    assert [] + Words([], ps) == Words([], ps);
  }

  // ---------- Every text consists of pieces ----------

  /** A quotation that has begun either is closed in the rest, or never. */
  lemma {:induction false} Closes(mark: QChar, rest: QString) returns (closed: bool, raw: QString, tail: QString)
    ensures closed ==> Closed(mark, raw) && rest == raw + [mark] + tail
    ensures !closed ==> NeverClosed(mark, rest)
    decreases |rest|
  {
    if rest == [] {
      closed, raw, tail := false, [], [];
    } else if Escapes(mark, rest) {
      closed, raw, tail := Closes(mark, rest[2..]);
      if closed {
        raw := rest[..2] + raw;
        assert raw[2..] == rest[2..][..|raw| - 2];
      }
    } else if rest[0] == mark {
      closed, raw, tail := true, [], rest[1..];
    } else {
      closed, raw, tail := Closes(mark, rest[1..]);
      if closed {
        BackslashAtEnd(mark, rest, raw, tail);
        raw := [rest[0]] + raw;
        assert raw[1..] == rest[1..][..|raw| - 1];
      }
    }
  }

  /** A backslash right before the closing mark would have escaped it. */
  lemma BackslashAtEnd(mark: QChar, rest: QString, raw: QString, tail: QString)
    requires rest != [] && !Escapes(mark, rest) && rest[1..] == raw + [mark] + tail
    ensures [rest[0]] + raw != [BACKSLASH]
    ensures !Escapes(mark, [rest[0]] + raw)
  {
    var after := raw + [mark] + tail;
    assert rest[1] == after[0] == if raw == [] then mark else raw[0];
    assert |[rest[0]] + raw| == 1 + |raw| && ([rest[0]] + raw)[0] == rest[0];
  }

  lemma PieceFirst(space: CharTable, p: Piece, rest: seq<Piece>)
    requires ValidPiece(space, p) && !p.Open? && ValidPieces(space, rest)
    ensures ValidPieces(space, [p] + rest) && TextOf([p] + rest) == PieceText(p) + TextOf(rest)
  {
    assert ([p] + rest)[1..] == rest;
  }

  lemma QuotedFirst(space: CharTable, s: QString, raw: QString, tail: QString, rest: seq<Piece>)
    requires IsSpaceTable(space) && s != [] && IsMark(s[0]) && Closed(s[0], raw) && s[1..] == raw + [s[0]] + tail
    requires ValidPieces(space, rest) && TextOf(rest) == tail
    ensures ValidPieces(space, [Quoted(s[0], raw)] + rest) && TextOf([Quoted(s[0], raw)] + rest) == s
  {
    var mark := s[0];
    PieceFirst(space, Quoted(mark, raw), rest);
    assert s == [mark] + s[1..];
    AppendAssociative([mark], raw + [mark], tail);
    AppendAssociative([mark], raw, [mark]);
  }

  function BarePiece(space: CharTable, c: QChar): Piece {
    if space(c) then Blank(c) else Char(c)
  }

  lemma BareFirst(space: CharTable, s: QString, rest: seq<Piece>)
    requires s != [] && !IsMark(s[0]) && ValidPieces(space, rest) && TextOf(rest) == s[1..]
    ensures ValidPieces(space, [BarePiece(space, s[0])] + rest) && TextOf([BarePiece(space, s[0])] + rest) == s
  {
    PieceFirst(space, BarePiece(space, s[0]), rest);
    assert s == [s[0]] + s[1..];
  }

  lemma OpenLast(space: CharTable, s: QString)
    requires IsSpaceTable(space) && s != [] && IsMark(s[0]) && NeverClosed(s[0], s[1..])
    ensures ValidPieces(space, [Open(s[0], s[1..])]) && TextOf([Open(s[0], s[1..])]) == s
  {
    var ps := [Open(s[0], s[1..])];
    assert ps[1..] == [] && TextOf(ps) == PieceText(ps[0]) + [];
  }

  lemma {:induction false} PiecesOf(space: CharTable, s: QString) returns (ps: seq<Piece>)
    requires IsSpaceTable(space)
    ensures ValidPieces(space, ps) && TextOf(ps) == s
    decreases |s|
  {
    if s == [] {
      ps := [];
    } else if IsMark(s[0]) {
      var closed, raw, tail := Closes(s[0], s[1..]);
      if closed {
        var rest := PiecesOf(space, tail);
        ps := [Quoted(s[0], raw)] + rest;
        QuotedFirst(space, s, raw, tail, rest);
      } else {
        ps := [Open(s[0], s[1..])];
        OpenLast(space, s);
      }
    } else {
      var rest := PiecesOf(space, s[1..]);
      ps := [BarePiece(space, s[0])] + rest;
      BareFirst(space, s, rest);
    }
  }

  // ---------- Backslashes in quotations ----------

  /** Neither ends a quotation nor holds a backslash that counts, wherever it is put. */
  predicate Literal(mark: QChar, s: QString) {
    && mark !in s
    && (forall i :: 0 < i < |s| ==> !(s[i - 1] == BACKSLASH && s[i] == BACKSLASH))
    && (s != [] ==> s[|s| - 1] != BACKSLASH)
  }

  lemma {:induction false} LiteralContent(mark: QChar, s: QString)
    requires Literal(mark, s)
    ensures Closed(mark, s) && Content(mark, s) == s
  {
    if s == [] {
    } else {
      LiteralTail(mark, s);
      LiteralContent(mark, s[1..]);
    }
  }

  lemma LiteralTail(mark: QChar, s: QString)
    requires Literal(mark, s) && s != []
    ensures Literal(mark, s[1..]) && !Escapes(mark, s) && s[0] != mark && s != [BACKSLASH]
    ensures s == [s[0]] + s[1..]
  {
    var t := s[1..];
    forall i | 0 < i < |t| ensures !(t[i - 1] == BACKSLASH && t[i] == BACKSLASH) {
      assert t[i - 1] == s[i] && t[i] == s[i + 1];
    }
    assert |s| > 1 ==> s[1] in s && (s[1 - 1] == BACKSLASH ==> s[1] != BACKSLASH);
  }

  /** In quotation marks of either kind, single backslashes are ordinary characters, as in Windows paths. */
  lemma QuotedLiteral(space: CharTable, mark: QChar, s: QString)
    requires IsSpaceTable(space) && (mark == QUOTE || mark == APOSTROPHE)
    requires s != [] && mark !in s && s[|s| - 1] != BACKSLASH
    requires forall i :: 0 < i < |s| ==> !(s[i - 1] == BACKSLASH && s[i] == BACKSLASH)
    ensures Arguments(space, [mark] + s + [mark]) == [s]
  {
    LiteralContent(mark, s);
    var ps := [Quoted(mark, s)];
    assert ps[1..] == [] && [mark] + s + [mark] + [] == [mark] + s + [mark];
    ArgumentsAreWords(space, ps);
    assert [] + s == s;
  }
}
