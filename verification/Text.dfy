/** Strings of the launcher: sequences of 16-bit code units, compared by numeric value. */
module Text {
  type QChar = c: int | 0 <= c < 0x1_0000

  type QString = seq<QChar>

  const LF: QChar := 0x0A
  const SPACE: QChar := 0x20
  const QUOTE: QChar := 0x22
  const DOLLAR: QChar := 0x24
  const APOSTROPHE: QChar := 0x27
  const PLUS: QChar := 0x2B
  const DASH: QChar := 0x2D
  const SLASH: QChar := 0x2F
  const DIGIT_0: QChar := 0x30
  const DIGIT_1: QChar := 0x31
  const DIGIT_9: QChar := 0x39
  const BACKSLASH: QChar := 0x5C
  const UNDERSCORE: QChar := 0x5F
  const LOWER_A: QChar := 0x61
  const LOWER_Z: QChar := 0x7A
  const OPEN_BRACE: QChar := 0x7B
  const CLOSE_BRACE: QChar := 0x7D

  datatype Option<+T> = None | Some(value: T)

  /** Outcome of a three-way comparison. */
  datatype Ordering = Less | Equal | Greater {
    function Reverse(): Ordering {
      match this
      case Less => Greater
      case Equal => Equal
      case Greater => Less
    }
  }

  function CompareInts(a: int, b: int): Ordering {
    if a < b then Less else if a > b then Greater else Equal
  }

  /** Lexicographic comparison by code unit; a proper prefix comes first. */
  function CompareUnits(a: QString, b: QString): Ordering {
    if a == [] || b == [] then CompareInts(|a|, |b|)
    else if a[0] != b[0] then CompareInts(a[0], b[0])
    else CompareUnits(a[1..], b[1..])
  }

  lemma {:induction false} CompareUnitsReverse(a: QString, b: QString)
    ensures CompareUnits(b, a) == CompareUnits(a, b).Reverse()
    ensures CompareUnits(a, b) == Equal <==> a == b
  {
    if a != [] && b != [] && a[0] == b[0] {
      CompareUnitsReverse(a[1..], b[1..]);
      assert a == [a[0]] + a[1..] && b == [b[0]] + b[1..];
    }
  }

  lemma {:induction false} CompareUnitsTransitive(a: QString, b: QString, c: QString)
    requires CompareUnits(a, b) != Greater && CompareUnits(b, c) != Greater
    ensures CompareUnits(a, c) != Greater
    ensures CompareUnits(a, b) == Less || CompareUnits(b, c) == Less ==> CompareUnits(a, c) == Less
  {
    if a != [] && b != [] && c != [] && a[0] == b[0] == c[0] {
      CompareUnitsTransitive(a[1..], b[1..], c[1..]);
    }
  }

  /** a and b agree before k, and there a has ended and b has not, or a has the smaller unit. */
  predicate LowerAt(a: QString, b: QString, k: nat) {
    && k <= |a| && k < |b| && a[..k] == b[..k]
    && (k == |a| || a[k] < b[k])
  }

  ghost predicate Lower(a: QString, b: QString) {
    exists k: nat :: LowerAt(a, b, k)
  }

  lemma LowerTail(a: QString, b: QString)
    requires a != [] && b != [] && a[0] == b[0]
    ensures Lower(a, b) <==> Lower(a[1..], b[1..])
  {
    assert a == [a[0]] + a[1..] && b == [b[0]] + b[1..];
    if Lower(a, b) {
      var k: nat :| LowerAt(a, b, k);
      assert a[1..][..k - 1] == a[..k][1..] && b[1..][..k - 1] == b[..k][1..];
      assert LowerAt(a[1..], b[1..], k - 1);
    }
    if Lower(a[1..], b[1..]) {
      var k: nat :| LowerAt(a[1..], b[1..], k);
      assert a[..k + 1] == [a[0]] + a[1..][..k] && b[..k + 1] == [b[0]] + b[1..][..k];
      assert LowerAt(a, b, k + 1);
    }
  }

  lemma LowerHead(a: QString, b: QString, k: nat)
    requires LowerAt(a, b, k) && a != []
    ensures k > 0 ==> a[0] == b[0]
  {
    if k > 0 {
      assert a[..k][0] == b[..k][0];
    }
  }

  /** The comparison in terms of the first difference. */
  lemma {:induction false} CompareUnitsMeans(a: QString, b: QString)
    ensures CompareUnits(a, b) == Less <==> Lower(a, b)
    ensures CompareUnits(a, b) == Greater <==> Lower(b, a)
  {
    if a == [] || b == [] {
      assert b != [] ==> LowerAt(a, b, 0);
      assert a != [] ==> LowerAt(b, a, 0);
    } else if a[0] != b[0] {
      assert LowerAt(a, b, 0) <==> a[0] < b[0];
      assert LowerAt(b, a, 0) <==> b[0] < a[0];
      forall k: nat | LowerAt(a, b, k) ensures k == 0 {
        LowerHead(a, b, k);
      }
      forall k: nat | LowerAt(b, a, k) ensures k == 0 {
        LowerHead(b, a, k);
      }
    } else {
      LowerTail(a, b);
      LowerTail(b, a);
      CompareUnitsMeans(a[1..], b[1..]);
    }
  }

  lemma AppendAssociative<T>(a: seq<T>, b: seq<T>, c: seq<T>)
    ensures a + (b + c) == (a + b) + c
  {}
}
