/**
 WebSocket frames on the wire (RFC 6455, sections 5.2 and 5.3): the sender's encoding and the receiver's parsing.

 A byte is a number below 256; its top bit is `>= 128`, its low seven bits `% 128`, its low four `% 16`.
 */
module WebSocket {
  import opened Text

  type Byte = b: int | 0 <= b < 256

  type Bytes = seq<Byte>

  // ---------- Numbers as bytes ----------

  function Pow256(k: nat): (p: nat)
    ensures p > 0
  {
    if k == 0 then 1 else 256 * Pow256(k - 1)
  }

  /** The k low bytes of n, most significant first. */
  function BigEndian(n: nat, k: nat): (r: Bytes)
    ensures |r| == k
    ensures forall j :: 0 <= j < k ==> r[j] == n / Pow256(k - 1 - j) % 256
  {
    seq(k, j requires 0 <= j < k => n / Pow256(k - 1 - j) % 256)
  }

  function FromBigEndian(bs: Bytes): nat {
    if bs == [] then 0 else 256 * FromBigEndian(bs[..|bs| - 1]) + bs[|bs| - 1]
  }

  lemma DivDiv(n: nat, p: nat)
    requires p > 0
    ensures n / p / 256 == n / (256 * p)
  {
    DivMod(n, p);
    Regroup(n, p, n / p, n % p, n / p / 256, n / p % 256);
  }

  lemma DivMod(n: nat, p: nat)
    requires p > 0
    ensures n == n / p * p + n % p && n % p < p
  {}

  lemma Regroup(n: nat, p: nat, a: nat, r: nat, b: nat, t: nat)
    requires n == a * p + r && r < p && a == 256 * b + t && t < 256
    ensures n / (256 * p) == b
  {
    assert a * p == 256 * b * p + t * p;
    assert t * p <= 255 * p;
    assert 256 * b * p == b * (256 * p);
    DivUnique(n, 256 * p, b, t * p + r);
  }

  lemma DivUnique(n: nat, d: nat, q: nat, r: nat)
    requires d > 0 && n == q * d + r && r < d
    ensures n / d == q
  {
    var k := n / d - q;
    Multiple(k, d);
    assert k * d == n / d * d - q * d;
  }

  lemma Multiple(k: int, d: int)
    requires d >= 0
    ensures k >= 1 ==> k * d >= d
    ensures k <= -1 ==> k * d <= -d
  {}

  lemma {:induction false} PrefixOfBigEndian(n: nat, k: nat, j: nat)
    requires j <= k && n < Pow256(k)
    ensures FromBigEndian(BigEndian(n, k)[..j]) == n / Pow256(k - j)
  {
    var bs := BigEndian(n, k);
    if j == 0 {
      assert bs[..0] == [];
      DivUnique(n, Pow256(k), 0, n);
    } else {
      PrefixOfBigEndian(n, k, j - 1);
      assert bs[..j][..j - 1] == bs[..j - 1];
      var x := n / Pow256(k - j);
      DivDiv(n, Pow256(k - j));
      assert Pow256(k - (j - 1)) == 256 * Pow256(k - j);
      assert n / Pow256(k - (j - 1)) == x / 256;
      assert bs[j - 1] == x % 256;
    }
  }

  lemma BigEndianRoundTrip(n: nat, k: nat)
    requires n < Pow256(k)
    ensures FromBigEndian(BigEndian(n, k)) == n
  {
    PrefixOfBigEndian(n, k, k);
    assert BigEndian(n, k)[..k] == BigEndian(n, k);
  }

  // ---------- Masking ----------

  /** Exclusive or of the k low bits. */
  function XorBits(a: nat, b: nat, k: nat): nat {
    if k == 0 then 0 else (a + b) % 2 + 2 * XorBits(a / 2, b / 2, k - 1)
  }

  function PowerOf2(k: nat): nat {
    if k == 0 then 1 else 2 * PowerOf2(k - 1)
  }

  lemma {:induction false} XorBitsBound(a: nat, b: nat, k: nat)
    ensures XorBits(a, b, k) < PowerOf2(k)
  {
    if k == 0 {
    } else {
      XorBitsBound(a / 2, b / 2, k - 1);
    }
  }

  lemma {:induction false} XorBitsCancel(a: nat, b: nat, k: nat)
    requires a < PowerOf2(k)
    ensures XorBits(XorBits(a, b, k), b, k) == a
  {
    if k == 0 {
    } else {
      XorBitsCancel(a / 2, b / 2, k - 1);
      LowBit(a, b, XorBits(a / 2, b / 2, k - 1));
    }
  }

  lemma LowBit(a: nat, b: nat, high: nat)
    ensures var x := (a + b) % 2 + 2 * high;
            x / 2 == high && (x + b) % 2 == a % 2
  {}

  lemma PowerOf2Of8()
    ensures PowerOf2(8) == 256
  {}

  function XorByte(a: Byte, b: Byte): Byte {
    XorBitsBound(a, b, 8);
    PowerOf2Of8();
    XorBits(a, b, 8)
  }

  function Xor(payload: Bytes, mask: Bytes): (r: Bytes)
    requires |mask| == 4
    ensures |r| == |payload|
    ensures forall i :: 0 <= i < |r| ==> r[i] == XorByte(payload[i], mask[i % 4])
  {
    seq(|payload|, i requires 0 <= i < |payload| => XorByte(payload[i], mask[i % 4]))
  }

  lemma XorCancels(a: Byte, b: Byte)
    ensures XorByte(XorByte(a, b), b) == a
  {
    PowerOf2Of8();
    XorBitsCancel(a, b, 8);
  }

  lemma XorTwice(payload: Bytes, mask: Bytes)
    requires |mask| == 4
    ensures Xor(Xor(payload, mask), mask) == payload
  {
    forall i | 0 <= i < |payload| ensures Xor(Xor(payload, mask), mask)[i] == payload[i] {
      XorCancels(payload[i], mask[i % 4]);
    }
  }

  /** Bit k of n. */
  function Bit(n: nat, k: nat): nat {
    if k == 0 then n % 2 else Bit(n / 2, k - 1)
  }

  lemma {:induction false} XorBitsBit(a: nat, b: nat, n: nat, k: nat)
    requires k < n
    ensures Bit(XorBits(a, b, n), k) == (Bit(a, k) + Bit(b, k)) % 2
  {
    var x, high := XorBits(a, b, n), XorBits(a / 2, b / 2, n - 1);
    Parity(a, b, high);
    if k > 0 {
      XorBitsBit(a / 2, b / 2, n - 1, k - 1);
      assert Bit(x, k) == Bit(high, k - 1);
    }
  }

  lemma Parity(a: nat, b: nat, high: nat)
    ensures var x := (a + b) % 2 + 2 * high;
            x / 2 == high && x % 2 == (a % 2 + b % 2) % 2
  {}

  /** The place of the bit that is worth d. */
  function Place(d: nat): nat {
    if d == 1 then 0 else if d == 2 then 1 else if d == 4 then 2 else if d == 8 then 3
    else if d == 16 then 4 else if d == 32 then 5 else if d == 64 then 6 else 7
  }

  lemma BitWorth(n: nat, d: nat)
    requires d in {1, 2, 4, 8, 16, 32, 64, 128}
    ensures Bit(n, Place(d)) == n / d % 2
  {
    if d <= 8 {
      LowBits(n);
    } else {
      HighBits(n);
    }
  }

  lemma LowBits(n: nat)
    ensures Bit(n, 0) == n % 2 && Bit(n, 1) == n / 2 % 2 && Bit(n, 2) == n / 4 % 2 && Bit(n, 3) == n / 8 % 2
  {
    assert n / 2 / 2 == n / 4 && n / 4 / 2 == n / 8;
  }

  lemma HighBits(n: nat)
    ensures Bit(n, 4) == n / 16 % 2 && Bit(n, 5) == n / 32 % 2 && Bit(n, 6) == n / 64 % 2 && Bit(n, 7) == n / 128 % 2
  {
    LowBits(n / 16);
    SixteenFirst(n);
    assert n / 16 / 2 == n / 32 && n / 16 / 4 == n / 64 && n / 16 / 8 == n / 128;
  }

  lemma SixteenFirst(n: nat)
    ensures forall k: nat :: k < 4 ==> Bit(n, k + 4) == Bit(n / 16, k)
  {
    assert n / 2 / 2 / 2 / 2 == n / 16;
    forall k: nat | k < 4 ensures Bit(n, k + 4) == Bit(n / 16, k) {
      assert Bit(n, k + 4) == Bit(n / 2, k + 3) == Bit(n / 2 / 2, k + 2) == Bit(n / 2 / 2 / 2, k + 1);
    }
  }

  /** Each bit of the exclusive or is set if and only if exactly one of the two bits is. */
  lemma XorBit(a: Byte, b: Byte, d: nat)
    requires d in {1, 2, 4, 8, 16, 32, 64, 128}
    ensures XorByte(a, b) / d % 2 == 1 <==> (a / d % 2 == 1) != (b / d % 2 == 1)
  {
    XorBitsBit(a, b, 8, Place(d));
    BitWorth(XorByte(a, b), d);
    BitWorth(a, d);
    BitWorth(b, d);
  }

  // ---------- Frames ----------

  /** How the payload length is written. */
  datatype Form = Short | Medium | Long

  /** A frame as any peer may send it; the low four bits of byte0 are the opcode. */
  datatype Wire = Wire(byte0: Byte, form: Form, mask: Option<Bytes>, payload: Bytes)

  /** What a frame means to the receiver. */
  datatype Frame = Frame(opcode: Byte, payload: Bytes)

  const OP_TEXT: Byte := 0x1
  const OP_CLOSE: Byte := 0x8
  const OP_PING: Byte := 0x9
  const OP_PONG: Byte := 0xA

  const LIMIT_32: nat := 0x8000_0000
  const LIMIT_64: nat := 0x1_0000_0000_0000_0000

  predicate Fits(form: Form, len: nat) {
    match form
    case Short => len <= 125
    case Medium => len <= 65535
    case Long => len < LIMIT_64
  }

  /** The length code: the length itself, or which longer field follows. */
  function Code(form: Form, len: nat): (c: nat)
    requires Fits(form, len)
    ensures c < 128
  {
    match form
    case Short => len
    case Medium => 126
    case Long => 127
  }

  function Byte1(form: Form, len: nat, masked: bool): Byte
    requires Fits(form, len)
  {
    Code(form, len) + if masked then 128 else 0
  }

  function ExtendedLength(form: Form, len: nat): Bytes {
    match form
    case Short => []
    case Medium => BigEndian(len, 2)
    case Long => BigEndian(len, 8)
  }

  predicate ValidWire(w: Wire) {
    Fits(w.form, |w.payload|) && (w.mask.Some? ==> |w.mask.value| == 4)
  }

  function HeaderLength(form: Form, masked: bool): nat {
    2 + (match form
         case Short => 0
         case Medium => 2
         case Long => 8) + if masked then 4 else 0
  }

  /** Small enough for the receiver's 32-bit arithmetic. */
  predicate Receivable(w: Wire) {
    ValidWire(w) && HeaderLength(w.form, w.mask.Some?) + |w.payload| < LIMIT_32
  }

  function Header(w: Wire): Bytes
    requires ValidWire(w)
  {
    [w.byte0, Byte1(w.form, |w.payload|, w.mask.Some?)] + ExtendedLength(w.form, |w.payload|)
    + if w.mask.Some? then w.mask.value else []
  }

  function Body(w: Wire): Bytes
    requires ValidWire(w)
  {
    if w.mask.Some? then Xor(w.payload, w.mask.value) else w.payload
  }

  function WireBytes(w: Wire): Bytes
    requires ValidWire(w)
  {
    Header(w) + Body(w)
  }

  function Meaning(w: Wire): Frame {
    Frame(w.byte0 % 16, w.payload)
  }

  function ShortestForm(len: nat): Form {
    if len <= 125 then Short else if len <= 65535 then Medium else Long
  }

  /** The launcher's own frame: final, masked, in the shortest form. */
  function Sent(opcode: Byte, payload: Bytes, mask: Bytes): Wire {
    Wire(128 + opcode % 16, ShortestForm(|payload|), Some(mask), payload)
  }

  lemma SentMeans(opcode: Byte, payload: Bytes, mask: Bytes)
    ensures Meaning(Sent(opcode, payload, mask)) == Frame(opcode % 16, payload)
  {}

  /** No valid way to write the same payload and mask is shorter. */
  lemma SentIsShortest(opcode: Byte, payload: Bytes, mask: Bytes, w: Wire)
    requires |mask| == 4 && |payload| < LIMIT_64
    requires ValidWire(w) && w.payload == payload && w.mask == Some(mask)
    ensures ValidWire(Sent(opcode, payload, mask))
    ensures |WireBytes(Sent(opcode, payload, mask))| <= |WireBytes(w)|
  {}

  function MaskOf(randVal: nat): (r: Bytes)
    ensures |r| == 4
  {
    [randVal / 0x100_0000 % 256, randVal / 0x1_0000 % 256, randVal / 0x100 % 256, randVal % 256]
  }

  /** Builds the bytes of one frame, as the sender does. */
  method BuildFrame(opcode: Byte, payload: Bytes, randVal: nat) returns (frame: Bytes)
    requires |payload| < LIMIT_64
    ensures ValidWire(Sent(opcode, payload, MaskOf(randVal)))
    ensures frame == WireBytes(Sent(opcode, payload, MaskOf(randVal)))
  {
    frame := [128 + opcode % 16];
    var len := |payload|;
    if len <= 125 {
      frame := frame + [128 + len];
    } else if len <= 65535 {
      frame := frame + [128 + 126];
      assert Pow256(1) == 256 && Pow256(0) == 1;
      frame := frame + [len / 256 % 256];
      frame := frame + [len % 256];
      assert frame[2..] == BigEndian(len, 2);
    } else {
      frame := frame + [128 + 127];
      ghost var start := frame;
      var j := 0;
      while j < 8
        invariant 0 <= j <= 8 && frame == start + BigEndian(len, 8)[..j]
      {
        frame := frame + [len / Pow256(7 - j) % 256];
        j := j + 1;
      }
    }
    var mask := MaskOf(randVal);
    frame := frame + mask;
    ghost var header := frame;
    var masked: Bytes := [];
    for i := 0 to |payload|
      invariant |masked| == i && forall k :: 0 <= k < i ==> masked[k] == XorByte(payload[k], mask[k % 4])
    {
      masked := masked + [XorByte(payload[i], mask[i % 4])];
    }
    assert masked == Xor(payload, mask);
    assert header == Header(Sent(opcode, payload, mask));
    frame := frame + masked;
  }

  // ---------- Parsing ----------

  datatype Parsed =
    | NeedMore
    | Got(frame: Frame, used: nat)
    | TooLong  // the declared length leaves the receiver's 32-bit arithmetic

  /** Length code of the second byte. */
  function LengthCode(b: Byte): nat {
    b % 128
  }

  predicate Masked(b: Byte) {
    b >= 128
  }

  /** Bytes before the mask; the caller has made sure that they are there. */
  function LengthOffset(code: nat): nat {
    if code == 126 then 4 else if code == 127 then 10 else 2
  }

  function DeclaredLength(buffer: Bytes): nat
    requires |buffer| >= 2 && |buffer| >= LengthOffset(LengthCode(buffer[1]))
  {
    var code := LengthCode(buffer[1]);
    if code == 126 then FromBigEndian(buffer[2..4])
    else if code == 127 then FromBigEndian(buffer[2..10])
    else code
  }

  /** The first frame of the buffer, as the receiver reads it. */
  function ParseFrame(buffer: Bytes): (r: Parsed)
    ensures r.Got? ==> 2 <= r.used <= |buffer|
  {
    if |buffer| < 2 || |buffer| < LengthOffset(LengthCode(buffer[1])) then NeedMore
    else
      var len := DeclaredLength(buffer);
      var masked := Masked(buffer[1]);
      var offset := LengthOffset(LengthCode(buffer[1])) + if masked then 4 else 0;
      if |buffer| < (offset + len) % LIMIT_64 then NeedMore
      else if offset + len >= LIMIT_32 then TooLong
      else
        Got(Frame(buffer[0] % 16, PayloadAt(buffer, offset, len, masked)), offset + len)
  }

  function PayloadAt(buffer: Bytes, offset: nat, len: nat, masked: bool): Bytes
    requires offset + len <= |buffer| && (masked ==> offset >= 4)
  {
    var payload := buffer[offset..offset + len];
    if masked then Xor(payload, buffer[offset - 4..offset]) else payload
  }

  lemma SmallIsExact(n: nat)
    requires n < LIMIT_32
    ensures n % LIMIT_64 == n
  {}

  /** Bytes that arrive later do not change the length a header declares. */
  lemma LengthStable(buffer: Bytes, more: Bytes)
    requires |buffer| >= 2 && |buffer| >= LengthOffset(LengthCode(buffer[1]))
    ensures DeclaredLength(buffer + more) == DeclaredLength(buffer)
  {
    var all, code := buffer + more, LengthCode(buffer[1]);
    assert all[1] == buffer[1];
    assert code == 126 ==> all[2..4] == buffer[2..4];
    assert code == 127 ==> all[2..10] == buffer[2..10];
  }

  lemma SliceStays(a: Bytes, b: Bytes, i: nat, j: nat)
    requires i <= j <= |a|
    ensures (a + b)[i..j] == a[i..j]
  {}

  /** Bytes that arrive later do not change a frame that is already complete. */
  lemma ParseStable(buffer: Bytes, more: Bytes)
    requires ParseFrame(buffer) != NeedMore
    ensures ParseFrame(buffer + more) == ParseFrame(buffer)
  {
    var all := buffer + more;
    LengthStable(buffer, more);
    assert all[1] == buffer[1] && all[0] == buffer[0];
    var offset := LengthOffset(LengthCode(buffer[1])) + if Masked(buffer[1]) then 4 else 0;
    var end := offset + DeclaredLength(buffer);
    if end < LIMIT_32 {
      SmallIsExact(end);
      SliceStays(buffer, more, offset, end);
      if Masked(buffer[1]) {
        SliceStays(buffer, more, offset - 4, offset);
      }
    }
  }

  /** The buffer starts with the header of w. */
  ghost predicate StartsWithHeader(buffer: Bytes, w: Wire)
    requires ValidWire(w)
  {
    var n, m := HeaderLength(w.form, w.mask.Some?), HeaderLength(w.form, false);
    && |buffer| >= n
    && buffer[0] == w.byte0 && buffer[1] == Byte1(w.form, |w.payload|, w.mask.Some?)
    && buffer[2..m] == ExtendedLength(w.form, |w.payload|)
    && (w.mask.Some? ==> buffer[m..n] == w.mask.value)
  }

  lemma HeaderLayout(w: Wire, tail: Bytes)
    requires ValidWire(w)
    ensures var buffer, n := WireBytes(w) + tail, HeaderLength(w.form, w.mask.Some?);
            && |WireBytes(w)| == n + |w.payload|
            && StartsWithHeader(buffer, w) && buffer[n..] == Body(w) + tail
  {}

  lemma LengthParses(form: Form, len: nat)
    requires Fits(form, len)
    ensures form != Short ==> FromBigEndian(ExtendedLength(form, len)) == len
  {
    Pow256Of8();
    match form {
      case Short =>
      case Medium =>
        BigEndianRoundTrip(len, 2);
      case Long =>
        BigEndianRoundTrip(len, 8);
    }
  }

  lemma Pow256Of8()
    ensures Pow256(8) == LIMIT_64 && Pow256(2) == 65536
  {}

  lemma HeaderParses(buffer: Bytes, w: Wire)
    requires ValidWire(w) && StartsWithHeader(buffer, w)
    ensures var n := HeaderLength(w.form, w.mask.Some?);
            && Masked(buffer[1]) == w.mask.Some?
            && LengthOffset(LengthCode(buffer[1])) + (if w.mask.Some? then 4 else 0) == n
            && DeclaredLength(buffer) == |w.payload|
            && (w.mask.Some? ==> buffer[n - 4..n] == w.mask.value)
  {
    CodeParses(w.form, |w.payload|, w.mask.Some?);
    LengthParses(w.form, |w.payload|);
    DeclaredParses(buffer, w);
  }

  lemma CodeParses(form: Form, len: nat, masked: bool)
    requires Fits(form, len)
    ensures var b := Byte1(form, len, masked);
            && Masked(b) == masked && LengthCode(b) == Code(form, len)
            && LengthOffset(LengthCode(b)) == HeaderLength(form, false)
            && HeaderLength(form, masked) == HeaderLength(form, false) + if masked then 4 else 0
  {}

  lemma DeclaredParses(buffer: Bytes, w: Wire)
    requires ValidWire(w) && StartsWithHeader(buffer, w)
    ensures |buffer| >= LengthOffset(LengthCode(buffer[1])) && DeclaredLength(buffer) == |w.payload|
  {
    CodeParses(w.form, |w.payload|, w.mask.Some?);
    LengthParses(w.form, |w.payload|);
    match w.form {
      case Short =>
      case Medium => assert buffer[2..4] == ExtendedLength(w.form, |w.payload|);
      case Long => assert buffer[2..10] == ExtendedLength(w.form, |w.payload|);
    }
  }

  /** The receiver reads back every frame, whatever its mask and length form, and leaves what follows alone. */
  lemma ParseInvertsWire(w: Wire, tail: Bytes)
    requires Receivable(w)
    ensures ParseFrame(WireBytes(w) + tail) == Got(Meaning(w), |WireBytes(w)|)
  {
    HeaderLayout(w, tail);
    ParseWithHeader(WireBytes(w) + tail, w, tail);
  }

  lemma ParseWithHeader(buffer: Bytes, w: Wire, tail: Bytes)
    requires Receivable(w) && StartsWithHeader(buffer, w)
    requires buffer[HeaderLength(w.form, w.mask.Some?)..] == Body(w) + tail
    ensures ParseFrame(buffer) == Got(Meaning(w), HeaderLength(w.form, w.mask.Some?) + |w.payload|)
  {
    HeaderParses(buffer, w);
    var n := HeaderLength(w.form, w.mask.Some?);
    PayloadParses(buffer, n, w, tail);
    ParsesAs(buffer, n, |w.payload|);
  }

  lemma PayloadParses(buffer: Bytes, n: nat, w: Wire, tail: Bytes)
    requires ValidWire(w) && n <= |buffer| && buffer[n..] == Body(w) + tail
    requires w.mask.Some? ==> n >= 4 && buffer[n - 4..n] == w.mask.value
    ensures n + |w.payload| <= |buffer|
    ensures PayloadAt(buffer, n, |w.payload|, w.mask.Some?) == w.payload
  {
    var len := |w.payload|;
    assert |buffer| == n + |Body(w) + tail|;
    assert buffer[n..n + len] == buffer[n..][..len] == Body(w);
    if w.mask.Some? {
      XorTwice(w.payload, w.mask.value);
    }
  }

  /** A frame that has not arrived in full is waited for. */
  lemma PartNeedsMore(w: Wire, n: nat)
    requires Receivable(w) && n < |WireBytes(w)|
    ensures ParseFrame(WireBytes(w)[..n]) == NeedMore
  {
    var part, rest := WireBytes(w)[..n], WireBytes(w)[n..];
    assert part + rest == WireBytes(w) && WireBytes(w) + [] == WireBytes(w);
    ParseInvertsWire(w, []);
    if ParseFrame(part) != NeedMore {
      ParseStable(part, rest);
    }
  }

  /** A frame that is too long for the receiver's arithmetic is never read, even when it is all there. */
  lemma LongIsTooLong(w: Wire, tail: Bytes)
    requires ValidWire(w)
    ensures ParseFrame(WireBytes(w) + tail) == TooLong <==> HeaderLength(w.form, w.mask.Some?) + |w.payload| >= LIMIT_32
  {
    if Receivable(w) {
      ParseInvertsWire(w, tail);
    } else {
      var buffer := WireBytes(w) + tail;
      HeaderLayout(w, tail);
      HeaderParses(buffer, w);
      ParsesAs(buffer, HeaderLength(w.form, w.mask.Some?), |w.payload|);
    }
  }

  /** Reading a buffer with a whole frame in it, whose header declares n bytes of header and len of payload. */
  lemma ParsesAs(buffer: Bytes, n: nat, len: nat)
    requires |buffer| >= 2 && |buffer| >= LengthOffset(LengthCode(buffer[1])) && DeclaredLength(buffer) == len
    requires n == LengthOffset(LengthCode(buffer[1])) + (if Masked(buffer[1]) then 4 else 0) && n + len <= |buffer|
    ensures ParseFrame(buffer) == if n + len >= LIMIT_32 then TooLong
                                  else Got(Frame(buffer[0] % 16, PayloadAt(buffer, n, len, Masked(buffer[1]))), n + len)
  {
    ModAtMost(n + len);
  }

  lemma ModAtMost(x: nat)
    ensures x % LIMIT_64 <= x
  {}

  // ---------- The bytes, one by one ----------

  /** The first bytes of a frame, as section 5.2 of RFC 6455 lays them out: final, masked, in the shortest form. */
  ghost predicate HeaderLaidOut(bs: Bytes, n: nat, opcode: nat, len: nat) {
    && |bs| == n + len && n >= 6
    && bs[0] == 0x80 + opcode
    && if len <= 125 then n == 6 && bs[1] == 0x80 + len
       else if len <= 65535 then n == 8 && bs[1] == 0xFE && bs[2] as nat * 256 + bs[3] == len
       else n == 14 && bs[1] == 0xFF && FromBigEndian(bs[2..10]) == len
  }

  /** The last four of them are the mask, under which the payload follows. */
  ghost predicate BodyLaidOut(bs: Bytes, n: nat, randVal: nat, payload: Bytes) {
    && |bs| == n + |payload| && n >= 4
    && FromBigEndian(bs[n - 4..n]) == randVal
    && forall i :: 0 <= i < |payload| ==> Masks(bs[n + i], payload[i], bs[n - 4 + i % 4])
  }

  /** Is x the exclusive or of b and m, bit by bit? */
  ghost predicate Masks(x: Byte, b: Byte, m: Byte) {
    forall d: nat :: d in {1, 2, 4, 8, 16, 32, 64, 128} ==> (x / d % 2 == 1 <==> (b / d % 2 == 1) != (m / d % 2 == 1))
  }

  lemma MasksByte(b: Byte, m: Byte)
    ensures Masks(XorByte(b, m), b, m)
  {
    forall d: nat | d in {1, 2, 4, 8, 16, 32, 64, 128}
      ensures XorByte(b, m) / d % 2 == 1 <==> (b / d % 2 == 1) != (m / d % 2 == 1)
    {
      XorBit(b, m, d);
    }
  }

  /** The mask is the random number, most significant byte first. */
  lemma MaskIsRandom(randVal: nat)
    requires randVal < 0x1_0000_0000
    ensures FromBigEndian(MaskOf(randVal)) == randVal
  {
    assert Pow256(4) == 0x1_0000_0000 && Pow256(3) == 0x100_0000 && Pow256(2) == 0x1_0000 && Pow256(1) == 0x100;
    BigEndianRoundTrip(randVal, 4);
    assert MaskOf(randVal) == BigEndian(randVal, 4);
  }

  /** Every frame that is sent is laid out that way, with the random number as its mask. */
  lemma SentBytes(opcode: Byte, payload: Bytes, randVal: nat)
    requires |payload| < LIMIT_64 && randVal < 0x1_0000_0000
    ensures var w := Sent(opcode, payload, MaskOf(randVal));
            && ValidWire(w)
            && HeaderLaidOut(WireBytes(w), HeaderLength(w.form, true), opcode % 16, |payload|)
            && BodyLaidOut(WireBytes(w), HeaderLength(w.form, true), randVal, payload)
  {
    SentHeader(opcode, payload, MaskOf(randVal));
    MaskIsRandom(randVal);
    SentBody(Sent(opcode, payload, MaskOf(randVal)));
  }

  lemma SentHeader(opcode: Byte, payload: Bytes, mask: Bytes)
    requires |payload| < LIMIT_64 && |mask| == 4
    ensures var w := Sent(opcode, payload, mask);
            ValidWire(w) && HeaderLaidOut(WireBytes(w), HeaderLength(w.form, true), opcode % 16, |payload|)
  {
    var w := Sent(opcode, payload, mask);
    var bs := WireBytes(w);
    WholeFrame(w);
    LengthParses(w.form, |payload|);
    LengthBytes(bs);
  }

  lemma WholeFrame(w: Wire)
    requires ValidWire(w)
    ensures var bs, n := WireBytes(w), HeaderLength(w.form, w.mask.Some?);
            |bs| == n + |w.payload| && StartsWithHeader(bs, w) && bs[n..] == Body(w)
  {
    HeaderLayout(w, []);
    assert WireBytes(w) + [] == WireBytes(w) && Body(w) + [] == Body(w);
  }

  lemma SentBody(w: Wire)
    requires ValidWire(w) && w.mask.Some?
    ensures BodyLaidOut(WireBytes(w), HeaderLength(w.form, true), FromBigEndian(w.mask.value), w.payload)
  {
    var bs, n := WireBytes(w), HeaderLength(w.form, true);
    WholeFrame(w);
    HeaderParses(bs, w);
    MasksAll(bs, n, w.payload, w.mask.value);
  }

  lemma MasksAll(bs: Bytes, n: nat, payload: Bytes, mask: Bytes)
    requires 4 <= n && |bs| == n + |payload| && |mask| == 4
    requires bs[n - 4..n] == mask && bs[n..] == Xor(payload, mask)
    ensures forall i :: 0 <= i < |payload| ==> Masks(bs[n + i], payload[i], bs[n - 4 + i % 4])
  {
    forall i | 0 <= i < |payload| ensures Masks(bs[n + i], payload[i], bs[n - 4 + i % 4]) {
      assert bs[n + i] == bs[n..][i];
      assert bs[n - 4 + i % 4] == bs[n - 4..n][i % 4];
      MasksByte(payload[i], mask[i % 4]);
    }
  }

  lemma LengthBytes(bs: Bytes)
    requires |bs| >= 4
    ensures FromBigEndian(bs[2..4]) == bs[2] as nat * 256 + bs[3]
  {
    TwoBytes(bs[2..4]);
  }

  lemma TwoBytes(bs: Bytes)
    requires |bs| == 2
    ensures FromBigEndian(bs) == bs[0] as nat * 256 + bs[1]
  {
    assert bs[..1] == [bs[0]] && bs[..1][..0] == [];
    assert FromBigEndian(bs[..1]) == bs[0];
  }

  lemma {:induction false} BitsDetermine(a: nat, b: nat, k: nat)
    requires a < PowerOf2(k) && b < PowerOf2(k) && forall j: nat :: j < k ==> Bit(a, j) == Bit(b, j)
    ensures a == b
  {
    if k == 0 {
    } else {
      assert Bit(a, 0) == Bit(b, 0);
      forall j: nat | j < k - 1 ensures Bit(a / 2, j) == Bit(b / 2, j) {
        assert Bit(a, j + 1) == Bit(b, j + 1);
      }
      BitsDetermine(a / 2, b / 2, k - 1);
    }
  }

  /** A byte whose bits are an exclusive or is the exclusive or. */
  lemma MasksOnly(x: Byte, b: Byte, m: Byte)
    requires Masks(x, b, m)
    ensures x == XorByte(b, m)
  {
    var y := XorByte(b, m);
    MasksByte(b, m);
    forall j: nat | j < 8 ensures Bit(x, j) == Bit(y, j) {
      var d := Worth(j);
      BitWorth(x, d);
      BitWorth(y, d);
    }
    PowerOf2Of8();
    BitsDetermine(x, y, 8);
  }

  function Worth(j: nat): (d: nat)
    ensures j < 8 ==> d in {1, 2, 4, 8, 16, 32, 64, 128} && Place(d) == j
  {
    if j == 0 then 1 else if j == 1 then 2 else if j == 2 then 4 else if j == 3 then 8
    else if j == 4 then 16 else if j == 5 then 32 else if j == 6 then 64 else 128
  }

  /** A whole frame from a peer, in any form, masked or not: n bytes of header, then the payload. */
  ghost predicate Arrived(bs: Bytes, n: nat, payload: Bytes) {
    var len := |payload|;
    && |bs| == n + len && n >= 2
    && (var m := if bs[1] >= 128 then n - 4 else n;
        if bs[1] % 128 == 126 then m == 4 && bs[2] as nat * 256 + bs[3] == len
        else if bs[1] % 128 == 127 then m == 10 && FromBigEndian(bs[2..10]) == len
        else m == 2 && bs[1] % 128 == len)
    && forall i :: 0 <= i < len ==>
         if bs[1] >= 128 then n >= 4 && Masks(bs[n + i], payload[i], bs[n - 4 + i % 4]) else bs[n + i] == payload[i]
  }

  /** Such a frame is read as its opcode and payload, whatever follows it. */
  lemma ReadsArrived(bs: Bytes, n: nat, payload: Bytes, tail: Bytes)
    requires Arrived(bs, n, payload) && |bs| < LIMIT_32
    ensures ParseFrame(bs + tail) == Got(Frame(bs[0] % 16, payload), |bs|)
  {
    if bs[1] % 128 == 126 {
      LengthBytes(bs);
    }
    ParsesAs(bs, n, |payload|);
    if Masked(bs[1]) {
      UnmasksPayload(bs, n, payload);
    } else {
      assert bs[n..n + |payload|] == payload;
    }
    ParseStable(bs, tail);
  }

  lemma UnmasksPayload(bs: Bytes, n: nat, payload: Bytes)
    requires n >= 4 && |bs| == n + |payload|
    requires forall i :: 0 <= i < |payload| ==> Masks(bs[n + i], payload[i], bs[n - 4 + i % 4])
    ensures Xor(bs[n..n + |payload|], bs[n - 4..n]) == payload
  {
    var raw, mask := bs[n..n + |payload|], bs[n - 4..n];
    forall i | 0 <= i < |payload| ensures Xor(raw, mask)[i] == payload[i] {
      assert raw[i] == bs[n + i] && mask[i % 4] == bs[n - 4 + i % 4];
      MasksOnly(raw[i], payload[i], mask[i % 4]);
      XorCancels(payload[i], mask[i % 4]);
    }
  }
}
