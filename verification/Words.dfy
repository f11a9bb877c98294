/** Machine words: bytes, `size_t` arithmetic, the 32-bit request word of include/server_message.h
    and the little-endian form in which words travel over the socket. */
module Words {

  type Byte = b: int | 0 <= b < 0x100

  const SIZE_MOD: nat := 0x1_0000_0000_0000_0000   // one more than the largest size_t
  const UINT_MOD: nat := 0x1_0000_0000             // one more than the largest unsigned int

  // The value of an integer expression computed in size_t.
  function SizeT(x: int): (r: nat)
    ensures r < SIZE_MOD
    ensures 0 <= x < SIZE_MOD ==> r == x
  {
    x % SIZE_MOD
  }

  // Where the wrap-around happens makes no difference to the result.
  lemma SizeTAdd(x: int, y: int)
    ensures SizeT(SizeT(x) + y) == SizeT(x + y)
  {
  }

  // The value of an integer expression computed in unsigned int.
  function UInt(x: int): (r: nat)
    ensures r < UINT_MOD
    ensures 0 <= x < UINT_MOD ==> r == x
  {
    x % UINT_MOD
  }

  // ------------------------------------------------------------------- words on the wire

  const WORD_BYTES: nat := 4   // sizeof(s_message)
  const SIZE_BYTES: nat := 8   // sizeof(size_t)

  lemma Regroup(a: seq<Byte>, b: seq<Byte>, c: seq<Byte>, d: seq<Byte>)
    ensures a + b + c + d == a + (b + (c + d))
  {
  }

  // The w low bytes of n, lowest first.
  function Encode(n: nat, w: nat): (r: seq<Byte>)
    ensures |r| == w
  {
    if w == 0 then [] else [n % 0x100] + Encode(n / 0x100, w - 1)
  }

  function Decode(s: seq<Byte>): nat {
    if s == [] then 0 else s[0] + 0x100 * Decode(s[1..])
  }

  function Power256(w: nat): (r: nat)
    ensures r > 0
  {
    if w == 0 then 1 else 0x100 * Power256(w - 1)
  }

  // The bytes are those of the number, the lowest first.
  lemma {:induction false} EncodeIsLittleEndian(n: nat, w: nat, i: nat)
    requires i < w
    ensures Encode(n, w)[i] == n / Power256(i) % 0x100
    decreases w
  {
    if i > 0 {
      EncodeIsLittleEndian(n / 0x100, w - 1, i - 1);
      DivDiv(n, Power256(i - 1));
    }
  }

  lemma DivDiv(n: nat, m: nat)
    requires m > 0
    ensures n / 0x100 / m == n / (0x100 * m)
  {
    var a := n / 0x100;
    var q := a / m;
    assert n == 0x100 * (m * q + a % m) + n % 0x100;
    assert n == (0x100 * m) * q + (0x100 * (a % m) + n % 0x100);
    QuotientIs(n, 0x100 * m, q, 0x100 * (a % m) + n % 0x100);
  }

  lemma QuotientIs(n: nat, d: nat, q: nat, r: nat)
    requires d > 0 && r < d && n == d * q + r
    ensures n / d == q
  {
    var p := n / d;
    assert d * p <= n < d * (p + 1);
    TimesMonotone(d, p + 1, q);
    TimesMonotone(d, q + 1, p);
  }

  lemma TimesMonotone(d: nat, x: nat, y: nat)
    ensures x <= y ==> d * x <= d * y
  {
  }

  // A number that fits survives the trip.
  lemma {:induction false} DecodeEncode(n: nat, w: nat)
    requires n < Power256(w)
    ensures Decode(Encode(n, w)) == n
  {
    if w == 0 {
    } else {
      DecodeEncode(n / 0x100, w - 1);
      assert Encode(n, w)[1..] == Encode(n / 0x100, w - 1);
    }
  }

  lemma TimesAssociative(x: nat, y: nat, z: nat)
    ensures x * (y * z) == (x * y) * z
  {
  }

  lemma {:induction false} DecodeConcat(a: seq<Byte>, b: seq<Byte>)
    ensures Decode(a + b) == Decode(a) + Power256(|a|) * Decode(b)
  {
    if a == [] {
      assert a + b == b;
    } else {
      assert (a + b)[0] == a[0] && (a + b)[1..] == a[1..] + b;
      DecodeConcat(a[1..], b);
      TimesAssociative(0x100, Power256(|a| - 1), Decode(b));
    }
  }

  lemma {:induction false} EncodePrefix(n: nat, w: nat, v: nat)
    requires v <= w
    ensures Encode(n, w)[..v] == Encode(n, v)
  {
    if v > 0 {
      EncodePrefix(n / 0x100, w - 1, v - 1);
      assert Encode(n, w)[..v] == [n % 0x100] + Encode(n / 0x100, w - 1)[..v - 1];
    }
  }

  function EncodeWord(n: nat): (r: seq<Byte>)
    ensures |r| == WORD_BYTES
  {
    Encode(n, WORD_BYTES)
  }

  function EncodeSize(n: nat): (r: seq<Byte>)
    ensures |r| == SIZE_BYTES
  {
    Encode(n, SIZE_BYTES)
  }

  lemma DecodeWord(n: nat)
    requires n < UINT_MOD
    ensures Decode(EncodeWord(n)) == n
  {
    assert Power256(4) == UINT_MOD;
    DecodeEncode(n, WORD_BYTES);
  }

  lemma DecodeSize(n: nat)
    requires n < SIZE_MOD
    ensures Decode(EncodeSize(n)) == n
  {
    assert Power256(4) == UINT_MOD;
    assert Power256(8) == 0x1_0000_0000 * Power256(4);
    DecodeEncode(n, SIZE_BYTES);
  }

  // -------------------------------------------------------------------- the request word

  const SAPI_SUCCESS: nat := 0x00
  const SAPI_FAILURE: nat := 0x01
  const SAPI_EVICT: nat := 0x02
  const SAPI_FNF: nat := 0x03
  const SAPI_LOCKED: nat := 0x04
  const SAPI_ALREADY: nat := 0x06

  const O_CREATE: nat := 0x01
  const O_LOCK: nat := 0x02

  const SAPI_OPENFILE: nat := 0x0C
  const SAPI_READFILE: nat := 0x10
  const SAPI_READNFILES: nat := 0x14
  const SAPI_WRITEFILE: nat := 0x18
  const SAPI_APPENDFILE: nat := 0x1C
  const SAPI_LOCKFILE: nat := 0x20
  const SAPI_UNLOCKFILE: nat := 0x24
  const SAPI_CLOSEFILE: nat := 0x28
  const SAPI_REMOVEFILE: nat := 0x2C

  // The bitwise or of two unsigned numbers.
  function Or(a: nat, b: nat): nat
    decreases a + b
  {
    if a == 0 && b == 0 then 0
    else (if a % 2 == 1 || b % 2 == 1 then 1 else 0) + 2 * Or(a / 2, b / 2)
  }

  // Every bit of a is a bit of b.
  predicate Within(a: nat, b: nat) {
    a == 0 || (a % 2 <= b % 2 && Within(a / 2, b / 2))
  }

  function Power2(w: nat): (r: nat)
    ensures r > 0
  {
    if w == 0 then 1 else 2 * Power2(w - 1)
  }

  lemma {:induction false} OrBound(a: nat, b: nat, w: nat)
    requires a < Power2(w) && b < Power2(w)
    ensures Or(a, b) < Power2(w)
  {
    if w > 0 {
      OrBound(a / 2, b / 2, w - 1);
    }
  }

  lemma {:induction false} OrAbsorbs(a: nat, b: nat)
    ensures Or(a, b) == b <==> Within(a, b)
    decreases a + b
  {
    if a > 0 {
      OrAbsorbs(a / 2, b / 2);
    } else if b > 0 {
      OrAbsorbs(0, b / 2);
    }
  }

  lemma Halves(x: nat)
    ensures x / 2 / 2 == x / 4 && x % 4 == x % 2 + 2 * (x / 2 % 2)
  {
  }

  // The two low bits and the others do not mix.
  lemma OrFields(flags: nat, op: nat)
    requires op % 4 == 0
    ensures Or(flags, op) == 4 * Or(flags / 4, op / 4) + flags % 4
  {
    hide Or;
    Halves(flags);
    Halves(op);
    OrUnfold(flags, op);
    OrUnfold(flags / 2, op / 2);
  }

  lemma OrUnfold(a: nat, b: nat)
    ensures Or(a, b) == (if a % 2 == 1 || b % 2 == 1 then 1 else 0) + 2 * Or(a / 2, b / 2)
  {
  }

  // The low byte of a request word.
  function LowByte(flags: Byte, op: Byte): (r: Byte) {
    assert Power2(4) == 16 && Power2(8) == 16 * Power2(4);
    OrBound(flags, op, 8);
    Or(flags, op)
  }

  // SAPI_MESSAGE_LEN. The flag byte is not masked before it is joined with the operation; the
  // shift drops the bits of the length that do not fit in an unsigned int.
  function MessageLen(flags: Byte, op: Byte, len: nat): (r: nat)
    ensures r < UINT_MOD
  {
    WordParts(len);
    LowByte(flags, op) + UInt(len * 0x100)
  }

  lemma WordParts(len: nat)
    ensures UInt(len * 0x100) == len % 0x100_0000 * 0x100
  {
  }

  function MessageOp(message: nat): nat { message % 0x100 / 4 * 4 }   // & SAPI_OPMASK
  function MessageFlags(message: nat): nat { message % 4 }            // & SAPI_FLAGMASK
  function MessageSize(message: nat): nat { message / 0x100 }         // >> SAPI_MSSLEN_SHFT

  predicate HasFlag(word: nat, flag: nat)
    requires flag > 0
  {
    word / flag % 2 == 1
  }

  // The fields of a word that is 4 * q + flags in its low byte.
  lemma FieldsOf(flags: nat, q: nat, k: nat)
    requires flags < 4 && q < 0x40
    ensures var w := 4 * q + flags + k * 0x100;
            MessageOp(w) == 4 * q && MessageFlags(w) == flags && MessageSize(w) == k
  {
    Div256(k, 4 * q + flags);
    Div4(q, flags);
    Div4(q + 0x40 * k, flags);
  }

  lemma Div4(q: nat, r: nat)
    requires r < 4
    ensures (4 * q + r) / 4 == q && (4 * q + r) % 4 == r
  {
  }

  lemma Div256(q: nat, r: nat)
    requires r < 0x100
    ensures (r + q * 0x100) / 0x100 == q && (r + q * 0x100) % 0x100 == r
  {
  }

  lemma MessageFields(flags: Byte, op: Byte, len: nat)
    requires op % 4 == 0
    ensures var w := MessageLen(flags, op, len);
            && MessageOp(w) == 4 * Or(flags / 4, op / 4)
            && MessageFlags(w) == flags % 4 && MessageSize(w) == len % 0x100_0000
  {
    hide UInt, Or;
    var q := Or(flags / 4, op / 4);
    OrFields(flags, op);
    assert LowByte(flags, op) == 4 * q + flags % 4;
    WordParts(len);
    FieldsOf(flags % 4, q, len % 0x100_0000);
  }

  // The flags are the two low bits.
  lemma FlagBits(w: nat)
    ensures HasFlag(w, O_CREATE) <==> MessageFlags(w) == 1 || MessageFlags(w) == 3
    ensures HasFlag(w, O_LOCK) <==> MessageFlags(w) == 2 || MessageFlags(w) == 3
  {
    assert w == 4 * (w / 4) + w % 4;
    assert w / 2 == 2 * (w / 4) + w % 4 / 2;
  }

  /** What the server reads back of a request: always the two low bits of the flag byte, the
      operation exactly when the other bits of the flag byte are bits of the operation already, and
      the length exactly when it fits in the 24 bits that the word has for it. */
  lemma RequestWordRoundTrip(flags: Byte, op: Byte, len: nat)
    requires op % 4 == 0
    ensures MessageFlags(MessageLen(flags, op, len)) == flags % 4
    ensures MessageOp(MessageLen(flags, op, len)) == op <==> Within(flags / 4, op / 4)
    ensures MessageSize(MessageLen(flags, op, len)) == len <==> len < 0x100_0000
  {
    hide MessageLen, MessageOp, MessageFlags, MessageSize, Or;
    MessageFields(flags, op, len);
    OrAbsorbs(flags / 4, op / 4);
  }
}
