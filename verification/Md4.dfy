/** MD4 (RFC 1320) as loops over four registers, against the step function of section 3.4.  The
    loops are proved for any word operations, and then given those of MD4. */
module Md4 {
  import opened Bytes

  type Amount = s: nat | 0 < s < 32 witness 1

  /** The new value of a register, from its old value, the other three, a word of the block and a
      shift. */
  type Operation<!W> = (W, W, W, W, W, Amount) -> W

  /** What the algorithm does with words: one operation a round, addition, and reading one. */
  datatype Words<!W> = Words(
    op1: Operation<W>, op2: Operation<W>, op3: Operation<W>,
    plus: (W, W) -> W,
    read: (byte, byte, byte, byte) -> W)
  {
    function Op(r: Round): Operation<W> {
      match r case First => op1 case Second => op2 case Third => op3
    }
  }

  datatype Round = First | Second | Third

  datatype Registers<+W> = Registers(a: W, b: W, c: W, d: W)

  // --- The specification ----------------------------------------------------------------------

  /** Section 3.4: the shift amounts of a round, by position in a group of four. */
  function Shift(r: Round, i: nat): Amount {
    match r
    case First => if i == 0 then 3 else if i == 1 then 7 else if i == 2 then 11 else 19
    case Second => if i == 0 then 3 else if i == 1 then 5 else if i == 2 then 9 else 13
    case Third => if i == 0 then 3 else if i == 1 then 9 else if i == 2 then 11 else 15
  }

  /** The word a step reads: in order, by columns, and in bit-reversed order. */
  function WordIndex(r: Round, j: nat): (k: nat)
    requires j < 16
    ensures k < 16
  {
    match r
    case First => j
    case Second => j % 4 * 4 + j / 4
    case Third => j % 2 * 8 + j / 2 % 2 * 4 + j / 4 % 2 * 2 + j / 8
  }

  /** The one operation of section 3.4: the first register takes a new value, then the registers
      change roles, [abcd], [dabc], [cdab], [bcda]. */
  function Step<W>(w: Words<W>, r: Round, x: seq<W>, j: nat, s: Registers<W>): Registers<W>
    requires |x| == 16 && j < 16
  {
    Registers(s.d, w.Op(r)(s.a, s.b, s.c, s.d, x[WordIndex(r, j)], Shift(r, j % 4)), s.b, s.c)
  }

  /** The first `j` steps of a round. */
  function Steps<W>(w: Words<W>, r: Round, x: seq<W>, j: nat, s: Registers<W>): Registers<W>
    requires |x| == 16 && j <= 16
  {
    if j == 0 then s else Step(w, r, x, j - 1, Steps(w, r, x, j - 1, s))
  }

  function Compress<W>(w: Words<W>, s: Registers<W>, x: seq<W>): Registers<W>
    requires |x| == 16
  {
    var t := Steps(w, Third, x, |x|, Steps(w, Second, x, |x|, Steps(w, First, x, |x|, s)));
    Registers(w.plus(s.a, t.a), w.plus(s.b, t.b), w.plus(s.c, t.c), w.plus(s.d, t.d))
  }

  /** The sixteen words of 64 octets. */
  function WordsOf<W>(w: Words<W>, s: bytes): (x: seq<W>)
    requires |s| == 64
    ensures |x| == 16
  {
    seq(16, i requires 0 <= i < 16 => w.read(s[4 * i], s[4 * i + 1], s[4 * i + 2], s[4 * i + 3]))
  }

  /** The compression function folded over a string of whole blocks. */
  function Absorb<W>(w: Words<W>, s: Registers<W>, data: bytes): Registers<W>
    requires |data| % 64 == 0
    decreases |data|
  {
    if data == [] then s else Absorb(w, Compress(w, s, WordsOf(w, data[..64])), data[64..])
  }

  /** Little-endian forms (struct format <Q). */
  function LittleEndian(n: nat, width: nat): (r: bytes)
    requires n < Pow256(width)
    ensures |r| == width
  {
    if width == 0 then [] else [n % 256] + LittleEndian(n / 256, width - 1)
  }

  /** The bit length fits the 64-bit field. */
  predicate Representable(message: bytes) {
    |message| * 8 < Pow256(8)
  }

  /** The number of zero octets of the padding: the least that leaves 56 modulo 64. */
  function ZeroCount(n: nat): (z: nat)
    ensures z < 64 && (n + 1 + z) % 64 == 56
  {
    (119 - n % 64) % 64
  }

  function Padded(message: bytes): (r: bytes)
    requires Representable(message)
    ensures |r| % 64 == 0
  {
    PaddedLength(|message|);
    message + [0x80] + Zeros(ZeroCount(|message|)) + LittleEndian(|message| * 8, 8)
  }

  lemma PaddedLength(n: nat)
    ensures (n + 1 + ZeroCount(n) + 8) % 64 == 0
  {
    assert n + 1 + ZeroCount(n) + 8 == (n + 1 + ZeroCount(n)) + 8;
  }

  // --- Its properties -------------------------------------------------------------------------

  lemma {:induction false} LittleEndianInjective(m: nat, n: nat, width: nat)
    requires m < Pow256(width) && n < Pow256(width)
    requires LittleEndian(m, width) == LittleEndian(n, width)
    ensures m == n
  {
    if width > 0 {
      var u, v := LittleEndian(m, width), LittleEndian(n, width);
      assert u[0] == m % 256 && v[0] == n % 256;
      assert u[1..] == LittleEndian(m / 256, width - 1) && v[1..] == LittleEndian(n / 256, width - 1);
      LittleEndianInjective(m / 256, n / 256, width - 1);
    }
  }

  /** Two messages with the same padded form are the same. */
  lemma PaddingInjective(m: bytes, n: bytes)
    requires Representable(m) && Representable(n) && Padded(m) == Padded(n)
    ensures m == n
  {
    var p := Padded(m);
    assert p[|p| - 8..] == LittleEndian(|m| * 8, 8);
    assert p[|p| - 8..] == LittleEndian(|n| * 8, 8);
    LittleEndianInjective(|m| * 8, |n| * 8, 8);
    assert p[..|m|] == m && p[..|n|] == n;
  }

  /** The registers are the only memory between blocks. */
  lemma {:induction false} AbsorbAppend<W>(w: Words<W>, s: Registers<W>, a: bytes, b: bytes)
    requires |a| % 64 == 0 && |b| % 64 == 0
    ensures Absorb(w, s, a + b) == Absorb(w, Absorb(w, s, a), b)
    decreases |a|
  {
    if a == [] {
      assert a + b == b;
    } else {
      assert (a + b)[..64] == a[..64] && (a + b)[64..] == a[64..] + b;
      AbsorbAppend(w, Compress(w, s, WordsOf(w, a[..64])), a[64..], b);
    }
  }

  // --- The loops ------------------------------------------------------------------------------

  const ROUND1_S: seq<Amount> := [3, 7, 11, 19]
  const ROUND2_S: seq<Amount> := [3, 5, 9, 13]
  const ROUND3_S: seq<Amount> := [3, 9, 11, 15]
  const ROUND2_K: seq<nat> := [0, 4, 8, 12, 1, 5, 9, 13, 2, 6, 10, 14, 3, 7, 11, 15]
  const ROUND3_K: seq<nat> := [0, 8, 4, 12, 2, 10, 6, 14, 1, 9, 5, 13, 3, 11, 7, 15]

  ghost predicate ShiftTable(r: Round, shifts: seq<Amount>) {
    |shifts| == 4 && forall i :: 0 <= i < 4 ==> shifts[i] == Shift(r, i)
  }

  ghost predicate WordTable(r: Round, words: seq<nat>) {
    |words| == 16 && forall j :: 0 <= j < 16 ==> words[j] == WordIndex(r, j)
  }

  /** The code's tables are the schedules of section 3.4. */
  lemma Tables()
    ensures ShiftTable(First, ROUND1_S) && ShiftTable(Second, ROUND2_S) && ShiftTable(Third, ROUND3_S)
    ensures WordTable(Second, ROUND2_K) && WordTable(Third, ROUND3_K)
  {
    forall j | 0 <= j < 16 ensures ROUND2_K[j] == WordIndex(Second, j) {}
    forall j | 0 <= j < 16 ensures ROUND3_K[j] == WordIndex(Third, j) {}
  }

  /** The registers as the loop holds them, in the roles they have at a step, by its position in a
      group of four. */
  function Roles<W>(i: nat, s: Registers<W>): Registers<W> {
    if i == 0 then s
    else if i == 1 then Registers(s.d, s.a, s.b, s.c)
    else if i == 2 then Registers(s.c, s.d, s.a, s.b)
    else Registers(s.b, s.c, s.d, s.a)
  }

  lemma NextPosition(j: nat)
    ensures (j + 1) % 4 == if j % 4 == 3 then 0 else j % 4 + 1
  {
  }

  /** One round: sixteen updates, each of the register whose turn it is, with the given shift and
      word tables. */
  method RunRound<W>(w: Words<W>, r: Round, shifts: seq<Amount>, words: seq<nat>, x: seq<W>, s: Registers<W>)
    returns (t: Registers<W>)
    requires ShiftTable(r, shifts) && WordTable(r, words) && |x| == 16
    ensures t == Steps(w, r, x, |x|, s)
  {
    var a, b, c, d := s.a, s.b, s.c, s.d;
    for j := 0 to |x|
      invariant Roles(j % 4, Registers(a, b, c, d)) == Steps(w, r, x, j, s)
    {
      a, b, c, d := Update(w, r, x, j, words[j], shifts[j % 4], a, b, c, d);
      NextPosition(j);
    }
    t := Registers(a, b, c, d);
  }

  /** The body of the loop. */
  method Update<W>(w: Words<W>, r: Round, x: seq<W>, j: nat, k: nat, shift: Amount, a: W, b: W, c: W, d: W)
    returns (a': W, b': W, c': W, d': W)
    requires |x| == 16 && j < 16 && k == WordIndex(r, j) && shift == Shift(r, j % 4)
    ensures Roles(if j % 4 == 3 then 0 else j % 4 + 1, Registers(a', b', c', d')) ==
            Step(w, r, x, j, Roles(j % 4, Registers(a, b, c, d)))
  {
    a', b', c', d' := a, b, c, d;
    var op := w.Op(r);
    if j % 4 == 0 {
      a' := op(a, b, c, d, x[k], shift);
    } else if j % 4 == 1 {
      d' := op(d, a, b, c, x[k], shift);
    } else if j % 4 == 2 {
      c' := op(c, d, a, b, x[k], shift);
    } else {
      b' := op(b, c, d, a, x[k], shift);
    }
  }

  method RunBlock<W>(w: Words<W>, s: Registers<W>, x: seq<W>) returns (t: Registers<W>)
    requires |x| == 16
    ensures t == Compress(w, s, x)
  {
    Tables();
    var inOrder := seq(16, i requires 0 <= i < 16 => i);
    t := RunRound(w, First, ROUND1_S, inOrder, x, s);
    t := RunRound(w, Second, ROUND2_S, ROUND2_K, x, t);
    t := RunRound(w, Third, ROUND3_S, ROUND3_K, x, t);
    t := Registers(w.plus(s.a, t.a), w.plus(s.b, t.b), w.plus(s.c, t.c), w.plus(s.d, t.d));
  }

  method Unpack<W>(w: Words<W>, s: bytes) returns (x: seq<W>)
    requires |s| == 64
    ensures x == WordsOf(w, s)
  {
    x := [];
    for i := 0 to 16
      invariant x == WordsOf(w, s)[..i]
    {
      x := x + [w.read(s[4 * i], s[4 * i + 1], s[4 * i + 2], s[4 * i + 3])];
    }
  }

  /** The body of the block loop. */
  method AbsorbBlock<W>(w: Words<W>, s: Registers<W>, padded: bytes, offset: nat) returns (t: Registers<W>)
    requires |padded| % 64 == 0 && offset % 64 == 0 && offset < |padded|
    ensures offset + 64 <= |padded| && (offset + 64) % 64 == 0
    ensures AbsorbFrom(w, t, padded, offset + 64) == AbsorbFrom(w, s, padded, offset)
  {
    ghost var rest := padded[offset..];
    assert rest[..64] == padded[offset..offset + 64] && rest[64..] == padded[offset + 64..];
    var x := Unpack(w, padded[offset..offset + 64]);
    t := RunBlock(w, s, x);
  }

  function AbsorbFrom<W>(w: Words<W>, s: Registers<W>, padded: bytes, offset: nat): Registers<W>
    requires |padded| % 64 == 0 && offset % 64 == 0 && offset <= |padded|
  {
    Absorb(w, s, padded[offset..])
  }

  /** The block loop. */
  method AbsorbAll<W>(w: Words<W>, initial: Registers<W>, padded: bytes) returns (s: Registers<W>)
    requires |padded| % 64 == 0
    ensures s == AbsorbFrom(w, initial, padded, 0)
  {
    s := initial;
    var offset := 0;
    while offset < |padded|
      invariant 0 <= offset <= |padded| && offset % 64 == 0
      invariant AbsorbFrom(w, s, padded, offset) == AbsorbFrom(w, initial, padded, 0)
    {
      s := AbsorbBlock(w, s, padded, offset);
      offset := offset + 64;
    }
  }

  lemma Residue(x: nat, q: int, r: nat)
    requires x == 64 * q + r && r < 64
    ensures x * 8 % 512 == 8 * r
  {
    assert x * 8 == 512 * q + 8 * r;
  }

  lemma PadStops(n: nat, z: nat)
    requires z <= ZeroCount(n)
    ensures (n + 1 + z) * 8 % 512 == 448 <==> z == ZeroCount(n)
  {
    var full := n + 1 + ZeroCount(n);
    var q := full / 64;
    assert full == 64 * q + 56;
    var missing := ZeroCount(n) - z;
    if missing <= 56 {
      Residue(n + 1 + z, q, 56 - missing);
    } else {
      Residue(n + 1 + z, q - 1, 120 - missing);
    }
  }

  /** The padding loop. */
  method PadZeros(message: bytes) returns (padded: bytes)
    ensures padded == message + [0x80] + Zeros(ZeroCount(|message|))
  {
    padded := message + [0x80];
    ghost var n := 0;
    PadStops(|message|, n);
    while |padded| * 8 % 512 != 448
      invariant n <= ZeroCount(|message|) && padded == message + [0x80] + Zeros(n)
      invariant |padded| * 8 % 512 == 448 <==> n == ZeroCount(|message|)
      decreases ZeroCount(|message|) - n
    {
      padded := padded + [0x00];
      assert Zeros(n) + [0] == Zeros(n + 1);
      n := n + 1;
      PadStops(|message|, n);
    }
  }

  method Pad(message: bytes) returns (padded: bytes)
    requires Representable(message)
    ensures padded == Padded(message)
  {
    padded := PadZeros(message);
    padded := padded + LittleEndian(|message| * 8, 8);
  }

  // --- MD4 ------------------------------------------------------------------------------------

  function F(x: bv32, y: bv32, z: bv32): bv32 { (x & y) | (!x & z) }

  function G(x: bv32, y: bv32, z: bv32): bv32 { (x & y) | (x & z) | (y & z) }

  function H(x: bv32, y: bv32, z: bv32): bv32 { x ^ y ^ z }

  function Rotl(v: bv32, s: Amount): bv32 {
    (v << s) | (v >> (32 - s))
  }

  function Read(a: byte, b: byte, c: byte, d: byte): bv32 {
    var a: nat, b: nat, c: nat, d: nat := a, b, c, d;
    var n := a + 256 * b + 65536 * c + 16777216 * d;
    n as bv32
  }

  function Write(w: bv32): (r: bytes)
    ensures |r| == 4
  {
    var n := w as int;
    [n % 256, n / 256 % 256, n / 65536 % 256, n / 16777216 % 256]
  }

  const MD4_WORDS: Words<bv32> := Words(
    (p, q, r, s, w, n) => Rotl(p + F(q, r, s) + w, n),
    (p, q, r, s, w, n) => Rotl(p + G(q, r, s) + w + 0x5A827999, n),
    (p, q, r, s, w, n) => Rotl(p + H(q, r, s) + w + 0x6ED9EBA1, n),
    (x, y) => x + y,
    Read)

  const INITIAL: Registers<bv32> := Registers(0x67452301, 0xEFCDAB89, 0x98BADCFE, 0x10325476)

  function Output(s: Registers<bv32>): (r: bytes)
    ensures |r| == 16
  {
    Write(s.a) + Write(s.b) + Write(s.c) + Write(s.d)
  }

  function Digest(message: bytes): (r: bytes)
    requires Representable(message)
    ensures |r| == 16
  {
    Output(Absorb(MD4_WORDS, INITIAL, Padded(message)))
  }

  /** `md4`: fails when the length does not fit its field (struct.error). */
  method Hash(message: bytes) returns (ok: bool, digest: bytes)
    ensures ok <==> Representable(message)
    ensures ok ==> digest == Digest(message)
  {
    if !Representable(message) { return false, []; }
    var padded := Pad(message);
    var s := AbsorbAll(MD4_WORDS, INITIAL, padded);
    assert padded[0..] == padded;
    return true, Output(s);
  }
}
