/** The chained MD5 keystream ciphers: User-Password hiding and salt encryption. */
module Ciphers {
  import opened Wrappers
  import opened Bytes

  type Digest = bytes -> bytes

  ghost predicate SixteenWide(md5: Digest) {
    forall m :: |md5(m)| == 16
  }

  function Pow2(n: nat): nat {
    if n == 0 then 1 else 2 * Pow2(n - 1)
  }

  /** Exclusive-or of the low `n` bits. */
  function XorBits(a: nat, b: nat, n: nat): (r: nat)
    ensures r < Pow2(n)
  {
    if n == 0 then 0
    else 2 * XorBits(a / 2, b / 2, n - 1) + (if a % 2 == b % 2 then 0 else 1)
  }

  lemma EightBits()
    ensures Pow2(8) == 256
  {
    assert Pow2(6) == 64;
  }

  function XorOctet(a: byte, b: byte): byte {
    EightBits();
    XorBits(a, b, 8)
  }

  function Xor(a: bytes, b: bytes): (r: bytes)
    requires |a| == |b|
    ensures |r| == |a|
  {
    seq(|a|, i requires 0 <= i < |a| => XorOctet(a[i], b[i]))
  }

  lemma {:induction false} XorBitsTwice(k: nat, b: nat, n: nat)
    requires b < Pow2(n)
    ensures XorBits(k, XorBits(k, b, n), n) == b
  {
    if n > 0 {
      XorBitsTwice(k / 2, b / 2, n - 1);
      assert XorBits(k, b, n) / 2 == XorBits(k / 2, b / 2, n - 1);
    }
  }

  lemma {:induction false} XorBitsConstant(b: nat, n: nat)
    requires b < Pow2(n)
    ensures XorBits(0, b, n) == b && XorBits(Pow2(n) - 1, b, n) == Pow2(n) - 1 - b
  {
    if n > 0 {
      XorBitsConstant(b / 2, n - 1);
      assert (Pow2(n) - 1) / 2 == Pow2(n - 1) - 1;
    }
  }

  lemma XorTwice(key: bytes, b: bytes)
    requires |key| == |b|
    ensures Xor(key, Xor(key, b)) == b
  {
    EightBits();
    forall i | 0 <= i < |b| ensures XorOctet(key[i], XorOctet(key[i], b[i])) == b[i] {
      XorBitsTwice(key[i], b[i], 8);
    }
  }

  /** `_md5_keystream_xor`.  The exclusive-or is taken on integers, so a block shorter than
      sixteen octets counts as one with leading zeros. */
  function Keystream(md5: Digest, secret: bytes, prev: bytes, block: bytes): (r: bytes)
    requires SixteenWide(md5) && |block| <= 16
    ensures |r| == 16
  {
    Xor(md5(secret + prev), Zeros(16 - |block|) + block)
  }

  lemma KeystreamWhole(md5: Digest, secret: bytes, prev: bytes, block: bytes)
    requires SixteenWide(md5) && |block| == 16
    ensures Keystream(md5, secret, prev, block) == Xor(md5(secret + prev), block)
    ensures Keystream(md5, secret, prev, Keystream(md5, secret, prev, block)) == block
  {
    assert Zeros(0) + block == block;
    var c := Keystream(md5, secret, prev, block);
    assert Zeros(0) + c == c;
    XorTwice(md5(secret + prev), block);
  }

  function First(data: bytes): bytes {
    if |data| <= 16 then data else data[..16]
  }

  function Rest(data: bytes): bytes {
    if |data| <= 16 then [] else data[16..]
  }

  /** Zero octets up to a multiple of sixteen. */
  function Padded(data: bytes): (r: bytes)
    ensures |r| % 16 == 0 && |data| <= |r| < |data| + 16
    ensures r[..|data|] == data
  {
    if |data| % 16 == 0 then data else data + Zeros(16 - |data| % 16)
  }

  /** Each block is chained on the previous OUTPUT block: section 5.2 of RFC 2865 and section 3.5
      of RFC 2868 when encrypting. */
  function ChainOutput(md5: Digest, secret: bytes, last: bytes, data: bytes): bytes
    requires SixteenWide(md5)
    decreases |data|
  {
    if data == [] then []
    else
      var block := Keystream(md5, secret, last, First(data));
      block + ChainOutput(md5, secret, block, Rest(data))
  }

  /** Each block is chained on the previous INPUT block: the inverse of encryption. */
  function ChainInput(md5: Digest, secret: bytes, last: bytes, data: bytes): bytes
    requires SixteenWide(md5)
    decreases |data|
  {
    if data == [] then []
    else Keystream(md5, secret, last, First(data)) + ChainInput(md5, secret, First(data), Rest(data))
  }

  /** Chaining on the ciphertext in both directions recovers any whole number of blocks. */
  lemma {:induction false} ChainInverse(md5: Digest, secret: bytes, last: bytes, data: bytes)
    requires SixteenWide(md5) && |data| % 16 == 0
    ensures |ChainOutput(md5, secret, last, data)| == |data|
    ensures ChainInput(md5, secret, last, ChainOutput(md5, secret, last, data)) == data
    decreases |data|
  {
    if data != [] {
      assert |data| >= 16;
      var c := Keystream(md5, secret, last, First(data));
      var tail := ChainOutput(md5, secret, c, Rest(data));
      assert First(data) == data[..16] && Rest(data) == data[16..];
      ChainInverse(md5, secret, c, Rest(data));
      KeystreamWhole(md5, secret, last, First(data));
      assert First(c + tail) == c && Rest(c + tail) == tail;
    }
  }

  // --- User-Password ------------------------------------------------------------------------

  function HiddenPassword(md5: Digest, secret: bytes, authenticator: bytes, password: bytes): bytes
    requires SixteenWide(md5)
  {
    ChainOutput(md5, secret, authenticator, Padded(password))
  }

  function StripZeros(data: bytes): bytes {
    if data != [] && data[|data| - 1] == 0 then StripZeros(data[..|data| - 1]) else data
  }

  /** `pw_decrypt` up to the conversion of octets to text. */
  function ShownPassword(md5: Digest, secret: bytes, authenticator: bytes, hidden: bytes): bytes
    requires SixteenWide(md5)
  {
    StripZeros(ChainInput(md5, secret, authenticator, hidden))
  }

  predicate EndsInZero(data: bytes) {
    data != [] && data[|data| - 1] == 0
  }

  lemma {:induction false} StripPadding(data: bytes, n: nat)
    ensures StripZeros(data + Zeros(n)) == StripZeros(data)
  {
    var all := data + Zeros(n);
    if n == 0 {
      assert all == data;
    } else {
      assert all[..|all| - 1] == data + Zeros(n - 1);
      StripPadding(data, n - 1);
    }
  }

  lemma {:induction false} StripShortens(data: bytes)
    ensures |StripZeros(data)| <= |data|
    ensures EndsInZero(data) ==> |StripZeros(data)| < |data|
  {
    if EndsInZero(data) { StripShortens(data[..|data| - 1]); }
  }

  /** Decrypting gives the password without its trailing zero octets, so it gives the password
      exactly when there are none. */
  lemma PasswordRoundTrip(md5: Digest, secret: bytes, authenticator: bytes, password: bytes)
    requires SixteenWide(md5)
    ensures ShownPassword(md5, secret, authenticator, HiddenPassword(md5, secret, authenticator, password)) ==
            StripZeros(password)
    ensures ShownPassword(md5, secret, authenticator, HiddenPassword(md5, secret, authenticator, password)) == password
            <==> !EndsInZero(password)
  {
    ChainInverse(md5, secret, authenticator, Padded(password));
    StripPadding(password, if |password| % 16 == 0 then 0 else 16 - |password| % 16);
    assert password + Zeros(0) == password;
    StripShortens(password);
  }

  // --- Salt encryption ----------------------------------------------------------------------

  /** Length octet, value, zero padding. */
  function SaltBlocks(value: bytes): (r: bytes)
    requires |value| <= 255
    ensures |r| % 16 == 0 && |r| >= |value| + 1
    ensures r[0] == |value| && r[1..|value| + 1] == value
  {
    var prefixed := [|value|] + value;
    assert Padded(prefixed)[..|prefixed|] == prefixed;
    assert prefixed[1..] == value;
    Padded(prefixed)
  }

  function SaltEncrypted(md5: Digest, secret: bytes, authenticator: bytes, salt: bytes, value: bytes): Option<bytes>
    requires SixteenWide(md5) && |salt| == 2
  {
    if |value| > 255 then None
    else Some(salt + ChainOutput(md5, secret, authenticator + salt, SaltBlocks(value)))
  }

  /** Length-prefixed value out of decrypted blocks; None is the index error on empty input. */
  function Unprefixed(plain: bytes): Option<bytes> {
    if plain == [] then None
    else
      var length: nat := plain[0];
      var end := length + 1;
      Some(plain[1..if end <= |plain| then end else |plain|])
  }

  /** `salt_decrypt`, which runs the encryption routine: it chains on its own output. */
  function SaltDecrypted(md5: Digest, secret: bytes, authenticator: bytes, hidden: bytes): Option<bytes>
    requires SixteenWide(md5)
  {
    var salt := if |hidden| <= 2 then hidden else hidden[..2];
    var body := if |hidden| <= 2 then [] else hidden[2..];
    Unprefixed(ChainOutput(md5, secret, authenticator + salt, body))
  }

  /** Decryption as section 3.5 of RFC 2868 defines it. */
  function StandardDecrypt(md5: Digest, secret: bytes, authenticator: bytes, hidden: bytes): Option<bytes>
    requires SixteenWide(md5) && |hidden| >= 2
  {
    Unprefixed(ChainInput(md5, secret, authenticator + hidden[..2], hidden[2..]))
  }

  lemma UnprefixedBlocks(value: bytes)
    requires |value| <= 255
    ensures Unprefixed(SaltBlocks(value)) == Some(value)
  {
    var plain := SaltBlocks(value);
  }

  /** What `salt_crypt` produces is the standard's ciphertext for every value it accepts: a
      standard receiver recovers the value. */
  lemma SaltCryptStandard(md5: Digest, secret: bytes, authenticator: bytes, salt: bytes, value: bytes)
    requires SixteenWide(md5) && |salt| == 2
    ensures SaltEncrypted(md5, secret, authenticator, salt, value).Some? <==> |value| <= 255
    ensures |value| <= 255 ==>
              var hidden := SaltEncrypted(md5, secret, authenticator, salt, value).value;
              |hidden| >= 2 && StandardDecrypt(md5, secret, authenticator, hidden) == Some(value)
  {
    if |value| <= 255 {
      var body := ChainOutput(md5, secret, authenticator + salt, SaltBlocks(value));
      assert (salt + body)[..2] == salt && (salt + body)[2..] == body;
      ChainInverse(md5, secret, authenticator + salt, SaltBlocks(value));
      UnprefixedBlocks(value);
    }
  }

  ghost predicate OwnRoundTrip(md5: Digest, secret: bytes, authenticator: bytes, salt: bytes, value: bytes)
    requires SixteenWide(md5) && |salt| == 2 && |value| <= 255
  {
    SaltDecrypted(md5, secret, authenticator, SaltEncrypted(md5, secret, authenticator, salt, value).value) ==
    Some(value)
  }

  ghost predicate Recovers(md5: Digest, secret: bytes, authenticator: bytes, salt: bytes, value: bytes)
    requires |salt| == 2 && |value| <= 255
  {
    SixteenWide(md5) ==> OwnRoundTrip(md5, secret, authenticator, salt, value)
  }

  lemma OneBlock(md5: Digest, secret: bytes, last: bytes, data: bytes)
    requires SixteenWide(md5) && |data| == 16
    ensures ChainOutput(md5, secret, last, data) == Keystream(md5, secret, last, data)
  {
    var block := Keystream(md5, secret, last, First(data));
    assert block + ChainOutput(md5, secret, block, []) == block;
  }

  /** One block: input chaining and output chaining coincide. */
  lemma ShortValue(md5: Digest, secret: bytes, authenticator: bytes, salt: bytes, value: bytes)
    requires SixteenWide(md5) && |salt| == 2 && |value| <= 15
    ensures OwnRoundTrip(md5, secret, authenticator, salt, value)
  {
    var plain := SaltBlocks(value);
    var last := authenticator + salt;
    assert |plain| == 16;
    var c := Keystream(md5, secret, last, plain);
    OneBlock(md5, secret, last, plain);
    assert (salt + c)[..2] == salt && (salt + c)[2..] == c;
    KeystreamWhole(md5, secret, last, plain);
    OneBlock(md5, secret, last, c);
    assert SaltEncrypted(md5, secret, authenticator, salt, value) == Some(salt + c);
    assert SaltDecrypted(md5, secret, authenticator, salt + c) == Unprefixed(plain);
    UnprefixedBlocks(value);
  }

  const ONES: bytes := seq(16, i => 255)

  /** A digest that tells the first plaintext block from everything else. */
  function Telling(mark: bytes): Digest {
    m => if m == mark then Zeros(16) else ONES
  }

  lemma FirstTwo(md5: Digest, secret: bytes, last: bytes, data: bytes) returns (b1: bytes, b2: bytes, tail: bytes)
    requires SixteenWide(md5) && |data| >= 32
    ensures b1 == Keystream(md5, secret, last, data[..16]) && b2 == Keystream(md5, secret, b1, data[16..32])
    ensures ChainOutput(md5, secret, last, data) == b1 + b2 + tail
  {
    b1 := Keystream(md5, secret, last, data[..16]);
    b2 := Keystream(md5, secret, b1, data[16..32]);
    var rest := data[16..];
    assert First(data) == data[..16] && Rest(data) == rest && First(rest) == data[16..32];
    tail := ChainOutput(md5, secret, b2, Rest(rest));
    assert ChainOutput(md5, secret, b1, rest) == b2 + tail;
    assert b1 + (b2 + tail) == b1 + b2 + tail;
  }

  lemma HeadOctet(md5: Digest, secret: bytes, prev: bytes, block: bytes)
    requires SixteenWide(md5) && |block| == 16
    requires md5(secret + prev) == ONES || md5(secret + prev) == Zeros(16)
    ensures Keystream(md5, secret, prev, block)[0] ==
            if md5(secret + prev) == ONES then 255 - block[0] else block[0]
  {
    KeystreamWhole(md5, secret, prev, block);
    FlippedOctet(block[0]);
    assert ONES[0] == 255 && Zeros(16)[0] == 0;
  }

  lemma Tells(secret: bytes, p1: bytes, other: bytes)
    requires other != p1
    ensures SixteenWide(Telling(secret + p1))
    ensures Telling(secret + p1)(secret + p1) == Zeros(16) && Telling(secret + p1)(secret + other) == ONES
  {
    assert (secret + other)[|secret|..] == other && (secret + p1)[|secret|..] == p1;
  }

  lemma FirstBlockFlipped(secret: bytes, last: bytes, p1: bytes)
    requires |last| != 16 && |p1| == 16
    ensures SixteenWide(Telling(secret + p1))
    ensures var c1 := Keystream(Telling(secret + p1), secret, last, p1);
            c1 != p1 && Keystream(Telling(secret + p1), secret, last, c1) == p1
  {
    var md5 := Telling(secret + p1);
    Tells(secret, p1, last);
    HeadOctet(md5, secret, last, p1);
    KeystreamWhole(md5, secret, last, p1);
  }

  lemma SecondBlockFlipped(md5: Digest, secret: bytes, p1: bytes, c1: bytes, p2: bytes)
    requires SixteenWide(md5) && |p2| == 16
    requires md5(secret + p1) == Zeros(16) && md5(secret + c1) == ONES
    ensures Keystream(md5, secret, p1, Keystream(md5, secret, c1, p2))[0] != p2[0]
  {
    var c2 := Keystream(md5, secret, c1, p2);
    HeadOctet(md5, secret, c1, p2);
    HeadOctet(md5, secret, p1, c2);
    assert Zeros(16)[0] != ONES[0];
  }

  /** Two blocks encrypted properly, the second decrypted with the first block's plaintext. */
  lemma WrongKey(secret: bytes, last: bytes, p1: bytes, p2: bytes)
    requires |last| != 16 && |p1| == |p2| == 16
    ensures SixteenWide(Telling(secret + p1))
    ensures var md5 := Telling(secret + p1);
            var c1 := Keystream(md5, secret, last, p1);
            var c2 := Keystream(md5, secret, c1, p2);
            Keystream(md5, secret, last, c1) == p1 && Keystream(md5, secret, p1, c2)[0] != p2[0]
  {
    FirstBlockFlipped(secret, last, p1);
    var md5 := Telling(secret + p1);
    var c1 := Keystream(md5, secret, last, p1);
    Tells(secret, p1, c1);
    SecondBlockFlipped(md5, secret, p1, c1, p2);
  }

  /** The first octet of the second block comes back flipped. */
  lemma SecondBlockWrong(secret: bytes, last: bytes, plain: bytes)
    requires |last| != 16 && |plain| >= 32 && |plain| % 16 == 0
    ensures var md5 := Telling(secret + plain[..16]);
            var back := ChainOutput(md5, secret, last, ChainOutput(md5, secret, last, plain));
            |back| > 16 && back[0] == plain[0] && back[16] != plain[16]
  {
    var md5 := Telling(secret + plain[..16]);
    var c1, c2, t := FirstTwo(md5, secret, last, plain);
    var body := c1 + c2 + t;
    assert body[..16] == c1 && body[16..32] == c2;
    var b1, b2, t' := FirstTwo(md5, secret, last, body);
    WrongKey(secret, last, plain[..16], plain[16..32]);
    assert (b1 + b2 + t')[16] == b2[0];
  }

  /** With two blocks or more the second is decrypted with the wrong key, and for some digest
      function the value read back differs. */
  lemma LongValueFails(secret: bytes, authenticator: bytes, salt: bytes, value: bytes)
    requires |authenticator| == 16 && |salt| == 2 && 16 <= |value| <= 255
    ensures exists md5: Digest :: !Recovers(md5, secret, authenticator, salt, value)
  {
    var plain := SaltBlocks(value);
    var md5 := Telling(secret + plain[..16]);
    var last := authenticator + salt;
    SecondBlockWrong(secret, last, plain);
    var body := ChainOutput(md5, secret, last, plain);
    assert plain[1..|value| + 1][15] == plain[16];
    LongReadsWrong(ChainOutput(md5, secret, last, body), value, plain);
    assert (salt + body)[..2] == salt && (salt + body)[2..] == body;
    assert !Recovers(md5, secret, authenticator, salt, value);
  }

  lemma FlippedOctet(b: byte)
    ensures XorOctet(255, b) == 255 - b && XorOctet(0, b) == b
  {
    EightBits();
    XorBitsConstant(b, 8);
  }

  lemma LongReadsWrong(back: bytes, value: bytes, plain: bytes)
    requires 16 <= |value| <= 255 && |back| > 16 && |plain| > 16
    requires back[0] == |value| && back[16] != value[15]
    ensures Unprefixed(back) != Some(value)
  {
    var r := Unprefixed(back).value;
    if |back| >= |value| + 1 {
      assert r[15] == back[16];
    } else {
      assert r == back[1..];
    }
  }

  /** The code's own decryption undoes its encryption for every digest function exactly when
      the value fits the first block. */
  lemma SaltOwnExactly(secret: bytes, authenticator: bytes, salt: bytes, value: bytes)
    requires |authenticator| == 16 && |salt| == 2 && |value| <= 255
    ensures (forall md5: Digest :: Recovers(md5, secret, authenticator, salt, value)) <==> |value| <= 15
  {
    if |value| <= 15 {
      forall md5: Digest ensures Recovers(md5, secret, authenticator, salt, value) {
        if SixteenWide(md5) { ShortValue(md5, secret, authenticator, salt, value); }
      }
    } else {
      LongValueFails(secret, authenticator, salt, value);
    }
  }

  // --- The packet's methods -----------------------------------------------------------------

  /** The part of a packet the ciphers use.  Random values are arguments. */
  class Obfuscator {
    const secret: bytes
    const v11: bool
    var authenticator: Option<bytes>
    var requestAuthenticator: Option<bytes>

    constructor (secret: bytes, v11: bool, authenticator: Option<bytes>, requestAuthenticator: Option<bytes>)
      ensures this.secret == secret && this.v11 == v11
      ensures this.authenticator == authenticator && this.requestAuthenticator == requestAuthenticator
    {
      this.secret, this.v11 := secret, v11;
      this.authenticator, this.requestAuthenticator := authenticator, requestAuthenticator;
    }

    /** `pw_crypt`; `nonce` becomes the authenticator when there is none. */
    method PwCrypt(md5: Digest, nonce: bytes, password: bytes) returns (out: bytes)
      requires SixteenWide(md5)
      modifies this`authenticator
      ensures v11 ==> out == password && authenticator == old(authenticator)
      ensures !v11 ==> authenticator == Some(if old(authenticator).Some? then old(authenticator).value else nonce)
      ensures !v11 ==> out == HiddenPassword(md5, secret, authenticator.value, password)
    {
      if v11 { return password; }
      if authenticator.None? { authenticator := Some(nonce); }
      var buf := password;
      if |password| % 16 != 0 {
        buf := buf + Zeros(16 - |password| % 16);
      }
      out := ChainBlocks(md5, authenticator.value, buf);
    }

    /** The loop of `pw_crypt` and of `_salt_en_decrypt`: sixteen octets at a time, each block
        chained on the previous output. */
    method ChainBlocks(md5: Digest, start: bytes, data: bytes) returns (out: bytes)
      requires SixteenWide(md5)
      ensures out == ChainOutput(md5, secret, start, data)
    {
      var last := start;
      out := [];
      var offset := 0;
      while offset < |data|
        invariant 0 <= offset
        invariant out + ChainOutput(md5, secret, last, Tail(data, offset)) == ChainOutput(md5, secret, start, data)
      {
        TailSplits(data, offset);
        ChainOutputStep(md5, secret, last, Tail(data, offset), out);
        var block := data[offset..if offset + 16 <= |data| then offset + 16 else |data|];
        var next := Keystream(md5, secret, last, block);
        out := out + next;
        last := next;
        offset := offset + 16;
      }
      assert out + [] == out;
    }

    /** `pw_decrypt` up to the conversion to text. */
    method PwDecrypt(md5: Digest, password: bytes) returns (out: bytes)
      requires SixteenWide(md5) && (v11 || authenticator.Some?)
      ensures out == if v11 then password else ShownPassword(md5, secret, authenticator.value, password)
    {
      if v11 { return password; }
      var pw: bytes := [];
      var last := authenticator.value;
      var offset := 0;
      while offset < |password|
        invariant 0 <= offset
        invariant pw + ChainInput(md5, secret, last, Tail(password, offset)) ==
                  ChainInput(md5, secret, authenticator.value, password)
      {
        TailSplits(password, offset);
        ChainInputStep(md5, secret, last, Tail(password, offset), pw);
        var block := password[offset..if offset + 16 <= |password| then offset + 16 else |password|];
        pw := pw + Keystream(md5, secret, last, block);
        last := block;
        offset := offset + 16;
      }
      assert pw + [] == pw;
      out := StripZeros(pw);
    }

    /** `_salt_en_decrypt`: a reply's cipher is keyed on its request's authenticator. */
    method SaltEnDecrypt(md5: Digest, data: bytes, salt: bytes) returns (out: bytes)
      requires SixteenWide(md5) && (requestAuthenticator.Some? || authenticator.Some?)
      ensures out == ChainOutput(md5, secret, SaltSeed() + salt, data)
    {
      out := ChainBlocks(md5, SaltSeed() + salt, data);
    }

    function SaltSeed(): bytes
      reads this
      requires requestAuthenticator.Some? || authenticator.Some?
    {
      if requestAuthenticator.Some? then requestAuthenticator.value else authenticator.value
    }

    /** `salt_crypt`; `random` is the draw below 32767 that makes the salt. */
    method SaltCrypt(md5: Digest, nonce: bytes, random: nat, value: bytes) returns (out: Option<bytes>)
      requires SixteenWide(md5) && random < 32767
      modifies this`authenticator
      ensures authenticator == Some(if old(authenticator).Some? then old(authenticator).value else nonce)
      ensures out == SaltEncrypted(md5, secret, SaltSeed(), SaltOf(random), value)
    {
      if authenticator.None? { authenticator := Some(nonce); }
      var salt := SaltOf(random);
      if |value| > 255 { return None; }
      var prefixed := [|value|] + value;
      if |prefixed| % 16 != 0 {
        prefixed := prefixed + Zeros(16 - |prefixed| % 16);
      }
      var body := SaltEnDecrypt(md5, prefixed, salt);
      out := Some(salt + body);
    }

    /** `salt_decrypt`. */
    method SaltDecrypt(md5: Digest, value: bytes) returns (out: Option<bytes>)
      requires SixteenWide(md5) && (requestAuthenticator.Some? || authenticator.Some?)
      ensures out == SaltDecrypted(md5, secret, SaltSeed(), value)
    {
      var salt := if |value| <= 2 then value else value[..2];
      var plain := SaltEnDecrypt(md5, if |value| <= 2 then [] else value[2..], salt);
      if plain == [] { return None; }
      var length: nat := plain[0];
      out := Some(plain[1..if length + 1 <= |plain| then length + 1 else |plain|]);
    }
  }

  function SaltOf(random: nat): (salt: bytes)
    requires random < 32767
    ensures |salt| == 2 && salt[0] >= 128
  {
    [(32768 + random) / 256, (32768 + random) % 256]
  }

  function Tail(data: bytes, offset: nat): bytes {
    if offset <= |data| then data[offset..] else []
  }

  lemma TailSplits(data: bytes, offset: nat)
    requires offset < |data|
    ensures Tail(data, offset) != []
    ensures First(Tail(data, offset)) == data[offset..if offset + 16 <= |data| then offset + 16 else |data|]
    ensures Rest(Tail(data, offset)) == Tail(data, offset + 16)
  {
  }

  lemma ChainOutputStep(md5: Digest, secret: bytes, last: bytes, rest: bytes, out: bytes)
    requires SixteenWide(md5) && rest != []
    ensures var block := Keystream(md5, secret, last, First(rest));
            out + ChainOutput(md5, secret, last, rest) == out + block + ChainOutput(md5, secret, block, Rest(rest))
  {
    var block := Keystream(md5, secret, last, First(rest));
    assert out + (block + ChainOutput(md5, secret, block, Rest(rest))) ==
           out + block + ChainOutput(md5, secret, block, Rest(rest));
  }

  lemma ChainInputStep(md5: Digest, secret: bytes, last: bytes, rest: bytes, out: bytes)
    requires SixteenWide(md5) && rest != []
    ensures out + ChainInput(md5, secret, last, rest) ==
            out + Keystream(md5, secret, last, First(rest)) + ChainInput(md5, secret, First(rest), Rest(rest))
  {
    var block := Keystream(md5, secret, last, First(rest));
    assert out + (block + ChainInput(md5, secret, First(rest), Rest(rest))) ==
           out + block + ChainInput(md5, secret, First(rest), Rest(rest));
  }
}
