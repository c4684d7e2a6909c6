/** Bytes, Base64 (section 4 of RFC 4648) and cipher block chaining (section 6.2 of NIST SP 800-38A), as the
    libraries behind remmina_crypt.c provide them. The block cipher is any keyed permutation of blocks. */
module CipherCodec {

  type byte = x: int | 0 <= x < 256

  // ---------------------------------------------------------------- exclusive or

  function Power(n: nat): nat {
    if n == 0 then 1 else 2 * Power(n - 1)
  }

  /** Bitwise exclusive or. */
  function XorBits(a: nat, b: nat): nat
    decreases a + b
  {
    if a == 0 && b == 0 then 0 else (if a % 2 == b % 2 then 0 else 1) + 2 * XorBits(a / 2, b / 2)
  }

  lemma {:induction false} XorStays(n: nat, a: nat, b: nat)
    requires a < Power(n) && b < Power(n)
    ensures XorBits(a, b) < Power(n)
  {
    if n > 0 {
      XorStays(n - 1, a / 2, b / 2);
    }
  }

  lemma {:induction false} XorTwice(a: nat, b: nat)
    ensures XorBits(XorBits(a, b), b) == a
    decreases a + b
  {
    if a > 0 || b > 0 {
      XorTwice(a / 2, b / 2);
      var r := XorBits(a, b);
      assert r / 2 == XorBits(a / 2, b / 2) && r % 2 == if a % 2 == b % 2 then 0 else 1;
    }
  }

  function Xor(a: byte, b: byte): byte {
    assert Power(8) == 256;
    XorStays(8, a, b);
    XorBits(a, b)
  }

  lemma XorUndoes(a: byte, b: byte)
    ensures Xor(Xor(a, b), b) == a
  {
    XorTwice(a, b);
  }

  /** Bit i of a number, counted from the lowest. */
  predicate Bit(a: nat, i: nat) {
    if i == 0 then a % 2 == 1 else Bit(a / 2, i - 1)
  }

  /** Each bit of the result is set exactly when that bit is set in one of the two. */
  lemma {:induction false} XorBitwise(a: nat, b: nat, i: nat)
    ensures Bit(XorBits(a, b), i) <==> Bit(a, i) != Bit(b, i)
    decreases i
  {
    var r := XorBits(a, b);
    assert r / 2 == XorBits(a / 2, b / 2) && r % 2 == if a % 2 == b % 2 then 0 else 1;
    if i > 0 {
      XorBitwise(a / 2, b / 2, i - 1);
    }
  }

  // ---------------------------------------------------------------- cipher block chaining

  const BLOCK := 8

  type Block = b: seq<byte> | |b| == 8 witness [0, 0, 0, 0, 0, 0, 0, 0]
  type Key = k: seq<byte> | |k| == 24
    witness [0, 0, 0, 0, 0, 0, 0, 0, 0, 0, 0, 0, 0, 0, 0, 0, 0, 0, 0, 0, 0, 0, 0, 0]

  datatype Cipher = Cipher(enc: (Key, Block) -> Block, dec: (Key, Block) -> Block)

  ghost predicate Permutation(c: Cipher) {
    forall k: Key, b: Block :: c.dec(k, c.enc(k, b)) == b
  }

  function XorBlock(a: Block, b: Block): Block {
    [Xor(a[0], b[0]), Xor(a[1], b[1]), Xor(a[2], b[2]), Xor(a[3], b[3]),
     Xor(a[4], b[4]), Xor(a[5], b[5]), Xor(a[6], b[6]), Xor(a[7], b[7])]
  }

  lemma XorBlockUndoes(a: Block, b: Block)
    ensures XorBlock(XorBlock(a, b), b) == a
  {
    var x := XorBlock(a, b);
    forall i | 0 <= i < 8 ensures Xor(x[i], b[i]) == a[i] {
      assert x[i] == Xor(a[i], b[i]);
      XorUndoes(a[i], b[i]);
    }
  }

  /** One block of CBC encryption, and one of CBC decryption. */
  function SealBlock(c: Cipher, k: Key, chain: Block, block: Block): Block {
    c.enc(k, XorBlock(block, chain))
  }

  function OpenBlock(c: Cipher, k: Key, chain: Block, block: Block): Block {
    XorBlock(c.dec(k, block), chain)
  }

  function CbcEncrypt(c: Cipher, k: Key, chain: Block, data: seq<byte>): (r: seq<byte>)
    requires |data| % BLOCK == 0
    ensures |r| == |data|
    decreases |data|
  {
    if data == [] then []
    else
      var x := SealBlock(c, k, chain, data[..BLOCK]);
      x + CbcEncrypt(c, k, x, data[BLOCK..])
  }

  function CbcDecrypt(c: Cipher, k: Key, chain: Block, data: seq<byte>): (r: seq<byte>)
    requires |data| % BLOCK == 0
    ensures |r| == |data|
    decreases |data|
  {
    if data == [] then []
    else OpenBlock(c, k, chain, data[..BLOCK]) + CbcDecrypt(c, k, data[..BLOCK], data[BLOCK..])
  }

  /** Block i of some data. */
  function BlockAt(data: seq<byte>, i: nat): Block
    requires BLOCK * (i + 1) <= |data|
  {
    data[BLOCK * i..BLOCK * i + BLOCK]
  }

  lemma BlockAtTail(data: seq<byte>, i: nat)
    requires BLOCK * (i + 2) <= |data|
    ensures BlockAt(data, i + 1) == BlockAt(data[BLOCK..], i)
  {
    var a, b, k := BlockAt(data, i + 1), BlockAt(data[BLOCK..], i), BLOCK * i;
    assert forall j :: 0 <= j < BLOCK ==> a[j] == data[k + BLOCK + j] == data[BLOCK..][k + j] == b[j];
  }

  /** Block i of the result is the cipher of block i of the data, combined with the result's block before it or,
      for the first one, with the vector (section 6.2 of NIST SP 800-38A). */
  lemma {:induction false} CbcChains(c: Cipher, k: Key, iv: Block, data: seq<byte>, i: nat)
    requires |data| % BLOCK == 0 && BLOCK * (i + 1) <= |data|
    ensures var r := CbcEncrypt(c, k, iv, data);
      BlockAt(r, i) == c.enc(k, XorBlock(BlockAt(data, i), if i == 0 then iv else BlockAt(r, i - 1)))
    decreases |data|
  {
    var x := SealBlock(c, k, iv, data[..BLOCK]);
    var rest := CbcEncrypt(c, k, x, data[BLOCK..]);
    var r: seq<byte> := x + rest;
    assert CbcEncrypt(c, k, iv, data) == r && BlockAt(r, 0) == x && r[BLOCK..] == rest;
    if i > 0 {
      CbcChains(c, k, x, data[BLOCK..], i - 1);
      BlockAtTail(data, i - 1);
      BlockAtTail(r, i - 1);
      if i > 1 {
        BlockAtTail(r, i - 2);
      }
    }
  }

  /** CBC decryption inverts CBC encryption for any block permutation. */
  lemma {:induction false} CbcInverts(c: Cipher, k: Key, chain: Block, data: seq<byte>)
    requires Permutation(c) && |data| % BLOCK == 0
    ensures CbcDecrypt(c, k, chain, CbcEncrypt(c, k, chain, data)) == data
    decreases |data|
  {
    if data != [] {
      var plain := XorBlock(data[..BLOCK], chain);
      var x: Block := c.enc(k, plain);
      var rest: seq<byte> := CbcEncrypt(c, k, x, data[BLOCK..]);
      assert (x + rest)[..BLOCK] == x && (x + rest)[BLOCK..] == rest;
      CbcInverts(c, k, x, data[BLOCK..]);
      XorBlockUndoes(data[..BLOCK], chain);
      assert data == data[..BLOCK] + data[BLOCK..];
    }
  }

  /** What the library calls do to a buffer: it is replaced in place, unless its length is not a multiple of
      the block size. */
  method Replace(buf: array<byte>, data: seq<byte>)
    requires |data| == buf.Length
    modifies buf
    ensures buf[..] == data
  {
    forall i | 0 <= i < buf.Length { buf[i] := data[i]; }
  }

  /** gcry_cipher_encrypt(hd, buf, len, NULL, 0) */
  method EncryptInPlace(c: Cipher, k: Key, iv: Block, buf: array<byte>) returns (ok: bool)
    modifies buf
    ensures ok <==> buf.Length % BLOCK == 0
    ensures buf[..] == if ok then CbcEncrypt(c, k, iv, old(buf[..])) else old(buf[..])
  {
    ok := buf.Length % BLOCK == 0;
    if ok {
      Replace(buf, CbcEncrypt(c, k, iv, buf[..]));
    }
  }

  /** gcry_cipher_decrypt(hd, buf, len, NULL, 0) */
  method DecryptInPlace(c: Cipher, k: Key, iv: Block, buf: array<byte>) returns (ok: bool)
    modifies buf
    ensures ok <==> buf.Length % BLOCK == 0
    ensures buf[..] == if ok then CbcDecrypt(c, k, iv, old(buf[..])) else old(buf[..])
  {
    ok := buf.Length % BLOCK == 0;
    if ok {
      Replace(buf, CbcDecrypt(c, k, iv, buf[..]));
    }
  }

  // ---------------------------------------------------------------- Base64

  type sextet = x: int | 0 <= x < 64

  function Letter(x: sextet): char {
    if x < 26 then 'A' + x as char
    else if x < 52 then 'a' + (x - 26) as char
    else if x < 62 then '0' + (x - 52) as char
    else if x == 62 then '+'
    else '/'
  }

  predicate IsLetter(c: char) {
    'A' <= c <= 'Z' || 'a' <= c <= 'z' || '0' <= c <= '9' || c == '+' || c == '/'
  }

  /** The padding character counts as zero. */
  function Rank(c: char): sextet {
    if 'A' <= c <= 'Z' then (c - 'A') as int
    else if 'a' <= c <= 'z' then (c - 'a') as int + 26
    else if '0' <= c <= '9' then (c - '0') as int + 52
    else if c == '+' then 62
    else if c == '/' then 63
    else 0
  }

  lemma RankOfLetter(x: sextet)
    ensures IsLetter(Letter(x)) && Rank(Letter(x)) == x
  {
  }

  function Quad(a: byte, b: byte, c: byte): string {
    [Letter(a / 4), Letter(a % 4 * 16 + b / 16), Letter(b % 16 * 4 + c / 64), Letter(c % 64)]
  }

  /** g_base64_encode */
  function Encode(data: seq<byte>): string {
    if data == [] then ""
    else if |data| == 1 then Quad(data[0], 0, 0)[..2] + "=="
    else if |data| == 2 then Quad(data[0], data[1], 0)[..3] + "="
    else Quad(data[0], data[1], data[2]) + Encode(data[3..])
  }

  /** The decoder skips every character that is neither a letter nor padding. */
  function Known(s: string): string {
    if s == "" then ""
    else (if IsLetter(s[0]) || s[0] == '=' then [s[0]] else []) + Known(s[1..])
  }

  function Unquad(s: string): seq<byte> {
    if |s| < 4 then []
    else Unpack(Rank(s[0]), Rank(s[1]), Rank(s[2]), Rank(s[3]), s[2] == '=', s[3] == '=') + Unquad(s[4..])
  }

  /** The bytes in four letters; the flags say which of the last two are padding. */
  function Unpack(a: sextet, b: sextet, c: sextet, d: sextet, third: bool, fourth: bool): seq<byte> {
    [a * 4 + b / 16]
    + (if third then [] else [b % 16 * 16 + c / 4])
    + (if fourth then [] else [c % 4 * 64 + d])
  }

  /** g_base64_decode */
  function Decode(s: string): seq<byte> {
    Unquad(Known(s))
  }

  predicate InAlphabet(s: string) {
    forall i :: 0 <= i < |s| ==> IsLetter(s[i]) || s[i] == '='
  }

  lemma {:induction false} KnownAll(s: string)
    requires InAlphabet(s)
    ensures Known(s) == s
  {
    if s != "" {
      KnownAll(s[1..]);
    }
  }

  lemma UnpackBits(a: byte, b: byte, c: byte)
    ensures Unpack(a / 4, a % 4 * 16 + b / 16, b % 16 * 4 + c / 64, c % 64, false, false) == [a, b, c]
    ensures Unpack(a / 4, a % 4 * 16 + b / 16, b % 16 * 4, 0, false, true) == [a, b]
    ensures Unpack(a / 4, a % 4 * 16, 0, 0, true, true) == [a]
  {
    assert (a % 4 * 16 + b / 16) / 16 == a % 4 && (a % 4 * 16 + b / 16) % 16 == b / 16;
    assert (b % 16 * 4 + c / 64) / 4 == b % 16 && (b % 16 * 4 + c / 64) % 4 == c / 64;
  }

  lemma QuadRanks(a: byte, b: byte, c: byte)
    ensures var q := Quad(a, b, c);
      && |q| == 4 && (forall i :: 0 <= i < 4 ==> IsLetter(q[i]))
      && Rank(q[0]) == a / 4 && Rank(q[1]) == a % 4 * 16 + b / 16
      && Rank(q[2]) == b % 16 * 4 + c / 64 && Rank(q[3]) == c % 64
  {
    RankOfLetter(a / 4);
    RankOfLetter(a % 4 * 16 + b / 16);
    RankOfLetter(b % 16 * 4 + c / 64);
    RankOfLetter(c % 64);
  }

  lemma {:induction false} EncodeAlphabet(data: seq<byte>)
    ensures InAlphabet(Encode(data)) && (data != [] ==> Encode(data) != "")
  {
    if data != [] {
      var b := if |data| > 1 then data[1] else 0;
      var c := if |data| > 2 then data[2] else 0;
      QuadRanks(data[0], b, c);
      if |data| > 2 {
        EncodeAlphabet(data[3..]);
        assert Encode(data) == Quad(data[0], b, c) + Encode(data[3..]);
      }
    }
  }

  /** Base64 decoding inverts Base64 encoding. */
  lemma {:induction false} Base64Inverts(data: seq<byte>)
    ensures Decode(Encode(data)) == data
  {
    EncodeAlphabet(data);
    KnownAll(Encode(data));
    UnquadEncode(data);
  }

  lemma UnquadQuad(s: string, a: byte, b: byte, c: byte)
    requires |s| >= 4 && s[..4] == Quad(a, b, c)
    ensures Unquad(s) == [a, b, c] + Unquad(s[4..])
  {
    QuadRanks(a, b, c);
    UnpackBits(a, b, c);
    assert s[0] == s[..4][0] && s[1] == s[..4][1] && s[2] == s[..4][2] && s[3] == s[..4][3];
  }

  lemma UnquadPadded(a: byte, b: byte)
    ensures Unquad(Quad(a, b, 0)[..3] + "=") == [a, b]
    ensures Unquad(Quad(a, 0, 0)[..2] + "==") == [a]
  {
    QuadRanks(a, b, 0);
    QuadRanks(a, 0, 0);
    UnpackBits(a, b, 0);
    UnpackBits(a, 0, 0);
  }

  lemma {:induction false} UnquadEncode(data: seq<byte>)
    ensures Unquad(Encode(data)) == data
  {
    if |data| > 2 {
      var s := Encode(data);
      assert s[..4] == Quad(data[0], data[1], data[2]) && s[4..] == Encode(data[3..]);
      UnquadQuad(s, data[0], data[1], data[2]);
      UnquadEncode(data[3..]);
    } else if |data| > 0 {
      UnquadPadded(data[0], if |data| == 2 then data[1] else 0);
    }
  }

  /** The alphabet is that of table 1 of RFC 4648. */
  lemma LetterOfAlphabet(x: sextet)
    ensures Letter(x)
            == if x < 26 then "ABCDEFGHIJKLMNOPQRSTUVWXYZ"[x]
               else if x < 52 then "abcdefghijklmnopqrstuvwxyz"[x - 26]
               else "0123456789+/"[x - 52]
  {
  }

  /** The 24 bits of three bytes, and of four sextets. */
  function OfBytes(a: int, b: int, c: int): int {
    65536 * a + 256 * b + c
  }

  function OfSextets(a: int, b: int, c: int, d: int): int {
    262144 * a + 4096 * b + 64 * c + d
  }

  /** Three bytes are spelled as 24 bits, six to a character, highest first; what the last one or two bytes lack
      is zero bits, and padding fills the group (section 4 of RFC 4648). */
  lemma GroupsSpell(data: seq<byte>)
    requires data != []
    ensures var b := if |data| > 1 then data[1] else 0; var c := if |data| > 2 then data[2] else 0;
      var s := Encode(data);
      && |s| >= 4
      && OfBytes(data[0], b, c) == OfSextets(Rank(s[0]), Rank(s[1]), Rank(s[2]), Rank(s[3]))
      && IsLetter(s[0]) && IsLetter(s[1]) && (s[2] == '=' <==> |data| < 2) && (s[3] == '=' <==> |data| < 3)
      && s[4..] == if |data| > 3 then Encode(data[3..]) else ""
  {
    var b := if |data| > 1 then data[1] else 0;
    var c := if |data| > 2 then data[2] else 0;
    QuadRanks(data[0], b, c);
    BitsAdd(data[0], b, c);
    var q, s := Quad(data[0], b, c), Encode(data);
    if |data| > 2 {
      assert s == q + Encode(data[3..]) && s[4..] == Encode(data[3..]);
    } else if |data| == 2 {
      assert s == [q[0], q[1], q[2], '='];
    } else {
      assert s == [q[0], q[1], '=', '='];
    }
  }

  lemma BitsAdd(a: byte, b: byte, c: byte)
    ensures OfBytes(a, b, c) == OfSextets(a / 4, a % 4 * 16 + b / 16, b % 16 * 4 + c / 64, c % 64)
  {
    assert a == 4 * (a / 4) + a % 4 && b == 16 * (b / 16) + b % 16 && c == 64 * (c / 64) + c % 64;
  }

  /** The decoder passes over whatever is neither in the alphabet nor padding. */
  lemma DecodeSkips(a: string, c: char, b: string)
    requires !IsLetter(c) && c != '='
    ensures Decode(a + [c] + b) == Decode(a + b)
  {
    KnownConcat(a + [c], b);
    KnownConcat(a, [c]);
    KnownConcat(a, b);
    assert [c][1..] == "" && Known([c]) == "" && Known(a) + "" == Known(a);
  }

  lemma {:induction false} KnownConcat(a: string, b: string)
    ensures Known(a + b) == Known(a) + Known(b)
  {
    if a == "" {
      assert a + b == b;
    } else {
      var head := if IsLetter(a[0]) || a[0] == '=' then [a[0]] else [];
      var rest := Known(a[1..]);
      assert (a + b)[1..] == a[1..] + b;
      KnownConcat(a[1..], b);
      assert Known(a) == head + rest && Known(a + b) == head + (rest + Known(b));
    }
  }

  lemma InFour(s: string, c: char)
    requires |s| >= 4
    ensures c in s <==> c == s[0] || c == s[1] || c == s[2] || c == s[3] || c in s[4..]
  {
    assert s == [s[0], s[1], s[2], s[3]] + s[4..];
  }

  lemma PaddingStep(data: seq<byte>)
    requires data != []
    ensures '=' in Encode(data) <==> |data| < 3 || (|data| > 3 && '=' in Encode(data[3..]))
  {
    GroupsSpell(data);
    InFour(Encode(data), '=');
  }

  lemma {:induction false} PaddedAt(data: seq<byte>, groups: nat, more: nat)
    requires |data| == 3 * groups + more && more < 3
    ensures '=' in Encode(data) <==> more != 0
    decreases groups
  {
    if data != [] {
      PaddingStep(data);
      if |data| > 3 {
        PaddedAt(data[3..], groups - 1, more);
      }
    }
  }

  /** There is padding exactly when the bytes do not fill groups of three. */
  lemma PaddedExactlyWhen(data: seq<byte>)
    ensures '=' in Encode(data) <==> |data| % 3 != 0
  {
    PaddedAt(data, |data| / 3, |data| % 3);
  }
}
