/** remmina_crypt.c: passwords padded with zero bytes, encrypted and written as Base64, and back. */
module Crypt {
  import opened Basics
  import opened CipherCodec

  /** The content of a C string: no NUL, one byte to a character. */
  predicate IsC(s: string) {
    forall i :: 0 <= i < |s| ==> 0 < s[i] as int < 256
  }

  function Bytes(s: string): (r: seq<byte>)
    requires IsC(s)
    ensures |r| == |s|
    ensures forall i :: 0 <= i < |s| ==> r[i] == s[i] as int
  {
    if s == "" then [] else [s[0] as int] + Bytes(s[1..])
  }

  /** The C string that starts at the beginning of a buffer. */
  function CString(buf: seq<byte>): (s: string)
    ensures IsC(s)
  {
    if buf == [] || buf[0] == 0 then "" else [buf[0] as char] + CString(buf[1..])
  }

  function Zeros(n: nat): (r: seq<byte>)
    ensures |r| == n
    ensures forall i :: 0 <= i < n ==> r[i] == 0
  {
    seq(n, _ => 0)
  }

  function PaddingSize(n: nat): nat {
    8 - n % 8
  }

  function Pad(data: seq<byte>): seq<byte> {
    data + Zeros(PaddingSize(|data|))
  }

  /** The configuration: the block cipher and the preference that holds the key and the initial vector. */
  datatype Config = Config(cipher: Cipher, secret: string)

  predicate Usable(conf: Config) {
    |Decode(conf.secret)| >= 32
  }

  /** The first 24 bytes of the secret are the key, the next 8 the initial vector. */
  function KeyOf(conf: Config): Key
    requires Usable(conf)
  {
    Decode(conf.secret)[..24]
  }

  function VectorOf(conf: Config): Block
    requires Usable(conf)
  {
    Decode(conf.secret)[24..32]
  }

  function Encrypted(conf: Config, str: string): Option<string>
    requires IsC(str)
  {
    if str == "" || !Usable(conf) then None
    else Some(Encode(CbcEncrypt(conf.cipher, KeyOf(conf), VectorOf(conf), Pad(Bytes(str)))))
  }

  function Decrypted(conf: Config, str: string): Option<string> {
    if str == "" || !Usable(conf) then None
    else
      var buf := Decode(str);
      if |buf| % BLOCK != 0 then Some(str)
      else
        var plain := CbcDecrypt(conf.cipher, KeyOf(conf), VectorOf(conf), buf);
        Some(CString(if |plain| > 0 then plain[|plain| - 1 := 0] else plain))
  }

  /** Allocates, zeroes and fills the buffer that is encrypted. */
  method Padded(str: string) returns (buf: array<byte>)
    requires IsC(str)
    ensures fresh(buf) && buf[..] == Pad(Bytes(str))
  {
    var len := |str|;
    len := len + 8 - len % 8;
    buf := new byte[len](_ => 0);
    for i := 0 to |str|
      invariant forall j :: 0 <= j < i ==> buf[j] == str[j] as int
      invariant forall j :: i <= j < len ==> buf[j] == 0
    {
      buf[i] := str[i] as int;
    }
  }

  /** remmina_crypt_encrypt */
  method Encrypt(conf: Config, str: string) returns (result: Option<string>)
    requires IsC(str)
    ensures result == Encrypted(conf, str)
  {
    if str == "" || |Decode(conf.secret)| < 32 {
      return None;
    }
    var secret := Decode(conf.secret);
    var buf := Padded(str);
    PadFillsBlocks(Bytes(str));
    var ok := EncryptInPlace(conf.cipher, secret[..24], secret[24..32], buf);
    if !ok {
      return None;
    }
    result := Some(Encode(buf[..]));
  }

  method Buffer(data: seq<byte>) returns (buf: array<byte>)
    ensures fresh(buf) && buf[..] == data
  {
    buf := new byte[|data|](i requires 0 <= i < |data| => data[i]);
  }

  /** Makes sure that the buffer ends in a NUL. */
  method Terminate(buf: array<byte>)
    modifies buf
    ensures buf[..] == if buf.Length > 0 then old(buf[..])[buf.Length - 1 := 0] else old(buf[..])
  {
    if buf.Length > 0 {
      buf[buf.Length - 1] := 0;
    }
  }

  /** remmina_crypt_decrypt */
  method Decrypt(conf: Config, str: string) returns (result: Option<string>)
    ensures result == Decrypted(conf, str)
  {
    if str == "" || |Decode(conf.secret)| < 32 {
      return None;
    }
    var secret := Decode(conf.secret);
    var data := Decode(str);
    var buf := Buffer(data);
    var ok := DecryptInPlace(conf.cipher, secret[..24], secret[24..32], buf);
    if !ok {
      return Some(str);
    }
    Terminate(buf);
    result := Some(CString(buf[..]));
  }

  /** Padding adds 1 to 8 zero bytes and fills whole blocks. */
  lemma PadFillsBlocks(data: seq<byte>)
    ensures |Pad(data)| % 8 == 0 && 1 <= |Pad(data)| - |data| <= 8
    ensures Pad(data)[..|data|] == data && forall i :: |data| <= i < |Pad(data)| ==> Pad(data)[i] == 0
  {
  }

  lemma {:induction false} CStringStops(s: string, rest: seq<byte>)
    requires IsC(s) && rest != [] && rest[0] == 0
    ensures CString(Bytes(s) + rest) == s
  {
    if s == "" {
      assert Bytes(s) + rest == rest;
    } else {
      var all := Bytes(s) + rest;
      assert all[1..] == Bytes(s[1..]) + rest;
      CStringStops(s[1..], rest);
    }
  }

  /** For any block permutation, decrypting what encrypting gave returns the string; the final NUL that
      decryption writes only overwrites padding. */
  lemma DecryptInvertsEncrypt(conf: Config, s: string)
    requires Permutation(conf.cipher) && Usable(conf)
    requires IsC(s) && s != ""
    ensures Encrypted(conf, s).Some? && Decrypted(conf, Encrypted(conf, s).value) == Some(s)
    ensures var buf := Pad(Bytes(s)); buf[|buf| - 1 := 0] == buf
  {
    var buf := Pad(Bytes(s));
    PadFillsBlocks(Bytes(s));
    var sealed := CbcEncrypt(conf.cipher, KeyOf(conf), VectorOf(conf), buf);
    Base64Inverts(sealed);
    EncodeAlphabet(sealed);
    CbcInverts(conf.cipher, KeyOf(conf), VectorOf(conf), buf);
    assert buf[|buf| - 1 := 0] == buf;
    CStringStops(s, Zeros(PaddingSize(|s|)));
  }

  /** Every non-empty password encrypts to a non-empty text of Base64 characters. */
  lemma EncryptedText(conf: Config, s: string)
    requires Usable(conf) && IsC(s) && s != ""
    ensures Encrypted(conf, s).Some? && Encrypted(conf, s).value != "" && InAlphabet(Encrypted(conf, s).value)
  {
    PadFillsBlocks(Bytes(s));
    EncodeAlphabet(CbcEncrypt(conf.cipher, KeyOf(conf), VectorOf(conf), Pad(Bytes(s))));
  }

  /** Encryption fails for an empty password and for a secret of fewer than 32 bytes. So does decryption, which
      gives back as it is what does not decode to whole blocks. */
  lemma FailsExactlyWhen(conf: Config, s: string)
    ensures IsC(s) ==> (Encrypted(conf, s).None? <==> s == "" || |Decode(conf.secret)| < 32)
    ensures Decrypted(conf, s).None? <==> s == "" || |Decode(conf.secret)| < 32
    ensures Decrypted(conf, s).Some? && |Decode(s)| % 8 != 0 ==> Decrypted(conf, s) == Some(s)
  {
  }

  lemma SecretSplits(cipher: Cipher, k: Key, v: Block, more: seq<byte>)
    ensures var conf := Config(cipher, Encode(k + v + more)); Usable(conf) && KeyOf(conf) == k && VectorOf(conf) == v
  {
    var all: seq<byte> := k + v + more;
    Base64Inverts(all);
    assert |all| >= 32 && all[..24] == k && all[24..32] == v;
  }

  /** The secret is 24 bytes of key, then 8 of vector, and nothing after them matters: each block of the
      encrypted password is the cipher under that key of the padded password's block, combined with the block
      before it or, for the first one, with the vector. */
  lemma EncryptedBlocks(cipher: Cipher, k: Key, v: Block, more: seq<byte>, s: string, i: nat)
    requires IsC(s) && s != "" && 8 * (i + 1) <= |s| + 8 - |s| % 8
    ensures var text := Encrypted(Config(cipher, Encode(k + v + more)), s); var padded := Pad(Bytes(s));
      && text.Some? && |Decode(text.value)| == |padded| == |s| + 8 - |s| % 8
      && var sealed := Decode(text.value);
         BlockAt(sealed, i)
         == cipher.enc(k, XorBlock(BlockAt(padded, i), if i == 0 then v else BlockAt(sealed, i - 1)))
  {
    SecretSplits(cipher, k, v, more);
    var padded := Pad(Bytes(s));
    PadFillsBlocks(Bytes(s));
    var sealed := CbcEncrypt(cipher, k, v, padded);
    CbcChains(cipher, k, v, padded, i);
    Base64Inverts(sealed);
  }

  lemma {:induction false} CStringIsPrefix(buf: seq<byte>)
    ensures |CString(buf)| <= |buf| && forall i :: 0 <= i < |CString(buf)| ==> CString(buf)[i] as int == buf[i] != 0
    ensures |CString(buf)| < |buf| ==> buf[|CString(buf)|] == 0
    ensures buf != [] && buf[|buf| - 1] == 0 ==> |CString(buf)| < |buf|
  {
    if buf != [] && buf[0] != 0 {
      CStringIsPrefix(buf[1..]);
      assert forall i :: 0 < i < |buf| ==> buf[i] == buf[1..][i - 1];
    }
  }

  /** The text up to the first NUL, without the last byte. */
  predicate IsCut(plain: seq<byte>, text: string) {
    && |text| < |plain| && (|text| < |plain| - 1 ==> plain[|text|] == 0)
    && forall i :: 0 <= i < |text| ==> text[i] as int == plain[i] != 0
  }

  lemma CutAtLast(plain: seq<byte>)
    requires plain != []
    ensures IsCut(plain, CString(plain[|plain| - 1 := 0]))
  {
    CStringIsPrefix(plain[|plain| - 1 := 0]);
  }

  /** Of whole blocks, decryption gives the text up to the first NUL and never the last byte. */
  lemma DecryptedIsCut(conf: Config, s: string)
    requires s != "" && Usable(conf) && Decode(s) != [] && |Decode(s)| % 8 == 0
    ensures Decrypted(conf, s).Some?
            && IsCut(CbcDecrypt(conf.cipher, KeyOf(conf), VectorOf(conf), Decode(s)), Decrypted(conf, s).value)
  {
    CutAtLast(CbcDecrypt(conf.cipher, KeyOf(conf), VectorOf(conf), Decode(s)));
  }
}
