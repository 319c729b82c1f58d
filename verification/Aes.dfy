/** Padding and in-place cipher-block chaining (crypto/aes.go). The AES block function itself is a
    parameter of which only invertibility is used. */
module Aes {
  import opened Bytes
  import opened Outcomes

  type Block = s: seq<byte> | |s| == 16 witness seq(16, _ => 0 as byte)

  /** A keyed block function and its inverse: a permutation of the blocks under each key. */
  datatype Cipher = Cipher(encrypt: (seq<byte>, Block) -> Block, decrypt: (seq<byte>, Block) -> Block)

  /** aes.NewCipher accepts keys of 16, 24 and 32 bytes. */
  predicate KeySizeOk(key: seq<byte>) {
    |key| == 16 || |key| == 24 || |key| == 32
  }

  ghost predicate Invertible(c: Cipher) {
    forall k: seq<byte>, b: Block :: KeySizeOk(k) ==> c.decrypt(k, c.encrypt(k, b)) == b && c.encrypt(k, c.decrypt(k, b)) == b
  }

  // ---- Exclusive or ----

  function Pow2(n: nat): (p: nat)
    ensures p >= 1
  {
    if n == 0 then 1 else 2 * Pow2(n - 1)
  }

  /** Exclusive or of the lowest n bits of two numbers. */
  function XorBits(a: nat, b: nat, n: nat): (r: nat)
    ensures r < Pow2(n)
    decreases n
  {
    if n == 0 then 0 else (a + b) % 2 + 2 * XorBits(a / 2, b / 2, n - 1)
  }

  lemma LowBit(t: nat, r: nat)
    requires t < 2
    ensures (t + 2 * r) / 2 == r && (t + 2 * r) % 2 == t
  {
  }

  lemma SumIsOddIff(a: nat, b: nat)
    ensures (a + b) % 2 == 1 <==> a % 2 != b % 2
  {
  }

  lemma XorBitsSplit(a: nat, b: nat, n: nat)
    requires n > 0
    ensures XorBits(a, b, n) / 2 == XorBits(a / 2, b / 2, n - 1)
    ensures XorBits(a, b, n) % 2 == 1 <==> a % 2 != b % 2
  {
    LowBit((a + b) % 2, XorBits(a / 2, b / 2, n - 1));
    SumIsOddIff(a, b);
  }

  lemma {:induction false} XorTwice(a: nat, b: nat, n: nat)
    requires a < Pow2(n)
    ensures XorBits(XorBits(a, b, n), b, n) == a
    decreases n
  {
    if n > 0 {
      var r := XorBits(a, b, n);
      XorBitsSplit(a, b, n);
      XorBitsSplit(r, b, n);
      XorTwice(a / 2, b / 2, n - 1);
      assert XorBits(r, b, n) / 2 == a / 2;
    }
  }

  lemma AtLeastOnce(k: int, d: nat)
    requires k >= 1
    ensures k * d >= d
  {
    assert (k - 1) * d >= 0;
  }

  lemma SameQuotient(d: nat, q: nat, r: nat, q': nat, r': nat)
    requires q * d + r == q' * d + r' && r < d && r' < d
    ensures q == q'
  {
    assert (q - q') * d == r' - r;
    assert (q' - q) * d == r - r';
    if q > q' {
      AtLeastOnce(q - q', d);
    } else if q < q' {
      AtLeastOnce(q' - q, d);
    }
  }

  lemma Division(x: nat, d: nat) returns (q: nat, r: nat)
    requires d > 0
    ensures q == x / d && x == q * d + r && r < d
  {
    q, r := x / d, x % d;
  }

  lemma Doubled(q: nat, d: nat, r: nat, t: nat)
    ensures 2 * (q * d + r) + t == q * (2 * d) + (2 * r + t)
  {
  }

  lemma HalfFirst(x: nat, d: nat)
    requires d > 0
    ensures x / (2 * d) == x / 2 / d
  {
    var whole, r := Division(x, 2 * d);
    var half, t := Division(x, 2);
    var q, m := Division(half, d);
    Doubled(q, d, m, t);
    SameQuotient(2 * d, whole, r, q, 2 * m + t);
  }

  /** Bit i of a number. */
  function Bit(x: nat, i: nat): nat {
    x / Pow2(i) % 2
  }

  lemma BitOfHalf(x: nat, i: nat)
    requires i > 0
    ensures Bit(x, i) == Bit(x / 2, i - 1)
  {
    HalfFirst(x, Pow2(i - 1));
  }

  lemma LowestBit(x: nat)
    ensures Bit(x, 0) == x % 2
  {
    assert Pow2(0) == 1;
  }

  lemma {:induction false} XorBitsDiffer(a: nat, b: nat, n: nat, i: nat)
    requires i < n
    ensures Bit(XorBits(a, b, n), i) == 1 <==> Bit(a, i) != Bit(b, i)
    decreases n
  {
    var r := XorBits(a, b, n);
    XorBitsSplit(a, b, n);
    if i > 0 {
      BitOfHalf(r, i);
      BitOfHalf(a, i);
      BitOfHalf(b, i);
      XorBitsDiffer(a / 2, b / 2, n - 1, i - 1);
    } else {
      LowestBit(r);
      LowestBit(a);
      LowestBit(b);
    }
  }

  function XorByte(a: byte, b: byte): byte {
    assert Pow2(8) == 256 by {
      assert Pow2(2) == 4 && Pow2(4) == 16 && Pow2(6) == 64;
    }
    XorBits(a as nat, b as nat, 8) as byte
  }

  function XorBlock(a: Block, b: Block): Block {
    seq(16, i requires 0 <= i < 16 => XorByte(a[i], b[i]))
  }

  /** A bit of the exclusive or is set exactly if the two blocks differ in it. */
  lemma XorBlockBits(a: Block, b: Block, k: nat, i: nat)
    requires k < 16 && i < 8
    ensures Bit(XorBlock(a, b)[k] as nat, i) == 1 <==> Bit(a[k] as nat, i) != Bit(b[k] as nat, i)
  {
    XorBitsDiffer(a[k] as nat, b[k] as nat, 8, i);
  }

  lemma XorBlockTwice(a: Block, b: Block)
    ensures XorBlock(XorBlock(a, b), b) == a
  {
    forall i | 0 <= i < 16 ensures XorBlock(XorBlock(a, b), b)[i] == a[i] {
      assert Pow2(2) == 4 && Pow2(4) == 16 && Pow2(6) == 64;
      XorTwice(a[i] as nat, b[i] as nat, 8);
    }
  }

  // ---- Chaining ----

  /** CBC encryption of whole blocks, section 6.2 of NIST SP 800-38A. */
  function CbcEncrypt(c: Cipher, key: seq<byte>, prev: Block, text: seq<byte>): (r: seq<byte>)
    requires |text| % 16 == 0
    ensures |r| == |text|
    decreases |text|
  {
    if text == [] then []
    else
      var b: Block := c.encrypt(key, XorBlock(text[..16], prev));
      b + CbcEncrypt(c, key, b, text[16..])
  }

  function CbcDecrypt(c: Cipher, key: seq<byte>, prev: Block, text: seq<byte>): (r: seq<byte>)
    requires |text| % 16 == 0
    ensures |r| == |text|
    decreases |text|
  {
    if text == [] then []
    else XorBlock(c.decrypt(key, text[..16]), prev) + CbcDecrypt(c, key, text[..16], text[16..])
  }

  lemma {:induction false} CbcRoundTrip(c: Cipher, key: seq<byte>, iv: Block, text: seq<byte>)
    requires Invertible(c) && KeySizeOk(key) && |text| % 16 == 0
    ensures CbcDecrypt(c, key, iv, CbcEncrypt(c, key, iv, text)) == text
    decreases |text|
  {
    if text != [] {
      var x := XorBlock(text[..16], iv);
      var b: Block := c.encrypt(key, x);
      var rest := CbcEncrypt(c, key, b, text[16..]);
      assert (b + rest)[..16] == b && (b + rest)[16..] == rest;
      CbcRoundTrip(c, key, b, text[16..]);
      XorBlockTwice(text[..16], iv);
      assert text == text[..16] + text[16..];
    }
  }

  /** Any whole blocks are the encryption of what they decrypt to. */
  lemma {:induction false} CbcOnto(c: Cipher, key: seq<byte>, iv: Block, text: seq<byte>)
    requires Invertible(c) && KeySizeOk(key) && |text| % 16 == 0
    ensures CbcEncrypt(c, key, iv, CbcDecrypt(c, key, iv, text)) == text
    decreases |text|
  {
    if text != [] {
      var block: Block, back := text[..16], text[16..];
      var x: Block, rest := XorBlock(c.decrypt(key, block), iv), CbcDecrypt(c, key, block, back);
      assert (x + rest)[..16] == x && (x + rest)[16..] == rest;
      XorBlockTwice(c.decrypt(key, block), iv);
      CbcOnto(c, key, block, back);
      assert text == block + back;
    }
  }

  /** Block i of some bytes. */
  function BlockAt(text: seq<byte>, i: nat): Block
    requires 16 * i + 16 <= |text|
  {
    text[16 * i..16 * i + 16]
  }

  /** What block i is chained on. */
  function ChainedOn(iv: Block, text: seq<byte>, i: nat): Block
    requires 16 * i <= |text|
  {
    if i == 0 then iv else BlockAt(text, i - 1)
  }

  lemma BlockOfRest(front: Block, rest: seq<byte>, i: nat)
    requires 0 < i && 16 * i <= |rest|
    ensures BlockAt(front + rest, i) == BlockAt(rest, i - 1)
    ensures ChainedOn(front, rest, i - 1) == BlockAt(front + rest, i - 1)
  {
    assert (front + rest)[16 * i..16 * i + 16] == rest[16 * (i - 1)..16 * (i - 1) + 16];
    assert i == 1 ==> (front + rest)[..16] == front;
    assert i > 1 ==> (front + rest)[16 * (i - 1)..16 * (i - 1) + 16] == rest[16 * (i - 2)..16 * (i - 2) + 16];
  }

  /** Each ciphertext block is the encryption of its text block mixed with the ciphertext block before it,
      and the first with the initialization vector. */
  lemma {:induction false} CbcBlock(c: Cipher, key: seq<byte>, iv: Block, text: seq<byte>, i: nat)
    requires |text| % 16 == 0 && 16 * i + 16 <= |text|
    ensures var ct := CbcEncrypt(c, key, iv, text);
      BlockAt(ct, i) == c.encrypt(key, XorBlock(BlockAt(text, i), ChainedOn(iv, ct, i)))
    decreases i
  {
    var block: Block, back := text[..16], text[16..];
    var b: Block := c.encrypt(key, XorBlock(block, iv));
    var rest := CbcEncrypt(c, key, b, back);
    if i == 0 {
      assert (b + rest)[..16] == b;
    } else {
      CbcBlock(c, key, b, back, i - 1);
      BlockOfRest(b, rest, i);
      assert text == block + back;
      BlockOfRest(block, back, i);
    }
  }

  method WriteBlock(buf: array<byte>, ghost front: seq<byte>, at: nat, b: Block, ghost back: seq<byte>)
    requires at == |front| && buf.Length == at + 16 + |back|
    requires buf[..at] == front && buf[at + 16..] == back
    modifies buf
    ensures buf[..] == front + b + back
  {
    forall i | 0 <= i < 16 {
      buf[at + i] := b[i];
    }
    assert buf[..at] == front && buf[at..at + 16] == b && buf[at + 16..] == back;
  }

  /** One block of encryption, in place. */
  method EncryptBlock(c: Cipher, key: seq<byte>, prev: Block, buf: array<byte>, n: nat,
                      ghost front: seq<byte>, ghost block: Block, ghost back: seq<byte>) returns (b: Block)
    requires n == |front| && buf[..] == front + block + back
    modifies buf
    ensures b == c.encrypt(key, XorBlock(block, prev))
    ensures buf[..] == front + b + back
  {
    assert buf[n..n + 16] == block && buf[..n] == front && buf[n + 16..] == back;
    b := c.encrypt(key, XorBlock(buf[n..n + 16], prev));
    WriteBlock(buf, front, n, b, back);
  }

  lemma EncryptStep(c: Cipher, key: seq<byte>, done: seq<byte>, prev: Block, block: Block, back: seq<byte>)
    requires |back| % 16 == 0
    ensures var b: Block := c.encrypt(key, XorBlock(block, prev));
      done + CbcEncrypt(c, key, prev, block + back) == (done + b) + CbcEncrypt(c, key, b, back)
  {
    assert (block + back)[..16] == block && (block + back)[16..] == back;
  }

  lemma SplitFirst(done: seq<byte>, rest: seq<byte>) returns (block: Block, back: seq<byte>)
    requires |rest| % 16 == 0 && |rest| > 0
    ensures rest == block + back && |back| == |rest| - 16 && |back| % 16 == 0
    ensures done + rest == done + block + back
  {
    block, back := rest[..16], rest[16..];
  }

  /** The encrypter overwrites the buffer from the front. */
  method EncryptBlocks(c: Cipher, key: seq<byte>, iv: Block, buf: array<byte>)
    requires buf.Length % 16 == 0
    modifies buf
    ensures buf[..] == CbcEncrypt(c, key, iv, old(buf[..]))
  {
    ghost var total, done, rest := CbcEncrypt(c, key, iv, buf[..]), [], buf[..];
    var prev: Block, n := iv, 0;
    while n < buf.Length
      invariant n == |done| && n + |rest| == buf.Length && |rest| % 16 == 0
      invariant buf[..] == done + rest
      invariant done + CbcEncrypt(c, key, prev, rest) == total
    {
      ghost var block: Block, back := SplitFirst(done, rest);
      EncryptStep(c, key, done, prev, block, back);
      prev := EncryptBlock(c, key, prev, buf, n, done, block, back);
      n, done, rest := n + 16, done + prev, back;
    }
    assert done + [] == done && rest == [];
  }

  /** One block of decryption, in place; prev is the encrypted block before it. */
  method DecryptBlock(c: Cipher, key: seq<byte>, iv: Block, buf: array<byte>, start: nat,
                      ghost front: seq<byte>, ghost block: Block, ghost back: seq<byte>)
    requires start == |front| && start % 16 == 0 && buf[..] == front + block + back
    modifies buf
    ensures buf[..] == front + XorBlock(c.decrypt(key, block), Before(iv, front)) + back
  {
    assert buf[start..start + 16] == block && buf[..start] == front && buf[start + 16..] == back;
    assert start > 0 ==> buf[start - 16..start] == front[start - 16..];
    var prev: Block := if start == 0 then iv else buf[start - 16..start];
    WriteBlock(buf, front, start, XorBlock(c.decrypt(key, buf[start..start + 16]), prev), back);
  }

  /** The last block of a text, or iv before the first. */
  function Before(iv: Block, text: seq<byte>): Block {
    if |text| < 16 then iv else text[|text| - 16..]
  }

  /** The text is todo + rest, of which todo is still encrypted in the buffer and rest is decrypted. */
  ghost predicate Halfway(c: Cipher, key: seq<byte>, iv: Block, todo: seq<byte>, rest: seq<byte>, contents: seq<byte>) {
    && |todo| % 16 == 0 && |rest| % 16 == 0
    && contents == todo + CbcDecrypt(c, key, Before(iv, todo), rest)
  }

  lemma WholeBlocks(n: nat)
    ensures (n + 16) % 16 == n % 16
  {
  }

  lemma DecryptFirst(c: Cipher, key: seq<byte>, prev: Block, block: Block, rest: seq<byte>)
    requires |rest| % 16 == 0 && |block + rest| % 16 == 0
    ensures CbcDecrypt(c, key, prev, block + rest) ==
      XorBlock(c.decrypt(key, block), prev) + CbcDecrypt(c, key, block, rest)
  {
    assert (block + rest)[..16] == block && (block + rest)[16..] == rest;
  }

  lemma DecryptStep(c: Cipher, key: seq<byte>, iv: Block, front: seq<byte>, block: Block, rest: seq<byte>,
                    contents: seq<byte>)
    requires Halfway(c, key, iv, front + block, rest, contents)
    ensures |rest| % 16 == 0 && contents == front + block + CbcDecrypt(c, key, block, rest)
    ensures Halfway(c, key, iv, front, block + rest,
              front + XorBlock(c.decrypt(key, block), Before(iv, front)) + CbcDecrypt(c, key, block, rest))
  {
    WholeBlocks(|front|);
    WholeBlocks(|rest|);
    assert Before(iv, front + block) == block;
    DecryptFirst(c, key, Before(iv, front), block, rest);
    var b, back := XorBlock(c.decrypt(key, block), Before(iv, front)), CbcDecrypt(c, key, block, rest);
    assert front + (b + back) == front + b + back;
  }

  lemma SplitLast(todo: seq<byte>, rest: seq<byte>) returns (front: seq<byte>, block: Block)
    requires |todo| % 16 == 0 && |todo| > 0
    ensures todo == front + block && |front| == |todo| - 16
    ensures todo + rest == front + (block + rest)
  {
    front, block := todo[..|todo| - 16], todo[|todo| - 16..];
  }

  /** The decrypter overwrites it from the back, so that each block still finds its predecessor encrypted. */
  method DecryptBlocks(c: Cipher, key: seq<byte>, iv: Block, buf: array<byte>)
    requires buf.Length % 16 == 0
    modifies buf
    ensures buf[..] == CbcDecrypt(c, key, iv, old(buf[..]))
  {
    ghost var text, todo, rest := buf[..], buf[..], [];
    assert todo + [] == todo;
    var end := buf.Length;
    while end > 0
      invariant end == |todo| && text == todo + rest
      invariant Halfway(c, key, iv, todo, rest, buf[..])
    {
      ghost var front, block: Block := SplitLast(todo, rest);
      DecryptStep(c, key, iv, front, block, rest, buf[..]);
      DecryptBlock(c, key, iv, buf, end - 16, front, block, CbcDecrypt(c, key, block, rest));
      end, todo, rest := end - 16, front, block + rest;
    }
    assert text == rest;
  }

  // ---- Padding ----

  function Padding(length: nat): (p: byte)
    ensures 1 <= p <= 16 && (length + p as nat) % 16 == 0
  {
    (16 - length % 16) as byte
  }

  /** PKCS #7 padding, section 6.3 of RFC 5652. */
  function Pad(text: seq<byte>): (r: seq<byte>)
    ensures |r| % 16 == 0 && |text| < |r| <= |text| + 16
  {
    text + seq(Padding(|text|) as nat, _ => Padding(|text|))
  }

  /** The text, then k bytes that each say k. */
  lemma PadBytes(text: seq<byte>)
    ensures var r := Pad(text); var k := |r| - |text|;
      1 <= k <= 16 && r[..|text|] == text && forall i :: |text| <= i < |r| ==> r[i] as nat == k
  {
  }

  /** None is the nil slice that stands for bad padding. */
  function Unpad(text: seq<byte>): Option<seq<byte>> {
    if text == [] then None
    else
      var p := text[|text| - 1];
      if p as nat > |text| || p > 16 || p == 0 then None
      else if forall i :: |text| - p as nat <= i < |text| ==> text[i] == p then Some(text[..|text| - p as nat])
      else None
  }

  lemma UnpadPad(text: seq<byte>)
    ensures Unpad(Pad(text)) == Some(text)
  {
    var p := Padding(|text|);
    assert Pad(text)[|Pad(text)| - 1] == p;
    assert Pad(text)[..|text|] == text;
  }

  /** Padding what was unpadded gives the text back exactly on whole blocks. */
  lemma PadUnpadIff(text: seq<byte>)
    requires Unpad(text).Some?
    ensures Pad(Unpad(text).value) == text <==> |text| % 16 == 0
  {
    var p := text[|text| - 1];
    var t := text[..|text| - p as nat];
    if |text| % 16 == 0 {
      assert Padding(|t|) == p;
      assert seq(p as nat, _ => p) == text[|t|..];
      assert text == t + text[|t|..];
    }
  }

  method PadPKCS7(text: seq<byte>) returns (r: seq<byte>)
    ensures r == Pad(text)
  {
    var padding := 16 - |text| % 16;
    r := text;
    for i := 0 to padding
      invariant r == text + seq(i, _ => padding as byte)
    {
      r := r + [padding as byte];
    }
  }

  method UnpadPKCS7(text: seq<byte>) returns (r: Option<seq<byte>>)
    ensures r == Unpad(text)
  {
    if |text| == 0 {
      return None;
    }
    var padding := text[|text| - 1];
    if padding as nat > |text| || padding > 16 {
      return None;
    } else if padding == 0 {
      return None;
    }
    var i := |text| - 1;
    while i > |text| - padding as nat - 1
      invariant |text| - padding as nat - 1 <= i <= |text| - 1
      invariant forall j :: i < j < |text| ==> text[j] == padding
    {
      if text[i] != padding {
        return None;
      }
      i := i - 1;
    }
    return Some(text[..|text| - padding as nat]);
  }

  // ---- The exported operations ----

  /** Ciphertext of a text under a key and an initialization vector. */
  function Sealed(c: Cipher, key: seq<byte>, iv: Block, plaintext: seq<byte>): (r: seq<byte>)
    ensures |r| % 16 == 0 && |r| > |plaintext|
  {
    CbcEncrypt(c, key, iv, Pad(plaintext))
  }

  method EncryptWithIV(c: Cipher, key: seq<byte>, plaintext: seq<byte>, iv: Block)
    returns (r: Result<(seq<byte>, Block)>)
    ensures r == if KeySizeOk(key) then Success((Sealed(c, key, iv, plaintext), iv)) else Failure(BadKeySize)
  {
    var paddedPlaintext := PadPKCS7(plaintext);
    if !KeySizeOk(key) {
      return Failure(BadKeySize);
    }
    var buf := new byte[|paddedPlaintext|](i requires 0 <= i < |paddedPlaintext| => paddedPlaintext[i]);
    assert buf[..] == paddedPlaintext;
    EncryptBlocks(c, key, iv, buf);
    return Success((buf[..], iv));
  }

  /** Encrypt draws the initialization vector itself; here it is handed in as random. */
  method Encrypt(c: Cipher, key: seq<byte>, plaintext: seq<byte>, random: Block)
    returns (r: Result<(seq<byte>, Block)>)
    ensures r.Success? <==> KeySizeOk(key)
    ensures r.Success? ==> r.value == (Sealed(c, key, random, plaintext), random)
  {
    r := EncryptWithIV(c, key, plaintext, random);
  }

  /** What Decrypt returns for a ciphertext. */
  function Opened(c: Cipher, key: seq<byte>, ciphertext: seq<byte>, iv: Block): Result<Option<seq<byte>>> {
    if !KeySizeOk(key) then Failure(BadKeySize)
    else if |ciphertext| < 16 then Failure(ShortCiphertext)
    else if |ciphertext| % 16 != 0 then Failure(PartialBlock)
    else Success(Unpad(CbcDecrypt(c, key, iv, ciphertext)))
  }

  /** Decrypt works in place: the caller's ciphertext is gone afterwards. */
  method Decrypt(c: Cipher, key: seq<byte>, ciphertext: array<byte>, iv: Block)
    returns (r: Result<Option<seq<byte>>>)
    modifies ciphertext
    ensures r == Opened(c, key, old(ciphertext[..]), iv)
    ensures ciphertext[..] == if r.Success? then CbcDecrypt(c, key, iv, old(ciphertext[..])) else old(ciphertext[..])
  {
    if !KeySizeOk(key) {
      return Failure(BadKeySize);
    }
    if ciphertext.Length < 16 {
      return Failure(ShortCiphertext);
    }
    if ciphertext.Length % 16 != 0 {
      return Failure(PartialBlock);
    }
    DecryptBlocks(c, key, iv, ciphertext);
    var plaintext := UnpadPKCS7(ciphertext[..]);
    return Success(plaintext);
  }

  /** Decryption undoes encryption for every text, key and initialization vector. */
  lemma OpenSealed(c: Cipher, key: seq<byte>, iv: Block, plaintext: seq<byte>)
    requires Invertible(c) && KeySizeOk(key)
    ensures Opened(c, key, Sealed(c, key, iv, plaintext), iv) == Success(Some(plaintext))
  {
    CbcRoundTrip(c, key, iv, Pad(plaintext));
    UnpadPad(plaintext);
  }

  /** Decryption returns p for exactly the ciphertexts that are p sealed under the same key and vector. */
  lemma OpenedIff(c: Cipher, key: seq<byte>, iv: Block, ciphertext: seq<byte>, p: seq<byte>)
    requires Invertible(c)
    ensures Opened(c, key, ciphertext, iv) == Success(Some(p)) <==> KeySizeOk(key) && ciphertext == Sealed(c, key, iv, p)
  {
    if Opened(c, key, ciphertext, iv) == Success(Some(p)) {
      CbcOnto(c, key, iv, ciphertext);
      PadUnpadIff(CbcDecrypt(c, key, iv, ciphertext));
    }
    if KeySizeOk(key) && ciphertext == Sealed(c, key, iv, p) {
      OpenSealed(c, key, iv, p);
    }
  }

  /** The nil slice is returned for exactly the whole blocks that seal no text at all. */
  lemma OpenedNilIff(c: Cipher, key: seq<byte>, iv: Block, ciphertext: seq<byte>)
    requires Invertible(c)
    ensures Opened(c, key, ciphertext, iv) == Success(None) <==>
      KeySizeOk(key) && |ciphertext| >= 16 && |ciphertext| % 16 == 0 && forall p :: ciphertext != Sealed(c, key, iv, p)
  {
    forall p ensures Opened(c, key, ciphertext, iv) == Success(Some(p)) <==> KeySizeOk(key) && ciphertext == Sealed(c, key, iv, p) {
      OpenedIff(c, key, iv, ciphertext, p);
    }
    if KeySizeOk(key) && |ciphertext| >= 16 && |ciphertext| % 16 == 0 && Opened(c, key, ciphertext, iv) != Success(None) {
      var p := Unpad(CbcDecrypt(c, key, iv, ciphertext)).value;
      assert ciphertext == Sealed(c, key, iv, p);
    }
  }
}
