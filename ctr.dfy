/** The AES counter mode of AES.py:263-414 (after section 6.5 of NIST SP 800-38A):
    PKCS#7-style padding (section 10.3 of RFC 5652), a big-endian counter that is
    re-encoded at its minimal length after every increment, splitting into and
    joining of 16-byte blocks, and the encrypt and decrypt loops. Where the Python
    code raises IndexError (a key or counter shorter than 16 bytes reaching
    encryptAES, an empty block list reaching unionBlocks, an empty string reaching
    unpadding) the model returns Failure. */
module Ctr {
  import opened NumberTheory
  import opened Bytes
  import opened Aes

  datatype Result<T> = Success(value: T) | Failure(error: string)

  const BLOCK_SIZE: nat := 16

  // ---------------------------------------------------------------------------
  // Padding

  /** padding: append N copies of the byte N, N = 16 - (len mod 16). */
  function Padding(plaintext: seq<byte>): (r: seq<byte>)
    ensures |r| % 16 == 0 && |plaintext| < |r| <= |plaintext| + 16
    ensures r[..|plaintext|] == plaintext
    ensures forall i | |plaintext| <= i < |r| :: r[i] == |r| - |plaintext|
  {
    var n := 16 - |plaintext| % 16;
    plaintext + seq(n, _ => n)
  }

  /** unpadding: drop as many trailing bytes as the last byte says. Python's
      `s[:-n]` is empty when n is 0 or at least len(s). */
  function Unpadding(s: seq<byte>): (r: Result<seq<byte>>)
    ensures r.Failure? <==> s == []
    ensures r.Success? ==> r.value <= s
    ensures r.Success? && 0 < s[|s| - 1] < |s| ==> |r.value| == |s| - s[|s| - 1]
    ensures r.Success? && (s[|s| - 1] == 0 || s[|s| - 1] >= |s|) ==> r.value == []
  {
    if s == [] then Failure("IndexError: index out of range")
    else
      var n := s[|s| - 1];
      if n == 0 || n >= |s| then Success([]) else Success(s[..|s| - n])
  }

  /** Removing the padding gives the message back. */
  lemma UnpaddingPadding(plaintext: seq<byte>)
    ensures Unpadding(Padding(plaintext)) == Success(plaintext)
  {
    var r := Padding(plaintext);
    assert r[|r| - 1] == |r| - |plaintext|;
  }

  // ---------------------------------------------------------------------------
  // The counter

  /** increaseCounter: the counter's big-endian value plus one, re-encoded at its
      minimal length max(1, ceil(bit_length / 8)). */
  function IncreaseCounter(counter: seq<byte>): (r: seq<byte>)
    ensures |r| == ByteLength(FromBytes(counter) + 1)
  {
    ToBytes(FromBytes(counter) + 1)
  }

  /** The new counter encodes the old value plus one, with no leading zero byte. */
  lemma IncreaseCounterValue(counter: seq<byte>)
    ensures FromBytes(IncreaseCounter(counter)) == FromBytes(counter) + 1
    ensures IncreaseCounter(counter)[0] != 0
  {
    ToBytesValue(FromBytes(counter) + 1);
    ToBytesLeadingByte(FromBytes(counter) + 1);
  }

  /** Its length is the expression of AES.py:316. */
  lemma IncreaseCounterLength(counter: seq<byte>)
    ensures var b := BitLength(FromBytes(counter) + 1);
      |IncreaseCounter(counter)| == if b == 0 then 1 else (b + 7) / 8
  {
    ByteLengthFromBits(FromBytes(counter) + 1);
  }

  /** On overflow (all bytes 0xFF) the counter grows by one byte. */
  lemma CounterGrows(counter: seq<byte>)
    requires FromBytes(counter) + 1 == Pow(256, |counter|)
    ensures |IncreaseCounter(counter)| == |counter| + 1
  {
    ByteLengthOfPow(|counter|);
  }

  /** With leading zero bytes the counter shrinks: the value plus one fits in fewer bytes. */
  lemma CounterShrinks(counter: seq<byte>)
    requires |counter| > 1 && FromBytes(counter) + 1 < Pow(256, |counter| - 1)
    ensures |IncreaseCounter(counter)| < |counter|
  {
    var x := FromBytes(counter) + 1;
    var n := ByteLength(x);
    ByteLengthBounds(x);
    if n >= |counter| {
      PowMonotoneLe(256, |counter| - 1, n - 1);
    }
  }

  /** A counter whose first byte is nonzero keeps its length unless it overflows. */
  lemma CounterKeepsLength(counter: seq<byte>)
    requires |counter| > 0 && counter[0] != 0 && FromBytes(counter) + 1 < Pow(256, |counter|)
    ensures |IncreaseCounter(counter)| == |counter|
  {
    var x := FromBytes(counter) + 1;
    if |counter| > 1 {
      FromBytesFront(counter);
      PowPositive(256, |counter| - 1);
      MulAtLeast(counter[0], Pow(256, |counter| - 1));
    }
    ByteLengthBounds(x);
    MinimalLengthUnique(x, ByteLength(x), |counter|);
  }

  /** The counter used for block i: the iv, then the minimal encoding of its value plus i. */
  function CounterAt(iv: seq<byte>, i: nat): seq<byte>
  {
    if i == 0 then iv else ToBytes(FromBytes(iv) + i)
  }

  /** CounterAt is the iv incremented i times: one more increment gives the next one. */
  lemma CounterAtStep(iv: seq<byte>, i: nat)
    ensures IncreaseCounter(CounterAt(iv, i)) == CounterAt(iv, i + 1)
  {
    var v := FromBytes(iv) + i;
    assert CounterAt(iv, i + 1) == ToBytes(v + 1);
    if i > 0 {
      var c := ToBytes(v);
      assert CounterAt(iv, i) == c;
      ToBytesValue(v);
      assert IncreaseCounter(c) == ToBytes(FromBytes(c) + 1);
    }
  }

  /** A 16-byte iv with a nonzero first byte has a value of at least 256^15, so every
      later counter still has at least 16 bytes. */
  lemma CounterAtLength(iv: seq<byte>, i: nat)
    requires |iv| == 16 && iv[0] != 0
    ensures |CounterAt(iv, i)| >= 16
  {
    if i > 0 {
      var x := FromBytes(iv) + i;
      FromBytesFront(iv);
      PowPositive(256, 15);
      MulAtLeast(iv[0], Pow(256, 15));
      assert Pow(256, 15) <= x;
      var n := ByteLength(x);
      ByteLengthBounds(x);
      if n < 16 {
        PowMonotoneLe(256, n, 15);
      }
    }
  }

  // ---------------------------------------------------------------------------
  // Blocks

  /** The complete 16-byte blocks of s, in order; a shorter tail is dropped. */
  function Blocks(s: seq<byte>): (blocks: seq<seq<byte>>)
    ensures |blocks| == |s| / 16
    ensures forall i | 0 <= i < |blocks| :: |blocks[i]| == 16
  {
    seq(|s| / 16, i requires 0 <= i < |s| / 16 => s[16 * i .. 16 * (i + 1)])
  }

  /** The blocks joined in order. */
  function Concat(blocks: seq<seq<byte>>): seq<byte>
  {
    if blocks == [] then [] else Concat(blocks[..|blocks| - 1]) + blocks[|blocks| - 1]
  }

  /** Joining 16-byte blocks gives 16 bytes per block. */
  lemma {:induction false} ConcatLength(blocks: seq<seq<byte>>)
    requires forall i | 0 <= i < |blocks| :: |blocks[i]| == 16
    ensures |Concat(blocks)| == 16 * |blocks|
  {
    if blocks != [] {
      ConcatLength(blocks[..|blocks| - 1]);
    }
  }

  /** Joining the blocks of s gives back its whole-block prefix. */
  lemma {:induction false} ConcatBlocks(s: seq<byte>, n: nat)
    requires n <= |s| / 16
    ensures Concat(Blocks(s)[..n]) == s[..16 * n]
  {
    if n > 0 {
      var b := Blocks(s)[..n];
      assert b[..n - 1] == Blocks(s)[..n - 1];
      ConcatBlocks(s, n - 1);
      assert s[..16 * n] == s[..16 * (n - 1)] + s[16 * (n - 1) .. 16 * n];
    }
  }

  /** Splitting a joined sequence of 16-byte blocks gives the blocks back. */
  lemma {:induction false} BlocksOfConcat(blocks: seq<seq<byte>>)
    requires forall i | 0 <= i < |blocks| :: |blocks[i]| == 16
    ensures Blocks(Concat(blocks)) == blocks
  {
    if blocks != [] {
      var init := blocks[..|blocks| - 1];
      BlocksOfConcat(init);
      ConcatLength(init);
      ConcatLength(blocks);
      var s := Concat(blocks);
      forall i | 0 <= i < |blocks|
        ensures Blocks(s)[i] == blocks[i]
      {
        if i < |init| {
          assert Blocks(s)[i] == Concat(init)[16 * i .. 16 * (i + 1)];
        }
      }
    }
  }

  /** splitIntoBlocks with its default block size of 16. */
  method SplitIntoBlocks(plaintext: seq<byte>) returns (blocks: seq<seq<byte>>)
    ensures blocks == Blocks(plaintext)
  {
    blocks := [];
    var i := 0;
    while i < |plaintext| / BLOCK_SIZE
      invariant 0 <= i <= |plaintext| / 16
      invariant blocks == Blocks(plaintext)[..i]
    {
      blocks := blocks + [plaintext[BLOCK_SIZE * i .. BLOCK_SIZE * (i + 1)]];
      i := i + 1;
    }
  }

  /** unionBlocks: the first block, then each later one appended; IndexError on no blocks. */
  function Union(blocks: seq<seq<byte>>): (r: Result<seq<byte>>)
    ensures r.Failure? <==> blocks == []
    ensures r.Success? ==> r.value == Concat(blocks)
  {
    if blocks == [] then Failure("IndexError: list index out of range") else Success(Concat(blocks))
  }

  method UnionBlocks(blocks: seq<seq<byte>>) returns (r: Result<seq<byte>>)
    ensures r == Union(blocks)
  {
    if |blocks| == 0 {
      return Failure("IndexError: list index out of range");
    }
    var union := blocks[0];
    assert blocks[..1] == [blocks[0]];
    for i := 1 to |blocks|
      invariant union == Concat(blocks[..i])
    {
      assert blocks[..i + 1][..i] == blocks[..i];
      union := union + blocks[i];
    }
    assert blocks[..|blocks|] == blocks;
    r := Success(union);
  }

  // ---------------------------------------------------------------------------
  // Counter mode

  /** A block cipher as counter mode uses it: 16 bytes out for any counter and key.
      The mode's properties hold whatever the cipher computes. */
  type BlockCipher = f: (seq<byte>, seq<byte>) -> seq<byte> | forall c, k :: |f(c, k)| == 16
    witness (c: seq<byte>, k: seq<byte>) => seq(16, _ => 0)

  /** encryptAES(counter, key) wherever it returns; counter mode never asks for it on
      shorter inputs (see KeystreamDefined), so the zero block is never used. */
  function AesBlock(counter: seq<byte>, key: seq<byte>): (r: seq<byte>)
    ensures |r| == 16
    ensures |counter| >= 16 && |key| >= 16 ==> r == Cipher(counter, key)
  {
    if |counter| >= 16 && |key| >= 16 then Cipher(counter, key) else seq(16, _ => 0)
  }

  /** AesBlock as a block cipher value. */
  const AES: BlockCipher := (counter: seq<byte>, key: seq<byte>) => AesBlock(counter, key)

  /** Every block of the loop can reach encryptAES without an IndexError: the key and
      the counters for blocks 0..n-1 all have at least 16 bytes (nothing is needed
      when there are no blocks). */
  predicate KeystreamDefined(key: seq<byte>, iv: seq<byte>, n: nat)
  {
    n == 0 || (|key| >= 16 && forall i | 0 <= i < n :: |CounterAt(iv, i)| >= 16)
  }

  /** The loop shared by encryptCTR and decryptCTR: block i is XORed with the
      encryption of the iv incremented i times. */
  function CtrBlocks(E: BlockCipher, blocks: seq<seq<byte>>, key: seq<byte>, iv: seq<byte>): (r: Result<seq<seq<byte>>>)
    requires forall i | 0 <= i < |blocks| :: |blocks[i]| == 16
    ensures r.Success? <==> KeystreamDefined(key, iv, |blocks|)
    ensures r.Success? ==> |r.value| == |blocks| && forall i | 0 <= i < |blocks| :: |r.value[i]| == 16
  {
    if KeystreamDefined(key, iv, |blocks|) then
      var out := seq(|blocks|, i requires 0 <= i < |blocks| => XorBytes(blocks[i], E(CounterAt(iv, i), key)));
      assert forall i | 0 <= i < |blocks| :: out[i] == XorBytes(blocks[i], E(CounterAt(iv, i), key));
      Success(out)
    else Failure("IndexError: list index out of range")
  }

  /** encryptCTR as a function of its inputs. */
  function CtrEncrypt(E: BlockCipher, plaintext: seq<byte>, key: seq<byte>, iv: seq<byte>): Result<seq<byte>>
  {
    var r := CtrBlocks(E, Blocks(Padding(plaintext)), key, iv);
    if r.Failure? then Failure(r.error) else Union(r.value)
  }

  /** decryptCTR as a function of its inputs. */
  function CtrDecrypt(E: BlockCipher, ciphertext: seq<byte>, key: seq<byte>, iv: seq<byte>): Result<seq<byte>>
  {
    var r := CtrBlocks(E, Blocks(ciphertext), key, iv);
    if r.Failure? then Failure(r.error)
    else
      var u := Union(r.value);
      if u.Failure? then u else Unpadding(u.value)
  }

  /** The first i blocks of the loop's output are done. */
  predicate Processed(E: BlockCipher, out: seq<seq<byte>>, blocks: seq<seq<byte>>, key: seq<byte>, iv: seq<byte>, i: nat)
    requires forall j | 0 <= j < |blocks| :: |blocks[j]| == 16
    requires i <= |blocks|
  {
    |out| == i && forall j | 0 <= j < i :: out[j] == XorBytes(blocks[j], E(CounterAt(iv, j), key))
  }

  /** One more block of the loop: the counter was long enough and block i is done. */
  lemma ProcessedStep(E: BlockCipher, out: seq<seq<byte>>, blocks: seq<seq<byte>>, key: seq<byte>, iv: seq<byte>, i: nat, keystream: seq<byte>)
    requires forall j | 0 <= j < |blocks| :: |blocks[j]| == 16
    requires i < |blocks| && Processed(E, out, blocks, key, iv, i) && keystream == E(CounterAt(iv, i), key)
    requires KeystreamDefined(key, iv, i) && |key| >= 16 && |CounterAt(iv, i)| >= 16
    ensures KeystreamDefined(key, iv, i + 1)
    ensures Processed(E, out + [XorBytes(blocks[i], keystream)], blocks, key, iv, i + 1)
  {
    var next := out + [XorBytes(blocks[i], keystream)];
    forall j | 0 <= j < i + 1
      ensures next[j] == XorBytes(blocks[j], E(CounterAt(iv, j), key))
    {
      if j < i {
        assert next[j] == out[j];
      }
    }
  }

  /** The loop's output once every block is done. */
  lemma ProcessedAll(E: BlockCipher, out: seq<seq<byte>>, blocks: seq<seq<byte>>, key: seq<byte>, iv: seq<byte>)
    requires forall j | 0 <= j < |blocks| :: |blocks[j]| == 16
    requires KeystreamDefined(key, iv, |blocks|) && Processed(E, out, blocks, key, iv, |blocks|)
    ensures CtrBlocks(E, blocks, key, iv) == Success(out)
  {
    assert out == CtrBlocks(E, blocks, key, iv).value;
  }

  /** The loop of encryptCTR and decryptCTR: encrypt the counter, XOR it into the
      block, increment the counter. */
  method CtrLoop(blocks: seq<seq<byte>>, key: seq<byte>, iv: seq<byte>) returns (r: Result<seq<seq<byte>>>)
    requires forall i | 0 <= i < |blocks| :: |blocks[i]| == 16
    ensures r == CtrBlocks(AES, blocks, key, iv)
  {
    var out: seq<seq<byte>> := [];
    var counter := iv;
    for i := 0 to |blocks|
      invariant counter == CounterAt(iv, i)
      invariant KeystreamDefined(key, iv, i)
      invariant Processed(AES, out, blocks, key, iv, i)
    {
      if |counter| < 16 || |key| < 16 {
        assert !KeystreamDefined(key, iv, |blocks|) by {
          assert |CounterAt(iv, i)| < 16 || |key| < 16;
        }
        return Failure("IndexError: list index out of range");
      }
      var keystream := EncryptAES(counter, key);
      ProcessedStep(AES, out, blocks, key, iv, i, keystream);
      out := out + [XorBytes(blocks[i], keystream)];
      CounterAtStep(iv, i);
      counter := IncreaseCounter(counter);
    }
    ProcessedAll(AES, out, blocks, key, iv);
    r := Success(out);
  }

  /** encryptCTR: pad, split, run the counter loop, join. */
  method EncryptCTR(plaintext: seq<byte>, key: seq<byte>, iv: seq<byte>) returns (r: Result<seq<byte>>)
    ensures r == CtrEncrypt(AES, plaintext, key, iv)
  {
    var padded := Padding(plaintext);
    var plaintextBlocks := SplitIntoBlocks(padded);
    var blocks := CtrLoop(plaintextBlocks, key, iv);
    if blocks.Failure? {
      return Failure(blocks.error);
    }
    r := UnionBlocks(blocks.value);
  }

  /** decryptCTR: split, run the counter loop, join, unpad. */
  method DecryptCTR(ciphertext: seq<byte>, key: seq<byte>, iv: seq<byte>) returns (r: Result<seq<byte>>)
    ensures r == CtrDecrypt(AES, ciphertext, key, iv)
  {
    var ciphertextBlocks := SplitIntoBlocks(ciphertext);
    var blocks := CtrLoop(ciphertextBlocks, key, iv);
    if blocks.Failure? {
      return Failure(blocks.error);
    }
    var union := UnionBlocks(blocks.value);
    if union.Failure? {
      return union;
    }
    r := Unpadding(union.value);
  }

  // ---------------------------------------------------------------------------
  // Properties of counter mode

  /** Encryption fails exactly when a counter or the key is too short, and otherwise
      yields 16 (len(p) div 16 + 1) bytes. */
  lemma CtrEncryptLength(E: BlockCipher, plaintext: seq<byte>, key: seq<byte>, iv: seq<byte>)
    ensures CtrEncrypt(E, plaintext, key, iv).Success? <==> KeystreamDefined(key, iv, |plaintext| / 16 + 1)
    ensures CtrEncrypt(E, plaintext, key, iv).Success? ==>
      |CtrEncrypt(E, plaintext, key, iv).value| == 16 * (|plaintext| / 16 + 1)
  {
    var padded := Padding(plaintext);
    assert |padded| / 16 == |plaintext| / 16 + 1;
    var r := CtrBlocks(E, Blocks(padded), key, iv);
    if r.Success? {
      ConcatLength(r.value);
    }
  }

  /** Decrypting fewer than 16 bytes fails in unionBlocks: there is no block to join. */
  lemma CtrDecryptShort(E: BlockCipher, ciphertext: seq<byte>, key: seq<byte>, iv: seq<byte>)
    requires |ciphertext| < 16
    ensures CtrDecrypt(E, ciphertext, key, iv).Failure?
  {
  }

  /** Running the counter loop twice with the same key and iv gives the blocks back:
      the same keystream is XORed twice. */
  lemma CtrBlocksTwice(E: BlockCipher, blocks: seq<seq<byte>>, key: seq<byte>, iv: seq<byte>)
    requires forall i | 0 <= i < |blocks| :: |blocks[i]| == 16
    requires CtrBlocks(E, blocks, key, iv).Success?
    ensures CtrBlocks(E, CtrBlocks(E, blocks, key, iv).value, key, iv) == Success(blocks)
  {
    var once := CtrBlocks(E, blocks, key, iv).value;
    assert KeystreamDefined(key, iv, |once|);
    var twice := CtrBlocks(E, once, key, iv).value;
    forall i | 0 <= i < |blocks|
      ensures twice[i] == blocks[i]
    {
      var k := E(CounterAt(iv, i), key);
      assert once[i] == XorBytes(blocks[i], k);
      XorBytesTwice(blocks[i], k);
    }
    assert twice == blocks;
  }

  /** decryptCTR inverts encryptCTR whenever encryption succeeds. */
  lemma CtrRoundTrip(E: BlockCipher, plaintext: seq<byte>, key: seq<byte>, iv: seq<byte>)
    requires CtrEncrypt(E, plaintext, key, iv).Success?
    ensures CtrDecrypt(E, CtrEncrypt(E, plaintext, key, iv).value, key, iv) == Success(plaintext)
  {
    var padded := Padding(plaintext);
    var blocks := Blocks(padded);
    var once := CtrBlocks(E, blocks, key, iv).value;
    BlocksOfConcat(once);
    CtrBlocksTwice(E, blocks, key, iv);
    ConcatBlocks(padded, |blocks|);
    assert Blocks(padded)[..|blocks|] == blocks;
    assert padded[..16 * |blocks|] == padded;
    assert Union(blocks) == Success(padded);
    UnpaddingPadding(plaintext);
  }

  /** In particular the round trip holds for a 16-byte iv whose first byte is nonzero
      and a key of at least 16 bytes: every counter then keeps at least 16 bytes. */
  lemma CtrRoundTripFreshIv(E: BlockCipher, plaintext: seq<byte>, key: seq<byte>, iv: seq<byte>)
    requires |key| >= 16 && |iv| == 16 && iv[0] != 0
    ensures CtrEncrypt(E, plaintext, key, iv).Success?
    ensures CtrDecrypt(E, CtrEncrypt(E, plaintext, key, iv).value, key, iv) == Success(plaintext)
  {
    forall i: nat
      ensures |CounterAt(iv, i)| >= 16
    {
      CounterAtLength(iv, i);
    }
    CtrEncryptLength(E, plaintext, key, iv);
    CtrRoundTrip(E, plaintext, key, iv);
  }

  // ---------------------------------------------------------------------------
  // Counters that shrink, and the fixed-width counter

  /** As written, a 16-byte iv whose value plus one is below 256^15 (sixteen zero bytes,
      say) gives a second counter shorter than 16 bytes, and encryptAES fails on it for
      every plaintext of at least one full block. */
  lemma CtrShortCounterFails(E: BlockCipher, plaintext: seq<byte>, key: seq<byte>, iv: seq<byte>)
    requires |plaintext| >= 16 && FromBytes(iv) + 1 < Pow(256, 15)
    ensures CtrEncrypt(E, plaintext, key, iv).Failure?
  {
    CtrEncryptLength(E, plaintext, key, iv);
    SecondCounterShort(iv);
    assert |plaintext| / 16 + 1 > 1;
  }

  /** The counter for the second block is the minimal encoding of the iv's value plus
      one, so a small value gives a short counter. */
  lemma SecondCounterShort(iv: seq<byte>)
    requires FromBytes(iv) + 1 < Pow(256, 15)
    ensures |CounterAt(iv, 1)| < 16
  {
    var x := FromBytes(iv) + 1;
    assert CounterAt(iv, 1) == ToBytes(x);
    ByteLengthBounds(x);
    if ByteLength(x) >= 16 {
      PowMonotoneLe(256, 15, ByteLength(x) - 1);
    }
  }

  /** The increment of NIST SP 800-38A: the counter keeps its width and wraps around
      modulo 256^|counter|. */
  function IncreaseCounterFixed(counter: seq<byte>): (r: seq<byte>)
    ensures |r| == |counter|
    ensures FromBytes(r) == if FromBytes(counter) + 1 == Pow(256, |counter|) then 0
                            else FromBytes(counter) + 1
  {
    FromBytesBound(counter);
    var v := FromBytes(counter) + 1;
    var x := if v == Pow(256, |counter|) then 0 else v;
    PowPositive(256, |counter|);
    DigitsValue(x, |counter|);
    Digits(x, |counter|)
  }

  /** The counter for block i under the fixed-width increment. */
  function FixedCounterAt(iv: seq<byte>, i: nat): (c: seq<byte>)
    ensures |c| == |iv|
  {
    if i == 0 then iv else IncreaseCounterFixed(FixedCounterAt(iv, i - 1))
  }

  /** The counter loop with the fixed-width counter: only the key and the iv have to
      reach 16 bytes. */
  function CtrBlocksFixed(E: BlockCipher, blocks: seq<seq<byte>>, key: seq<byte>, iv: seq<byte>)
    : (r: Result<seq<seq<byte>>>)
    requires forall i | 0 <= i < |blocks| :: |blocks[i]| == 16
    ensures r.Success? <==> blocks == [] || (|key| >= 16 && |iv| >= 16)
    ensures r.Success? ==> |r.value| == |blocks| && forall i | 0 <= i < |blocks| :: |r.value[i]| == 16
  {
    if blocks == [] || (|key| >= 16 && |iv| >= 16) then
      var out := seq(|blocks|, i requires 0 <= i < |blocks| => XorBytes(blocks[i], E(FixedCounterAt(iv, i), key)));
      assert forall i | 0 <= i < |blocks| :: out[i] == XorBytes(blocks[i], E(FixedCounterAt(iv, i), key));
      Success(out)
    else Failure("IndexError: list index out of range")
  }

  /** encryptCTR with the fixed-width counter. */
  function CtrEncryptFixed(E: BlockCipher, plaintext: seq<byte>, key: seq<byte>, iv: seq<byte>): Result<seq<byte>>
  {
    var r := CtrBlocksFixed(E, Blocks(Padding(plaintext)), key, iv);
    if r.Failure? then Failure(r.error) else Union(r.value)
  }

  /** decryptCTR with the fixed-width counter. */
  function CtrDecryptFixed(E: BlockCipher, ciphertext: seq<byte>, key: seq<byte>, iv: seq<byte>): Result<seq<byte>>
  {
    var r := CtrBlocksFixed(E, Blocks(ciphertext), key, iv);
    if r.Failure? then Failure(r.error)
    else
      var u := Union(r.value);
      if u.Failure? then u else Unpadding(u.value)
  }

  /** With the fixed-width counter the round trip holds for every 16-byte iv and every key
      of at least 16 bytes. */
  lemma CtrFixedRoundTrip(E: BlockCipher, plaintext: seq<byte>, key: seq<byte>, iv: seq<byte>)
    requires |key| >= 16 && |iv| == 16
    ensures CtrEncryptFixed(E, plaintext, key, iv).Success?
    ensures CtrDecryptFixed(E, CtrEncryptFixed(E, plaintext, key, iv).value, key, iv) == Success(plaintext)
  {
    var padded := Padding(plaintext);
    var blocks := Blocks(padded);
    var once := CtrBlocksFixed(E, blocks, key, iv).value;
    assert |blocks| >= 1;
    ConcatLength(once);
    BlocksOfConcat(once);
    var twice := CtrBlocksFixed(E, once, key, iv).value;
    forall i | 0 <= i < |blocks|
      ensures twice[i] == blocks[i]
    {
      var k := E(FixedCounterAt(iv, i), key);
      assert once[i] == XorBytes(blocks[i], k);
      XorBytesTwice(blocks[i], k);
    }
    assert twice == blocks;
    ConcatBlocks(padded, |blocks|);
    assert Blocks(padded)[..|blocks|] == blocks;
    assert padded[..16 * |blocks|] == padded;
    UnpaddingPadding(plaintext);
  }
}
