/** MGF1 and the OAEP layout of RSA.py, and the RSA-OAEP compositions. SHA3-256 is a
    parameter: any function from byte strings to 32-byte digests. */
module Oaep {
  import opened NumberTheory
  import opened Bytes
  import opened Rsa
  import opened Primes

  /** hLen, the digest length of SHA3-256. */
  const HASH_LEN: nat := 32

  /** The byte '0' (0x30) that fills DB between the label hash and the 0x01 byte. */
  const FILLER: byte := 0x30

  /** The default block length k of OAEPCypher and OAEPDecypher. */
  const K: nat := 256

  /** A hash function with 32-byte digests, standing for hashlib.sha3_256. */
  type Hash = h: seq<byte> -> seq<byte> | forall s :: |h(s)| == HASH_LEN
    witness (s: seq<byte>) => seq(32, _ => 0)

  /** s[lo:hi], with Python's clamping of bounds beyond the end. */
  function Slice(s: seq<byte>, lo: nat, hi: nat): seq<byte>
  {
    var h := if hi <= |s| then hi else |s|;
    var l := if lo <= h then lo else h;
    s[l..h]
  }

  /** H(seed ‖ to_bytes(0)) ‖ H(seed ‖ to_bytes(1)) ‖ ... ‖ H(seed ‖ to_bytes(count - 1)). */
  function MaskBlocks(H: Hash, seed: seq<byte>, count: nat): (r: seq<byte>)
    ensures |r| == 32 * count
  {
    if count == 0 then [] else MaskBlocks(H, seed, count - 1) + H(seed + ToBytes(count - 1))
  }

  /** The number of digests mgf1 computes to produce size bytes. */
  function BlockCount(size: nat): nat
  {
    (size + 31) / 32
  }

  /** BlockCount(size) digests are the fewest that give size bytes. */
  lemma BlockCountLeast(size: nat, count: nat)
    requires 32 * count >= size && 32 * count < size + 32
    ensures count == BlockCount(size)
  {
  }

  /** mgf1(seed, size): the first size bytes of the digest stream. */
  function Mask(H: Hash, seed: seq<byte>, size: nat): (r: seq<byte>)
    ensures |r| == size
  {
    MaskBlocks(H, seed, BlockCount(size))[..size]
  }

  /** mgf1: hash seed ‖ to_bytes(counter) for counter = 0, 1, ... until size bytes are
      there, then cut to size. */
  method Mgf1(H: Hash, seed: seq<byte>, size: nat) returns (mask: seq<byte>)
    ensures mask == Mask(H, seed, size)
  {
    var counter := 0;
    var output := [];
    while |output| < size
      invariant output == MaskBlocks(H, seed, counter) && |output| == 32 * counter
      invariant 32 * counter < size + 32
      decreases size - |output|
    {
      var c := ToBytes(counter);
      MaskBlocksStep(H, seed, counter);
      output := output + H(seed + c);
      counter := counter + 1;
    }
    MaskOfBlocks(H, seed, size, counter);
    mask := output[..size];
  }

  /** One more digest extends the stream by 32 bytes. */
  lemma MaskBlocksStep(H: Hash, seed: seq<byte>, count: nat)
    ensures MaskBlocks(H, seed, count + 1) == MaskBlocks(H, seed, count) + H(seed + ToBytes(count))
    ensures |MaskBlocks(H, seed, count + 1)| == 32 * count + 32
  {
  }

  /** Any number of digests that covers size bytes with fewer than 32 to spare is the
      one Mask uses. */
  lemma MaskOfBlocks(H: Hash, seed: seq<byte>, size: nat, count: nat)
    requires size <= 32 * count < size + 32
    ensures size <= |MaskBlocks(H, seed, count)|
    ensures Mask(H, seed, size) == MaskBlocks(H, seed, count)[..size]
  {
    BlockCountLeast(size, count);
  }

  /** The length of the run of filler bytes: '0' * n is empty for negative n. */
  function FillerLength(k: nat, messageLength: nat): nat
  {
    if k >= messageLength + 2 * HASH_LEN + 2 then k - messageLength - 2 * HASH_LEN - 2 else 0
  }

  /** db = lHash ‖ filler ‖ 0x01 ‖ message. */
  function DataBlock(lHash: seq<byte>, message: seq<byte>, k: nat): seq<byte>
  {
    lHash + seq(FillerLength(k, |message|), _ => FILLER) + [0x01] + message
  }

  /** The masking half of OAEPCypher: 0x00 ‖ maskedSeed ‖ maskedDB for the data block db
      and the seed to_bytes(seedValue). None stands for the OverflowError of int.to_bytes
      when a masked value does not fit its width. */
  function MaskDb(H: Hash, db: seq<byte>, seedValue: nat, k: nat): (r: Option<seq<byte>>)
    requires k > HASH_LEN
    ensures r.Some? ==> |r.value| == k && r.value[0] == 0
  {
    var seed := ToBytes(seedValue);
    var dbMask := Mask(H, seed, k - HASH_LEN - 1);
    match ToFixedBytes(XorInt(FromBytes(db), FromBytes(dbMask)), k - HASH_LEN - 1)
    case None => None
    case Some(maskedDb) =>
      var seedMask := Mask(H, maskedDb, HASH_LEN);
      match ToFixedBytes(XorInt(FromBytes(seed), FromBytes(seedMask)), HASH_LEN)
      case None => None
      case Some(maskedSeed) => Some([0x00] + maskedSeed + maskedDb)
  }

  /** OAEPCypher(message, label, k) with the random seed value given as seedValue and the
      label as its encoded bytes. None also stands for the ValueError of int.to_bytes
      with a negative length when k < hLen + 1. */
  function OaepEncode(H: Hash, message: seq<byte>, encodedLabel: seq<byte>, seedValue: nat, k: nat)
    : (r: Option<seq<byte>>)
    ensures r.Some? ==> |r.value| == k > HASH_LEN && r.value[0] == 0
  {
    if k < HASH_LEN + 1 then None
    else MaskDb(H, DataBlock(H(encodedLabel), message, k), seedValue, k)
  }

  /** The scan of OAEPDecypher: the first index from i on that is past the end of s or
      holds a byte other than the filler. */
  function FillerEnd(s: seq<byte>, i: nat): (j: nat)
    ensures i <= j && (i <= |s| ==> j <= |s|) && (i > |s| ==> j == i)
    ensures forall t | i <= t < j :: s[t] == FILLER
    ensures j < |s| ==> s[j] != FILLER
    decreases |s| - i
  {
    if i < |s| && s[i] == FILLER then FillerEnd(s, i + 1) else i
  }

  /** The block length of DB in OAEPDecypher; mgf1 of a negative size is empty. */
  function DbLength(k: nat): nat
  {
    if k > HASH_LEN + 1 then k - HASH_LEN - 1 else 0
  }

  /** The unmasking half of OAEPDecypher, up to the value of DB: the seed is recovered
      from maskedSeed and mgf1(maskedDB, hLen), then DB from maskedDB and mgf1(seed). */
  function UnmaskedValue(H: Hash, em: seq<byte>, k: nat): nat
  {
    var maskedSeed := Slice(em, 1, HASH_LEN + 1);
    var maskedDb := Slice(em, HASH_LEN + 1, |em|);
    var seedMask := Mask(H, maskedDb, HASH_LEN);
    var seed := ToBytes(XorInt(FromBytes(maskedSeed), FromBytes(seedMask)));
    var dbMask := Mask(H, seed, DbLength(k));
    XorInt(FromBytes(maskedDb), FromBytes(dbMask))
  }

  /** DB as OAEPDecypher recovers it: through to_bytes, which drops leading zero bytes. */
  function Unmask(H: Hash, em: seq<byte>, k: nat): seq<byte>
  {
    ToBytes(UnmaskedValue(H, em, k))
  }

  /** The checks of OAEPDecypher on a recovered DB: it fails when the first 32 bytes are not
      lHash or when the filler runs to the end; otherwise the message is what follows the
      first byte after the filler. Neither em[0] nor that byte is checked. */
  function ParseDb(lHash: seq<byte>, db: seq<byte>): Option<seq<byte>>
  {
    var i := FillerEnd(db, HASH_LEN);
    if i == |db| || lHash != Slice(db, 0, HASH_LEN) then None
    else Some(Slice(db, i + 1, |db|))
  }

  lemma ParseDbAccepts(lHash: seq<byte>, db: seq<byte>, i: nat)
    requires i == FillerEnd(db, HASH_LEN) < |db| && lHash == Slice(db, 0, HASH_LEN)
    ensures ParseDb(lHash, db) == Some(db[i + 1..])
  {
    assert Slice(db, i + 1, |db|) == db[i + 1..];
    assert !(i == |db| || lHash != Slice(db, 0, HASH_LEN));
  }

  /** OAEPDecypher(em, label, k), with the label as its encoded bytes. It only accepts a
      recovered DB that starts with the label's hash, and the message it returns comes
      after that hash and at least one more byte. */
  function OaepDecode(H: Hash, em: seq<byte>, encodedLabel: seq<byte>, k: nat): (r: Option<seq<byte>>)
    ensures r.Some? ==> Slice(Unmask(H, em, k), 0, HASH_LEN) == H(encodedLabel)
    ensures r.Some? ==> |r.value| + HASH_LEN + 1 <= |Unmask(H, em, k)|
  {
    ParseDb(H(encodedLabel), Unmask(H, em, k))
  }

  /** OAEPDecypher with DB written back at its full width k - hLen - 1, as I2OSP does in
      section 7.1.2 of RFC 8017, instead of through to_bytes. */
  function OaepDecodeFixed(H: Hash, em: seq<byte>, encodedLabel: seq<byte>, k: nat)
    : Option<seq<byte>>
  {
    match ToFixedBytes(UnmaskedValue(H, em, k), DbLength(k))
    case None => None
    case Some(db) => ParseDb(H(encodedLabel), db)
  }

  /** OAEPCypher, calling mgf1 for both masks. */
  method OaepCypher(H: Hash, message: seq<byte>, encodedLabel: seq<byte>, seedValue: nat, k: nat)
    returns (em: Option<seq<byte>>)
    ensures em == OaepEncode(H, message, encodedLabel, seedValue, k)
  {
    if k < HASH_LEN + 1 {
      return None;
    }
    var lHash := H(encodedLabel);
    var db := DataBlock(lHash, message, k);
    var seed := ToBytes(seedValue);
    var dbMask := Mgf1(H, seed, k - HASH_LEN - 1);
    var maskedDb := ToFixedBytes(XorInt(FromBytes(db), FromBytes(dbMask)), k - HASH_LEN - 1);
    if maskedDb.None? {
      return None;
    }
    var seedMask := Mgf1(H, maskedDb.value, HASH_LEN);
    var maskedSeed := ToFixedBytes(XorInt(FromBytes(seed), FromBytes(seedMask)), HASH_LEN);
    if maskedSeed.None? {
      return None;
    }
    em := Some([0x00] + maskedSeed.value + maskedDb.value);
  }

  /** The unmasking steps of OAEPDecypher, calling mgf1 for both masks. */
  method RecoverDb(H: Hash, em: seq<byte>, k: nat) returns (dbBits: seq<byte>)
    ensures dbBits == Unmask(H, em, k)
  {
    var maskedSeed := Slice(em, 1, HASH_LEN + 1);
    var maskedDb := Slice(em, HASH_LEN + 1, |em|);
    var seedMask := Mgf1(H, maskedDb, HASH_LEN);
    var seed := XorInt(FromBytes(maskedSeed), FromBytes(seedMask));
    var seedBits := ToBytes(seed);
    var dbMask := Mgf1(H, seedBits, DbLength(k));
    var db := XorInt(FromBytes(maskedDb), FromBytes(dbMask));
    dbBits := ToBytes(db);
  }

  /** OAEPDecypher: unmask, then scan the filler in a loop and check the label hash. */
  method OaepDecypher(H: Hash, em: seq<byte>, encodedLabel: seq<byte>, k: nat)
    returns (message: Option<seq<byte>>)
    ensures message == OaepDecode(H, em, encodedLabel, k)
  {
    var lHash := H(encodedLabel);
    var dbBits := RecoverDb(H, em, k);
    var recoveredHash := Slice(dbBits, 0, HASH_LEN);
    var i := HASH_LEN;
    while i < |dbBits| && dbBits[i] == FILLER
      invariant HASH_LEN <= i && FillerEnd(dbBits, i) == FillerEnd(dbBits, HASH_LEN)
      invariant HASH_LEN <= |dbBits| ==> i <= |dbBits|
      decreases |dbBits| - i
    {
      i := i + 1;
    }
    assert FillerEnd(dbBits, HASH_LEN) == i;
    if i == |dbBits| || lHash != recoveredHash {
      assert ParseDb(lHash, dbBits) == None;
      return None;
    }
    assert i < |dbBits|;
    message := Some(dbBits[i + 1..]);
    ParseDbAccepts(lHash, dbBits, i);
  }

  // ---------------------------------------------------------------------------------
  // MGF1

  /** Byte i of the digest stream is byte i mod 32 of the digest for counter i div 32. */
  lemma {:induction false} MaskBlocksIndex(H: Hash, seed: seq<byte>, count: nat, i: nat)
    requires i < 32 * count
    ensures MaskBlocks(H, seed, count)[i] == H(seed + ToBytes(i / 32))[i % 32]
  {
    var prev, block := MaskBlocks(H, seed, count - 1), H(seed + ToBytes(count - 1));
    assert MaskBlocks(H, seed, count) == prev + block;
    if i < 32 * (count - 1) {
      MaskBlocksIndex(H, seed, count - 1, i);
      assert MaskBlocks(H, seed, count)[i] == prev[i];
    } else {
      var j := i - 32 * (count - 1);
      DivModUnique(i, 32, count - 1, j);
      assert MaskBlocks(H, seed, count)[i] == block[j];
    }
  }

  /** mgf1(seed, size) is the prefix of H(seed ‖ to_bytes(0)) ‖ H(seed ‖ to_bytes(1)) ‖ ...,
      with the counter in its minimal big-endian form. */
  lemma MaskIndex(H: Hash, seed: seq<byte>, size: nat)
    ensures forall i | 0 <= i < size :: Mask(H, seed, size)[i] == H(seed + ToBytes(i / 32))[i % 32]
  {
    forall i | 0 <= i < size
      ensures Mask(H, seed, size)[i] == H(seed + ToBytes(i / 32))[i % 32]
    {
      BlockCountLeast(size, BlockCount(size));
      MaskBlocksIndex(H, seed, BlockCount(size), i);
    }
  }

  /** A shorter mask is a prefix of a longer one from the same seed. */
  lemma MaskPrefix(H: Hash, seed: seq<byte>, m: nat, n: nat)
    requires m <= n
    ensures Mask(H, seed, m) == Mask(H, seed, n)[..m]
  {
    MaskIndex(H, seed, m);
    MaskIndex(H, seed, n);
  }

  // ---------------------------------------------------------------------------------
  // OAEP layout, round trip and integrity

  lemma {:induction false} FillerEndFrom(db: seq<byte>, i: nat, stop: nat)
    requires i <= stop < |db| && db[stop] != FILLER
    requires forall t | i <= t < stop :: db[t] == FILLER
    ensures FillerEnd(db, i) == stop
    decreases stop - i
  {
    if i < stop {
      FillerEndFrom(db, i + 1, stop);
    }
  }

  /** The decoder's checks accept a data block built with the same label hash and return
      its message; a message too long for k only loses the filler. */
  lemma ParseDataBlock(lHash: seq<byte>, message: seq<byte>, k: nat)
    requires |lHash| == HASH_LEN
    ensures ParseDb(lHash, DataBlock(lHash, message, k)) == Some(message)
  {
    var db := DataBlock(lHash, message, k);
    var stop := HASH_LEN + FillerLength(k, |message|);
    assert db[stop] == 0x01;
    FillerEndFrom(db, HASH_LEN, stop);
    assert Slice(db, 0, HASH_LEN) == lHash;
    assert db[stop + 1..] == message;
    ParseDbAccepts(lHash, db, stop);
  }

  /** The decoder's checks reject a data block built with another label hash. */
  lemma ParseDataBlockOtherHash(expected: seq<byte>, lHash: seq<byte>, message: seq<byte>, k: nat)
    requires |lHash| == HASH_LEN && expected != lHash
    ensures ParseDb(expected, DataBlock(lHash, message, k)) == None
  {
    var db := DataBlock(lHash, message, k);
    assert Slice(db, 0, HASH_LEN) == lHash;
  }

  /** The decoder's slices of 0x00 ‖ maskedSeed ‖ maskedDB give back the two fields. */
  lemma EncodedFields(maskedSeed: seq<byte>, maskedDb: seq<byte>)
    requires |maskedSeed| == HASH_LEN
    ensures var em := [0x00] + maskedSeed + maskedDb;
            Slice(em, 1, HASH_LEN + 1) == maskedSeed && Slice(em, HASH_LEN + 1, |em|) == maskedDb
  {
    var em := [0x00] + maskedSeed + maskedDb;
    assert em[1..HASH_LEN + 1] == maskedSeed;
    assert em[HASH_LEN + 1..] == maskedDb;
  }

  /** The decoder's unmasking of 0x00 ‖ maskedSeed ‖ maskedDB, field by field. */
  lemma UnmaskFields(H: Hash, maskedSeed: seq<byte>, maskedDb: seq<byte>, k: nat)
    requires |maskedSeed| == HASH_LEN
    ensures var seedValue := XorInt(FromBytes(maskedSeed), FromBytes(Mask(H, maskedDb, HASH_LEN)));
            var dbMask := Mask(H, ToBytes(seedValue), DbLength(k));
            UnmaskedValue(H, [0x00] + maskedSeed + maskedDb, k) == XorInt(FromBytes(maskedDb), FromBytes(dbMask))
  {
    EncodedFields(maskedSeed, maskedDb);
  }

  /** The fields of a successful MaskDb: the masked seed and the masked block, as values. */
  lemma MaskDbFields(H: Hash, db: seq<byte>, seedValue: nat, k: nat)
    requires k > HASH_LEN && |db| == k - HASH_LEN - 1 && seedValue < Pow(256, HASH_LEN)
    ensures MaskDb(H, db, seedValue, k).Some?
    ensures var em := MaskDb(H, db, seedValue, k).value;
            var maskedSeed, maskedDb := em[1..HASH_LEN + 1], em[HASH_LEN + 1..];
            em == [0x00] + maskedSeed + maskedDb &&
            FromBytes(maskedDb)
              == XorInt(FromBytes(db), FromBytes(Mask(H, ToBytes(seedValue), k - HASH_LEN - 1))) &&
            FromBytes(maskedSeed) == XorInt(seedValue, FromBytes(Mask(H, maskedDb, HASH_LEN)))
  {
    var n := k - HASH_LEN - 1;
    var seed := ToBytes(seedValue);
    var dbMask := Mask(H, seed, n);
    FromBytesBound(db);
    FromBytesBound(dbMask);
    XorIntByteBound(FromBytes(db), FromBytes(dbMask), n);
    var maskedDb := ToFixedBytes(XorInt(FromBytes(db), FromBytes(dbMask)), n).value;
    var seedMask := Mask(H, maskedDb, HASH_LEN);
    ToBytesValue(seedValue);
    FromBytesBound(seedMask);
    XorIntByteBound(seedValue, FromBytes(seedMask), HASH_LEN);
    var maskedSeed := ToFixedBytes(XorInt(seedValue, FromBytes(seedMask)), HASH_LEN).value;
    var em := [0x00] + maskedSeed + maskedDb;
    assert MaskDb(H, db, seedValue, k) == Some(em);
    assert em[1..HASH_LEN + 1] == maskedSeed && em[HASH_LEN + 1..] == maskedDb;
  }

  /** Unmasking undoes the masking of a block of k - hLen - 1 bytes: the decoder recovers
      the seed, then the value of DB. */
  lemma UnmaskMaskDb(H: Hash, db: seq<byte>, seedValue: nat, k: nat)
    requires k > HASH_LEN && |db| == k - HASH_LEN - 1 && seedValue < Pow(256, HASH_LEN)
    ensures MaskDb(H, db, seedValue, k).Some?
    ensures UnmaskedValue(H, MaskDb(H, db, seedValue, k).value, k) == FromBytes(db)
  {
    MaskDbFields(H, db, seedValue, k);
    var em := MaskDb(H, db, seedValue, k).value;
    var maskedSeed, maskedDb := em[1..HASH_LEN + 1], em[HASH_LEN + 1..];
    var seedMask := FromBytes(Mask(H, maskedDb, HASH_LEN));
    var dbMask := FromBytes(Mask(H, ToBytes(seedValue), k - HASH_LEN - 1));
    UnmaskFields(H, maskedSeed, maskedDb, k);
    XorIntInvolution(seedValue, seedMask);
    XorIntInvolution(FromBytes(db), dbMask);
    assert DbLength(k) == k - HASH_LEN - 1;
  }

  /** A message of at most k - 2 hLen - 2 bytes with a seed below 2^256 always encodes. */
  lemma OaepEncodeDefined(H: Hash, message: seq<byte>, encodedLabel: seq<byte>, seedValue: nat, k: nat)
    requires |message| + 2 * HASH_LEN + 2 <= k && seedValue < Pow(256, HASH_LEN)
    ensures OaepEncode(H, message, encodedLabel, seedValue, k).Some?
  {
    UnmaskMaskDb(H, DataBlock(H(encodedLabel), message, k), seedValue, k);
  }

  /** What OAEPCypher puts in each field: maskedDB XOR mgf1(seed, k - hLen - 1) is
      lHash ‖ filler ‖ 0x01 ‖ message, and maskedSeed XOR mgf1(maskedDB, hLen) is the seed. */
  lemma OaepEncodeMasks(H: Hash, message: seq<byte>, encodedLabel: seq<byte>, seedValue: nat, k: nat)
    requires OaepEncode(H, message, encodedLabel, seedValue, k).Some?
    ensures var em := OaepEncode(H, message, encodedLabel, seedValue, k).value;
            var maskedDb := em[HASH_LEN + 1..];
            XorInt(FromBytes(maskedDb), FromBytes(Mask(H, ToBytes(seedValue), k - HASH_LEN - 1)))
              == FromBytes(DataBlock(H(encodedLabel), message, k)) &&
            XorInt(FromBytes(em[1..HASH_LEN + 1]), FromBytes(Mask(H, maskedDb, HASH_LEN)))
              == seedValue
  {
    var db := DataBlock(H(encodedLabel), message, k);
    var n := k - HASH_LEN - 1;
    var seed := ToBytes(seedValue);
    var dbMask := Mask(H, seed, n);
    var maskedDb := ToFixedBytes(XorInt(FromBytes(db), FromBytes(dbMask)), n).value;
    var seedMask := Mask(H, maskedDb, HASH_LEN);
    var maskedSeed := ToFixedBytes(XorInt(FromBytes(seed), FromBytes(seedMask)), HASH_LEN).value;
    var em := [0x00] + maskedSeed + maskedDb;
    assert OaepEncode(H, message, encodedLabel, seedValue, k) == Some(em);
    assert em[HASH_LEN + 1..] == maskedDb && em[1..HASH_LEN + 1] == maskedSeed;
    XorIntInvolution(FromBytes(db), FromBytes(dbMask));
    XorIntInvolution(FromBytes(seed), FromBytes(seedMask));
    ToBytesValue(seedValue);
  }

  /** OAEPDecypher(OAEPCypher(m, L), L) == m when m fits, the seed is below 2^256 and the
      label hash does not start with a zero byte. */
  lemma OaepRoundTrip(H: Hash, message: seq<byte>, encodedLabel: seq<byte>, seedValue: nat, k: nat)
    requires |message| + 2 * HASH_LEN + 2 <= k && seedValue < Pow(256, HASH_LEN)
    requires H(encodedLabel)[0] != 0
    ensures OaepEncode(H, message, encodedLabel, seedValue, k).Some?
    ensures OaepDecode(H, OaepEncode(H, message, encodedLabel, seedValue, k).value, encodedLabel, k)
              == Some(message)
  {
    var db := DataBlock(H(encodedLabel), message, k);
    UnmaskMaskDb(H, db, seedValue, k);
    ToBytesOfFromBytes(db);
    ParseDataBlock(H(encodedLabel), message, k);
  }

  /** Decoding under a label with another hash fails. */
  lemma OaepOtherLabel(H: Hash, message: seq<byte>, encodedLabel: seq<byte>, otherLabel: seq<byte>,
                       seedValue: nat, k: nat)
    requires |message| + 2 * HASH_LEN + 2 <= k && seedValue < Pow(256, HASH_LEN)
    requires H(encodedLabel)[0] != 0 && H(otherLabel) != H(encodedLabel)
    ensures OaepEncode(H, message, encodedLabel, seedValue, k).Some?
    ensures OaepDecode(H, OaepEncode(H, message, encodedLabel, seedValue, k).value, otherLabel, k)
              == None
  {
    var db := DataBlock(H(encodedLabel), message, k);
    UnmaskMaskDb(H, db, seedValue, k);
    ToBytesOfFromBytes(db);
    ParseDataBlockOtherHash(H(otherLabel), H(encodedLabel), message, k);
  }

  /** As written, a label whose hash starts with a zero byte never decodes: to_bytes drops
      that byte from the recovered DB, so the label hash no longer lines up. */
  lemma OaepLeadingZeroHashFails(H: Hash, message: seq<byte>, encodedLabel: seq<byte>,
                                 seedValue: nat, k: nat)
    requires |message| + 2 * HASH_LEN + 2 <= k && seedValue < Pow(256, HASH_LEN)
    requires H(encodedLabel)[0] == 0
    ensures OaepEncode(H, message, encodedLabel, seedValue, k).Some?
    ensures OaepDecode(H, OaepEncode(H, message, encodedLabel, seedValue, k).value, encodedLabel, k)
              == None
  {
    var lHash := H(encodedLabel);
    var db := DataBlock(lHash, message, k);
    UnmaskMaskDb(H, db, seedValue, k);
    FromBytesPositive(db, HASH_LEN + FillerLength(k, |message|));
    var dbBits := ToBytes(FromBytes(db));
    ToBytesLeadingByte(FromBytes(db));
    if |dbBits| >= HASH_LEN {
      assert Slice(dbBits, 0, HASH_LEN)[0] != lHash[0];
    }
  }

  /** With DB written back at full width, every message that fits round-trips, whatever
      its label hash starts with. */
  lemma OaepFixedRoundTrip(H: Hash, message: seq<byte>, encodedLabel: seq<byte>, seedValue: nat,
                           k: nat)
    requires |message| + 2 * HASH_LEN + 2 <= k && seedValue < Pow(256, HASH_LEN)
    ensures OaepEncode(H, message, encodedLabel, seedValue, k).Some?
    ensures OaepDecodeFixed(H, OaepEncode(H, message, encodedLabel, seedValue, k).value,
                            encodedLabel, k)
              == Some(message)
  {
    var db := DataBlock(H(encodedLabel), message, k);
    UnmaskMaskDb(H, db, seedValue, k);
    assert |db| == DbLength(k);
    FromBytesBound(db);
    var fixed := ToFixedBytes(FromBytes(db), DbLength(k));
    FromBytesInjective(fixed.value, db);
    ParseDataBlock(H(encodedLabel), message, k);
  }

  // ---------------------------------------------------------------------------------
  // RSA-OAEP

  /** RSAOAEPCypher: OAEP-encode with the default k = 256, encrypt the block's value and
      write the result in k bytes; None stands for the errors of either step. */
  function RsaOaepCypher(H: Hash, message: seq<byte>, pk: Key, encodedLabel: seq<byte>,
                         seedValue: nat, k: nat): (r: Option<seq<byte>>)
    requires pk.modulus > 0
    ensures r.Some? ==> |r.value| == k
  {
    match OaepEncode(H, message, encodedLabel, seedValue, K)
    case None => None
    case Some(em) => ToFixedBytes(RsaCypher(FromBytes(em), pk), k)
  }

  /** RSAOAEPDecypher as written: decrypt, write the value in k bytes and OAEP-decode with
      the default k = 256. Its label argument is not passed on, so the decoder checks
      against the hash of the empty label. */
  function RsaOaepDecypher(H: Hash, cypher: seq<byte>, sk: Key, encodedLabel: seq<byte>, k: nat)
    : Option<seq<byte>>
    requires sk.modulus > 0
  {
    match ToFixedBytes(RsaDecypher(FromBytes(cypher), sk), k)
    case None => None
    case Some(em) => OaepDecode(H, em, [], K)
  }

  /** RSAOAEPDecypher with the label passed on and DB recovered at full width. */
  function RsaOaepDecypherFixed(H: Hash, cypher: seq<byte>, sk: Key, encodedLabel: seq<byte>,
                                k: nat): Option<seq<byte>>
    requires sk.modulus > 0
  {
    match ToFixedBytes(RsaDecypher(FromBytes(cypher), sk), k)
    case None => None
    case Some(em) => OaepDecodeFixed(H, em, encodedLabel, K)
  }

  /** A key pair whose private key undoes the public one below a modulus of k bytes, the
      top one of which is in use: every 256-byte block starting with 0x00 is below it. */
  predicate KeysInvert(pk: Key, sk: Key)
  {
    pk.modulus == sk.modulus && Pow(256, K - 1) <= pk.modulus <= Pow(256, K) &&
    forall x: nat | x < pk.modulus :: RsaDecypher(RsaCypher(x, pk), sk) == x
  }

  /** Keys from RSAKeys for two distinct primes whose product has K bytes invert each
      other, by RsaCorrect. */
  lemma PrimeKeysInvert(p: nat, q: nat, pk: Key, sk: Key)
    requires IsPrime(p) && IsPrime(q) && p != q
    requires pk.modulus == p * q && sk.modulus == p * q
    requires sk.exponent * pk.exponent % ((p - 1) * (q - 1)) == 1 % ((p - 1) * (q - 1))
    requires Pow(256, K - 1) <= p * q <= Pow(256, K)
    ensures KeysInvert(pk, sk)
  {
    forall x: nat | x < pk.modulus
      ensures RsaDecypher(RsaCypher(x, pk), sk) == x
    {
      RsaCorrect(p, q, pk, sk, x);
    }
  }

  /** The RSA layer round-trips an OAEP block: it starts with 0x00, so its value is below
      the modulus, and the cyphertext fits in K bytes. */
  lemma RsaLayerRoundTrip(em: seq<byte>, pk: Key, sk: Key)
    requires KeysInvert(pk, sk) && |em| == K && em[0] == 0
    ensures pk.modulus > 0 && ToFixedBytes(RsaCypher(FromBytes(em), pk), K).Some?
    ensures ToFixedBytes(RsaDecypher(FromBytes(ToFixedBytes(RsaCypher(FromBytes(em), pk), K).value), sk), K)
              == Some(em)
  {
    PowPositive(256, K - 1);
    FromBytesFront(em);
    FromBytesBound(em[1..]);
    var x := FromBytes(em);
    assert x < Pow(256, K - 1);
    var c := RsaCypher(x, pk);
    var m := RsaDecypher(c, sk);
    assert m == x;
    PowMonotone(256, K - 1, K);
    var back := ToFixedBytes(m, K);
    FromBytesInjective(back.value, em);
  }

  /** RSAOAEPDecypher(RSAOAEPCypher(m, pk, L), sk, L) == m for the empty label L, when the
      keys invert each other, m fits, the seed is below 2^256 and the hash of the empty
      label does not start with a zero byte. */
  lemma RsaOaepRoundTrip(H: Hash, message: seq<byte>, pk: Key, sk: Key, seedValue: nat)
    requires KeysInvert(pk, sk)
    requires |message| + 2 * HASH_LEN + 2 <= K && seedValue < Pow(256, HASH_LEN)
    requires H([])[0] != 0
    ensures pk.modulus > 0 && sk.modulus > 0
    ensures RsaOaepCypher(H, message, pk, [], seedValue, K).Some?
    ensures RsaOaepDecypher(H, RsaOaepCypher(H, message, pk, [], seedValue, K).value, sk, [], K)
              == Some(message)
  {
    OaepRoundTrip(H, message, [], seedValue, K);
    RsaLayerRoundTrip(OaepEncode(H, message, [], seedValue, K).value, pk, sk);
  }

  /** As written, any label whose hash differs from that of the empty label makes
      RSAOAEPDecypher fail on RSAOAEPCypher's output, because the label is dropped. */
  lemma RsaOaepLabelIgnored(H: Hash, message: seq<byte>, pk: Key, sk: Key,
                            encodedLabel: seq<byte>, seedValue: nat)
    requires KeysInvert(pk, sk)
    requires |message| + 2 * HASH_LEN + 2 <= K && seedValue < Pow(256, HASH_LEN)
    requires H(encodedLabel)[0] != 0 && H(encodedLabel) != H([])
    ensures pk.modulus > 0 && sk.modulus > 0
    ensures RsaOaepCypher(H, message, pk, encodedLabel, seedValue, K).Some?
    ensures RsaOaepDecypher(H, RsaOaepCypher(H, message, pk, encodedLabel, seedValue, K).value,
                            sk, encodedLabel, K)
              == None
  {
    OaepOtherLabel(H, message, encodedLabel, [], seedValue, K);
    RsaLayerRoundTrip(OaepEncode(H, message, encodedLabel, seedValue, K).value, pk, sk);
  }

  /** With the label passed on and DB recovered at full width, RSA-OAEP round-trips every
      message that fits, under every label. */
  lemma RsaOaepFixedRoundTrip(H: Hash, message: seq<byte>, pk: Key, sk: Key,
                              encodedLabel: seq<byte>, seedValue: nat)
    requires KeysInvert(pk, sk)
    requires |message| + 2 * HASH_LEN + 2 <= K && seedValue < Pow(256, HASH_LEN)
    ensures pk.modulus > 0 && sk.modulus > 0
    ensures RsaOaepCypher(H, message, pk, encodedLabel, seedValue, K).Some?
    ensures RsaOaepDecypherFixed(H, RsaOaepCypher(H, message, pk, encodedLabel, seedValue, K).value,
                                 sk, encodedLabel, K)
              == Some(message)
  {
    OaepFixedRoundTrip(H, message, encodedLabel, seedValue, K);
    RsaLayerRoundTrip(OaepEncode(H, message, encodedLabel, seedValue, K).value, pk, sk);
  }
  // ---------------------------------------------------------------------------------
  // Width of the modulus

  /** A 256-byte block whose value is not below the modulus does not survive the RSA
      layer: decryption only returns values below the modulus. */
  lemma RsaLayerLosesLargeBlock(em: seq<byte>, pk: Key, sk: Key)
    requires pk.modulus == sk.modulus && pk.modulus > 0
    requires |em| == K && FromBytes(em) >= pk.modulus
    ensures ToFixedBytes(RsaCypher(FromBytes(em), pk), K).Some?
    ensures ToFixedBytes(RsaDecypher(FromBytes(ToFixedBytes(RsaCypher(FromBytes(em), pk), K).value), sk), K)
              != Some(em)
  {
    FromBytesBound(em);
    var m := RsaDecypher(FromBytes(ToFixedBytes(RsaCypher(FromBytes(em), pk), K).value), sk);
    assert m < FromBytes(em);
  }

  /** With a modulus below 256^(K-1), such a block starts with 0x00 like every OAEP block:
      the modulus itself, written in K bytes. */
  lemma SmallModulusBlock(n: nat)
    requires 0 < n < Pow(256, K - 1)
    ensures var em := Digits(n, K); |em| == K && em[0] == 0 && FromBytes(em) == n
  {
    var em := Digits(n, K);
    PowMonotone(256, K - 1, K);
    DigitsValue(n, K);
    FromBytesFront(em);
    if em[0] != 0 {
      MulAtLeast(em[0], Pow(256, K - 1));
      assert false;
    }
  }

  /** Keys built as RSAKeys builds them from two distinct primes of exactly `bits` = 1024
      bits, as genPrime's documentation promises, have a modulus of K bytes with the top one
      in use, so they invert each other on every OAEP block. */
  lemma FullWidthPrimesInvert(p: nat, q: nat, pk: Key, sk: Key, bits: nat)
    requires bits == 1024
    requires Pow(2, bits - 1) <= p < Pow(2, bits) && Pow(2, bits - 1) <= q < Pow(2, bits)
    requires IsPrime(p) && IsPrime(q) && p != q
    requires pk.modulus == p * q && sk.modulus == p * q
    requires sk.exponent * pk.exponent % ((p - 1) * (q - 1)) == 1 % ((p - 1) * (q - 1))
    ensures KeysInvert(pk, sk)
  {
    var low, high := Pow(2, bits - 1), Pow(2, bits);
    assert Pow(256, K - 1) <= p * q by {
      Pow256IsPow2(K - 1);
      PowAdd(2, bits - 1, bits - 1);
      PowMonotoneLe(2, 8 * (K - 1), 2 * (bits - 1));
      ProductAtLeast(low, p, q);
    }
    assert p * q <= Pow(256, K) by {
      Pow256IsPow2(K);
      PowAdd(2, bits, bits);
      ProductAtMost(high, p, q);
    }
    PrimeKeysInvert(p, q, pk, sk);
  }

  lemma ProductAtLeast(a: nat, p: nat, q: nat)
    requires a <= p && a <= q
    ensures a * a <= p * q
  {
    MulMonotone2(a, p, a, q);
  }

  lemma ProductAtMost(b: nat, p: nat, q: nat)
    requires p < b && q < b
    ensures p * q <= b * b
  {
    MulMonotone2(p, b, q, b);
  }

  lemma MulMonotone2(a: nat, b: nat, c: nat, d: nat)
    requires a <= b && c <= d
    ensures a * c <= b * d
  {
    assert a * c <= b * c;
    assert b * c <= b * d;
  }
}
