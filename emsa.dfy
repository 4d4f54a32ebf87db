/**
 * The block the route expects the RSA public operation to give back (lines 179-189),
 * EMSA-PKCS1-v1_5 of section 9.2 of RFC 8017 for SHA-256, and the restoration of the
 * leading zero byte that the integer representation drops (lines 194-197).
 */
module Emsa {
  import opened Wrappers
  import opened Octets
  import opened BigEndian

  /** The DER prefix of a SHA-256 DigestInfo (RFC 8017 section 9.2, note 1). */
  const DigestInfoSha256: Octets :=
    [0x30, 0x31, 0x30, 0x0d, 0x06, 0x09, 0x60, 0x86, 0x48, 0x01, 0x65, 0x03, 0x04, 0x02, 0x01, 0x05, 0x00, 0x04, 0x20]

  /**
   * Line 181: the modulus length less the prefix, the digest and three fixed bytes; may be
   * negative. It reaches the eight bytes section 9.2 of RFC 8017 asks for exactly when
   * that section's length check (emLen >= tLen + 11) passes.
   */
  function PaddingCount(modulusBytes: nat, digestLength: nat): (c: int)
    ensures c >= 8 <==> modulusBytes >= |DigestInfoSha256| + digestLength + 11
    ensures c < 0 <==> modulusBytes < |DigestInfoSha256| + digestLength + 3
  {
    modulusBytes - |DigestInfoSha256| - digestLength - 3
  }

  /** `count.times { padding = padding + "\xff" }` as a value: one 0xFF per turn, none when count <= 0. */
  function FfRun(count: int): (r: Octets)
    ensures |r| == (if count > 0 then count else 0)
    ensures forall i :: 0 <= i < |r| ==> r[i] == 0xFF
    decreases count
  {
    if count <= 0 then [] else FfRun(count - 1) + [0xFF]
  }

  /** Lines 183-186: the padding loop. */
  method BuildPadding(count: int) returns (padding: Octets)
    ensures padding == FfRun(count)
    ensures |padding| == (if count > 0 then count else 0)
    ensures forall i :: 0 <= i < |padding| ==> padding[i] == 0xFF
  {
    padding := [];
    var turns := 0;
    while turns < count
      invariant 0 <= turns
      invariant turns == 0 || turns <= count
      invariant padding == FfRun(turns)
    {
      padding := padding + [0xFF];
      turns := turns + 1;
    }
    assert turns == count || (turns == 0 && FfRun(count) == []);
  }

  /** Line 189: 00 01, the padding, 00, the DigestInfo prefix, the digest. */
  function ExpectedBlock(modulusBytes: nat, digest: Octets): (r: Octets)
    ensures |r| >= 2 && r[0] == 0 && r[1] == 1
    ensures PaddingCount(modulusBytes, |digest|) >= 0 ==> |r| == modulusBytes
    ensures PaddingCount(modulusBytes, |digest|) < 0 ==> |r| == 3 + |DigestInfoSha256| + |digest|
    ensures r[2..|r| - |digest| - |DigestInfoSha256| - 1] == FfRun(PaddingCount(modulusBytes, |digest|))
    ensures r[|r| - |digest| - |DigestInfoSha256| - 1] == 0
    ensures r[|r| - |digest| - |DigestInfoSha256|..] == DigestInfoSha256 + digest
  {
    var block := [0x00, 0x01] + FfRun(PaddingCount(modulusBytes, |digest|)) + [0x00] + DigestInfoSha256 + digest;
    var ff := FfRun(PaddingCount(modulusBytes, |digest|));
    assert block[|block| - |digest| - |DigestInfoSha256|..] == DigestInfoSha256 + digest;
    assert block[2..|block| - |digest| - |DigestInfoSha256| - 1] == ff;
    block
  }

  /**
   * Lines 194-197: a result whose first byte is 0x01 lost its leading 0x00 to the
   * integer representation; put it back. The value read as an integer does not change.
   */
  function RestoreLeadingZero(b: Octets): (r: Octets)
    ensures Os2ip(r) == Os2ip(b)
    ensures r == [] || r[0] != 1
    ensures |b| <= |r| <= |b| + 1 && r[|r| - |b|..] == b
    ensures (|b| == 0 || b[0] != 1) ==> r == b
  {
    if |b| > 0 && b[0] == 1 then
      assert [0] + b == Zeros(1) + b;
      Os2ipLeadingZeros(1, b);
      assert ([0] + b)[1..] == b;
      [0] + b
    else b
  }

  /** Restoring twice is restoring once. */
  lemma RestoreIdempotent(b: Octets)
    ensures RestoreLeadingZero(RestoreLeadingZero(b)) == RestoreLeadingZero(b)
  {
  }

  /**
   * EMSA-PKCS1-v1_5-ENCODE of section 9.2 of RFC 8017 for SHA-256, written from the RFC:
   * it fails ("intended encoded message length too short") unless the block has room for
   * at least eight 0xFF padding bytes.
   */
  function Pkcs1Encode(digest: Octets, emLen: nat): Option<Octets>
  {
    var t := DigestInfoSha256 + digest;
    if emLen < |t| + 11 then None
    else Some([0x00, 0x01] + seq(emLen - |t| - 3, _ => 0xFF) + [0x00] + t)
  }

  /**
   * The route's block is the RFC's encoding whenever the RFC admits the key size; for
   * moduli with room for fewer than eight padding bytes the RFC stops and the route
   * still builds a block.
   */
  lemma ExpectedBlockIsPkcs1(modulusBytes: nat, digest: Octets)
    ensures Pkcs1Encode(digest, modulusBytes).Some? <==> PaddingCount(modulusBytes, |digest|) >= 8
    ensures Pkcs1Encode(digest, modulusBytes).Some? ==>
      Pkcs1Encode(digest, modulusBytes).value == ExpectedBlock(modulusBytes, digest)
  {
    var p := PaddingCount(modulusBytes, |digest|);
    if p >= 8 {
      assert FfRun(p) == seq(p, _ => 0xFF);
    }
  }

  /**
   * The comparison of lines 195-200 is the integer comparison of textbook verification:
   * the restored minimal serialisation of m equals the expected block exactly when m is
   * the block read as an integer.
   */
  lemma {:induction false} RestoredMatchIffInteger(m: nat, modulusBytes: nat, digest: Octets)
    ensures RestoreLeadingZero(I2osp(m)) == ExpectedBlock(modulusBytes, digest)
        <==> m == Os2ip(ExpectedBlock(modulusBytes, digest))
  {
    var em := ExpectedBlock(modulusBytes, digest);
    var tail := em[1..];
    assert em == Zeros(1) + tail;
    Os2ipLeadingZeros(1, tail);
    if m == Os2ip(em) {
      I2ospOs2ip(tail);
      Os2ipI2osp(m);
      assert I2osp(m) == tail;
    }
    if RestoreLeadingZero(I2osp(m)) == em {
      Os2ipI2osp(m);
    }
  }

  /**
   * Padding underflow, first case: with a SHA-256 digest and a modulus of at most 52
   * bytes, no integer below 256^modulusBytes, and so no RSA result, matches the block.
   */
  lemma {:induction false} TooShortModulusNeverMatches(m: nat, modulusBytes: nat, digest: Octets)
    requires |digest| == 32 && modulusBytes <= 52
    requires m < Pow256(modulusBytes)
    ensures RestoreLeadingZero(I2osp(m)) != ExpectedBlock(modulusBytes, digest)
  {
    var em := ExpectedBlock(modulusBytes, digest);
    assert |em| == 54;
    var tail := em[1..];
    assert em == Zeros(1) + tail;
    Os2ipLeadingZeros(1, tail);
    Os2ipLowerBound(tail);
    Pow256Monotone(modulusBytes, 52);
    RestoredMatchIffInteger(m, modulusBytes, digest);
  }

  /**
   * Padding underflow, second case: a 53-byte modulus gives a count of -1, yet the
   * 54-byte block it expects reads as an integer below 256^53, which a modulus of that
   * length can exceed; such a key can still verify a signature.
   */
  lemma {:induction false} OneByteShortModulusCanMatch(digest: Octets)
    requires |digest| == 32
    ensures PaddingCount(53, |digest|) == -1
    ensures |ExpectedBlock(53, digest)| == 54
    ensures Os2ip(ExpectedBlock(53, digest)) < Pow256(53)
    ensures RestoreLeadingZero(I2osp(Os2ip(ExpectedBlock(53, digest)))) == ExpectedBlock(53, digest)
  {
    var em := ExpectedBlock(53, digest);
    var tail := em[1..];
    assert em == Zeros(1) + tail;
    Os2ipLeadingZeros(1, tail);
    Os2ipBound(tail);
    RestoredMatchIffInteger(Os2ip(em), 53, digest);
  }
}
