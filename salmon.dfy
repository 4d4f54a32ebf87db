/**
 * The verify path of the `post '/feeds/:id/salmon'` route: decode the envelope, parse the
 * author's key, rebuild the expected EMSA block over the SHA-256 digest of the signing
 * input, run the RSA public operation on the signature, restore its leading zero and
 * compare. SHA-256 is a parameter; the key string is what key discovery supplied.
 */
module Salmon {
  import opened Wrappers
  import opened Octets
  import opened Errors
  import opened BigEndian
  import opened MagicEnvelope
  import opened RsaKey
  import opened Emsa
  import Base64Url

  /** Accepted carries the decoded envelope, payload included; any rejection ends the request. */
  datatype Outcome = Accepted(envelope: Envelope) | Rejected(reason: Rejection)

  /**
   * Lines 21-207 as one value: the first rejection met, or acceptance. The envelope is
   * checked before the key is looked at, and the key before the signature arithmetic.
   */
  function Verify(doc: Document, publicKey: Octets, sha256: Octets -> Octets): (o: Outcome)
    ensures DecodeEnvelope(doc).Err? ==> o == Rejected(DecodeEnvelope(doc).error)
    ensures DecodeEnvelope(doc).Ok? && ParseKey(publicKey).Err? ==> o == Rejected(ParseKey(publicKey).error)
    ensures DecodeEnvelope(doc).Ok? && ParseKey(publicKey).Ok? && o.Rejected? ==>
      o.reason == SignatureOutOfRange || o.reason == SignatureMismatch
    ensures o.Accepted? ==> DecodeEnvelope(doc) == Ok(o.envelope)
  {
    match DecodeEnvelope(doc)
    case Err(e) => Rejected(e)
    case Ok(env) =>
      match ParseKey(publicKey)
      case Err(e) => Rejected(e)
      case Ok(key) =>
        var expected := ExpectedBlock(key.modulusBytes, sha256(SigningInput(env)));
        match PublicOperation(key, env.signature)
        case Err(e) => Rejected(e)
        case Ok(block) =>
          if RestoreLeadingZero(block) == expected then Accepted(env) else Rejected(SignatureMismatch)
  }

  /** The route step by step, reassigning its locals as lines 155-207 do. */
  method HandleSalmon(doc: Document, publicKey: Octets, sha256: Octets -> Octets) returns (outcome: Outcome)
    ensures outcome == Verify(doc, publicKey, sha256)
  {
    var envelope := DecodeEnvelope(doc);
    if envelope.Err? {
      return Rejected(envelope.error);
    }
    var env := envelope.value;
    var verified := false;

    var key := ParseKey(publicKey);
    if key.Err? {
      return Rejected(key.error);
    }

    var plaintext := SigningInput(env);
    plaintext := sha256(plaintext);
    var prefix := DigestInfoSha256;
    var paddingCount := key.value.modulusBytes - |prefix| - |plaintext| - 3;
    var padding := BuildPadding(paddingCount);
    var emsa := [0x00, 0x01] + padding + [0x00] + prefix + plaintext;

    var emsaSignature := PublicOperation(key.value, env.signature);
    if emsaSignature.Err? {
      return Rejected(emsaSignature.error);
    }
    var block := emsaSignature.value;
    if |block| > 0 && block[0] == 1 {
      block := [0x00] + block;
    }

    if block == emsa {
      verified := true;
    } else {
      return Rejected(SignatureMismatch);
    }
    outcome := Accepted(env);
  }

  /**
   * A missing envelope, data element or signature, or an encoding other than base64url,
   * is rejected whatever the key and the digest.
   */
  lemma RejectedBeforeVerification(doc: Document, publicKey: Octets, sha256: Octets -> Octets)
    ensures doc.env.None? ==> Verify(doc, publicKey, sha256) == Rejected(EnvelopeNotFound)
    ensures doc.env.Some? && doc.env.value.data.None? ==> Verify(doc, publicKey, sha256) == Rejected(DataNotFound)
    ensures doc.env.Some? && doc.env.value.data.Some? && doc.sig.None? ==>
      Verify(doc, publicKey, sha256) == Rejected(SignatureMissing)
    ensures doc.env.Some? && doc.env.value.encoding.Some? && Downcase(doc.env.value.encoding.value) != DefaultEncoding ==>
      Verify(doc, publicKey, sha256).Rejected?
  {
  }

  /**
   * The route accepts exactly when the envelope and the key decode, the signature is
   * below the modulus, and s^e mod n is the expected block read as an integer: the
   * verification step of RSASSA-PKCS1-v1_5 (section 8.2.2 of RFC 8017) with the route's
   * own block.
   */
  lemma {:induction false} AcceptedIff(doc: Document, publicKey: Octets, sha256: Octets -> Octets, env: Envelope)
    ensures Verify(doc, publicKey, sha256) == Accepted(env) <==>
      && DecodeEnvelope(doc) == Ok(env)
      && ParseKey(publicKey).Ok?
      && var key := ParseKey(publicKey).value;
         && Os2ip(env.signature) < key.modulus
         && Pow(Os2ip(env.signature), key.exponent) % key.modulus
            == Os2ip(ExpectedBlock(key.modulusBytes, sha256(SigningInput(env))))
  {
    if DecodeEnvelope(doc) == Ok(env) && ParseKey(publicKey).Ok? {
      var key := ParseKey(publicKey).value;
      var op := PublicOperation(key, env.signature);
      if op.Ok? {
        var m := Pow(Os2ip(env.signature), key.exponent) % key.modulus;
        I2ospOs2ip(op.value);
        assert op.value == I2osp(m);
        RestoredMatchIffInteger(m, key.modulusBytes, sha256(SigningInput(env)));
      }
    }
  }

  /**
   * A correctly signed envelope is accepted: when the key is published as
   * "RSA.<base64url modulus>.<base64url exponent>", the signature is x^d mod n for the
   * expected block x, and d undoes e on x, the route accepts the envelope.
   */
  lemma {:induction false} SignedEnvelopeAccepted(
    doc: Document, modulus: Octets, exponent: Octets, d: nat, sha256: Octets -> Octets)
    requires DecodeEnvelope(doc).Ok?
    requires var env := DecodeEnvelope(doc).value;
             var n := Os2ip(modulus);
             var x := Os2ip(ExpectedBlock(|modulus|, sha256(SigningInput(env))));
      && x < n
      && Os2ip(env.signature) == Pow(x, d) % n
      && Pow(Pow(x, d) % n, Os2ip(exponent)) % n == x
    ensures Verify(doc, RsaPrefix + Base64Url.Encode(modulus) + [Dot] + Base64Url.Encode(exponent), sha256)
      == Accepted(DecodeEnvelope(doc).value)
  {
    var keyText := RsaPrefix + Base64Url.Encode(modulus) + [Dot] + Base64Url.Encode(exponent);
    ParseKeyOfEncoded(modulus, exponent);
    AcceptedIff(doc, keyText, sha256, DecodeEnvelope(doc).value);
  }
}
