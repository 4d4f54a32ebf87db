/**
 * The author's public key string `RSA.<modulus>.<exponent>` (both base64url), turned into
 * integers the way lines 159-171 do it, and the RSA public operation that the route asks
 * of the rsa gem at line 192.
 */
module RsaKey {
  import opened Wrappers
  import opened Octets
  import opened Errors
  import opened BigEndian
  import Base64Url

  /** "RSA." */
  const RsaPrefix: Octets := [82, 83, 65, 46]

  /** A parsed key. `modulusBytes` counts the decoded modulus bytes, leading zero bytes included. */
  datatype PublicKey = PublicKey(modulus: nat, exponent: nat, modulusBytes: nat)

  /** The index of the first `x` in `s`, or |s| when there is none. */
  function IndexOf(s: Octets, x: byte): (k: nat)
    ensures k <= |s|
    ensures forall i :: 0 <= i < k ==> s[i] != x
    ensures k < |s| ==> s[k] == x
    decreases |s|
  {
    if s == [] then 0 else if s[0] == x then 0 else 1 + IndexOf(s[1..], x)
  }

  /**
   * `^RSA\.(.*?)\.(.*)$` against one line (no newline in it): after the "RSA." prefix the
   * lazy group stops at the first '.', and the greedy group takes the rest of the line.
   */
  function MatchLine(line: Octets): (r: Option<(Octets, Octets)>)
    ensures r.Some? ==> forall i :: 0 <= i < |r.value.0| ==> r.value.0[i] != Dot
    ensures r.Some? && (forall i :: 0 <= i < |line| ==> line[i] != Newline) ==>
      (forall i :: 0 <= i < |r.value.0| ==> r.value.0[i] != Newline)
      && (forall i :: 0 <= i < |r.value.1| ==> r.value.1[i] != Newline)
  {
    if |line| < 4 || line[..4] != RsaPrefix then None
    else
      var rest := line[4..];
      var k := IndexOf(rest, Dot);
      if k == |rest| then None else Some((rest[..k], rest[k + 1..]))
  }

  /**
   * The regular expression against the whole key string: Ruby's `^` and `$` anchor at
   * line boundaries and `.` does not cross a newline, so the first line that matches wins.
   */
  function MatchKey(s: Octets): (r: Option<(Octets, Octets)>)
    ensures IndexOf(s, Newline) == |s| ==> r == MatchLine(s)
    ensures r.Some? ==> var (m, e) := r.value;
      && (forall i :: 0 <= i < |m| ==> m[i] != Dot && m[i] != Newline)
      && (forall i :: 0 <= i < |e| ==> e[i] != Newline)
    decreases |s|
  {
    var n := IndexOf(s, Newline);
    assert s[..|s|] == s;
    match MatchLine(s[..n])
    case Some(groups) => Some(groups)
    case None => if n == |s| then None else MatchKey(s[n + 1..])
  }

  /**
   * Lines 159-171: match the key string, decode both groups and fold them into integers.
   * A string that does not match leaves the groups nil, and decoding nil raises.
   */
  function ParseKey(s: Octets): (r: Result<PublicKey, Rejection>)
    ensures r.Ok? ==> MatchKey(s).Some?
    ensures r.Ok? ==> var (m, e) := MatchKey(s).value;
      && Base64Url.Decode(m).Some? && Base64Url.Decode(e).Some?
      && r.value.modulusBytes == |Base64Url.Decode(m).value|
      && r.value.modulus == Os2ip(Base64Url.Decode(m).value)
      && r.value.exponent == Os2ip(Base64Url.Decode(e).value)
    ensures r.Ok? ==> r.value.modulus < Pow256(r.value.modulusBytes)
    ensures MatchKey(s).None? ==> r == Err(KeyFormat)
    ensures MatchKey(s).Some? ==> var (m, e) := MatchKey(s).value;
      && (Base64Url.Decode(m).None? ==> r == Err(MalformedBase64(ModulusField)))
      && (Base64Url.Decode(m).Some? && Base64Url.Decode(e).None? ==> r == Err(MalformedBase64(ExponentField)))
      && (Base64Url.Decode(m).Some? && Base64Url.Decode(e).Some? ==> r.Ok?)
  {
    match MatchKey(s)
    case None => Err(KeyFormat)
    case Some((modText, expText)) =>
      match Base64Url.Decode(modText)
      case None => Err(MalformedBase64(ModulusField))
      case Some(modulus) =>
        match Base64Url.Decode(expText)
        case None => Err(MalformedBase64(ExponentField))
        case Some(exponent) =>
          Ok(PublicKey(BytesToInt(modulus), BytesToInt(exponent), |modulus|))
  }

  /**
   * `keypair.encrypt(signature)` with a public key only (line 192): RSAEP of section 5.1.1
   * of RFC 8017 applied to the signature read as an integer, with its out-of-range error,
   * and the result handed back in minimal big-endian form, as the comment at line 194 says.
   */
  function PublicOperation(key: PublicKey, signature: Octets): (r: Result<Octets, Rejection>)
    ensures r.Ok? <==> Os2ip(signature) < key.modulus
    ensures r.Ok? ==> Os2ip(r.value) == Pow(Os2ip(signature), key.exponent) % key.modulus
    ensures r.Ok? ==> r.value == [] || r.value[0] != 0
  {
    var s := BytesToInt(signature);
    if s >= key.modulus then Err(SignatureOutOfRange)
    else
      var m := Pow(s, key.exponent) % key.modulus;
      Os2ipI2osp(m);
      Ok(I2osp(m))
  }

  /** A line "RSA." + m + "." + e is exactly what MatchLine splits back into m and e. */
  lemma {:induction false} MatchLineSplits(line: Octets)
    requires MatchLine(line).Some?
    ensures var (m, e) := MatchLine(line).value;
      line == RsaPrefix + m + [Dot] + e && forall i :: 0 <= i < |m| ==> m[i] != Dot
  {
    var rest := line[4..];
    var k := IndexOf(rest, Dot);
    assert rest == rest[..k] + [Dot] + rest[k + 1..];
    assert line == line[..4] + rest;
  }

  /**
   * Joining a dot-free modulus text and any exponent text (dots allowed) into a
   * one-line key string, then matching it, gives the two texts back.
   */
  lemma {:induction false} MatchKeyJoin(m: Octets, e: Octets)
    requires forall i :: 0 <= i < |m| ==> m[i] != Dot && m[i] != Newline
    requires forall i :: 0 <= i < |e| ==> e[i] != Newline
    ensures MatchKey(RsaPrefix + m + [Dot] + e) == Some((m, e))
  {
    var s := RsaPrefix + m + [Dot] + e;
    assert forall i :: 0 <= i < |s| ==> s[i] != Newline by {
      forall i | 0 <= i < |s| ensures s[i] != Newline {
        if i < 4 {
        } else if i < 4 + |m| {
          assert s[i] == m[i - 4];
        } else if i > 4 + |m| {
          assert s[i] == e[i - 5 - |m|];
        }
      }
    }
    assert IndexOf(s, Newline) == |s|;
    assert s[..|s|] == s;
    assert s[..4] == RsaPrefix;
    var rest := s[4..];
    assert rest == m + [Dot] + e;
    assert rest[|m|] == Dot;
    assert IndexOf(rest, Dot) == |m|;
    assert rest[..|m|] == m && rest[|m| + 1..] == e;
  }

  /**
   * The key format round trip: a key published as "RSA." followed by the base64url of the
   * modulus bytes, '.', and the base64url of the exponent bytes parses to the OS2IP
   * values of those bytes, with the modulus length counted over all its bytes.
   */
  lemma {:induction false} ParseKeyOfEncoded(modulus: Octets, exponent: Octets)
    ensures ParseKey(RsaPrefix + Base64Url.Encode(modulus) + [Dot] + Base64Url.Encode(exponent))
      == Ok(PublicKey(Os2ip(modulus), Os2ip(exponent), |modulus|))
  {
    Base64Url.EncodeHasNoSeparators(modulus);
    Base64Url.EncodeHasNoSeparators(exponent);
    MatchKeyJoin(Base64Url.Encode(modulus), Base64Url.Encode(exponent));
    Base64Url.DecodeEncode(modulus);
    Base64Url.DecodeEncode(exponent);
  }

  /**
   * A leading zero byte in the published modulus leaves the modulus unchanged but adds
   * one to `modulusBytes`, and with it to the padding length of the expected block.
   */
  lemma {:induction false} LeadingZeroModulus(modulus: Octets, exponent: Octets)
    ensures var plain := ParseKey(RsaPrefix + Base64Url.Encode(modulus) + [Dot] + Base64Url.Encode(exponent));
            var padded := ParseKey(RsaPrefix + Base64Url.Encode([0] + modulus) + [Dot] + Base64Url.Encode(exponent));
      && plain.Ok? && padded.Ok?
      && padded.value.modulus == plain.value.modulus
      && padded.value.modulusBytes == plain.value.modulusBytes + 1
  {
    ParseKeyOfEncoded(modulus, exponent);
    ParseKeyOfEncoded([0] + modulus, exponent);
    assert [0] + modulus == Zeros(1) + modulus;
    Os2ipLeadingZeros(1, modulus);
  }
}
