/**
 * Reading a Magic Envelope out of the parsed request body and rebuilding the string its
 * signature covers. The XML lookups are taken as already done: each namespace-qualified
 * `find(...).first` becomes an optional value, the element's text content or, for the
 * `type` attribute of me:data, the attribute's value.
 */
module MagicEnvelope {
  import opened Wrappers
  import opened Octets
  import opened Errors
  import Base64Url

  /** The me:data element: its `type` attribute, if present, and its text content. */
  datatype DataElement = DataElement(typeAttribute: Option<Octets>, content: Octets)

  /** What the lookups under the me:env root find: me:data, and the text of me:encoding and me:alg. */
  datatype EnvElement = EnvElement(data: Option<DataElement>, encoding: Option<Octets>, alg: Option<Octets>)

  /** The request body: the /me:env root, if any, and the text of the document-level me:sig lookup. */
  datatype Document = Document(env: Option<EnvElement>, sig: Option<Octets>)

  /**
   * A decoded envelope. `data` and `signature` are the decoded bytes; `dataType`,
   * `encoding` and `algorithm` are the values the route works with; the four armored
   * fields are what the signature covers.
   */
  datatype Envelope = Envelope(
    data: Octets,
    dataType: Octets,
    encoding: Octets,
    algorithm: Octets,
    signature: Octets,
    armoredData: Octets,
    armoredDataType: Octets,
    armoredEncoding: Octets,
    armoredAlgorithm: Octets)

  /** The defaults of section 3.3 of the Magic Envelope draft for omitted fields. */
  const DefaultDataType: Octets := Ascii("application/atom+xml")
  const DefaultEncoding: Octets := Ascii("base64url")
  const DefaultAlgorithm: Octets := Ascii("rsa-sha256")

  /** A field's working value and its armored form. */
  datatype Field = Field(value: Octets, armored: Octets)

  predicate NoDot(s: Octets)
  {
    forall i :: 0 <= i < |s| ==> s[i] != Dot
  }

  /**
   * The defaulting rule for an optional field: when absent, the default value and an
   * empty armored form; when present, its base64url encoding as the armored form and its
   * text, lower-cased when `lowerCase` holds, as the value.
   */
  function ArmorField(text: Option<Octets>, default: Octets, lowerCase: bool): (f: Field)
    ensures text.None? ==> f.value == default && f.armored == []
    ensures text.Some? ==> f.value == (if lowerCase then Downcase(text.value) else text.value)
    ensures text.Some? ==> f.armored == Base64Url.Encode(text.value)
    ensures text.Some? ==> Base64Url.Decode(f.armored) == Some(text.value)
    ensures f.armored == [] <==> text.None? || text.value == []
    ensures NoDot(f.armored)
  {
    match text
    case None => Field(default, [])
    case Some(t) =>
      Base64Url.DecodeEncode(t);
      Base64Url.EncodeHasNoSeparators(t);
      Field(if lowerCase then Downcase(t) else t, Base64Url.Encode(t))
  }

  /** Lines 31-37: the data type is used as written. */
  function ReadDataType(typeAttribute: Option<Octets>): Field
  {
    ArmorField(typeAttribute, DefaultDataType, false)
  }

  /** Lines 58-66: the encoding is lower-cased for dispatch. */
  function ReadEncoding(encoding: Option<Octets>): Field
  {
    ArmorField(encoding, DefaultEncoding, true)
  }

  /** Lines 68-76: the algorithm is lower-cased. */
  function ReadAlgorithm(alg: Option<Octets>): Field
  {
    ArmorField(alg, DefaultAlgorithm, true)
  }

  /** The armored fields hold no '.', so the signing input can be split back into them. */
  predicate Unambiguous(e: Envelope)
  {
    NoDot(e.armoredData) && NoDot(e.armoredDataType) && NoDot(e.armoredEncoding) && NoDot(e.armoredAlgorithm)
  }

  /**
   * Lines 21-95: find the envelope, its data, the signature, the encoding and algorithm,
   * apply the defaults and decode data and signature. The missing-data rejection comes
   * before the signature check, where the route first dereferences me:data (line 31).
   */
  function DecodeEnvelope(doc: Document): (r: Result<Envelope, Rejection>)
    ensures doc.env.None? ==> r == Err(EnvelopeNotFound)
    ensures doc.env.Some? && doc.env.value.data.None? ==> r == Err(DataNotFound)
    ensures doc.env.Some? && doc.env.value.data.Some? && doc.sig.None? ==> r == Err(SignatureMissing)
    ensures doc.env.Some? && doc.env.value.data.Some? && doc.sig.Some? ==>
      var env := doc.env.value;
      && (Base64Url.Decode(doc.sig.value).None? ==> r == Err(MalformedBase64(SignatureField)))
      && (Base64Url.Decode(doc.sig.value).Some? && ReadEncoding(env.encoding).value != DefaultEncoding ==>
            r == Err(UnsupportedEncoding))
      && ((Base64Url.Decode(doc.sig.value).Some? && ReadEncoding(env.encoding).value == DefaultEncoding
             && Base64Url.Decode(env.data.value.content).None?) ==> r == Err(MalformedBase64(DataField)))
    ensures r.Ok? <==>
      && doc.env.Some? && doc.env.value.data.Some? && doc.sig.Some?
      && Base64Url.Decode(doc.sig.value).Some?
      && ReadEncoding(doc.env.value.encoding).value == DefaultEncoding
      && Base64Url.Decode(doc.env.value.data.value.content).Some?
    ensures r.Ok? ==> var env := doc.env.value;
      && Base64Url.Decode(doc.sig.value) == Some(r.value.signature)
      && r.value.armoredData == env.data.value.content
      && Base64Url.Decode(r.value.armoredData) == Some(r.value.data)
      && r.value.dataType == ReadDataType(env.data.value.typeAttribute).value
      && r.value.armoredDataType == ReadDataType(env.data.value.typeAttribute).armored
      && r.value.encoding == DefaultEncoding
      && r.value.armoredEncoding == ReadEncoding(env.encoding).armored
      && r.value.algorithm == ReadAlgorithm(env.alg).value
      && r.value.armoredAlgorithm == ReadAlgorithm(env.alg).armored
    ensures r.Ok? ==> doc.env.value.encoding.None? || Downcase(doc.env.value.encoding.value) == DefaultEncoding
    ensures r.Ok? ==> Unambiguous(r.value)
  {
    match doc.env
    case None => Err(EnvelopeNotFound)
    case Some(env) =>
      match env.data
      case None => Err(DataNotFound)
      case Some(data) =>
        var dataType := ReadDataType(data.typeAttribute);
        match doc.sig
        case None => Err(SignatureMissing)
        case Some(sigText) =>
          match Base64Url.Decode(sigText)
          case None => Err(MalformedBase64(SignatureField))
          case Some(signature) =>
            var encoding := ReadEncoding(env.encoding);
            var algorithm := ReadAlgorithm(env.alg);
            if encoding.value != DefaultEncoding then Err(UnsupportedEncoding)
            else
              match Base64Url.Decode(data.content)
              case None => Err(MalformedBase64(DataField))
              case Some(payload) =>
                Base64Url.DecodedHasNoSeparators(data.content);
                Ok(Envelope(payload, dataType.value, encoding.value, algorithm.value, signature,
                            data.content, dataType.armored, encoding.armored, algorithm.armored))
  }

  /** Line 176: the armored fields joined with '.', each in its own place between the dots. */
  function SigningInput(e: Envelope): (s: Octets)
    ensures var d, t, c := |e.armoredData|, |e.armoredDataType|, |e.armoredEncoding|;
      && |s| == d + t + c + |e.armoredAlgorithm| + 3
      && s[d] == Dot && s[d + 1 + t] == Dot && s[d + t + c + 2] == Dot
      && s[..d] == e.armoredData
      && s[d + 1..d + 1 + t] == e.armoredDataType
      && s[d + t + 2..d + t + c + 2] == e.armoredEncoding
      && s[d + t + c + 3..] == e.armoredAlgorithm
  {
    e.armoredData + [Dot] + e.armoredDataType + [Dot] + e.armoredEncoding + [Dot] + e.armoredAlgorithm
  }

  /**
   * A dot-free field that starts at position k of s and is ended by a '.' is determined
   * by s and k.
   */
  lemma {:induction false} FieldBeforeDot(s: Octets, k: nat, x: Octets, y: Octets)
    requires NoDot(x) && NoDot(y)
    requires k + |x| < |s| && k + |y| < |s|
    requires s[k..k + |x|] == x && s[k + |x|] == Dot
    requires s[k..k + |y|] == y && s[k + |y|] == Dot
    ensures x == y
  {
    assert forall i :: k <= i < k + |x| ==> s[i] == x[i - k];
    assert forall i :: k <= i < k + |y| ==> s[i] == y[i - k];
    assert |x| == |y|;
  }

  /**
   * The signing input determines the four armored fields: two decoded envelopes sign the
   * same string exactly when their armored data, data type, encoding and algorithm agree.
   */
  lemma {:induction false} SigningInputInjective(e1: Envelope, e2: Envelope)
    requires Unambiguous(e1) && Unambiguous(e2)
    ensures SigningInput(e1) == SigningInput(e2) <==>
      && e1.armoredData == e2.armoredData
      && e1.armoredDataType == e2.armoredDataType
      && e1.armoredEncoding == e2.armoredEncoding
      && e1.armoredAlgorithm == e2.armoredAlgorithm
  {
    var s := SigningInput(e1);
    if s == SigningInput(e2) {
      var d := |e1.armoredData|;
      FieldBeforeDot(s, 0, e1.armoredData, e2.armoredData);
      var t := |e1.armoredDataType|;
      FieldBeforeDot(s, d + 1, e1.armoredDataType, e2.armoredDataType);
      FieldBeforeDot(s, d + t + 2, e1.armoredEncoding, e2.armoredEncoding);
    }
  }

  /** "base64url" is already lower case. */
  lemma DefaultEncodingIsLowerCase()
    ensures Downcase(DefaultEncoding) == DefaultEncoding
  {
    assert forall i :: 0 <= i < |DefaultEncoding| ==> DowncaseByte(DefaultEncoding[i]) == DefaultEncoding[i];
  }

  /**
   * Omitting me:encoding and stating it as "base64url" decode to the same working value,
   * yet sign different strings: the omitted field is armored as '' and the stated one as
   * the base64url of its text.
   */
  lemma {:induction false} StatedDefaultEncodingSignsDifferently(env: EnvElement, sig: Option<Octets>)
    requires env.encoding.None?
    requires DecodeEnvelope(Document(Some(env), sig)).Ok?
    ensures var stated := Document(Some(env.(encoding := Some(DefaultEncoding))), sig);
      && DecodeEnvelope(stated).Ok?
      && DecodeEnvelope(stated).value.encoding == DecodeEnvelope(Document(Some(env), sig)).value.encoding
      && SigningInput(DecodeEnvelope(stated).value) != SigningInput(DecodeEnvelope(Document(Some(env), sig)).value)
  {
    var e1 := DecodeEnvelope(Document(Some(env), sig)).value;
    var stated := Document(Some(env.(encoding := Some(DefaultEncoding))), sig);
    DefaultEncodingIsLowerCase();
    var f := ReadEncoding(Some(DefaultEncoding));
    assert f.value == DefaultEncoding;
    assert f.armored != [] by {
      assert |DefaultEncoding| == 9;
    }
    assert DecodeEnvelope(stated).Ok?;
    var e2 := DecodeEnvelope(stated).value;
    assert e2.armoredEncoding == f.armored;
    assert e1.armoredEncoding == [];
    SigningInputInjective(e1, e2);
  }
}
