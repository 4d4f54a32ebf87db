/** Option and Result, used for lookups that may find nothing and for steps that may reject. */
module Wrappers {
  datatype Option<+T> = None | Some(value: T)

  datatype Result<+T, +E> = Ok(value: T) | Err(error: E)
}

/** Byte strings. Ruby strings in the route are byte strings; every text value is modelled as its bytes. */
module Octets {
  newtype byte = x: int | 0 <= x < 256

  type Octets = seq<byte>

  const Dot: byte := 46      // '.'
  const Newline: byte := 10  // "\n"

  /** The bytes of an ASCII literal (every literal used here is ASCII). */
  function Ascii(s: string): Octets
  {
    seq(|s|, i requires 0 <= i < |s| => (s[i] as int % 256) as byte)
  }

  /** Ruby's String#downcase on a byte: only 'A'..'Z' change. */
  function DowncaseByte(b: byte): byte
  {
    if 65 <= b <= 90 then b + 32 else b
  }

  function Downcase(s: Octets): (r: Octets)
    ensures |r| == |s|
    ensures forall i :: 0 <= i < |s| ==> r[i] == DowncaseByte(s[i])
  {
    seq(|s|, i requires 0 <= i < |s| => DowncaseByte(s[i]))
  }
}

/** Why the route stops before reaching `verified = true`. */
module Errors {
  /** The base64url field whose decoding raised. */
  datatype Base64Field = SignatureField | DataField | ModulusField | ExponentField

  datatype Rejection =
    | EnvelopeNotFound           // no me:env root
    | DataNotFound               // no me:data child
    | SignatureMissing           // no me:sig
    | MalformedBase64(field: Base64Field)
    | UnsupportedEncoding        // encoding does not lower-case to "base64url"
    | KeyFormat                  // key string does not match RSA.<mod>.<exp>
    | SignatureOutOfRange        // signature integer not below the modulus
    | SignatureMismatch          // restored block differs from the expected block
}
