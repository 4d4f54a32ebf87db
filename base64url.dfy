/**
 * base64url, the URL- and filename-safe alphabet of RFC 4648 section 5, as the route's
 * Base64::urlsafe_encode64 and Base64::urlsafe_decode64 behave from Ruby 2.3 on:
 * encoding always emits '=' padding; decoding first appends the missing '=' when the
 * input has none and its length is not a multiple of four, then translates '-' and '_'
 * to '+' and '/' and decodes strictly with the standard alphabet of section 4 (alphabet
 * characters only, '=' only as the final padding, unused trailing bits zero). The
 * translation makes '+' and '-' both stand for 62 and '/' and '_' both for 63; the
 * model folds the two alphabets the other way round, onto the URL-safe one, which
 * gives the same bytes.
 */
module Base64Url {
  import opened Wrappers
  import opened Octets

  const Pad: byte := 61  // '='

  /** The character for a 6-bit value (RFC 4648 section 5, Table 2). */
  function CharOf(v: int): byte
    requires 0 <= v < 64
  {
    if v < 26 then (65 + v) as byte           // 'A'..'Z'
    else if v < 52 then (97 + v - 26) as byte // 'a'..'z'
    else if v < 62 then (48 + v - 52) as byte // '0'..'9'
    else if v == 62 then 45                   // '-'
    else 95                                   // '_'
  }

  /** The 6-bit value of an alphabet character; None for any other byte, '=' included. */
  function ValueOf(c: byte): (r: Option<int>)
    ensures r.Some? ==> 0 <= r.value < 64 && CharOf(r.value) == c
    ensures c == Pad || c == Dot || c == Newline ==> r.None?
  {
    if 65 <= c <= 90 then Some(c as int - 65)
    else if 97 <= c <= 122 then Some(c as int - 97 + 26)
    else if 48 <= c <= 57 then Some(c as int - 48 + 52)
    else if c == 45 then Some(62)
    else if c == 95 then Some(63)
    else None
  }

  lemma {:induction false} ValueOfCharOf(v: int)
    requires 0 <= v < 64
    ensures ValueOf(CharOf(v)) == Some(v)
  {
  }

  /** Three bytes as four characters. */
  function EncodeGroup(b0: byte, b1: byte, b2: byte): Octets
  {
    var x0, x1, x2 := b0 as int, b1 as int, b2 as int;
    [CharOf(x0 / 4), CharOf(x0 % 4 * 16 + x1 / 16), CharOf(x1 % 16 * 4 + x2 / 64), CharOf(x2 % 64)]
  }

  function Pads(k: nat): (r: Octets)
    ensures |r| == k && forall i :: 0 <= i < k ==> r[i] == Pad
  {
    seq(k, _ => Pad)
  }

  /** Length of the encoding without its '=' padding: ceil(4n / 3). */
  function UnpaddedLength(n: nat): nat
  {
    (4 * n + 2) / 3
  }

  /** Base64::urlsafe_encode64: groups of three bytes, the last one or two padded with '='. */
  function Encode(b: Octets): (s: Octets)
    ensures |s| == 4 * ((|b| + 2) / 3)
    decreases |b|
  {
    if |b| == 0 then []
    else if |b| == 1 then
      var x0 := b[0] as int;
      [CharOf(x0 / 4), CharOf(x0 % 4 * 16), Pad, Pad]
    else if |b| == 2 then
      var x0, x1 := b[0] as int, b[1] as int;
      [CharOf(x0 / 4), CharOf(x0 % 4 * 16 + x1 / 16), CharOf(x1 % 16 * 4), Pad]
    else
      EncodeGroup(b[0], b[1], b[2]) + Encode(b[3..])
  }

  /** Four alphabet characters as three bytes. */
  function DecodeGroup(c0: byte, c1: byte, c2: byte, c3: byte): (r: Option<Octets>)
    ensures r.Some? ==> |r.value| == 3
  {
    match (ValueOf(c0), ValueOf(c1), ValueOf(c2), ValueOf(c3))
    case (Some(v0), Some(v1), Some(v2), Some(v3)) =>
      Some([(v0 * 4 + v1 / 16) as byte, (v1 % 16 * 16 + v2 / 4) as byte, (v2 % 4 * 64 + v3) as byte])
    case _ => None
  }

  /** The last group of a strict decode: "xx==", "xxx=" or four alphabet characters. */
  function DecodeFinal(c0: byte, c1: byte, c2: byte, c3: byte): (r: Option<Octets>)
    ensures r.Some? ==> 1 <= |r.value| <= 3
  {
    if c2 == Pad && c3 == Pad then
      match (ValueOf(c0), ValueOf(c1))
      case (Some(v0), Some(v1)) =>
        if v1 % 16 == 0 then Some([(v0 * 4 + v1 / 16) as byte]) else None
      case _ => None
    else if c3 == Pad then
      match (ValueOf(c0), ValueOf(c1), ValueOf(c2))
      case (Some(v0), Some(v1), Some(v2)) =>
        if v2 % 4 == 0 then Some([(v0 * 4 + v1 / 16) as byte, (v1 % 16 * 16 + v2 / 4) as byte]) else None
      case _ => None
    else
      DecodeGroup(c0, c1, c2, c3)
  }

  /** Strict decoding: the length must be a multiple of four. */
  function DecodeStrict(s: Octets): (r: Option<Octets>)
    ensures r.Some? && s != [] ==> r.value != []
    decreases |s|
  {
    if |s| == 0 then Some([])
    else if |s| < 4 then None
    else if |s| == 4 then DecodeFinal(s[0], s[1], s[2], s[3])
    else
      match DecodeGroup(s[0], s[1], s[2], s[3])
      case None => None
      case Some(g) =>
        match DecodeStrict(s[4..])
        case None => None
        case Some(rest) => Some(g + rest)
  }

  /** Whatever the strict decoder accepts is made of alphabet characters and '='. */
  lemma {:induction false} DecodeStrictAlphabet(s: Octets)
    ensures DecodeStrict(s).Some? ==> forall i :: 0 <= i < |s| ==> s[i] == Pad || ValueOf(s[i]).Some?
    decreases |s|
  {
    if DecodeStrict(s).Some? && |s| > 4 {
      DecodeStrictAlphabet(s[4..]);
      assert forall i :: 4 <= i < |s| ==> s[i] == s[4..][i - 4];
    }
  }

  /** '+' and '/', the standard-alphabet characters for 62 and 63, read as '-' and '_'. */
  function UrlSafe(c: byte): byte
  {
    if c == 43 then 45 else if c == 47 then 95 else c
  }

  function ToUrlSafe(s: Octets): (r: Octets)
    ensures |r| == |s| && forall i :: 0 <= i < |s| ==> r[i] == UrlSafe(s[i])
  {
    seq(|s|, i requires 0 <= i < |s| => UrlSafe(s[i]))
  }

  /** Restore missing padding, then decode strictly, over the URL-safe alphabet. */
  function DecodeUrlSafe(t: Octets): Option<Octets>
  {
    if |t| % 4 != 0 && t[|t| - 1] != Pad then DecodeStrict(t + Pads(4 - |t| % 4))
    else DecodeStrict(t)
  }

  /**
   * Base64::urlsafe_decode64: characters of either alphabet are accepted, '=' only as
   * padding. Folding '+' and '/' onto '-' and '_' leaves '=' where it was, so restoring
   * the padding before or after the fold gives the same text.
   */
  function Decode(s: Octets): (r: Option<Octets>)
    ensures r.Some? ==> forall i :: 0 <= i < |s| ==> s[i] == Pad || ValueOf(UrlSafe(s[i])).Some?
    ensures r.Some? && s != [] ==> r.value != []
    ensures s == [] ==> r == Some([])
  {
    var t := ToUrlSafe(s);
    DecodeUrlSafeAlphabet(t);
    DecodeUrlSafe(t)
  }

  /** Splitting three bytes into four sextets and joining them back gives the bytes again. */
  lemma {:induction false} SplitJoin(x0: int, x1: int, x2: int)
    requires 0 <= x0 < 256 && 0 <= x1 < 256 && 0 <= x2 < 256
    ensures var v0, v1, v2, v3 := x0 / 4, x0 % 4 * 16 + x1 / 16, x1 % 16 * 4 + x2 / 64, x2 % 64;
      && 0 <= v0 < 64 && 0 <= v1 < 64 && 0 <= v2 < 64 && 0 <= v3 < 64
      && v0 * 4 + v1 / 16 == x0 && v1 % 16 * 16 + v2 / 4 == x1 && v2 % 4 * 64 + v3 == x2
  {
  }

  /** Joining four sextets into three bytes and splitting them back gives the sextets again. */
  lemma {:induction false} JoinSplit(v0: int, v1: int, v2: int, v3: int)
    requires 0 <= v0 < 64 && 0 <= v1 < 64 && 0 <= v2 < 64 && 0 <= v3 < 64
    ensures var x0, x1, x2 := v0 * 4 + v1 / 16, v1 % 16 * 16 + v2 / 4, v2 % 4 * 64 + v3;
      && 0 <= x0 < 256 && 0 <= x1 < 256 && 0 <= x2 < 256
      && x0 / 4 == v0 && x0 % 4 * 16 + x1 / 16 == v1 && x1 % 16 * 4 + x2 / 64 == v2 && x2 % 64 == v3
  {
  }

  lemma {:induction false} DecodeEncodeGroup(b0: byte, b1: byte, b2: byte)
    ensures var e := EncodeGroup(b0, b1, b2);
            DecodeGroup(e[0], e[1], e[2], e[3]) == Some([b0, b1, b2])
  {
    var x0, x1, x2 := b0 as int, b1 as int, b2 as int;
    SplitJoin(x0, x1, x2);
    ValueOfCharOf(x0 / 4);
    ValueOfCharOf(x0 % 4 * 16 + x1 / 16);
    ValueOfCharOf(x1 % 16 * 4 + x2 / 64);
    ValueOfCharOf(x2 % 64);
  }

  lemma {:induction false} DecodeEncodeOne(b0: byte)
    ensures var x0 := b0 as int;
            DecodeFinal(CharOf(x0 / 4), CharOf(x0 % 4 * 16), Pad, Pad) == Some([b0])
  {
    var x0 := b0 as int;
    SplitJoin(x0, 0, 0);
    ValueOfCharOf(x0 / 4);
    ValueOfCharOf(x0 % 4 * 16);
  }

  lemma {:induction false} DecodeEncodeTwo(b0: byte, b1: byte)
    ensures var x0, x1 := b0 as int, b1 as int;
            DecodeFinal(CharOf(x0 / 4), CharOf(x0 % 4 * 16 + x1 / 16), CharOf(x1 % 16 * 4), Pad) == Some([b0, b1])
  {
    var x0, x1 := b0 as int, b1 as int;
    SplitJoin(x0, x1, 0);
    ValueOfCharOf(x0 / 4);
    ValueOfCharOf(x0 % 4 * 16 + x1 / 16);
    ValueOfCharOf(x1 % 16 * 4);
  }

  lemma {:induction false} DecodeStrictEncode(b: Octets)
    ensures DecodeStrict(Encode(b)) == Some(b)
    decreases |b|
  {
    if |b| == 0 {
    } else if |b| == 1 {
      DecodeEncodeOne(b[0]);
      assert [b[0]] == b;
    } else if |b| == 2 {
      DecodeEncodeTwo(b[0], b[1]);
      assert [b[0], b[1]] == b;
    } else {
      var g := EncodeGroup(b[0], b[1], b[2]);
      var s := Encode(b);
      DecodeEncodeGroup(b[0], b[1], b[2]);
      DecodeStrictEncode(b[3..]);
      assert s == g + Encode(b[3..]);
      assert s[..4] == g && s[4..] == Encode(b[3..]);
      if |b| == 3 {
        assert s == g;
        assert DecodeGroup(g[0], g[1], g[2], g[3]).Some?;
        assert g[3] != Pad;
        assert [b[0], b[1], b[2]] == b;
      } else {
        assert [b[0], b[1], b[2]] + b[3..] == b;
      }
    }
  }

  lemma {:induction false} EncodeDecodeGroup(c0: byte, c1: byte, c2: byte, c3: byte)
    requires DecodeGroup(c0, c1, c2, c3).Some?
    ensures var g := DecodeGroup(c0, c1, c2, c3).value;
            EncodeGroup(g[0], g[1], g[2]) == [c0, c1, c2, c3]
  {
    var v0, v1, v2, v3 := ValueOf(c0).value, ValueOf(c1).value, ValueOf(c2).value, ValueOf(c3).value;
    JoinSplit(v0, v1, v2, v3);
  }

  lemma {:induction false} EncodeDecodeFinal(c0: byte, c1: byte, c2: byte, c3: byte)
    requires DecodeFinal(c0, c1, c2, c3).Some?
    ensures Encode(DecodeFinal(c0, c1, c2, c3).value) == [c0, c1, c2, c3]
  {
    var b := DecodeFinal(c0, c1, c2, c3).value;
    if c2 == Pad && c3 == Pad {
      var v0, v1 := ValueOf(c0).value, ValueOf(c1).value;
      JoinSplit(v0, v1, 0, 0);
      assert |b| == 1;
    } else if c3 == Pad {
      var v0, v1, v2 := ValueOf(c0).value, ValueOf(c1).value, ValueOf(c2).value;
      JoinSplit(v0, v1, v2, 0);
      assert |b| == 2;
    } else {
      EncodeDecodeGroup(c0, c1, c2, c3);
      assert |b| == 3;
      assert Encode(b) == EncodeGroup(b[0], b[1], b[2]) + Encode(b[3..]);
      assert b[3..] == [];
    }
  }

  lemma {:induction false} EncodeDecodeStrict(s: Octets)
    requires DecodeStrict(s).Some?
    ensures Encode(DecodeStrict(s).value) == s
    decreases |s|
  {
    var b := DecodeStrict(s).value;
    if |s| == 0 {
    } else if |s| == 4 {
      EncodeDecodeFinal(s[0], s[1], s[2], s[3]);
      assert [s[0], s[1], s[2], s[3]] == s;
    } else {
      var g := DecodeGroup(s[0], s[1], s[2], s[3]).value;
      var rest := DecodeStrict(s[4..]).value;
      EncodeDecodeGroup(s[0], s[1], s[2], s[3]);
      EncodeDecodeStrict(s[4..]);
      assert b == g + rest;
      assert rest != [];
      assert b[3..] == rest;
      assert Encode(b) == EncodeGroup(b[0], b[1], b[2]) + Encode(b[3..]);
      assert [s[0], s[1], s[2], s[3]] + s[4..] == s;
    }
  }

  /** The encoding holds '=' exactly from position UnpaddedLength(|b|) on. */
  lemma {:induction false} EncodePadding(b: Octets)
    ensures forall i :: 0 <= i < |Encode(b)| ==> (Encode(b)[i] == Pad <==> i >= UnpaddedLength(|b|))
    decreases |b|
  {
    if |b| >= 3 {
      var g := EncodeGroup(b[0], b[1], b[2]);
      EncodePadding(b[3..]);
      assert UnpaddedLength(|b|) == UnpaddedLength(|b| - 3) + 4;
      assert Encode(b) == g + Encode(b[3..]);
      forall i | 0 <= i < |Encode(b)|
        ensures Encode(b)[i] == Pad <==> i >= UnpaddedLength(|b|)
      {
        if i >= 4 {
          assert Encode(b)[i] == Encode(b[3..])[i - 4];
        }
      }
    }
  }

  /** Every character of an encoding is in the alphabet or is '='. */
  lemma {:induction false} EncodeAlphabet(b: Octets)
    ensures forall i :: 0 <= i < |Encode(b)| ==> Encode(b)[i] == Pad || ValueOf(Encode(b)[i]).Some?
    decreases |b|
  {
    var x0 := if |b| > 0 then b[0] as int else 0;
    var x1 := if |b| > 1 then b[1] as int else 0;
    var x2 := if |b| > 2 then b[2] as int else 0;
    SplitJoin(x0, x1, x2);
    ValueOfCharOf(x0 / 4);
    ValueOfCharOf(x0 % 4 * 16 + x1 / 16);
    ValueOfCharOf(x1 % 16 * 4 + x2 / 64);
    ValueOfCharOf(x2 % 64);
    if |b| >= 3 {
      EncodeAlphabet(b[3..]);
      assert Encode(b) == EncodeGroup(b[0], b[1], b[2]) + Encode(b[3..]);
      forall i | 4 <= i < |Encode(b)|
        ensures Encode(b)[i] == Pad || ValueOf(Encode(b)[i]).Some?
      {
        assert Encode(b)[i] == Encode(b[3..])[i - 4];
      }
    }
  }

  /** Whatever the URL-safe decoder accepts is made of alphabet characters and '='. */
  lemma {:induction false} DecodeUrlSafeAlphabet(t: Octets)
    ensures DecodeUrlSafe(t).Some? ==> forall i :: 0 <= i < |t| ==> t[i] == Pad || ValueOf(t[i]).Some?
  {
    if |t| % 4 != 0 && t[|t| - 1] != Pad {
      var p := t + Pads(4 - |t| % 4);
      DecodeStrictAlphabet(p);
      assert forall i :: 0 <= i < |t| ==> p[i] == t[i];
    } else {
      DecodeStrictAlphabet(t);
    }
  }

  lemma {:induction false} DecodeUrlSafeEncode(b: Octets)
    ensures DecodeUrlSafe(Encode(b)) == Some(b)
  {
    var k := (|b| + 2) / 3;
    assert |Encode(b)| % 4 == (4 * k) % 4 == 0;
    DecodeStrictEncode(b);
  }

  lemma {:induction false} DecodeUrlSafeUnpadded(b: Octets)
    ensures DecodeUrlSafe(Encode(b)[..UnpaddedLength(|b|)]) == Some(b)
  {
    var e := Encode(b);
    var u := e[..UnpaddedLength(|b|)];
    if |b| % 3 == 0 {
      assert u == e;
      DecodeUrlSafeEncode(b);
    } else {
      var k := (|b| + 2) / 3;
      var n := UnpaddedLength(|b|);
      assert |e| == 4 * k;
      assert n == 4 * k - 2 || n == 4 * k - 1;
      assert |u| % 4 != 0;
      EncodePadding(b);
      assert e[n - 1] != Pad;
      var t := u + Pads(4 - |u| % 4);
      assert |t| == |e|;
      assert t == e;
      DecodeStrictEncode(b);
    }
  }

  lemma {:induction false} DecodeUrlSafeExactly(t: Octets, b: Octets)
    ensures DecodeUrlSafe(t) == Some(b) <==> (t == Encode(b) || t == Encode(b)[..UnpaddedLength(|b|)])
  {
    if DecodeUrlSafe(t) == Some(b) {
      var e := Encode(b);
      if |t| % 4 != 0 && t[|t| - 1] != Pad {
        var p := t + Pads(4 - |t| % 4);
        EncodeDecodeStrict(p);
        EncodePadding(b);
        assert e == p;
        assert e[|t| - 1] != Pad && e[|t|] == Pad;
        assert |t| == UnpaddedLength(|b|);
        assert t == e[..|t|];
      } else {
        EncodeDecodeStrict(t);
      }
    }
    if t == Encode(b) {
      DecodeUrlSafeEncode(b);
    } else if t == Encode(b)[..UnpaddedLength(|b|)] {
      DecodeUrlSafeUnpadded(b);
    }
  }

  /** Text made of URL-safe characters and '=' is left alone by the fold. */
  lemma {:induction false} ToUrlSafeFixed(t: Octets)
    requires forall i :: 0 <= i < |t| ==> t[i] == Pad || ValueOf(t[i]).Some?
    ensures ToUrlSafe(t) == t
  {
    assert forall i :: 0 <= i < |t| ==> ToUrlSafe(t)[i] == t[i];
  }

  /** Decoding inverts encoding. */
  lemma {:induction false} DecodeEncode(b: Octets)
    ensures Decode(Encode(b)) == Some(b)
  {
    EncodeAlphabet(b);
    ToUrlSafeFixed(Encode(b));
    DecodeUrlSafeEncode(b);
  }

  /** The unpadded encoding, which the decoder also accepts, decodes to the same bytes. */
  lemma {:induction false} DecodeUnpadded(b: Octets)
    ensures Decode(Encode(b)[..UnpaddedLength(|b|)]) == Some(b)
  {
    var u := Encode(b)[..UnpaddedLength(|b|)];
    EncodeAlphabet(b);
    assert forall i :: 0 <= i < |u| ==> u[i] == Encode(b)[i];
    ToUrlSafeFixed(u);
    DecodeUrlSafeUnpadded(b);
  }

  /**
   * The decoder accepts exactly the padded encoding of a byte string and that encoding
   * with its '=' padding dropped, each with any '-' and '_' written as '+' and '/', and
   * nothing else.
   */
  lemma {:induction false} DecodeExactly(s: Octets, b: Octets)
    ensures Decode(s) == Some(b) <==>
      (ToUrlSafe(s) == Encode(b) || ToUrlSafe(s) == Encode(b)[..UnpaddedLength(|b|)])
  {
    DecodeUrlSafeExactly(ToUrlSafe(s), b);
  }

  /** '+w==' and '-w==' both decode to the single byte 0xFB. */
  lemma DecodeEitherAlphabet()
    ensures Decode([43, 119, Pad, Pad]) == Some([251])
    ensures Decode([45, 119, Pad, Pad]) == Some([251])
  {
    assert ToUrlSafe([43, 119, Pad, Pad]) == [45, 119, Pad, Pad];
    assert ToUrlSafe([45, 119, Pad, Pad]) == [45, 119, Pad, Pad];
  }

  /** Whatever the decoder accepts holds no '.' and no newline. */
  lemma {:induction false} DecodedHasNoSeparators(s: Octets)
    requires Decode(s).Some?
    ensures forall i :: 0 <= i < |s| ==> s[i] != Dot && s[i] != Newline
  {
    assert forall i :: 0 <= i < |s| ==> s[i] == Pad || ValueOf(UrlSafe(s[i])).Some?;
  }

  /** An encoding holds no '.' and no newline. */
  lemma {:induction false} EncodeHasNoSeparators(b: Octets)
    ensures forall i :: 0 <= i < |Encode(b)| ==> Encode(b)[i] != Dot && Encode(b)[i] != Newline
  {
    EncodeAlphabet(b);
  }
}
