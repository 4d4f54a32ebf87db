/**
 * Byte strings read as unsigned big-endian integers and back: the fold the route uses to
 * turn the key's modulus and exponent into integers, the integer-to-octet-string
 * conversion OS2IP of section 4.2 of RFC 8017 that the fold computes, and the minimal
 * big-endian serialisation with which the RSA public operation hands its result back.
 */
module BigEndian {
  import opened Octets

  function Pow(b: nat, e: nat): (p: nat)
    ensures b > 0 ==> p > 0
  {
    if e == 0 then 1 else b * Pow(b, e - 1)
  }

  /** The positional weight of a byte n places from the right. */
  function Pow256(n: nat): (p: nat)
    ensures p >= 1
  {
    Pow(256, n)
  }

  /** OS2IP (RFC 8017 section 4.2): the sum of b[i] * 256^(|b| - 1 - i). */
  function Os2ip(b: Octets): nat
  {
    if b == [] then 0 else b[0] as nat * Pow256(|b| - 1) + Os2ip(b[1..])
  }

  /**
   * `bytes.inject(acc) { |num, byte| (num << 8) | byte }`: shifting left by eight bits
   * leaves the low eight bits zero, so or-ing in a byte is adding it.
   */
  function FoldBytes(acc: nat, b: Octets): nat
    decreases |b|
  {
    if b == [] then acc else FoldBytes(acc * 256 + b[0] as nat, b[1..])
  }

  /** The route's byte-string-to-integer conversion: the fold started at 0. */
  function BytesToInt(b: Octets): (n: nat)
    ensures n == Os2ip(b)
    ensures n < Pow256(|b|)
  {
    FoldIsOs2ip(0, b);
    Os2ipBound(b);
    FoldBytes(0, b)
  }

  /** The minimal big-endian serialisation: empty for 0, otherwise no leading zero byte. */
  function I2osp(x: nat): (r: Octets)
    ensures r == [] <==> x == 0
    ensures r != [] ==> r[0] != 0
    decreases x
  {
    if x == 0 then [] else I2osp(x / 256) + [(x % 256) as byte]
  }

  lemma {:induction false} MulMonotone(a: nat, b: nat, p: nat)
    requires a <= b
    ensures a * p <= b * p
  {
  }

  /** Folding from an accumulator shifts it left past all the bytes and adds their value. */
  lemma {:induction false} FoldIsOs2ip(acc: nat, b: Octets)
    ensures FoldBytes(acc, b) == acc * Pow256(|b|) + Os2ip(b)
    decreases |b|
  {
    if b != [] {
      var n := |b| - 1;
      var p := Pow256(n);
      FoldIsOs2ip(acc * 256 + b[0] as nat, b[1..]);
      calc {
        FoldBytes(acc, b);
        (acc * 256 + b[0] as nat) * p + Os2ip(b[1..]);
        { assert (acc * 256 + b[0] as nat) * p == acc * (256 * p) + b[0] as nat * p; }
        acc * (256 * p) + b[0] as nat * p + Os2ip(b[1..]);
        acc * Pow256(|b|) + Os2ip(b);
      }
    }
  }

  /** A byte string of length n denotes a number below 256^n. */
  lemma {:induction false} Os2ipBound(b: Octets)
    ensures Os2ip(b) < Pow256(|b|)
    decreases |b|
  {
    if b != [] {
      var p := Pow256(|b| - 1);
      Os2ipBound(b[1..]);
      MulMonotone(b[0] as nat, 255, p);
      assert Os2ip(b) <= 255 * p + (p - 1);
    }
  }

  /** A byte string denotes at least its first byte times its positional weight. */
  lemma Os2ipLowerBound(b: Octets)
    requires b != []
    ensures Os2ip(b) >= b[0] as nat * Pow256(|b| - 1)
  {
  }

  function Zeros(k: nat): Octets
  {
    seq(k, _ => 0)
  }

  /** Leading zero bytes do not change the value. */
  lemma {:induction false} Os2ipLeadingZeros(k: nat, b: Octets)
    ensures Os2ip(Zeros(k) + b) == Os2ip(b)
    decreases k
  {
    if k > 0 {
      var zb := Zeros(k) + b;
      assert zb[0] == 0;
      assert zb[1..] == Zeros(k - 1) + b;
      Os2ipLeadingZeros(k - 1, b);
    } else {
      assert Zeros(k) + b == b;
    }
  }

  /** Appending a byte shifts the value left by eight bits and adds the byte. */
  lemma {:induction false} Os2ipAppend(b: Octets, y: byte)
    ensures Os2ip(b + [y]) == Os2ip(b) * 256 + y as nat
    decreases |b|
  {
    if b != [] {
      var p := Pow256(|b| - 1);
      assert (b + [y])[1..] == b[1..] + [y];
      Os2ipAppend(b[1..], y);
      calc {
        Os2ip(b + [y]);
        b[0] as nat * Pow256(|b|) + Os2ip(b[1..]) * 256 + y as nat;
        { assert b[0] as nat * (256 * p) == (b[0] as nat * p) * 256; }
        (b[0] as nat * p + Os2ip(b[1..])) * 256 + y as nat;
      }
    }
  }

  /** Powers of 256 grow with the exponent. */
  lemma {:induction false} Pow256Monotone(i: nat, j: nat)
    requires i <= j
    ensures Pow256(i) <= Pow256(j)
    decreases j
  {
    if i < j {
      Pow256Monotone(i, j - 1);
    }
  }

  /** Reading back the minimal serialisation gives the number. */
  lemma {:induction false} Os2ipI2osp(x: nat)
    ensures Os2ip(I2osp(x)) == x
    decreases x
  {
    if x > 0 {
      Os2ipI2osp(x / 256);
      Os2ipAppend(I2osp(x / 256), (x % 256) as byte);
    }
  }

  /** A byte string without a leading zero byte is the minimal serialisation of its value. */
  lemma {:induction false} I2ospOs2ip(b: Octets)
    requires b == [] || b[0] != 0
    ensures I2osp(Os2ip(b)) == b
    decreases |b|
  {
    if b != [] {
      var c, y := b[..|b| - 1], b[|b| - 1];
      assert b == c + [y];
      Os2ipAppend(c, y);
      Os2ipLowerBound(b);
      var x := Os2ip(b);
      assert x > 0;
      assert x / 256 == Os2ip(c) && x % 256 == y as nat;
      I2ospOs2ip(c);
    }
  }
}
