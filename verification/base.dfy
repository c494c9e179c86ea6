/** Machine words, bytes and little-endian byte strings shared by the whole model. */
module Base {

  /** The conventional optional value; `None` stands for the source's null
      value object or an unset slot. */
  datatype Option<+T> = None | Some(value: T)

  const TWO_TO_64: int := 0x1_0000_0000_0000_0000

  type byte = x: int | 0 <= x < 256
  type u64 = x: int | 0 <= x < 0x1_0000_0000_0000_0000

  /** 2^n, for bit widths and masks. */
  function Pow2(n: nat): (r: nat)
    ensures r >= 1
  {
    if n == 0 then 1 else 2 * Pow2(n - 1)
  }

  lemma {:induction false} Pow2Add(a: nat, b: nat)
    ensures Pow2(a + b) == Pow2(a) * Pow2(b)
  {
    if a > 0 {
      Pow2Add(a - 1, b);
    }
  }

  lemma Pow2Monotone(a: nat, b: nat)
    requires a <= b
    ensures Pow2(a) <= Pow2(b)
  {
    Pow2Add(a, b - a);
  }

  lemma Pow2Of64()
    ensures Pow2(64) == TWO_TO_64
  {
    assert Pow2(8) == 256;
    Pow2Add(8, 8);
    assert Pow2(16) == 0x1_0000;
    Pow2Add(16, 16);
    assert Pow2(32) == 0x1_0000_0000;
    Pow2Add(32, 32);
  }

  lemma Pow2Of32()
    ensures Pow2(32) == 0x1_0000_0000 && Pow2(31) == 0x8000_0000
  {
    assert Pow2(8) == 256;
    Pow2Add(8, 8);
    assert Pow2(16) == 0x1_0000;
    Pow2Add(16, 16);
    assert Pow2(32) == 2 * Pow2(31);
  }

  /** Unsigned value of a little-endian byte string. */
  function DecodeLE(bs: seq<byte>): (r: nat)
    ensures r < Pow2(8 * |bs|)
  {
    if bs == [] then 0
    else
      var rest := DecodeLE(bs[1..]);
      Pow2Add(8, 8 * (|bs| - 1));
      assert Pow2(8) == 256;
      bs[0] + 256 * rest
  }

  /** The `n` low-order bytes of `v`, least significant first. */
  function EncodeLE(v: nat, n: nat): (r: seq<byte>)
    ensures |r| == n
  {
    if n == 0 then [] else [v % 256] + EncodeLE(v / 256, n - 1)
  }

  /** Encoding then decoding keeps exactly the low `n` bytes of the value. */
  lemma {:induction false} DecodeEncode(v: nat, n: nat)
    ensures DecodeLE(EncodeLE(v, n)) == v % Pow2(8 * n)
  {
    if n > 0 {
      DecodeEncode(v / 256, n - 1);
      var e := EncodeLE(v, n);
      assert e[1..] == EncodeLE(v / 256, n - 1);
      Pow2Add(8, 8 * (n - 1));
      assert Pow2(8) == 256;
      var p := Pow2(8 * (n - 1));
      assert Pow2(8 * n) == 256 * p;
      DivModSplit(v, p);
    }
  }

  /** `v % m == r` whenever `v == m * q + r` with `r` in range. */
  lemma ModUnique(v: int, m: int, q: int, r: int)
    requires m > 0 && 0 <= r < m && v == m * q + r
    ensures v % m == r && v / m == q
  {
    var k := q - v / m;
    assert m * k == v % m - r by {
      assert v == m * (v / m) + v % m;
      assert m * q - m * (v / m) == m * k;
    }
    if k >= 1 {
      MulAtLeast(m, k);
      assert false;
    } else if k <= -1 {
      MulAtLeast(m, -k);
      assert false;
    }
  }

  lemma MulAtLeast(m: int, k: int)
    requires m > 0 && k >= 1
    ensures m * k >= m
  {
    assert m * k == m * (k - 1) + m;
  }

  lemma DivModSplit(v: nat, p: nat)
    requires p >= 1
    ensures v % (256 * p) == v % 256 + 256 * ((v / 256) % p)
  {
    var q := v / 256;
    var r := v % 256;
    var q2 := q / p;
    var r2 := q % p;
    assert q == p * q2 + r2;
    calc {
      v;
      256 * q + r;
      256 * (p * q2 + r2) + r;
      { assert 256 * (p * q2) == (256 * p) * q2; }
      (256 * p) * q2 + (256 * r2 + r);
    }
    assert r2 <= p - 1;
    assert 256 * r2 <= 256 * (p - 1);
    ModUnique(v, 256 * p, q2, 256 * r2 + r);
  }

  /** Decoding then encoding gives back the byte string. */
  lemma {:induction false} EncodeDecode(bs: seq<byte>)
    ensures EncodeLE(DecodeLE(bs), |bs|) == bs
  {
    if bs != [] {
      EncodeDecode(bs[1..]);
      var v := DecodeLE(bs);
      assert v % 256 == bs[0];
      assert v / 256 == DecodeLE(bs[1..]);
    }
  }

  /** Little-endian bytes of a 64-bit word. */
  function Word(v: u64): (r: seq<byte>)
    ensures |r| == 8
  {
    EncodeLE(v, 8)
  }

  /** The eight bytes of a word decode to the word. */
  lemma WordDecodes(v: u64)
    ensures DecodeLE(Word(v)) == v
  {
    DecodeEncode(v, 8);
    Pow2Of64();
    ModUnique(v as int, TWO_TO_64, 0, v as int);
  }

  /** Reinterpretation of the low `bits` bits of `v` as a two's-complement number. */
  function ToSigned(v: nat, bits: nat): (r: int)
    requires bits > 0
    ensures 0 <= r + Pow2(bits - 1) && r < Pow2(bits - 1)
    ensures r >= 0 <==> v % Pow2(bits) < Pow2(bits - 1)
  {
    Pow2Add(1, bits - 1);
    var low := v % Pow2(bits);
    if low < Pow2(bits - 1) then low else low - Pow2(bits)
  }

  /** `x` is a value of an integer type `bits` wide, two's-complement when
      `signed`. */
  predicate Representable(x: int, bits: nat, signed: bool)
    requires bits > 0
  {
    if signed then 0 <= x + Pow2(bits - 1) && x < Pow2(bits - 1) else 0 <= x < Pow2(bits)
  }

  lemma ToSignedResidue(v: nat, bits: nat)
    requires bits > 0
    ensures ToSigned(v, bits) % Pow2(bits) == v % Pow2(bits)
  {
    Pow2Add(1, bits - 1);
    var p := Pow2(bits);
    var low := v % p;
    if low < Pow2(bits - 1) {
      ModUnique(low, p, 0, low);
    } else {
      ModUnique(low - p, p, -1, low);
    }
  }

  /** The value of the `bits`-wide integer type, signed or not, whose bit
      pattern is the low `bits` bits of `raw`. */
  function Reinterpret(raw: nat, bits: nat, signed: bool): (x: int)
    requires bits > 0
    ensures Representable(x, bits, signed)
    ensures x % Pow2(bits) == raw % Pow2(bits)
  {
    Pow2Add(1, bits - 1);
    if signed then
      ToSignedResidue(raw, bits);
      ToSigned(raw, bits)
    else
      ModUnique(raw % Pow2(bits), Pow2(bits), 0, raw % Pow2(bits));
      raw % Pow2(bits)
  }

  /** Two values of one integer type with the same bit pattern are equal, so
      the two properties of `Reinterpret` determine its result. */
  lemma {:induction false} RepresentableUnique(x: int, y: int, bits: nat, signed: bool)
    requires bits > 0
    requires Representable(x, bits, signed) && Representable(y, bits, signed)
    requires x % Pow2(bits) == y % Pow2(bits)
    ensures x == y
  {
    var h := Pow2(bits - 1);
    var p := Pow2(bits);
    assert p == 2 * h by {
      Pow2Add(1, bits - 1);
    }
    var d := x - y;
    assert -p < d < p;
    DivModSplit2(x, y, p);
    var q := d / p;
    if q >= 1 {
      MulAtLeast(p, q);
      assert false;
    } else if q <= -1 {
      MulAtLeast(p, -q);
      assert false;
    }
  }

  /** Equal residues differ by a multiple of the modulus. */
  lemma DivModSplit2(x: int, y: int, p: int)
    requires p > 0
    requires x % p == y % p
    ensures x - y == p * ((x - y) / p)
  {
    var qx := x / p;
    var qy := y / p;
    assert x == p * qx + x % p;
    assert y == p * qy + y % p;
    assert x - y == p * (qx - qy);
    ModUnique(x - y, p, qx - qy, 0);
  }

  /** `n` zero bytes. */
  function Zeros(n: nat): (r: seq<byte>)
    ensures |r| == n
    ensures forall i :: 0 <= i < n ==> r[i] == 0
  {
    seq(n, _ => 0)
  }

  /** `buf` with `bytes` written at position `at`; a write that would not fit
      leaves `buf` unchanged. */
  function Splice(buf: seq<byte>, at: nat, bytes: seq<byte>): (r: seq<byte>)
    ensures |r| == |buf|
    ensures at + |bytes| <= |buf| ==> r[at .. at + |bytes|] == bytes
    ensures forall i :: 0 <= i < |buf| && !(at <= i < at + |bytes| && at + |bytes| <= |buf|) ==> r[i] == buf[i]
  {
    if at + |bytes| <= |buf| then buf[..at] + bytes + buf[at + |bytes|..] else buf
  }
}
