/**
 * The synchronous `NetEncode` implementations for primitive values: fixed
 * width integers in big-endian order, signed integers through the unsigned
 * type of the same width, `bool` as one byte, and strings as a VarInt byte
 * length followed by their UTF-8 bytes.  Every encoder appends to a writer
 * through `write_all`; the options argument never affects the output.
 */
module Codec {
  import Wrappers

  type byte = x: int | 0 <= x < 256

  /** A Rust `i32`. */
  type i32 = x: int | -0x8000_0000 <= x < 0x8000_0000

  function Pow256(n: nat): (p: nat)
    ensures p >= 1
  {
    if n == 0 then 1 else 256 * Pow256(n - 1)
  }

  /** The integer types of the `impl_for_primitives!` list, by width. */
  datatype Width = W8 | W16 | W32 | W64 | W128 {
    /** `size_of` the type: u8/i8, u16/i16, u32/i32, u64/i64, u128/i128. */
    function Bytes(): (n: nat)
      ensures 1 <= n <= 16
    {
      match this
      case W8 => 1
      case W16 => 2
      case W32 => 4
      case W64 => 8
      case W128 => 16
    }
  }

  // ---------------------------------------------------------------------
  // Big-endian bytes

  /** `to_be_bytes` of an unsigned value that fits in `n` bytes. */
  function ToBeBytes(x: nat, n: nat): (r: seq<byte>)
    requires x < Pow256(n)
    ensures |r| == n
  {
    if n == 0 then [] else ToBeBytes(x / 256, n - 1) + [x % 256]
  }

  /** `from_be_bytes`: the number the bytes denote, most significant first. */
  function FromBeBytes(s: seq<byte>): (x: nat)
    ensures x < Pow256(|s|)
  {
    if s == [] then 0 else FromBeBytes(s[..|s| - 1]) * 256 + s[|s| - 1]
  }

  /** Reading the written bytes back as a big-endian number gives the value. */
  lemma {:induction false} FromToBeBytes(x: nat, n: nat)
    requires x < Pow256(n)
    ensures FromBeBytes(ToBeBytes(x, n)) == x
  {
    if n > 0 {
      var s := ToBeBytes(x, n);
      assert s[..n - 1] == ToBeBytes(x / 256, n - 1);
      FromToBeBytes(x / 256, n - 1);
    }
  }

  /** Every `n` bytes are the encoding of exactly one value: no two values share one. */
  lemma {:induction false} ToFromBeBytes(s: seq<byte>)
    ensures ToBeBytes(FromBeBytes(s), |s|) == s
  {
    if s != [] {
      var init, last := s[..|s| - 1], s[|s| - 1];
      var x := FromBeBytes(s);
      assert x / 256 == FromBeBytes(init) && x % 256 == last;
      ToFromBeBytes(init);
      assert init + [last] == s;
    }
  }

  lemma MulMono(p: nat, a: int, b: int)
    ensures a <= b ==> p * a <= p * b
  {
    if a <= b {
      assert p * b - p * a == p * (b - a);
    }
  }

  lemma DivUnique(x: int, d: int, q: int, r: int)
    requires d > 0 && 0 <= r < d && x == d * q + r
    ensures x / d == q && x % d == r
  {
    var q0, r0 := x / d, x % d;
    assert d * (q0 - q) == r - r0;
    MulMono(d, 1, q0 - q);
    MulMono(d, 1, q - q0);
    assert d * (q - q0) == -(d * (q0 - q));
  }

  /** The leading base-`p` digit of a number below `256 * p`. */
  lemma LeadingDigit(u: nat, p: nat)
    requires p >= 1 && u < 256 * p
    ensures u / p < 256
    ensures u / p >= 128 <==> u >= 128 * p
  {
    var q, r := u / p, u % p;
    assert u == p * q + r;
    MulMono(p, 256, q);
    MulMono(p, 128, q);
    MulMono(p, q + 1, 128);
    assert p * (q + 1) == p * q + p;
  }

  lemma DivDiv256(x: nat, b: nat)
    requires b >= 1
    ensures (x / 256) / b == x / (256 * b)
  {
    var q, r := x / 256, x % 256;
    var q2, r2 := q / b, q % b;
    assert x == (256 * b) * q2 + (256 * r2 + r) by {
      assert x == 256 * q + r;
      assert q == b * q2 + r2;
    }
    DivUnique(x, 256 * b, q2, 256 * r2 + r);
  }

  /** Byte `i` of the encoding is digit `n - 1 - i` of `x` in base 256. */
  lemma {:induction false} ToBeBytesAt(x: nat, n: nat, i: nat)
    requires x < Pow256(n) && i < n
    ensures ToBeBytes(x, n)[i] == (x / Pow256(n - 1 - i)) % 256
  {
    if i < n - 1 {
      ToBeBytesAt(x / 256, n - 1, i);
      DivDiv256(x, Pow256(n - 2 - i));
    }
  }

  // ---------------------------------------------------------------------
  // Signed integers: `*self as $primitive_type`

  /** The smallest value of the signed type of `n` bytes. */
  function SignedMin(n: nat): int
    requires n >= 1
  {
    -128 * Pow256(n - 1)
  }

  /** The largest value of the signed type of `n` bytes. */
  function SignedMax(n: nat): int
    requires n >= 1
  {
    128 * Pow256(n - 1) - 1
  }

  /** `x as uN` for `x` of type `iN`: the two's complement bit pattern. */
  function TwosComplement(x: int, n: nat): (u: nat)
    requires n >= 1 && SignedMin(n) <= x <= SignedMax(n)
    ensures u < Pow256(n)
    ensures x >= 0 ==> u == x
    ensures x < 0 ==> u == x + Pow256(n)
  {
    if x < 0 then DivUnique(x, Pow256(n), -1, x + Pow256(n)); x % Pow256(n)
    else DivUnique(x, Pow256(n), 0, x); x % Pow256(n)
  }

  /** `u as iN` for `u` of type `uN`. */
  function FromTwosComplement(u: nat, n: nat): (x: int)
    requires n >= 1 && u < Pow256(n)
    ensures SignedMin(n) <= x <= SignedMax(n)
    ensures x >= 0 <==> u <= SignedMax(n)
  {
    if u <= SignedMax(n) then u else u - Pow256(n)
  }

  /** Reinterpreting a signed value as unsigned loses nothing. */
  lemma SignedRoundTrip(x: int, n: nat)
    requires n >= 1 && SignedMin(n) <= x <= SignedMax(n)
    ensures FromTwosComplement(TwosComplement(x, n), n) == x
  {
  }

  /** Decoding the bytes of a signed integer (big-endian, then `as iN`) gives it back. */
  lemma SignedBytesRoundTrip(x: int, n: nat)
    requires n >= 1 && SignedMin(n) <= x <= SignedMax(n)
    ensures FromTwosComplement(FromBeBytes(ToBeBytes(TwosComplement(x, n), n)), n) == x
  {
    FromToBeBytes(TwosComplement(x, n), n);
  }

  /** The leading digit, in base `p`, of a two's complement pattern of `256 * p` values. */
  lemma LeadingDigitSign(x: int, p: nat, u: nat)
    requires p >= 1 && -128 * p <= x < 128 * p
    requires u == if x < 0 then x + 256 * p else x
    ensures u / p < 256 && (u / p >= 128 <==> x < 0)
  {
    LeadingDigit(u, p);
  }

  /** The first of `n` bytes is the value's leading base-256 digit. */
  lemma FirstByte(u: nat, n: nat)
    requires n >= 1 && u < Pow256(n)
    ensures ToBeBytes(u, n)[0] == u / Pow256(n - 1)
  {
    var p := Pow256(n - 1);
    assert Pow256(n) == 256 * p;
    ToBeBytesAt(u, n, 0);
    LeadingByte(u, p, ToBeBytes(u, n)[0]);
  }

  /** The leading base-`p` digit of a number below `256 * p` is its own last base-256 digit. */
  lemma LeadingByte(u: nat, p: nat, b: int)
    requires p >= 1 && u < 256 * p && b == (u / p) % 256
    ensures b == u / p
  {
    LeadingDigit(u, p);
  }

  /** The first byte of a signed integer has its top bit set exactly when it is negative. */
  lemma SignBit(x: int, n: nat)
    requires n >= 1 && SignedMin(n) <= x <= SignedMax(n)
    ensures ToBeBytes(TwosComplement(x, n), n)[0] >= 128 <==> x < 0
  {
    var u := TwosComplement(x, n);
    var p := Pow256(n - 1);
    assert Pow256(n) == 256 * p;
    FirstByte(u, n);
    LeadingDigitSign(x, p, u);
  }

  // ---------------------------------------------------------------------
  // Strings

  /** The UTF-8 bytes of one character (`char::encode_utf8`). */
  function Utf8Char(c: char): (r: seq<byte>)
    ensures 1 <= |r| <= 4
    ensures |r| == 1 <==> c as int < 0x80
  {
    var v := c as int;
    if v < 0x80 then [v]
    else if v < 0x800 then [0xC0 + v / 0x40, 0x80 + v % 0x40]
    else if v < 0x1_0000 then [0xE0 + v / 0x1000, 0x80 + (v / 0x40) % 0x40, 0x80 + v % 0x40]
    else [0xF0 + v / 0x4_0000, 0x80 + (v / 0x1000) % 0x40, 0x80 + (v / 0x40) % 0x40, 0x80 + v % 0x40]
  }

  /** `str::as_bytes`: a Rust string is stored as its UTF-8 encoding. */
  function Utf8(s: string): (r: seq<byte>)
    ensures |s| <= |r| <= 4 * |s|
  {
    if s == [] then [] else Utf8Char(s[0]) + Utf8(s[1..])
  }

  /**
   * `str::len` counts bytes: never fewer than the characters, and as many
   * only when every character is ASCII.
   */
  lemma {:induction false} Utf8Length(s: string)
    ensures |Utf8(s)| >= |s|
    ensures |Utf8(s)| == |s| <==> forall i :: 0 <= i < |s| ==> s[i] as int < 0x80
  {
    if s != [] {
      Utf8Length(s[1..]);
      assert forall i :: 1 <= i < |s| ==> s[i] == s[1..][i - 1];
    }
  }

  /** `len as i32`: the low 32 bits of the length, read as a signed number. */
  function LenAsI32(len: nat): (r: i32)
    ensures len <= SignedMax(4) ==> r == len
    ensures (len - r) % 0x1_0000_0000 == 0
  {
    DivUnique(len % Pow256(4), Pow256(4), 0, len % Pow256(4));
    FromTwosComplement(len % Pow256(4), 4)
  }

  // ---------------------------------------------------------------------
  // The writer and the encoders

  /** `NetEncodeOpts`; `NoOpts` is `NetEncodeOpts::None`. */
  datatype NetEncodeOpts = NoOpts | WithLength

  datatype NetError = Io

  /** `NetEncodeResult<()>`. */
  datatype NetEncodeResult = Ok | Err(error: NetError)

  /** The first `k` bytes of `bs`, or all of them. */
  function Accepted(bs: seq<byte>, k: nat): (r: seq<byte>)
    ensures r <= bs && |r| == Wrappers.Min(k, |bs|)
  {
    bs[..Wrappers.Min(k, |bs|)]
  }

  /**
   * A `std::io::Write` sink.  What the environment does is given up front:
   * `faults` maps the index of a `write_all` call to the number of bytes the
   * sink accepts before that call fails; every other call succeeds.
   */
  class Writer {
    var data: seq<byte>
    var calls: nat
    const faults: map<nat, nat>

    constructor (faults: map<nat, nat>)
      ensures data == [] && calls == 0 && this.faults == faults
    {
      data := [];
      calls := 0;
      this.faults := faults;
    }

    /** One `write_all(bs)` took place and returned `r`. */
    twostate predicate WroteAll(bs: seq<byte>, r: NetEncodeResult)
      reads this
    {
      && calls == old(calls) + 1
      && if old(calls) in faults then
           r.Err? && data == old(data) + Accepted(bs, faults[old(calls)])
         else
           r == Ok && data == old(data) + bs
    }

    /**
     * Two writes with `?` between them: if the first fails the second is
     * not attempted and the first's error is returned.
     */
    twostate predicate WroteBoth(first: seq<byte>, second: seq<byte>, r: NetEncodeResult)
      reads this
    {
      if old(calls) in faults then
        && calls == old(calls) + 1
        && r.Err?
        && data == old(data) + Accepted(first, faults[old(calls)])
      else
        && calls == old(calls) + 2
        && if old(calls) + 1 in faults then
             r.Err? && data == old(data) + first + Accepted(second, faults[old(calls) + 1])
           else
             r == Ok && data == old(data) + first + second
    }

    method WriteAll(bs: seq<byte>) returns (r: NetEncodeResult)
      modifies this
      ensures WroteAll(bs, r)
    {
      if calls in faults {
        data := data + Accepted(bs, faults[calls]);
        r := Err(Io);
      } else {
        data := data + bs;
        r := Ok;
      }
      calls := calls + 1;
    }
  }

  /** `encode` for u8, u16, u32, u64 and u128: `write_all(&self.to_be_bytes())`. */
  method EncodeUnsigned(width: Width, x: nat, writer: Writer, opts: NetEncodeOpts) returns (r: NetEncodeResult)
    requires x < Pow256(width.Bytes())
    modifies writer
    ensures writer.WroteAll(ToBeBytes(x, width.Bytes()), r)
  {
    r := writer.WriteAll(ToBeBytes(x, width.Bytes()));
  }

  /** `encode` for i8, i16, i32, i64 and i128: encode `*self as uN`. */
  method EncodeSigned(width: Width, x: int, writer: Writer, opts: NetEncodeOpts) returns (r: NetEncodeResult)
    requires SignedMin(width.Bytes()) <= x <= SignedMax(width.Bytes())
    modifies writer
    ensures writer.WroteAll(ToBeBytes(TwosComplement(x, width.Bytes()), width.Bytes()), r)
  {
    r := EncodeUnsigned(width, TwosComplement(x, width.Bytes()), writer, opts);
  }

  /** `encode` for bool: `*self as u8`, so `true` is the byte 1 and `false` the byte 0. */
  method EncodeBool(b: bool, writer: Writer, opts: NetEncodeOpts) returns (r: NetEncodeResult)
    modifies writer
    ensures writer.WroteAll(if b then [1] else [0], r)
  {
    r := EncodeUnsigned(W8, if b then 1 else 0, writer, NoOpts);
  }

  /**
   * `VarInt::encode` for the length prefix.  The VarInt byte format is not
   * part of this model: `varInt` gives the bytes of a value, written with
   * one `write_all`.
   */
  method EncodeVarInt(v: i32, varInt: i32 -> seq<byte>, writer: Writer, opts: NetEncodeOpts) returns (r: NetEncodeResult)
    modifies writer
    ensures writer.WroteAll(varInt(v), r)
  {
    r := writer.WriteAll(varInt(v));
  }

  /**
   * `encode` for `&str`: the byte length as an i32 VarInt, then the bytes
   * themselves; a failed prefix is returned before any string byte is
   * written.
   */
  method EncodeStr(s: string, varInt: i32 -> seq<byte>, writer: Writer, opts: NetEncodeOpts) returns (r: NetEncodeResult)
    modifies writer
    ensures writer.WroteBoth(varInt(LenAsI32(|Utf8(s)|)), Utf8(s), r)
  {
    var len := LenAsI32(|Utf8(s)|);
    r := EncodeVarInt(len, varInt, writer, NoOpts);
    if r.Err? {
      return;
    }
    r := writer.WriteAll(Utf8(s));
  }

  /** `encode` for `String`: exactly the encoding of its `&str` view. */
  method EncodeString(s: string, varInt: i32 -> seq<byte>, writer: Writer, opts: NetEncodeOpts) returns (r: NetEncodeResult)
    modifies writer
    ensures writer.WroteBoth(varInt(LenAsI32(|Utf8(s)|)), Utf8(s), r)
  {
    r := EncodeStr(s, varInt, writer, NoOpts);
  }
}
