/** Lower-case hexadecimal rendering as done by Go's `encoding/hex` and the
    `%0Nx` verb of `fmt`, over bytes modelled as integers below 256. */
module Hex {

  newtype Byte = x: int | 0 <= x < 256

  function HexDigit(d: int): (c: char)
    requires 0 <= d < 16
    ensures IsHexDigit(c)
  {
    if d < 10 then ('0' as int + d) as char else ('a' as int + d - 10) as char
  }

  predicate IsHexDigit(c: char) {
    '0' <= c <= '9' || 'a' <= c <= 'f'
  }

  predicate AllHex(s: string) {
    forall i :: 0 <= i < |s| ==> IsHexDigit(s[i])
  }

  /** `fmt.Sprintf("%0*x", w, n)` for a value that fits in `w` digits: the
      `w` least significant hexadecimal digits of `n`, most significant first. */
  function HexPad(n: nat, w: nat): (r: string)
    ensures |r| == w
    ensures AllHex(r)
  {
    if w == 0 then "" else HexPad(n / 16, w - 1) + [HexDigit(n % 16)]
  }

  /** Two digits of one byte, as `hex.Encode` writes them. */
  function HexByte(b: Byte): (r: string)
    ensures |r| == 2 && AllHex(r)
  {
    [HexDigit(b as int / 16), HexDigit(b as int % 16)]
  }

  /** `hex.Encode`: two digits per byte, in order. */
  function HexEncode(bs: seq<Byte>): (r: string)
    ensures |r| == 2 * |bs|
    ensures AllHex(r)
  {
    if bs == [] then "" else HexEncode(bs[..|bs| - 1]) + HexByte(bs[|bs| - 1])
  }

  /** Byte `i` is encoded by digits `2i` and `2i + 1`. */
  lemma {:induction false} HexEncodeAt(bs: seq<Byte>, i: nat)
    requires i < |bs|
    ensures HexEncode(bs)[2 * i..2 * i + 2] == HexByte(bs[i])
    decreases |bs|
  {
    var init := bs[..|bs| - 1];
    var h := HexEncode(bs);
    assert h == HexEncode(init) + HexByte(bs[|bs| - 1]);
    if i < |bs| - 1 {
      HexEncodeAt(init, i);
      assert h[2 * i..2 * i + 2] == HexEncode(init)[2 * i..2 * i + 2];
    } else {
      assert h[2 * i..2 * i + 2] == HexByte(bs[|bs| - 1]);
    }
  }

  /** The big-endian value of a byte string, which is what the source's
      shift-and-or expressions compute (the bytes occupy disjoint bit ranges). */
  function BigEndian(bs: seq<Byte>): nat
  {
    if bs == [] then 0 else BigEndian(bs[..|bs| - 1]) * 256 + bs[|bs| - 1] as int
  }

  lemma DivModByte(v: nat, b: nat)
    requires b < 256
    ensures (v * 256 + b) / 16 == v * 16 + b / 16
    ensures (v * 256 + b) % 16 == b % 16
    ensures (v * 16 + b / 16) / 16 == v
    ensures (v * 16 + b / 16) % 16 == b / 16
  {
    assert v * 256 + b == (v * 16 + b / 16) * 16 + b % 16;
  }

  /** Zero-padded hexadecimal of a big-endian value is the byte-wise hex encoding. */
  lemma {:induction false} HexPadOfBigEndian(bs: seq<Byte>)
    ensures HexPad(BigEndian(bs), 2 * |bs|) == HexEncode(bs)
  {
    if bs != [] {
      var init := bs[..|bs| - 1];
      var last := bs[|bs| - 1];
      HexPadOfBigEndian(init);
      HexPadByte(BigEndian(init), last as int, 2 * |init|);
      assert HexByte(last) == [HexDigit(last as int / 16), HexDigit(last as int % 16)];
    }
  }

  /** Appending a byte to a value appends its two digits. */
  lemma HexPadByte(v: nat, b: nat, w: nat)
    requires b < 256
    ensures HexPad(v * 256 + b, w + 2) == HexPad(v, w) + [HexDigit(b / 16), HexDigit(b % 16)]
  {
    var n := v * 256 + b;
    var m := v * 16 + b / 16;
    DivModByte(v, b);
    assert HexPad(n, w + 2) == HexPad(m, w + 1) + [HexDigit(b % 16)];
    assert HexPad(m, w + 1) == HexPad(v, w) + [HexDigit(b / 16)];
  }
}
