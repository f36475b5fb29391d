/** Hexadecimal text: the two loops of com_hex_caster.hpp over output buffers, and that each undoes
    the other. Text is modelled by its character codes, so that the bit tests of the decoder can be
    stated on numbers. */
module Hex {
  import opened Bits

  /** The alphabets of `bin_to_hex_define`: codes of '0'..'9' and 'A'..'F' or 'a'..'f'. */
  function Digit(upper: bool, n: nat): Byte
    requires n < 16
  {
    if n < 10 then 48 + n else if upper then 55 + n else 87 + n
  }

  /** What `bin_to_hex` writes, without the closing NUL: two digits a byte, high half first. */
  function Encode(upper: bool, data: seq<Byte>): (hex: seq<Byte>)
    ensures |hex| == 2 * |data|
  {
    if data == [] then []
    else [Digit(upper, data[0] / 16), Digit(upper, data[0] % 16)] + Encode(upper, data[1..])
  }

  predicate IsHexDigit(c: Byte)
  {
    48 <= c <= 57 || 65 <= c <= 70 || 97 <= c <= 102
  }

  /** The number a hexadecimal digit stands for. */
  function Value(c: Byte): (n: nat)
    requires IsHexDigit(c)
    ensures n < 16
  {
    if c <= 57 then c - 48 else if c <= 70 then c - 55 else c - 87
  }

  ghost predicate IsHex(hex: seq<Byte>)
  {
    (exists n: nat :: |hex| == 2 * n) && forall i :: 0 <= i < |hex| ==> IsHexDigit(hex[i])
  }

  function Decode(hex: seq<Byte>): (data: seq<Byte>)
    ensures 2 * |data| <= |hex| < 2 * |data| + 2
  {
    if |hex| < 2 then [] else [Join(hex[0], hex[1])] + Decode(hex[2..])
  }

  /** The macro UTILITY_COM_HEX_TRANS, on any character: the test of bit 6, and the low half. */
  function Trans(c: Byte): (n: nat)
    ensures IsHexDigit(c) ==> n == Value(c)
  {
    if c / 64 % 2 == 1 then 9 + c % 16 else c % 16
  }

  /** `Trans(a) << 4 | Trans(b)`, cut to a byte. */
  function Join(a: Byte, b: Byte): Byte
  {
    Or(16 * Trans(a), Trans(b)) % 256
  }

  lemma JoinOfDigits(a: Byte, b: Byte)
    requires IsHexDigit(a) && IsHexDigit(b)
    ensures Join(a, b) == 16 * Value(a) + Value(b)
  {
    hide And, Or;
    OrOfHalves(Trans(a), Trans(b));
  }

  lemma {:induction false} EncodeAppend(upper: bool, data: seq<Byte>, x: Byte)
    ensures Encode(upper, data + [x]) == Encode(upper, data) + [Digit(upper, x / 16), Digit(upper, x % 16)]
  {
    if data == [] {
      assert [x][1..] == [];
    } else {
      assert (data + [x])[1..] == data[1..] + [x];
      EncodeAppend(upper, data[1..], x);
    }
  }

  lemma {:induction false} DecodeAppend(hex: seq<Byte>, a: Byte, b: Byte, n: nat)
    requires |hex| == 2 * n
    ensures Decode(hex + [a, b]) == Decode(hex) + [Join(a, b)]
    decreases n
  {
    hide Join;
    if n == 0 {
      assert [a, b][2..] == [];
      assert hex + [a, b] == [a, b];
    } else {
      assert (hex + [a, b])[2..] == hex[2..] + [a, b];
      DecodeAppend(hex[2..], a, b, n - 1);
    }
  }

  /** `bin_to_hex`: the text and its closing NUL; what lies beyond is not written. */
  method BinToHex(upper: bool, out: array<Byte>, data: seq<Byte>)
    requires 2 * |data| < out.Length
    modifies out
    ensures out[..2 * |data| + 1] == Encode(upper, data) + [0]
    ensures out[2 * |data| + 1..] == old(out[2 * |data| + 1..])
  {
    if |data| == 0 {
      out[0] := 0;
      return;
    }
    var i, k := -1, 0;
    while k != |data|
      invariant 0 <= k <= |data| && i == 2 * k - 1
      invariant out[..i + 1] == Encode(upper, data[..k])
      invariant out[2 * |data| + 1..] == old(out[2 * |data| + 1..])
      decreases |data| - k
    {
      EncodeAppend(upper, data[..k], data[k]);
      assert data[..k + 1] == data[..k] + [data[k]];
      i := i + 1;
      out[i] := Digit(upper, data[k] / 16);
      i := i + 1;
      out[i] := Digit(upper, data[k] % 16);
      k := k + 1;
    }
    assert data[..k] == data;
    i := i + 1;
    out[i] := 0;
  }

  lemma DecodeEmpty()
    ensures Decode([]) == []
  {
  }

  /** `hex_to_bin`: two characters a byte, whatever the characters are. `hex` is what can be read; of
      an odd number `len` of characters the loop reads one more, such as the NUL of a C string. */
  method HexToBin(data: array<Byte>, hex: seq<Byte>, len: nat, ghost n: nat)
    requires len <= 2 * n < len + 2 && 2 * n <= |hex| && n <= data.Length
    modifies data
    ensures data[..n] == Decode(hex[..2 * n]) && data[n..] == old(data[n..])
  {
    hide Join, Decode;
    DecodeEmpty();
    var i, k := 0, 0;
    while i < len
      invariant i == 2 * k && k <= n && (k < n ==> i < len)
      invariant data[..k] == Decode(hex[..i]) && data[n..] == old(data[n..])
    {
      DecodeAppend(hex[..i], hex[i], hex[i + 1], k);
      assert hex[..i + 2] == hex[..i] + [hex[i], hex[i + 1]];
      data[k] := Join(hex[i], hex[i + 1]);
      i, k := i + 2, k + 1;
    }
  }

  /** Decoding undoes encoding, in both alphabets. */
  lemma {:induction false} DecodeUndoesEncode(upper: bool, data: seq<Byte>)
    ensures IsHex(Encode(upper, data)) && Decode(Encode(upper, data)) == data
  {
    hide Join;
    if data != [] {
      var a, b := Digit(upper, data[0] / 16), Digit(upper, data[0] % 16);
      JoinOfDigits(a, b);
      DecodeUndoesEncode(upper, data[1..]);
      var hex := Encode(upper, data);
      assert hex[2..] == Encode(upper, data[1..]);
      assert forall i :: 2 <= i < |hex| ==> hex[i] == hex[2..][i - 2];
    }
  }

  /** The same digits in one case. */
  function Normal(upper: bool, c: Byte): Byte
  {
    if upper && 97 <= c <= 102 then c - 32 else if !upper && 65 <= c <= 70 then c + 32 else c
  }

  function Normalised(upper: bool, hex: seq<Byte>): (r: seq<Byte>)
    ensures |r| == |hex| && forall i :: 0 <= i < |hex| ==> r[i] == Normal(upper, hex[i])
  {
    seq(|hex|, i requires 0 <= i < |hex| => Normal(upper, hex[i]))
  }

  lemma DigitOfValue(upper: bool, c: Byte)
    requires IsHexDigit(c)
    ensures Digit(upper, Value(c)) == Normal(upper, c)
  {
  }

  /** Encoding what was decoded gives the digits back, in the chosen case. */
  lemma {:induction false} EncodeUndoesDecode(upper: bool, hex: seq<Byte>, n: nat)
    requires |hex| == 2 * n && forall i :: 0 <= i < |hex| ==> IsHexDigit(hex[i])
    ensures Encode(upper, Decode(hex)) == Normalised(upper, hex)
    decreases n
  {
    hide Join, IsHexDigit, Value, Digit, Normal;
    if n != 0 {
      JoinOfDigits(hex[0], hex[1]);
      DigitOfValue(upper, hex[0]);
      DigitOfValue(upper, hex[1]);
      EncodeUndoesDecode(upper, hex[2..], n - 1);
      var data := Decode(hex);
      assert data[1..] == Decode(hex[2..]);
      assert Normalised(upper, hex) == Normalised(upper, hex)[..2] + Normalised(upper, hex[2..]);
    }
  }
}
