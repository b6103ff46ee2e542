/** The hexadecimal codec: a lower-case form of Base 16 (section 8 of RFC 4648). */
module Hex {
  import opened CStrings

  type Byte = x: int | 0 <= x < 256

  type Nibble = x: int | 0 <= x < 16

  /** `hex_to_i`: everything that is no hexadecimal digit counts as 0. */
  function HexToI(c: char): Nibble {
    if '0' <= c <= '9' then c as int - '0' as int
    else if 'a' <= c <= 'f' then c as int - 'a' as int + 10
    else if 'A' <= c <= 'F' then c as int - 'A' as int + 10
    else 0
  }

  /** `c_hex_conv`. */
  function CHexConv(i: Nibble): char {
    if i < 10 then ('0' as int + i) as char else ('a' as int + (i - 10)) as char
  }

  /** What a character counts for: a digit in lower case; `0` if it is none. */
  function Normal(c: char): char {
    if '0' <= c <= '9' || 'a' <= c <= 'f' then c
    else if 'A' <= c <= 'F' then (c as int + 32) as char
    else '0'
  }

  const DIGITS := "0123456789abcdef"
  const CAPITALS := "0123456789ABCDEF"

  lemma DigitOf(i: Nibble)
    ensures CHexConv(i) == DIGITS[i]
  {}

  /** A character counts for `v` if it is its digit, and for 0 if it is no digit. */
  lemma ValueOfDigit(c: char, v: Nibble)
    ensures HexToI(c) == v <==> c == DIGITS[v] || c == CAPITALS[v] || (v == 0 && c !in DIGITS && c !in CAPITALS)
  {
    if c in DIGITS {
      var i :| 0 <= i < |DIGITS| && DIGITS[i] == c;
    }
    if c in CAPITALS {
      var i :| 0 <= i < |CAPITALS| && CAPITALS[i] == c;
    }
    if '0' <= c <= '9' { assert DIGITS[c as int - '0' as int] == c; }
    if 'a' <= c <= 'f' { assert DIGITS[c as int - 'a' as int + 10] == c; }
    if 'A' <= c <= 'F' { assert CAPITALS[c as int - 'A' as int + 10] == c; }
  }

  /** Two digits for each byte, the high half first. */
  lemma {:induction false} EncodedAt(bs: seq<Byte>, i: nat)
    requires i < |bs|
    ensures |Encode(bs)| == 2 * |bs|
    ensures Encode(bs)[2 * i] == DIGITS[bs[i] / 16] && Encode(bs)[2 * i + 1] == DIGITS[bs[i] % 16]
  {
    EncodeShape(bs);
    EncodeShape(bs[1..]);
    if i == 0 {
      DigitOf(bs[0] / 16);
      DigitOf(bs[0] % 16);
    } else {
      EncodedAt(bs[1..], i - 1);
      assert Encode(bs)[2..] == Encode(bs[1..]);
    }
  }

  /** A byte for each pair of characters, the first for its high half. */
  lemma {:induction false} DecodedAt(s: string, i: nat)
    requires i < |s| / 2
    ensures |Decode(s)| == |s| / 2 && Decode(s)[i] == HexToI(s[2 * i]) * 16 + HexToI(s[2 * i + 1])
    decreases |s|
  {
    DecodeShape(s);
    if i > 0 {
      DecodedAt(s[2..], i - 1);
      assert Decode(s)[1..] == Decode(s[2..]);
    }
  }

  lemma {:induction false} DecodeShape(s: string)
    ensures |Decode(s)| == |s| / 2
    decreases |s|
  {
    if |s| >= 2 { DecodeShape(s[2..]); }
  }

  function Encode(bs: seq<Byte>): string {
    if bs == [] then "" else [CHexConv(bs[0] / 16), CHexConv(bs[0] % 16)] + Encode(bs[1..])
  }

  /** An odd last character is not read. */
  function Decode(s: string): seq<Byte> {
    if |s| < 2 then [] else [HexToI(s[0]) * 16 + HexToI(s[1])] + Decode(s[2..])
  }

  // ----- the algorithms -----

  lemma EncodeCons(b: Byte, bs: seq<Byte>)
    ensures Encode([b] + bs) == [CHexConv(b / 16), CHexConv(b % 16)] + Encode(bs)
  {
    assert ([b] + bs)[1..] == bs;
  }

  lemma {:induction false} EncodeSnoc(bs: seq<Byte>, b: Byte)
    ensures Encode(bs + [b]) == Encode(bs) + [CHexConv(b / 16), CHexConv(b % 16)]
  {
    if bs == [] {
      assert bs + [b] == [b];
      assert Encode([b]) == [CHexConv(b / 16), CHexConv(b % 16)] + Encode([]);
    } else {
      assert (bs + [b])[1..] == bs[1..] + [b];
      EncodeSnoc(bs[1..], b);
    }
  }

  lemma {:induction false} DecodeSnoc(s: string, pairs: nat, x: char, y: char)
    requires |s| == 2 * pairs
    ensures Decode(s + [x, y]) == Decode(s) + [HexToI(x) * 16 + HexToI(y)]
    decreases |s|
  {
    if s == "" {
      assert s + [x, y] == [x, y];
      assert Decode([x, y]) == [HexToI(x) * 16 + HexToI(y)] + Decode([]);
    } else {
      assert (s + [x, y])[2..] == s[2..] + [x, y];
      DecodeSnoc(s[2..], pairs - 1, x, y);
    }
  }

  lemma {:induction false} EncodeShape(bs: seq<Byte>)
    ensures |Encode(bs)| == 2 * |bs| && IsText(Encode(bs))
  {
    if bs != [] { EncodeShape(bs[1..]); }
  }

  /** `c_to_hex`: two lower-case digits that stand for the byte, the high half first. */
  method CToHex(c: Byte, dst: array<char>, p: nat)
    requires p + 1 < dst.Length
    modifies dst
    ensures HexToI(dst[p]) * 16 + HexToI(dst[p + 1]) == c
    ensures Normal(dst[p]) == dst[p] && Normal(dst[p + 1]) == dst[p + 1]
    ensures dst[p] == CHexConv(c / 16) && dst[p + 1] == CHexConv(c % 16)
    ensures forall i | 0 <= i < dst.Length && i != p && i != p + 1 :: dst[i] == old(dst[i])
  {
    DigitReadsBack(c / 16);
    DigitReadsBack(c % 16);
    dst[p], dst[p + 1] := CHexConv(c / 16), CHexConv(c % 16);
  }

  lemma CodeIsHeld(buffer: seq<char>, code: string)
    requires |code| < |buffer| && buffer[..|code|] == code && buffer[|code|] == NUL && IsText(code)
    ensures Holds(buffer, 0, code)
  {
    forall i | 0 <= i < |code| ensures code[i] != NUL && buffer[0 + i] == code[i] {
      assert buffer[..|code|][i] == code[i] && code[i] in code;
    }
    HoldsIntro(buffer, 0, code);
  }

  /** `hex_representation`. */
  method HexRepresentation(p: array<Byte>, len: nat) returns (hexStr: string)
    requires len <= p.Length
    ensures hexStr == Encode(p[..len])
  {
    var buffer := new char[2 * len + 1](_ => NUL);
    var up, tmp := 0, 0;
    EncodeShape(p[..0]);
    while up < len
      invariant up <= len && tmp == 2 * up && buffer[..tmp] == Encode(p[..up]) && buffer[2 * len] == NUL
    {
      ghost var before := buffer[..tmp];
      CToHex(p[up], buffer, tmp);
      EncodeSnoc(p[..up], p[up]);
      assert p[..up + 1] == p[..up] + [p[up]];
      assert buffer[..tmp] == before;
      assert buffer[..tmp + 2] == before + [buffer[tmp], buffer[tmp + 1]];
      up, tmp := up + 1, tmp + 2;
    }
    EncodeShape(p[..len]);
    ghost var code := Encode(p[..len]);
    CodeIsHeld(buffer[..], code);
    hexStr := FromBuffer(buffer, 0, code);
  }

  /** Shifting the high half into place and adding the low half. */
  method PutTogether(high: Nibble, low: Nibble) returns (i: Byte)
    ensures i == high * 16 + low
  {
    i := high * 16 % 256 + low;
  }

  /** `from_hex_representation`: the bytes and one zero byte behind them. */
  method FromHexRepresentation(str: array<char>, slen: nat) returns (bytes: array<Byte>)
    requires slen <= str.Length
    ensures fresh(bytes) && bytes.Length == slen / 2 + 1
    ensures bytes[..slen / 2] == Decode(str[..slen / 2 * 2]) && bytes[slen / 2] == 0
  {
    var len := slen / 2;
    bytes := new Byte[len + 1](_ => 0);
    var tmp, p := 0, 0;
    while tmp < len
      invariant tmp <= len && p == 2 * tmp && bytes[..tmp] == Decode(str[..p]) && bytes[len] == 0
    {
      ghost var before := bytes[..tmp];
      var i := PutTogether(HexToI(str[p]), HexToI(str[p + 1]));
      DecodeSnoc(str[..p], tmp, str[p], str[p + 1]);
      assert str[..p + 2] == str[..p] + [str[p], str[p + 1]];
      bytes[tmp] := i;
      assert bytes[..tmp + 1] == before + [i];
      tmp, p := tmp + 1, p + 2;
    }
  }

  // ----- round trips -----

  lemma DigitReadsBack(i: Nibble)
    ensures HexToI(CHexConv(i)) == i && Normal(CHexConv(i)) == CHexConv(i)
  {}

  lemma Halves(h: Nibble, l: Nibble)
    ensures (h * 16 + l) / 16 == h && (h * 16 + l) % 16 == l
  {}

  lemma NormalIsDigit(c: char)
    ensures CHexConv(HexToI(c)) == Normal(c)
  {}

  /** Decoding an encoding gives back the bytes. */
  lemma {:induction false} DecodeEncode(bs: seq<Byte>)
    ensures Decode(Encode(bs)) == bs
  {
    if bs != [] {
      var s := Encode(bs);
      DigitReadsBack(bs[0] / 16);
      DigitReadsBack(bs[0] % 16);
      assert s[2..] == Encode(bs[1..]);
      DecodeEncode(bs[1..]);
    }
  }

  function Normalised(s: string): string {
    if |s| < 2 then "" else [Normal(s[0]), Normal(s[1])] + Normalised(s[2..])
  }

  /** Each character is normalised on its own, and an odd last one is dropped. */
  lemma {:induction false} NormalisedAt(s: string)
    ensures |Normalised(s)| == |s| / 2 * 2
    ensures forall i | 0 <= i < |Normalised(s)| :: Normalised(s)[i] == Normal(s[i])
    decreases |s|
  {
    if |s| >= 2 {
      NormalisedAt(s[2..]);
      forall i | 0 <= i < |Normalised(s)| ensures Normalised(s)[i] == Normal(s[i]) {
        if i >= 2 { assert Normalised(s)[i] == Normalised(s[2..])[i - 2] && s[i] == s[2..][i - 2]; }
      }
    }
  }

  /** Encoding a decoding gives the normalised text. */
  lemma {:induction false} EncodeDecode(s: string)
    ensures Encode(Decode(s)) == Normalised(s)
    decreases |s|
  {
    if |s| >= 2 {
      var rest := s[2..];
      var h: Nibble, l: Nibble := HexToI(s[0]), HexToI(s[1]);
      EncodeDecode(rest);
      NormalIsDigit(s[0]);
      NormalIsDigit(s[1]);
      Halves(h, l);
      EncodeCons(h * 16 + l, Decode(rest));
    }
  }

  // ----- order -----

  /** Lexicographic order of byte strings, the bytes unsigned. */
  predicate BytesLess(a: seq<Byte>, b: seq<Byte>) {
    b != [] && (a == [] || a[0] < b[0] || (a[0] == b[0] && BytesLess(a[1..], b[1..])))
  }

  predicate TextLess(a: string, b: string) {
    b != "" && (a == "" || a[0] < b[0] || (a[0] == b[0] && TextLess(a[1..], b[1..])))
  }

  lemma DigitOrder(i: Nibble, j: Nibble)
    ensures CHexConv(i) < CHexConv(j) <==> i < j
    ensures CHexConv(i) == CHexConv(j) <==> i == j
  {}

  /** Encoding preserves and reflects the order. */
  lemma {:induction false} EncodingKeepsOrder(a: seq<Byte>, b: seq<Byte>)
    ensures TextLess(Encode(a), Encode(b)) <==> BytesLess(a, b)
  {
    if a != [] && b != [] {
      var s, t := Encode(a), Encode(b);
      DigitOrder(a[0] / 16, b[0] / 16);
      DigitOrder(a[0] % 16, b[0] % 16);
      assert s[1..][1..] == Encode(a[1..]) && t[1..][1..] == Encode(b[1..]);
      assert s[1..][0] == s[1] && t[1..][0] == t[1];
      EncodingKeepsOrder(a[1..], b[1..]);
    }
  }
}
