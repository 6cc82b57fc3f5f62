/**
 * Base64 with the standard alphabet and `=` padding (section 4 of RFC 4648),
 * as Go's `base64.StdEncoding` encodes and decodes it. Decoding ignores `\r`
 * and `\n` anywhere in the input and, as Go does outside its strict mode,
 * accepts padding bits that are not zero.
 */
module Base64Codec {
  import opened Wrappers
  import opened Bytes

  /** The value of one base64 character. */
  type Sextet = x: int | 0 <= x < 64

  /** Go's `base64.CorruptInputError`; the byte offset it carries is not modelled. */
  datatype CorruptInput = CorruptInput

  const Pad: char := '='

  predicate IsAlphabetChar(c: char)
  {
    'A' <= c <= 'Z' || 'a' <= c <= 'z' || '0' <= c <= '9' || c == '+' || c == '/'
  }

  function CharValue(c: char): Sextet
    requires IsAlphabetChar(c)
  {
    if 'A' <= c <= 'Z' then c as int - 'A' as int
    else if 'a' <= c <= 'z' then c as int - 'a' as int + 26
    else if '0' <= c <= '9' then c as int - '0' as int + 52
    else if c == '+' then 62
    else 63
  }

  /** The alphabet character for a value: A-Z, a-z, 0-9, `+`, `/`. */
  function Digit(v: Sextet): (c: char)
    ensures IsAlphabetChar(c) && CharValue(c) == v
  {
    if v < 26 then ('A' as int + v) as char
    else if v < 52 then ('a' as int + v - 26) as char
    else if v < 62 then ('0' as int + v - 52) as char
    else if v == 62 then '+'
    else '/'
  }

  /** Three bytes as four characters. */
  function EncodeBlock(b0: byte, b1: byte, b2: byte): string
  {
    [Digit(b0 / 4), Digit(b0 % 4 * 16 + b1 / 16), Digit(b1 % 16 * 4 + b2 / 64), Digit(b2 % 64)]
  }

  /** `base64.StdEncoding.EncodeToString`. */
  function Encode(data: seq<byte>): (r: string)
    ensures |r| == 4 * ((|data| + 2) / 3)
    ensures forall i :: 0 <= i < |r| ==> IsAlphabetChar(r[i]) || r[i] == Pad
    decreases |data|
  {
    if |data| == 0 then []
    else if |data| == 1 then [Digit(data[0] / 4), Digit(data[0] % 4 * 16), Pad, Pad]
    else if |data| == 2 then
      [Digit(data[0] / 4), Digit(data[0] % 4 * 16 + data[1] / 16), Digit(data[1] % 16 * 4), Pad]
    else EncodeBlock(data[0], data[1], data[2]) + Encode(data[3..])
  }

  /**
   * The bits of the last character before the padding that no input bit
   * fills are zero, as section 3.5 of RFC 4648 requires: the low four bits
   * after one trailing byte, the low two bits after two.
   */
  predicate PaddingBitsZero(r: string, n: nat)
  {
    (n % 3 == 1 ==> |r| >= 3 && IsAlphabetChar(r[|r| - 3]) && CharValue(r[|r| - 3]) % 16 == 0) &&
    (n % 3 == 2 ==> |r| >= 2 && IsAlphabetChar(r[|r| - 2]) && CharValue(r[|r| - 2]) % 4 == 0)
  }

  /** The encoder always sets the padding bits of its final group to zero. */
  lemma {:induction false} EncodePaddingBitsZero(data: seq<byte>)
    ensures PaddingBitsZero(Encode(data), |data|)
    decreases |data|
  {
    if |data| == 1 {
      assert Encode(data)[1] == Digit(data[0] % 4 * 16);
    } else if |data| == 2 {
      assert Encode(data)[2] == Digit(data[1] % 16 * 4);
    } else if |data| > 2 {
      EncodePaddingBitsZero(data[3..]);
      PaddingBitsZeroPrepend(data);
    }
  }

  /** A full group in front keeps the last group, and with it its padding bits. */
  lemma PaddingBitsZeroPrepend(data: seq<byte>)
    requires |data| > 2 && PaddingBitsZero(Encode(data[3..]), |data| - 3)
    ensures PaddingBitsZero(Encode(data), |data|)
  {
    var r, tail := Encode(data), Encode(data[3..]);
    assert r == EncodeBlock(data[0], data[1], data[2]) + tail;
    ModThree(|data| - 3);
    if |data| % 3 != 0 {
      assert r[|r| - 3] == tail[|tail| - 3];
      assert r[|r| - 2] == tail[|tail| - 2];
    }
  }

  /** Three more bytes leave the remainder modulo 3 unchanged. */
  lemma ModThree(n: nat)
    ensures (n + 3) % 3 == n % 3
  {
  }

  predicate IsNewline(c: char)
  {
    c == '\r' || c == '\n'
  }

  /** The input with every `\r` and `\n` removed, the rest in order. */
  function StripNewlines(s: string): (r: string)
    ensures |r| <= |s|
    ensures forall i :: 0 <= i < |r| ==> !IsNewline(r[i])
    decreases |s|
  {
    if s == [] then []
    else if IsNewline(s[0]) then StripNewlines(s[1..])
    else [s[0]] + StripNewlines(s[1..])
  }

  /**
   * One group of four characters: four alphabet characters give three bytes;
   * in the last group, three characters and `=` give two bytes and two
   * characters and `==` give one.
   */
  function DecodeQuantum(q: string, last: bool): (r: Option<seq<byte>>)
    requires |q| == 4
  {
    if !IsAlphabetChar(q[0]) || !IsAlphabetChar(q[1]) then None
    else
      var v0, v1 := CharValue(q[0]), CharValue(q[1]);
      var first: byte := v0 * 4 + v1 / 16;
      if IsAlphabetChar(q[2]) && IsAlphabetChar(q[3]) then
        var v2, v3 := CharValue(q[2]), CharValue(q[3]);
        Some([first, v1 % 16 * 16 + v2 / 4, v2 % 4 * 64 + v3])
      else if last && IsAlphabetChar(q[2]) && q[3] == Pad then
        var v2 := CharValue(q[2]);
        Some([first, v1 % 16 * 16 + v2 / 4])
      else if last && q[2] == Pad && q[3] == Pad then
        Some([first])
      else None
  }

  /** Decoding of text that has no newlines, four characters at a time. */
  function DecodeQuanta(s: string): (r: Result<seq<byte>, CorruptInput>)
    ensures r.Success? ==> |s| % 4 == 0
    ensures r.Success? ==> forall i :: 0 <= i < |s| ==> IsAlphabetChar(s[i]) || s[i] == Pad
    ensures r.Success? ==> forall i :: 0 <= i < |s| - 2 ==> s[i] != Pad
    ensures r.Success? && |s| >= 2 && s[|s| - 2] == Pad ==> s[|s| - 1] == Pad
    ensures r.Success? ==> |r.value| <= 3 * (|s| / 4)
    ensures r.Success? && |s| > 0 ==> 3 * (|s| / 4) - 2 <= |r.value|
    decreases |s|
  {
    if |s| == 0 then Success([])
    else if |s| < 4 then Failure(CorruptInput)
    else
      match DecodeQuantum(s[..4], |s| == 4)
      case None => Failure(CorruptInput)
      case Some(bytes) =>
        match DecodeQuanta(s[4..])
        case Failure(e) => Failure(e)
        case Success(rest) =>
          assert forall i :: 4 <= i < |s| ==> s[i] == s[4..][i - 4];
          Success(bytes + rest)
  }

  /**
   * `base64.StdEncoding.DecodeString`: newlines are skipped, what remains
   * comes in groups of four, and every group gives at most three bytes.
   */
  function Decode(s: string): (r: Result<seq<byte>, CorruptInput>)
    ensures r.Success? ==> |StripNewlines(s)| % 4 == 0
    ensures r.Success? ==> |r.value| <= 3 * (|s| / 4)
  {
    DecodeQuanta(StripNewlines(s))
  }

  /** `StripNewlines` works character by character: it distributes over concatenation. */
  lemma {:induction false} StripNewlinesAppend(a: string, b: string)
    ensures StripNewlines(a + b) == StripNewlines(a) + StripNewlines(b)
    decreases |a|
  {
    if a == [] {
      assert a + b == b;
    } else {
      var t := a + b;
      assert t[0] == a[0] && t[1..] == a[1..] + b;
      StripNewlinesAppend(a[1..], b);
      if IsNewline(a[0]) {
        assert StripNewlines(t) == StripNewlines(a[1..] + b);
        assert StripNewlines(a) == StripNewlines(a[1..]);
      } else {
        assert StripNewlines(t) == [a[0]] + StripNewlines(a[1..] + b);
        assert StripNewlines(a) == [a[0]] + StripNewlines(a[1..]);
      }
    }
  }

  /** On one character, `StripNewlines` drops a newline and keeps anything else. */
  lemma StripNewlinesChar(c: char)
    ensures StripNewlines([c]) == if IsNewline(c) then [] else [c]
  {
    assert [c][1..] == [];
  }

  /** A `\r` or `\n` anywhere in the input does not change what it decodes to. */
  lemma DecodeIgnoresNewline(a: string, c: char, b: string)
    requires IsNewline(c)
    ensures Decode(a + [c] + b) == Decode(a + b)
  {
    StripNewlinesAppend(a + [c], b);
    StripNewlinesAppend(a, [c]);
    StripNewlinesAppend(a, b);
    StripNewlinesChar(c);
    assert StripNewlines(a + [c]) == StripNewlines(a);
  }

  /** Every character other than `\r` and `\n` occurs after `StripNewlines` exactly when it occurred before. */
  lemma {:induction false} StripNewlinesKeeps(s: string, c: char)
    requires !IsNewline(c)
    ensures c in StripNewlines(s) <==> c in s
    decreases |s|
  {
    if s != [] {
      StripNewlinesKeeps(s[1..], c);
      assert s == [s[0]] + s[1..];
    }
  }

  /** Text without newlines is left alone by `StripNewlines`. */
  lemma {:induction false} StripNoNewlines(s: string)
    requires forall i :: 0 <= i < |s| ==> !IsNewline(s[i])
    ensures StripNewlines(s) == s
    decreases |s|
  {
    if s != [] {
      StripNoNewlines(s[1..]);
    }
  }

  lemma DecodeEncodeBlock(b0: byte, b1: byte, b2: byte, last: bool)
    ensures DecodeQuantum(EncodeBlock(b0, b1, b2), last) == Some([b0, b1, b2])
  {
    var v1: Sextet := b0 % 4 * 16 + b1 / 16;
    var v2: Sextet := b1 % 16 * 4 + b2 / 64;
    assert v1 / 16 == b0 % 4 && v1 % 16 == b1 / 16;
    assert v2 / 4 == b1 % 16 && v2 % 4 == b2 / 64;
  }

  lemma DecodeEncodeOne(b0: byte)
    ensures DecodeQuantum([Digit(b0 / 4), Digit(b0 % 4 * 16), Pad, Pad], true) == Some([b0])
  {
    var v1: Sextet := b0 % 4 * 16;
    assert v1 / 16 == b0 % 4;
  }

  lemma DecodeEncodeTwo(b0: byte, b1: byte)
    ensures DecodeQuantum([Digit(b0 / 4), Digit(b0 % 4 * 16 + b1 / 16), Digit(b1 % 16 * 4), Pad], true)
            == Some([b0, b1])
  {
    var v1: Sextet := b0 % 4 * 16 + b1 / 16;
    var v2: Sextet := b1 % 16 * 4;
    assert v1 / 16 == b0 % 4 && v1 % 16 == b1 / 16;
    assert v2 / 4 == b1 % 16;
  }

  /** A decodable group of four characters followed by decodable text decodes to the two results in order. */
  lemma DecodeQuantaCons(q: string, rest: string, bytes: seq<byte>, restBytes: seq<byte>)
    requires |q| == 4 && DecodeQuantum(q, rest == []) == Some(bytes)
    requires DecodeQuanta(rest) == Success(restBytes)
    ensures DecodeQuanta(q + rest) == Success(bytes + restBytes)
  {
    var s := q + rest;
    assert s[..4] == q && s[4..] == rest;
    assert (|s| == 4) == (rest == []);
  }

  /** The padded final group of a one-byte input decodes back to that byte. */
  lemma DecodeEncodeTailOne(b0: byte)
    ensures DecodeQuanta(Encode([b0])) == Success([b0])
  {
    var q := [Digit(b0 / 4), Digit(b0 % 4 * 16), Pad, Pad];
    assert Encode([b0]) == q + [];
    DecodeEncodeOne(b0);
    assert DecodeQuanta([]) == Success([]);
    DecodeQuantaCons(q, [], [b0], []);
    assert [b0] + [] == [b0];
  }

  /** The padded final group of a two-byte input decodes back to those bytes. */
  lemma DecodeEncodeTailTwo(b0: byte, b1: byte)
    ensures DecodeQuanta(Encode([b0, b1])) == Success([b0, b1])
  {
    var q := [Digit(b0 / 4), Digit(b0 % 4 * 16 + b1 / 16), Digit(b1 % 16 * 4), Pad];
    assert Encode([b0, b1]) == q + [];
    DecodeEncodeTwo(b0, b1);
    assert DecodeQuanta([]) == Success([]);
    DecodeQuantaCons(q, [], [b0, b1], []);
    assert [b0, b1] + [] == [b0, b1];
  }

  /** Decoding undoes encoding, for every byte string. */
  lemma {:induction false} DecodeEncode(data: seq<byte>)
    ensures Decode(Encode(data)) == Success(data)
  {
    StripNoNewlines(Encode(data));
    DecodeQuantaEncode(data);
  }

  lemma {:induction false} DecodeQuantaEncode(data: seq<byte>)
    ensures DecodeQuanta(Encode(data)) == Success(data)
    decreases |data|
  {
    if |data| == 1 {
      assert data == [data[0]];
      DecodeEncodeTailOne(data[0]);
    } else if |data| == 2 {
      assert data == [data[0], data[1]];
      DecodeEncodeTailTwo(data[0], data[1]);
    } else if |data| > 2 {
      var rest := data[3..];
      var block := EncodeBlock(data[0], data[1], data[2]);
      assert Encode(data) == block + Encode(rest);
      DecodeEncodeBlock(data[0], data[1], data[2], Encode(rest) == []);
      DecodeQuantaEncode(rest);
      DecodeQuantaCons(block, Encode(rest), [data[0], data[1], data[2]], rest);
      FirstThree(data);
    }
  }

  /** A byte string of three or more bytes is its first three bytes followed by the rest. */
  lemma FirstThree(data: seq<byte>)
    requires |data| > 2
    ensures data == [data[0], data[1], data[2]] + data[3..]
  {
  }

  /** Input whose length, newlines aside, is not a multiple of four is rejected. */
  lemma DecodeRejectsLength(s: string)
    requires |StripNewlines(s)| % 4 != 0
    ensures Decode(s).Failure?
  {
  }

  /** Input holding a character that is neither in the alphabet, `=`, `\r` nor `\n` is rejected. */
  lemma DecodeRejectsForeign(s: string, c: char)
    requires c in s && !IsAlphabetChar(c) && c != Pad && !IsNewline(c)
    ensures Decode(s).Failure?
  {
    var t := StripNewlines(s);
    StripNewlinesKeeps(s, c);
    assert c in t;
    var i :| 0 <= i < |t| && t[i] == c;
  }
}
