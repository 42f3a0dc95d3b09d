/** UTF-8 as TextEncoder and a fatal TextDecoder implement it (sections 3 and 4 of RFC 3629).
    A string is a sequence of Unicode scalar values, so it is well formed. */
module Utf8 {
  import opened Common

  type Byte = b: int | 0 <= b < 256 witness 0

  const BOM: char := '\U{FEFF}'

  function EncodeChar(c: char): (bytes: seq<Byte>)
    ensures 1 <= |bytes| <= 4
  {
    var n := c as int;
    if n < 0x80 then [n]
    else if n < 0x800 then [0xC0 + n / 64, 0x80 + n % 64]
    else if n < 0x10000 then [0xE0 + n / 4096, 0x80 + n / 64 % 64, 0x80 + n % 64]
    else [0xF0 + n / 262144, 0x80 + n / 4096 % 64, 0x80 + n / 64 % 64, 0x80 + n % 64]
  }

  function Encode(s: string): seq<Byte> {
    if s == "" then [] else EncodeChar(s[0]) + Encode(s[1..])
  }

  function Utf8ByteLength(s: string): nat {
    |Encode(s)|
  }

  /** How many bytes a sequence starting with this byte has; 0 if no sequence starts so. */
  function SequenceLength(lead: Byte): int {
    if lead < 0x80 then 1
    else if 0xC2 <= lead <= 0xDF then 2
    else if 0xE0 <= lead <= 0xEF then 3
    else if 0xF0 <= lead <= 0xF4 then 4
    else 0
  }

  /** The second byte excludes overlong forms, surrogates and values above U+10FFFF. */
  predicate ValidSecond(lead: Byte, second: Byte) {
    (if lead == 0xE0 then 0xA0 else if lead == 0xF0 then 0x90 else 0x80) <= second <=
    (if lead == 0xED then 0x9F else if lead == 0xF4 then 0x8F else 0xBF)
  }

  predicate IsTail(b: Byte) { 0x80 <= b <= 0xBF }

  /** One character off the front, or None where a fatal decoder throws. */
  function DecodeChar(b: seq<Byte>): (r: Option<char>)
    requires b != []
    ensures r.Some? ==> 1 <= SequenceLength(b[0]) <= |b|
  {
    var n := SequenceLength(b[0]);
    if n == 0 || |b| < n then None
    else if n == 1 then Some(b[0] as char)
    else if !ValidSecond(b[0], b[1]) then None
    else if n == 2 then Some(((b[0] as int - 0xC0) * 64 + (b[1] as int - 0x80)) as char)
    else if !IsTail(b[2]) then None
    else if n == 3 then Some(((b[0] as int - 0xE0) * 4096 + (b[1] as int - 0x80) * 64 + (b[2] as int - 0x80)) as char)
    else if !IsTail(b[3]) then None
    else Some(((b[0] as int - 0xF0) * 262144 + (b[1] as int - 0x80) * 4096 +
               (b[2] as int - 0x80) * 64 + (b[3] as int - 0x80)) as char)
  }

  /** Strict decoding of a whole buffer. */
  function Decode(b: seq<Byte>): (r: Option<string>)
    decreases |b|
  {
    if b == [] then Some("")
    else
      var first := DecodeChar(b);
      if first.None? then None
      else
        var rest := Decode(b[SequenceLength(b[0])..]);
        if rest.None? then None else Some([first.value] + rest.value)
  }

  lemma {:induction false} EncodeConcat(a: string, b: string)
    ensures Encode(a + b) == Encode(a) + Encode(b)
    decreases |a|
  {
    if a == "" {
      assert a + b == b;
    } else {
      assert (a + b)[1..] == a[1..] + b;
      EncodeConcat(a[1..], b);
    }
  }

  lemma Digits(n: int)
    requires 0 <= n < 0x110000
    ensures n == n / 64 * 64 + n % 64 && n / 64 == n / 4096 * 64 + n / 64 % 64
    ensures n / 4096 == n / 262144 * 64 + n / 4096 % 64
  {
  }

  lemma DecodeShort(c: char, b: seq<Byte>)
    requires c as int < 0x800 && |b| >= |EncodeChar(c)| && b[..|EncodeChar(c)|] == EncodeChar(c)
    ensures SequenceLength(b[0]) == |EncodeChar(c)| && DecodeChar(b) == Some(c)
  {
    Digits(c as int);
    assert b[0] == EncodeChar(c)[0];
    if |EncodeChar(c)| == 2 { assert b[1] == EncodeChar(c)[1]; }
  }

  lemma DecodeThree(c: char, b: seq<Byte>)
    requires 0x800 <= c as int < 0x10000 && |b| >= 3 && b[..3] == EncodeChar(c)
    ensures SequenceLength(b[0]) == 3 && DecodeChar(b) == Some(c)
  {
    Digits(c as int);
    assert b[0] == EncodeChar(c)[0] && b[1] == EncodeChar(c)[1] && b[2] == EncodeChar(c)[2];
  }

  lemma DecodeFour(c: char, b: seq<Byte>)
    requires 0x10000 <= c as int && |b| >= 4 && b[..4] == EncodeChar(c)
    ensures SequenceLength(b[0]) == 4 && DecodeChar(b) == Some(c)
  {
    Digits(c as int);
    assert b[0] == EncodeChar(c)[0] && b[1] == EncodeChar(c)[1] && b[2] == EncodeChar(c)[2] && b[3] == EncodeChar(c)[3];
  }

  lemma DecodeEncodedChar(c: char, rest: seq<Byte>)
    ensures DecodeChar(EncodeChar(c) + rest) == Some(c)
    ensures SequenceLength(EncodeChar(c)[0]) == |EncodeChar(c)|
  {
    var b := EncodeChar(c) + rest;
    assert b[..|EncodeChar(c)|] == EncodeChar(c) && b[0] == EncodeChar(c)[0];
    if c as int < 0x800 { DecodeShort(c, b); } else if c as int < 0x10000 { DecodeThree(c, b); } else { DecodeFour(c, b); }
  }

  /** A character cut short is rejected: the encoding is a prefix code. */
  lemma CutCharFails(c: char, k: nat)
    requires 0 < k < |EncodeChar(c)|
    ensures DecodeChar(EncodeChar(c)[..k]) == None
  {
    DecodeEncodedChar(c, []);
    assert EncodeChar(c)[..k][0] == EncodeChar(c)[0];
  }

  /** How many characters of `s` fit into `limit` bytes. */
  function Fits(s: string, limit: int): (k: nat)
    ensures k <= |s|
  {
    if s == "" || |EncodeChar(s[0])| > limit then 0
    else 1 + Fits(s[1..], limit - |EncodeChar(s[0])|)
  }

  /** Fits gives the longest prefix that fits, and what is left over is shorter than a character. */
  lemma {:induction false} FitsIsLongest(s: string, limit: nat)
    ensures var k := Fits(s, limit);
            Utf8ByteLength(s[..k]) <= limit &&
            (k < |s| ==> limit < Utf8ByteLength(s[..k]) + 4) &&
            forall j :: k < j <= |s| ==> Utf8ByteLength(s[..j]) > limit
    decreases |s|
  {
    if s != "" && |EncodeChar(s[0])| <= limit {
      FitsIsLongest(s[1..], limit - |EncodeChar(s[0])|);
    }
    forall j | 0 < j <= |s|
      ensures Utf8ByteLength(s[..j]) == |EncodeChar(s[0])| + Utf8ByteLength(s[1..][..j - 1])
    {
      assert s[..j][1..] == s[1..][..j - 1];
    }
  }

  lemma FirstCharDecodes(s: string, end: nat)
    requires s != "" && |EncodeChar(s[0])| <= end <= Utf8ByteLength(s)
    ensures var n := |EncodeChar(s[0])|; var cut := Encode(s)[..end];
            cut[n..] == Encode(s[1..])[..end - n] && DecodeChar(cut) == Some(s[0]) && SequenceLength(cut[0]) == n
  {
    var rest := Encode(s[1..])[..end - |EncodeChar(s[0])|];
    assert Encode(s)[..end] == EncodeChar(s[0]) + rest;
    DecodeEncodedChar(s[0], rest);
  }

  lemma TakeCons(s: string, k: nat)
    requires s != "" && 0 < k <= |s|
    ensures s[..k] == [s[0]] + s[1..][..k - 1] && s[..k][1..] == s[1..][..k - 1]
  {
  }

  /** Decoding the first `end` bytes succeeds exactly on a character boundary. */
  lemma {:induction false} DecodePrefix(s: string, end: nat)
    requires end <= Utf8ByteLength(s)
    ensures var k := Fits(s, end);
            Decode(Encode(s)[..end]) == if Utf8ByteLength(s[..k]) == end then Some(s[..k]) else None
    decreases |s|
  {
    if s != "" && end > 0 {
      var n := |EncodeChar(s[0])|;
      if n <= end {
        FirstCharDecodes(s, end);
        DecodePrefix(s[1..], end - n);
        TakeCons(s, Fits(s, end));
      } else {
        assert Encode(s)[..end] == EncodeChar(s[0])[..end];
        CutCharFails(s[0], end);
      }
    }
  }

  lemma DecodeInvertsEncode(s: string)
    ensures Decode(Encode(s)) == Some(s)
  {
    var n := Utf8ByteLength(s);
    assert Encode(s)[..n] == Encode(s) && s[..|s|] == s;
    FitsIsLongest(s, n);
    DecodePrefix(s, n);
  }

  lemma ShortIsCanonical(b: seq<Byte>)
    requires b != [] && SequenceLength(b[0]) <= 2 && DecodeChar(b).Some?
    ensures EncodeChar(DecodeChar(b).value) == b[..SequenceLength(b[0])]
  {
  }

  lemma ThreeIsCanonical(b: seq<Byte>)
    requires b != [] && SequenceLength(b[0]) == 3 && DecodeChar(b).Some?
    ensures EncodeChar(DecodeChar(b).value) == b[..3]
  {
    var n := DecodeChar(b).value as int;
    assert n / 64 == (b[0] as int - 0xE0) * 64 + (b[1] as int - 0x80);
  }

  lemma FourIsCanonical(b: seq<Byte>)
    requires b != [] && SequenceLength(b[0]) == 4 && DecodeChar(b).Some?
    ensures EncodeChar(DecodeChar(b).value) == b[..4]
  {
    var n := DecodeChar(b).value as int;
    assert n / 64 == (b[0] as int - 0xF0) * 4096 + (b[1] as int - 0x80) * 64 + (b[2] as int - 0x80);
    assert n / 4096 == (b[0] as int - 0xF0) * 64 + (b[1] as int - 0x80);
  }

  lemma CharIsCanonical(b: seq<Byte>)
    requires b != [] && DecodeChar(b).Some?
    ensures EncodeChar(DecodeChar(b).value) == b[..SequenceLength(b[0])]
  {
    var n := SequenceLength(b[0]);
    if n <= 2 { ShortIsCanonical(b); } else if n == 3 { ThreeIsCanonical(b); } else { FourIsCanonical(b); }
  }

  lemma TakeDrop(b: seq<Byte>, n: nat)
    requires n <= |b|
    ensures b == b[..n] + b[n..]
  {
  }

  lemma EncodeCons(c: char, rest: string)
    ensures Encode([c] + rest) == EncodeChar(c) + Encode(rest)
  {
    assert ([c] + rest)[1..] == rest;
  }

  /** The decoder accepts nothing but encodings: no overlong form, surrogate or stray byte. */
  lemma {:induction false} DecodedIsCanonical(b: seq<Byte>)
    requires Decode(b).Some?
    ensures Encode(Decode(b).value) == b
    decreases |b|
  {
    if b != [] {
      var n := SequenceLength(b[0]);
      CharIsCanonical(b);
      DecodedIsCanonical(b[n..]);
      EncodeCons(DecodeChar(b).value, Decode(b[n..]).value);
      TakeDrop(b, n);
    }
  }
}
