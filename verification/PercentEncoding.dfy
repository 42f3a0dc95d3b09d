/** The generated C++ path-parameter encoder (unreserved characters of section 2.3 of RFC 3986, others as
    %XX of section 2.1), and what it gives generated paths. */
module PercentEncoding {
  import opened Common
  import opened Utf8
  import opened PathCodegen

  predicate IsUnreserved(b: Byte) {
    'A' as int <= b <= 'Z' as int || 'a' as int <= b <= 'z' as int || '0' as int <= b <= '9' as int ||
    b == '-' as int || b == '.' as int || b == '_' as int || b == '~' as int
  }

  function HexDigit(n: int): char
    requires 0 <= n < 16
  {
    "0123456789ABCDEF"[n]
  }

  function EncodeByte(b: Byte): string {
    if IsUnreserved(b) then [b as char] else ['%', HexDigit(b / 16), HexDigit(b % 16)]
  }

  function EncodeParam(value: seq<Byte>): string {
    if value == [] then "" else EncodeParam(value[..|value| - 1]) + EncodeByte(value[|value| - 1])
  }

  method EncodePathParam(value: seq<Byte>) returns (encoded: string)
    ensures encoded == EncodeParam(value)
  {
    encoded := "";
    var i := 0;
    while i < |value|
      invariant 0 <= i <= |value|
      invariant encoded == EncodeParam(value[..i])
    {
      var ch := value[i];
      assert value[..i + 1][..i] == value[..i];
      if IsUnreserved(ch) {
        encoded := encoded + [ch as char];
      } else {
        encoded := encoded + ['%'] + [HexDigit(ch / 16)] + [HexDigit(ch % 16)];
      }
      i := i + 1;
    }
    assert value[..|value|] == value;
  }

  function HexValue(c: char): Option<int> {
    if '0' <= c <= '9' then Some(c as int - '0' as int)
    else if 'A' <= c <= 'F' then Some(c as int - 'A' as int + 10)
    else None
  }

  /** Percent-decoding, as a server does it. */
  function DecodeParam(s: string): Option<seq<Byte>>
    decreases |s|
  {
    if s == "" then Some([])
    else if s[0] == '%' then
      if |s| < 3 || HexValue(s[1]).None? || HexValue(s[2]).None? then None
      else
        var rest := DecodeParam(s[3..]);
        if rest.None? then None else Some([16 * HexValue(s[1]).value + HexValue(s[2]).value] + rest.value)
    else if s[0] as int >= 256 then None
    else
      var rest := DecodeParam(s[1..]);
      if rest.None? then None else Some([s[0] as int] + rest.value)
  }

  lemma HexRoundTrip(n: int)
    requires 0 <= n < 16
    ensures HexValue(HexDigit(n)) == Some(n)
    ensures HexDigit(n) != '/'
  {
  }

  lemma DecodeByte(b: Byte, rest: string)
    requires DecodeParam(rest).Some?
    ensures DecodeParam(EncodeByte(b) + rest) == Some([b] + DecodeParam(rest).value)
  {
    if IsUnreserved(b) {
      assert ([b as char] + rest)[1..] == rest;
    } else {
      HexRoundTrip(b / 16);
      HexRoundTrip(b % 16);
      DecodeTriple(HexDigit(b / 16), HexDigit(b % 16), rest);
    }
  }

  lemma DecodeTriple(high: char, low: char, rest: string)
    requires HexValue(high).Some? && HexValue(low).Some? && DecodeParam(rest).Some?
    ensures DecodeParam(['%', high, low] + rest) ==
            Some([16 * HexValue(high).value + HexValue(low).value] + DecodeParam(rest).value)
  {
    var s := ['%', high, low] + rest;
    assert s[0] == '%' && s[1] == high && s[2] == low && s[3..] == rest;
  }

  lemma {:induction false} DecodeInvertsEncodeWith(value: seq<Byte>, rest: string)
    requires DecodeParam(rest).Some?
    ensures DecodeParam(EncodeParam(value) + rest) == Some(value + DecodeParam(rest).value)
    decreases |value|
  {
    if value == [] {
      assert "" + rest == rest;
      assert value + DecodeParam(rest).value == DecodeParam(rest).value;
    } else {
      var k := |value| - 1;
      DecodeByte(value[k], rest);
      DecodeInvertsEncodeWith(value[..k], EncodeByte(value[k]) + rest);
      Regroup(EncodeParam(value[..k]), EncodeByte(value[k]), rest);
      Regroup(value[..k], [value[k]], DecodeParam(rest).value);
      assert value[..k] + [value[k]] == value;
    }
  }

  lemma Regroup<T>(a: seq<T>, b: seq<T>, c: seq<T>)
    ensures a + (b + c) == a + b + c
  {
  }

  /** Decoding inverts encoding, and an encoded parameter never contains a slash. */
  lemma DecodeInvertsEncode(value: seq<Byte>)
    ensures DecodeParam(EncodeParam(value)) == Some(value)
    ensures '/' !in EncodeParam(value)
  {
    DecodeInvertsEncodeWith(value, "");
    assert EncodeParam(value) + "" == EncodeParam(value);
    assert value + [] == value;
    NoSlash(value);
  }

  lemma {:induction false} NoSlash(value: seq<Byte>)
    ensures '/' !in EncodeParam(value)
    decreases |value|
  {
    if value != [] {
      NoSlash(value[..|value| - 1]);
      var b := value[|value| - 1];
      HexRoundTrip(b / 16);
      HexRoundTrip(b % 16);
    }
  }

  /** The unreserved characters of section 2.3 of RFC 3986. */
  const UNRESERVED: string := CAPITALS + SMALL_LETTERS + DIGITS + "-._~"

  /** Unreserved characters and percent signs with two upper-case hexadecimal digits. */
  predicate IsEncoded(s: string)
    decreases |s|
  {
    s == "" ||
    (s[0] in UNRESERVED && IsEncoded(s[1..])) ||
    (s[0] == '%' && |s| >= 3 && s[1] in "0123456789ABCDEF" && s[2] in "0123456789ABCDEF" && IsEncoded(s[3..]))
  }

  lemma UnreservedIsListed(b: Byte)
    ensures IsUnreserved(b) <==> b as char in UNRESERVED
  {
    AlphabetsAreRanges(b as char);
  }

  /** One byte is kept when it is unreserved, and else becomes its own percent triple. */
  lemma ByteIsEncoded(b: Byte, rest: string)
    requires IsEncoded(rest)
    ensures IsEncoded(EncodeByte(b) + rest)
    ensures EncodeByte(b) == if b as char in UNRESERVED then [b as char]
                             else ['%', "0123456789ABCDEF"[b / 16], "0123456789ABCDEF"[b % 16]]
  {
    UnreservedIsListed(b);
    var s := EncodeByte(b) + rest;
    if IsUnreserved(b) { assert s[1..] == rest; } else { assert s[3..] == rest; }
  }

  lemma {:induction false} EncodingWith(value: seq<Byte>, rest: string)
    requires IsEncoded(rest)
    ensures IsEncoded(EncodeParam(value) + rest)
    decreases |value|
  {
    if value == [] {
      assert "" + rest == rest;
    } else {
      var k := |value| - 1;
      ByteIsEncoded(value[k], rest);
      EncodingWith(value[..k], EncodeByte(value[k]) + rest);
      Regroup(EncodeParam(value[..k]), EncodeByte(value[k]), rest);
    }
  }

  lemma {:induction false} EncodeParamConcat(u: seq<Byte>, v: seq<Byte>)
    ensures EncodeParam(u + v) == EncodeParam(u) + EncodeParam(v)
    decreases |v|
  {
    if v == [] {
      assert u + v == u && EncodeParam(u) + "" == EncodeParam(u);
    } else {
      var k := |v| - 1;
      assert (u + v)[..|u + v| - 1] == u + v[..k];
      EncodeParamConcat(u, v[..k]);
      Regroup(EncodeParam(u), EncodeParam(v[..k]), EncodeByte(v[k]));
    }
  }

  /** Which text stands for a value: byte by byte, unreserved characters as they are and every other byte as its percent
      triple, so that nothing with a meaning in a URL is left. */
  lemma EncodingIsExact(before: seq<Byte>, b: Byte, after: seq<Byte>)
    ensures IsEncoded(EncodeParam(before + [b] + after))
    ensures EncodeParam(before + [b] + after) ==
            EncodeParam(before) +
            (if b as char in UNRESERVED then [b as char]
             else ['%', "0123456789ABCDEF"[b / 16], "0123456789ABCDEF"[b % 16]]) +
            EncodeParam(after)
  {
    var value := before + [b] + after;
    EncodingWith(value, "");
    assert EncodeParam(value) + "" == EncodeParam(value);
    ByteIsEncoded(b, "");
    EncodeParamConcat(before + [b], after);
    OneMoreByte(before, b);
  }

  lemma OneMoreByte(before: seq<Byte>, b: Byte)
    ensures EncodeParam(before + [b]) == EncodeParam(before) + EncodeByte(b)
  {
    assert (before + [b])[..|before|] == before;
  }

  /** Every parameter is followed by a slash or by the end of the path. */
  predicate WholeSegments(pieces: seq<Piece>) {
    forall i :: 0 <= i < |pieces| - 1 && pieces[i].Param? ==>
      pieces[i + 1].Lit? && pieces[i + 1].text != "" && pieces[i + 1].text[0] == '/'
  }

  predicate SameEnd(r: string, s: string) {
    (r == "" && s == "") || (r != "" && s != "" && r[0] == '/' && s[0] == '/')
  }

  lemma HeadOf(a: string, b: string)
    requires a != ""
    ensures a + b != "" && (a + b)[0] == a[0] && a[0] in a
  {
  }

  lemma EmptyTogether(x: string, y: string, r: string, s: string)
    requires '/' !in x && '/' !in y && x + r == y + s && SameEnd(r, s)
    ensures x == "" ==> y == "" && r == s
  {
    if x == "" {
      assert x + r == r && "" + s == s;
      if y != "" { HeadOf(y, s); }
    }
  }

  lemma {:induction false} SegmentsSplit(x: string, y: string, r: string, s: string)
    requires '/' !in x && '/' !in y && x + r == y + s && SameEnd(r, s)
    ensures x == y && r == s
    decreases |x|
  {
    EmptyTogether(x, y, r, s);
    EmptyTogether(y, x, s, r);
    if x != "" {
      HeadOf(x, r);
      HeadOf(y, s);
      assert (x + r)[1..] == x[1..] + r && (y + s)[1..] == y[1..] + s;
      SegmentsSplit(x[1..], y[1..], r, s);
    }
  }

  /** With whole-segment parameters, equal paths have equal arguments. */
  lemma {:induction false} PathsDetermineArguments(pieces: seq<Piece>, a: map<string, string>, b: map<string, string>)
    requires WholeSegments(pieces)
    requires forall p :: p in NamesOf(pieces) ==> p in a && p in b && '/' !in a[p] && '/' !in b[p]
    requires Substitute(pieces, a) == Substitute(pieces, b)
    ensures forall p :: p in NamesOf(pieces) ==> a[p] == b[p]
    decreases |pieces|
  {
    if pieces != [] {
      var rest := pieces[1..];
      assert forall i :: 0 <= i < |rest| ==> rest[i] == pieces[i + 1];
      assert forall p :: p in NamesOf(rest) ==> p in NamesOf(pieces);
      match pieces[0]
      case Lit(t) =>
        assert (t + Substitute(rest, a))[|t|..] == (t + Substitute(rest, b))[|t|..];
        assert Substitute(rest, a) == Substitute(rest, b);
        assert NamesOf(pieces) == NamesOf(rest);
        PathsDetermineArguments(rest, a, b);
      case Param(p) =>
        assert p in NamesOf(pieces);
        SegmentsSplit(a[p], b[p], Substitute(rest, a), Substitute(rest, b));
        PathsDetermineArguments(rest, a, b);
        assert NamesOf(pieces) == [p] + NamesOf(rest);
    }
  }

  function EncodeAll(values: map<string, seq<Byte>>): map<string, string> {
    map p | p in values :: EncodeParam(values[p])
  }

  /** So the generated C++ client maps distinct argument tuples to distinct paths. */
  lemma CppPathsAreInjective(pieces: seq<Piece>, u: map<string, seq<Byte>>, v: map<string, seq<Byte>>)
    requires ValidPieces(pieces) && WholeSegments(pieces)
    requires forall p :: p in NamesOf(pieces) ==> p in u && p in v
    requires var parts := CutAll(Text(pieces), ExtractParams(Text(pieces)));
             PartsKnown(parts, EncodeAll(u)) && PartsKnown(parts, EncodeAll(v)) &&
             EvalParts(parts, EncodeAll(u)) == EvalParts(parts, EncodeAll(v))
    ensures forall p :: p in NamesOf(pieces) ==> u[p] == v[p]
  {
    var a, b := EncodeAll(u), EncodeAll(v);
    ExtractFindsNames(pieces);
    assert "" + Text(pieces) == Text(pieces);
    CutMeans("", pieces, a);
    CutMeans("", pieces, b);
    assert "" + Substitute(pieces, a) == Substitute(pieces, a) && "" + Substitute(pieces, b) == Substitute(pieces, b);
    forall p | p in NamesOf(pieces)
      ensures '/' !in a[p] && '/' !in b[p]
    {
      DecodeInvertsEncode(u[p]);
      DecodeInvertsEncode(v[p]);
    }
    PathsDetermineArguments(pieces, a, b);
    forall p | p in NamesOf(pieces)
      ensures u[p] == v[p]
    {
      DecodeInvertsEncode(u[p]);
      DecodeInvertsEncode(v[p]);
    }
  }
}
