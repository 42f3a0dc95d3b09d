/** truncateUtf8 of self-host-schedule.ts, on strings without lone surrogates. */
module TruncateUtf8 {
  import opened Common
  import opened Utf8

  const MAX_SAFE_INTEGER: int := 9007199254740991

  /** A TextDecoder that keeps its default ignoreBOM drops one leading byte order mark. */
  function DropBom(s: string): string {
    if s != "" && s[0] == BOM then s[1..] else s
  }

  function DecodeFatal(b: seq<Byte>): Option<string> {
    var decoded := Decode(b);
    if decoded.None? then None else Some(DropBom(decoded.value))
  }

  /** The longest prefix that fits, except for a dropped byte order mark, found within four tries. */
  method TruncateUtf8(value: string, maxBytes: int) returns (r: Result<string>, tries: nat)
    ensures !(0 <= maxBytes <= 9_007_199_254_740_991) ==> r.Err?
    ensures 0 <= maxBytes <= 9_007_199_254_740_991 ==>
              r == Ok(if Utf8ByteLength(value) <= maxBytes then value else DropBom(value[..Fits(value, maxBytes)]))
    ensures tries <= 4
  {
    tries := 0;
    if maxBytes > MAX_SAFE_INTEGER || maxBytes < 0 {
      return Err("maxBytes must be a non-negative safe integer."), tries;
    }
    var encoded := Encode(value);
    if |encoded| <= maxBytes {
      return Ok(value), tries;
    }
    var end := maxBytes;
    ghost var k := Fits(value, maxBytes);
    FitsIsLongest(value, maxBytes);
    assert value[..|value|] == value;
    while end >= 0
      invariant Utf8ByteLength(value[..k]) <= end <= maxBytes
      invariant Fits(value, end) == k
      invariant tries == maxBytes - end
    {
      tries := tries + 1;
      DecodePrefix(value, end);
      var decoded := DecodeFatal(encoded[..end]);
      if decoded.Some? {
        return Ok(decoded.value), tries;
      }
      FitsBelow(value, end, k);
      end := end - 1;
    }
    assert false; // the empty prefix always decodes, so the source's last return is dead code
  }

  lemma {:induction false} FitsBelow(s: string, end: nat, k: nat)
    requires k == Fits(s, end) && Utf8ByteLength(s[..k]) < end
    ensures Fits(s, end - 1) == k
    decreases |s|
  {
    if k > 0 {
      assert s[..k][1..] == s[1..][..k - 1];
      FitsBelow(s[1..], end - |EncodeChar(s[0])|, k - 1);
    }
  }

  /** What truncation promises, and exactly when it keeps the promise: the result is the longest prefix
      that fits unless a string that opens with a byte order mark is really cut after it, and then lacks just the mark. */
  lemma LongestPrefixIffNoCutBom(value: string, maxBytes: nat, result: string)
    requires result == if Utf8ByteLength(value) <= maxBytes then value else DropBom(value[..Fits(value, maxBytes)])
    ensures result == value[..Fits(value, maxBytes)] <==>
            !(value != "" && value[0] == '\U{FEFF}' && 3 <= maxBytes < Utf8ByteLength(value))
    ensures result != value[..Fits(value, maxBytes)] ==> result == value[1..Fits(value, maxBytes)]
  {
    FitsIsLongest(value, maxBytes);
    assert value[..|value|] == value;
    if value != "" && value[0] == BOM {
      assert |EncodeChar(BOM)| == 3;
    }
  }

  /** The failing family is real: a marked string cut at four bytes loses its mark. */
  lemma BomIsLost(value: string)
    requires value == [BOM, 'a', 'b']
    ensures Utf8ByteLength(value) == 5 && Fits(value, 4) == 2 && DropBom(value[..2]) == "a"
  {
    assert |EncodeChar(BOM)| == 3;
    assert value[1..] == "ab" && "ab"[1..] == "b" && "b"[1..] == "";
    assert |Encode("b")| == 1 && |Encode("ab")| == 2;
    assert Fits("b", 0) == 0 && Fits("ab", 1) == 1;
  }
}
