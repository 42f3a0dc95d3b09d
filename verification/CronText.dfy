/** The string operations that the cron grammar is built on, as JavaScript defines them. */
module CronText {
  import opened Utf8

  /** The characters that `\s` and trim() treat as white space. */
  predicate IsSpace(c: char) {
    var n := c as int;
    9 <= n <= 13 || n == 0x20 || n == 0xA0 || n == 0x1680 || 0x2000 <= n <= 0x200A ||
    n == 0x2028 || n == 0x2029 || n == 0x202F || n == 0x205F || n == 0x3000 || n == 0xFEFF
  }

  predicate NoSpaces(s: string) {
    forall i :: 0 <= i < |s| ==> !IsSpace(s[i])
  }

  function TrimStart(s: string): (t: string)
    ensures |t| <= |s| && (s != "" && IsSpace(s[0]) ==> |t| < |s|)
  {
    if s != "" && IsSpace(s[0]) then TrimStart(s[1..]) else s
  }

  function TrimEnd(s: string): string {
    if s != "" && IsSpace(s[|s| - 1]) then TrimEnd(s[..|s| - 1]) else s
  }

  function Trim(s: string): string {
    TrimEnd(TrimStart(s))
  }

  /** Length of the leading run without white space. */
  function WordRun(s: string): (k: nat)
    ensures k <= |s| && (k < |s| ==> IsSpace(s[k]))
    ensures forall i :: 0 <= i < k ==> !IsSpace(s[i])
  {
    if s == "" || IsSpace(s[0]) then 0 else 1 + WordRun(s[1..])
  }

  /** Length of the leading run before the first `c`. */
  function RunUntil(s: string, c: char): (k: nat)
    ensures k <= |s| && (k < |s| ==> s[k] == c)
    ensures forall i :: 0 <= i < k ==> s[i] != c
  {
    if s == "" || s[0] == c then 0 else 1 + RunUntil(s[1..], c)
  }

  /** split(/\s+/): pieces between maximal runs of white space. */
  function Words(s: string): (words: seq<string>)
    ensures words != []
    decreases |s|
  {
    var k := WordRun(s);
    if k == |s| then [s] else [s[..k]] + Words(TrimStart(s[k..]))
  }

  /** split(c) for a one-character separator. */
  function SplitOn(s: string, c: char): (pieces: seq<string>)
    ensures pieces != []
    decreases |s|
  {
    var k := RunUntil(s, c);
    if k == |s| then [s] else [s[..k]] + SplitOn(s[k + 1..], c)
  }

  /** words.join(' '). */
  function JoinWords(words: seq<string>): string
    requires words != []
  {
    if |words| == 1 then words[0] else words[0] + " " + JoinWords(words[1..])
  }

  lemma {:induction false} TrimStartSkips(s: string)
    ensures TrimStart(s) != "" ==> !IsSpace(TrimStart(s)[0])
    ensures exists k :: 0 <= k <= |s| && TrimStart(s) == s[k..]
    ensures Utf8ByteLength(TrimStart(s)) <= Utf8ByteLength(s)
    ensures s != "" && IsSpace(s[0]) ==> Utf8ByteLength(TrimStart(s)) < Utf8ByteLength(s)
    decreases |s|
  {
    if s != "" && IsSpace(s[0]) {
      TrimStartSkips(s[1..]);
      var k :| 0 <= k <= |s[1..]| && TrimStart(s[1..]) == s[1..][k..];
      assert TrimStart(s) == s[k + 1..];
    } else {
      assert s == s[0..];
    }
  }

  lemma {:induction false} TrimEndSkips(s: string)
    ensures |TrimEnd(s)| <= |s| && TrimEnd(s) == s[..|TrimEnd(s)|]
    ensures TrimEnd(s) != "" ==> !IsSpace(TrimEnd(s)[|TrimEnd(s)| - 1])
    ensures Utf8ByteLength(TrimEnd(s)) <= Utf8ByteLength(s)
    decreases |s|
  {
    if s != "" && IsSpace(s[|s| - 1]) {
      TrimEndSkips(s[..|s| - 1]);
      assert s == s[..|s| - 1] + [s[|s| - 1]];
      EncodeConcat(s[..|s| - 1], [s[|s| - 1]]);
    }
  }

  /** A trimmed string has no white space at either end. */
  predicate Trimmed(s: string) {
    s != "" ==> !IsSpace(s[0]) && !IsSpace(s[|s| - 1])
  }

  lemma TrimTrims(s: string)
    ensures Trimmed(Trim(s))
    ensures Utf8ByteLength(Trim(s)) <= Utf8ByteLength(s)
  {
    TrimStartSkips(s);
    TrimEndSkips(TrimStart(s));
  }

  predicate IsWord(w: string) { w != "" && NoSpaces(w) }

  /** The words of a trimmed non-empty string are proper words, and joining them with single spaces
      never lengthens the encoding. */
  lemma {:induction false} WordsOfTrimmed(s: string)
    requires s != "" && Trimmed(s)
    ensures forall i :: 0 <= i < |Words(s)| ==> IsWord(Words(s)[i])
    ensures Utf8ByteLength(JoinWords(Words(s))) <= Utf8ByteLength(s)
    decreases |s|
  {
    var k := WordRun(s);
    if k < |s| {
      var rest := TrimStart(s[k..]);
      TrimStartSkips(s[k..]);
      SuffixKeepsEnd(s, k);
      WordsOfTrimmed(rest);
      var joined := JoinWords(Words(rest));
      assert s == s[..k] + s[k..];
      EncodeConcat(s[..k], s[k..]);
      assert Words(s)[1..] == Words(rest);
      EncodeConcat(s[..k] + " ", joined);
      EncodeConcat(s[..k], " ");
      assert |Encode(" ")| == 1;
    }
  }

  lemma {:induction false} TrimStartKeepsEnd(s: string)
    requires s != "" && !IsSpace(s[|s| - 1])
    ensures TrimStart(s) != "" && TrimStart(s)[|TrimStart(s)| - 1] == s[|s| - 1]
    decreases |s|
  {
    if IsSpace(s[0]) { TrimStartKeepsEnd(s[1..]); }
  }

  lemma SuffixKeepsEnd(s: string, k: nat)
    requires s != "" && Trimmed(s) && k < |s|
    ensures TrimStart(s[k..]) != "" && Trimmed(TrimStart(s[k..]))
  {
    TrimStartKeepsEnd(s[k..]);
    TrimStartSkips(s[k..]);
  }

  /** Splitting undoes joining. */
  lemma {:induction false} WordsOfJoin(words: seq<string>)
    requires words != [] && forall i :: 0 <= i < |words| ==> IsWord(words[i])
    ensures Words(JoinWords(words)) == words
    ensures JoinWords(words) != "" && Trimmed(JoinWords(words))
    decreases |words|
  {
    if |words| == 1 {
      RunStops(words[0], "");
      assert words[0] + "" == words[0];
    } else {
      WordsOfJoin(words[1..]);
      FirstWord(words[0], JoinWords(words[1..]));
    }
  }

  lemma FirstWord(w: string, tail: string)
    requires IsWord(w) && tail != "" && Trimmed(tail)
    ensures Words(w + " " + tail) == [w] + Words(tail) && Trimmed(w + " " + tail)
  {
    var s := w + " " + tail;
    assert s == w + (" " + tail);
    RunStops(w, " " + tail);
    assert s[..|w|] == w && s[|w|..] == " " + tail;
    assert (" " + tail)[1..] == tail;
    assert TrimStart(" " + tail) == tail;
    assert s[|s| - 1] == tail[|tail| - 1];
  }

  lemma {:induction false} RunStops(w: string, rest: string)
    requires NoSpaces(w) && (rest != "" ==> IsSpace(rest[0]))
    ensures WordRun(w + rest) == |w|
    decreases |w|
  {
    if w == "" {
      assert w + rest == rest;
    } else {
      assert (w + rest)[1..] == w[1..] + rest;
      RunStops(w[1..], rest);
    }
  }

  lemma TrimOfTrimmed(s: string)
    requires Trimmed(s)
    ensures Trim(s) == s
  {
  }

  /** WhiteSpace and LineTerminator of ECMA-262, sections 12.2 and 12.3. */
  const WHITE_SPACE: string :=
    "\t\n\U{B}\U{C}\r \U{A0}\U{1680}\U{2000}\U{2001}\U{2002}\U{2003}\U{2004}\U{2005}\U{2006}\U{2007}" +
    "\U{2008}\U{2009}\U{200A}\U{2028}\U{2029}\U{202F}\U{205F}\U{3000}\U{FEFF}"

  lemma SpaceIsListed(c: char)
    ensures IsSpace(c) <==> c in WHITE_SPACE
  {
  }

  predicate IsGap(g: string) {
    forall i :: 0 <= i < |g| ==> g[i] in WHITE_SPACE
  }

  predicate IsField(w: string) {
    w != "" && forall i :: 0 <= i < |w| ==> w[i] !in WHITE_SPACE
  }

  /** The fields with a gap after each but the last. */
  function Spaced(fields: seq<string>, gaps: seq<string>): string
    requires |fields| == |gaps| + 1
  {
    if gaps == [] then fields[0] else fields[0] + gaps[0] + Spaced(fields[1..], gaps[1..])
  }

  lemma GapIsSpace(g: string)
    requires IsGap(g)
    ensures forall i :: 0 <= i < |g| ==> IsSpace(g[i])
  {
    forall i | 0 <= i < |g| { SpaceIsListed(g[i]); }
  }

  lemma FieldIsWord(w: string)
    requires IsField(w)
    ensures IsWord(w)
  {
    forall i | 0 <= i < |w| { SpaceIsListed(w[i]); }
  }

  lemma {:induction false} TrimStartGap(g: string, rest: string)
    requires IsGap(g) && (rest != "" ==> !IsSpace(rest[0]))
    ensures TrimStart(g + rest) == rest
    decreases |g|
  {
    GapIsSpace(g);
    if g == "" {
      assert g + rest == rest;
    } else {
      assert (g + rest)[1..] == g[1..] + rest;
      TrimStartGap(g[1..], rest);
    }
  }

  lemma {:induction false} TrimEndGap(text: string, g: string)
    requires IsGap(g) && text != "" && !IsSpace(text[|text| - 1])
    ensures TrimEnd(text + g) == text
    decreases |g|
  {
    GapIsSpace(g);
    if g == "" {
      assert text + g == text;
    } else {
      var k := |g| - 1;
      assert (text + g)[..|text + g| - 1] == text + g[..k];
      TrimEndGap(text, g[..k]);
    }
  }

  lemma WordThenGap(w: string, g: string, rest: string)
    requires IsWord(w) && IsGap(g) && g != "" && rest != "" && !IsSpace(rest[0])
    ensures Words(w + g + rest) == [w] + Words(rest)
  {
    var s := w + g + rest;
    GapIsSpace(g);
    assert s == w + (g + rest);
    RunStops(w, g + rest);
    assert s[..|w|] == w && s[|w|..] == g + rest;
    TrimStartGap(g, rest);
  }

  lemma {:induction false} WordsOfBody(fields: seq<string>, gaps: seq<string>)
    requires |fields| == |gaps| + 1
    requires forall i :: 0 <= i < |fields| ==> IsField(fields[i])
    requires forall i :: 0 <= i < |gaps| ==> gaps[i] != "" && IsGap(gaps[i])
    ensures Words(Spaced(fields, gaps)) == fields
    ensures Spaced(fields, gaps) != "" && Trimmed(Spaced(fields, gaps))
    decreases |gaps|
  {
    FieldIsWord(fields[0]);
    if gaps == [] {
      RunStops(fields[0], "");
      assert fields[0] + "" == fields[0];
    } else {
      var rest := Spaced(fields[1..], gaps[1..]);
      WordsOfBody(fields[1..], gaps[1..]);
      WordThenGap(fields[0], gaps[0], rest);
      EndsLikeLast(fields[0], gaps[0], rest);
    }
  }

  lemma EndsLikeLast(w: string, g: string, rest: string)
    requires IsWord(w) && rest != "" && Trimmed(rest)
    ensures w + g + rest != "" && Trimmed(w + g + rest)
  {
    assert (w + g + rest)[|w + g + rest| - 1] == rest[|rest| - 1] && (w + g + rest)[0] == w[0];
  }

  lemma TrimGaps(before: string, text: string, after: string)
    requires IsGap(before) && IsGap(after) && text != "" && Trimmed(text)
    ensures Trim(before + text + after) == text
  {
    assert before + text + after == before + (text + after);
    assert (text + after)[0] == text[0];
    TrimStartGap(before, text + after);
    TrimEndGap(text, after);
  }

  /** Trimming and splitting find the fields of any layout with white space of any kind. */
  lemma WordsOfLayout(before: string, fields: seq<string>, gaps: seq<string>, after: string)
    requires |fields| == |gaps| + 1 && IsGap(before) && IsGap(after)
    requires forall i :: 0 <= i < |fields| ==> IsField(fields[i])
    requires forall i :: 0 <= i < |gaps| ==> gaps[i] != "" && IsGap(gaps[i])
    ensures Words(Trim(before + Spaced(fields, gaps) + after)) == fields
  {
    WordsOfBody(fields, gaps);
    TrimGaps(before, Spaced(fields, gaps), after);
  }
}
