/** How the SDK generator turns an OpenAPI path into code that builds the path: by replacing parameters one
    after another (TypeScript, Go, Rust), or by cutting at each one (C++). */
module PathCodegen {
  import opened Common

  /** A path template as written: literal text and {parameter} places. */
  datatype Piece = Lit(text: string) | Param(name: string)

  predicate IsWordChar(c: char) {
    'a' <= c <= 'z' || 'A' <= c <= 'Z' || '0' <= c <= '9' || c == '_'
  }

  predicate IsWord(s: string) {
    s != "" && forall i :: 0 <= i < |s| ==> IsWordChar(s[i])
  }

  /** Text that stands for itself inside every target language's string. */
  predicate IsPlain(s: string) {
    forall i :: 0 <= i < |s| ==> s[i] !in "{}$%`\"\\"
  }

  predicate ValidPiece(piece: Piece) {
    match piece case Lit(t) => IsPlain(t) case Param(p) => IsWord(p)
  }

  predicate ValidPieces(pieces: seq<Piece>) {
    forall i :: 0 <= i < |pieces| ==> ValidPiece(pieces[i])
  }

  function Place(name: string): string { "{" + name + "}" }

  function Text(pieces: seq<Piece>): string {
    if pieces == [] then ""
    else (match pieces[0] case Lit(t) => t case Param(p) => Place(p)) + Text(pieces[1..])
  }

  function NamesOf(pieces: seq<Piece>): seq<string> {
    if pieces == [] then []
    else (match pieces[0] case Lit(_) => [] case Param(p) => [p]) + NamesOf(pieces[1..])
  }

  function WordRun(s: string): (k: nat)
    ensures k <= |s| && (forall i :: 0 <= i < k ==> IsWordChar(s[i])) && (k < |s| ==> !IsWordChar(s[k]))
  {
    if s == "" || !IsWordChar(s[0]) then 0 else 1 + WordRun(s[1..])
  }

  /** path.match(/\{(\w+)\}/g) with the braces removed. */
  function ExtractParams(path: string): seq<string>
    decreases |path|
  {
    if path == "" then []
    else
      var k := WordRun(path[1..]);
      if path[0] == '{' && k > 0 && k + 1 < |path| && path[k + 1] == '}'
      then [path[1..k + 1]] + ExtractParams(path[k + 2..])
      else ExtractParams(path[1..])
  }

  /** s.replace(needle, replacement): the first occurrence only. None of the replacements used contains one of the
      special patterns of replace, since a dollar sign is always followed by a brace. */
  function ReplaceFirst(s: string, needle: string, replacement: string): string {
    if needle <= s then replacement + s[|needle|..]
    else if s == "" then ""
    else [s[0]] + ReplaceFirst(s[1..], needle, replacement)
  }

  datatype Language = TypeScript | Go | Rust

  /** What a parameter is replaced with. */
  function Hole(lang: Language, name: string): string {
    match lang
    case TypeScript => "${" + name + "}"
    case Go => "%s"
    case Rust => "{}"
  }

  function ReplaceAll(lang: Language, path: string, params: seq<string>): string
    decreases |params|
  {
    if params == [] then path
    else
      var k := |params| - 1;
      ReplaceFirst(ReplaceAll(lang, path, params[..k]), Place(params[k]), Hole(lang, params[k]))
  }

  method BuildPath(lang: Language, path: string, params: seq<string>) returns (code: string)
    ensures code == ReplaceAll(lang, path, params)
  {
    code := path;
    var i := 0;
    while i < |params|
      invariant 0 <= i <= |params|
      invariant code == ReplaceAll(lang, path, params[..i])
    {
      assert params[..i + 1][..i] == params[..i];
      code := ReplaceFirst(code, Place(params[i]), Hole(lang, params[i]));
      i := i + 1;
    }
    assert params[..|params|] == params;
  }

  /** The template with its first `k` parameters already replaced. */
  function Render(lang: Language, pieces: seq<Piece>, k: nat): string {
    if pieces == [] then ""
    else match pieces[0]
      case Lit(t) => t + Render(lang, pieces[1..], k)
      case Param(p) =>
        if k > 0 then Hole(lang, p) + Render(lang, pieces[1..], k - 1) else Place(p) + Render(lang, pieces[1..], 0)
  }

  lemma {:induction false} RenderNone(lang: Language, pieces: seq<Piece>)
    ensures Render(lang, pieces, 0) == Text(pieces)
    decreases |pieces|
  {
    if pieces != [] { RenderNone(lang, pieces[1..]); }
  }

  /** `needle` does not begin inside `a` when `rest` follows. */
  predicate NotBegunIn(a: string, rest: string, needle: string) {
    forall i :: 0 <= i < |a| ==> !(needle <= (a + rest)[i..])
  }

  lemma NotBegunTail(a: string, rest: string, needle: string)
    requires a != "" && NotBegunIn(a, rest, needle)
    ensures !(needle <= a + rest) && (a + rest)[1..] == a[1..] + rest && NotBegunIn(a[1..], rest, needle)
  {
    assert (a + rest)[0..] == a + rest && (a + rest)[1..] == a[1..] + rest;
    forall i | 0 <= i < |a[1..]|
      ensures !(needle <= (a[1..] + rest)[i..])
    {
      assert (a[1..] + rest)[i..] == (a + rest)[i + 1..];
    }
  }

  lemma {:induction false} ReplaceSkips(a: string, rest: string, needle: string, replacement: string)
    requires NotBegunIn(a, rest, needle)
    ensures ReplaceFirst(a + rest, needle, replacement) == a + ReplaceFirst(rest, needle, replacement)
    decreases |a|
  {
    if a == "" {
      assert a + rest == rest;
    } else {
      NotBegunTail(a, rest, needle);
      ReplaceSkips(a[1..], rest, needle, replacement);
      assert [a[0]] + (a[1..] + ReplaceFirst(rest, needle, replacement)) == a + ReplaceFirst(rest, needle, replacement);
    }
  }

  lemma NoBraceNoPlace(a: string, rest: string, name: string)
    requires forall i :: 0 <= i < |a| ==> a[i] != '{'
    ensures NotBegunIn(a, rest, Place(name))
  {
    forall i | 0 <= i < |a|
      ensures !(Place(name) <= (a + rest)[i..])
    {
      assert (a + rest)[i..][0] == a[i] && Place(name)[0] == '{';
    }
  }

  lemma SamePlace(q: string, rest: string, p: string)
    requires IsWord(p) && (q == "" || IsWord(q))
    ensures Place(p) <= Place(q) + rest ==> p == q
  {
    var s := Place(q) + rest;
    if Place(p) <= s {
      assert forall i :: 0 <= i < |p| ==> s[i + 1] == Place(p)[i + 1] == p[i];
      assert s[|p| + 1] == Place(p)[|p| + 1] == '}';
      assert forall i :: 0 <= i < |q| ==> s[i + 1] == q[i];
      assert s[|q| + 1] == '}';
      assert |p| == |q|;
    }
  }

  lemma OtherStart(s: string, p: string)
    requires s != "" && s[0] != '{'
    ensures !(Place(p) <= s)
  {
    assert Place(p)[0] == '{';
  }

  /** A hole left by an earlier parameter is not mistaken for a later one. */
  lemma HoleIsNoPlace(lang: Language, q: string, rest: string, p: string)
    requires IsWord(p) && IsWord(q) && (lang == TypeScript ==> p != q)
    ensures NotBegunIn(Hole(lang, q), rest, Place(p))
  {
    var hole := Hole(lang, q);
    forall i | 0 <= i < |hole|
      ensures !(Place(p) <= (hole + rest)[i..])
    {
      if hole[i] == '{' {
        match lang
        case TypeScript =>
          assert (hole + rest)[i..] == Place(q) + rest;
          SamePlace(q, rest, p);
        case Go =>
        case Rust =>
          assert (hole + rest)[i..] == Place("") + rest;
          SamePlace("", rest, p);
      } else {
        OtherStart((hole + rest)[i..], p);
      }
    }
  }

  /** Replacing the next parameter turns exactly its own place into its hole. */
  lemma {:induction false} ReplaceNext(lang: Language, pieces: seq<Piece>, k: nat)
    requires ValidPieces(pieces) && k < |NamesOf(pieces)|
    requires lang == TypeScript ==> NamesOf(pieces)[k] !in NamesOf(pieces)[..k]
    ensures var p := NamesOf(pieces)[k];
            ReplaceFirst(Render(lang, pieces, k), Place(p), Hole(lang, p)) == Render(lang, pieces, k + 1)
    decreases |pieces|
  {
    var p := NamesOf(pieces)[k];
    var names := NamesOf(pieces[1..]);
    assert forall i :: 0 <= i < |pieces[1..]| ==> pieces[1..][i] == pieces[i + 1];
    match pieces[0]
    case Lit(t) =>
      assert NamesOf(pieces) == names;
      ReplaceNext(lang, pieces[1..], k);
      ReplaceAfterLit(lang, t, Render(lang, pieces[1..], k), p);
    case Param(q) =>
      NamesAreWords(pieces, k);
      assert NamesOf(pieces) == [q] + names;
      assert forall i :: 0 <= i < |names| ==> names[i] == NamesOf(pieces)[i + 1];
      if k > 0 {
        assert NamesOf(pieces)[0] == q && NamesOf(pieces)[k] == p;
        ReplaceNext(lang, pieces[1..], k - 1);
        ReplaceAfterHole(lang, q, Render(lang, pieces[1..], k - 1), p);
      } else {
        assert (Place(p) + Render(lang, pieces[1..], 0))[|Place(p)|..] == Render(lang, pieces[1..], 0);
      }
  }

  lemma ReplaceAfterLit(lang: Language, t: string, rest: string, p: string)
    requires IsPlain(t)
    ensures ReplaceFirst(t + rest, Place(p), Hole(lang, p)) == t + ReplaceFirst(rest, Place(p), Hole(lang, p))
  {
    NoBraceNoPlace(t, rest, p);
    ReplaceSkips(t, rest, Place(p), Hole(lang, p));
  }

  lemma ReplaceAfterHole(lang: Language, q: string, rest: string, p: string)
    requires IsWord(p) && IsWord(q) && (lang == TypeScript ==> p != q)
    ensures ReplaceFirst(Hole(lang, q) + rest, Place(p), Hole(lang, p)) ==
            Hole(lang, q) + ReplaceFirst(rest, Place(p), Hole(lang, p))
  {
    HoleIsNoPlace(lang, q, rest, p);
    ReplaceSkips(Hole(lang, q), rest, Place(p), Hole(lang, p));
  }

  lemma {:induction false} NamesAreWords(pieces: seq<Piece>, k: nat)
    requires ValidPieces(pieces) && k < |NamesOf(pieces)|
    ensures IsWord(NamesOf(pieces)[k])
    decreases |pieces|
  {
    assert forall i :: 0 <= i < |pieces[1..]| ==> pieces[1..][i] == pieces[i + 1];
    match pieces[0]
    case Lit(_) => NamesAreWords(pieces[1..], k);
    case Param(q) => if k > 0 { NamesAreWords(pieces[1..], k - 1); }
  }

  /** None of the first `k` names occurs twice among them. */
  predicate DistinctUpTo(names: seq<string>, k: nat)
    requires k <= |names|
  {
    forall i, j :: 0 <= i < j < k ==> names[i] != names[j]
  }

  /** After `k` rounds the first `k` places are holes. */
  lemma {:induction false} ReplaceAllRenders(lang: Language, pieces: seq<Piece>, k: nat)
    requires ValidPieces(pieces) && k <= |NamesOf(pieces)|
    requires lang == TypeScript ==> DistinctUpTo(NamesOf(pieces), k)
    ensures ReplaceAll(lang, Text(pieces), NamesOf(pieces)[..k]) == Render(lang, pieces, k)
    decreases k
  {
    if k == 0 {
      RenderNone(lang, pieces);
    } else {
      ReplaceAllRenders(lang, pieces, k - 1);
      assert NamesOf(pieces)[..k][..k - 1] == NamesOf(pieces)[..k - 1];
      ReplaceNext(lang, pieces, k - 1);
    }
  }

  /** Evaluating a TypeScript template literal: ${name} becomes the argument of that name. */
  function EvalTemplate(code: string, args: map<string, string>): string
    decreases |code|
  {
    if code == "" then ""
    else if |code| >= 2 && code[0] == '$' && code[1] == '{' then
      var k := WordRun(code[2..]);
      if k + 2 < |code| && code[k + 2] == '}' && code[2..k + 2] in args
      then args[code[2..k + 2]] + EvalTemplate(code[k + 3..], args)
      else [code[0]] + EvalTemplate(code[1..], args)
    else [code[0]] + EvalTemplate(code[1..], args)
  }

  /** Evaluating fmt.Sprintf or format!: each placeholder takes the next argument. */
  function EvalFormat(code: string, placeholder: string, args: seq<string>): string
    requires placeholder != ""
    decreases |code|
  {
    if code == "" then ""
    else if placeholder <= code && args != [] then args[0] + EvalFormat(code[|placeholder|..], placeholder, args[1..])
    else [code[0]] + EvalFormat(code[1..], placeholder, args)
  }

  /** What the path means: every parameter replaced by its argument at once. */
  function Substitute(pieces: seq<Piece>, args: map<string, string>): string
    requires forall p :: p in NamesOf(pieces) ==> p in args
  {
    if pieces == [] then ""
    else (match pieces[0] case Lit(t) => t case Param(p) => assert p in NamesOf(pieces); args[p]) +
         (assert forall p :: p in NamesOf(pieces[1..]) ==> p in NamesOf(pieces); Substitute(pieces[1..], args))
  }

  function Values(names: seq<string>, args: map<string, string>): seq<string>
    requires forall p :: p in names ==> p in args
  {
    seq(|names|, i requires 0 <= i < |names| => args[names[i]])
  }

  lemma {:induction false} TemplateKeepsPlain(t: string, rest: string, args: map<string, string>)
    requires IsPlain(t)
    ensures EvalTemplate(t + rest, args) == t + EvalTemplate(rest, args)
    decreases |t|
  {
    if t == "" {
      assert t + rest == rest;
    } else {
      assert (t + rest)[1..] == t[1..] + rest;
      assert t[0] != '$';
      TemplateKeepsPlain(t[1..], rest, args);
    }
  }

  lemma {:induction false} FormatKeepsPlain(t: string, rest: string, placeholder: string, args: seq<string>)
    requires IsPlain(t) && (placeholder == "%s" || placeholder == "{}")
    ensures EvalFormat(t + rest, placeholder, args) == t + EvalFormat(rest, placeholder, args)
    decreases |t|
  {
    if t == "" {
      assert t + rest == rest;
    } else {
      assert (t + rest)[1..] == t[1..] + rest;
      assert t[0] != placeholder[0];
      FormatKeepsPlain(t[1..], rest, placeholder, args);
    }
  }

  lemma {:induction false} WordRunStops(w: string, rest: string)
    requires forall i :: 0 <= i < |w| ==> IsWordChar(w[i])
    requires rest != "" && !IsWordChar(rest[0])
    ensures WordRun(w + rest) == |w|
    decreases |w|
  {
    if w == "" {
      assert w + rest == rest;
    } else {
      assert (w + rest)[1..] == w[1..] + rest;
      WordRunStops(w[1..], rest);
    }
  }

  lemma TemplateFillsHole(p: string, rest: string, args: map<string, string>)
    requires IsWord(p) && p in args
    ensures EvalTemplate(Hole(TypeScript, p) + rest, args) == args[p] + EvalTemplate(rest, args)
  {
    var code := Hole(TypeScript, p) + rest;
    WordRunStops(p, "}" + rest);
    assert code[2..] == p + ("}" + rest);
    assert code[2..|p| + 2] == p && code[|p| + 3..] == rest;
  }

  /** The rendered first piece, all its places filled. */
  function RenderPiece(lang: Language, piece: Piece): string {
    match piece case Lit(t) => t case Param(p) => Hole(lang, p)
  }

  lemma RenderFirst(lang: Language, pieces: seq<Piece>)
    requires pieces != []
    ensures Render(lang, pieces, |NamesOf(pieces)|) ==
            RenderPiece(lang, pieces[0]) + Render(lang, pieces[1..], |NamesOf(pieces[1..])|)
  {
  }

  function PieceMeaning(piece: Piece, args: map<string, string>): string
    requires piece.Param? ==> piece.name in args
  {
    match piece case Lit(t) => t case Param(p) => args[p]
  }

  lemma TemplateFirst(piece: Piece, rest: string, args: map<string, string>)
    requires ValidPiece(piece) && (piece.Param? ==> piece.name in args)
    ensures EvalTemplate(RenderPiece(TypeScript, piece) + rest, args) ==
            PieceMeaning(piece, args) + EvalTemplate(rest, args)
  {
    match piece
    case Lit(t) => TemplateKeepsPlain(t, rest, args);
    case Param(p) => TemplateFillsHole(p, rest, args);
  }

  lemma {:induction false} TemplateMeans(pieces: seq<Piece>, args: map<string, string>)
    requires ValidPieces(pieces) && forall p :: p in NamesOf(pieces) ==> p in args
    ensures EvalTemplate(Render(TypeScript, pieces, |NamesOf(pieces)|), args) == Substitute(pieces, args)
    decreases |pieces|
  {
    if pieces != [] {
      var others := pieces[1..];
      TailIsValid(pieces);
      TemplateMeans(others, args);
      RenderFirst(TypeScript, pieces);
      TemplateFirst(pieces[0], Render(TypeScript, others, |NamesOf(others)|), args);
    }
  }

  lemma FormatFillsHole(placeholder: string, rest: string, args: seq<string>)
    requires placeholder != "" && args != []
    ensures EvalFormat(placeholder + rest, placeholder, args) == args[0] + EvalFormat(rest, placeholder, args[1..])
  {
    assert (placeholder + rest)[|placeholder|..] == rest;
  }

  lemma ValuesOfTail(p: string, names: seq<string>, args: map<string, string>)
    requires p in args && forall q :: q in names ==> q in args
    ensures Values([p] + names, args) == [args[p]] + Values(names, args)
  {
  }

  function PieceNames(piece: Piece): seq<string> {
    match piece case Lit(_) => [] case Param(p) => [p]
  }

  lemma FormatFirst(lang: Language, piece: Piece, rest: string, names: seq<string>, args: map<string, string>)
    requires lang != TypeScript && ValidPiece(piece) && (piece.Param? ==> piece.name in args)
    requires forall q :: q in names ==> q in args
    ensures EvalFormat(RenderPiece(lang, piece) + rest, Hole(lang, ""), Values(PieceNames(piece) + names, args)) ==
            PieceMeaning(piece, args) + EvalFormat(rest, Hole(lang, ""), Values(names, args))
  {
    match piece
    case Lit(t) =>
      assert [] + names == names;
      FormatKeepsPlain(t, rest, Hole(lang, ""), Values(names, args));
    case Param(p) =>
      var values := Values(names, args);
      ValuesOfTail(p, names, args);
      FormatFillsHole(Hole(lang, ""), rest, [args[p]] + values);
      assert ([args[p]] + values)[1..] == values;
  }

  lemma {:induction false} FormatMeans(lang: Language, pieces: seq<Piece>, args: map<string, string>)
    requires lang != TypeScript && ValidPieces(pieces) && forall p :: p in NamesOf(pieces) ==> p in args
    ensures EvalFormat(Render(lang, pieces, |NamesOf(pieces)|), Hole(lang, ""), Values(NamesOf(pieces), args)) ==
            Substitute(pieces, args)
    decreases |pieces|
  {
    if pieces != [] {
      var others := pieces[1..];
      TailIsValid(pieces);
      FormatMeans(lang, others, args);
      RenderFirst(lang, pieces);
      FormatFirst(lang, pieces[0], Render(lang, others, |NamesOf(others)|), NamesOf(others), args);
      assert NamesOf(pieces) == PieceNames(pieces[0]) + NamesOf(others);
    }
  }

  /** One part of the C++ expression: a string literal or an encoded argument. */
  datatype Part = Quoted(text: string) | Argument(name: string)

  /** s.indexOf(needle). */
  function IndexOf(s: string, needle: string): (k: int)
    ensures -1 <= k && (k >= 0 ==> k + |needle| <= |s|)
  {
    if needle <= s then 0
    else if s == "" then -1
    else
      var k := IndexOf(s[1..], needle);
      if k == -1 then -1 else k + 1
  }

  function EvalParts(parts: seq<Part>, args: map<string, string>): string
    requires forall i :: 0 <= i < |parts| && parts[i].Argument? ==> parts[i].name in args
  {
    if parts == [] then ""
    else (match parts[0] case Quoted(t) => t case Argument(p) => args[p]) + EvalParts(parts[1..], args)
  }

  /** substring(from), which an offset past the end leaves empty. */
  function From(s: string, from: nat): string {
    if from <= |s| then s[from..] else ""
  }

  /** One round of the loop: the parts for a parameter, and what remains after its place. */
  function Cut(remaining: string, param: string): (seq<Part>, string) {
    var idx := IndexOf(remaining, Place(param));
    var before := if idx > 0 then remaining[..idx] else "";
    ((if before == "" then [] else [Quoted(before)]) + [Argument(param)], From(remaining, idx + |param| + 2))
  }

  function CutAll(remaining: string, params: seq<string>): seq<Part>
    decreases |params|
  {
    if params == [] then (if remaining == "" then [] else [Quoted(remaining)])
    else Cut(remaining, params[0]).0 + CutAll(Cut(remaining, params[0]).1, params[1..])
  }

  method CppBuildPath(path: string, params: seq<string>) returns (parts: seq<Part>)
    ensures parts == CutAll(path, params)
  {
    parts := [];
    var remaining := path;
    var i := 0;
    NothingCutYet(path, params);
    while i < |params|
      invariant 0 <= i <= |params|
      invariant CutAll(path, params) == parts + CutAll(remaining, params[i..])
    {
      CutStep(parts, remaining, params, i);
      var added: seq<Part>;
      added, remaining := CutOnce(remaining, params[i]);
      parts := parts + added;
      i := i + 1;
    }
    if remaining != "" {
      parts := parts + [Quoted(remaining)];
    }
  }

  method CutOnce(remaining: string, param: string) returns (added: seq<Part>, rest: string)
    ensures added == Cut(remaining, param).0 && rest == Cut(remaining, param).1
  {
    var idx := IndexOf(remaining, Place(param));
    var before := if idx > 0 then remaining[..idx] else "";
    added := [];
    if before != "" {
      added := [Quoted(before)];
    }
    added := added + [Argument(param)];
    rest := From(remaining, idx + |param| + 2);
  }

  lemma NothingCutYet(path: string, params: seq<string>)
    ensures CutAll(path, params) == [] + CutAll(path, params[0..])
  {
    assert params[0..] == params;
  }

  lemma CutStep(parts: seq<Part>, remaining: string, params: seq<string>, i: nat)
    requires i < |params|
    ensures var cut := Cut(remaining, params[i]);
            parts + CutAll(remaining, params[i..]) == (parts + cut.0) + CutAll(cut.1, params[i + 1..])
  {
    assert params[i..][0] == params[i] && params[i..][1..] == params[i + 1..];
  }

  lemma {:induction false} IndexAfterPlain(t: string, rest: string, name: string)
    requires IsPlain(t)
    ensures IndexOf(t + (Place(name) + rest), Place(name)) == |t|
    decreases |t|
  {
    if t == "" {
      assert t + (Place(name) + rest) == Place(name) + rest;
    } else {
      assert (t + (Place(name) + rest))[1..] == t[1..] + (Place(name) + rest);
      assert t[0] != Place(name)[0];
      IndexAfterPlain(t[1..], rest, name);
    }
  }

  lemma AfterPlace(t: string, p: string, rest: string)
    ensures var s := t + (Place(p) + rest);
            s[..|t|] == t && From(s, |t| + |p| + 2) == rest
  {
    assert |Place(p)| == |p| + 2;
  }

  lemma CutPlace(t: string, p: string, rest: string)
    requires IsPlain(t)
    ensures Cut(t + (Place(p) + rest), p) == ((if t == "" then [] else [Quoted(t)]) + [Argument(p)], rest)
  {
    IndexAfterPlain(t, rest, p);
    AfterPlace(t, p, rest);
  }

  lemma CutFirst(t: string, p: string, rest: string, names: seq<string>)
    requires IsPlain(t)
    ensures CutAll(t + (Place(p) + rest), [p] + names) ==
            (if t == "" then [] else [Quoted(t)]) + [Argument(p)] + CutAll(rest, names)
  {
    CutPlace(t, p, rest);
    assert ([p] + names)[1..] == names;
  }

  predicate PartsKnown(parts: seq<Part>, args: map<string, string>) {
    forall i :: 0 <= i < |parts| && parts[i].Argument? ==> parts[i].name in args
  }

  /** Cutting at each parameter and concatenating has the same meaning as substituting all at once. */
  lemma {:induction false} CutMeans(t: string, pieces: seq<Piece>, args: map<string, string>)
    requires IsPlain(t) && ValidPieces(pieces) && forall p :: p in NamesOf(pieces) ==> p in args
    ensures var parts := CutAll(t + Text(pieces), NamesOf(pieces));
            PartsKnown(parts, args) && EvalParts(parts, args) == t + Substitute(pieces, args)
    decreases |pieces|
  {
    if pieces == [] {
      assert t + "" == t;
    } else {
      TailIsValid(pieces);
      match pieces[0]
      case Lit(u) =>
        Associates(t, u, Text(pieces[1..]));
        CutMeans(t + u, pieces[1..], args);
        Associates(t, u, Substitute(pieces[1..], args));
      case Param(p) =>
        CutMeans("", pieces[1..], args);
        EmptyPrefix(Text(pieces[1..]));
        EmptyPrefix(Substitute(pieces[1..], args));
        CutParam(t, p, pieces[1..], args);
    }
  }

  lemma Associates(a: string, b: string, c: string)
    ensures (a + b) + c == a + (b + c)
  {
  }

  lemma EmptyPrefix(a: string)
    ensures "" + a == a
  {
  }

  lemma TailIsValid(pieces: seq<Piece>)
    requires pieces != [] && ValidPieces(pieces)
    ensures ValidPieces(pieces[1..])
    ensures forall p :: p in NamesOf(pieces[1..]) ==> p in NamesOf(pieces)
    ensures pieces[0].Lit? ==> NamesOf(pieces) == NamesOf(pieces[1..])
    ensures pieces[0].Param? ==>
              NamesOf(pieces) == [pieces[0].name] + NamesOf(pieces[1..]) && pieces[0].name in NamesOf(pieces)
  {
    assert forall i :: 0 <= i < |pieces[1..]| ==> pieces[1..][i] == pieces[i + 1];
  }

  lemma CutParam(t: string, p: string, rest: seq<Piece>, args: map<string, string>)
    requires IsPlain(t) && p in args
    requires var parts := CutAll(Text(rest), NamesOf(rest)); PartsKnown(parts, args)
    ensures var all := CutAll(t + (Place(p) + Text(rest)), [p] + NamesOf(rest));
            PartsKnown(all, args) &&
            EvalParts(all, args) == t + (args[p] + EvalParts(CutAll(Text(rest), NamesOf(rest)), args))
  {
    CutFirst(t, p, Text(rest), NamesOf(rest));
    EvalAfterCut(t, p, CutAll(Text(rest), NamesOf(rest)), args);
  }

  lemma EvalAfterCut(t: string, p: string, parts: seq<Part>, args: map<string, string>)
    requires PartsKnown(parts, args) && p in args
    ensures var all := (if t == "" then [] else [Quoted(t)]) + [Argument(p)] + parts;
            PartsKnown(all, args) && EvalParts(all, args) == t + (args[p] + EvalParts(parts, args))
  {
    var tail := [Argument(p)] + parts;
    assert tail[1..] == parts;
    if t == "" {
      assert [] + [Argument(p)] + parts == tail;
    } else {
      var all := [Quoted(t)] + [Argument(p)] + parts;
      assert all[1..] == tail;
    }
  }

  lemma {:induction false} ExtractSkips(t: string, rest: string)
    requires IsPlain(t)
    ensures ExtractParams(t + rest) == ExtractParams(rest)
    decreases |t|
  {
    if t == "" {
      assert t + rest == rest;
    } else {
      assert (t + rest)[1..] == t[1..] + rest;
      assert t[0] != '{';
      ExtractSkips(t[1..], rest);
    }
  }

  lemma ExtractPlace(p: string, rest: string)
    requires IsWord(p)
    ensures ExtractParams(Place(p) + rest) == [p] + ExtractParams(rest)
  {
    var s := Place(p) + rest;
    WordRunStops(p, "}" + rest);
    assert s[1..] == p + ("}" + rest);
    assert s[1..|p| + 1] == p && s[|p| + 2..] == rest;
  }

  /** The generator finds the parameters of a template, in order. */
  lemma {:induction false} ExtractFindsNames(pieces: seq<Piece>)
    requires ValidPieces(pieces)
    ensures ExtractParams(Text(pieces)) == NamesOf(pieces)
    decreases |pieces|
  {
    if pieces != [] {
      TailIsValid(pieces);
      ExtractFindsNames(pieces[1..]);
      match pieces[0]
      case Lit(t) => ExtractSkips(t, Text(pieces[1..]));
      case Param(p) => ExtractPlace(p, Text(pieces[1..]));
    }
  }

  const WORD_CHARACTERS: string := CAPITALS + SMALL_LETTERS + DIGITS + "_"

  lemma WordCharIsListed(c: char)
    ensures IsWordChar(c) <==> c in WORD_CHARACTERS
  {
    AlphabetsAreRanges(c);
  }

  /** The name in braces stands at position `i`. */
  ghost predicate IsPlaceAt(path: string, i: nat, name: string) {
    name != "" && (forall k :: 0 <= k < |name| ==> name[k] in WORD_CHARACTERS) &&
    i + |name| + 2 <= |path| && path[i] == '{' && path[i + 1..i + 1 + |name|] == name && path[i + 1 + |name|] == '}'
  }

  ghost predicate Increasing(starts: seq<nat>) {
    forall j, k :: 0 <= j < k < |starts| ==> starts[j] < starts[k]
  }

  /** `starts` are the positions of the names, in order, and no other position has a name in braces. */
  ghost predicate ArePlaces(path: string, starts: seq<nat>, names: seq<string>) {
    && |starts| == |names|
    && (forall k :: 0 <= k < |starts| ==> IsPlaceAt(path, starts[k], names[k]))
    && Increasing(starts)
    && (forall i: nat, name :: IsPlaceAt(path, i, name) ==> i in starts)
  }

  function Shifted(starts: seq<nat>, cut: nat): seq<nat> {
    seq(|starts|, k requires 0 <= k < |starts| => starts[k] + cut)
  }

  lemma PlaceInSuffix(path: string, cut: nat, i: nat, name: string)
    requires cut <= |path|
    ensures IsPlaceAt(path[cut..], i, name) <==> IsPlaceAt(path, i + cut, name)
  {
    if i + |name| + 2 <= |path[cut..]| {
      assert path[cut..][i + 1..i + 1 + |name|] == path[i + cut + 1..i + cut + 1 + |name|];
    }
  }

  /** The places of the rest are places of the path, and every later place of the path is among them. */
  lemma ShiftedPlaces(path: string, cut: nat, starts: seq<nat>, names: seq<string>)
    requires cut <= |path| && ArePlaces(path[cut..], starts, names)
    ensures forall k :: 0 <= k < |starts| ==> IsPlaceAt(path, Shifted(starts, cut)[k], names[k])
    ensures forall i: nat, name :: IsPlaceAt(path, i, name) && cut <= i ==> i in Shifted(starts, cut)
  {
    forall k | 0 <= k < |starts|
      ensures IsPlaceAt(path, Shifted(starts, cut)[k], names[k])
    {
      PlaceInSuffix(path, cut, starts[k], names[k]);
    }
    forall i: nat, name | IsPlaceAt(path, i, name) && cut <= i
      ensures i in Shifted(starts, cut)
    {
      PlaceInSuffix(path, cut, i - cut, name);
      ShiftedMember(starts, cut, i);
    }
  }

  lemma ShiftedMember(starts: seq<nat>, cut: nat, i: nat)
    requires cut <= i && i - cut in starts
    ensures i in Shifted(starts, cut)
  {
    var k :| 0 <= k < |starts| && starts[k] == i - cut;
    assert Shifted(starts, cut)[k] == i;
  }

  lemma ShiftedIncreasing(starts: seq<nat>, cut: nat)
    requires Increasing(starts)
    ensures Increasing(Shifted(starts, cut))
    ensures cut > 0 ==> Increasing([0] + Shifted(starts, cut))
  {
  }

  /** No place starts in the first `cut` characters. */
  lemma PlacesOfSuffix(path: string, cut: nat, starts: seq<nat>, names: seq<string>)
    requires cut <= |path| && ArePlaces(path[cut..], starts, names)
    requires forall i: nat, name :: IsPlaceAt(path, i, name) ==> cut <= i
    ensures ArePlaces(path, Shifted(starts, cut), names)
  {
    ShiftedPlaces(path, cut, starts, names);
    ShiftedIncreasing(starts, cut);
  }

  /** One place starts in the first `cut` characters, at the front. */
  lemma PlacesAfterFirst(path: string, first: string, cut: nat, starts: seq<nat>, names: seq<string>)
    requires cut <= |path| && ArePlaces(path[cut..], starts, names) && cut > 0 && IsPlaceAt(path, 0, first)
    requires forall i: nat, name :: IsPlaceAt(path, i, name) ==> i == 0 || cut <= i
    ensures ArePlaces(path, [0] + Shifted(starts, cut), [first] + names)
  {
    ShiftedPlaces(path, cut, starts, names);
    ShiftedIncreasing(starts, cut);
    var all := [0] + Shifted(starts, cut);
    assert all[0] == 0 && all[1..] == Shifted(starts, cut);
    forall i: nat, name | IsPlaceAt(path, i, name)
      ensures i in all
    {
      if i != 0 { assert i in all[1..]; }
    }
  }

  /** A name in braces at the front is the run of word characters after the brace. */
  lemma PlaceAtFront(path: string, name: string)
    requires path != ""
    ensures IsPlaceAt(path, 0, name) <==>
            var k := WordRun(path[1..]);
            path[0] == '{' && k > 0 && k + 1 < |path| && path[k + 1] == '}' && name == path[1..k + 1]
  {
    var k := WordRun(path[1..]);
    forall c
      ensures IsWordChar(c) <==> c in WORD_CHARACTERS
    {
      WordCharIsListed(c);
    }
    if IsPlaceAt(path, 0, name) {
      WordRunStops(name, path[1 + |name|..]);
      assert name + path[1 + |name|..] == path[1..];
    }
  }

  lemma NoPlaceInsideFirst(path: string, k: nat, i: nat, name: string)
    requires path != "" && k == WordRun(path[1..]) && k + 1 < |path| && path[k + 1] == '}' && 0 < i < k + 2
    ensures !IsPlaceAt(path, i, name)
  {
    if i <= k { assert IsWordChar(path[1..][i - 1]); }
  }

  /** Over every path whatsoever, the pattern finds exactly the non-empty names of letters, digits and underscores that
      stand in braces, in order. */
  lemma {:induction false} ExtractIsExact(path: string) returns (starts: seq<nat>)
    ensures ArePlaces(path, starts, ExtractParams(path))
    decreases |path|
  {
    if path == "" {
      starts := [];
    } else {
      var k := WordRun(path[1..]);
      forall name { PlaceAtFront(path, name); }
      if path[0] == '{' && k > 0 && k + 1 < |path| && path[k + 1] == '}' {
        forall i: nat, name | IsPlaceAt(path, i, name)
          ensures i == 0 || k + 2 <= i
        {
          if 0 < i < k + 2 { NoPlaceInsideFirst(path, k, i, name); }
        }
        starts := ExtractIsExact(path[k + 2..]);
        PlacesAfterFirst(path, path[1..k + 1], k + 2, starts, ExtractParams(path[k + 2..]));
        starts := [0] + Shifted(starts, k + 2);
      } else {
        starts := ExtractIsExact(path[1..]);
        PlacesOfSuffix(path, 1, starts, ExtractParams(path[1..]));
        starts := Shifted(starts, 1);
      }
    }
  }

  /** A template of plain text and parameters whose names are made of letters, digits and underscores. */
  predicate IsTemplate(pieces: seq<Piece>) {
    forall i :: 0 <= i < |pieces| ==>
      match pieces[i]
      case Lit(t) => forall k :: 0 <= k < |t| ==> t[k] !in "{}$%`\"\\"
      case Param(p) => p != "" && forall k :: 0 <= k < |p| ==> p[k] in WORD_CHARACTERS
  }

  lemma TemplatesAreValid(pieces: seq<Piece>)
    ensures IsTemplate(pieces) <==> ValidPieces(pieces)
  {
    forall c
      ensures IsWordChar(c) <==> c in WORD_CHARACTERS
    {
      WordCharIsListed(c);
    }
  }

  /** The generator finds the parameters of every template, in order, and no other names. */
  lemma ExtractFindsParameters(pieces: seq<Piece>)
    requires IsTemplate(pieces)
    ensures ExtractParams(Text(pieces)) == NamesOf(pieces)
  {
    TemplatesAreValid(pieces);
    ExtractFindsNames(pieces);
  }

  /** All four generated forms evaluate to the simultaneous substitution; only the TypeScript form, whose holes
      still show the parameter's name in braces, needs the parameters to be distinct. */
  lemma GeneratedPathsMeanSubstitution(pieces: seq<Piece>, args: map<string, string>)
    requires ValidPieces(pieces) && forall p :: p in NamesOf(pieces) ==> p in args
    ensures var path := Text(pieces); var params := ExtractParams(path); var meaning := Substitute(pieces, args);
            params == NamesOf(pieces) &&
            (Distinct(params) ==> EvalTemplate(ReplaceAll(TypeScript, path, params), args) == meaning) &&
            EvalFormat(ReplaceAll(Go, path, params), "%s", Values(params, args)) == meaning &&
            EvalFormat(ReplaceAll(Rust, path, params), "{}", Values(params, args)) == meaning &&
            PartsKnown(CutAll(path, params), args) && EvalParts(CutAll(path, params), args) == meaning
  {
    ExtractFindsNames(pieces);
    if Distinct(NamesOf(pieces)) { ReplacedPathMeans(TypeScript, pieces, args); }
    ReplacedPathMeans(Go, pieces, args);
    ReplacedPathMeans(Rust, pieces, args);
    CutMeans("", pieces, args);
    EmptyPrefix(Text(pieces));
    EmptyPrefix(Substitute(pieces, args));
  }

  lemma ReplacedPathMeans(lang: Language, pieces: seq<Piece>, args: map<string, string>)
    requires ValidPieces(pieces) && forall p :: p in NamesOf(pieces) ==> p in args
    requires lang == TypeScript ==> Distinct(NamesOf(pieces))
    ensures var code := ReplaceAll(lang, Text(pieces), NamesOf(pieces));
            if lang == TypeScript then EvalTemplate(code, args) == Substitute(pieces, args)
            else EvalFormat(code, Hole(lang, ""), Values(NamesOf(pieces), args)) == Substitute(pieces, args)
  {
    var n := |NamesOf(pieces)|;
    assert NamesOf(pieces)[..n] == NamesOf(pieces);
    ReplaceAllRenders(lang, pieces, n);
    if lang == TypeScript { TemplateMeans(pieces, args); } else { FormatMeans(lang, pieces, args); }
  }

  ghost predicate HasDoubleDollar(s: string) {
    exists i :: 0 <= i < |s| - 1 && s[i] == '$' && s[i + 1] == '$'
  }

  lemma DoubleDollarStays(a: string, b: string)
    requires HasDoubleDollar(b)
    ensures HasDoubleDollar(a + b)
  {
    var i :| 0 <= i < |b| - 1 && b[i] == '$' && b[i + 1] == '$';
    var j := |a| + i;
    assert (a + b)[j] == '$' && (a + b)[j + 1] == '$';
  }

  lemma {:induction false} ReplaceKeepsDoubleDollar(s: string, p: string)
    requires IsWord(p) && HasDoubleDollar(s)
    ensures HasDoubleDollar(ReplaceFirst(s, Place(p), Hole(TypeScript, p)))
    decreases |s|
  {
    var i :| 0 <= i < |s| - 1 && s[i] == '$' && s[i + 1] == '$';
    if Place(p) <= s {
      assert forall j :: 0 <= j < |Place(p)| ==> s[j] == Place(p)[j] != '$';
      var tail := s[|Place(p)|..];
      assert tail[i - |Place(p)|] == '$' && tail[i + 1 - |Place(p)|] == '$';
      DoubleDollarStays(Hole(TypeScript, p), tail);
    } else if i == 0 {
      assert !(Place(p) <= s[1..]);
      var r := ReplaceFirst(s, Place(p), Hole(TypeScript, p));
      assert r[0] == '$' && r[1] == '$';
    } else {
      assert s[1..][i - 1] == '$' && s[1..][i] == '$';
      ReplaceKeepsDoubleDollar(s[1..], p);
      DoubleDollarStays([s[0]], ReplaceFirst(s[1..], Place(p), Hole(TypeScript, p)));
    }
  }

  lemma HitInsideHole(p: string, rest: string)
    requires IsWord(p)
    ensures HasDoubleDollar(ReplaceFirst(Hole(TypeScript, p) + rest, Place(p), Hole(TypeScript, p)))
  {
    var s := Hole(TypeScript, p) + rest;
    assert s[0] == '$' && Place(p)[0] == '{';
    assert s[1..] == Place(p) + rest;
    assert Place(p) <= s[1..];
    var tail := ReplaceFirst(s[1..], Place(p), Hole(TypeScript, p));
    assert tail != "" && tail[0] == '$';
    var r := ReplaceFirst(s, Place(p), Hole(TypeScript, p));
    assert !(Place(p) <= s);
    assert r == [s[0]] + tail;
    assert r[0] == '$' && r[1] == '$';
  }

  lemma DoublesBehind(a: string, rest: string, p: string)
    requires NotBegunIn(a, rest, Place(p)) && HasDoubleDollar(ReplaceFirst(rest, Place(p), Hole(TypeScript, p)))
    ensures HasDoubleDollar(ReplaceFirst(a + rest, Place(p), Hole(TypeScript, p)))
  {
    ReplaceSkips(a, rest, Place(p), Hole(TypeScript, p));
    DoubleDollarStays(a, ReplaceFirst(rest, Place(p), Hole(TypeScript, p)));
  }

  /** Replacing a name again hits the hole that it left the first time. */
  lemma {:induction false} RepeatedNameDoubles(pieces: seq<Piece>, k: nat, p: string)
    requires ValidPieces(pieces) && k <= |NamesOf(pieces)| && p in NamesOf(pieces)[..k] && IsWord(p)
    ensures HasDoubleDollar(ReplaceFirst(Render(TypeScript, pieces, k), Place(p), Hole(TypeScript, p)))
    decreases |pieces|
  {
    TailIsValid(pieces);
    match pieces[0]
    case Lit(t) =>
      var rest := Render(TypeScript, pieces[1..], k);
      RepeatedNameDoubles(pieces[1..], k, p);
      NoBraceNoPlace(t, rest, p);
      DoublesBehind(t, rest, p);
    case Param(q) =>
      var rest := Render(TypeScript, pieces[1..], k - 1);
      if q == p {
        HitInsideHole(p, rest);
      } else {
        LaterName(q, NamesOf(pieces[1..]), k, p);
        RepeatedNameDoubles(pieces[1..], k - 1, p);
        HoleIsNoPlace(TypeScript, q, rest, p);
        DoublesBehind(Hole(TypeScript, q), rest, p);
      }
  }

  lemma LaterName(q: string, names: seq<string>, k: nat, p: string)
    requires k <= |names| + 1 && p in ([q] + names)[..k] && p != q
    ensures k > 0 && p in names[..k - 1]
  {
    assert k > 0 ==> ([q] + names)[..k] == [q] + names[..k - 1];
  }

  /** The first position at which a name occurs again. */
  lemma FirstRepeat(names: seq<string>) returns (k: nat)
    requires !Distinct(names)
    ensures k < |names| && names[k] in names[..k] && DistinctUpTo(names, k)
  {
    k := 0;
    while k < |names| && names[k] !in names[..k]
      invariant k <= |names| && DistinctUpTo(names, k)
    {
      k := k + 1;
    }
  }

  lemma ReplaceOneMore(lang: Language, path: string, params: seq<string>, k: nat)
    requires k < |params|
    ensures ReplaceAll(lang, path, params[..k + 1]) ==
            ReplaceFirst(ReplaceAll(lang, path, params[..k]), Place(params[k]), Hole(lang, params[k]))
  {
    assert params[..k + 1][..k] == params[..k];
  }

  lemma {:induction false} DoubleDollarLasts(path: string, params: seq<string>, k: nat)
    requires k <= |params| && HasDoubleDollar(ReplaceAll(TypeScript, path, params[..k]))
    requires forall i :: 0 <= i < |params| ==> IsWord(params[i])
    ensures HasDoubleDollar(ReplaceAll(TypeScript, path, params))
    decreases |params| - k
  {
    if k == |params| {
      assert params[..k] == params;
    } else {
      ReplaceOneMore(TypeScript, path, params, k);
      ReplaceKeepsDoubleDollar(ReplaceAll(TypeScript, path, params[..k]), params[k]);
      DoubleDollarLasts(path, params, k + 1);
    }
  }

  /** From the first repetition on, the generated text has a double dollar sign. */
  lemma RepetitionDoubles(pieces: seq<Piece>)
    requires ValidPieces(pieces) && !Distinct(NamesOf(pieces))
    ensures HasDoubleDollar(ReplaceAll(TypeScript, Text(pieces), NamesOf(pieces)))
  {
    var path, names := Text(pieces), NamesOf(pieces);
    forall i | 0 <= i < |names| { NamesAreWords(pieces, i); }
    var k := FirstRepeat(names);
    ReplaceAllRenders(TypeScript, pieces, k);
    RepeatedNameDoubles(pieces, k, names[k]);
    ReplaceOneMore(TypeScript, path, names, k);
    DoubleDollarLasts(path, names, k + 1);
  }

  lemma {:induction false} RenderHasNoDoubleDollar(pieces: seq<Piece>, k: nat)
    requires ValidPieces(pieces)
    ensures !HasDoubleDollar(Render(TypeScript, pieces, k))
    decreases |pieces|
  {
    if pieces != [] {
      TailIsValid(pieces);
      match pieces[0]
      case Lit(t) =>
        RenderHasNoDoubleDollar(pieces[1..], k);
        NoDoubleDollar(t, Render(TypeScript, pieces[1..], k));
      case Param(p) =>
        if k > 0 {
          RenderHasNoDoubleDollar(pieces[1..], k - 1);
          NoDoubleDollar(Place(p), Render(TypeScript, pieces[1..], k - 1));
          HoleHasNoDouble(p, Render(TypeScript, pieces[1..], k - 1));
        } else {
          RenderHasNoDoubleDollar(pieces[1..], 0);
          NoDoubleDollar(Place(p), Render(TypeScript, pieces[1..], 0));
        }
    }
  }

  lemma NoDoubleDollar(a: string, b: string)
    requires !HasDoubleDollar(b) && forall i :: 0 <= i < |a| ==> a[i] != '$'
    ensures !HasDoubleDollar(a + b)
  {
    var s := a + b;
    forall i | 0 <= i < |s| - 1
      ensures !(s[i] == '$' && s[i + 1] == '$')
    {
      if i >= |a| { assert s[i] == b[i - |a|] && s[i + 1] == b[i + 1 - |a|]; }
    }
  }

  lemma HoleHasNoDouble(p: string, rest: string)
    requires !HasDoubleDollar(Place(p) + rest)
    ensures !HasDoubleDollar(Hole(TypeScript, p) + rest)
  {
    var s, inner := Hole(TypeScript, p) + rest, Place(p) + rest;
    assert s == "$" + inner;
    forall i | 0 <= i < |s| - 1
      ensures !(s[i] == '$' && s[i + 1] == '$')
    {
      if i > 0 { assert s[i] == inner[i - 1] && s[i + 1] == inner[i]; }
    }
  }

  /** Sequential replacement gives the intended template literal if and only if no parameter is repeated. */
  lemma TypeScriptTextIffDistinct(pieces: seq<Piece>)
    requires ValidPieces(pieces)
    ensures ReplaceAll(TypeScript, Text(pieces), NamesOf(pieces)) == Render(TypeScript, pieces, |NamesOf(pieces)|) <==>
            Distinct(NamesOf(pieces))
    ensures !Distinct(NamesOf(pieces)) ==> HasDoubleDollar(ReplaceAll(TypeScript, Text(pieces), NamesOf(pieces)))
  {
    var n := |NamesOf(pieces)|;
    assert NamesOf(pieces)[..n] == NamesOf(pieces);
    if Distinct(NamesOf(pieces)) {
      ReplaceAllRenders(TypeScript, pieces, n);
    } else {
      RepetitionDoubles(pieces);
      RenderHasNoDoubleDollar(pieces, n);
    }
  }

  lemma DoubleDollarBehind(code: string, k: nat)
    requires HasDoubleDollar(code) && k <= |code|
    requires forall i :: 0 <= i < k && code[i] == '$' ==> i + 1 < |code| && code[i + 1] != '$'
    ensures HasDoubleDollar(code[k..])
  {
    var i :| 0 <= i < |code| - 1 && code[i] == '$' && code[i + 1] == '$';
    assert code[k..][i - k] == '$' && code[k..][i + 1 - k] == '$';
  }

  lemma HoleAhead(code: string, k: nat)
    requires k + 2 < |code| && code[1] == '{' && code[k + 2] == '}' && k == WordRun(code[2..])
    ensures forall i :: 0 < i < k + 3 ==> code[i] != '$'
  {
    assert forall i :: 0 <= i < k ==> code[2..][i] == code[i + 2];
  }

  /** Of two dollar signs in a row the first is no hole, so evaluation leaves it in the path. */
  lemma {:induction false} DoubleDollarShows(code: string, args: map<string, string>)
    requires HasDoubleDollar(code)
    ensures '$' in EvalTemplate(code, args)
    decreases |code|
  {
    if code[0] != '$' {
      DoubleDollarBehind(code, 1);
      DoubleDollarShows(code[1..], args);
    } else if code[1] == '{' {
      var k := WordRun(code[2..]);
      if k + 2 < |code| && code[k + 2] == '}' && code[2..k + 2] in args {
        HoleAhead(code, k);
        DoubleDollarBehind(code, k + 3);
        DoubleDollarShows(code[k + 3..], args);
      }
    }
  }

  predicate NoDollar(s: string) { '$' !in s }

  lemma {:induction false} SubstituteHasNoDollar(pieces: seq<Piece>, args: map<string, string>)
    requires ValidPieces(pieces) && forall p :: p in NamesOf(pieces) ==> p in args && NoDollar(args[p])
    ensures NoDollar(Substitute(pieces, args))
    decreases |pieces|
  {
    if pieces != [] {
      TailIsValid(pieces);
      SubstituteHasNoDollar(pieces[1..], args);
      match pieces[0]
      case Lit(t) => assert IsPlain(t);
      case Param(p) => assert p in NamesOf(pieces);
    }
  }

  /** Exactly when the TypeScript form is right: with arguments that have no dollar sign, the path expression evaluates
      to the simultaneous substitution if and only if no parameter is repeated. */
  lemma TypeScriptRightIffDistinct(pieces: seq<Piece>, args: map<string, string>)
    requires ValidPieces(pieces) && forall p :: p in NamesOf(pieces) ==> p in args && NoDollar(args[p])
    ensures EvalTemplate(ReplaceAll(TypeScript, Text(pieces), NamesOf(pieces)), args) == Substitute(pieces, args) <==>
            Distinct(NamesOf(pieces))
  {
    if Distinct(NamesOf(pieces)) {
      ReplacedPathMeans(TypeScript, pieces, args);
    } else {
      var code := ReplaceAll(TypeScript, Text(pieces), NamesOf(pieces));
      TypeScriptTextIffDistinct(pieces);
      DoubleDollarShows(code, args);
      SubstituteHasNoDollar(pieces, args);
    }
  }

  ghost predicate TypeScriptAlwaysRight(pieces: seq<Piece>) {
    forall args: map<string, string> :: (forall p :: p in NamesOf(pieces) ==> p in args) ==>
      EvalTemplate(ReplaceAll(TypeScript, Text(pieces), NamesOf(pieces)), args) == Substitute(pieces, args)
  }

  /** So the generated function is right for all arguments, whatever they contain, exactly for distinct parameters. */
  lemma TypeScriptAlwaysRightIffDistinct(pieces: seq<Piece>)
    requires ValidPieces(pieces)
    ensures TypeScriptAlwaysRight(pieces) <==> Distinct(NamesOf(pieces))
  {
    if Distinct(NamesOf(pieces)) {
      forall args: map<string, string> | forall p :: p in NamesOf(pieces) ==> p in args
        ensures EvalTemplate(ReplaceAll(TypeScript, Text(pieces), NamesOf(pieces)), args) == Substitute(pieces, args)
      {
        ReplacedPathMeans(TypeScript, pieces, args);
      }
    } else {
      var args := map p | p in NamesOf(pieces) :: "";
      TypeScriptRightIffDistinct(pieces, args);
    }
  }

  lemma {:induction false} NoDollarStays(code: string, args: map<string, string>)
    requires NoDollar(code)
    ensures EvalTemplate(code, args) == code
    decreases |code|
  {
    if code != "" {
      assert code == [code[0]] + code[1..];
      NoDollarStays(code[1..], args);
    }
  }

  lemma HitTwice(p: string, rest: string)
    requires IsWord(p)
    ensures ReplaceFirst(Place(p) + rest, Place(p), Hole(TypeScript, p)) == Hole(TypeScript, p) + rest
    ensures ReplaceFirst(Hole(TypeScript, p) + rest, Place(p), Hole(TypeScript, p)) == "$" + (Hole(TypeScript, p) + rest)
  {
    var s := Place(p) + rest;
    assert s[|Place(p)|..] == rest;
    var h := Hole(TypeScript, p) + rest;
    assert h[0] == '$' && Place(p)[0] == '{' && h[1..] == s;
    assert !(Place(p) <= h);
  }

  lemma TextOfTwo(p: string, t: string)
    ensures Text([Param(p), Lit(t), Param(p)]) == Place(p) + (t + Place(p))
    ensures NamesOf([Param(p), Lit(t), Param(p)]) == [p, p]
  {
    var pieces := [Param(p), Lit(t), Param(p)];
    assert pieces[1..] == [Lit(t), Param(p)] && pieces[1..][1..] == [Param(p)] && [Param(p)][1..] == [];
    assert Text([Param(p)]) == Place(p) + "" == Place(p);
    assert NamesOf([Param(p)]) == [p] && NamesOf(pieces[1..]) == [p];
  }

  lemma ReplacedTwice(path: string, p: string)
    ensures ReplaceAll(TypeScript, path, [p, p]) ==
            ReplaceFirst(ReplaceFirst(path, Place(p), Hole(TypeScript, p)), Place(p), Hole(TypeScript, p))
  {
    assert [p, p][..1] == [p] && [p][..0] == [];
    assert ReplaceAll(TypeScript, path, []) == path;
  }

  lemma RepeatedCode(p: string, t: string)
    requires IsWord(p)
    ensures NamesOf([Param(p), Lit(t), Param(p)]) == [p, p]
    ensures ReplaceAll(TypeScript, Text([Param(p), Lit(t), Param(p)]), [p, p]) ==
            "$" + (Hole(TypeScript, p) + (t + Place(p)))
  {
    TextOfTwo(p, t);
    ReplacedTwice(Place(p) + (t + Place(p)), p);
    HitTwice(p, t + Place(p));
  }

  lemma BrokenCodeMeans(p: string, t: string, args: map<string, string>)
    requires IsWord(p) && IsPlain(t) && p in args
    ensures EvalTemplate("$" + (Hole(TypeScript, p) + (t + Place(p))), args) == "$" + (args[p] + (t + Place(p)))
  {
    var rest := t + Place(p);
    StrayDollar(Hole(TypeScript, p) + rest, args);
    TemplateFillsHole(p, rest, args);
    TemplateKeepsPlain(t, Place(p), args);
    PlaceHasNoDollar(p);
    NoDollarStays(Place(p), args);
  }

  lemma PlaceHasNoDollar(p: string)
    requires IsWord(p)
    ensures NoDollar(Place(p))
  {
    assert forall i :: 0 <= i < |p| ==> p[i] != '$';
  }

  /** What goes wrong with a repeated parameter: the second replacement lands inside the first hole, so the first place
      gets a stray dollar sign and the second is never filled. This is about the path expression alone: the generated
      function also has two arguments of one name, which a TypeScript compiler rejects. */
  lemma RepeatedParameterBreaks(p: string, t: string, args: map<string, string>)
    requires IsWord(p) && IsPlain(t) && p in args
    ensures var path := Text([Param(p), Lit(t), Param(p)]);
            ExtractParams(path) == [p, p] &&
            EvalTemplate(ReplaceAll(TypeScript, path, [p, p]), args) == "$" + (args[p] + (t + Place(p)))
  {
    RepeatedCode(p, t);
    ExtractFindsNames([Param(p), Lit(t), Param(p)]);
    BrokenCodeMeans(p, t, args);
  }

  lemma StrayDollar(code: string, args: map<string, string>)
    requires code != "" && code[0] == '$'
    ensures EvalTemplate("$" + code, args) == "$" + EvalTemplate(code, args)
  {
    assert ("$" + code)[1..] == code && ("$" + code)[1] == '$';
  }
}
