/**
 * The layer extractor of src/layout.ts: a scan of keymap text for blocks of
 * the form `NAME { bindings = < &kp Q &mt LSFT S ... >; };`, each of which
 * becomes one named layer holding its binding tokens in order.
 *
 * The source drives the global regular expression
 *   ([A-Z_]+) {\s*bindings = <\s*([^>]+)>;\s*};
 * with `exec` until it returns null. Here that one pattern is an explicit
 * matcher (MatchAt); the `exec` loop around it is RegexScan's Exec and Scan.
 */
module Layout {
  import opened Wrappers
  import opened Strings
  import opened RegexScan

  /** One layer: its block name and its binding tokens in source order. */
  datatype Layer = Layer(name: string, keys: seq<string>)

  /** The two capture groups of the pattern: the layer name and the bindings blob. */
  datatype Groups = Groups(name: string, blob: string)

  /** The character class `[A-Z_]`. */
  predicate IsNameChar(c: char) {
    'A' <= c <= 'Z' || c == '_'
  }

  /** The character class `[^>]`. */
  predicate IsBlobChar(c: char) {
    c != '>'
  }

  /** A layer name as the first group captures it. */
  predicate IsName(s: string) {
    s != [] && forall i :: 0 <= i < |s| ==> IsNameChar(s[i])
  }

  /**
   * A binding token as the extractor rebuilds it: the `&` sigil, then text
   * with no other `&` that neither starts nor ends with white space.
   */
  predicate IsKey(k: string) {
    |k| >= 2 && k[0] == '&' && '&' !in k[1..] && !IsSpace(k[1]) && !IsSpace(k[|k| - 1])
  }

  /** Does the literal `lit` occur in `s` at index `i`? */
  predicate At(s: string, i: nat, lit: string) {
    i + |lit| <= |s| && forall k :: 0 <= k < |lit| ==> s[i + k] == lit[k]
  }

  /** The index where a greedy run of characters satisfying `P`, started at `i`, stops. */
  function SkipWhile(s: string, i: nat, P: char -> bool): (j: nat)
    requires i <= |s|
    ensures i <= j <= |s|
    ensures j == |s| || !P(s[j])
    decreases |s| - i
  {
    if i == |s| || !P(s[i]) then i else SkipWhile(s, i + 1, P)
  }

  /** Every character the run passes over satisfies `P`. */
  lemma {:induction false} SkipWhileRun(s: string, i: nat, P: char -> bool)
    requires i <= |s|
    ensures forall k :: i <= k < SkipWhile(s, i, P) ==> P(s[k])
    decreases |s| - i
  {
    if i < |s| && P(s[i]) {
      SkipWhileRun(s, i + 1, P);
    }
  }

  /** A run is determined by where it starts: any index with the run's two properties is its end. */
  lemma SkipWhileIs(s: string, i: nat, j: nat, P: char -> bool)
    requires i <= j <= |s|
    requires forall k :: i <= k < j ==> P(s[k])
    requires j == |s| || !P(s[j])
    ensures SkipWhile(s, i, P) == j
  {
    SkipWhileRun(s, i, P);
  }

  /**
   * What the second group captures of the text `inner` between `<` and the
   * `>`: the `\s*` in front of it takes all leading white space, but gives
   * back the last character when nothing else is left for `[^>]+`.
   */
  function Captured(inner: string): (r: string)
    ensures |r| <= |inner| && (inner != [] ==> r != [])
  {
    if |inner| > 1 && IsSpace(inner[0]) then Captured(inner[1..]) else inner
  }

  /** The blob group is a non-empty end of `inner`, and only white space stands in front of it. */
  lemma {:induction false} CapturedSuffix(inner: string)
    requires inner != []
    ensures var r := Captured(inner);
            && r != [] && |r| <= |inner| && r == inner[|inner| - |r|..]
            && AllSpace(inner[..|inner| - |r|])
  {
    if |inner| > 1 && IsSpace(inner[0]) {
      CapturedSuffix(inner[1..]);
      var r := Captured(inner[1..]);
      assert inner[..|inner| - |r|] == [inner[0]] + inner[1..][..|inner| - 1 - |r|];
    }
  }

  /** The first group is a name. */
  lemma NameGroup(text: string, p: nat)
    requires p <= |text| && p < SkipWhile(text, p, IsNameChar)
    ensures IsName(text[p..SkipWhile(text, p, IsNameChar)])
  {
    SkipWhileRun(text, p, IsNameChar);
  }

  /** The text between `<` and the first `>` after it holds no `>`. */
  lemma InnerFree(text: string, b: nat)
    requires b <= |text|
    ensures '>' !in text[b..SkipWhile(text, b, IsBlobChar)]
  {
    var g := SkipWhile(text, b, IsBlobChar);
    SkipWhileRun(text, b, IsBlobChar);
    assert forall k :: 0 <= k < g - b ==> text[b..g][k] == text[b + k];
  }

  /** The blob group holds no `>` when the text it is taken from holds none. */
  lemma CapturedFree(inner: string)
    requires inner != [] && '>' !in inner
    ensures '>' !in Captured(inner)
  {
    var r := Captured(inner);
    var m := |inner| - |r|;
    CapturedSuffix(inner);
    forall k | 0 <= k < |r|
      ensures r[k] != '>'
    {
      assert r[k] == inner[m + k];
    }
  }

  /**
   * The pattern tried at index `p` alone, as the backtracking engine resolves
   * it, one part after another: the name is the longest `[A-Z_]` run from
   * `p`, each `\s*` takes all the white space in front of it, and the blob is
   * taken from the text between `<` and the first `>` after it.
   */
  function MatchAt(text: string, p: nat): (r: Option<Match<Groups>>)
  {
    if p > |text| then None else AfterName(text, p, SkipWhile(text, p, IsNameChar))
  }

  /** The rest of the pattern once the name run from `p` stops at `n`: it must not be empty, and ` {` follows. */
  function AfterName(text: string, p: nat, n: nat): (r: Option<Match<Groups>>)
    requires p <= n <= |text|
  {
    if n == p || !At(text, n, " {") then None
    else AfterOpen(text, p, n, SkipWhile(text, n + 2, IsSpace))
  }

  /** The rest of the pattern once the white space after `{` stops at `a`: `bindings = <` follows. */
  function AfterOpen(text: string, p: nat, n: nat, a: nat): (r: Option<Match<Groups>>)
    requires p < n <= a <= |text|
  {
    if !At(text, a, "bindings = <") then None
    else AfterInner(text, p, n, a + 12, SkipWhile(text, a + 12, IsBlobChar))
  }

  /** The rest of the pattern once the `[^>]` run from `b` stops at `g`: it must not be empty, and `>;` follows. */
  function AfterInner(text: string, p: nat, n: nat, b: nat, g: nat): (r: Option<Match<Groups>>)
    requires p < n <= b <= g <= |text|
  {
    if g == b || !At(text, g, ">;") then None
    else AfterClose(text, p, n, b, g, SkipWhile(text, g + 2, IsSpace))
  }

  /** The rest of the pattern once the white space after `>;` stops at `e`: `};` ends the match. */
  function AfterClose(text: string, p: nat, n: nat, b: nat, g: nat, e: nat): (r: Option<Match<Groups>>)
    requires p < n <= b < g <= e <= |text|
  {
    if !At(text, e, "};") then None
    else Some(Match(p, Groups(text[p..n], Captured(text[b..g])), e + 2))
  }

  /** MatchAt reports only matches that start where it is tried and end inside the text. */
  lemma MatchAtAnchored()
    ensures Anchored(MatchAt)
  {
    forall text: string, p: nat | MatchAt(text, p).Some?
      ensures MatchAt(text, p).value.start == p && p < MatchAt(text, p).value.end <= |text|
    {
      MatchBounds(text, p);
    }
  }

  /**
   * The keys of one blob: split it on `&`, trim each piece, drop the blank
   * ones and put `&` back in front of the rest.
   */
  function Keys(blob: string): (keys: seq<string>)
    ensures forall i :: 0 <= i < |keys| ==> IsKey(keys[i])
  {
    Tokens(Split(blob, '&'))
  }

  /** The trim / drop-blank / prefix steps of Keys, over the pieces of a split. */
  function Tokens(pieces: seq<string>): (keys: seq<string>)
    requires forall i :: 0 <= i < |pieces| ==> '&' !in pieces[i]
    ensures forall i :: 0 <= i < |keys| ==> IsKey(keys[i])
    ensures |keys| <= |pieces|
  {
    if pieces == [] then []
    else
      var t := Trim(pieces[0]);
      (if t == [] then [] else (KeyOfPiece(pieces[0]); ["&" + t])) + Tokens(pieces[1..])
  }

  /** A piece without `&` that does not trim to nothing gives a key. */
  lemma KeyOfPiece(x: string)
    requires '&' !in x && Trim(x) != []
    ensures IsKey("&" + Trim(x))
  {
    var t := Trim(x);
    TrimSlice(x);
    TrimEnds(x);
    assert '&' !in t by {
      var i := |x| - |TrimStart(x)|;
      assert forall k :: 0 <= k < |t| ==> t[k] == x[i + k];
    }
    assert ("&" + t)[1..] == t;
  }

  /** The layer one match yields. */
  function LayerOf(m: Match<Groups>): Layer {
    Layer(m.groups.name, Keys(m.groups.blob))
  }

  /** The layers a sequence of matches yields, one each, in the same order. */
  function LayersOf(ms: seq<Match<Groups>>): seq<Layer> {
    seq(|ms|, i requires 0 <= i < |ms| => LayerOf(ms[i]))
  }

  /** Every layer built from matches of the pattern has a well-formed name and well-formed keys. */
  lemma LayersOfMatches(text: string, ms: seq<Match<Groups>>)
    requires forall i :: 0 <= i < |ms| ==> MatchAt(text, ms[i].start) == Some(ms[i])
    ensures forall i :: 0 <= i < |ms| ==> IsName(LayersOf(ms)[i].name)
  {
    forall i | 0 <= i < |ms|
      ensures IsName(LayersOf(ms)[i].name)
    {
      MatchGroups(text, ms[i].start);
    }
  }

  /**
   * What the LayerMap constructor builds from `text`: one layer per match of
   * the left-to-right scan, in the order of the matches.
   */
  function Extract(text: string): (layers: seq<Layer>) {
    MatchAtAnchored();
    LayersOf(Scan(MatchAt, text, 0))
  }

  /** Every layer the extractor yields has a well-formed name, and every key it keeps starts with `&`. */
  lemma ExtractShapes(text: string)
    ensures var layers := Extract(text);
            && (forall i :: 0 <= i < |layers| ==> IsName(layers[i].name))
            && (forall i, j :: 0 <= i < |layers| && 0 <= j < |layers[i].keys| ==> IsKey(layers[i].keys[j]))
  {
    MatchAtAnchored();
    ScanSpec(MatchAt, text, 0);
    LayersOfMatches(text, Scan(MatchAt, text, 0));
  }

  /** The text of a key past its `&`: no `&` of its own, not empty, no white space at either end. */
  predicate IsKeyText(x: string) {
    x != [] && '&' !in x && !IsSpace(x[0]) && !IsSpace(x[|x| - 1])
  }

  /**
   * The text of a blob that holds one key per entry of `xs` (each given by
   * its text past `&`), the i-th followed by the white-space run `gaps[i]`.
   */
  function Render(xs: seq<string>, gaps: seq<string>): string
    requires |gaps| == |xs|
  {
    if xs == [] then "" else "&" + xs[0] + gaps[0] + Render(xs[1..], gaps[1..])
  }

  /** The keys whose texts past `&` are `xs`. */
  function Sigiled(xs: seq<string>): (keys: seq<string>)
    ensures |keys| == |xs|
  {
    seq(|xs|, i requires 0 <= i < |xs| => "&" + xs[i])
  }

  /** The `&`-pieces of rendered keys after the first: each key's text past `&`, with its gap. */
  function Pieces(xs: seq<string>, gaps: seq<string>): (pieces: seq<string>)
    requires |gaps| == |xs|
    ensures |pieces| == |xs|
  {
    seq(|xs|, i requires 0 <= i < |xs| => xs[i] + gaps[i])
  }

  lemma PiecesCons(xs: seq<string>, gaps: seq<string>)
    requires |gaps| == |xs| && xs != []
    ensures Pieces(xs, gaps) == [xs[0] + gaps[0]] + Pieces(xs[1..], gaps[1..])
  {
  }

  lemma SigiledCons(xs: seq<string>)
    requires xs != []
    ensures Sigiled(xs) == ["&" + xs[0]] + Sigiled(xs[1..])
  {
  }

  /** Rendering after a head piece is joining the pieces on `&`. */
  lemma {:induction false} RenderJoin(head: string, xs: seq<string>, gaps: seq<string>)
    requires |gaps| == |xs|
    ensures head + Render(xs, gaps) == Join([head] + Pieces(xs, gaps), '&')
    decreases |xs|
  {
    if xs == [] {
      assert head + "" == head;
    } else {
      var p := xs[0] + gaps[0];
      var rest := Pieces(xs[1..], gaps[1..]);
      RenderJoin(p, xs[1..], gaps[1..]);
      PiecesCons(xs, gaps);
      assert ([head] + ([p] + rest))[1..] == [p] + rest;
      assert head + Render(xs, gaps) == head + ['&'] + (p + Render(xs[1..], gaps[1..]));
    }
  }

  /** Tokens takes its pieces one at a time. */
  lemma TokensCons(p: string, rest: seq<string>)
    requires '&' !in p
    requires forall i :: 0 <= i < |rest| ==> '&' !in rest[i]
    ensures Tokens([p] + rest) == (if Trim(p) == [] then [] else ["&" + Trim(p)]) + Tokens(rest)
  {
    assert ([p] + rest)[1..] == rest;
  }

  /** A key text followed by white space is one key. */
  lemma TokenOfPiece(x: string, g: string)
    requires IsKeyText(x) && AllSpace(g)
    ensures '&' !in x + g
    ensures Trim(x + g) == x
  {
    assert forall k :: 0 <= k < |g| ==> IsSpace(g[k]);
    TrimTrailingSpace(x, g);
  }

  /** No piece of rendered keys holds `&`. */
  lemma PiecesFree(xs: seq<string>, gaps: seq<string>)
    requires |gaps| == |xs|
    requires forall i :: 0 <= i < |xs| ==> IsKeyText(xs[i])
    requires forall i :: 0 <= i < |gaps| ==> AllSpace(gaps[i])
    ensures forall i :: 0 <= i < |xs| ==> '&' !in Pieces(xs, gaps)[i]
  {
    forall i | 0 <= i < |xs|
      ensures '&' !in Pieces(xs, gaps)[i]
    {
      TokenOfPiece(xs[i], gaps[i]);
    }
  }

  /** Rebuilding keys from the pieces of rendered keys gives back the keys. */
  lemma {:induction false} TokensOfPieces(xs: seq<string>, gaps: seq<string>)
    requires |gaps| == |xs|
    requires forall i :: 0 <= i < |xs| ==> IsKeyText(xs[i])
    requires forall i :: 0 <= i < |gaps| ==> AllSpace(gaps[i])
    requires forall i :: 0 <= i < |xs| ==> '&' !in Pieces(xs, gaps)[i]
    ensures Tokens(Pieces(xs, gaps)) == Sigiled(xs)
    decreases |xs|
  {
    if xs != [] {
      PiecesFree(xs[1..], gaps[1..]);
      var rest := Pieces(xs[1..], gaps[1..]);
      TokensOfPieces(xs[1..], gaps[1..]);
      TokenOfPiece(xs[0], gaps[0]);
      PiecesCons(xs, gaps);
      TokensCons(xs[0] + gaps[0], rest);
      SigiledCons(xs);
    }
  }

  /**
   * Keys inverts rendering: white space, then keys each followed by white
   * space, gives back exactly those keys, in order.
   */
  lemma KeysOfRender(lead: string, xs: seq<string>, gaps: seq<string>)
    requires AllSpace(lead) && |gaps| == |xs|
    requires forall i :: 0 <= i < |xs| ==> IsKeyText(xs[i])
    requires forall i :: 0 <= i < |gaps| ==> AllSpace(gaps[i])
    ensures Keys(lead + Render(xs, gaps)) == Sigiled(xs)
  {
    var rest := Pieces(xs, gaps);
    var pieces := [lead] + rest;
    RenderJoin(lead, xs, gaps);
    PiecesFree(xs, gaps);
    TokensOfPieces(xs, gaps);
    assert '&' !in lead by {
      assert forall k :: 0 <= k < |lead| ==> IsSpace(lead[k]);
    }
    assert forall i :: 0 <= i < |pieces| ==> '&' !in pieces[i] by {
      forall i | 0 <= i < |pieces|
        ensures '&' !in pieces[i]
      {
        if i > 0 {
          assert pieces[i] == rest[i - 1];
        }
      }
    }
    SplitJoin(pieces, '&');
    TokensCons(lead, rest);
    TrimEmpty(lead);
    assert [] + Sigiled(xs) == Sigiled(xs);
  }

  /** White space in front of a blob does not change its keys. */
  lemma KeysSpacePrefix(ws: string, blob: string)
    requires AllSpace(ws)
    ensures Keys(ws + blob) == Keys(blob)
  {
    assert '&' !in ws by {
      assert forall k :: 0 <= k < |ws| ==> IsSpace(ws[k]);
    }
    SplitPrefix(ws, blob, '&');
    var pieces := Split(blob, '&');
    TrimSpacePrefix(ws, pieces[0]);
    var spaced := Split(ws + blob, '&');
    assert spaced[0] == ws + pieces[0];
    assert spaced[1..] == pieces[1..];
  }

  /** A blob of white space alone has no keys. */
  lemma KeysAllSpace(ws: string)
    requires AllSpace(ws)
    ensures Keys(ws) == []
  {
    KeysSpacePrefix(ws, "");
    assert ws + "" == ws;
  }

  /** White space in front of a blob that does not start with white space is all the `\s*` takes. */
  lemma {:induction false} CapturedSpacePrefix(w2: string, blob: string)
    requires AllSpace(w2) && blob != [] && !IsSpace(blob[0])
    ensures Captured(w2 + blob) == blob
    decreases |w2|
  {
    if w2 != [] {
      assert (w2 + blob)[0] == w2[0];
      assert (w2 + blob)[1..] == w2[1..] + blob;
      CapturedSpacePrefix(w2[1..], blob);
    } else {
      assert w2 + blob == blob;
    }
  }

  /** What the blob group captures has the keys of the blob it was written as. */
  lemma CapturedKeys(w2: string, blob: string)
    requires AllSpace(w2) && blob != []
    ensures Keys(Captured(w2 + blob)) == Keys(blob)
    ensures !IsSpace(blob[0]) ==> Captured(w2 + blob) == blob
  {
    var inner := w2 + blob;
    var r := Captured(inner);
    var m := |inner| - |r|;
    CapturedSuffix(inner);
    assert inner == inner[..m] + r;
    KeysSpacePrefix(inner[..m], r);
    KeysSpacePrefix(w2, blob);
    if !IsSpace(blob[0]) {
      CapturedSpacePrefix(w2, blob);
    }
  }

  lemma AtSplit(s: string, i: nat, x: string, y: string)
    requires At(s, i, x + y)
    ensures At(s, i, x) && At(s, i + |x|, y)
  {
    forall k | 0 <= k < |x|
      ensures s[i + k] == x[k]
    {
      assert (x + y)[k] == x[k];
    }
    forall k | 0 <= k < |y|
      ensures s[i + |x| + k] == y[k]
    {
      assert (x + y)[|x| + k] == y[k];
    }
  }

  lemma AtJoin(s: string, i: nat, x: string, y: string)
    requires At(s, i, x) && At(s, i + |x|, y)
    ensures At(s, i, x + y)
  {
    forall k | 0 <= k < |x + y|
      ensures s[i + k] == (x + y)[k]
    {
      if k >= |x| {
        assert s[i + |x| + (k - |x|)] == y[k - |x|];
      }
    }
  }

  lemma AtChar(s: string, i: nat, x: string, k: nat)
    requires At(s, i, x) && k < |x|
    ensures s[i + k] == x[k]
  {
  }

  lemma AtRun(s: string, i: nat, w: string, P: char -> bool)
    requires At(s, i, w)
    requires forall k :: 0 <= k < |w| ==> P(w[k])
    ensures forall k :: i <= k < i + |w| ==> P(s[k])
  {
    forall k | i <= k < i + |w|
      ensures P(s[k])
    {
      AtChar(s, i, w, k - i);
    }
  }

  /**
   * One block as it is written in keymap text: the text that separates it
   * from what comes before, the layer name, the white space the pattern's three `\s*` take, and
   * the bindings blob.
   */
  datatype Section = Section(lead: string, name: string, w1: string, w2: string, blob: string, w3: string)

  /** The block itself, from its name to its closing `};`. */
  function Frame(b: Section): string {
    b.name + " {" + b.w1 + "bindings = <" + b.w2 + b.blob + ">;" + b.w3 + "};"
  }

  /** The block with the separating text in front of it. */
  function Text(b: Section): string {
    b.lead + Frame(b)
  }

  /** A space followed by `{`, which every match needs right after its name, starts at index `k` of `s`. */
  predicate OpensAt(s: string, k: nat) {
    k + 1 < |s| && s[k] == ' ' && s[k + 1] == '{'
  }

  /** `s` never writes a space followed by `{`. */
  predicate NoOpen(s: string) {
    forall k: nat :: k < |s| ==> !OpensAt(s, k)
  }

  /**
   * Text that may stand in front of a block without starting a match of its
   * own: blank lines, `//` and `/* */` comment lines, anything that never
   * writes ` {` and does not end in a name character that would run into
   * the block's name.
   */
  predicate Separator(s: string) {
    NoOpen(s) && (s == [] || !IsNameChar(s[|s| - 1]))
  }

  /** White space separates blocks, and opens none. */
  lemma SpaceSeparates(s: string)
    requires AllSpace(s)
    ensures Separator(s) && NoOpen(s)
  {
    assert s != [] ==> IsSpace(s[|s| - 1]);
    forall k: nat
      ensures !OpensAt(s, k)
    {
      if k + 1 < |s| {
        assert IsSpace(s[k + 1]);
      }
    }
  }

  /** A `//` comment line separates blocks whenever its text writes no space followed by `{`. */
  lemma CommentSeparates(c: string)
    requires NoOpen(c)
    ensures Separator("//" + c + "\n") && NoOpen("//" + c + "\n")
  {
    var s := "//" + c + "\n";
    forall k: nat
      ensures !OpensAt(s, k)
    {
      if 2 <= k && k + 1 < |s| - 1 {
        assert s[k] == c[k - 2] && s[k + 1] == c[k - 1];
        assert !OpensAt(c, k - 2);
      } else if k < 2 {
        assert s[k] == '/';
      } else if k + 1 < |s| {
        assert s[k + 1] == '\n';
      }
    }
  }

  /** A `/* */` comment line separates blocks whenever its text writes no space followed by `{`. */
  lemma BlockCommentSeparates(c: string)
    requires NoOpen(c)
    ensures Separator("/*" + c + "*/\n") && NoOpen("/*" + c + "*/\n")
  {
    var s := "/*" + c + "*/\n";
    forall k: nat
      ensures !OpensAt(s, k)
    {
      if 2 <= k && k + 1 < |s| - 3 {
        assert s[k] == c[k - 2] && s[k + 1] == c[k - 1];
        assert !OpensAt(c, k - 2);
      } else if k < 2 {
        assert s[k] == "/*"[k];
      } else if k + 1 < |s| {
        assert s[k + 1] in "*/\n";
      }
    }
  }

  /** The parts of the block are what the pattern's parts accept, and its separator stays out of the way. */
  predicate WellFormed(b: Section) {
    Separator(b.lead) && IsName(b.name) && AllSpace(b.w1) && AllSpace(b.w2)
    && b.blob != [] && '>' !in b.blob && AllSpace(b.w3)
  }

  /** The text of the block's head, from its name to the `<`. */
  function Head(b: Section): string {
    b.name + " {" + b.w1 + "bindings = <"
  }

  /** The text of the block's tail, from the `>` to its closing `};`. */
  function Tail(b: Section): string {
    ">;" + b.w3 + "};"
  }

  lemma FrameParts(b: Section)
    ensures Frame(b) == Head(b) + (b.w2 + b.blob) + Tail(b)
    ensures |Frame(b)| == |Head(b)| + |b.w2| + |b.blob| + |Tail(b)|
  {
  }

  /** Where the parts of a block's head written at `p` sit in the text. */
  lemma HeadAt(text: string, p: nat, b: Section)
    requires At(text, p, Head(b))
    ensures At(text, p, b.name)
    ensures At(text, p + |b.name|, " {")
    ensures At(text, p + |b.name| + 2, b.w1)
    ensures At(text, p + |b.name| + 2 + |b.w1|, "bindings = <")
  {
    AtSplit(text, p, b.name + " {" + b.w1, "bindings = <");
    AtSplit(text, p, b.name + " {", b.w1);
    AtSplit(text, p, b.name, " {");
  }

  /** A head is written wherever its parts are. */
  lemma HeadFrom(text: string, p: nat, b: Section)
    requires At(text, p, b.name)
    requires At(text, p + |b.name|, " {")
    requires At(text, p + |b.name| + 2, b.w1)
    requires At(text, p + |b.name| + 2 + |b.w1|, "bindings = <")
    ensures At(text, p, Head(b))
  {
    AtJoin(text, p, b.name, " {");
    AtJoin(text, p, b.name + " {", b.w1);
    AtJoin(text, p, b.name + " {" + b.w1, "bindings = <");
  }

  /** Where the parts of a block's tail written at `g` sit in the text. */
  lemma TailAt(text: string, g: nat, b: Section)
    requires At(text, g, Tail(b))
    ensures At(text, g, ">;") && At(text, g + 2, b.w3) && At(text, g + 2 + |b.w3|, "};")
  {
    AtSplit(text, g, ">;" + b.w3, "};");
    AtSplit(text, g, ">;", b.w3);
  }

  /** A tail is written wherever its parts are. */
  lemma TailFrom(text: string, g: nat, b: Section)
    requires At(text, g, ">;") && At(text, g + 2, b.w3) && At(text, g + 2 + |b.w3|, "};")
    ensures At(text, g, Tail(b))
  {
    AtJoin(text, g, ">;", b.w3);
    AtJoin(text, g, ">;" + b.w3, "};");
  }

  /** A block written at `p`: its head, the text between `<` and `>`, and its tail. */
  lemma FrameAt(text: string, p: nat, b: Section)
    requires At(text, p, Frame(b))
    ensures At(text, p, Head(b))
    ensures At(text, p + |Head(b)|, b.w2 + b.blob)
    ensures At(text, p + |Head(b)| + |b.w2| + |b.blob|, Tail(b))
  {
    FrameParts(b);
    AtSplit(text, p, Head(b) + (b.w2 + b.blob), Tail(b));
    AtSplit(text, p, Head(b), b.w2 + b.blob);
  }

  lemma FrameFrom(text: string, p: nat, b: Section)
    requires At(text, p, Head(b))
    requires At(text, p + |Head(b)|, b.w2 + b.blob)
    requires At(text, p + |Head(b)| + |b.w2| + |b.blob|, Tail(b))
    ensures At(text, p, Frame(b))
  {
    FrameParts(b);
    AtJoin(text, p, Head(b), b.w2 + b.blob);
    AtJoin(text, p, Head(b) + (b.w2 + b.blob), Tail(b));
  }

  /** A slice of the text where a string is written is that string. */
  lemma SliceAt(text: string, i: nat, x: string)
    requires At(text, i, x)
    ensures text[i..i + |x|] == x
  {
  }

  /** The name run stops where the name written at `p` ends. */
  lemma NameRun(text: string, p: nat, name: string)
    requires IsName(name) && At(text, p, name) && At(text, p + |name|, " {")
    ensures SkipWhile(text, p, IsNameChar) == p + |name|
  {
    AtRun(text, p, name, IsNameChar);
    AtChar(text, p + |name|, " {", 0);
    SkipWhileIs(text, p, p + |name|, IsNameChar);
  }

  /** A white-space run stops where the white space written at `i` ends, before a literal. */
  lemma SpaceRun(text: string, i: nat, w: string, lit: string)
    requires AllSpace(w) && At(text, i, w) && At(text, i + |w|, lit)
    requires lit != [] && !IsSpace(lit[0])
    ensures SkipWhile(text, i, IsSpace) == i + |w|
  {
    AtRun(text, i, w, IsSpace);
    AtChar(text, i + |w|, lit, 0);
    SkipWhileIs(text, i, i + |w|, IsSpace);
  }

  /** The `[^>]` run stops at the `>` written after the text between `<` and `>`. */
  lemma InnerRun(text: string, i: nat, inner: string)
    requires '>' !in inner && At(text, i, inner) && At(text, i + |inner|, ">;")
    ensures SkipWhile(text, i, IsBlobChar) == i + |inner|
  {
    AtRun(text, i, inner, IsBlobChar);
    AtChar(text, i + |inner|, ">;", 0);
    SkipWhileIs(text, i, i + |inner|, IsBlobChar);
  }

  /** White space followed by a blob without `>` holds no `>`. */
  lemma InnerOfSection(w2: string, blob: string)
    requires AllSpace(w2) && '>' !in blob
    ensures '>' !in w2 + blob
  {
    assert forall k :: 0 <= k < |w2| ==> IsSpace(w2[k]);
  }

  /** The last two parts of the pattern match where `>;`, white space and `};` are written. */
  lemma InnerStage(text: string, p: nat, n: nat, b: nat, g: nat, e: nat)
    requires p < n <= b < g <= |text| && At(text, g, ">;")
    requires e == SkipWhile(text, g + 2, IsSpace) && At(text, e, "};")
    ensures AfterInner(text, p, n, b, g) == Some(Match(p, Groups(text[p..n], Captured(text[b..g])), e + 2))
  {
  }

  lemma OpenStage(text: string, p: nat, n: nat, a: nat, r: Option<Match<Groups>>)
    requires p < n <= a <= |text| && At(text, a, "bindings = <")
    requires AfterInner(text, p, n, a + 12, SkipWhile(text, a + 12, IsBlobChar)) == r
    ensures AfterOpen(text, p, n, a) == r
  {
  }

  lemma NameStage(text: string, p: nat, n: nat, r: Option<Match<Groups>>)
    requires p < n <= |text| && At(text, n, " {")
    requires AfterOpen(text, p, n, SkipWhile(text, n + 2, IsSpace)) == r
    ensures AfterName(text, p, n) == r
  {
  }

  /** MatchAt accepts what its runs and literals accept, and reports the groups between them. */
  lemma MatchOfRuns(text: string, p: nat, n: nat, a: nat, g: nat, e: nat)
    requires p <= |text|
    requires n == SkipWhile(text, p, IsNameChar) && p < n && At(text, n, " {")
    requires a == SkipWhile(text, n + 2, IsSpace) && At(text, a, "bindings = <")
    requires g == SkipWhile(text, a + 12, IsBlobChar) && a + 12 < g && At(text, g, ">;")
    requires e == SkipWhile(text, g + 2, IsSpace) && At(text, e, "};")
    ensures MatchAt(text, p) == Some(Match(p, Groups(text[p..n], Captured(text[a + 12..g])), e + 2))
  {
    var r := Some(Match(p, Groups(text[p..n], Captured(text[a + 12..g])), e + 2));
    InnerStage(text, p, n, a + 12, g, e);
    OpenStage(text, p, n, a, r);
    NameStage(text, p, n, r);
  }

  /** Where the runs of the pattern stop in the head of a well-formed block written at `p`. */
  lemma HeadRuns(text: string, p: nat, b: Section) returns (n: nat, a: nat)
    requires WellFormed(b) && At(text, p, Head(b))
    ensures n == p + |b.name| && a == n + 2 + |b.w1| && a + 12 == p + |Head(b)| <= |text|
    ensures n == SkipWhile(text, p, IsNameChar) && p < n && At(text, n, " {")
    ensures a == SkipWhile(text, n + 2, IsSpace) && At(text, a, "bindings = <")
    ensures text[p..n] == b.name
  {
    n := p + |b.name|;
    a := n + 2 + |b.w1|;
    HeadAt(text, p, b);
    NameRun(text, p, b.name);
    SpaceRun(text, n + 2, b.w1, "bindings = <");
    SliceAt(text, p, b.name);
  }

  /** Where the runs of the pattern stop in the rest of a well-formed block, from the text after `<`. */
  lemma TailRuns(text: string, i: nat, b: Section) returns (g: nat, e: nat)
    requires WellFormed(b) && At(text, i, b.w2 + b.blob) && At(text, i + |b.w2| + |b.blob|, Tail(b))
    ensures g == i + |b.w2| + |b.blob| && e == g + 2 + |b.w3| && e + 2 == g + |Tail(b)| <= |text|
    ensures g == SkipWhile(text, i, IsBlobChar) && i < g && At(text, g, ">;")
    ensures e == SkipWhile(text, g + 2, IsSpace) && At(text, e, "};")
    ensures text[i..g] == b.w2 + b.blob
  {
    g := i + |b.w2| + |b.blob|;
    e := g + 2 + |b.w3|;
    TailAt(text, g, b);
    InnerOfSection(b.w2, b.blob);
    InnerRun(text, i, b.w2 + b.blob);
    SpaceRun(text, g + 2, b.w3, "};");
    SliceAt(text, i, b.w2 + b.blob);
  }

  /**
   * Completeness of the matcher: where a well-formed block is written,
   * MatchAt reports it, with its name, the blob group of the text between
   * `<` and `>`, and the end of the block as the end of the match.
   */
  lemma MatchFrame(text: string, p: nat, b: Section)
    requires WellFormed(b) && At(text, p, Frame(b))
    ensures MatchAt(text, p) == Some(Match(p, Groups(b.name, Captured(b.w2 + b.blob)), p + |Frame(b)|))
  {
    var n, a, g, e := FrameRuns(text, p, b);
    MatchOfRuns(text, p, n, a, g, e);
  }

  /** Where the greedy runs of the pattern stop in a well-formed block written at `p`. */
  lemma FrameRuns(text: string, p: nat, b: Section) returns (n: nat, a: nat, g: nat, e: nat)
    requires WellFormed(b) && At(text, p, Frame(b))
    ensures p <= |text|
    ensures n == SkipWhile(text, p, IsNameChar) && p < n && At(text, n, " {")
    ensures a == SkipWhile(text, n + 2, IsSpace) && At(text, a, "bindings = <")
    ensures g == SkipWhile(text, a + 12, IsBlobChar) && a + 12 < g && At(text, g, ">;")
    ensures e == SkipWhile(text, g + 2, IsSpace) && At(text, e, "};")
    ensures text[p..n] == b.name && text[a + 12..g] == b.w2 + b.blob && e + 2 == p + |Frame(b)|
  {
    var i := p + |Head(b)|;
    FrameAt(text, p, b);
    FrameParts(b);
    n, a := HeadRuns(text, p, b);
    assert a + 12 == i;
    g, e := TailRuns(text, i, b);
  }

  lemma MatchSome(text: string, p: nat)
    requires MatchAt(text, p).Some?
    ensures p <= |text| && AfterName(text, p, SkipWhile(text, p, IsNameChar)).Some?
  {
  }

  lemma NameSome(text: string, p: nat, n: nat)
    requires p <= n <= |text| && AfterName(text, p, n).Some?
    ensures p < n && At(text, n, " {") && AfterOpen(text, p, n, SkipWhile(text, n + 2, IsSpace)).Some?
  {
  }

  lemma OpenSome(text: string, p: nat, n: nat, a: nat)
    requires p < n <= a <= |text| && AfterOpen(text, p, n, a).Some?
    ensures At(text, a, "bindings = <") && AfterInner(text, p, n, a + 12, SkipWhile(text, a + 12, IsBlobChar)).Some?
  {
  }

  lemma InnerSome(text: string, p: nat, n: nat, b: nat, g: nat)
    requires p < n <= b <= g <= |text| && AfterInner(text, p, n, b, g).Some?
    ensures b < g && At(text, g, ">;") && At(text, SkipWhile(text, g + 2, IsSpace), "};")
  {
  }

  /** Where MatchAt reports a match, the runs of the pattern stop at `n`, `a`, `g` and `e`, each followed by its literal. */
  lemma MatchRuns(text: string, p: nat) returns (n: nat, a: nat, g: nat, e: nat)
    requires MatchAt(text, p).Some?
    ensures p <= |text|
    ensures n == SkipWhile(text, p, IsNameChar) && p < n && At(text, n, " {")
    ensures n + 2 <= a <= |text| && a == SkipWhile(text, n + 2, IsSpace) && At(text, a, "bindings = <")
    ensures a + 12 < g <= |text| && g == SkipWhile(text, a + 12, IsBlobChar) && At(text, g, ">;")
    ensures g + 2 <= e <= |text| && e == SkipWhile(text, g + 2, IsSpace) && At(text, e, "};")
  {
    MatchSome(text, p);
    n := SkipWhile(text, p, IsNameChar);
    NameSome(text, p, n);
    a := SkipWhile(text, n + 2, IsSpace);
    OpenSome(text, p, n, a);
    g := SkipWhile(text, a + 12, IsBlobChar);
    InnerSome(text, p, n, a + 12, g);
    e := SkipWhile(text, g + 2, IsSpace);
  }

  /** A match starts where MatchAt is tried, is not empty, and ends inside the text. */
  lemma MatchBounds(text: string, p: nat)
    requires MatchAt(text, p).Some?
    ensures MatchAt(text, p).value.start == p && p < MatchAt(text, p).value.end <= |text|
  {
    var n, a, g, e := MatchRuns(text, p);
    MatchOfRuns(text, p, n, a, g, e);
  }

  /** The first group of every match is a name, and its second group holds no `>`. */
  lemma MatchGroups(text: string, p: nat)
    requires MatchAt(text, p).Some?
    ensures IsName(MatchAt(text, p).value.groups.name)
    ensures '>' !in MatchAt(text, p).value.groups.blob
  {
    var n, a, g, e := MatchRuns(text, p);
    MatchOfRuns(text, p, n, a, g, e);
    NameGroup(text, p);
    InnerFree(text, a + 12);
    CapturedFree(text[a + 12..g]);
  }

  /** A slice of the text is written where it starts. */
  lemma AtSlice(text: string, i: nat, j: nat)
    requires i <= j <= |text|
    ensures At(text, i, text[i..j])
  {
  }

  /** The head MatchAt has checked is the head of a well-formed block. */
  lemma HeadOfRuns(text: string, p: nat, n: nat, a: nat, b: Section)
    requires p <= |text|
    requires n == SkipWhile(text, p, IsNameChar) && p < n && At(text, n, " {")
    requires a == SkipWhile(text, n + 2, IsSpace) && At(text, a, "bindings = <")
    requires b.name == text[p..n] && b.w1 == text[n + 2..a]
    ensures IsName(b.name) && AllSpace(b.w1)
    ensures At(text, p, Head(b)) && |Head(b)| == a + 12 - p
  {
    NameGroup(text, p);
    assert AllSpace(b.w1) by {
      SkipWhileRun(text, n + 2, IsSpace);
      assert forall k :: 0 <= k < |b.w1| ==> b.w1[k] == text[n + 2 + k];
    }
    AtSlice(text, p, n);
    AtSlice(text, n + 2, a);
    HeadFrom(text, p, b);
  }

  /** The rest MatchAt has checked, from the text after `<`, is the rest of a well-formed block. */
  lemma TailOfRuns(text: string, i: nat, g: nat, e: nat, b: Section)
    requires i <= |text|
    requires g == SkipWhile(text, i, IsBlobChar) && i < g && At(text, g, ">;")
    requires e == SkipWhile(text, g + 2, IsSpace) && At(text, e, "};")
    requires b.w2 == [] && b.blob == text[i..g] && b.w3 == text[g + 2..e]
    ensures b.blob != [] && '>' !in b.blob && AllSpace(b.w3)
    ensures At(text, i, b.w2 + b.blob) && At(text, g, Tail(b)) && |Tail(b)| == e + 2 - g
  {
    InnerFree(text, i);
    assert AllSpace(b.w3) by {
      SkipWhileRun(text, g + 2, IsSpace);
      assert forall k :: 0 <= k < |b.w3| ==> b.w3[k] == text[g + 2 + k];
    }
    assert b.w2 + b.blob == b.blob;
    AtSlice(text, i, g);
    AtSlice(text, g + 2, e);
    TailFrom(text, g, b);
  }

  /** The text MatchAt has checked is a well-formed block. */
  lemma SectionOfRuns(text: string, p: nat, n: nat, a: nat, g: nat, e: nat)
    requires p <= |text|
    requires n == SkipWhile(text, p, IsNameChar) && p < n && At(text, n, " {")
    requires a == SkipWhile(text, n + 2, IsSpace) && At(text, a, "bindings = <")
    requires g == SkipWhile(text, a + 12, IsBlobChar) && a + 12 < g && At(text, g, ">;")
    requires e == SkipWhile(text, g + 2, IsSpace) && At(text, e, "};")
    ensures var b := Section([], text[p..n], text[n + 2..a], [], text[a + 12..g], text[g + 2..e]);
            WellFormed(b) && At(text, p, Frame(b))
  {
    var b := Section([], text[p..n], text[n + 2..a], [], text[a + 12..g], text[g + 2..e]);
    HeadOfRuns(text, p, n, a, b);
    TailOfRuns(text, a + 12, g, e, b);
    FrameFrom(text, p, b);
  }

  /**
   * Soundness of the matcher: whatever MatchAt reports is a well-formed
   * block written at `p`.
   */
  lemma MatchAtSound(text: string, p: nat)
    requires MatchAt(text, p).Some?
    ensures exists b: Section ::
              && b.lead == [] && WellFormed(b) && At(text, p, Frame(b))
              && MatchAt(text, p) == Some(Match(p, Groups(b.name, Captured(b.w2 + b.blob)), p + |Frame(b)|))
  {
    var n, a, g, e := MatchRuns(text, p);
    SectionOfRuns(text, p, n, a, g, e);
    var b := Section([], text[p..n], text[n + 2..a], [], text[a + 12..g], text[g + 2..e]);
    MatchFrame(text, p, b);
  }

  /** No match starts at the end of the text or at a character that cannot begin a name. */
  lemma NoMatchAtNonName(text: string, q: nat)
    requires q <= |text| && (q == |text| || !IsNameChar(text[q]))
    ensures MatchAt(text, q) == None
  {
    assert SkipWhile(text, q, IsNameChar) == q;
  }

  /** No space followed by `{` starts in `text[from..to]`. */
  predicate NoOpenBetween(text: string, from: nat, to: nat) {
    forall k: nat :: from <= k && k + 1 < to ==> !OpensAt(text, k)
  }

  /**
   * Every match opens with a run of name characters from where it starts,
   * then a space and `{`.
   */
  lemma MatchOpen(text: string, q: nat) returns (n: nat)
    requires MatchAt(text, q).Some?
    ensures q < n && OpensAt(text, n)
    ensures forall k :: q <= k < n ==> IsNameChar(text[k])
  {
    var a, g, e;
    n, a, g, e := MatchRuns(text, q);
    SkipWhileRun(text, q, IsNameChar);
    assert text[n] == " {"[0] && text[n + 1] == " {"[1];
  }

  /** When no space followed by `{` is left, `exec` finds nothing more. */
  lemma TrailingNone(text: string, from: nat)
    requires from <= |text| && NoOpenBetween(text, from, |text|)
    ensures Exec(MatchAt, text, from).None?
  {
    forall q: nat | from <= q < |text| + 1 && q <= |text|
      ensures MatchAt(text, q).None?
    {
      if MatchAt(text, q).Some? {
        var n := MatchOpen(text, q);
        assert false;
      }
    }
    ExecSpec(MatchAt, text, from);
  }

  /** When no space followed by `{` is left, the scan finds nothing more. */
  lemma ScanTrailing(text: string, from: nat)
    requires Anchored(MatchAt) && from <= |text| && NoOpenBetween(text, from, |text|)
    ensures Scan(MatchAt, text, from) == []
  {
    TrailingNone(text, from);
  }

  /** LayersOf takes its matches one at a time. */
  lemma LayersOfCons(m: Match<Groups>, ms: seq<Match<Groups>>)
    ensures LayersOf([m] + ms) == [LayerOf(m)] + LayersOf(ms)
  {
  }

  /** Keymap text made of blocks, one after another. */
  function Document(bs: seq<Section>): string {
    if bs == [] then "" else Text(bs[0]) + Document(bs[1..])
  }

  /** The layers the blocks declare, in the order they are written. */
  function Declared(bs: seq<Section>): seq<Layer> {
    if bs == [] then [] else [Layer(bs[0].name, Keys(bs[0].blob))] + Declared(bs[1..])
  }

  /** `exec` at a match returns it. */
  lemma ExecHere(text: string, q: nat)
    requires q <= |text| && MatchAt(text, q).Some?
    ensures Exec(MatchAt, text, q) == MatchAt(text, q)
  {
  }

  /** `exec` from the start of a block, its separator included, returns the block's match. */
  lemma ExecSection(text: string, from: nat, b: Section)
    requires WellFormed(b) && At(text, from, Text(b))
    ensures Exec(MatchAt, text, from) == Some(SectionMatch(from, b))
  {
    var p := from + |b.lead|;
    var m := SectionMatch(from, b);
    assert p <= |text| && NoMatchIn(MatchAt, text, from, p) && MatchAt(text, p) == Some(m) by {
      LeadQuiet(text, from, b);
      MatchFrame(text, p, b);
      assert m == Match(p, Groups(b.name, Captured(b.w2 + b.blob)), p + |Frame(b)|);
    }
    ExecFirst(MatchAt, text, from, p, m);
  }

  /** No match starts in a block's separator: the block itself is the next match. */
  lemma LeadQuiet(text: string, from: nat, b: Section)
    requires WellFormed(b) && At(text, from, Text(b))
    ensures At(text, from + |b.lead|, Frame(b)) && NoMatchIn(MatchAt, text, from, from + |b.lead|)
  {
    var p := from + |b.lead|;
    AtSplit(text, from, b.lead, Frame(b));
    assert IsNameChar(text[p]) by {
      assert text[p] == Frame(b)[0] == b.name[0];
    }
    LeadChars(text, from, b.lead);
    forall q: nat | from <= q < p && q <= |text|
      ensures MatchAt(text, q).None?
    {
      if MatchAt(text, q).Some? {
        var n := MatchOpen(text, q);
        assert false;
      }
    }
  }

  /** A separator written at `from` keeps its two properties in the text. */
  lemma LeadChars(text: string, from: nat, lead: string)
    requires Separator(lead) && At(text, from, lead)
    ensures NoOpenBetween(text, from, from + |lead|)
    ensures from < from + |lead| ==> !IsNameChar(text[from + |lead| - 1])
  {
    forall k: nat | from <= k && k + 1 < from + |lead|
      ensures !OpensAt(text, k)
    {
      assert text[k] == lead[k - from] && text[k + 1] == lead[k - from + 1];
      assert !OpensAt(lead, k - from);
    }
  }

  /**
   * The blocks `bs` stand in `text` one after another from `from` on, and
   * no space followed by `{` comes after the last one.
   */
  ghost predicate Written(text: string, from: nat, bs: seq<Section>)
    decreases |bs|
  {
    if bs == [] then from <= |text| && NoOpenBetween(text, from, |text|)
    else WellFormed(bs[0]) && At(text, from, Text(bs[0])) && Written(text, from + |Text(bs[0])|, bs[1..])
  }

  /** The match the pattern reports for a block written at `from`, separator included. */
  function SectionMatch(from: nat, b: Section): Match<Groups> {
    Match(from + |b.lead|, Groups(b.name, Captured(b.w2 + b.blob)), from + |Text(b)|)
  }

  /** The matches of blocks written one after another from `from` on. */
  function SectionMatches(from: nat, bs: seq<Section>): seq<Match<Groups>>
    decreases |bs|
  {
    if bs == [] then [] else [SectionMatch(from, bs[0])] + SectionMatches(from + |Text(bs[0])|, bs[1..])
  }

  /** Where the i-th of the blocks written one after another from `from` on starts, separator included. */
  function Start(from: nat, bs: seq<Section>, i: nat): nat
    requires i <= |bs|
    decreases i
  {
    if i == 0 then from else Start(from + |Text(bs[0])|, bs[1..], i - 1)
  }

  /** Blocks written from `from` on: the ones from the i-th on are written from where it starts. */
  lemma {:induction false} WrittenFrom(text: string, from: nat, bs: seq<Section>, i: nat)
    requires Written(text, from, bs) && i <= |bs|
    ensures Written(text, Start(from, bs, i), bs[i..])
    decreases i
  {
    if i == 0 {
      assert bs[0..] == bs;
    } else {
      WrittenFrom(text, from + |Text(bs[0])|, bs[1..], i - 1);
      assert bs[1..][i - 1..] == bs[i..];
    }
  }

  /** The i-th match of written blocks is the i-th block's match, and the next one starts where it ends. */
  lemma {:induction false} SectionMatchesAt(from: nat, bs: seq<Section>)
    ensures |SectionMatches(from, bs)| == |bs|
    ensures forall i :: 0 <= i <= |bs| ==> GapStart(from, SectionMatches(from, bs), i) == Start(from, bs, i)
    ensures forall i :: 0 <= i < |bs| ==> SectionMatches(from, bs)[i] == SectionMatch(Start(from, bs, i), bs[i])
    decreases |bs|
  {
    if bs != [] {
      var to := from + |Text(bs[0])|;
      var ms := SectionMatches(from, bs);
      var rest := SectionMatches(to, bs[1..]);
      SectionMatchesAt(to, bs[1..]);
      assert ms == [SectionMatch(from, bs[0])] + rest;
      forall i | 0 < i <= |bs|
        ensures GapStart(from, ms, i) == Start(from, bs, i)
      {
        assert Start(from, bs, i) == Start(to, bs[1..], i - 1);
        if i > 1 {
          assert ms[i - 1] == rest[i - 2];
          assert GapStart(to, rest, i - 1) == rest[i - 2].end;
        }
      }
      forall i | 0 < i < |bs|
        ensures ms[i] == SectionMatch(Start(from, bs, i), bs[i])
      {
        assert ms[i] == rest[i - 1] && bs[1..][i - 1] == bs[i];
        assert Start(from, bs, i) == Start(to, bs[1..], i - 1);
      }
    }
  }

  /** From where each written block starts, `exec` returns its match. */
  lemma ExecAtBlock(text: string, from: nat, bs: seq<Section>, i: nat)
    requires Written(text, from, bs) && i < |bs|
    ensures Start(from, bs, i) <= |text|
    ensures Exec(MatchAt, text, Start(from, bs, i)) == Some(SectionMatch(Start(from, bs, i), bs[i]))
  {
    var s := Start(from, bs, i);
    assert WellFormed(bs[i]) && At(text, s, Text(bs[i])) by {
      WrittenFrom(text, from, bs, i);
      assert bs[i..][0] == bs[i];
    }
    ExecSection(text, s, bs[i]);
  }

  /** After the last written block, `exec` returns none. */
  lemma ExecAfterBlocks(text: string, from: nat, bs: seq<Section>)
    requires Written(text, from, bs)
    ensures Start(from, bs, |bs|) <= |text|
    ensures Exec(MatchAt, text, Start(from, bs, |bs|)).None?
  {
    var s := Start(from, bs, |bs|);
    assert s <= |text| && NoOpenBetween(text, s, |text|) by {
      WrittenFrom(text, from, bs, |bs|);
      assert bs[|bs|..] == [];
    }
    TrailingNone(text, s);
  }

  /** Scanning from where the blocks are written finds exactly their matches, in order. */
  lemma ScanMatches(text: string, from: nat, bs: seq<Section>)
    requires Anchored(MatchAt) && Written(text, from, bs)
    ensures from <= |text| && Scan(MatchAt, text, from) == SectionMatches(from, bs)
  {
    var ms := SectionMatches(from, bs);
    SectionMatchesAt(from, bs);
    forall i | 0 <= i <= |ms|
      ensures GapStart(from, ms, i) <= |text|
    {
      if i < |ms| {
        ExecAtBlock(text, from, bs, i);
      } else {
        ExecAfterBlocks(text, from, bs);
      }
    }
    forall i | 0 <= i < |ms|
      ensures Exec(MatchAt, text, GapStart(from, ms, i)) == Some(ms[i])
    {
      ExecAtBlock(text, from, bs, i);
    }
    ExecAfterBlocks(text, from, bs);
    ScanChain(MatchAt, text, from, ms);
  }

  /** The matches of written blocks yield the layers the blocks declare. */
  lemma {:induction false} SectionLayers(text: string, from: nat, bs: seq<Section>)
    requires Written(text, from, bs)
    ensures LayersOf(SectionMatches(from, bs)) == Declared(bs)
    decreases |bs|
  {
    if bs != [] {
      var b := bs[0];
      var next := from + |Text(b)|;
      SectionLayers(text, next, bs[1..]);
      LayersOfCons(SectionMatch(from, b), SectionMatches(next, bs[1..]));
      CapturedKeys(b.w2, b.blob);
    }
  }

  /** Scanning from where the blocks are written finds exactly the layers they declare. */
  lemma ScanSections(text: string, from: nat, bs: seq<Section>)
    requires Anchored(MatchAt) && Written(text, from, bs)
    ensures from <= |text| && LayersOf(Scan(MatchAt, text, from)) == Declared(bs)
  {
    ScanMatches(text, from, bs);
    SectionLayers(text, from, bs);
  }

  /** A document of well-formed blocks is written in the text from where it starts. */
  lemma {:induction false} DocumentWritten(text: string, from: nat, bs: seq<Section>)
    requires forall i :: 0 <= i < |bs| ==> WellFormed(bs[i])
    requires At(text, from, Document(bs)) && NoOpenBetween(text, from + |Document(bs)|, |text|)
    ensures Written(text, from, bs)
    decreases |bs|
  {
    if bs != [] {
      assert Document(bs) == Text(bs[0]) + Document(bs[1..]);
      AtSplit(text, from, Text(bs[0]), Document(bs[1..]));
      DocumentWritten(text, from + |Text(bs[0])|, bs[1..]);
    }
  }

  /**
   * Layers come out in the order their blocks are written: keymap text made
   * of well-formed blocks, each behind a separator (white space, comments,
   * any text that neither writes a space followed by `{` nor ends in a name
   * character), and a tail without a space followed by `{`, yields one layer
   * per block, with the block's name and the keys of its blob.
   */
  lemma ExtractDocument(bs: seq<Section>, tail: string)
    requires forall i :: 0 <= i < |bs| ==> WellFormed(bs[i])
    requires NoOpen(tail)
    ensures Extract(Document(bs) + tail) == Declared(bs)
  {
    var text := Document(bs) + tail;
    DocumentPlacing(Document(bs), tail);
    DocumentWritten(text, 0, bs);
    ExtractWritten(text, bs);
  }

  /** A document followed by a tail: the document stands at the front, and the tail opens nothing. */
  lemma DocumentPlacing(doc: string, tail: string)
    requires NoOpen(tail)
    ensures At(doc + tail, 0, doc) && NoOpenBetween(doc + tail, |doc|, |doc + tail|)
  {
    var text := doc + tail;
    assert forall k :: 0 <= k < |doc| ==> text[k] == doc[k];
    forall k: nat | |doc| <= k && k + 1 < |text|
      ensures !OpensAt(text, k)
    {
      assert text[k] == tail[k - |doc|] && text[k + 1] == tail[k - |doc| + 1];
      assert !OpensAt(tail, k - |doc|);
    }
  }

  /** Text in which the blocks are written from its start yields exactly the layers they declare. */
  lemma ExtractWritten(text: string, bs: seq<Section>)
    requires Written(text, 0, bs)
    ensures Extract(text) == Declared(bs)
  {
    MatchAtAnchored();
    ScanSections(text, 0, bs);
  }

  /** The extractor finds no layer exactly when no index of the text starts a match. */
  lemma ExtractEmpty(text: string)
    ensures Extract(text) == [] <==> NoMatchIn(MatchAt, text, 0, |text| + 1)
  {
    MatchAtAnchored();
    ScanEmpty(MatchAt, text, 0);
  }

  /** No match starts anywhere in text without a `>`. */
  lemma NoBracketNoMatch(text: string, q: nat)
    requires '>' !in text
    ensures MatchAt(text, q) == None
  {
    if MatchAt(text, q).Some? {
      var n, a, g, e := MatchRuns(text, q);
      assert false;
    }
  }

  /** Text without a `>` yields no layers, and nothing fails on the way. */
  lemma WithoutBracket(text: string)
    requires '>' !in text
    ensures Extract(text) == []
  {
    forall q: nat | q <= |text|
      ensures MatchAt(text, q).None?
    {
      NoBracketNoMatch(text, q);
    }
    ExtractEmpty(text);
  }

  /** Appending one match appends its layer. */
  lemma LayersOfSnoc(ms: seq<Match<Groups>>, m: Match<Groups>)
    ensures LayersOf(ms + [m]) == LayersOf(ms) + [LayerOf(m)]
  {
  }

  /**
   * One `exec` step of the loop: when the scan so far is `seen` and `exec`
   * finds a match from `from`, that match is the scan's next entry, and the
   * scan goes on from its end, strictly further on.
   */
  lemma ScanStep(text: string, seen: seq<Match<Groups>>, from: nat)
    requires Anchored(MatchAt) && from <= |text| && Exec(MatchAt, text, from).Some?
    requires Scan(MatchAt, text, 0) == seen + Scan(MatchAt, text, from)
    ensures var m := Exec(MatchAt, text, from).value;
            && from < m.end <= |text|
            && Scan(MatchAt, text, 0) == (seen + [m]) + Scan(MatchAt, text, m.end)
  {
    ExecSpec(MatchAt, text, from);
    var m := Exec(MatchAt, text, from).value;
    assert Scan(MatchAt, text, from) == [m] + Scan(MatchAt, text, m.end);
    assert seen + ([m] + Scan(MatchAt, text, m.end)) == (seen + [m]) + Scan(MatchAt, text, m.end);
  }

  /** When `exec` finds nothing more, the scan so far is the whole scan, and its layers are what the extractor yields. */
  lemma ScanDone(text: string, seen: seq<Match<Groups>>, from: nat)
    requires Anchored(MatchAt) && from <= |text| && Exec(MatchAt, text, from).None?
    requires Scan(MatchAt, text, 0) == seen + Scan(MatchAt, text, from)
    ensures Extract(text) == LayersOf(seen)
  {
    assert Scan(MatchAt, text, from) == [];
    assert seen + [] == seen;
  }

  /** The keys of the first layer in `layers` named `name`, if any. */
  function Find(layers: seq<Layer>, name: string): (r: Option<seq<string>>)
    ensures r.None? <==> forall i :: 0 <= i < |layers| ==> layers[i].name != name
  {
    if layers == [] then None
    else if layers[0].name == name then Some(layers[0].keys)
    else Find(layers[1..], name)
  }

  /** `find` reports the first layer with the name, and nothing only when no layer has it. */
  lemma {:induction false} FindFirst(layers: seq<Layer>, name: string)
    ensures var r := Find(layers, name);
            && (r.None? <==> forall i :: 0 <= i < |layers| ==> layers[i].name != name)
            && (r.Some? ==> exists i :: 0 <= i < |layers| && layers[i].name == name && r.value == layers[i].keys
                                        && forall j :: 0 <= j < i ==> layers[j].name != name)
  {
    if layers != [] && layers[0].name != name {
      FindFirst(layers[1..], name);
      var r := Find(layers[1..], name);
      if r.Some? {
        var i :| 0 <= i < |layers[1..]| && layers[1..][i].name == name && r.value == layers[1..][i].keys
                 && forall j :: 0 <= j < i ==> layers[1..][j].name != name;
        assert layers[i + 1] == layers[1..][i];
        assert forall j :: 0 < j < i + 1 ==> layers[j] == layers[1..][j - 1];
      } else {
        assert forall i :: 0 < i < |layers| ==> layers[i] == layers[1..][i - 1];
      }
    } else if layers != [] {
      assert layers[0].name == name;
    }
  }

  /**
   * The layer table of a keymap: the constructor runs the global pattern over
   * the raw keymap text and pushes one layer per match.
   */
  class LayerMap {
    var layers: seq<Layer>

    /**
     * Each `exec` call resumes at `lastIndex`, the end of the previous match,
     * and the loop ends at the first call that finds nothing: the layers are
     * those of every match, in the order the matches occur in the text.
     */
    constructor (raw: string)
      ensures layers == Extract(raw)
    {
      layers := [];
      new;
      MatchAtAnchored();
      var lastIndex: nat := 0;
      ghost var seen: seq<Match<Groups>> := [];
      var next := Exec(MatchAt, raw, lastIndex);
      while next.Some?
        invariant lastIndex <= |raw|
        invariant next == Exec(MatchAt, raw, lastIndex)
        invariant Scan(MatchAt, raw, 0) == seen + Scan(MatchAt, raw, lastIndex)
        invariant layers == LayersOf(seen)
        decreases |raw| - lastIndex
      {
        var m := next.value;
        ScanStep(raw, seen, lastIndex);
        LayersOfSnoc(seen, m);
        layers := layers + [Layer(m.groups.name, Keys(m.groups.blob))];
        seen := seen + [m];
        lastIndex := m.end;
        next := Exec(MatchAt, raw, lastIndex);
      }
      ScanDone(raw, seen, lastIndex);
    }

    /**
     * The keys of the lowest-index layer named `layerName`, or nothing when no
     * layer has that name; reading them changes nothing.
     */
    function GetFull(layerName: string): (r: Option<seq<string>>)
      reads this
      ensures r.None? <==> forall i :: 0 <= i < |layers| ==> layers[i].name != layerName
      ensures r.Some? ==> exists i :: 0 <= i < |layers| && layers[i].name == layerName && r.value == layers[i].keys
                                      && forall j :: 0 <= j < i ==> layers[j].name != layerName
    {
      FindFirst(layers, layerName);
      Find(layers, layerName)
    }
  }

  /** The layers of one block written on its own, behind its separator and before a tail. */
  lemma ExtractOne(b: Section, tail: string)
    requires WellFormed(b) && NoOpen(tail)
    ensures Extract(Text(b) + tail) == [Layer(b.name, Keys(b.blob))]
  {
    assert Document([b]) == Text(b) + Document([]);
    assert Document([b]) == Text(b);
    ExtractDocument([b], tail);
  }

  /** A block behind a `//` comment line, as the keymap writes its layers, still yields its layer. */
  lemma ExtractBehindComment(c: string, b: Section)
    requires NoOpen(c) && WellFormed(b.(lead := ""))
    ensures Extract("//" + c + "\n" + Frame(b)) == [Layer(b.name, Keys(b.blob))]
  {
    var b' := b.(lead := "//" + c + "\n");
    CommentSeparates(c);
    assert Text(b') + "" == "//" + c + "\n" + Frame(b);
    ExtractOne(b', "");
  }

  /** One block laid out as the keymap lays out its own: a line per part, two bindings. */
  function ExampleSection(): Section {
    Section("", "BASE", "\n", "\n", "&kp Q &mt LSFT S\n", "\n")
  }

  /** The example block has the shape the pattern expects. */
  lemma ExampleWellFormed()
    ensures WellFormed(ExampleSection())
  {
  }

  /** The example block written out. */
  lemma ExampleText()
    ensures Text(ExampleSection()) + "" == "BASE {\nbindings = <\n&kp Q &mt LSFT S\n>;\n};"
  {
    var b := ExampleSection();
    FrameParts(b);
    ExampleHeadInner();
    ExampleTail();
    assert Text(b) + "" == Frame(b);
  }

  /** The example block up to the end of its bindings. */
  lemma ExampleHeadInner()
    ensures var b := ExampleSection();
            Head(b) + (b.w2 + b.blob) == "BASE {\nbindings = <\n&kp Q &mt LSFT S\n"
  {
    ExampleHead();
    ExampleInner();
    assert "BASE {\nbindings = <" + "\n&kp Q &mt LSFT S\n" == "BASE {\nbindings = <\n&kp Q &mt LSFT S\n";
  }

  /** The example block up to its opening bracket. */
  lemma ExampleHead()
    ensures Head(ExampleSection()) == "BASE {\nbindings = <"
  {
  }

  /** What stands between the example block's brackets. */
  lemma ExampleInner()
    ensures ExampleSection().w2 + ExampleSection().blob == "\n&kp Q &mt LSFT S\n"
  {
  }

  /** The example block's closing brackets complete its text. */
  lemma ExampleTail()
    ensures "BASE {\nbindings = <\n&kp Q &mt LSFT S\n" + Tail(ExampleSection())
         == "BASE {\nbindings = <\n&kp Q &mt LSFT S\n>;\n};"
  {
    assert Tail(ExampleSection()) == ">;\n};";
  }

  /** The keys of the example block's bindings. */
  lemma ExampleKeys()
    ensures Keys(ExampleSection().blob) == ["&kp Q", "&mt LSFT S"]
  {
    var xs := ["kp Q", "mt LSFT S"];
    var gaps := [" ", "\n"];
    ExampleRender();
    KeysOfRender("", xs, gaps);
    ExampleSigiled();
  }

  /** The example bindings are two keys, a space between them and a line break after. */
  lemma ExampleRender()
    ensures "" + Render(["kp Q", "mt LSFT S"], [" ", "\n"]) == ExampleSection().blob
  {
  }

  /** Each example key gets its sigil back. */
  lemma ExampleSigiled()
    ensures Sigiled(["kp Q", "mt LSFT S"]) == ["&kp Q", "&mt LSFT S"]
  {
    var keys := Sigiled(["kp Q", "mt LSFT S"]);
    assert keys[0] == "&kp Q" && keys[1] == "&mt LSFT S";
  }

  /** A block in the style of the keymap's own: its keys come out in order, sigil first, white space gone. */
  lemma ExtractExample()
    ensures Extract("BASE {\nbindings = <\n&kp Q &mt LSFT S\n>;\n};")
         == [Layer("BASE", ["&kp Q", "&mt LSFT S"])]
  {
    ExampleWellFormed();
    ExampleText();
    ExampleKeys();
    ExtractOne(ExampleSection(), "");
  }

  /** A block whose bindings are only white space. */
  function BlankSection(): Section {
    Section("", "BASE", "\n ", "\n", " ", "\n")
  }

  /** The blank block written out. */
  lemma BlankText()
    ensures Text(BlankSection()) + "" == "BASE {\n bindings = <\n >;\n};"
  {
    var b := BlankSection();
    FrameParts(b);
    BlankHead();
    BlankTail();
    assert Text(b) + "" == Frame(b);
  }

  /** The blank block's closing brackets complete its text. */
  lemma BlankTail()
    ensures "BASE {\n bindings = <\n " + Tail(BlankSection()) == "BASE {\n bindings = <\n >;\n};"
  {
    assert Tail(BlankSection()) == ">;\n};";
  }

  /** The blank block up to the end of its bindings. */
  lemma BlankHead()
    ensures Head(BlankSection()) + (BlankSection().w2 + BlankSection().blob) == "BASE {\n bindings = <\n "
  {
    assert Head(BlankSection()) == "BASE {\n bindings = <";
  }

  /** A block whose bindings are only white space still yields its layer, with no keys. */
  lemma ExtractBlankExample()
    ensures Extract("BASE {\n bindings = <\n >;\n};") == [Layer("BASE", [])]
  {
    var b := BlankSection();
    assert WellFormed(b);
    BlankText();
    KeysAllSpace(b.blob);
    ExtractOne(b, "");
  }
}
