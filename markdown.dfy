/** `renderMarkdown` of components/AnalysisResult.tsx: the small markup rewrite the result
    view applies to each summary page and each chat message. Fenced code is pulled out into
    numbered placeholders, the heading, inline-code, bold and newline rules rewrite the rest,
    and the blocks are put back. Tags are written without their CSS class attributes. */
module Markdown {
  import opened Types
  import opened Strings

  const Fence := "```"
  const H3Marker := "### "
  const H2Marker := "## "
  const Backtick := "`"
  const BoldDelimiter := "**"
  const H3Open := "<h3>"
  const H3Close := "</h3>"
  const H2Open := "<h2>"
  const H2Close := "</h2>"
  const InlineCodeOpen := "<code>"
  const InlineCodeClose := "</code>"
  const StrongOpen := "<strong>"
  const StrongClose := "</strong>"
  const LineBreak := "<br/>"
  const CodeBlockOpen := "<div><div>Fragmento de Código</div><code>"
  const CodeBlockClose := "</code></div>"
  const PlaceholderStart := "__CODE_BLOCK_"
  const PlaceholderEnd := "__"

  // ---------------------------------------------------------------- words

  /** The characters a placeholder is made of. */
  predicate IsWordChar(c: char) {
    ('a' <= c <= 'z') || ('A' <= c <= 'Z') || ('0' <= c <= '9') || c == '_'
  }

  predicate IsWord(w: string) {
    forall i :: 0 <= i < |w| ==> IsWordChar(w[i])
  }

  predicate NoWordChar(d: string) {
    forall i :: 0 <= i < |d| ==> !IsWordChar(d[i])
  }

  /** An occurrence of a word cannot cross a run of non-word characters. */
  lemma WordOccursSplit(a: string, y: string, b: string, w: string)
    requires IsWord(w) && w != [] && y != [] && NoWordChar(y)
    requires Occurs(a + y + b, w)
    ensures Occurs(a, w) || Occurs(b, w)
  {
    var s := a + y + b;
    var i :| 0 <= i <= |s| && OccursAt(s, w, i);
    OccursAtChars(s, w, i);
    if i + |w| > |a| && i < |a| + |y| {
      var k := if i >= |a| then i else |a|;
      OccursAtChar(s, w, i, k);
      assert false;
    } else if i + |w| <= |a| {
      assert a[i..i + |w|] == w by {
        forall m | 0 <= m < |w| ensures a[i..i + |w|][m] == w[m] {
          assert s[i + m] == w[m];
        }
      }
      assert OccursAt(a, w, i);
    } else {
      var j := i - |a| - |y|;
      assert b[j..j + |w|] == w by {
        forall m | 0 <= m < |w| ensures b[j..j + |w|][m] == w[m] {
          assert s[i + m] == w[m];
        }
      }
      assert OccursAt(b, w, j);
    }
  }

  // ---------------------------------------------------------------- step 1: `\n` escapes

  /** `text.replace(/\\n/g, '\n')`: every backslash followed by `n` becomes a newline. */
  function Unescape(s: string): (r: string)
    ensures s != [] ==> r != [] && (r[0] == '\n' || r[0] == s[0])
    ensures '\\' !in s ==> r == s
    decreases |s|
  {
    if |s| >= 2 && s[0] == '\\' && s[1] == 'n' then "\n" + Unescape(s[2..])
    else if s == [] then []
    else [s[0]] + Unescape(s[1..])
  }

  /** One step of the first rule: an escape at the head becomes a newline. */
  lemma UnescapeEscape(x: string)
    requires |x| >= 2 && x[0] == '\\' && x[1] == 'n'
    ensures Unescape(x) == "\n" + Unescape(x[2..])
  {
  }

  /** One step of the first rule: any other head character is kept. */
  lemma UnescapeOther(x: string)
    requires x != [] && !(|x| >= 2 && x[0] == '\\' && x[1] == 'n')
    ensures Unescape(x) == [x[0]] + Unescape(x[1..])
  {
  }

  /** An escape between two texts turns into a newline, and each side unescapes as it
      would alone: no backslash-`n` pair straddles the seam. */
  lemma {:induction false} UnescapeJoin(a: string, b: string)
    ensures Unescape(a + "\\n" + b) == Unescape(a) + "\n" + Unescape(b)
    decreases |a|
  {
    var e := "\\n";
    var s := a + e + b;
    if a == [] {
      assert s == e + b;
      assert s[2..] == b;
      UnescapeEscape(s);
    } else if |a| >= 2 && a[0] == '\\' && a[1] == 'n' {
      assert s[0] == '\\' && s[1] == 'n';
      assert s[2..] == a[2..] + e + b;
      UnescapeJoin(a[2..], b);
      UnescapeEscape(s);
      UnescapeEscape(a);
      AppendAssoc("\n", Unescape(a[2..]) + "\n", Unescape(b));
      AppendAssoc("\n", Unescape(a[2..]), "\n");
    } else {
      assert s[0] == a[0];
      assert s[1] == if |a| == 1 then '\\' else a[1];
      assert s[1..] == a[1..] + e + b;
      UnescapeJoin(a[1..], b);
      UnescapeOther(s);
      UnescapeOther(a);
      AppendAssoc([a[0]], Unescape(a[1..]) + "\n", Unescape(b));
      AppendAssoc([a[0]], Unescape(a[1..]), "\n");
    }
  }

  predicate HasEscapedNewline(s: string) {
    exists i :: 0 <= i < |s| - 1 && s[i] == '\\' && s[i + 1] == 'n'
  }

  /** After the first step no backslash-`n` pair is left. */
  lemma {:induction false} UnescapeLeavesNoEscape(s: string)
    ensures !HasEscapedNewline(Unescape(s))
    decreases |s|
  {
    var r := Unescape(s);
    if |s| >= 2 && s[0] == '\\' && s[1] == 'n' {
      UnescapeLeavesNoEscape(s[2..]);
      var t := Unescape(s[2..]);
      assert r == "\n" + t;
      forall i | 0 <= i < |r| - 1 && r[i] == '\\' ensures r[i + 1] != 'n' {
        assert r[i] == t[i - 1];
        assert r[i + 1] == t[i];
      }
    } else if s != [] {
      UnescapeLeavesNoEscape(s[1..]);
      var t := Unescape(s[1..]);
      assert r == [s[0]] + t;
      forall i | 0 <= i < |r| - 1 && r[i] == '\\' ensures r[i + 1] != 'n' {
        if i == 0 {
          assert r[1] == t[0];
        } else {
          assert r[i] == t[i - 1];
          assert r[i + 1] == t[i];
        }
      }
    }
  }

  // ---------------------------------------------------------------- step 2: fenced code

  /** The input read as plain text and fenced code (the contents between the fences). */
  datatype Piece = Plain(text: string) | Code(code: string)

  /** Where a fenced block's opening fence and its closing fence start. */
  datatype Block = NoBlock | Block(open: nat, close: nat)

  /** A slice in which no fence starts holds no fence. */
  lemma NoFenceBetween(s: string, from: nat, q: nat)
    requires from <= q <= |s|
    requires forall i :: from <= i < q ==> !OccursAt(s, Fence, i)
    ensures !Occurs(s[from..q], Fence)
  {
    var c := s[from..q];
    forall j | 0 <= j <= |c| && OccursAt(c, Fence, j) ensures false {
      OccursInSlice(s, from, q, Fence, j);
    }
  }

  /** Where the first fenced block starts and where its closing fence starts: the first
      fence, and the next fence after it. */
  function FirstBlock(s: string): (r: Block)
    ensures r.Block? ==> r.open + 3 <= r.close && r.close + 3 <= |s|
  {
    match IndexOf(s, Fence, 0)
    case None => NoBlock
    case Some(p) =>
      match IndexOf(s, Fence, p + 3)
      case None => NoBlock
      case Some(q) => Block(p, q)
  }

  /** A block opens at the first fence of the text and closes at the next fence after
      it, with no fence in between. */
  lemma FirstBlockFences(s: string)
    requires FirstBlock(s).Block?
    ensures var b := FirstBlock(s);
            && OccursAt(s, Fence, b.open) && OccursAt(s, Fence, b.close)
            && (forall i :: 0 <= i < b.open ==> !OccursAt(s, Fence, i))
            && !Occurs(s[b.open + 3..b.close], Fence)
  {
    var p := IndexOf(s, Fence, 0).value;
    var q := IndexOf(s, Fence, p + 3).value;
    NoFenceBetween(s, p + 3, q);
  }

  /** How the global lazy match of three backticks, anything, three backticks cuts the
      text: the first fence is closed by the next fence after it; an unclosed fence and
      everything after it stay plain text. */
  function Pieces(s: string): seq<Piece>
    decreases |s|, 1
  {
    match FirstBlock(s)
    case NoBlock => [Plain(s)]
    case Block(p, q) => PiecesAt(s, p, q)
  }

  /** The pieces of a text whose first block is fenced at `p` and `q`. */
  function PiecesAt(s: string, p: nat, q: nat): seq<Piece>
    requires p + 3 <= q && q + 3 <= |s|
    decreases |s|, 0
  {
    [Plain(s[..p]), Code(s[p + 3..q])] + Pieces(s[q + 3..])
  }

  lemma PiecesCut(s: string, p: nat, q: nat)
    requires FirstBlock(s) == Block(p, q)
    ensures Pieces(s) == [Plain(s[..p]), Code(s[p + 3..q])] + Pieces(s[q + 3..])
  {
  }

  /** The text the pieces were cut from. */
  function Unfenced(ps: seq<Piece>): string
    decreases |ps|
  {
    if ps == [] then ""
    else (match ps[0]
          case Plain(t) => t
          case Code(c) => Fence + c + Fence) + Unfenced(ps[1..])
  }

  lemma UnfencedCut(a: string, c: string, ps: seq<Piece>)
    ensures Unfenced([Plain(a), Code(c)] + ps) == a + (Fence + c + Fence) + Unfenced(ps)
  {
    var all := [Plain(a), Code(c)] + ps;
    assert all[1..] == [Code(c)] + ps;
    assert ([Code(c)] + ps)[1..] == ps;
  }

  lemma FencesCut(s: string, p: nat, q: nat)
    requires OccursAt(s, Fence, p) && OccursAt(s, Fence, q) && p + 3 <= q
    ensures s == s[..p] + (Fence + s[p + 3..q] + Fence) + s[q + 3..]
  {
    var a, c, rest := s[..p], s[p + 3..q], s[q + 3..];
    assert s[..q] == a + (Fence + c) by {
      assert s[p..q] == Fence + c;
    }
    assert s[q..] == Fence + rest;
    assert s == s[..q] + s[q..];
    AppendAssoc(a + (Fence + c), Fence, rest);
    AppendAssoc(a, Fence + c, Fence);
  }

  /** Cutting loses nothing: putting the fences back gives the text again. */
  lemma {:induction false} PiecesRoundTrip(s: string)
    ensures Unfenced(Pieces(s)) == s
    decreases |s|
  {
    match FirstBlock(s)
    case NoBlock =>
    case Block(p, q) =>
      FirstBlockFences(s);
      PiecesRoundTrip(s[q + 3..]);
      UnfencedCut(s[..p], s[p + 3..q], Pieces(s[q + 3..]));
      FencesCut(s, p, q);
  }

  /** No code piece holds a fence. */
  predicate FenceFree(ps: seq<Piece>) {
    forall i :: 0 <= i < |ps| && ps[i].Code? ==> !Occurs(ps[i].code, Fence)
  }

  lemma FenceFreeCut(a: string, c: string, tail: seq<Piece>)
    requires !Occurs(c, Fence) && FenceFree(tail)
    ensures FenceFree([Plain(a), Code(c)] + tail)
  {
    var ps := [Plain(a), Code(c)] + tail;
    forall i | 0 <= i < |ps| && ps[i].Code? ensures !Occurs(ps[i].code, Fence) {
      if i >= 2 {
        assert ps[i] == tail[i - 2];
      }
    }
  }

  /** The match is lazy: no code piece holds a fence. */
  lemma {:induction false} CodeHoldsNoFence(s: string)
    ensures FenceFree(Pieces(s))
    decreases |s|
  {
    match FirstBlock(s)
    case NoBlock =>
    case Block(p, q) =>
      FirstBlockFences(s);
      PiecesCut(s, p, q);
      CodeHoldsNoFence(s[q + 3..]);
      FenceFreeCut(s[..p], s[p + 3..q], Pieces(s[q + 3..]));
  }

  /** The decimal digits of `n`, as `${n}` writes them. */
  function NatToString(n: nat): (r: string)
    ensures r != []
    decreases n
  {
    var digit := ['0' + (n % 10) as char];
    if n < 10 then digit else NatToString(n / 10) + digit
  }

  lemma {:induction false} NatToStringIsDigits(n: nat)
    ensures forall i :: 0 <= i < |NatToString(n)| ==> '0' <= NatToString(n)[i] <= '9'
    decreases n
  {
    if n >= 10 {
      NatToStringIsDigits(n / 10);
    }
  }

  /** `__CODE_BLOCK_${k}__`. */
  function Placeholder(k: nat): (r: string)
    ensures r != []
  {
    PlaceholderStart + NatToString(k) + PlaceholderEnd
  }

  /** A placeholder is one word: the rewrite rules cannot cut into it. */
  lemma PlaceholderIsWord(k: nat)
    ensures IsWord(Placeholder(k))
  {
    NatToStringIsDigits(k);
  }

  /** The text after extraction: each code piece replaced by its placeholder, numbered in
      order from `k`. */
  function Placeheld(ps: seq<Piece>, k: nat): string
    decreases |ps|
  {
    if ps == [] then ""
    else match ps[0]
      case Plain(t) => t + Placeheld(ps[1..], k)
      case Code(_) => Placeholder(k) + Placeheld(ps[1..], k + 1)
  }

  /** The HTML pushed for one block: the trimmed code inside the block wrapper. */
  function CodeBlockHtml(code: string): string {
    CodeBlockOpen + Trim(code) + CodeBlockClose
  }

  /** The `codeBlocks` array after extraction, in order. */
  function CodeBlocks(ps: seq<Piece>): (blocks: seq<string>)
    decreases |ps|
  {
    if ps == [] then []
    else match ps[0]
      case Plain(_) => CodeBlocks(ps[1..])
      case Code(c) => [CodeBlockHtml(c)] + CodeBlocks(ps[1..])
  }

  lemma PlaceheldCut(a: string, c: string, ps: seq<Piece>, k: nat)
    ensures Placeheld([Plain(a), Code(c)] + ps, k) == a + Placeholder(k) + Placeheld(ps, k + 1)
    ensures CodeBlocks([Plain(a), Code(c)] + ps) == [CodeBlockHtml(c)] + CodeBlocks(ps)
  {
    var all := [Plain(a), Code(c)] + ps;
    assert all[1..] == [Code(c)] + ps;
    assert ([Code(c)] + ps)[1..] == ps;
  }

  /** The i-th code piece, counted from `k`, leaves placeholder number i in the text. */
  lemma {:induction false} PlaceheldHoldsPlaceholder(ps: seq<Piece>, k: nat, i: nat)
    requires k <= i < k + |CodeBlocks(ps)|
    ensures Occurs(Placeheld(ps, k), Placeholder(i))
    decreases |ps|
  {
    var tail := ps[1..];
    if ps[0].Plain? {
      assert CodeBlocks(ps) == CodeBlocks(tail);
      PlaceheldHoldsPlaceholder(tail, k, i);
      OccursAfter(ps[0].text, Placeheld(tail, k), Placeholder(i));
    } else if i == k {
      OccursAtHead(Placeholder(k), Placeheld(tail, k + 1));
    } else {
      assert |CodeBlocks(ps)| == 1 + |CodeBlocks(tail)|;
      PlaceheldHoldsPlaceholder(tail, k + 1, i);
      OccursAfter(Placeholder(k), Placeheld(tail, k + 1), Placeholder(i));
    }
  }

  lemma ExtractStep(s: string, p: nat, q: nat, k: nat)
    requires FirstBlock(s) == Block(p, q)
    ensures Placeheld(Pieces(s), k) == (s[..p] + Placeholder(k)) + Placeheld(Pieces(s[q + 3..]), k + 1)
    ensures CodeBlocks(Pieces(s)) == [CodeBlockHtml(s[p + 3..q])] + CodeBlocks(Pieces(s[q + 3..]))
  {
    PiecesCut(s, p, q);
    PlaceheldCut(s[..p], s[p + 3..q], Pieces(s[q + 3..]), k);
  }

  lemma ExtractEnd(s: string, k: nat)
    requires FirstBlock(s).NoBlock?
    ensures Placeheld(Pieces(s), k) == s && CodeBlocks(Pieces(s)) == []
  {
    assert Pieces(s) == [Plain(s)];
    assert Placeheld([Plain(s)], k) == s + Placeheld([], k);
  }

  /** The replace-with-callback of the source: scans for fenced code, pushes each block
      and leaves its placeholder in the text. */
  method ExtractCodeBlocks(s: string) returns (t: string, blocks: seq<string>)
    ensures t == Placeheld(Pieces(s), 0)
    ensures blocks == CodeBlocks(Pieces(s))
  {
    t, blocks := "", [];
    var rest := s;
    while true
      invariant Placeheld(Pieces(s), 0) == t + Placeheld(Pieces(rest), |blocks|)
      invariant CodeBlocks(Pieces(s)) == blocks + CodeBlocks(Pieces(rest))
      decreases |rest|
    {
      var block := FirstBlock(rest);
      if block.NoBlock? {
        ExtractEnd(rest, |blocks|);
        t := t + rest;
        return;
      }
      var p, q := block.open, block.close;
      var piece, code, after := rest[..p] + Placeholder(|blocks|), CodeBlockHtml(rest[p + 3..q]), rest[q + 3..];
      ExtractStep(rest, p, q, |blocks|);
      AppendAssoc(t, piece, Placeheld(Pieces(after), |blocks| + 1));
      AppendAssoc(blocks, [code], CodeBlocks(Pieces(after)));
      t, blocks, rest := t + piece, blocks + [code], after;
    }
  }

  // ---------------------------------------------------------------- step 3: headings

  /** The number of characters before the first line terminator. */
  function LineLength(s: string): (n: nat)
    ensures n <= |s|
    ensures forall i :: 0 <= i < n ==> !IsLineTerminator(s[i])
    ensures n < |s| ==> IsLineTerminator(s[n])
    decreases |s|
  {
    if s == [] || IsLineTerminator(s[0]) then 0 else 1 + LineLength(s[1..])
  }

  /** `s.replace(/^<marker>(.*$)/gm, '<open>$1<close>')`: a line that starts with the
      marker becomes the rest of the line between the tags. */
  function Heading(s: string, marker: string, open: string, close: string, atLineStart: bool): string
    requires marker != []
    decreases |s|
  {
    if s == [] then []
    else if atLineStart && StartsWith(s, marker) then
      var n := LineLength(s[|marker|..]);
      open + s[|marker|..|marker| + n] + close + Heading(s[|marker| + n..], marker, open, close, false)
    else [s[0]] + Heading(s[1..], marker, open, close, IsLineTerminator(s[0]))
  }

  /** Both heading rules, h3 first. */
  function Headings(s: string): string {
    Heading(Heading(s, H3Marker, H3Open, H3Close, true), H2Marker, H2Open, H2Close, true)
  }

  /** A rule leaves alone a text of one line that does not start with its marker. */
  lemma {:induction false} HeadingSkipsLine(s: string, marker: string, open: string, close: string, atLineStart: bool)
    requires marker != []
    requires forall i :: 0 <= i < |s| ==> !IsLineTerminator(s[i])
    requires !atLineStart || !StartsWith(s, marker)
    ensures Heading(s, marker, open, close, atLineStart) == s
    decreases |s|
  {
    if s != [] {
      HeadingSkipsLine(s[1..], marker, open, close, false);
    }
  }

  /** A `### ` line becomes an h3 and nothing else: the h2 rule runs later and no longer
      sees a line that starts with `## `. */
  lemma H3LineIsNotH2(x: string)
    requires forall i :: 0 <= i < |x| ==> !IsLineTerminator(x[i])
    ensures Headings(H3Marker + x) == H3Open + x + H3Close
  {
    var s := H3Marker + x;
    assert s[|H3Marker|..] == x;
    assert LineLength(x) == |x|;
    assert s[|H3Marker| + |x|..] == [];
    assert Heading(s, H3Marker, H3Open, H3Close, true) == H3Open + x + H3Close;
    var h := H3Open + x + H3Close;
    assert h[0] == '<';
    HeadingSkipsLine(h, H2Marker, H2Open, H2Close, true);
  }

  /** A `## ` line becomes an h2. */
  lemma H2Line(x: string)
    requires forall i :: 0 <= i < |x| ==> !IsLineTerminator(x[i])
    ensures Headings(H2Marker + x) == H2Open + x + H2Close
  {
    var s := H2Marker + x;
    assert s[2] == ' ';
    HeadingSkipsLine(s, H3Marker, H3Open, H3Close, true);
    assert s[|H2Marker|..] == x;
    assert LineLength(x) == |x|;
    HeadingLine(s, H2Marker, H2Open, H2Close);
    assert s[|H2Marker| + |x|..] == [];
    assert s[|H2Marker|..|H2Marker| + |x|] == x;
  }

  // ---------------------------------------------------------------- step 4: inline code and bold

  /** Where the lazy `(.*?)` after an opening delimiter at 0 closes: the first delimiter at
      or after `i` with no line terminator before it. */
  function FindClose(s: string, d: string, i: nat): (r: Option<nat>)
    requires d != []
    ensures r.Some? ==> i <= r.value && OccursAt(s, d, r.value)
    decreases |s| - i
  {
    if i + |d| > |s| then None
    else if s[i..i + |d|] == d then Some(i)
    else if IsLineTerminator(s[i]) then None
    else FindClose(s, d, i + 1)
  }

  /** `s.replace(/<d>(.*?)<d>/g, '<open>$1<close>')` for the delimiters `` ` `` and `**`. */
  function Wrap(s: string, d: string, open: string, close: string): string
    requires d != []
    decreases |s|
  {
    if s == [] then []
    else if StartsWith(s, d) && FindClose(s, d, |d|).Some? then
      var q := FindClose(s, d, |d|).value;
      open + s[|d|..q] + close + Wrap(s[q + |d|..], d, open, close)
    else [s[0]] + Wrap(s[1..], d, open, close)
  }

  /** The lazy match closes at the first delimiter, provided no line ends before it. */
  lemma {:induction false} FindCloseIs(s: string, d: string, i: nat, k: nat)
    requires d != [] && i <= k && OccursAt(s, d, k)
    requires forall j :: i <= j < k ==> !OccursAt(s, d, j)
    requires forall j :: i <= j < k ==> !IsLineTerminator(s[j])
    ensures FindClose(s, d, i) == Some(k)
    decreases k - i
  {
    if i < k {
      FindCloseIs(s, d, i + 1, k);
    }
  }

  /** An occurrence after a prefix is an occurrence in what follows the prefix. */
  lemma OccursAtShift(a: string, t: string, w: string, i: nat)
    ensures OccursAt(a + t, w, |a| + i) <==> OccursAt(t, w, i)
  {
    if |a| + i + |w| <= |a + t| {
      assert (a + t)[|a| + i..|a| + i + |w|] == t[i..i + |w|];
    }
  }

  /** Between the delimiters of `d + x + d` no delimiter starts and no line ends, and
      the last delimiter stands at the end. */
  lemma DelimitedInside(x: string, d: string)
    requires d != []
    requires forall i :: 0 <= i < |x| ==> !OccursAt(x + d, d, i)
    requires forall i :: 0 <= i < |x| ==> !IsLineTerminator(x[i])
    ensures forall j :: |d| <= j < |d| + |x| ==> !OccursAt(d + (x + d), d, j)
    ensures forall j :: |d| <= j < |d| + |x| ==> !IsLineTerminator((d + (x + d))[j])
    ensures OccursAt(d + (x + d), d, |d| + |x|)
  {
    OccursAtShift(d, x + d, d, |x|);
    assert (x + d)[|x|..] == d;
    forall j | |d| <= j < |d| + |x| ensures !OccursAt(d + (x + d), d, j) {
      OccursAtShift(d, x + d, d, j - |d|);
    }
  }

  /** In `d + x + d` the span opened at the start closes at the final delimiter. */
  lemma DelimitedClose(x: string, d: string)
    requires d != []
    requires forall i :: 0 <= i < |x| ==> !OccursAt(x + d, d, i)
    requires forall i :: 0 <= i < |x| ==> !IsLineTerminator(x[i])
    ensures FindClose(d + (x + d), d, |d|) == Some(|d| + |x|)
  {
    DelimitedInside(x, d);
    FindCloseIs(d + (x + d), d, |d|, |d| + |x|);
  }

  /** A span between two delimiters, on one line and with no delimiter starting inside it,
      is wrapped in the tags and nothing else changes. */
  lemma DelimitedSpan(x: string, d: string, open: string, close: string)
    requires d != []
    requires forall i :: 0 <= i < |x| ==> !OccursAt(x + d, d, i)
    requires forall i :: 0 <= i < |x| ==> !IsLineTerminator(x[i])
    ensures Wrap(d + x + d, d, open, close) == open + x + close
  {
    var s := d + x + d;
    var q := |d| + |x|;
    assert StartsWith(s, d) by { assert s[..|d|] == d; }
    DelimitedClose(x, d);
    AppendAssoc(d, x, d);
    assert s[|d|..q] == x;
    assert s[q + |d|..] == [];
  }

  /** Neither `**` nor its tail can start inside `x` when `x` holds no `**` and does not
      end in `*`. */
  lemma NoBoldBefore(x: string)
    requires !Occurs(x, BoldDelimiter) && (x == [] || x[|x| - 1] != '*')
    ensures forall i :: 0 <= i < |x| ==> !OccursAt(x + BoldDelimiter, BoldDelimiter, i)
  {
    var t := x + BoldDelimiter;
    forall i | 0 <= i < |x| ensures !OccursAt(t, BoldDelimiter, i) {
      if i + 2 <= |x| {
        assert t[i..i + 2] == x[i..i + 2];
        assert !OccursAt(x, BoldDelimiter, i);
      } else {
        assert t[i] == x[|x| - 1];
      }
    }
  }

  /** No backtick starts inside `x` when `x` holds none. */
  lemma NoBacktickBefore(x: string)
    requires '`' !in x
    ensures forall i :: 0 <= i < |x| ==> !OccursAt(x + Backtick, Backtick, i)
  {
    var t := x + Backtick;
    forall i | 0 <= i < |x| ensures !OccursAt(t, Backtick, i) {
      assert t[i..i + 1][0] == x[i];
    }
  }

  /** `**x**` on one line, with no `**` in `x` and `x` not ending in `*`, becomes bold. */
  lemma BoldSpan(x: string)
    requires !Occurs(x, BoldDelimiter) && (x == [] || x[|x| - 1] != '*')
    requires forall i :: 0 <= i < |x| ==> !IsLineTerminator(x[i])
    ensures Wrap(BoldDelimiter + x + BoldDelimiter, BoldDelimiter, StrongOpen, StrongClose)
            == StrongOpen + x + StrongClose
  {
    NoBoldBefore(x);
    DelimitedSpan(x, BoldDelimiter, StrongOpen, StrongClose);
  }

  /** `` `x` `` on one line, with no backtick in `x`, becomes inline code. */
  lemma InlineCodeSpan(x: string)
    requires '`' !in x
    requires forall i :: 0 <= i < |x| ==> !IsLineTerminator(x[i])
    ensures Wrap(Backtick + x + Backtick, Backtick, InlineCodeOpen, InlineCodeClose)
            == InlineCodeOpen + x + InlineCodeClose
  {
    NoBacktickBefore(x);
    DelimitedSpan(x, Backtick, InlineCodeOpen, InlineCodeClose);
  }

  // ---------------------------------------------------------------- step 5: newlines

  /** `s.replace(/\n/g, '<br/>')`. */
  function Breaks(s: string): string
    decreases |s|
  {
    if s == [] then []
    else if s[0] == '\n' then LineBreak + Breaks(s[1..])
    else [s[0]] + Breaks(s[1..])
  }

  lemma {:induction false} BreaksLeaveNoNewline(s: string)
    ensures '\n' !in Breaks(s)
    decreases |s|
  {
    if s != [] {
      BreaksLeaveNoNewline(s[1..]);
    }
  }

  /** The rules that run between extraction and restoration, in source order. */
  function Rewrite(t: string): string {
    Breaks(Wrap(Wrap(Headings(t), Backtick, InlineCodeOpen, InlineCodeClose),
                BoldDelimiter, StrongOpen, StrongClose))
  }

  /** Outside the code blocks the output has no newline left. */
  lemma RewriteLeavesNoNewline(t: string)
    ensures '\n' !in Rewrite(t)
  {
    BreaksLeaveNoNewline(Wrap(Wrap(Headings(t), Backtick, InlineCodeOpen, InlineCodeClose),
                              BoldDelimiter, StrongOpen, StrongClose));
  }

  // ---------------------------------------------------------------- the rules keep placeholders

  /** The step every rule takes when it keeps the first character: a word found in the
      input is found in the output when the output starts the same way and the rest of
      the input is rewritten keeping its words. */
  lemma WordKeptPastHead(c: char, s1: string, head: string, t1: string, w: string)
    requires IsWord(w) && w != [] && Occurs([c] + s1, w)
    requires Occurs(s1, w) ==> Occurs(t1, w)
    requires StartsWith([c] + s1, w) ==> StartsWith(head + t1, w)
    ensures Occurs(head + t1, w)
  {
    var i :| 0 <= i <= |[c] + s1| && OccursAt([c] + s1, w, i);
    if i == 0 {
      assert StartsWith([c] + s1, w);
      assert OccursAt(head + t1, w, 0);
    } else {
      OccursDropFirst([c] + s1, w, i);
      assert ([c] + s1)[1..] == s1;
      OccursInMiddle(head, t1, "", w);
      assert head + t1 + "" == head + t1;
    }
  }

  /** The step a heading rule takes on a marked line. */
  lemma WordKeptAcrossLine(marker: string, line: string, rest: string, open: string, close: string,
                           tail: string, w: string)
    requires IsWord(w) && w != [] && marker != [] && NoWordChar(marker)
    requires rest == [] || !IsWordChar(rest[0])
    requires Occurs(marker + line + rest, w)
    requires Occurs(rest, w) ==> Occurs(tail, w)
    ensures Occurs(open + line + close + tail, w)
  {
    AppendAssoc(marker, line, rest);
    assert "" + marker + (line + rest) == marker + (line + rest);
    WordOccursSplit("", marker, line + rest, w);
    if rest != [] && !Occurs(line, w) {
      assert rest == [rest[0]] + rest[1..];
      AppendAssoc(line, [rest[0]], rest[1..]);
      WordOccursSplit(line, [rest[0]], rest[1..], w);
      OccursAfter([rest[0]], rest[1..], w);
      OccursAfter(open + line + close, tail, w);
    } else {
      if rest == [] {
        assert line + rest == line;
      }
      OccursInMiddle(open, line, close + tail, w);
      AppendAssoc(open + line, close, tail);
    }
  }

  /** The step a delimiter rule takes on a delimited span. */
  lemma WordKeptAcrossSpan(d: string, x: string, rest: string, open: string, close: string,
                           tail: string, w: string)
    requires IsWord(w) && w != [] && d != [] && NoWordChar(d)
    requires Occurs(d + x + d + rest, w)
    requires Occurs(rest, w) ==> Occurs(tail, w)
    ensures Occurs(open + x + close + tail, w)
  {
    assert d + x + d + rest == "" + d + (x + d + rest);
    WordOccursSplit("", d, x + d + rest, w);
    WordOccursSplit(x, d, rest, w);
    if Occurs(x, w) {
      OccursInMiddle(open, x, close + tail, w);
      assert open + x + (close + tail) == open + x + close + tail;
    } else {
      OccursInMiddle(open + x + close, tail, "", w);
      assert open + x + close + tail + "" == open + x + close + tail;
    }
  }

  lemma {:induction false} HeadingKeepsWordPrefix(s: string, marker: string, open: string, close: string,
                                                  atLineStart: bool, w: string)
    requires marker != [] && NoWordChar(marker) && IsWord(w) && StartsWith(s, w)
    ensures StartsWith(Heading(s, marker, open, close, atLineStart), w)
    decreases |s|
  {
    if w != [] {
      assert s[0] == w[0];
      assert !StartsWith(s, marker) by { assert !IsWordChar(marker[0]); }
      assert StartsWith(s[1..], w[1..]);
      HeadingKeepsWordPrefix(s[1..], marker, open, close, IsLineTerminator(s[0]), w[1..]);
    }
  }

  lemma HeadingLine(s: string, marker: string, open: string, close: string)
    requires marker != [] && StartsWith(s, marker)
    ensures var n := LineLength(s[|marker|..]);
            var line, rest := s[|marker|..|marker| + n], s[|marker| + n..];
            && s == marker + line + rest
            && (rest == [] || IsLineTerminator(rest[0]))
            && Heading(s, marker, open, close, true)
               == open + line + close + Heading(rest, marker, open, close, false)
  {
    var n := LineLength(s[|marker|..]);
    var line, rest := s[|marker|..|marker| + n], s[|marker| + n..];
    assert s[|marker|..] == line + rest;
    assert s == s[..|marker|] + s[|marker|..];
    AppendAssoc(marker, line, rest);
    if |marker| + n < |s| {
      assert s[|marker| + n..][0] == s[|marker|..][n];
    }
  }

  lemma {:induction false} HeadingKeepsWords(s: string, marker: string, open: string, close: string,
                                             atLineStart: bool, w: string)
    requires marker != [] && NoWordChar(marker) && IsWord(w) && w != [] && Occurs(s, w)
    ensures Occurs(Heading(s, marker, open, close, atLineStart), w)
    decreases |s|
  {
    if atLineStart && StartsWith(s, marker) {
      HeadingLine(s, marker, open, close);
      var n := LineLength(s[|marker|..]);
      var rest := s[|marker| + n..];
      if Occurs(rest, w) {
        HeadingKeepsWords(rest, marker, open, close, false, w);
      }
      WordKeptAcrossLine(marker, s[|marker|..|marker| + n], rest, open, close,
                         Heading(rest, marker, open, close, false), w);
    } else {
      var tail := Heading(s[1..], marker, open, close, IsLineTerminator(s[0]));
      assert Heading(s, marker, open, close, atLineStart) == [s[0]] + tail;
      if Occurs(s[1..], w) {
        HeadingKeepsWords(s[1..], marker, open, close, IsLineTerminator(s[0]), w);
      }
      if StartsWith(s, w) {
        HeadingKeepsWordPrefix(s, marker, open, close, atLineStart, w);
      }
      assert s == [s[0]] + s[1..];
      WordKeptPastHead(s[0], s[1..], [s[0]], tail, w);
    }
  }

  lemma {:induction false} WrapKeepsWordPrefix(s: string, d: string, open: string, close: string, w: string)
    requires d != [] && NoWordChar(d) && IsWord(w) && StartsWith(s, w)
    ensures StartsWith(Wrap(s, d, open, close), w)
    decreases |s|
  {
    if w != [] {
      assert s[0] == w[0];
      assert !StartsWith(s, d) by { assert !IsWordChar(d[0]); }
      assert StartsWith(s[1..], w[1..]);
      WrapKeepsWordPrefix(s[1..], d, open, close, w[1..]);
    }
  }

  /** A span opened by `d` at 0 and closed by `d` at `q`, cut at its delimiters. */
  lemma SpanCut(s: string, d: string, q: nat)
    requires StartsWith(s, d) && |d| <= q && OccursAt(s, d, q)
    ensures s == d + s[|d|..q] + d + s[q + |d|..]
  {
    var x, rest := s[|d|..q], s[q + |d|..];
    assert s[..q] == d + x;
    assert s[q..] == d + rest;
    assert s == s[..q] + s[q..];
    AppendAssoc(d + x, d, rest);
  }

  lemma WrapSpan(s: string, d: string, open: string, close: string)
    requires d != [] && StartsWith(s, d) && FindClose(s, d, |d|).Some?
    ensures var q := FindClose(s, d, |d|).value;
            && s == d + s[|d|..q] + d + s[q + |d|..]
            && Wrap(s, d, open, close) == open + s[|d|..q] + close + Wrap(s[q + |d|..], d, open, close)
  {
    SpanCut(s, d, FindClose(s, d, |d|).value);
  }

  lemma {:induction false} WrapKeepsWords(s: string, d: string, open: string, close: string, w: string)
    requires d != [] && NoWordChar(d) && IsWord(w) && w != [] && Occurs(s, w)
    ensures Occurs(Wrap(s, d, open, close), w)
    decreases |s|
  {
    if StartsWith(s, d) && FindClose(s, d, |d|).Some? {
      WrapSpan(s, d, open, close);
      var q := FindClose(s, d, |d|).value;
      var rest := s[q + |d|..];
      if Occurs(rest, w) {
        WrapKeepsWords(rest, d, open, close, w);
      }
      WordKeptAcrossSpan(d, s[|d|..q], rest, open, close, Wrap(rest, d, open, close), w);
    } else {
      var tail := Wrap(s[1..], d, open, close);
      assert Wrap(s, d, open, close) == [s[0]] + tail;
      if Occurs(s[1..], w) {
        WrapKeepsWords(s[1..], d, open, close, w);
      }
      if StartsWith(s, w) {
        WrapKeepsWordPrefix(s, d, open, close, w);
      }
      assert s == [s[0]] + s[1..];
      WordKeptPastHead(s[0], s[1..], [s[0]], tail, w);
    }
  }

  lemma {:induction false} BreaksKeepWordPrefix(s: string, w: string)
    requires IsWord(w) && StartsWith(s, w)
    ensures StartsWith(Breaks(s), w)
    decreases |s|
  {
    if w != [] {
      assert s[0] == w[0];
      assert StartsWith(s[1..], w[1..]);
      BreaksKeepWordPrefix(s[1..], w[1..]);
    }
  }

  lemma {:induction false} BreaksKeepWords(s: string, w: string)
    requires IsWord(w) && w != [] && Occurs(s, w)
    ensures Occurs(Breaks(s), w)
    decreases |s|
  {
    var head := if s[0] == '\n' then LineBreak else [s[0]];
    var tail := Breaks(s[1..]);
    assert Breaks(s) == head + tail;
    if Occurs(s[1..], w) {
      BreaksKeepWords(s[1..], w);
    }
    if StartsWith(s, w) {
      BreaksKeepWordPrefix(s, w);
    }
    assert s == [s[0]] + s[1..];
    WordKeptPastHead(s[0], s[1..], head, tail, w);
  }

  /** Every word in the text, and so every placeholder, survives the rewrite rules. */
  lemma RewriteKeepsWords(t: string, w: string)
    requires IsWord(w) && w != [] && Occurs(t, w)
    ensures Occurs(Rewrite(t), w)
  {
    HeadingKeepsWords(t, H3Marker, H3Open, H3Close, true, w);
    var h3 := Heading(t, H3Marker, H3Open, H3Close, true);
    HeadingKeepsWords(h3, H2Marker, H2Open, H2Close, true, w);
    var h := Headings(t);
    WrapKeepsWords(h, Backtick, InlineCodeOpen, InlineCodeClose, w);
    var c := Wrap(h, Backtick, InlineCodeOpen, InlineCodeClose);
    WrapKeepsWords(c, BoldDelimiter, StrongOpen, StrongClose, w);
    BreaksKeepWords(Wrap(c, BoldDelimiter, StrongOpen, StrongClose), w);
  }

  lemma {:induction false} HeadingFixesWord(w: string, marker: string, open: string, close: string, atLineStart: bool)
    requires marker != [] && NoWordChar(marker) && IsWord(w)
    ensures Heading(w, marker, open, close, atLineStart) == w
    decreases |w|
  {
    if w != [] {
      assert !StartsWith(w, marker) by { assert !IsWordChar(marker[0]); }
      HeadingFixesWord(w[1..], marker, open, close, IsLineTerminator(w[0]));
    }
  }

  lemma {:induction false} WrapFixesWord(w: string, d: string, open: string, close: string)
    requires d != [] && NoWordChar(d) && IsWord(w)
    ensures Wrap(w, d, open, close) == w
    decreases |w|
  {
    if w != [] {
      assert !StartsWith(w, d) by { assert !IsWordChar(d[0]); }
      WrapFixesWord(w[1..], d, open, close);
    }
  }

  lemma {:induction false} BreaksFixWord(w: string)
    requires IsWord(w)
    ensures Breaks(w) == w
    decreases |w|
  {
    if w != [] {
      BreaksFixWord(w[1..]);
    }
  }

  /** A text made only of word characters, such as a lone placeholder, is left as it is. */
  lemma RewriteFixesWord(w: string)
    requires IsWord(w)
    ensures Rewrite(w) == w
  {
    HeadingFixesWord(w, H3Marker, H3Open, H3Close, true);
    HeadingFixesWord(w, H2Marker, H2Open, H2Close, true);
    WrapFixesWord(w, Backtick, InlineCodeOpen, InlineCodeClose);
    WrapFixesWord(w, BoldDelimiter, StrongOpen, StrongClose);
    BreaksFixWord(w);
  }

  // ---------------------------------------------------------------- step 6: putting the blocks back

  /** `x.replace(pat, () => by)`: the first occurrence of `pat` replaced, character for
      character, by `by`. Without an occurrence the text is unchanged; with one, the text
      before and after it is kept, `by` stands where `pat` stood and the length changes by
      the difference of the two. */
  function ReplaceFirst(x: string, pat: string, block: string): (r: string)
    requires pat != []
    ensures !Occurs(x, pat) ==> r == x
    ensures Occurs(x, pat) ==>
              var k := IndexOf(x, pat, 0).value;
              && |r| == |x| - |pat| + |block|
              && r[..k] == x[..k] && OccursAt(r, block, k) && r[k + |block|..] == x[k + |pat|..]
    ensures IndexOf(x, pat, 0).None? ==> r == x
    ensures IndexOf(x, pat, 0).Some? ==>
              var k := IndexOf(x, pat, 0).value;
              r == x[..k] + block + x[k + |pat|..]
  {
    match IndexOf(x, pat, 0)
    case None => x
    case Some(k) =>
      var r := x[..k] + block + x[k + |pat|..];
      assert r[k..k + |block|] == block;
      assert r[k + |block|..] == x[k + |pat|..];
      r
  }

  /** GetSubstitution of ECMA-262 for a string pattern (no capture groups): `$$`, `$&`,
      `` $` `` and `$'` are expanded; every other `$` stands for itself. */
  function Substitution(template: string, matched: string, before: string, after: string): string
    decreases |template|
  {
    if template == [] then []
    else if template[0] == '$' && |template| >= 2 then
      if template[1] == '$' then "$" + Substitution(template[2..], matched, before, after)
      else if template[1] == '&' then matched + Substitution(template[2..], matched, before, after)
      else if template[1] == '`' then before + Substitution(template[2..], matched, before, after)
      else if template[1] == '\'' then after + Substitution(template[2..], matched, before, after)
      else "$" + Substitution(template[1..], matched, before, after)
    else [template[0]] + Substitution(template[1..], matched, before, after)
  }

  /** `x.replace(pat, by)` with a string replacement, as the source calls it. */
  function ReplaceFirstAsWritten(x: string, pat: string, block: string): string
    requires pat != []
  {
    match IndexOf(x, pat, 0)
    case None => x
    case Some(k) => x[..k] + Substitution(block, pat, x[..k], x[k + |pat|..]) + x[k + |pat|..]
  }

  /** The `forEach` over the blocks from index `i` on, inserting each literally. */
  function Restored(x: string, blocks: seq<string>, i: nat): string
    requires i <= |blocks|
    decreases |blocks| - i
  {
    if i == |blocks| then x
    else Restored(ReplaceFirst(x, Placeholder(i), blocks[i]), blocks, i + 1)
  }

  /** The same loop with the source's `replace(string, string)`. */
  function RestoredAsWritten(x: string, blocks: seq<string>, i: nat): string
    requires i <= |blocks|
    decreases |blocks| - i
  {
    if i == |blocks| then x
    else RestoredAsWritten(ReplaceFirstAsWritten(x, Placeholder(i), blocks[i]), blocks, i + 1)
  }

  /** Puts the blocks back in order, each in place of the first copy of its placeholder. */
  method RestoreCodeBlocks(x: string, blocks: seq<string>) returns (r: string)
    ensures r == Restored(x, blocks, 0)
  {
    r := x;
    var i := 0;
    while i < |blocks|
      invariant 0 <= i <= |blocks|
      invariant Restored(x, blocks, 0) == Restored(r, blocks, i)
    {
      r := ReplaceFirst(r, Placeholder(i), blocks[i]);
      i := i + 1;
    }
  }

  /** The text with every fenced block replaced by its HTML: what extraction followed by
      restoration should give. */
  function Expanded(ps: seq<Piece>): string
    decreases |ps|
  {
    if ps == [] then ""
    else (match ps[0]
          case Plain(t) => t
          case Code(c) => CodeBlockHtml(c)) + Expanded(ps[1..])
  }

  /** The only places in a placeholder where two underscores stand together are its two
      ends. */
  lemma PlaceholderUnderscores(k: nat, m: nat)
    requires 1 <= m <= |PlaceholderStart| - 1
    ensures !(Placeholder(k)[m] == '_' && Placeholder(k)[m + 1] == '_')
  {
    var ph := Placeholder(k);
    NatToStringIsDigits(k);
    assert ph[|PlaceholderStart|] == NatToString(k)[0];
    assert ph[m] == PlaceholderStart[m] && (m + 1 < |PlaceholderStart| ==> ph[m + 1] == PlaceholderStart[m + 1]);
  }

  /** A placeholder starts with its opening. */
  lemma PlaceholderOpens(k: nat)
    ensures |Placeholder(k)| > |PlaceholderStart| && Placeholder(k)[..|PlaceholderStart|] == PlaceholderStart
    ensures Placeholder(k)[0] == '_' && Placeholder(k)[1] == '_'
  {
  }

  /** No copy of a placeholder starts inside a text without a placeholder opening and runs
      on into the placeholder that follows it. */
  lemma NoCopyBefore(e: string, k: nat, tail: string, i: nat)
    requires !Occurs(e, PlaceholderStart) && i < |e|
    ensures !OccursAt(e + (Placeholder(k) + tail), Placeholder(k), i)
  {
    var ph := Placeholder(k);
    var x := e + (ph + tail);
    var n := |PlaceholderStart|;
    PlaceholderOpens(k);
    if OccursAt(x, ph, i) {
      var y := x[i..i + |ph|];
      if i + n <= |e| {
        OccursAtShorter(x, ph, i, n);
        OccursInHead(e, ph + tail, PlaceholderStart, i);
      } else {
        var m := |e| - i;
        assert y[m] == x[|e|] && y[m + 1] == x[|e| + 1];
        PlaceholderUnderscores(k, m);
      }
    }
  }

  /** After a text that holds no placeholder opening, the placeholder that follows it is
      its first copy. */
  lemma PlaceholderAfter(e: string, k: nat, tail: string)
    requires !Occurs(e, PlaceholderStart)
    ensures OccursAt(e + (Placeholder(k) + tail), Placeholder(k), |e|)
    ensures forall i :: 0 <= i < |e| ==> !OccursAt(e + (Placeholder(k) + tail), Placeholder(k), i)
  {
    var ph := Placeholder(k);
    assert (e + (ph + tail))[|e|..|e| + |ph|] == ph;
    forall i | 0 <= i < |e| ensures !OccursAt(e + (ph + tail), ph, i) {
      NoCopyBefore(e, k, tail, i);
    }
  }

  /** After a text that holds no placeholder opening, the first copy of a placeholder is
      the one that follows it. */
  lemma FirstPlaceholderAt(e: string, k: nat, tail: string)
    requires !Occurs(e, PlaceholderStart)
    ensures IndexOf(e + (Placeholder(k) + tail), Placeholder(k), 0) == Some(|e|)
  {
    PlaceholderAfter(e, k, tail);
    IndexOfIs(e + (Placeholder(k) + tail), Placeholder(k), 0, |e|);
  }

  /** The block replaces the placeholder that follows a text without a placeholder
      opening. */
  lemma RestoreOneBlock(e: string, k: nat, html: string, tail: string)
    requires !Occurs(e, PlaceholderStart)
    ensures ReplaceFirst(e + (Placeholder(k) + tail), Placeholder(k), html) == (e + html) + tail
  {
    var x := e + (Placeholder(k) + tail);
    FirstPlaceholderAt(e, k, tail);
    assert x[..|e|] == e && x[|e| + |Placeholder(k)|..] == tail;
  }

  /** Restoring into an extracted text, from block `k` on, after a part `e` already done:
      each placeholder is replaced by its own block, so the extracted pieces come back
      with their blocks in place, provided the result holds no placeholder opening. */
  lemma {:induction false} RestoreFrom(e: string, ps: seq<Piece>, blocks: seq<string>, k: nat)
    requires k + |CodeBlocks(ps)| == |blocks| && blocks[k..] == CodeBlocks(ps)
    requires !Occurs(e + Expanded(ps), PlaceholderStart)
    ensures Restored(e + Placeheld(ps, k), blocks, k) == e + Expanded(ps)
    decreases |ps|
  {
    if ps == [] {
      assert e + Placeheld(ps, k) == e + Expanded(ps) == e;
    } else {
      var rest := ps[1..];
      match ps[0]
      case Plain(t) =>
        AppendAssoc(e, t, Placeheld(rest, k));
        AppendAssoc(e, t, Expanded(rest));
        RestoreFrom(e + t, rest, blocks, k);
      case Code(c) =>
        var html, tail := CodeBlockHtml(c), Placeheld(rest, k + 1);
        AppendAssoc(e, html, Expanded(rest));
        NoOccurrenceInHead(e, html + Expanded(rest), PlaceholderStart);
        assert blocks[k] == html && blocks[k + 1..] == CodeBlocks(rest) by {
          assert blocks[k..][1..] == blocks[k + 1..];
        }
        RestoreOneBlock(e, k, html, tail);
        RestoreFrom(e + html, rest, blocks, k + 1);
    }
  }

  /** Putting the blocks back undoes the extraction: each placeholder gets its own block,
      provided the text with its blocks in place holds no placeholder opening (one written
      by the user would take a block instead). */
  lemma RestoreUndoesExtraction(s: string)
    requires !Occurs(Expanded(Pieces(s)), PlaceholderStart)
    ensures Restored(Placeheld(Pieces(s), 0), CodeBlocks(Pieces(s)), 0) == Expanded(Pieces(s))
  {
    var ps := Pieces(s);
    assert "" + Expanded(ps) == Expanded(ps) && "" + Placeheld(ps, 0) == Placeheld(ps, 0);
    RestoreFrom("", ps, CodeBlocks(ps), 0);
  }

  // ---------------------------------------------------------------- the whole transform

  /** What `renderMarkdown` returns, with the blocks inserted verbatim. */
  function Rendered(text: string): (html: string)
    ensures text == "" ==> html == ""
  {
    if text == "" then ""
    else
      var ps := Pieces(Unescape(text));
      Restored(Rewrite(Placeheld(ps, 0)), CodeBlocks(ps), 0)
  }

  /** What `renderMarkdown` returns as written, with `$` patterns in the blocks expanded. */
  function RenderedAsWritten(text: string): (html: string)
    ensures text == "" ==> html == ""
  {
    if text == "" then ""
    else
      var ps := Pieces(Unescape(text));
      RestoredAsWritten(Rewrite(Placeheld(ps, 0)), CodeBlocks(ps), 0)
  }

  /** `renderMarkdown` step by step, with one change: the blocks go back in verbatim,
      where the source's string replacement expands `$` patterns in them
      (`RenderedAsWritten`). */
  method RenderMarkdown(text: string) returns (html: string)
    ensures html == Rendered(text)
  {
    if text == "" {
      return "";
    }
    var cleanText := Unescape(text);
    var codeBlocks;
    cleanText, codeBlocks := ExtractCodeBlocks(cleanText);
    cleanText := Heading(cleanText, H3Marker, H3Open, H3Close, true);
    cleanText := Heading(cleanText, H2Marker, H2Open, H2Close, true);
    cleanText := Wrap(cleanText, Backtick, InlineCodeOpen, InlineCodeClose);
    cleanText := Wrap(cleanText, BoldDelimiter, StrongOpen, StrongClose);
    cleanText := Breaks(cleanText);
    html := RestoreCodeBlocks(cleanText, codeBlocks);
  }

  /** Every block's placeholder is still in the text when the blocks are put back. */
  lemma PlaceholdersSurviveRewrite(text: string)
    ensures var ps := Pieces(Unescape(text));
            forall i :: 0 <= i < |CodeBlocks(ps)| ==> Occurs(Rewrite(Placeheld(ps, 0)), Placeholder(i))
  {
    var ps := Pieces(Unescape(text));
    forall i | 0 <= i < |CodeBlocks(ps)| ensures Occurs(Rewrite(Placeheld(ps, 0)), Placeholder(i)) {
      PlaceheldHoldsPlaceholder(ps, 0, i);
      PlaceholderIsWord(i);
      RewriteKeepsWords(Placeheld(ps, 0), Placeholder(i));
    }
  }

  /** The code of a block written as one fence pair: no fence inside, and no backtick
      at its end that would close the fence early. */
  predicate PlainCode(c: string) {
    !Occurs(c, Fence) && (c == [] || c[|c| - 1] != '`')
  }

  lemma NoFenceInside(c: string, j: nat)
    requires PlainCode(c) && 3 <= j < 3 + |c|
    ensures !OccursAt(Fence + c + Fence, Fence, j)
  {
    var s := Fence + c + Fence;
    if j + 3 <= 3 + |c| {
      assert s[j..j + 3] == c[j - 3..j];
      assert !OccursAt(c, Fence, j - 3);
    } else {
      assert s[j..j + 3][3 + |c| - 1 - j] == c[|c| - 1];
      assert Fence[3 + |c| - 1 - j] == '`';
    }
  }

  lemma SingleFenceBlock(c: string)
    requires PlainCode(c)
    ensures FirstBlock(Fence + c + Fence) == Block(0, 3 + |c|)
  {
    var s := Fence + c + Fence;
    assert s[0..3] == Fence;
    assert s[3 + |c|..3 + |c| + 3] == Fence;
    IndexOfIs(s, Fence, 0, 0);
    forall j | 3 <= j < 3 + |c| ensures !OccursAt(s, Fence, j) {
      NoFenceInside(c, j);
    }
    IndexOfIs(s, Fence, 3, 3 + |c|);
  }

  lemma EmptyPieces()
    ensures Pieces([]) == [Plain([])]
  {
    assert FirstBlock([]).NoBlock?;
  }

  /** What is left after the closing fence at the very end of a text is cut as one
      empty plain piece. */
  lemma EmptyTailPieces(s: string, q: nat)
    requires q + 3 == |s|
    ensures Pieces(s[q + 3..]) == [Plain([])]
  {
    assert s[q + 3..] == [];
    EmptyPieces();
  }

  /** Those pieces leave placeholder `k` and the one block. */
  lemma OneBlockExtracted(c: string, k: nat)
    ensures Placeheld([Plain([]), Code(c), Plain([])], k) == Placeholder(k)
    ensures CodeBlocks([Plain([]), Code(c), Plain([])]) == [CodeBlockHtml(c)]
  {
    var ps, tail, last := [Plain([]), Code(c), Plain([])], [Code(c), Plain([])], [Plain([])];
    assert ps[1..] == tail && tail[1..] == last && last[1..] == [];
    assert Placeheld(last, k + 1) == [] && CodeBlocks(last) == [];
    assert Placeheld(tail, k) == Placeholder(k) + [];
    assert CodeBlocks(tail) == [CodeBlockHtml(c)] + [];
  }

  lemma SingleFencePieces(c: string)
    requires PlainCode(c)
    ensures Placeheld(Pieces(Fence + c + Fence), 0) == Placeholder(0)
    ensures CodeBlocks(Pieces(Fence + c + Fence)) == [CodeBlockHtml(c)]
  {
    var s := Fence + c + Fence;
    SingleFenceBlock(c);
    var q := |s| - 3;
    PiecesCut(s, 0, q);
    EmptyTailPieces(s, q);
    assert s[..0] == [] && s[3..q] == c;
    assert Pieces(s) == [Plain([]), Code(c), Plain([])];
    OneBlockExtracted(c, 0);
  }

  lemma FencedKeepsNoBackslash(c: string)
    requires '\\' !in c
    ensures Unescape(Fence + c + Fence) == Fence + c + Fence
  {
    var s := Fence + c + Fence;
    assert '\\' !in s by {
      assert forall i :: 0 <= i < |s| ==> s[i] == '`' || s[i] == c[i - 3];
    }
  }

  /** Placeholder 0 alone goes through the rewrite rules unchanged. */
  lemma PlaceholderZeroFixed(ps: seq<Piece>)
    requires Placeheld(ps, 0) == Placeholder(0)
    ensures Rewrite(Placeheld(ps, 0)) == Placeholder(0)
  {
    PlaceholderIsWord(0);
    RewriteFixesWord(Placeholder(0));
  }

  /** A text that is one fenced block: extraction leaves only placeholder 0, which the
      rules leave alone. */
  lemma SingleFence(c: string)
    requires PlainCode(c) && '\\' !in c
    ensures var ps := Pieces(Unescape(Fence + c + Fence));
            Rewrite(Placeheld(ps, 0)) == Placeholder(0) && CodeBlocks(ps) == [CodeBlockHtml(c)]
  {
    FencedKeepsNoBackslash(c);
    SingleFencePieces(c);
    PlaceholderZeroFixed(Pieces(Fence + c + Fence));
  }

  lemma RestoreSingle(b: string)
    ensures Restored(Placeholder(0), [b], 0) == b
    ensures RestoredAsWritten(Placeholder(0), [b], 0) == Substitution(b, Placeholder(0), "", "")
  {
    var ph := Placeholder(0);
    assert ph[0..|ph|] == ph;
    IndexOfIs(ph, ph, 0, 0);
    assert ph[..0] == "" && ph[|ph|..] == "";
  }

  /** A text whose extraction leaves only placeholder 0, holding block `b`, renders as `b`. */
  lemma RenderedSingle(text: string, b: string)
    requires text != ""
    requires var ps := Pieces(Unescape(text));
             Rewrite(Placeheld(ps, 0)) == Placeholder(0) && CodeBlocks(ps) == [b]
    ensures Rendered(text) == b
    ensures RenderedAsWritten(text) == Substitution(b, Placeholder(0), "", "")
  {
    RestoreSingle(b);
  }

  /** Fenced code comes out exactly as written, trimmed and wrapped: `### x`, `**y**` or a
      backtick pair inside a fence are not turned into tags. */
  lemma FenceRendersVerbatim(c: string)
    requires PlainCode(c) && '\\' !in c
    ensures Rendered(Fence + c + Fence) == CodeBlockHtml(c)
  {
    SingleFence(c);
    RenderedSingle(Fence + c + Fence, CodeBlockHtml(c));
  }

  /** As written, the block is passed through the `$` patterns of `replace`. */
  lemma FenceRendersAsWritten(c: string)
    requires PlainCode(c) && '\\' !in c
    ensures RenderedAsWritten(Fence + c + Fence) == Substitution(CodeBlockHtml(c), Placeholder(0), "", "")
  {
    SingleFence(c);
    RenderedSingle(Fence + c + Fence, CodeBlockHtml(c));
  }

  lemma SubstitutionPlain(a: string, b: string, matched: string, before: string, after: string)
    requires '$' !in a
    ensures Substitution(a + b, matched, before, after) == a + Substitution(b, matched, before, after)
    decreases |a|
  {
    if a != [] {
      assert (a + b)[1..] == a[1..] + b;
      SubstitutionPlain(a[1..], b, matched, before, after);
    } else {
      assert a + b == b;
    }
  }

  lemma NoDollarInBlockTags()
    ensures '$' !in CodeBlockOpen && '$' !in CodeBlockClose
  {
  }

  /** `$$` between two texts without `$` becomes a single `$`. */
  lemma {:induction false} DoubleDollarSubstituted(a: string, b: string, matched: string)
    requires '$' !in a && '$' !in b
    ensures Substitution(a + "$$" + b, matched, "", "") == a + "$" + b
  {
    var t := "$$" + b;
    assert a + "$$" + b == a + t;
    SubstitutionPlain(a, t, matched, "", "");
    assert t[2..] == b;
    SubstitutionPlain(b, [], matched, "", "");
    assert b + [] == b;
  }

  lemma DollarCodeHasNoFence()
    ensures PlainCode("$$") && '\\' !in "$$"
  {
    forall j | 0 <= j <= 2 ensures !OccursAt("$$", Fence, j) {
    }
  }

  lemma DollarCodeIsPlain()
    ensures PlainCode("$$") && '\\' !in "$$" && CodeBlockHtml("$$") == CodeBlockOpen + "$$" + CodeBlockClose
  {
    DollarCodeHasNoFence();
    TrimKeepsEdgeless("$$");
  }

  /** As written, a block holding `$$` comes out with a single `$`. */
  lemma DollarPatternsRewritten()
    ensures RenderedAsWritten(Fence + "$$" + Fence) == CodeBlockOpen + "$" + CodeBlockClose
  {
    DollarCodeIsPlain();
    FenceRendersAsWritten("$$");
    NoDollarInBlockTags();
    DoubleDollarSubstituted(CodeBlockOpen, CodeBlockClose, Placeholder(0));
  }

  /** With the blocks inserted verbatim, the same text keeps both `$`. */
  lemma DollarsKept()
    ensures Rendered(Fence + "$$" + Fence) == CodeBlockOpen + "$$" + CodeBlockClose
  {
    DollarCodeIsPlain();
    FenceRendersVerbatim("$$");
  }
}
