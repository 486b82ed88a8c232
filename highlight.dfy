/**
 * The highlighter (`generateHighlightHTML`): an HTML overlay of the input in
 * which sensitive words are wrapped in a highlighting span, the text is
 * HTML-escaped and line breaks become `<br/>`.
 */
module Highlight {
  import opened Text
  import opened Classifier

  const Br: string := "<br/>"
  const SpanOpen: string := "<span class=\"highlight-word\">"
  const SpanClose: string := "</span>"

  /** `s.replace(/c/g, rep)`: every occurrence of `c` becomes `rep`. */
  function ReplaceChar(s: string, c: char, rep: string): string {
    if s == [] then []
    else (if s[0] == c then rep else [s[0]]) + ReplaceChar(s[1..], c, rep)
  }

  /** After the replacement no `c` is left, provided `rep` holds none. */
  lemma {:induction false} ReplaceRemoves(s: string, c: char, rep: string)
    requires forall k :: 0 <= k < |rep| ==> rep[k] != c
    ensures forall k :: 0 <= k < |ReplaceChar(s, c, rep)| ==> ReplaceChar(s, c, rep)[k] != c
    decreases |s|
  {
    if s != [] {
      ReplaceRemoves(s[1..], c, rep);
    }
  }

  /** A string without `c` is left as it is. */
  lemma {:induction false} ReplaceAbsent(s: string, c: char, rep: string)
    requires forall k :: 0 <= k < |s| ==> s[k] != c
    ensures ReplaceChar(s, c, rep) == s
    decreases |s|
  {
    if s != [] {
      ReplaceAbsent(s[1..], c, rep);
      assert s == [s[0]] + s[1..];
    }
  }

  lemma {:induction false} ReplaceAppend(a: string, b: string, c: char, rep: string)
    ensures ReplaceChar(a + b, c, rep) == ReplaceChar(a, c, rep) + ReplaceChar(b, c, rep)
    decreases |a|
  {
    if a == [] {
      assert a + b == b;
    } else {
      var ab := a + b;
      assert ab[0] == a[0] && ab[1..] == a[1..] + b;
      ReplaceAppend(a[1..], b, c, rep);
    }
  }

  /** The source's `esc`: `&` first, then `<`, then `>`. */
  function Escape(s: string): string {
    ReplaceChar(ReplaceChar(ReplaceChar(s, '&', "&amp;"), '<', "&lt;"), '>', "&gt;")
  }

  /** The entity of one character. */
  function EscapeChar(c: char): string {
    if c == '&' then "&amp;" else if c == '<' then "&lt;" else if c == '>' then "&gt;" else [c]
  }

  /** `\n` becomes `<br/>` everywhere in the assembled fragment. */
  function BreakLines(s: string): string {
    ReplaceChar(s, '\n', Br)
  }

  /** What one character becomes in the final overlay. */
  function HtmlChar(c: char): string {
    if c == '\n' then Br else EscapeChar(c)
  }

  /**
   * Escaping `&` first means the entities introduced later are not escaped
   * again, so the chain of replacements escapes each character on its own.
   */
  lemma {:induction false} EscapeHead(s: string)
    requires s != []
    ensures Escape(s) == EscapeChar(s[0]) + Escape(s[1..])
  {
    var h := if s[0] == '&' then "&amp;" else [s[0]];
    var t := ReplaceChar(s[1..], '&', "&amp;");
    assert ReplaceChar(s, '&', "&amp;") == h + t;
    ReplaceAppend(h, t, '<', "&lt;");
    var h2 := ReplaceChar(h, '<', "&lt;");
    var t2 := ReplaceChar(t, '<', "&lt;");
    ReplaceAppend(h2, t2, '>', "&gt;");
    if s[0] == '&' {
      assert h2 == "&amp;";
    } else if s[0] == '<' {
      assert h2 == "&lt;";
    } else {
      assert h2 == [s[0]];
    }
    assert ReplaceChar(h2, '>', "&gt;") == EscapeChar(s[0]);
  }

  lemma ReplaceSingle(c: char, d: char, rep: string)
    ensures ReplaceChar([c], d, rep) == if c == d then rep else [c]
  {
    assert [c][1..] == [];
  }

  // ---------------------------------------------------------------------------
  // Reading the overlay back

  /** What a reader of the overlay sees: characters and the start and end of a highlight. */
  datatype Mark = Ch(c: char) | Open | Close

  /** The markup of the overlay, each piece with the mark it reads as. */
  const Markup: seq<(string, Mark)> :=
    [(Br, Ch('\n')), (SpanOpen, Open), (SpanClose, Close), ("&amp;", Ch('&')), ("&lt;", Ch('<')), ("&gt;", Ch('>'))]

  /**
   * Reads the overlay markup back: `<br/>` is a line break, the span tags open
   * and close a highlight, the three entities stand for their characters, and
   * any other character stands for itself.
   */
  function ReadHtml(h: string): seq<Mark>
    decreases |h|
  {
    if h == [] then []
    else
      var (m, n) := NextMark(h, Markup);
      [m] + ReadHtml(h[n..])
  }

  /** The first mark of a non-empty overlay and how many characters it takes: the first piece of `table` it starts with. */
  function NextMark(h: string, table: seq<(string, Mark)>): (r: (Mark, nat))
    requires h != []
    ensures 1 <= r.1 <= |h|
  {
    if table == [] then (Ch(h[0]), 1)
    else if table[0].0 != [] && StartsWith(h, table[0].0) then (table[0].1, |table[0].0|)
    else NextMark(h, table[1..])
  }

  /** The first piece of the table that the overlay starts with decides the mark. */
  lemma {:induction false} NextMarkAt(h: string, table: seq<(string, Mark)>, k: nat)
    requires h != [] && k <= |table|
    requires forall i :: 0 <= i < k ==> !StartsWith(h, table[i].0)
    requires k < |table| ==> table[k].0 != [] && StartsWith(h, table[k].0)
    ensures NextMark(h, table) == if k < |table| then (table[k].1, |table[k].0|) else (Ch(h[0]), 1)
    decreases k
  {
    if k > 0 {
      assert !StartsWith(h, table[0].0);
      NextMarkAt(h, table[1..], k - 1);
    }
  }

  /** Plain characters, as marks. */
  function Chars(s: string): seq<Mark> {
    if s == [] then [] else [Ch(s[0])] + Chars(s[1..])
  }

  lemma Differs(h: string, p: string, k: nat)
    requires k < |h| && k < |p| && h[k] != p[k]
    ensures !StartsWith(h, p)
  {
  }

  lemma ReadPrefix(p: string, x: string)
    requires p != []
    ensures (p + x)[..|p|] == p && (p + x)[|p|..] == x
  {
  }

  lemma ReadHtmlChar(c: char, x: string)
    ensures ReadHtml(HtmlChar(c) + x) == [Ch(c)] + ReadHtml(x)
  {
    var p := HtmlChar(c);
    var h := p + x;
    ReadPrefix(p, x);
    if c == '\n' {
      NextMarkAt(h, Markup, 0);
    } else if c == '&' {
      Differs(h, Br, 0); Differs(h, SpanOpen, 0); Differs(h, SpanClose, 0);
      NextMarkAt(h, Markup, 3);
    } else if c == '<' {
      Differs(h, Br, 0); Differs(h, SpanOpen, 0); Differs(h, SpanClose, 0); Differs(h, "&amp;", 1);
      NextMarkAt(h, Markup, 4);
    } else if c == '>' {
      Differs(h, Br, 0); Differs(h, SpanOpen, 0); Differs(h, SpanClose, 0); Differs(h, "&amp;", 1);
      Differs(h, "&lt;", 1);
      NextMarkAt(h, Markup, 5);
    } else {
      assert h[0] == c;
      Differs(h, Br, 0); Differs(h, SpanOpen, 0); Differs(h, SpanClose, 0); Differs(h, "&amp;", 0);
      Differs(h, "&lt;", 0); Differs(h, "&gt;", 0);
      NextMarkAt(h, Markup, 6);
    }
  }

  lemma ReadOpen(x: string)
    ensures ReadHtml(SpanOpen + x) == [Open] + ReadHtml(x)
  {
    ReadPrefix(SpanOpen, x);
    Differs(SpanOpen + x, Br, 1);
    NextMarkAt(SpanOpen + x, Markup, 1);
  }

  lemma ReadClose(x: string)
    ensures ReadHtml(SpanClose + x) == [Close] + ReadHtml(x)
  {
    ReadPrefix(SpanClose, x);
    Differs(SpanClose + x, Br, 1);
    Differs(SpanClose + x, SpanOpen, 1);
    NextMarkAt(SpanClose + x, Markup, 2);
  }

  lemma BreakEscapeChar(c: char)
    ensures BreakLines(EscapeChar(c)) == HtmlChar(c)
  {
    if c == '\n' {
      ReplaceSingle('\n', '\n', Br);
    } else {
      var e := EscapeChar(c);
      assert forall k :: 0 <= k < |e| ==> e[k] != '\n';
      ReplaceAbsent(e, '\n', Br);
    }
  }

  /** The overlay of a piece of text, character by character. */
  function Overlay(s: string): string {
    if s == [] then [] else HtmlChar(s[0]) + Overlay(s[1..])
  }

  /** Escaping and then breaking lines, as the source does, gives the per-character overlay. */
  lemma {:induction false} OverlayOfEscape(s: string)
    ensures BreakLines(Escape(s)) == Overlay(s)
    decreases |s|
  {
    if s != [] {
      EscapeHead(s);
      ReplaceAppend(EscapeChar(s[0]), Escape(s[1..]), '\n', Br);
      BreakEscapeChar(s[0]);
      OverlayOfEscape(s[1..]);
    } else {
      assert Escape(s) == [];
    }
  }

  /** The overlay of a text reads back as the text itself. */
  lemma {:induction false} ReadOverlay(s: string, x: string)
    ensures ReadHtml(Overlay(s) + x) == Chars(s) + ReadHtml(x)
    decreases |s|
  {
    if s == [] {
      assert Overlay(s) + x == x;
    } else {
      var h := HtmlChar(s[0]);
      var o := Overlay(s[1..]);
      AppendAssoc(h, o, x);
      ReadHtmlChar(s[0], o + x);
      ReadOverlay(s[1..], x);
      AppendAssoc([Ch(s[0])], Chars(s[1..]), ReadHtml(x));
    }
  }

  // ---------------------------------------------------------------------------
  // The overlay of a token list

  /** The fragment the loop appends for one word and the text around it. */
  function WordHtml(pre: string, w: string, post: string, highlight: bool): string {
    Escape(pre) + (if highlight then SpanOpen + Escape(w) + SpanClose else Escape(w)) + Escape(post)
  }

  /** The same fragment once its line breaks are converted. */
  function WordOverlay(pre: string, w: string, post: string, highlight: bool): string {
    Overlay(pre) + (if highlight then SpanOpen + Overlay(w) + SpanClose else Overlay(w)) + Overlay(post)
  }

  /** What the fragment means: the text, with the word highlighted when asked. */
  function WordMarks(pre: string, w: string, post: string, highlight: bool): seq<Mark> {
    Chars(pre) + (if highlight then [Open] + Chars(w) + [Close] else Chars(w)) + Chars(post)
  }

  function Fragment(c: Criteria, t: Token): string {
    WordHtml(t.Pre(), t.text, t.Post(), IsSensitive(c, t))
  }

  /** The fragments of all tokens, in order, before line breaks are converted. */
  function HighlightTokens(c: Criteria, toks: seq<Token>): string {
    if toks == [] then "" else Fragment(c, toks[0]) + HighlightTokens(c, toks[1..])
  }

  function TokenMarks(c: Criteria, t: Token): seq<Mark> {
    WordMarks(t.Pre(), t.text, t.Post(), IsSensitive(c, t))
  }

  function Marks(c: Criteria, toks: seq<Token>): seq<Mark> {
    if toks == [] then [] else TokenMarks(c, toks[0]) + Marks(c, toks[1..])
  }

  lemma {:induction false} HighlightAppend(c: Criteria, a: seq<Token>, b: seq<Token>)
    ensures HighlightTokens(c, a + b) == HighlightTokens(c, a) + HighlightTokens(c, b)
    decreases |a|
  {
    if a == [] {
      assert a + b == b;
    } else {
      var ab := a + b;
      assert ab[0] == a[0] && ab[1..] == a[1..] + b;
      HighlightAppend(c, a[1..], b);
    }
  }

  lemma NoNewline(s: string)
    requires s == SpanOpen || s == SpanClose || s == Br
    ensures forall k :: 0 <= k < |s| ==> s[k] != '\n'
  {
  }

  lemma BreakTags(e: string)
    ensures BreakLines(SpanOpen + e + SpanClose) == SpanOpen + BreakLines(e) + SpanClose
  {
    ReplaceAppend(SpanOpen + e, SpanClose, '\n', Br);
    ReplaceAppend(SpanOpen, e, '\n', Br);
    NoNewline(SpanOpen);
    NoNewline(SpanClose);
    ReplaceAbsent(SpanOpen, '\n', Br);
    ReplaceAbsent(SpanClose, '\n', Br);
  }

  lemma BreakWord(pre: string, w: string, post: string, highlight: bool)
    ensures BreakLines(WordHtml(pre, w, post, highlight)) == WordOverlay(pre, w, post, highlight)
  {
    var mid := if highlight then SpanOpen + Escape(w) + SpanClose else Escape(w);
    OverlayOfEscape(pre);
    OverlayOfEscape(w);
    OverlayOfEscape(post);
    if highlight {
      BreakTags(Escape(w));
    }
    ReplaceAppend(Escape(pre) + mid, Escape(post), '\n', Br);
    ReplaceAppend(Escape(pre), mid, '\n', Br);
  }

  /** Reading back two consecutive pieces, each read on its own. */
  lemma ReadTwo(a: string, b: string, x: string, ra: seq<Mark>, rb: seq<Mark>)
    requires ReadHtml(a + (b + x)) == ra + ReadHtml(b + x)
    requires ReadHtml(b + x) == rb + ReadHtml(x)
    ensures ReadHtml(a + b + x) == ra + rb + ReadHtml(x)
  {
    AppendAssoc(a, b, x);
  }

  /** Reading back three consecutive pieces, each read on its own. */
  lemma ReadThree(a: string, m: string, b: string, x: string, ra: seq<Mark>, rm: seq<Mark>, rb: seq<Mark>)
    requires ReadHtml(a + (m + (b + x))) == ra + ReadHtml(m + (b + x))
    requires ReadHtml(m + (b + x)) == rm + ReadHtml(b + x)
    requires ReadHtml(b + x) == rb + ReadHtml(x)
    ensures ReadHtml(a + m + b + x) == ra + rm + rb + ReadHtml(x)
  {
    AppendAssoc(a, m, b + x);
    AppendAssoc(a + m, b, x);
  }

  lemma ReadHighlighted(w: string, y: string)
    ensures ReadHtml(SpanOpen + Overlay(w) + SpanClose + y) == [Open] + Chars(w) + [Close] + ReadHtml(y)
  {
    ReadOpen(Overlay(w) + (SpanClose + y));
    ReadOverlay(w, SpanClose + y);
    ReadClose(y);
    ReadThree(SpanOpen, Overlay(w), SpanClose, y, [Open], Chars(w), [Close]);
  }

  lemma ReadPlainWord(pre: string, w: string, post: string, x: string)
    ensures ReadHtml(Overlay(pre) + Overlay(w) + Overlay(post) + x) == Chars(pre) + Chars(w) + Chars(post) + ReadHtml(x)
  {
    ReadOverlay(pre, Overlay(w) + (Overlay(post) + x));
    ReadOverlay(w, Overlay(post) + x);
    ReadOverlay(post, x);
    ReadThree(Overlay(pre), Overlay(w), Overlay(post), x, Chars(pre), Chars(w), Chars(post));
  }

  lemma ReadMarkedWord(pre: string, w: string, post: string, x: string)
    ensures ReadHtml(Overlay(pre) + (SpanOpen + Overlay(w) + SpanClose) + Overlay(post) + x)
         == Chars(pre) + ([Open] + Chars(w) + [Close]) + Chars(post) + ReadHtml(x)
  {
    var m := SpanOpen + Overlay(w) + SpanClose;
    ReadOverlay(pre, m + (Overlay(post) + x));
    ReadHighlighted(w, Overlay(post) + x);
    ReadOverlay(post, x);
    ReadThree(Overlay(pre), m, Overlay(post), x, Chars(pre), [Open] + Chars(w) + [Close], Chars(post));
  }

  lemma ReadWord(pre: string, w: string, post: string, highlight: bool, x: string)
    ensures ReadHtml(WordOverlay(pre, w, post, highlight) + x) == WordMarks(pre, w, post, highlight) + ReadHtml(x)
  {
    if highlight {
      ReadMarkedWord(pre, w, post, x);
    } else {
      ReadPlainWord(pre, w, post, x);
    }
  }

  /** Reading back one token's fragment, line breaks converted, gives that token's marks. */
  lemma ReadFragment(c: Criteria, t: Token, x: string)
    ensures ReadHtml(BreakLines(Fragment(c, t)) + x) == TokenMarks(c, t) + ReadHtml(x)
  {
    var h := IsSensitive(c, t);
    BreakWord(t.Pre(), t.text, t.Post(), h);
    ReadWord(t.Pre(), t.text, t.Post(), h, x);
  }

  /** Reading back the overlay of a token list gives the marks of its tokens, in order. */
  lemma {:induction false} ReadTokens(c: Criteria, toks: seq<Token>, x: string)
    ensures ReadHtml(BreakLines(HighlightTokens(c, toks)) + x) == Marks(c, toks) + ReadHtml(x)
    decreases |toks|
  {
    if toks == [] {
      assert BreakLines(HighlightTokens(c, toks)) + x == x;
    } else {
      var f := BreakLines(Fragment(c, toks[0]));
      var rest := BreakLines(HighlightTokens(c, toks[1..]));
      ReplaceAppend(Fragment(c, toks[0]), HighlightTokens(c, toks[1..]), '\n', Br);
      ReadFragment(c, toks[0], rest + x);
      ReadTokens(c, toks[1..], x);
      ReadTwo(f, rest, x, TokenMarks(c, toks[0]), Marks(c, toks[1..]));
    }
  }

  lemma HighlightSingle(c: Criteria, t: Token)
    ensures HighlightTokens(c, [t]) == Fragment(c, t)
  {
    assert [t][1..] == [];
  }

  /** One more token adds its fragment at the end. */
  lemma HighlightStep(c: Criteria, toks: seq<Token>, i: nat)
    requires i < |toks|
    ensures HighlightTokens(c, toks[..i + 1]) == HighlightTokens(c, toks[..i]) + Fragment(c, toks[i])
  {
    assert toks[..i + 1] == toks[..i] + [toks[i]];
    HighlightAppend(c, toks[..i], [toks[i]]);
    HighlightSingle(c, toks[i]);
  }

  lemma ReadBr()
    ensures ReadHtml(Br) == [Ch('\n')]
  {
    ReadHtmlChar('\n', "");
    assert Br + [] == Br;
  }

  /** The finished overlay reads back as the tokens' marks, then the extra line break if one was added. */
  lemma ReadFinal(c: Criteria, toks: seq<Token>, extra: string)
    requires extra == Br || extra == ""
    ensures ReadHtml(BreakLines(HighlightTokens(c, toks)) + extra)
         == Marks(c, toks) + (if extra == Br then [Ch('\n')] else [])
  {
    ReadTokens(c, toks, extra);
    if extra == Br {
      ReadBr();
    }
  }

  /**
   * `generateHighlightHTML`. The empty text gives a lone `<br/>`. Otherwise the
   * overlay is the tokens' fragments, in order, with line breaks converted; it
   * holds no raw line break, and it reads back as the tokens' text
   * with exactly the sensitive words highlighted, plus one more line break
   * when the text ends with one.
   */
  method GenerateHighlightHTML(c: Criteria, text: string, tokenize: string -> seq<Token>) returns (html: string)
    ensures text == [] ==> html == Br
    ensures text != [] ==>
      html == BreakLines(HighlightTokens(c, tokenize(text))) + (if text[|text| - 1] == '\n' then Br else "")
    ensures text != [] ==>
      ReadHtml(html) == Marks(c, tokenize(text)) + (if text[|text| - 1] == '\n' then [Ch('\n')] else [])
    ensures forall k :: 0 <= k < |html| ==> html[k] != '\n'
  {
    NoNewline(Br);
    if text == [] {
      return Br;
    }
    var toks := tokenize(text);
    html := "";
    var i := 0;
    while i < |toks|
      invariant 0 <= i <= |toks|
      invariant html == HighlightTokens(c, toks[..i])
    {
      var t := toks[i];
      ghost var before := html;
      html := html + Escape(t.Pre());
      if IsSensitive(c, t) {
        html := html + (SpanOpen + Escape(t.text) + SpanClose);
      } else {
        html := html + Escape(t.text);
      }
      html := html + Escape(t.Post());
      HighlightStep(c, toks, i);
      var mid := if IsSensitive(c, t) then SpanOpen + Escape(t.text) + SpanClose else Escape(t.text);
      AppendAssoc(before, Escape(t.Pre()) + mid, Escape(t.Post()));
      AppendAssoc(before, Escape(t.Pre()), mid);
      i := i + 1;
    }
    assert toks[..i] == toks;
    ghost var body := html;
    html := ReplaceChar(html, '\n', Br);
    ReplaceRemoves(body, '\n', Br);
    var extra := if text[|text| - 1] == '\n' then Br else "";
    html := html + extra;
    ReadFinal(c, toks, extra);
  }

  // ---------------------------------------------------------------------------
  // What the marks say

  /** The text a reader sees, highlights ignored. */
  function TextOf(ms: seq<Mark>): string {
    if ms == [] then ""
    else (match ms[0] case Ch(ch) => [ch] case _ => "") + TextOf(ms[1..])
  }

  /** The number of highlights opened. */
  function Opens(ms: seq<Mark>): nat {
    if ms == [] then 0 else (if ms[0] == Open then 1 else 0) + Opens(ms[1..])
  }

  function SensitiveCount(c: Criteria, toks: seq<Token>): nat {
    if toks == [] then 0 else (if IsSensitive(c, toks[0]) then 1 else 0) + SensitiveCount(c, toks[1..])
  }

  lemma {:induction false} TextAppend(a: seq<Mark>, b: seq<Mark>)
    ensures TextOf(a + b) == TextOf(a) + TextOf(b)
    decreases |a|
  {
    if a == [] {
      assert a + b == b;
    } else {
      var ab := a + b;
      assert ab[0] == a[0] && ab[1..] == a[1..] + b;
      TextAppend(a[1..], b);
    }
  }

  lemma {:induction false} OpensAppend(a: seq<Mark>, b: seq<Mark>)
    ensures Opens(a + b) == Opens(a) + Opens(b)
    decreases |a|
  {
    if a == [] {
      assert a + b == b;
    } else {
      var ab := a + b;
      assert ab[0] == a[0] && ab[1..] == a[1..] + b;
      OpensAppend(a[1..], b);
    }
  }

  lemma MarksThree(a: seq<Mark>, m: seq<Mark>, b: seq<Mark>)
    ensures TextOf(a + m + b) == TextOf(a) + TextOf(m) + TextOf(b)
    ensures Opens(a + m + b) == Opens(a) + Opens(m) + Opens(b)
  {
    TextAppend(a + m, b);
    TextAppend(a, m);
    OpensAppend(a + m, b);
    OpensAppend(a, m);
  }

  lemma {:induction false} CharsRead(s: string)
    ensures TextOf(Chars(s)) == s && Opens(Chars(s)) == 0
    decreases |s|
  {
    if s != [] {
      TextAppend([Ch(s[0])], Chars(s[1..]));
      OpensAppend([Ch(s[0])], Chars(s[1..]));
      CharsRead(s[1..]);
      assert [Ch(s[0])][1..] == [];
      assert s == [s[0]] + s[1..];
    }
  }

  lemma TagsRead()
    ensures TextOf([Open]) == "" && Opens([Open]) == 1
    ensures TextOf([Close]) == "" && Opens([Close]) == 0
  {
    assert [Open][1..] == [] && [Close][1..] == [];
  }

  lemma HighlightedRead(w: string)
    ensures TextOf([Open] + Chars(w) + [Close]) == w && Opens([Open] + Chars(w) + [Close]) == 1
  {
    CharsRead(w);
    MarksThree([Open], Chars(w), [Close]);
    TagsRead();
  }

  lemma WordMarksRead(pre: string, w: string, post: string, highlight: bool)
    ensures TextOf(WordMarks(pre, w, post, highlight)) == pre + w + post
    ensures Opens(WordMarks(pre, w, post, highlight)) == if highlight then 1 else 0
  {
    var mid := if highlight then [Open] + Chars(w) + [Close] else Chars(w);
    CharsRead(pre);
    CharsRead(post);
    if highlight {
      HighlightedRead(w);
    } else {
      CharsRead(w);
    }
    MarksThree(Chars(pre), mid, Chars(post));
  }

  /** The marks of one token spell out the text it covers, with one highlight when it is sensitive. */
  lemma TokenMarksRead(c: Criteria, t: Token)
    ensures TextOf(TokenMarks(c, t)) == Source(t)
    ensures Opens(TokenMarks(c, t)) == if IsSensitive(c, t) then 1 else 0
  {
    WordMarksRead(t.Pre(), t.text, t.Post(), IsSensitive(c, t));
  }

  /**
   * The marks of a token list spell out the text the tokens cover, and open
   * one highlight per sensitive token.
   */
  lemma {:induction false} MarksMeaning(c: Criteria, toks: seq<Token>)
    ensures TextOf(Marks(c, toks)) == Reconstruct(toks)
    ensures Opens(Marks(c, toks)) == SensitiveCount(c, toks)
    decreases |toks|
  {
    if toks != [] {
      var m := TokenMarks(c, toks[0]);
      var rest := Marks(c, toks[1..]);
      TextAppend(m, rest);
      OpensAppend(m, rest);
      TokenMarksRead(c, toks[0]);
      MarksMeaning(c, toks[1..]);
    }
  }
}
