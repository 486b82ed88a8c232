/**
 * The decoder (`decryptText`): a left-to-right scan for the marker followed by
 * the longest non-empty run of Base64 characters; each such span is replaced by
 * its decryption when that succeeds with a non-empty word, and every other
 * character is copied.
 */
module Decoder {
  import opened Options
  import opened Cipher
  import opened Text

  /** The scan splits the text into single characters and encrypted spans. */
  datatype Piece = Plain(c: char) | Span(cipher: string)

  /** The text a list of pieces stands for. */
  function Unlex(ps: seq<Piece>): string {
    if ps == [] then ""
    else
      (match ps[0]
       case Plain(c) => [c]
       case Span(x) => Marker + x)
      + Unlex(ps[1..])
  }

  /** Length of the longest prefix of `s` made of Base64 characters. */
  function RunLength(s: string): (n: nat)
    ensures n <= |s|
    ensures IsCipherText(s[..n])
    ensures n < |s| ==> !IsCipherChar(s[n])
  {
    if s != [] && IsCipherChar(s[0]) then 1 + RunLength(s[1..]) else 0
  }

  /** Length of the ciphertext of the span starting at the front of `s`; 0 when no span starts there. */
  function MatchLength(s: string): (n: nat)
    ensures n > 0 ==> StartsWith(s, Marker) && |Marker| + n <= |s|
  {
    if StartsWith(s, Marker) then RunLength(s[|Marker|..]) else 0
  }

  /**
   * A match is found exactly where the marker is followed by a Base64
   * character, and it takes the whole run: its ciphertext is Base64 and is
   * followed by the end of the text or by a character outside the alphabet.
   */
  lemma MatchFound(s: string)
    ensures MatchLength(s) > 0 <==> StartsWith(s, Marker) && |Marker| < |s| && IsCipherChar(s[|Marker|])
    ensures var n := MatchLength(s);
            n > 0 ==> (IsCipherText(s[|Marker|..|Marker| + n]) && (|Marker| + n == |s| || !IsCipherChar(s[|Marker| + n])))
  {
    if StartsWith(s, Marker) {
      var n := MatchLength(s);
      assert s[|Marker|..][..n] == s[|Marker|..|Marker| + n];
      if |Marker| < |s| && IsCipherChar(s[|Marker|]) {
        assert s[|Marker|..][0] == s[|Marker|];
      }
    }
  }

  /** The hand-written scanner: the non-overlapping matches of `\[ENC\]([A-Za-z0-9+/=]+)`, leftmost first. */
  function Lex(s: string): seq<Piece>
    decreases |s|
  {
    if s == [] then []
    else
      var n := MatchLength(s);
      if n > 0 then [Span(s[|Marker|..|Marker| + n])] + Lex(s[|Marker| + n..])
      else [Plain(s[0])] + Lex(s[1..])
  }

  /** Nothing is lost or reordered by the scan: the pieces spell out the scanned text. */
  lemma {:induction false} UnlexLex(s: string)
    ensures Unlex(Lex(s)) == s
    decreases |s|
  {
    if s != [] {
      var n := MatchLength(s);
      var m := |Marker|;
      if n > 0 {
        var x := s[m..m + n];
        var rest := s[m + n..];
        assert Lex(s) == [Span(x)] + Lex(rest);
        UnlexCons(Span(x), Lex(rest));
        UnlexLex(rest);
        SplitSpan(s, n);
      } else {
        assert Lex(s) == [Plain(s[0])] + Lex(s[1..]);
        UnlexCons(Plain(s[0]), Lex(s[1..]));
        UnlexLex(s[1..]);
        assert s == [s[0]] + s[1..];
      }
    }
  }

  lemma UnlexCons(p: Piece, ps: seq<Piece>)
    ensures Unlex([p] + ps) == (match p case Plain(c) => [c] case Span(x) => Marker + x) + Unlex(ps)
  {
    var qs := [p] + ps;
    assert qs[0] == p && qs[1..] == ps;
  }

  lemma SplitSpan(s: string, n: nat)
    requires StartsWith(s, Marker) && |Marker| + n <= |s|
    ensures s == Marker + s[|Marker|..|Marker| + n] + s[|Marker| + n..]
  {
    var m := |Marker|;
    assert s == s[..m] + s[m..m + n] + s[m + n..];
  }

  /** A span that does not decrypt, or decrypts to the empty word, is kept as it stands. */
  predicate Fails(decrypt: Decrypt, x: string) {
    decrypt(x).None? || decrypt(x) == Some("")
  }

  /** The callback of the `replace`: a span becomes its decryption unless that fails. */
  function Subst(p: Piece, decrypt: Decrypt): string {
    match p
    case Plain(c) => [c]
    case Span(x) => if Fails(decrypt, x) then Marker + x else decrypt(x).value
  }

  function Substitute(ps: seq<Piece>, decrypt: Decrypt): string {
    if ps == [] then "" else Subst(ps[0], decrypt) + Substitute(ps[1..], decrypt)
  }

  /** `decryptText`. */
  function DecryptText(s: string, decrypt: Decrypt): (r: string)
    ensures s == [] ==> r == []
  {
    if s == [] then "" else Substitute(Lex(s), decrypt)
  }

  // ---------------------------------------------------------------------------
  // The segmentation is unique

  /** What follows a span cannot extend its Base64 run. */
  predicate StopsRun(p: Piece) {
    p.Span? || !IsCipherChar(p.c)
  }

  /** The first piece of `ps` is one the scanner could have produced there. */
  predicate HeadOk(ps: seq<Piece>)
    requires ps != []
  {
    match ps[0]
    case Span(x) => x != [] && IsCipherText(x) && (|ps| > 1 ==> StopsRun(ps[1]))
    case Plain(_) => MatchLength(Unlex(ps)) == 0
  }

  /**
   * A segmentation the scanner could have produced: every span holds a
   * non-empty, maximal Base64 run, and no span starts at a plain character.
   */
  predicate WellFormed(ps: seq<Piece>) {
    ps == [] || (HeadOk(ps) && WellFormed(ps[1..]))
  }

  lemma {:induction false} RunLengthOf(x: string, y: string)
    requires IsCipherText(x)
    requires y == [] || !IsCipherChar(y[0])
    ensures RunLength(x + y) == |x|
    decreases |x|
  {
    if x == [] {
      assert x + y == y;
    } else {
      assert (x + y)[1..] == x[1..] + y;
      RunLengthOf(x[1..], y);
    }
  }

  /** A character where no span starts is scanned as a plain character. */
  lemma LexPlainHead(c: char, rest: string)
    requires MatchLength([c] + rest) == 0
    ensures Lex([c] + rest) == [Plain(c)] + Lex(rest)
  {
    var s := [c] + rest;
    assert s[0] == c && s[1..] == rest;
  }

  /** The marker followed by a maximal non-empty Base64 run is scanned as one span. */
  lemma LexSpanHead(x: string, rest: string)
    requires x != [] && IsCipherText(x)
    requires rest == [] || !IsCipherChar(rest[0])
    ensures Lex(Marker + x + rest) == [Span(x)] + Lex(rest)
  {
    var s := Marker + x + rest;
    var m := |Marker|;
    assert s[..m] == Marker;
    assert s[m..] == x + rest;
    RunLengthOf(x, rest);
    assert MatchLength(s) == |x|;
    assert Lex(s) == [Span(s[m..m + |x|])] + Lex(s[m + |x|..]);
    assert s[m..m + |x|] == x;
    assert s[m + |x|..] == rest;
  }

  /** The scanner's segmentation is well formed: its runs are maximal and it misses no span. */
  lemma {:induction false} LexWellFormed(s: string)
    ensures WellFormed(Lex(s))
    decreases |s|
  {
    if s != [] {
      var n := MatchLength(s);
      var ps := Lex(s);
      UnlexLex(s);
      if n > 0 {
        var rest := s[|Marker| + n..];
        LexWellFormed(rest);
        assert ps[1..] == Lex(rest);
        assert s[|Marker|..][..n] == s[|Marker|..|Marker| + n];
        if rest != [] {
          assert rest[0] == s[|Marker|..][n];
          assert Lex(rest)[0] == Plain(rest[0]) || Lex(rest)[0].Span?;
        }
      } else {
        LexWellFormed(s[1..]);
        assert ps[1..] == Lex(s[1..]);
      }
    }
  }

  /** The first character of the text of a non-empty list of pieces. */
  lemma UnlexHead(ps: seq<Piece>)
    requires ps != []
    ensures Unlex(ps) != []
    ensures Unlex(ps)[0] == match ps[0] case Plain(d) => d case Span(_) => '['
  {
    var h := match ps[0] case Plain(d) => [d] case Span(x) => Marker + x;
    assert Unlex(ps) == h + Unlex(ps[1..]);
    assert h[0] == Unlex(ps)[0];
  }

  /** In a well-formed segmentation, the text after a span cannot extend its run. */
  lemma AfterSpan(ps: seq<Piece>)
    requires ps != [] && ps[0].Span? && HeadOk(ps)
    ensures Unlex(ps[1..]) == [] || !IsCipherChar(Unlex(ps[1..])[0])
  {
    if |ps| > 1 {
      assert StopsRun(ps[1]);
      UnlexHead(ps[1..]);
    }
  }

  /** Any well-formed segmentation is the one the scanner finds. */
  lemma {:induction false} LexUnlex(ps: seq<Piece>)
    requires WellFormed(ps)
    ensures Lex(Unlex(ps)) == ps
    decreases |ps|
  {
    if ps != [] {
      var rest := Unlex(ps[1..]);
      LexUnlex(ps[1..]);
      match ps[0]
      case Plain(c) =>
        assert Unlex(ps) == [c] + rest;
        LexPlainHead(c, rest);
      case Span(x) =>
        assert Unlex(ps) == Marker + x + rest;
        AfterSpan(ps);
        LexSpanHead(x, rest);
    }
  }

  // ---------------------------------------------------------------------------
  // Each span is handled on its own

  /** Substitution distributes over splitting the pieces. */
  lemma {:induction false} SubstituteAppend(a: seq<Piece>, b: seq<Piece>, decrypt: Decrypt)
    ensures Substitute(a + b, decrypt) == Substitute(a, decrypt) + Substitute(b, decrypt)
    decreases |a|
  {
    if a == [] {
      assert a + b == b;
    } else {
      var ab := a + b;
      assert ab[0] == a[0] && ab[1..] == a[1..] + b;
      SubstituteAppend(a[1..], b, decrypt);
    }
  }

  /**
   * Partial corruption stays local: in any text the scanner splits around a
   * span `x`, the output is the decryption of the text before it, then what
   * `x` alone becomes, then the decryption of the text after it. Replacing `x`
   * by a corrupted ciphertext changes only the middle part.
   */
  lemma SpanIsolation(a: seq<Piece>, x: string, b: seq<Piece>, decrypt: Decrypt)
    requires WellFormed(a + [Span(x)] + b)
    ensures DecryptText(Unlex(a + [Span(x)] + b), decrypt)
         == Substitute(a, decrypt) + Subst(Span(x), decrypt) + Substitute(b, decrypt)
  {
    var ps := a + [Span(x)] + b;
    LexUnlex(ps);
    UnlexLex(Unlex(ps));
    assert Unlex(ps) != [] by {
      assert Lex(Unlex(ps)) != [];
    }
    SubstituteAppend(a + [Span(x)], b, decrypt);
    SubstituteAppend(a, [Span(x)], decrypt);
    assert Substitute([Span(x)], decrypt) == Subst(Span(x), decrypt) + Substitute([], decrypt);
  }

  /** A failed or empty decryption leaves the whole span (marker and ciphertext) as it was. */
  lemma {:induction false} SubstituteFailing(ps: seq<Piece>, decrypt: Decrypt)
    requires forall k :: 0 <= k < |ps| && ps[k].Span? ==> Fails(decrypt, ps[k].cipher)
    ensures Substitute(ps, decrypt) == Unlex(ps)
    decreases |ps|
  {
    if ps != [] {
      SubstituteFailing(ps[1..], decrypt);
    }
  }

  /** When every span fails to decrypt, `decryptText` returns its input unchanged. */
  lemma DecryptAllFailing(s: string, decrypt: Decrypt)
    requires forall k :: 0 <= k < |Lex(s)| && Lex(s)[k].Span? ==> Fails(decrypt, Lex(s)[k].cipher)
    ensures DecryptText(s, decrypt) == s
  {
    SubstituteFailing(Lex(s), decrypt);
    UnlexLex(s);
  }

  /** No span starts anywhere in `s`: it holds no `[ENC]` followed by a Base64 character. */
  predicate NoMatch(s: string) {
    forall k :: 0 <= k < |s| ==> MatchLength(s[k..]) == 0
  }

  /** A span that starts in `a` still starts there once more text follows. */
  lemma NoMatchPrefix(a: string, b: string)
    requires NoMatch(a + b)
    ensures NoMatch(a)
  {
    forall k | 0 <= k < |a|
      ensures MatchLength(a[k..]) == 0
    {
      var s := a[k..];
      var s' := (a + b)[k..];
      assert s' == s + b;
      assert MatchLength(s') == 0;
      MatchFound(s);
      MatchFound(s');
      if StartsWith(s, Marker) && |Marker| < |s| {
        assert s'[..|Marker|] == s[..|Marker|];
        assert s'[|Marker|] == s[|Marker|];
      }
    }
  }

  lemma NoMatchSuffix(a: string, b: string)
    requires NoMatch(a + b)
    ensures NoMatch(b)
  {
    forall k | 0 <= k < |b|
      ensures MatchLength(b[k..]) == 0
    {
      assert (a + b)[|a| + k..] == b[k..];
    }
  }

  /** Text in which no span starts anywhere is returned unchanged, whatever the key. */
  lemma {:induction false} NoMatchUnchanged(s: string, decrypt: Decrypt)
    requires NoMatch(s)
    ensures Substitute(Lex(s), decrypt) == s
    ensures DecryptText(s, decrypt) == s
    decreases |s|
  {
    if s != [] {
      assert MatchLength(s[0..]) == 0 && s[0..] == s;
      forall k | 0 <= k < |s| - 1
        ensures MatchLength(s[1..][k..]) == 0
      {
        assert s[1..][k..] == s[k + 1..];
      }
      NoMatchUnchanged(s[1..], decrypt);
      assert Lex(s) == [Plain(s[0])] + Lex(s[1..]);
      assert s == [s[0]] + s[1..];
    }
  }

  // ---------------------------------------------------------------------------
  // Text without a marker

  /** Text without `[` cannot hold the start of a span. */
  predicate NoBracket(s: string) {
    forall k :: 0 <= k < |s| ==> s[k] != '['
  }

  /** The pieces of a text scanned character by character. */
  function Plains(s: string): seq<Piece> {
    if s == [] then [] else [Plain(s[0])] + Plains(s[1..])
  }

  lemma {:induction false} SubstitutePlains(s: string, decrypt: Decrypt)
    ensures Substitute(Plains(s), decrypt) == s
    decreases |s|
  {
    if s != [] {
      var ps := Plains(s);
      assert ps[0] == Plain(s[0]) && ps[1..] == Plains(s[1..]);
      SubstitutePlains(s[1..], decrypt);
      assert s == [s[0]] + s[1..];
    }
  }

  /** No span starts at a character other than `[`. */
  lemma NoMarkerHere(c: char, rest: string)
    requires c != '['
    ensures MatchLength([c] + rest) == 0
  {
    var s := [c] + rest;
    if |Marker| <= |s| {
      assert s[..|Marker|][0] == c;
    }
  }

  /** Text without `[` in front of anything is scanned character by character. */
  lemma {:induction false} LexPlainPrefix(p: string, y: string)
    requires NoBracket(p)
    ensures Lex(p + y) == Plains(p) + Lex(y)
    decreases |p|
  {
    if p == [] {
      assert p + y == y;
    } else {
      var t := p[1..] + y;
      assert p + y == [p[0]] + t;
      NoMarkerHere(p[0], t);
      LexPlainHead(p[0], t);
      LexPlainPrefix(p[1..], y);
      calc {
        Lex(p + y);
        [Plain(p[0])] + Lex(t);
        [Plain(p[0])] + (Plains(p[1..]) + Lex(y));
        [Plain(p[0])] + Plains(p[1..]) + Lex(y);
      }
    }
  }

  /** Plain text followed by the rest decodes to itself followed by the rest's decoding. */
  lemma DecodePlainPrefix(p: string, y: string, decrypt: Decrypt)
    requires NoBracket(p)
    ensures Substitute(Lex(p + y), decrypt) == p + Substitute(Lex(y), decrypt)
  {
    LexPlainPrefix(p, y);
    SubstituteAppend(Plains(p), Lex(y), decrypt);
    SubstitutePlains(p, decrypt);
  }

  /** No match found in the text before a `[` runs past it. */
  lemma MatchBeforeBracket(p: string, y: string)
    requires p != [] && y != [] && y[0] == '['
    ensures MatchLength(p + y) == MatchLength(p)
  {
    var s := p + y;
    var m := |Marker|;
    if |p| < m {
      assert s[|p|] == '[' && Marker[|p|] != '[';
      assert !StartsWith(s, Marker) by {
        assert |s| < m || s[..m][|p|] == s[|p|];
      }
    } else {
      assert s[..m] == p[..m];
      assert s[m..] == p[m..] + y;
      RunLengthBefore(p[m..], y);
    }
  }

  /** A character outside the Base64 alphabet ends the run. */
  lemma {:induction false} RunLengthBefore(x: string, y: string)
    requires y == [] || !IsCipherChar(y[0])
    ensures RunLength(x + y) == RunLength(x)
    decreases |x|
  {
    if x == [] {
      assert x + y == y;
    } else {
      assert (x + y)[0] == x[0];
      assert (x + y)[1..] == x[1..] + y;
      RunLengthBefore(x[1..], y);
    }
  }

  /** The scan of the text before a `[` does not depend on what follows it. */
  lemma {:induction false} LexSplit(p: string, y: string)
    requires y != [] && y[0] == '['
    ensures Lex(p + y) == Lex(p) + Lex(y)
    decreases |p|
  {
    if p == [] {
      assert p + y == y;
    } else {
      var n := MatchLength(p);
      MatchBeforeBracket(p, y);
      var k := if n > 0 then |Marker| + n else 1;
      var q := p[k..];
      LexStep(p, y);
      LexSplit(q, y);
      AppendAssoc(Lex(p)[..1], Lex(q), Lex(y));
    }
  }

  /** The scanner's first step on `p + y` is its first step on `p`. */
  lemma LexStep(p: string, y: string)
    requires p != [] && MatchLength(p + y) == MatchLength(p)
    ensures var k := if MatchLength(p) > 0 then |Marker| + MatchLength(p) else 1;
            && Lex(p) == Lex(p)[..1] + Lex(p[k..])
            && Lex(p + y) == Lex(p)[..1] + Lex(p[k..] + y)
  {
    var s := p + y;
    var n := MatchLength(p);
    var m := |Marker|;
    if n > 0 {
      assert s[m..m + n] == p[m..m + n];
      assert s[m + n..] == p[m + n..] + y;
    } else {
      assert s[0] == p[0];
      assert s[1..] == p[1..] + y;
    }
  }

  /**
   * Marker non-collision: the literal marker followed by the end of the text
   * or by a character outside the Base64 alphabet is no span. It is kept as it
   * stands, and the text on either side is decoded as if it stood alone.
   */
  lemma BareMarkerKept(before: string, after: string, decrypt: Decrypt)
    requires after == [] || !IsCipherChar(after[0])
    ensures DecryptText(before + Marker + after, decrypt)
         == DecryptText(before, decrypt) + Marker + DecryptText(after, decrypt)
  {
    DecodeBareMarker(after, decrypt);
    DecodeAround(before, Marker, after, decrypt);
    DecryptIsSubstitute(before + Marker + after, decrypt);
    DecryptIsSubstitute(before, decrypt);
    DecryptIsSubstitute(after, decrypt);
  }

  lemma DecryptIsSubstitute(s: string, decrypt: Decrypt)
    ensures DecryptText(s, decrypt) == Substitute(Lex(s), decrypt)
  {
  }

  /** The decoding of a text split in front of a `[` is the decoding of each part. */
  lemma DecodeSplit(p: string, y: string, decrypt: Decrypt)
    requires y != [] && y[0] == '['
    ensures Substitute(Lex(p + y), decrypt) == Substitute(Lex(p), decrypt) + Substitute(Lex(y), decrypt)
  {
    LexSplit(p, y);
    SubstituteAppend(Lex(p), Lex(y), decrypt);
  }

  /** Text that decodes to itself, starting with `[`, leaves the decoding on either side of it alone. */
  lemma DecodeAround(before: string, p: string, after: string, decrypt: Decrypt)
    requires p != [] && p[0] == '['
    requires Substitute(Lex(p + after), decrypt) == p + Substitute(Lex(after), decrypt)
    ensures Substitute(Lex(before + p + after), decrypt)
         == Substitute(Lex(before), decrypt) + p + Substitute(Lex(after), decrypt)
  {
    var y := p + after;
    assert before + p + after == before + y;
    DecodeSplit(before, y, decrypt);
    AppendAssoc(Substitute(Lex(before), decrypt), p, Substitute(Lex(after), decrypt));
  }

  /** The marker at the front of a text with no ciphertext after it decodes to itself. */
  lemma DecodeBareMarker(after: string, decrypt: Decrypt)
    requires after == [] || !IsCipherChar(after[0])
    ensures Substitute(Lex(Marker + after), decrypt) == Marker + Substitute(Lex(after), decrypt)
  {
    BareMarkerNoMatch(after);
    assert Marker[0] == '[' && NoBracket(Marker[1..]);
    DecodeUnmatched(Marker, after, decrypt);
  }

  /** Text that starts with `[` but where no span starts, and holds no other `[`, decodes to itself. */
  lemma DecodeUnmatched(p: string, after: string, decrypt: Decrypt)
    requires p != [] && p[0] == '[' && NoBracket(p[1..])
    requires MatchLength(p + after) == 0
    ensures Substitute(Lex(p + after), decrypt) == p + Substitute(Lex(after), decrypt)
  {
    var rest := p[1..];
    var s := p + after;
    var sa := Substitute(Lex(after), decrypt);
    assert s[0] == '[' && s[1..] == rest + after;
    calc {
      Substitute(Lex(s), decrypt);
      { assert s == [s[0]] + s[1..]; LexPlainHead(s[0], s[1..]); }
      Substitute([Plain('[')] + Lex(s[1..]), decrypt);
      { SubstituteCons(Plain('['), Lex(s[1..]), decrypt); }
      ['['] + Substitute(Lex(rest + after), decrypt);
      { DecodePlainPrefix(rest, after, decrypt); }
      ['['] + (rest + sa);
      { assert p == ['['] + rest; }
      p + sa;
    }
  }

  lemma BareMarkerNoMatch(after: string)
    requires after == [] || !IsCipherChar(after[0])
    ensures MatchLength(Marker + after) == 0
  {
    var y := Marker + after;
    assert y[|Marker|..] == after;
    assert y[..|Marker|] == Marker;
    RunLengthBefore([], after);
    assert [] + after == after;
  }

  lemma SubstituteCons(p: Piece, ps: seq<Piece>, decrypt: Decrypt)
    ensures Substitute([p] + ps, decrypt) == Subst(p, decrypt) + Substitute(ps, decrypt)
  {
    var qs := [p] + ps;
    assert qs[0] == p && qs[1..] == ps;
  }

  lemma SubstituteSingle(p: Piece, decrypt: Decrypt)
    ensures Substitute([p], decrypt) == Subst(p, decrypt)
  {
    assert [p][1..] == [];
  }
}
