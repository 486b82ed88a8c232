/**
 * The string normalisation used when a word is compared with the custom
 * dictionary: JavaScript's `trim()` followed by `toLowerCase()`.
 */
module Text {

  /** The code points JavaScript's `trim()` removes: WhiteSpace and LineTerminator. */
  predicate IsWhite(c: char) {
    || c == '\t' || c == '\n' || c == '\U{B}' || c == '\U{C}' || c == '\r' || c == ' '
    || c == '\U{A0}' || c == '\U{1680}' || ('\U{2000}' <= c <= '\U{200A}')
    || c == '\U{2028}' || c == '\U{2029}' || c == '\U{202F}' || c == '\U{205F}'
    || c == '\U{3000}' || c == '\U{FEFF}'
  }

  predicate AllWhite(s: string) {
    forall i :: 0 <= i < |s| ==> IsWhite(s[i])
  }

  /** Drops leading white space; what remains is a suffix of `s`. */
  function TrimStart(s: string): (r: string)
    ensures |r| <= |s| && r == s[|s| - |r|..]
    ensures AllWhite(s[..|s| - |r|])
    ensures r == [] || !IsWhite(r[0])
    decreases |s|
  {
    if s != [] && IsWhite(s[0]) then
      var r := TrimStart(s[1..]);
      var k := |s| - |r|;
      assert s[1..][k - 1..] == s[k..];
      assert s[..k] == [s[0]] + s[1..][..k - 1];
      WhiteCons(s[0], s[1..][..k - 1]);
      r
    else s
  }

  /** Drops trailing white space; what remains is a prefix of `s`. */
  function TrimEnd(s: string): (r: string)
    ensures |r| <= |s| && r == s[..|r|]
    ensures AllWhite(s[|r|..])
    ensures r == [] || !IsWhite(r[|r| - 1])
    decreases |s|
  {
    if s != [] && IsWhite(s[|s| - 1]) then
      var r := TrimEnd(s[..|s| - 1]);
      assert s[..|s| - 1][..|r|] == s[..|r|];
      assert s[|r|..] == s[..|s| - 1][|r|..] + [s[|s| - 1]];
      WhiteSnoc(s[..|s| - 1][|r|..], s[|s| - 1]);
      r
    else s
  }

  lemma WhiteCons(c: char, w: string)
    requires IsWhite(c) && AllWhite(w)
    ensures AllWhite([c] + w)
  {
    assert forall i :: 1 <= i < |w| + 1 ==> ([c] + w)[i] == w[i - 1];
  }

  lemma WhiteSnoc(w: string, c: char)
    requires AllWhite(w) && IsWhite(c)
    ensures AllWhite(w + [c])
  {
    assert forall i :: 0 <= i < |w| ==> (w + [c])[i] == w[i];
  }

  /** `s.trim()`: empty exactly when `s` is all white space, and never begins or ends with it. */
  function Trim(s: string): (r: string)
    ensures r == [] <==> AllWhite(s)
    ensures r != [] ==> !IsWhite(r[0]) && !IsWhite(r[|r| - 1])
  {
    var t := TrimStart(s);
    assert t == [] ==> AllWhite(s) by {
      if t == [] {
        assert s[..|s| - |t|] == s;
      }
    }
    TrimEnd(t)
  }

  predicate IsUpper(c: char) {
    ('A' <= c <= 'Z') || ('\U{C0}' <= c <= '\U{DE}' && c != '\U{D7}')
  }

  /**
   * Lower-cases the Basic Latin and Latin-1 capitals; every other code point is
   * kept. Each capital maps to its own small letter, which in both ranges lies
   * the distance from `'A'` to `'a'` further on.
   */
  function LowerChar(c: char): (r: char)
    ensures !IsUpper(r)
    ensures IsWhite(r) <==> IsWhite(c)
    ensures !IsUpper(c) ==> r == c
    ensures IsUpper(c) ==> r as int - c as int == 'a' as int - 'A' as int
    ensures 'A' <= c <= 'Z' ==> 'a' <= r <= 'z'
  {
    if IsUpper(c) then (c as int + 32) as char else c
  }

  /** Two different characters share a lower case only when one of them is a capital and the other is not. */
  lemma LowerCharMerges(a: char, b: char)
    requires a != b && LowerChar(a) == LowerChar(b)
    ensures IsUpper(a) != IsUpper(b)
    ensures IsUpper(a) ==> b == LowerChar(a)
    ensures IsUpper(b) ==> a == LowerChar(b)
  {
  }

  /** `s.toLowerCase()`, code point by code point. */
  function ToLower(s: string): (r: string)
    ensures |r| == |s|
    ensures forall i :: 0 <= i < |s| ==> r[i] == LowerChar(s[i])
  {
    seq(|s|, i requires 0 <= i < |s| => LowerChar(s[i]))
  }

  /** The dictionary key of a word: `word.trim().toLowerCase()`. */
  function Normalize(s: string): (r: string)
    ensures r == [] <==> AllWhite(s)
    ensures forall i :: 0 <= i < |r| ==> !IsUpper(r[i])
  {
    ToLower(Trim(s))
  }

  lemma {:induction false} TrimStartLower(s: string)
    ensures TrimStart(ToLower(s)) == ToLower(TrimStart(s))
    decreases |s|
  {
    if s != [] && IsWhite(s[0]) {
      assert ToLower(s)[1..] == ToLower(s[1..]);
      TrimStartLower(s[1..]);
    }
  }

  lemma {:induction false} TrimEndLower(s: string)
    ensures TrimEnd(ToLower(s)) == ToLower(TrimEnd(s))
    decreases |s|
  {
    if s != [] && IsWhite(s[|s| - 1]) {
      assert ToLower(s)[..|s| - 1] == ToLower(s[..|s| - 1]);
      TrimEndLower(s[..|s| - 1]);
    }
  }

  /** Trimming and lower-casing commute, since lower-casing never changes what is white space. */
  lemma TrimLower(s: string)
    ensures Trim(ToLower(s)) == ToLower(Trim(s))
  {
    TrimStartLower(s);
    TrimEndLower(TrimStart(s));
  }

  /** Dictionary keys ignore letter case: words equal up to case have the same key. */
  lemma NormalizeIgnoresCase(a: string, b: string)
    requires ToLower(a) == ToLower(b)
    ensures Normalize(a) == Normalize(b)
  {
    TrimLower(a);
    TrimLower(b);
  }

  lemma {:induction false} TrimStartPadding(w: string, s: string)
    requires AllWhite(w)
    ensures TrimStart(w + s) == TrimStart(s)
    decreases |w|
  {
    if w == [] {
      assert w + s == s;
    } else {
      var ws := w + s;
      assert ws[0] == w[0] && IsWhite(ws[0]);
      assert ws[1..] == w[1..] + s;
      assert TrimStart(ws) == TrimStart(ws[1..]);
      TrimStartPadding(w[1..], s);
    }
  }

  lemma {:induction false} TrimEndPadding(s: string, w: string)
    requires AllWhite(w)
    ensures TrimEnd(s + w) == TrimEnd(s)
    decreases |w|
  {
    if w == [] {
      assert s + w == s;
    } else {
      var sw := s + w;
      assert sw[|sw| - 1] == w[|w| - 1] && IsWhite(sw[|sw| - 1]);
      assert sw[..|sw| - 1] == s + w[..|w| - 1];
      assert TrimEnd(sw) == TrimEnd(sw[..|sw| - 1]);
      TrimEndPadding(s, w[..|w| - 1]);
    }
  }

  /** White space after the text does not change where the leading white space ends. */
  lemma TrimStartTrailing(s: string, after: string)
    requires AllWhite(after)
    ensures TrimEnd(TrimStart(s + after)) == TrimEnd(TrimStart(s))
  {
    var t := TrimStart(s);
    var lead := s[..|s| - |t|];
    SplitLead(s, t, after);
    TrimStartPadding(lead, t + after);
    if t == [] {
      AllWhiteTrim(after);
    } else {
      assert TrimStart(t + after) == t + after by {
        assert (t + after)[0] == t[0];
      }
      TrimEndPadding(t, after);
    }
  }

  lemma SplitLead(s: string, t: string, after: string)
    requires |t| <= |s| && t == s[|s| - |t|..]
    ensures s + after == s[..|s| - |t|] + (t + after)
  {
    assert s == s[..|s| - |t|] + t;
  }

  lemma {:induction false} AllWhiteTrim(w: string)
    requires AllWhite(w)
    ensures TrimEnd(TrimStart(w)) == [] && TrimEnd(TrimStart([])) == []
    decreases |w|
  {
    if w != [] {
      AllWhiteTrim(w[1..]);
    }
  }

  /** `trim()` ignores white space added at either end. */
  lemma TrimIgnoresPadding(before: string, s: string, after: string)
    requires AllWhite(before) && AllWhite(after)
    ensures Trim(before + s + after) == Trim(s)
  {
    assert before + s + after == before + (s + after);
    TrimStartPadding(before, s + after);
    assert TrimStart(before + s + after) == TrimStart(s + after);
    TrimStartTrailing(s, after);
    assert Trim(before + s + after) == TrimEnd(TrimStart(s + after));
  }

  /** Dictionary keys ignore surrounding white space. */
  lemma NormalizeIgnoresPadding(before: string, s: string, after: string)
    requires AllWhite(before) && AllWhite(after)
    ensures Normalize(before + s + after) == Normalize(s)
  {
    TrimIgnoresPadding(before, s, after);
  }

  /** A string that neither begins nor ends with white space is left alone by `trim()`. */
  lemma TrimTrimmed(t: string)
    requires t == [] || (!IsWhite(t[0]) && !IsWhite(t[|t| - 1]))
    ensures Trim(t) == t
  {
    if t != [] {
      assert TrimStart(t) == t;
      assert TrimEnd(t) == t;
    }
  }

  lemma ToLowerIdempotent(s: string)
    ensures ToLower(ToLower(s)) == ToLower(s)
  {
  }

  /** Normalising twice is normalising once, so every dictionary key is its own key. */
  lemma NormalizeIdempotent(s: string)
    ensures Normalize(Normalize(s)) == Normalize(s)
  {
    var t := Trim(s);
    calc {
      Normalize(Normalize(s));
      ToLower(Trim(ToLower(t)));
      { TrimLower(t); }
      ToLower(ToLower(Trim(t)));
      { TrimTrimmed(t); }
      ToLower(ToLower(t));
      { ToLowerIdempotent(t); }
      ToLower(t);
    }
  }

  /** A dictionary key: non-empty, no white space at either end, no capital letter. */
  predicate IsKey(w: string) {
    && w != []
    && !IsWhite(w[0]) && !IsWhite(w[|w| - 1])
    && forall i :: 0 <= i < |w| ==> !IsUpper(w[i])
  }

  /** The key of a word that is not all white space is a key. */
  lemma NormalizeIsKey(s: string)
    requires !AllWhite(s)
    ensures IsKey(Normalize(s))
  {
    var t := Trim(s);
    assert t != [] && !IsWhite(t[0]) && !IsWhite(t[|t| - 1]);
    LowerIsKey(t);
  }

  lemma LowerIsKey(t: string)
    requires t != [] && !IsWhite(t[0]) && !IsWhite(t[|t| - 1])
    ensures IsKey(ToLower(t))
  {
    var r := ToLower(t);
    assert r[0] == LowerChar(t[0]);
    assert r[|r| - 1] == LowerChar(t[|t| - 1]);
  }

  /** A key is its own key, and only a key is: `IsKey` describes exactly the normalised words. */
  lemma KeyNormal(w: string)
    ensures IsKey(w) <==> w != [] && Normalize(w) == w
  {
    if IsKey(w) {
      TrimTrimmed(w);
      assert ToLower(w) == w;
    }
    if w != [] && Normalize(w) == w {
      NormalizeIsKey(w);
    }
  }

  /** `s` begins with `p`. */
  predicate StartsWith(s: string, p: string) {
    |p| <= |s| && s[..|p|] == p
  }

  lemma AppendAssoc<T>(a: seq<T>, b: seq<T>, c: seq<T>)
    ensures a + (b + c) == a + b + c
  {
  }
}
