/**
 * Decrypting what the encoder produced gives back the original text, under
 * the conditions that keep the decoder's lexical scan from misreading the
 * encoder's output.
 */
module RoundTrip {
  import opened Options
  import opened Cipher
  import opened Text
  import opened Classifier
  import opened Encoder
  import opened Decoder

  /**
   * The greedy run after a ciphertext stops where the ciphertext ends: what the
   * encoder writes right after a sensitive token's ciphertext (its trailing
   * text, then the chunks of the tokens after it) is empty or begins with a
   * character outside the Base64 alphabet.
   */
  predicate Delimited(c: Criteria, toks: seq<Token>, encrypt: Encrypt) {
    forall i :: 0 <= i < |toks| && IsSensitive(c, toks[i]) ==>
      Stops(toks[i].Post() + EncodeTokens(c, toks[i + 1..], encrypt))
  }

  predicate Stops(tail: string) {
    tail == [] || !IsCipherChar(tail[0])
  }

  /** A span followed by the rest decodes to the span's word and the rest's decoding. */
  lemma DecodeSpanPrefix(x: string, w: string, tail: string, decrypt: Decrypt)
    requires x != [] && IsCipherText(x)
    requires w != [] && decrypt(x) == Some(w)
    requires tail == [] || !IsCipherChar(tail[0])
    ensures Substitute(Lex(Marker + x + tail), decrypt) == w + Substitute(Lex(tail), decrypt)
  {
    LexSpanHead(x, tail);
    SubstituteAppend([Span(x)], Lex(tail), decrypt);
    SubstituteSingle(Span(x), decrypt);
  }

  /**
   * One sensitive chunk after copied text `q`, followed by the rest, decodes to
   * `q`, the token's text, and the rest's decoding.
   */
  lemma DecodeSensitiveChunk(q: string, pre: string, x: string, w: string, post: string, rest: string, tr: string, decrypt: Decrypt)
    requires NoMatch(q + pre)
    requires x != [] && IsCipherText(x)
    requires w != [] && decrypt(x) == Some(w)
    requires Stops(post + rest)
    requires Substitute(Lex(post + rest), decrypt) == post + tr
    ensures Substitute(Lex(q + (pre + Marker + x + post + rest)), decrypt) == q + (pre + w + post + tr)
  {
    var y := Marker + x + (post + rest);
    calc {
      Substitute(Lex(q + (pre + Marker + x + post + rest)), decrypt);
      {
        AppendAssoc(pre + Marker + x, post, rest);
        AppendAssoc(pre, Marker, x);
        AppendAssoc(pre, Marker + x, post + rest);
        AppendAssoc(q, pre, y);
      }
      Substitute(Lex((q + pre) + y), decrypt);
      { DecodeSplit(q + pre, y, decrypt); }
      Substitute(Lex(q + pre), decrypt) + Substitute(Lex(y), decrypt);
      { NoMatchUnchanged(q + pre, decrypt); DecodeSpanPrefix(x, w, post + rest, decrypt); }
      (q + pre) + (w + (post + tr));
      {
        AppendAssoc(q, pre, w + (post + tr));
        AppendAssoc(pre, w, post + tr);
        AppendAssoc(pre + w, post, tr);
      }
      q + (pre + w + post + tr);
    }
  }

  lemma DelimitedTail(c: Criteria, toks: seq<Token>, encrypt: Encrypt)
    requires toks != [] && Delimited(c, toks, encrypt)
    ensures Delimited(c, toks[1..], encrypt)
  {
    forall i | 0 <= i < |toks[1..]|
      ensures toks[1..][i] == toks[i + 1] && toks[1..][i + 1..] == toks[i + 2..]
    {
    }
  }

  /**
   * The scan of the encoder's output, after copied text `q`, gives back `q` and
   * every token's text, as long as no span starts anywhere in that text.
   */
  lemma {:induction false} DecodeFrom(c: Criteria, q: string, toks: seq<Token>, encrypt: Encrypt, decrypt: Decrypt)
    requires Inverse(encrypt, decrypt)
    requires Delimited(c, toks, encrypt)
    requires NoMatch(q + Reconstruct(toks))
    ensures Substitute(Lex(q + EncodeTokens(c, toks, encrypt)), decrypt) == q + Reconstruct(toks)
    decreases |toks|
  {
    if toks == [] {
      assert q + EncodeTokens(c, toks, encrypt) == q;
      assert q + Reconstruct(toks) == q;
      NoMatchUnchanged(q, decrypt);
    } else {
      var t := toks[0];
      var rest := EncodeTokens(c, toks[1..], encrypt);
      var tr := Reconstruct(toks[1..]);
      DelimitedTail(c, toks, encrypt);
      ChunkContent(c, t, encrypt);
      assert EncodeTokens(c, toks, encrypt) == Chunk(c, t, encrypt) + rest;
      assert Reconstruct(toks) == Source(t) + tr;
      if IsSensitive(c, t) {
        var pre, w, post := t.Pre(), t.text, t.Post();
        SensitiveWordNonEmpty(c, t);
        assert Stops(post + rest) by {
          assert toks[1..] == toks[0 + 1..];
        }
        SensitiveSplits(q, pre, w, post, tr);
        DecodeFrom(c, post, toks[1..], encrypt, decrypt);
        DecodeSensitiveChunk(q, pre, encrypt(w), w, post, rest, tr, decrypt);
      } else {
        var src := Source(t);
        AppendAssoc(q, src, tr);
        DecodeFrom(c, q + src, toks[1..], encrypt, decrypt);
        AppendAssoc(q, src, rest);
      }
    }
  }

  /** Copied text before and after a sensitive word inherits the absence of spans. */
  lemma SensitiveSplits(q: string, pre: string, w: string, post: string, tr: string)
    requires NoMatch(q + (pre + w + post + tr))
    ensures NoMatch(q + pre) && NoMatch(post + tr)
  {
    assert q + (pre + w + post + tr) == (q + pre) + (w + post + tr);
    NoMatchPrefix(q + pre, w + post + tr);
    assert q + (pre + w + post + tr) == (q + pre + w) + (post + tr);
    NoMatchSuffix(q + pre + w, post + tr);
  }

  /** The scan of the encoder's output recovers every token's text. */
  lemma DecodeTokens(c: Criteria, toks: seq<Token>, encrypt: Encrypt, decrypt: Decrypt)
    requires Inverse(encrypt, decrypt)
    requires Delimited(c, toks, encrypt) && NoMatch(Reconstruct(toks))
    ensures Substitute(Lex(EncodeTokens(c, toks, encrypt)), decrypt) == Reconstruct(toks)
  {
    var empty: string := [];
    assert empty + Reconstruct(toks) == Reconstruct(toks);
    assert empty + EncodeTokens(c, toks, encrypt) == EncodeTokens(c, toks, encrypt);
    DecodeFrom(c, empty, toks, encrypt, decrypt);
  }

  /**
   * `decryptText(encryptText(text)) == text` when the tokenizer covers the
   * text exactly, the cipher decrypts what it encrypted, no span starts
   * anywhere in the text, and what the encoder writes right after each
   * ciphertext begins with a character outside the Base64 alphabet (or is empty).
   */
  lemma RoundTrip(c: Criteria, text: string, tokenize: string -> seq<Token>, encrypt: Encrypt, decrypt: Decrypt)
    requires Inverse(encrypt, decrypt)
    requires Reconstruct(tokenize(text)) == text
    requires NoMatch(text) && Delimited(c, tokenize(text), encrypt)
    ensures DecryptText(EncryptText(c, text, tokenize, encrypt), decrypt) == text
  {
    if text != [] {
      DecodeTokens(c, tokenize(text), encrypt, decrypt);
    }
  }
}
