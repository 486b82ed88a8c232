/**
 * The encoder (`encryptText`): rebuilds the document token by token, putting
 * the marker and the ciphertext in place of every sensitive word.
 */
module Encoder {
  import opened Classifier
  import opened Cipher

  /** The middle of a token's chunk: the word itself, or the marker and its ciphertext. */
  function Body(c: Criteria, t: Token, encrypt: Encrypt): string {
    if IsSensitive(c, t) then Marker + encrypt(t.text) else t.text
  }

  /** The chunk emitted for one token: its leading text, its body, its trailing text. */
  function Chunk(c: Criteria, t: Token, encrypt: Encrypt): string {
    t.Pre() + Body(c, t, encrypt) + t.Post()
  }

  /** All chunks joined in token order. */
  function EncodeTokens(c: Criteria, toks: seq<Token>, encrypt: Encrypt): string {
    if toks == [] then "" else Chunk(c, toks[0], encrypt) + EncodeTokens(c, toks[1..], encrypt)
  }

  /** `encryptText`: the empty text gives the empty text, any other text the joined chunks of its tokens. */
  function EncryptText(c: Criteria, text: string, tokenize: string -> seq<Token>, encrypt: Encrypt): (r: string)
    ensures text == [] ==> r == []
  {
    if text == [] then [] else EncodeTokens(c, tokenize(text), encrypt)
  }

  /** With no sensitive token the encoder gives back exactly the text the tokens cover. */
  lemma {:induction false} EncodeNothingSensitive(c: Criteria, toks: seq<Token>, encrypt: Encrypt)
    requires forall i :: 0 <= i < |toks| ==> !IsSensitive(c, toks[i])
    ensures EncodeTokens(c, toks, encrypt) == Reconstruct(toks)
  {
    if toks != [] {
      assert !IsSensitive(c, toks[0]);
      EncodeNothingSensitive(c, toks[1..], encrypt);
    }
  }

  /**
   * When the tokenizer covers the text exactly and no token is sensitive,
   * `encryptText` returns its input unchanged.
   */
  lemma EncryptUnchanged(c: Criteria, text: string, tokenize: string -> seq<Token>, encrypt: Encrypt)
    requires Reconstruct(tokenize(text)) == text
    requires forall i :: 0 <= i < |tokenize(text)| ==> !IsSensitive(c, tokenize(text)[i])
    ensures EncryptText(c, text, tokenize, encrypt) == text
  {
    if text != [] {
      EncodeNothingSensitive(c, tokenize(text), encrypt);
    }
  }

  /** Encoding distributes over splitting the token list. */
  lemma {:induction false} EncodeAppend(c: Criteria, a: seq<Token>, b: seq<Token>, encrypt: Encrypt)
    ensures EncodeTokens(c, a + b, encrypt) == EncodeTokens(c, a, encrypt) + EncodeTokens(c, b, encrypt)
    decreases |a|
  {
    if a == [] {
      assert a + b == b;
    } else {
      var h := Chunk(c, a[0], encrypt);
      var ta := EncodeTokens(c, a[1..], encrypt);
      var tb := EncodeTokens(c, b, encrypt);
      EncodeCons(c, a, b, encrypt);
      EncodeAppend(c, a[1..], b, encrypt);
      assert h + (ta + tb) == h + ta + tb;
    }
  }

  lemma EncodeCons(c: Criteria, a: seq<Token>, b: seq<Token>, encrypt: Encrypt)
    requires a != []
    ensures EncodeTokens(c, a + b, encrypt) == Chunk(c, a[0], encrypt) + EncodeTokens(c, a[1..] + b, encrypt)
  {
    var ab := a + b;
    assert ab[0] == a[0] && ab[1..] == a[1..] + b;
  }

  /**
   * The output is one chunk per token, in order: token `k`'s chunk stands
   * between the encodings of the tokens before it and of those after it. A
   * sensitive token contributes its trivia, the marker and `encrypt` of its
   * word; any other token contributes exactly the text it covers.
   */
  lemma ChunkAt(c: Criteria, toks: seq<Token>, k: nat, encrypt: Encrypt)
    requires k < |toks|
    ensures EncodeTokens(c, toks, encrypt)
         == EncodeTokens(c, toks[..k], encrypt) + Chunk(c, toks[k], encrypt) + EncodeTokens(c, toks[k + 1..], encrypt)
  {
    assert toks == toks[..k] + toks[k..];
    EncodeAppend(c, toks[..k], toks[k..], encrypt);
    var rest := toks[k..];
    assert rest[0] == toks[k] && rest[1..] == toks[k + 1..];
    assert EncodeTokens(c, rest, encrypt) == Chunk(c, toks[k], encrypt) + EncodeTokens(c, toks[k + 1..], encrypt);
  }

  /**
   * What a chunk holds: a sensitive token's trivia around the marker and the
   * ciphertext of its word, or else exactly the text the token covers.
   */
  lemma ChunkContent(c: Criteria, t: Token, encrypt: Encrypt)
    ensures IsSensitive(c, t) ==> Chunk(c, t, encrypt) == t.Pre() + Marker + encrypt(t.text) + t.Post()
    ensures !IsSensitive(c, t) ==> Chunk(c, t, encrypt) == Source(t)
  {
    if IsSensitive(c, t) {
      assert Body(c, t, encrypt) == Marker + encrypt(t.text);
      assert t.Pre() + (Marker + encrypt(t.text)) + t.Post() == t.Pre() + Marker + encrypt(t.text) + t.Post();
    }
  }
}
