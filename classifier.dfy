/**
 * The sensitivity classifier: decides, from the current policy, whether a
 * token of the document is to be encrypted.
 */
module Classifier {
  import opened Options
  import opened Text

  /** The grammatical tags a tagger attaches to one term. */
  type TagList = seq<string>

  /**
   * A secondary (per-language) tagger applied to a single word: it returns the
   * sentences it found, each given as the tag lists of its terms.
   */
  type Tagger = string -> seq<seq<TagList>>

  /**
   * One term of the primary tagger's output. `pre` and `post` are the text
   * around the term; `None` stands for a field that is missing or not a string.
   * A missing tag array is the empty list.
   */
  datatype Token = Token(text: string, pre: Option<string>, post: Option<string>, tags: TagList)
  {
    function Pre(): string { pre.GetOr("") }
    function Post(): string { post.GetOr("") }
  }

  /** The text a token covers in the document it came from. */
  function Source(t: Token): string {
    t.Pre() + t.text + t.Post()
  }

  /**
   * Concatenation of every token's surrounding text and word, in order. The
   * tokenizer promises that this gives back the document it was applied to.
   */
  function Reconstruct(toks: seq<Token>): string {
    if toks == [] then "" else Source(toks[0]) + Reconstruct(toks[1..])
  }

  /**
   * What the classifier reads: the enabled tag categories, the custom word
   * list, and the secondary taggers that are loaded, in the order they are asked.
   */
  datatype Criteria = Criteria(enabled: set<string>, customWords: seq<string>, taggers: seq<Tagger>)

  /** `tags.some(tag => enabled.has(tag))`. */
  function AnyEnabled(tags: TagList, enabled: set<string>): (r: bool)
    ensures r <==> exists i :: 0 <= i < |tags| && tags[i] in enabled
  {
    if tags == [] then false
    else tags[0] in enabled || AnyEnabled(tags[1..], enabled)
  }

  /** The tags of the first term of the first sentence, if the tagger produced one. */
  function FirstTerm(sentences: seq<seq<TagList>>): Option<TagList> {
    if |sentences| > 0 && |sentences[0]| > 0 then Some(sentences[0][0]) else None
  }

  /** A secondary tagger flags `word` when its first term carries an enabled tag. */
  predicate TaggerHit(tagger: Tagger, word: string, enabled: set<string>) {
    match FirstTerm(tagger(word))
    case None => false
    case Some(tags) => AnyEnabled(tags, enabled)
  }

  /**
   * A tagger flags `word` exactly when its output has a first sentence with a
   * first term, and that term carries an enabled tag; an empty output flags nothing.
   */
  lemma TaggerHitRules(tagger: Tagger, word: string, enabled: set<string>)
    ensures TaggerHit(tagger, word, enabled) <==>
      var out := tagger(word);
      && |out| > 0 && |out[0]| > 0
      && exists i :: 0 <= i < |out[0][0]| && out[0][0][i] in enabled
  {
  }

  /** The secondary taggers are asked one after the other until one flags `word`. */
  function SecondaryHit(taggers: seq<Tagger>, word: string, enabled: set<string>): (r: bool)
    ensures r <==> exists i :: 0 <= i < |taggers| && TaggerHit(taggers[i], word, enabled)
  {
    if taggers == [] then false
    else TaggerHit(taggers[0], word, enabled) || SecondaryHit(taggers[1..], word, enabled)
  }

  /**
   * `isSensitive`: a word that is empty once trimmed never is; otherwise it is
   * when its trimmed, lower-cased form is a custom word, when one of its own
   * tags is enabled, or when a secondary tagger gives its first term an enabled tag.
   */
  predicate IsSensitive(c: Criteria, t: Token) {
    var clean := Normalize(t.text);
    if clean == [] then false
    else if clean in c.customWords then true
    else if AnyEnabled(t.tags, c.enabled) then true
    else SecondaryHit(c.taggers, t.text, c.enabled)
  }

  /**
   * The rules of `isSensitive` as one statement: never for a word that is all
   * white space; otherwise exactly when the key is a custom word, one of the
   * token's tags is enabled, or some secondary tagger flags the word.
   */
  lemma IsSensitiveRules(c: Criteria, t: Token)
    ensures AllWhite(t.text) ==> !IsSensitive(c, t)
    ensures !AllWhite(t.text) && Normalize(t.text) in c.customWords ==> IsSensitive(c, t)
    ensures IsSensitive(c, t) <==>
      && !AllWhite(t.text)
      && (|| Normalize(t.text) in c.customWords
          || (exists i :: 0 <= i < |t.tags| && t.tags[i] in c.enabled)
          || (exists i :: 0 <= i < |c.taggers| && TaggerHit(c.taggers[i], t.text, c.enabled)))
  {
  }

  /** A sensitive token has a non-empty word. */
  lemma SensitiveWordNonEmpty(c: Criteria, t: Token)
    requires IsSensitive(c, t)
    ensures t.text != []
  {
    IsSensitiveRules(c, t);
  }

  /**
   * Dictionary precedence: a word whose key is in the custom list is sensitive
   * whatever its case, its padding and its tags, even with every category disabled.
   */
  lemma DictionaryPrecedence(c: Criteria, t: Token, word: string, before: string, after: string)
    requires Normalize(word) in c.customWords && !AllWhite(word)
    requires AllWhite(before) && AllWhite(after)
    requires ToLower(t.text) == ToLower(before + word + after)
    ensures IsSensitive(c, t)
    ensures IsSensitive(c.(enabled := {}), t)
  {
    NormalizeIgnoresCase(t.text, before + word + after);
    NormalizeIgnoresPadding(before, word, after);
    IsSensitiveRules(c, t);
    IsSensitiveRules(c.(enabled := {}), t);
  }

  /** Enabling more categories or listing more words never makes a sensitive token plain. */
  lemma IsSensitiveMonotone(c: Criteria, enabled: set<string>, words: seq<string>, t: Token)
    requires c.enabled <= enabled
    requires forall w :: w in c.customWords ==> w in words
    requires IsSensitive(c, t)
    ensures IsSensitive(c.(enabled := enabled, customWords := words), t)
  {
    IsSensitiveRules(c, t);
    IsSensitiveRules(c.(enabled := enabled, customWords := words), t);
    if !(Normalize(t.text) in c.customWords) && !AnyEnabled(t.tags, c.enabled) {
      var i :| 0 <= i < |c.taggers| && TaggerHit(c.taggers[i], t.text, c.enabled);
      assert TaggerHit(c.taggers[i], t.text, enabled);
    }
  }
}
