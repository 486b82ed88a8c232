# Sensitive-data encryption: a verified model

The application redacts personal data in free text before it is shared. A
tokenizer splits the text into terms, each with its surrounding text
(`pre`/`post`) and grammatical tags. A classifier (`isSensitive`) decides from
a user-editable policy which terms are sensitive: a custom word list plus a
set of enabled tag categories. The encoder (`encryptText`) replaces every
sensitive word by the marker `[ENC]` followed by the Base64 ciphertext of the
word, and copies everything else. The decoder (`decryptText`) scans for the
marker followed by the longest run of Base64 characters and puts back each
word whose ciphertext decrypts to a non-empty string. The highlighter
(`generateHighlightHTML`) builds the HTML overlay that shows which words will
be encrypted. The policy is mutable page state, changed by four operations.

The model is split into modules, one per part of `script.js`:

- `Text` (`text.dfy`): `trim()`, `toLowerCase()` and the dictionary key `word.trim().toLowerCase()`.
- `Classifier` (`classifier.dfy`): tokens, the policy as the classifier reads it, and `isSensitive`.
- `Cipher` (`cipher.dfy`): the marker, the Base64 alphabet, and the cipher as a pair of functions.
- `Encoder` (`encoder.dfy`): `encryptText`.
- `Decoder` (`decoder.dfy`): `decryptText`. The regular-expression replacement is a hand-written scanner (`Lex`) that splits the text into plain characters and spans. Each span is then substituted (`Substitute`).
- `RoundTrip` (`roundtrip.dfy`): decrypting the encoder's output.
- `Highlight` (`highlight.dfy`): `generateHighlightHTML`, written as the source's loop over the tokens. A reader of the overlay (`ReadHtml`) turns the markup back into characters and highlight marks, so that what the overlay shows can be stated.
- `Settings` (`settings.dfy`): the policy class `Policy`, which has the fields `enabled` and `customWords`, an invariant, and one method per click handler.
- `Options` (`options.dfy`): the `Option` type.

## Model

| member | source | states |
|---|---|---|
| Text.Trim | script.js:30 | `trim()` gives the empty string exactly when the word is all white space; otherwise the result neither starts nor ends with white space |
| Text.TrimStart | script.js:30 | the leading white space is dropped: the result is a suffix of the input, what was dropped is all white space, and the result does not start with white space |
| Text.TrimEnd | script.js:30 | the trailing white space is dropped: the result is a prefix of the input, what was dropped is all white space, and the result does not end with white space |
| Text.LowerChar | script.js:30 | a capital becomes its own small letter, the same distance further on as `'a'` is from `'A'` (so `'A'`..`'Z'` become `'a'`..`'z'`); the result is never a capital, white space stays white space, and any other character is kept |
| Text.LowerCharMerges | script.js:30 | two different characters share a lower case only when one is a capital and the other is its small letter |
| Text.ToLower | script.js:30 | lower-casing keeps the length and lower-cases each character in place |
| Text.Normalize | script.js:30 | the dictionary key of a word is empty exactly when the word is all white space, and it holds no capital letter |
| Text.NormalizeIgnoresCase | script.js:30-35 | two words that differ only in case have the same dictionary key |
| Text.NormalizeIgnoresPadding | script.js:30-35 | white space added around a word does not change its dictionary key |
| Text.NormalizeIdempotent | script.js:30 | normalising a key again gives the same key |
| Text.NormalizeIsKey | script.js:198-200 | the key of a word that is not all white space is non-empty, has no white space at either end and has no capital letter |
| Text.KeyNormal | script.js:198-200 | a string satisfies that description exactly when it is non-empty and is its own key |
| Classifier.Token.Pre | script.js:71 | the text before a term, or the empty string when the field is missing or not a string, as `typeof t.pre === 'string' ? t.pre : ''`; ChunkContent states how the encoder uses it |
| Classifier.Token.Post | script.js:82 | the text after a term, read the same way as `pre`; ChunkContent states how the encoder uses it |
| Classifier.AnyEnabled | script.js:38 | `tags.some(tag => enabled.has(tag))` is true exactly when some tag is enabled |
| Classifier.SecondaryHit | script.js:41-56 | the secondary taggers flag a word exactly when one of them gives the first term of its first sentence an enabled tag |
| Classifier.FirstTerm | script.js:43-44 | the tags of `json()[0].terms[0]`, absent when the tagger gave no sentence or no term; TaggerHitRules states what it yields |
| Classifier.TaggerHit | script.js:42-45 | one secondary tagger's check, `terms[0].tags.some(...)` guarded by the presence test; TaggerHitRules characterises it |
| Classifier.TaggerHitRules | script.js:41-54 | a tagger flags a word exactly when its output has a first sentence with a first term and that term carries an enabled tag |
| Classifier.IsSensitive | script.js:26-59 | `isSensitive` for the current policy and the loaded taggers; what it decides is stated by IsSensitiveRules (both directions), DictionaryPrecedence and IsSensitiveMonotone |
| Classifier.IsSensitiveRules | script.js:26-59 | a word that trims to nothing is never sensitive. Any other word is sensitive exactly when its key is a custom word, one of its own tags is enabled, or a secondary tagger flags it. The custom-word case alone is enough |
| Classifier.SensitiveWordNonEmpty | script.js:32 | a sensitive token has a non-empty word |
| Classifier.DictionaryPrecedence | script.js:30-35 | a word whose key is a custom word is sensitive whatever its case and surrounding white space, even with every category disabled |
| Classifier.IsSensitiveMonotone | script.js:35-54 | enabling more categories or listing more words never makes a sensitive token plain |
| Cipher.Marker | script.js:76 | the literal `[ENC]` written before each ciphertext and searched for by the decoder; MatchFound states where the decoder finds it |
| Cipher.IsCipherChar | script.js:90 | the character class `[A-Za-z0-9+/=]`; RunLength and MatchFound state that a match's ciphertext is made of these and is the longest such run |
| Cipher.IsCipherText | script.js:90 | a string of characters from that class; LexWellFormed states that every span the scan finds is one |
| Encoder.Body | script.js:73-79 | the middle of a token's chunk, the marker and ciphertext or the word; stated by ChunkContent |
| Encoder.Chunk | script.js:71-83 | the chunk of one token; ChunkContent states what it holds for a sensitive token and for any other |
| Encoder.EncodeTokens | script.js:66-84 | the `map(...).join('')` over the tokens; ChunkAt places each token's chunk, EncodeAppend splits the list, and EncodeNothingSensitive gives the output when nothing is sensitive |
| Encoder.EncryptText | script.js:62 | the empty text encrypts to the empty text |
| Encoder.EncodeNothingSensitive | script.js:66-84 | with no sensitive token the output is every token's `pre + word + post`, in order |
| Encoder.EncryptUnchanged | script.js:61-85 | when the tokens cover the text and none is sensitive, the text comes back unchanged |
| Encoder.EncodeAppend | script.js:66-84 | the output for a concatenation of token lists is the concatenation of their outputs |
| Encoder.ChunkAt | script.js:66-84 | the output is one chunk per token, in order: token `k`'s chunk stands between the output for the tokens before it and for those after it |
| Encoder.ChunkContent | script.js:71-82 | a sensitive token's chunk is its `pre`, the marker, the ciphertext of its word and its `post`; any other token's chunk is exactly the text it covers |
| Decoder.RunLength | script.js:90 | the run after the marker is Base64 and is maximal: the next character, if any, is outside the alphabet |
| Decoder.MatchLength | script.js:90 | a match starts with the marker and lies within the text |
| Decoder.MatchFound | script.js:90 | a match starts exactly where the marker is followed by a Base64 character, and it takes the whole run: its ciphertext is Base64 and is followed by the end of the text or by a character outside the alphabet |
| Decoder.Lex | script.js:90 | the leftmost, non-overlapping matches of the regular expression; UnlexLex, LexWellFormed and LexUnlex state that it loses nothing and is the one well-formed segmentation, and LexSplit that it splits at a `[` |
| Decoder.UnlexLex | script.js:90 | the scan loses and reorders nothing: its pieces spell out the scanned text |
| Decoder.LexWellFormed | script.js:90 | every span the scan finds holds a non-empty, maximal Base64 run, and no span starts at a character it reads as plain |
| Decoder.LexUnlex | script.js:90 | any segmentation with those properties is the one the scan finds, so the segmentation is unique |
| Decoder.DecryptText | script.js:88 | the empty text decrypts to the empty text |
| Decoder.Subst | script.js:90-98 | the replacement callback; SubstituteFailing states the failure cases and DecodeSpanPrefix the success case |
| Decoder.Substitute | script.js:90-98 | the callback applied to every piece in order; SubstituteAppend and SpanIsolation state that each piece is handled on its own |
| Decoder.SubstituteAppend | script.js:90-98 | the substitution of a concatenation of pieces is the concatenation of their substitutions |
| Decoder.SpanIsolation | script.js:90-98 | in any text, a span's own result sits between the result for the text before it and the result for the text after it, so a corrupted span changes nothing else |
| Decoder.SubstituteFailing | script.js:91-97 | a span that fails to decrypt, or decrypts to the empty string, is kept whole, marker included |
| Decoder.DecryptAllFailing | script.js:87-99 | when every span fails, the text comes back unchanged |
| Decoder.NoMatchUnchanged | script.js:88-90 | text in which no match starts anywhere comes back unchanged |
| Decoder.BareMarkerKept | script.js:90-98 | in any text, a marker followed by the end of the text or by a character outside the alphabet is no match: it is kept, and the text before it and the text after it are decoded as if each stood alone, spans included |
| Decoder.LexSplit | script.js:90 | no match runs past a `[`, so the scan of the text before a `[` does not depend on what follows |
| Decoder.DecodePlainPrefix | script.js:90 | text without `[` is copied by the decoder, and the decoding of what follows is unaffected |
| RoundTrip.DecodeSpanPrefix | script.js:90-94 | the marker, a ciphertext and a character that ends the run decode to the decrypted word followed by the decoding of the rest |
| Decoder.NoMatchPrefix | script.js:90 | a text in which no match starts keeps that property when text is cut from its end |
| Decoder.NoMatchSuffix | script.js:90 | a text in which no match starts keeps that property when text is cut from its start |
| RoundTrip.DecodeSensitiveChunk | script.js:71-94 | copied text without matches, then a sensitive token's chunk, decodes back to that text followed by `pre + word + post` |
| RoundTrip.DecodeFrom | script.js:66-98 | after copied text `q`, the decoder turns the encoder's output for a token list back into `q` followed by the text those tokens cover, when no match starts in that text |
| RoundTrip.DecodeTokens | script.js:66-98 | the decoder turns the encoder's output for a token list back into the text those tokens cover, when no match starts in that text |
| RoundTrip.RoundTrip | script.js:61-99 | `decryptText(encryptText(text)) == text` under the conditions listed under Left out |
| Highlight.ReplaceChar | script.js:113 | `str.replace(/c/g, rep)` for one character; ReplaceRemoves, ReplaceAbsent and ReplaceAppend characterise it |
| Highlight.ReplaceRemoves | script.js:127 | after `replace(/\n/g, '<br/>')` no raw line break is left |
| Highlight.ReplaceAbsent | script.js:127 | text without line breaks is left unchanged by that replacement |
| Highlight.ReplaceAppend | script.js:113 | a global single-character replacement distributes over concatenation |
| Highlight.Escape | script.js:113 | the source's `esc`; EscapeHead states that it escapes each character on its own |
| Highlight.EscapeHead | script.js:113 | because `&` is escaped first, the chain of three replacements escapes each character on its own, and no entity is escaped twice |
| Highlight.BreakLines | script.js:127 | `html.replace(/\n/g, '<br/>')`; ReplaceRemoves states that no raw line break is left, and OverlayOfEscape and BreakWord what each character and tag becomes |
| Highlight.OverlayOfEscape | script.js:113-127 | escaping and then converting line breaks gives, character by character, the entity, `<br/>` or the character itself |
| Highlight.ReadHtmlChar | script.js:113-127 | each character's markup reads back as that character |
| Highlight.ReadOverlay | script.js:113-127 | the overlay of any text reads back as that text |
| Highlight.BreakWord | script.js:115-127 | converting line breaks in a word's fragment leaves the span tags intact |
| Highlight.ReadWord | script.js:115-123 | a word's fragment reads back as its `pre`, its word and its `post`, with the word inside a highlight exactly when it is sensitive |
| Highlight.Fragment | script.js:115-123 | the markup of one token; ReadWord and WordMarksRead state what it reads back as |
| Highlight.HighlightTokens | script.js:107-124 | the fragments of all tokens in order; HighlightStep ties it to the loop, and ReadTokens and MarksMeaning state what it shows |
| Highlight.HighlightStep | script.js:107-124 | each pass of the loop appends exactly the fragment of the next token |
| Highlight.ReadTokens | script.js:107-127 | the overlay of the token list reads back as the tokens' text, in order, with exactly the sensitive words highlighted |
| Highlight.GenerateHighlightHTML | script.js:101-131 | empty input gives `<br/>`. Otherwise the result is the tokens' fragments with line breaks converted, plus one `<br/>` when the text ends with `\n`. It holds no raw line break, and it reads back as the tokens' marks with one more line break exactly in that case |
| Highlight.WordMarksRead | script.js:115-123 | the marks of one word spell `pre + word + post` and open one highlight when it is sensitive, none otherwise |
| Highlight.MarksMeaning | script.js:107-124 | the overlay's text, highlights ignored, is the text the tokens cover, and the number of highlights is the number of sensitive tokens |
| Settings.AllPosTypes | script.js:9-21 | the eleven tag categories the panel offers, in display order |
| Settings.AllCategories | script.js:9-23 | those categories as a set; the Policy constructor's ensures states that all of them start enabled |
| Settings.Toggle | script.js:165-166 | toggling flips the membership of the one category and leaves every other unchanged |
| Settings.ToggleTwice | script.js:165-166 | toggling a category twice restores the set |
| Settings.Added | script.js:197-200 | the custom-word list after `addCustomWord`; AddedWordList fixes its contents, AddedIdempotent and AddedFlags state its effect |
| Settings.AddedWordList | script.js:197-200 | adding keeps the list lower-cased, trimmed, non-empty and free of repeats. The key of the input is listed afterwards exactly when it is non-empty, the old list stays a prefix, and the list grows by exactly one word when the key is non-empty and new and is otherwise unchanged |
| Settings.AddedIdempotent | script.js:198-199 | adding the same word again, in any case and with any padding, changes nothing |
| Settings.AddedFlags | script.js:197-200 | adding a word never unflags a token, and it flags every token whose word has the same key |
| Settings.RemovedAt | script.js:189 | removal at a valid index shortens the list by one; at an index past the end it changes nothing |
| Settings.RemovedAtWordList | script.js:189 | removal keeps the list well formed and takes out exactly one copy of the word, so the word is gone |
| Settings.RemovedAtIndex | script.js:189 | the words before the index keep their place and the words after it move up by one |
| Settings.NoCustomWords | script.js:212 | with the list cleared, a token is sensitive only through its tags or a secondary tagger |
| Settings.Policy.constructor | script.js:23-24 | the initial policy enables every category and lists no custom word |
| Settings.Policy.ToggleCategory | script.js:165-166 | the click on a category chip toggles that category, keeps the word list and keeps the invariant |
| Settings.Policy.RemoveCustomWordAt | script.js:189 | the click on a chip's remove mark removes the word at that index, keeps the categories and keeps the invariant |
| Settings.Policy.AddCustomWord | script.js:197-200 | `addCustomWord` appends the key of its input when that key is non-empty and not yet listed, keeps the categories and keeps the invariant |
| Settings.Policy.ClearCustomWords | script.js:212 | the confirmed clear empties the list and keeps the categories |

## Left out

- The tokenizer and tagger library (`nlp`, `window.nlpFr`, `window.nlpDe`) is foreign code. The token list is a parameter `tokenize` of the encoder and the highlighter. The secondary taggers are a sequence of functions from a word to the tag lists of its sentences; a tagger that is not loaded is absent from the sequence.
- The AES cipher and the UTF-8 decoding of its output are foreign code. They are the parameters `Encrypt` and `Decrypt`, and `Decrypt` returns `None` where the source's call throws. AES encryption is randomised (a fresh salt on every call), but the model's `Encrypt` is a function, so the model does not capture that one word encrypts differently each time.
- `randomKey` and `SESSION_KEY` draw on the browser's random source. The key is folded into `Encrypt` and `Decrypt`.
- All DOM and event wiring is not modelled: rendering the chips, the `confirm` dialog (`ClearCustomWords` models the confirmed case), the selection capture, the clipboard copy, the scroll sync and clearing the input box after an add.
- Text.LowerChar: lower-cases only the Basic Latin and Latin-1 capitals. JavaScript's full Unicode case mapping is not modelled.
- Text.ToLower: built on Text.LowerChar, so it shares that limit; case mappings that change the length are not modelled either.
- Strings are sequences of code points, while JavaScript strings are UTF-16 code units. The two differ only for characters outside the Basic Multilingual Plane, which the Base64 alphabet and the markup never contain.
- A `pre` or `post` that is missing or not a string is `None`, read as the empty string. The highlighter's `t.pre || ''` would throw on a non-string truthy value; that case is not modelled.
- RoundTrip.RoundTrip: proved under sufficient conditions, not the weakest ones. The tokens must cover the text exactly, and encryption must give a non-empty Base64 ciphertext, and decrypting that ciphertext must return the word. The original text must hold no `[ENC]` followed by a Base64 character, since the decoder would decrypt such a copy. What the encoder writes right after each ciphertext, that is the token's `post` followed by the chunks of the tokens after it, must be empty or begin with a character outside the Base64 alphabet, since otherwise the decoder's greedy run swallows the start of that `post` (such as `/` or a letter). Texts outside these conditions can still round-trip; the model does not characterise them.
- Settings.Policy.ToggleCategory: requires the category to be one of the eleven the panel offers, since the page only ever toggles those.
