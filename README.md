# Verified model of the reply clean-up and knowledge gating of a small RAG chat service

The service lets a user teach short facts, stores them in a vector database,
and answers chat messages with a small language model. Almost all of its
behaviour lives in third-party libraries. The locally written logic is
string handling, and that is what this project models and proves things
about:

- **Reply clean-up** (`Phi2Model.generate`, app/model.py). The decoded model
  output goes through a fixed sequence of steps:
  - strip it;
  - remove the echoed prompt;
  - delete eight "revealing" phrases as whole words, ignoring case;
  - cut at eight speaker labels;
  - drop a leading `Assistant:` and anything from `Human:` on;
  - collapse whitespace;
  - shorten to a first sentence or to sixty characters;
  - fall back to a canned reply when fewer than five characters are left.

  Module `Cleanup` gives each step as a function. `Clean` composes them, and
  `Generate` is the same clean-up written as the source writes it, as a
  series of reassignments of a local `cleaned`. Its three loops are the
  methods `RemoveRevealingPhrases`, `CutAtSpeakerLabels` and `ShortenReply`,
  each proved equal to its function.
- **Knowledge validation and storage** (`KnowledgeStore`, app/knowledge.py).
  Module `Knowledge` holds the length check `ValidateKnowledge` and the
  metadata merge `MergeMetadata`. The class `KnowledgeStore` keeps the
  collection as a sequence of records; `StoreKnowledge` appends to it and
  `RetrieveRelevantKnowledge` models the empty-collection early return.
- **String operations** (module `Text`). These are Python's `strip`, `lower`,
  `in`, `split(sep)`, `sep.join`, `replace(p, "")` and `" ".join(s.split())`.
  They come with their own laws: splitting and joining round-trip, and the
  collapse yields a normal form and keeps the words.

Three simplifications of Python's Unicode semantics are fixed in `Text`:

- whitespace is the ten ASCII characters Python treats as whitespace
  (space, tab, line feed, vertical tab, form feed, carriage return and
  U+001C to U+001F);
- `lower()` and `re.IGNORECASE` fold only ASCII letters;
- a word character for `\b` is an ASCII letter, a digit or `_`.

All eight phrases begin and end with a word character. So `\b` around them
reduces to "at the edge of the text or next to a non-word character"
(`WholeWordNeighbours`).

Three branches of the clean-up can never change the text, and the model
proves each of them dead:

- In the label loop, `len(parts) > 1` always holds once the label occurs
  (`Text.SplitManyIff`).
- After the label loop, the `Assistant:` and `Human:` checks never fire
  (`LabelStageProperties`).
- The line-break separator never qualifies, because the collapse before it
  has removed every line break (`LineBreakNeverQualifies`).

The retrieved `context` has no effect on the text given to the model
(`BuildPrompt`).

## Model

| member | source | states |
|---|---|---|
| `Cleanup.BuildPrompt` | app/model.py:93-102 | the text given to the tokenizer equals the prompt whatever the context is: the retrieved knowledge is never used |
| `Cleanup.EchoChangesOnlyExactOccurrence` | app/model.py:136-139 | on stripped text, the echo step changes something only if the prompt occurs ignoring case, the text is more than `len(prompt)+10` long, and the prompt also occurs with its exact case (the test ignores case, the removal does not) |
| `Cleanup.EchoRemovesEveryOccurrence` | app/model.py:137-139 | when the echo step runs, the text is the kept pieces joined by the prompt, no kept piece holds the prompt, and the result is those pieces concatenated and stripped |
| `Text.RemoveAllUnchangedIff` | app/model.py:139 | `replace(p, "")` with non-empty `p` leaves the text unchanged exactly when `p` does not occur in it |
| `Text.SplitJoin` | app/model.py:155 | joining the parts of `split(sep)` with `sep` gives back the original text |
| `Text.SplitPartsFree` | app/model.py:155 | no part of `split(sep)` contains `sep` |
| `Text.SplitManyIff` | app/model.py:154-156 | `split(label)` has more than one part exactly when the label occurs, so the `else` branch at line 158 is dead |
| `Cleanup.DeleteWithoutMatch` | app/model.py:150 | with no whole-word match from position `i` on, the `re.sub` scan keeps the rest of the text verbatim |
| `Cleanup.DeleteFirstMatch` | app/model.py:150 | the `re.sub` scan keeps the text before the first whole-word match verbatim, drops that match, and goes on after it; with `DeleteWithoutMatch` this fixes the scan's result |
| `Cleanup.DeleteKeepsSegment` | app/model.py:150 | a stretch of the text that no whole-word match overlaps survives the `re.sub` scan as one contiguous piece |
| `Cleanup.RemovePhraseFirstMatch` | app/model.py:146-150 | when the first whole-word match is at `j`, the step's result is the text before `j`, verbatim, followed by the scan of the text after the match, stripped |
| `Cleanup.RemovePhraseKeepsEmbedded` | app/model.py:146-150 | an occurrence of the phrase, ignoring case, that is not a whole word and that no whole-word match overlaps is still in the result, even when matches elsewhere are deleted (e.g. "know" inside "knowledge") |
| `Cleanup.RemovePhraseIsSubsequence` | app/model.py:146-150 | one phrase step only deletes characters: the result is a subsequence of its input |
| `Cleanup.RemovePhrasesIsSubsequence` | app/model.py:142-150 | the whole phrase loop only deletes characters |
| `Cleanup.RemovePhraseUnchangedIff` | app/model.py:146-150 | on stripped text, a phrase step changes the text exactly when the phrase occurs as a whole word, ignoring case |
| `Cleanup.WholeWordNeighbours` | app/model.py:150 | for a phrase that begins and ends with a word character, a case-insensitive occurrence matches `\b...\b` exactly when it is at the edge of the text or next to non-word characters |
| `Cleanup.PhrasesAreWordBounded` | app/model.py:142-145 | each of the eight phrases is non-empty and begins and ends with a word character |
| `Cleanup.EmbeddedPhraseKept` | app/model.py:146-150 | "I know" inside "I knowledge" is not deleted |
| `Cleanup.RemovePhrasesStripped` | app/model.py:146-150 | the phrase loop keeps stripped text stripped |
| `Cleanup.RemoveRevealingPhrases` | app/model.py:142-150 | the phrase loop computes the phrase steps over the eight phrases in order |
| `Cleanup.CutAtLabelSuffix` | app/model.py:153-159 | one label step on stripped text leaves a stripped suffix of it that no longer contains that label |
| `Cleanup.CutAtLabelKeepsLastPart` | app/model.py:153-159 | a label step leaves text without the label unchanged; otherwise the text is `u + label + t` with no label in `t`, and the step returns `t` stripped: what follows the last occurrence the split finds |
| `Cleanup.CutAtLabelsSuffix` | app/model.py:153-159 | after the label loop the text is a stripped suffix of its input and contains none of the labels |
| `Cleanup.CutAtSpeakerLabels` | app/model.py:153-159 | the label loop computes the label steps over the eight labels in order |
| `Cleanup.DropFewShotMarkersUnchanged` | app/model.py:161-165 | text containing neither `Assistant:` nor `Human:` passes the two checks unchanged |
| `Cleanup.LabelStageProperties` | app/model.py:153-165 | after the label loop the text is a suffix of the phrase-loop output and contains no label, so the `Assistant:`/`Human:` checks never change it |
| `Text.Strip` | app/model.py:134 | `strip()` returns the slice between the leading and trailing whitespace, and that slice neither begins nor ends with whitespace |
| `Text.CollapseSingleSpaced` | app/model.py:168 | the whitespace collapse always yields the normal form: no leading or trailing whitespace, no two adjacent spaces, no line break |
| `Text.CollapseUnchangedIff` | app/model.py:168 | the collapse leaves a text unchanged exactly when it is already in normal form |
| `Text.WordsOfCollapse` | app/model.py:168 | the collapse keeps the words of the text, in order |
| `Cleanup.ShortenFirstQualifyingWins` | app/model.py:171-177 | for text longer than 60, separators are tried in the order `. `, `! `, `? `, line break; the first whose stripped leading segment is longer than 8 wins, and the reply is that segment followed by the separator's mark |
| `Cleanup.PunctuationMarks` | app/model.py:172-176 | the marks appended for the four separators are `.`, `!`, `?` and `.` |
| `Cleanup.ShortenNoSeparator` | app/model.py:178-181 | if no separator qualifies, the reply is the stripped first 60 characters closed by a mark, at most 61 characters |
| `Cleanup.Truncate` | app/model.py:179-181 | the truncated reply has 1 to 61 characters, ends with `.`, `!` or `?`, and is the stripped first 60 characters, with a `.` appended only when they do not already end with `.`, `!` or `?` |
| `Cleanup.ShortenKeepsShort` | app/model.py:171 | text of at most 60 characters is not shortened |
| `Cleanup.ShortenNotLonger` | app/model.py:171-181 | shortening never makes the text longer |
| `Cleanup.ShortenSingleSpaced` | app/model.py:168-181 | shortening keeps the whitespace normal form |
| `Cleanup.LineBreakNeverQualifies` | app/model.py:168-176 | on collapsed text the line-break separator never qualifies |
| `Cleanup.ShortenReply` | app/model.py:170-181 | the separator loop with its `else` clause computes the shortening |
| `Cleanup.Fallback` | app/model.py:183-191 | the reply has at least 5 characters; a text of 5 or more is kept; a shorter one becomes one of the three canned replies |
| `Cleanup.FallbackChoice` | app/model.py:184-191 | for a too-short text the reply is `Hello!` exactly when the lower-cased prompt contains `hi`, `hello` or `hey`; otherwise `I can help with that.` exactly when the prompt contains `?`; otherwise `I'm here to help.` |
| `Cleanup.CannedRepliesSingleSpaced` | app/model.py:186-191 | the canned replies are in whitespace normal form |
| `Cleanup.CleanNormalForm` | app/model.py:133-193 | every reply has at least 5 characters, no leading or trailing whitespace, no two adjacent spaces and no line break |
| `Cleanup.Generate` | app/model.py:93-193 | the step-by-step clean-up returns the prompt as the tokenizer input and `Clean` of the model output as the reply, which has at least 5 characters and is in whitespace normal form |
| `Knowledge.ValidateKnowledge` | app/knowledge.py:52-71 | the text is valid exactly when its stripped length is at least 10 and its raw length at most 5000 |
| `Knowledge.ValidateIgnoresTopic` | app/knowledge.py:52-71 | the topic never affects the verdict |
| `Knowledge.ValidatePadding` | app/knowledge.py:63-69 | trailing whitespace padding counts against the 5000 upper bound but never towards the lower bound of 10 |
| `Knowledge.MergeMetadata` | app/knowledge.py:93-95 | the stored keys are the caller's keys plus `topic` when the topic is non-empty; the caller's values win, including over `topic`; `topic` maps to the topic when the caller did not supply it |
| `Knowledge.KnowledgeStore.constructor` | app/knowledge.py:41-45 | an opened collection holds the records it already had |
| `Knowledge.KnowledgeStore.StoreKnowledge` | app/knowledge.py:85-110 | the result is the validation verdict; on failure the collection is unchanged; on success exactly one record is appended, holding the text unmodified (not stripped) and the merged metadata |
| `Knowledge.KnowledgeStore.RetrieveRelevantKnowledge` | app/knowledge.py:127-140 | an empty collection yields no hits and the query is never searched; otherwise the search is asked for `min(top_k, count)` results |

## Left out

- Loading the model and tokenizer, quantization, tokenization, sampling and decoding (app/model.py:28-71, 104-131): these are calls into torch/transformers with random output. The decoded text is the parameter `generated` of `Cleanup.Generate`. `max_tokens` only feeds that call, as `min(max_tokens, 25)` (app/model.py:116), and is not a parameter. The `temperature` argument is never read: the call passes the literal 0.7 (app/model.py:117).
- `Cleanup.Generate`: the `except` path that turns a failure into an error string (app/model.py:195-197) is not modelled. Only failures in foreign code reach it.
- `Phi2Model` is not a class here: its fields are the foreign model and tokenizer, and the clean-up reads none of them.
- Unicode: `strip`/`split()` whitespace, `lower()`/`re.IGNORECASE` case folding and the `\w` class of `\b` are restricted to ASCII. So non-ASCII whitespace (U+0085, U+00A0, U+2000 to U+200A, U+2028, U+3000 and the others `str.isspace` accepts) is not stripped or split on. Python's `re.IGNORECASE` also pairs non-ASCII letters with ASCII ones: the dotless `ı` and `İ` (U+0130) with `i`/`I`, `ſ` (U+017F) with `s` and the Kelvin sign (U+212A) with `k`; the model matches none of these.
- `Knowledge.KnowledgeStore.RetrieveRelevantKnowledge`: the query encoding, the nearest-neighbour query and the `1/(1+distance) >= 0.7` filter (app/knowledge.py:131-163) are the function parameter `search`. They are library calls on floating-point data.
- `Knowledge.KnowledgeStore.StoreKnowledge`: the embedding, the random UUID and the `except` path (app/knowledge.py:89-91, 97-99, 112-114) are not modelled. Metadata values are strings only, and a missing `metadata` argument is the empty map, which `if metadata` treats the same way.
- `get_all_knowledge` (app/knowledge.py:165-199) and the database client setup (app/knowledge.py:32-50): these only reshape library results.
- The singleton `__new__` patterns, logging, app/chat.py (background threads), app/main.py (HTTP routing), app/embeddings.py (embedding wrapper), app/config.py (constants and directory creation) and pm2.config.js (deployment) are not part of this model.
