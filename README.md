# StringVocab: the phrase tokenizer's vocabulary table

This project models `StringVocab` from TF.Text's phrase tokenizer. It is the
bidirectional table between phrase strings and integer ids that the tokenizer
uses to look phrases up and to turn ids back into strings.

The table is built from an ordered list of strings. The id of a string is its
position in that list. Construction copies the list, then walks it left to
right and assigns `index_map_[vocab_[i]] = i`. A later assignment overwrites an
earlier one, so a string that occurs several times gets the id of its last
occurrence. The table answers four read-only queries:

- `Contains` says whether a string is in the map, and always reports an OK status.
- `LookupId` gives the id of a string, or nothing.
- `LookupWord` gives the string at an id, or nothing when the id is out of range.
  The range is the length of the list.
- `Size` gives the number of map entries. That is the number of distinct strings.
  It is less than the list length when the list has duplicates.

All of it is in `string_vocab.dfy`:

- Module `Optional` holds `Option`, the model of `absl::optional`.
- Module `PhraseTokenizer` holds the value-level specification of the
  construction pass. `BuildIndex` is the map after the pass. `IsLastIndex`,
  `Elements` and `NoDuplicates` are the reference predicates the lemmas use.
- The same module holds the class `StringVocab`. Its fields are `vocab`
  (a `seq<string>`) and `indexMap` (a `map<string, int>`). The constructor
  fills the map with a loop. The four queries are read-only members.
  Their `reads this` frames and the absence of `modifies` clauses state that
  they leave both fields unchanged, which the C++ `const` qualifiers also promise.

## Model

| member | source | states |
|---|---|---|
| PhraseTokenizer.BuildIndexMapsToLastIndex | tensorflow_text/core/kernels/phrase_tokenizer.h:35-39 | after the construction pass, a string has a map entry iff it occurs in the list, and its entry is the largest index at which it occurs (later assignments overwrite earlier ones) |
| PhraseTokenizer.BuildIndexKeys | tensorflow_text/core/kernels/phrase_tokenizer.h:35-39 | the keys of the map are exactly the distinct strings of the list |
| PhraseTokenizer.BuildIndexSize | tensorflow_text/core/kernels/phrase_tokenizer.h:35-39 | the map has at most as many entries as the list has elements, with equality iff the list has no duplicates |
| PhraseTokenizer.StringVocab.constructor | tensorflow_text/core/kernels/phrase_tokenizer.h:35-39 | the list is copied unchanged; the loop keeps the invariant that after i steps the map is the one built from the first i entries, so at the end each string of the list maps to its last position and no other key is present |
| PhraseTokenizer.StringVocab.Contains | tensorflow_text/core/kernels/phrase_tokenizer.h:41-44 | the output flag is true iff the key occurs in the list, which is iff LookupId finds it; the status is always OK |
| PhraseTokenizer.StringVocab.LookupId | tensorflow_text/core/kernels/phrase_tokenizer.h:46-53 | an id is returned iff the key occurs in the list, and it is the largest index at which the key occurs |
| PhraseTokenizer.StringVocab.LookupWord | tensorflow_text/core/kernels/phrase_tokenizer.h:55-61 | nothing is returned iff the id is negative or not below the length of the list (not Size()); otherwise the string at that position |
| PhraseTokenizer.StringVocab.Size | tensorflow_text/core/kernels/phrase_tokenizer.h:63 | the number of distinct strings of the list, at most the list length, equal to it iff the list has no duplicates |
| PhraseTokenizer.StringVocab.WordAtEveryId | tensorflow_text/core/kernels/phrase_tokenizer.h:35-39 | every valid id gives back the string at its position, and that string's id is at or after that position |
| PhraseTokenizer.StringVocab.IdThenWord | tensorflow_text/core/kernels/phrase_tokenizer.h:46-61 | LookupWord(LookupId(key)) gives back the key whenever LookupId finds it |
| PhraseTokenizer.StringVocab.WordThenId | tensorflow_text/core/kernels/phrase_tokenizer.h:35-61 | with no duplicates, LookupId(LookupWord(i)) == i for every valid id, so the table is a bijection on [0, list length) |
| PhraseTokenizer.StringVocab.DuplicateLosesEarlierId | tensorflow_text/core/kernels/phrase_tokenizer.h:36-38 | when a string occurs at positions i < j, LookupId never returns i for it, and Size() is below the list length |

## Left out

- `PhraseTokenizer` (phrase_tokenizer.h:70-121) is left out. Only its declarations are visible: `Create`, `Tokenize`, `Detokenize`, `DetokenizeToTokens`, `FindPhraseTokens` and `PhraseLookup` have no bodies in the header. Modelling them would mean inventing the matching and detokenization behaviour.
- `PhraseTokenizer::Create` reads a flatbuffer configuration. That is generated code which is not part of this model.
- The random generator `gen_` and the float `prob_` of `PhraseTokenizer` are not modelled. The random source is opaque, and they belong to the left-out class.
- `WordpieceVocab`, the base class of `StringVocab`, is not part of this model. Neither are `LookupStatus`'s internals. `LookupStatus` is modelled as a datatype whose `Ok` case is the only one this table produces.
- The map's keys are `absl::string_view`s pointing into `vocab_`. They are modelled as plain strings, so lifetime and aliasing are not captured.
- C++ `int` widths are not modelled. The loop counter `int i` compared with `vocab.size()`, and `Size()` returning `int`, would overflow beyond 2^31 - 1 entries. Ids and sizes here are unbounded integers.
- LookupWord compares `vocab_id >= vocab_.size()` between a signed and an unsigned value. A negative id is converted to a huge unsigned value and fails that test. The explicit `vocab_id < 0` test rejects it too, so the result is the same and the model uses one signed comparison.
