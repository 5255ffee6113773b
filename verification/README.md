# Phonewords in Dafny

A Dafny model of `phoneword_generator.py`, which converts between telephone
numbers and keypad "wordifications". Examples are `1-800-724-6837` and
`1-800-PAINTER`. The model covers five pieces:

- the keypad table;
- the pattern matcher `find_valid_word`;
- the exhaustive engine `all_wordifications`, with its partition generator
  `gen_partitions`, its per-call memo of candidate sets and its cartesian
  product;
- the single-result converter `number_to_words`, with its substring
  collector `find_usable_substrings`;
- the reverse mapper `words_to_number`.

Everything is pure. Each module follows one component:

| file | module | models |
|---|---|---|
| `outcomes.dfy` | `Outcomes` | the exceptions the code raises (`KeyError`, `StopIteration`, `IndexError`, `TypeError`), as a `Result` |
| `pystrings.dfy` | `PyStrings` | Python's `str.replace`, `str.find`, ASCII `str.upper`, clamping slices and `"".join` |
| `keypad.dfy` | `Keypad` | the `mapping` table, its disjointness, and the pattern built from a digit string |
| `matcher.dfy` | `Matcher` | `find_valid_word` |
| `partitions.dfy` | `PartitionGen` | `gen_partitions` |
| `product.dfy` | `CartesianProduct` | `itertools.product` followed by `"".join` |
| `wordify.dfy` | `Wordify` | `all_wordifications` with its memo |
| `reverse.dfy` | `Reverse` | `words_to_number` |
| `single.dfy` | `SingleWordify` | `number_to_words` and `find_usable_substrings` |

Modelling choices:

- The vocabulary is a `seq<string>`: the order in which the Python set
  happens to iterate. In all-words mode only its members matter. Single mode
  returns the first match in that order.
- `number_to_words` iterates and pops a hash set. Its order is the parameter
  `order`, which enumerates the substring set. Every contract holds for every
  such order.
- A regular expression `^[ABC2][DEF3]...$` is a sequence of character
  classes. "Matches" means the same length, with each character in the class
  at its position.
- Raising is a `Failure` carrying the Python exception.

## Model

| member | source | states |
|---|---|---|
| `Keypad.TableShape` | phoneword_generator.py:5-14 | the table's keys are exactly the ten digits; `0` and `1` stand only for themselves; every upper-case letter is listed, under the digit the independent inverse table names |
| `Keypad.ListsDisjoint` | phoneword_generator.py:5-14 | the keypad lists of two different digits share no character |
| `Keypad.OwnerOfListed` | phoneword_generator.py:5-14 | every listed character belongs to exactly one digit; every digit lists itself; no list holds a lower-case letter or a hyphen |
| `Keypad.BuildPattern` | phoneword_generator.py:103 | building the class-per-digit pattern succeeds exactly for digit strings and then gives the keypad pattern; otherwise it raises `KeyError` on the first character of the input that is not a key |
| `Matcher.FindValidWord` | phoneword_generator.py:28-36 | all-words mode returns exactly the upper-cased vocabulary words matching the pattern; single mode returns the first match in iteration order, or the empty set exactly when nothing matches |
| `PyStrings.StripHyphens` | phoneword_generator.py:91 | the result has no hyphen and keeps the count of every other character |
| `PyStrings.StripHyphensAppend` | phoneword_generator.py:91 | stripping hyphens keeps the order of the other characters (it distributes over concatenation) |
| `PyStrings.Upper` | phoneword_generator.py:72 | upper-casing keeps the length, keeps non-lower-case characters, turns each lower-case ASCII letter into the upper-case letter at the same place in the alphabet, and leaves no lower-case letter |
| `PyStrings.PySlice` | phoneword_generator.py:75 | a slice equals the Dafny subsequence for in-range bounds, clamps bounds past the end, and is always a substring |
| `PyStrings.ReplaceAll` | phoneword_generator.py:62 | replacing by a string of the target's length keeps the length |
| `PyStrings.Find` | phoneword_generator.py:62 | the position found, if any, starts an occurrence of the target |
| `PyStrings.FindIsFirst` | phoneword_generator.py:62 | no occurrence starts before the position found, and none at all when the search reports -1 |
| `PyStrings.FindIs` | phoneword_generator.py:62 | an occurrence with none before it is the one the search finds |
| `PyStrings.ReplaceAllAtFind` | phoneword_generator.py:62 | at the first occurrence of a non-empty target, the text before it is copied, the occurrence becomes the replacement, and the scan resumes after it |
| `PyStrings.ReplaceAllFirst` | phoneword_generator.py:62 | the same, for an occurrence described directly as the first one |
| `PyStrings.ReplaceAllSelf` | phoneword_generator.py:62 | replacing a string by itself changes nothing |
| `PyStrings.ReplaceAllAbsent` | phoneword_generator.py:62 | a non-empty target that does not occur leaves the string unchanged |
| `PartitionGen.Partitions` | phoneword_generator.py:80-89 | the generator: nothing for the empty string, otherwise the outer loop's iterations from first-part length 1 on |
| `PartitionGen.Splits` | phoneword_generator.py:82-89 | the outer loop from first-part length `cut` on: the whole string at the last position, then the first part prepended to every partition of the rest |
| `PartitionGen.PartitionsCount` | phoneword_generator.py:80-89 | a string of length n >= 1 has exactly 2^(n-1) partitions |
| `PartitionGen.SplitsCount` | phoneword_generator.py:82-89 | the iterations of the outer loop from first-part length `cut` on yield 2^(n-cut) partitions |
| `PartitionGen.PartitionsSound` | phoneword_generator.py:80-89 | every yielded partition has non-empty parts that join to the input |
| `PartitionGen.SplitsSound` | phoneword_generator.py:82-89 | every partition yielded from first-part length `cut` on is a partition whose first part is at least `cut` long |
| `PartitionGen.PartitionsDistinct` | phoneword_generator.py:80-89 | no partition is yielded twice |
| `PartitionGen.SplitsDistinct` | phoneword_generator.py:82-89 | the outer loop's iterations from any `cut` on yield no partition twice |
| `PartitionGen.PartitionsComplete` | phoneword_generator.py:80-89 | every partition of a non-empty string into non-empty parts is yielded |
| `PartitionGen.FirstPartitionIsSingletons` | phoneword_generator.py:82-89 | the first partition yielded splits the string into single characters |
| `CartesianProduct.Product` | phoneword_generator.py:107-110 | the joined tuples of `product(*sets)`: the empty string for no sets, otherwise each member of the first set followed by each joined tuple of the rest |
| `CartesianProduct.ProductContains` | phoneword_generator.py:107-110 | every choice of one member per set, joined, is in the product |
| `CartesianProduct.ProductChoice` | phoneword_generator.py:107-110 | every member of the product is a joined choice of one member per set |
| `CartesianProduct.ProductNonEmpty` | phoneword_generator.py:107-110 | the product of non-empty sets is non-empty |
| `Wordify.Candidates` | phoneword_generator.py:99-105 | a part's candidate set always contains the part; it is exactly the part when the part holds `0` or `1`, and otherwise the matching words plus the part; it raises `KeyError` exactly when a part free of `0` and `1` has a non-digit |
| `Wordify.PartSets` | phoneword_generator.py:107 | the arguments of `product`: one set per part, in the order of the parts, each holding its part, so none is empty (line 105) |
| `Wordify.CandidatesSpell` | phoneword_generator.py:99-105 | every candidate of a digit part spells that part on the keypad |
| `Wordify.ProductSpells` | phoneword_generator.py:107-110 | every joined product of a digit partition's candidate sets spells the whole string |
| `Wordify.ResolveParts` | phoneword_generator.py:97-105 | the memo keeps holding each part's candidate set; it only grows; after the loop every part of the partition is in it; it succeeds whenever every part holds `0` or `1` or is all digits; failure is a `KeyError` on a non-digit of some part |
| `Wordify.Accumulate` | phoneword_generator.py:93-110 | the memoised loop over partitions returns exactly the memo-free union of the products, or a `KeyError` on a non-digit of the number; it succeeds whenever every part of every partition can be looked up |
| `Wordify.AllWordifications` | phoneword_generator.py:77-112 | raises `KeyError` exactly when the stripped number has a non-digit; otherwise returns the reference set; every member spells the number; the number itself is a member when non-empty; the empty number gives the empty set |
| `Wordify.ResolvedPartitionsMeanDigits` | phoneword_generator.py:82-104 | if every part of every partition resolves, the number is all digits, because the singleton partition is among them |
| `Wordify.UnionProductsMember` | phoneword_generator.py:94-110 | the accumulated set holds exactly the members of some partition's product |
| `Wordify.WordificationsSpell` | phoneword_generator.py:91-112 | every result has the number's length, each character is in its digit's list, and every `0` and `1` stays in place |
| `Wordify.WordificationsCharacterised` | phoneword_generator.py:91-112 | a string is a result exactly when some partition, with each part kept or replaced by a matching word (never for parts holding `0` or `1`), joins to it |
| `Wordify.InputIsWordification` | phoneword_generator.py:91-112 | the stripped number itself is always a result |
| `Wordify.WholeWordIsWordification` | phoneword_generator.py:91-112 | a dictionary word matching the whole number (free of `0` and `1`) is a result |
| `Wordify.WordificationRoundTrip` | phoneword_generator.py:69-112 | mapping any result back with `words_to_number` gives the number's digits, formatted |
| `Reverse.KeyFor` | phoneword_generator.py:73 | the search over the keys finds a key whose list holds the character, and fails with `StopIteration` exactly when no key's list holds it |
| `Reverse.DigitFor` | phoneword_generator.py:73 | the digit found is the unique digit listing the character; the search fails exactly for characters listed nowhere |
| `Reverse.ToDigits` | phoneword_generator.py:71-73 | the loop succeeds exactly when every character is listed; the input then spells the digits it returns; otherwise it raises on an unlisted character of the input |
| `Reverse.Format` | phoneword_generator.py:75 | the formatted number is three characters longer than the digits; it is the first digit, a hyphen, the next up to three digits, a hyphen, the next up to three, a hyphen and the rest, so short numbers keep all three hyphens with empty groups |
| `Reverse.FormatStripHyphens` | phoneword_generator.py:75 | removing the hyphens from a formatted number gives the digits back |
| `Reverse.WordsToNumber` | phoneword_generator.py:69-75 | succeeds exactly when the stripped input is non-empty and every character is listed; raises `IndexError` exactly on empty input, and otherwise fails only with `StopIteration` at one of the upper-cased input's characters; on success the result is the formatted digit string that the upper-cased, hyphen-free input spells (unique, since the lists are disjoint), whatever its length |
| `Reverse.ToDigitsOfSpelling` | phoneword_generator.py:71-73 | a string spelling a digit string maps back to exactly those digits |
| `Reverse.WordsToNumberOfSpelling` | phoneword_generator.py:69-75 | any spelling of a non-empty digit string maps back to the formatted digits |
| `Reverse.WordsToNumberIdempotent` | phoneword_generator.py:69-75 | mapping an already formatted number gives it back unchanged |
| `SingleWordify.UsableSubstrings` | phoneword_generator.py:44-45 | the collected slices `num_str[i:j + 1]`, with Python's slicing for every `min_len` |
| `SingleWordify.UsableSubstringsEmpty` | phoneword_generator.py:44-45 | the substring set is empty exactly when the number is empty or shorter than `min_word_len` |
| `SingleWordify.UsableSubstringsSound` | phoneword_generator.py:44-45 | every collected substring occurs in the number and is at least `min_word_len` long |
| `SingleWordify.UsableSubstringsComplete` | phoneword_generator.py:44-45 | every substring at least `min_word_len` long is collected |
| `SingleWordify.FindUsableSubstrings` | phoneword_generator.py:40-51 | returns `None` exactly when there are no substrings; otherwise returns every substring except the first in iteration order, which is dropped only if it holds `0` or `1` |
| `SingleWordify.Substitute` | phoneword_generator.py:56-64 | the result keeps the length; it is unchanged when no popped substring has a match; otherwise every occurrence of the first matching substring is replaced by its first matching word; it spells a digit number; it raises `KeyError` exactly when some popped substring holds a non-digit and no substring popped before it has a match |
| `SingleWordify.NumberToWords` | phoneword_generator.py:38-66 | fails only with `TypeError` or `KeyError`; raises `TypeError` exactly when the stripped number is empty or shorter than `min_word_len`; once substrings are collected, raises `KeyError` exactly when one holding a non-digit is popped before any substring with a match; otherwise keeps the length, returns the digits when no substring has a match, substitutes exactly one substring everywhere it occurs when it changes anything, and does substitute, by a substring with a match, whenever some usable substring free of `0` and `1` has one |
| `SingleWordify.NumberToWordsRoundTrip` | phoneword_generator.py:38-75 | mapping the converter's output back gives the number's digits, formatted |
| `SingleWordify.DropZeroOne` | phoneword_generator.py:47-51 | the corrected filter keeps exactly the substrings free of `0` and `1` |
| `SingleWordify.NumberToWordsIntended` | phoneword_generator.py:38-66 | the corrected converter never raises `TypeError`, returns short numbers unchanged, always converts a digit number, substitutes only substrings free of `0` and `1`, and does substitute whenever such a substring has a matching word |
| `SingleWordify.CorrectedHit` | phoneword_generator.py:56-64 | with the corrected filter, a usable substring free of `0` and `1` that has a matching word guarantees a substitution by such a substring |
| `SingleWordify.ShortNumberRaises` | phoneword_generator.py:47-56 | on `"2-3"` with `min_word_len = 4`, the code as written raises `TypeError`, while the corrected version returns `"23"` |

## Left out

- `get_english_vocabulary` (lines 16-26) is left out. It loads the NLTK
  corpus, may download it and prints. The vocabulary is a parameter.
- The `__main__` demo driver (lines 114-130) is left out.
- The `mapping` argument of `number_to_words` (line 38), `words_to_number`
  (line 69) and `all_wordifications` (line 77) is not a parameter of the
  model. It is fixed to the module's table (lines 5-14), which is what every
  call in the file passes (lines 120, 124, 128). `Keypad.ListsDisjoint`, the
  uniqueness in `Reverse.DigitFor` and both round trips rely on that table:
  its lists are disjoint. With a caller's table whose lists overlap, the
  reverse direction would not be unique.
- The `re` engine is not modelled. Matching is membership per position in the
  character classes. The `$`-before-a-trailing-newline case is not modelled.
- Hash-set iteration order is a parameter: the vocabulary sequence and
  `order`. One `order` gives both the element the filter loop sees first and
  the pop order. CPython may iterate the copy in a different order, but it is
  still some enumeration of the same set.
- The generator and `itertools.product` are lazy; the model uses finite
  sequences and sets instead.
- The `'~'`-join-then-split encoding of partitions (lines 89, 95) is not
  modelled: partitions are sequences of parts. `Wordify.AllWordifications`
  requires that the number holds no `'~'`. The code splits a partition at
  every `'~'`, so a `'~'` in the number never reaches a part: it yields
  empty parts and parts that cross the intended boundaries. The `'~'`
  itself raises nothing; the other characters still go through the table,
  so `"2~A"` still raises `KeyError` at `A` (line 103).
- `str.upper` is modelled for ASCII only. Python also maps some non-ASCII
  characters onto ASCII letters, for example `'ı'` to `'I'` and `'ſ'` to `'S'`,
  and `'ß'` becomes two characters.
- The docstring of `find_valid_word` (line 29) is indented one column deeper
  than the body. Python rejects that indentation. The model treats it as a
  typo and models the body as written.
- Performance and the exponential blow-up are not modelled. The memo's only
  modelled property is that its entries equal the candidate sets.
- Wordify.AllWordifications: the `KeyError` key is stated to be some
  non-digit of the number. The code raises on the first one. The first
  partition tried is the singleton one, but the contract does not pin the key
  down further.
- SingleWordify.NumberToWords: the `KeyError` key is stated to be some
  non-digit of the number, not the one in the first popped substring that
  has one.
- Three behaviours of the code that a reader might not expect; the model
  follows the code:
  - `words_to_number` does not reject fewer than eight digits (line 75).
    Its groups just come out short or empty.
  - `gen_partitions("")` yields nothing and raises nothing (line 82 loops
    zero times). So `all_wordifications` on an empty or all-hyphen number
    returns the empty set.
  - `number_to_words` filters only the first substring that holds `0` or
    `1` (see Findings).

## Findings

| source | as written | input that shows it | evidently intended | confidence | as-written member | corrected member |
|---|---|---|---|---|---|---|
| phoneword_generator.py:47-51 | `return subs` sits inside the `for`. Only the first substring is filtered, and with no substrings the function returns `None`, so `len(None)` on line 56 raises `TypeError` | `number_to_words("2-3", vocab, mapping, min_word_len=4)`, and also `number_to_words("", vocab, mapping)` | return after the loop: drop every substring that holds `0` or `1`, and return the digits unchanged when no substring is usable, as the docstring on line 39 says | high; not executed | `SingleWordify.NumberToWords`, exhibited by `SingleWordify.ShortNumberRaises` | `SingleWordify.NumberToWordsIntended` |
