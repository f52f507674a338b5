# Bigram surprisal and sentence duration — a Dafny model

This project models the two computational scripts of a speech-duration study.

- `scripts/get_surprisals.py` trains a bigram language model on tokenised sentences.
  - `get_unigrams` counts every token of each sentence after padding it with the markers `<s>` and `<e>`.
  - `get_bigrams` counts every adjacent pair of the padded sentence.
  - `get_bigram_surprisal` turns each counted bigram `(w1, w2)` into the add-one smoothed probability `(b + 1) / (u + 1)`. Here `b` is the bigram count and `u` is the count of `w1`, or 0 when `w1` is missing. It then takes the surprisal `-log2(p)` of that probability.
  - `get_lines` strips every line it reads.
- `scripts/get_durations.py` computes the spoken duration of each sentence and joins it to the sentence's surprisal.
  - `get_sentence_duration` skips the header line of a duration file. It then sums the integer in field 1 of every `;`-separated line and divides the sum by 1000.
  - `main` walks the directory listing in sorted order and keeps the `.csv` names. It turns `sentenceK.csv` into the index `K - 1` and emits the row `[duration, surprisal_values[K - 1]]`.

The model is purely functional. The modules follow the scripts and the Python built-ins they lean on:

| module | file | contents |
|---|---|---|
| `Seqs` | `seqs.dfy` | occurrence count and sum over sequences |
| `Results` | `results.dfy` | `Result` with the two exceptions the modelled code can raise (`IndexError`, `ValueError`), and the traversal that stops at the first one |
| `Tables` | `tables.dfy` | `defaultdict(int)` frequency tables: increment, counting a sequence, counting groups, table total |
| `Text` | `text.dfy` | `str.isspace`, `strip`, `split(sep)`, `endswith` and `replace` |
| `PyInt` | `pyint.dfy` | `int(text)` for base-10 text, and `str(n)` |
| `Ordering` | `ordering.dfy` | Python's `<=` on `str` and `sorted()` |
| `Surprisals` | `surprisals.dfy` | the trainer, the smoothed probability, the surprisal map, `get_lines` |
| `Durations` | `durations.dfy` | the duration parser and the join in `main` |

Several Python behaviours are modelled explicitly.

- **Exceptions.** An exception becomes an `Err` value: a line without `;` gives `IndexError`, text `int()` rejects gives `ValueError`, and a list index out of range gives `IndexError`. A computation that raises stops at the first exception, as the loops in the scripts do.
- **Probabilities** are exact fractions (`Ratio`). The duration in seconds is the exact rational `ms / 1000`.
- **`math.log2`** is a parameter of the model. The ghost predicate `IsLog2` constrains it: `log2(2) = 1`, `log2(x·y) = log2(x) + log2(y)` on positive numbers, and strictly increasing.
- **`int()`** accepts surrounding whitespace (including the line break `readlines` keeps), an optional sign, and ASCII digits with single underscores between them. The whitespace it skips (`PyInt.IntSpace`) is narrower than what `strip` removes: the ASCII separator controls U+001C to U+001F count as whitespace for `str.isspace()` and `strip`, but `int()` rejects them. The trimming functions of `Text` therefore take the set of blank characters as a parameter.
- **Negative list indices** count from the end, so `sentence0.csv` reads the last surprisal row.
- **Name order** is code point by code point, so `sentence10.csv` is processed before `sentence2.csv`. The comment at `scripts/get_durations.py:73` calls this "sentence numbering order", but with ten or more files the output rows come in name order, not in numeric order. Each row still pairs a file with its own surprisal row.

Two details of the scripts shape the model:

- The trainer pads every sentence with `<s>` and `<e>` (`scripts/get_surprisals.py:45`, `:54`), so the tables count the markers and the boundary bigrams.
- `get_surprisal` raises only for a probability that is not positive (`math.log2`'s domain error). A probability above 1 gives a negative surprisal without error. Such a probability arises only for tables not trained together (`Surprisals.UnseenFirstWordSurprisal`).

## Model

| member | source | states |
|---|---|---|
| Surprisals.GetUnigrams | scripts/get_surprisals.py:30-48 | every entry of the unigram table has been counted at least once, and `<s>` and `<e>` are both keys as soon as there is a sentence |
| Surprisals.UnigramTable | scripts/get_surprisals.py:42-48 | the unigram count of a word is its number of occurrences in the marker-padded sentences; a word is a key exactly when it occurs in some padded sentence; every key has count at least 1 |
| Surprisals.UnigramsPerSentence | scripts/get_surprisals.py:43-47 | one more sentence of n tokens adds exactly n + 2 to the table total; each word gains its count in the padded sentence; `<s>` and `<e>` each gain one more than their count in the sentence |
| Surprisals.MarkersOncePerSentence | scripts/get_surprisals.py:43-47 | when no token is itself a marker, `<s>` and `<e>` are each counted exactly once per sentence |
| Surprisals.GetBigrams | scripts/get_surprisals.py:51-58 | every entry of the bigram table has been counted at least once, and the first sentence's opening pair `(<s>, t0)`, or `(<s>, <e>)` for an empty sentence, is a key |
| Surprisals.BigramTable | scripts/get_surprisals.py:52-58 | the bigram count of a pair is its number of occurrences among adjacent pairs inside a single padded sentence; a pair is a key exactly when it is adjacent in some padded sentence, so no bigram spans two sentences; every key has count at least 1 |
| Surprisals.BigramsPerSentence | scripts/get_surprisals.py:53-57 | one more sentence of n tokens adds exactly n + 1 to the bigram total; each pair gains its count among the sentence's pairs; `(<s>, t0)` and `(t_{n-1}, <e>)` both increase |
| Surprisals.PaddedPairsEnds | scripts/get_surprisals.py:54-56 | a padded sentence of n tokens has n + 1 pairs, the first starting with `<s>` and the last ending with `<e>`; the empty sentence gives `(<s>, <e>)` |
| Surprisals.Pairs | scripts/get_surprisals.py:55-56 | the pairs of a token list are `(tokens[i], tokens[i+1])` for each i below `len - 1` |
| Surprisals.BigramBoundedByUnigrams | scripts/get_surprisals.py:43-57 | for tables trained on the same sentences, `bigram[(a, b)] <= unigram[a]` and `<= unigram[b]`, so both words of every bigram key are unigram keys |
| Surprisals.SmoothedProbability | scripts/get_surprisals.py:89-99 | `(b + 1) / (u + 1)` has a numerator and denominator of at least 1, so it is positive |
| Surprisals.ProbabilityInUnitInterval | scripts/get_surprisals.py:88-99 | for tables trained on the same sentences every smoothed probability lies in (0, 1], and it is exactly 1 when the bigram is as frequent as its first word |
| Surprisals.UnitFraction | scripts/get_surprisals.py:99 | the fraction lies in (0, 1] exactly when its value does, and equals 1 exactly when numerator and denominator agree |
| Surprisals.UnseenFirstWord | scripts/get_surprisals.py:92-99 | a first word missing from the unigram table counts as 0, so the probability is `b + 1`, which exceeds 1 for a counted bigram |
| Surprisals.GetSurprisal | scripts/get_surprisals.py:61-72 | the surprisal is defined exactly for positive probabilities; any other probability raises `ValueError` |
| Surprisals.SurprisalSign | scripts/get_surprisals.py:71 | the surprisal is non-negative on (0, 1], zero exactly at probability 1, and negative above 1 |
| Surprisals.SurprisalDecreasing | scripts/get_surprisals.py:71 | a strictly more probable transition is strictly less surprising |
| Surprisals.Log2OfOne | scripts/get_surprisals.py:71 | any base-2 logarithm gives log2(1) = 0 |
| Surprisals.GetBigramSurprisal | scripts/get_surprisals.py:86-105 | the surprisal map has exactly the keys of the bigram table, and each entry is the surprisal of that bigram's smoothed probability |
| Surprisals.TrainedSurprisals | scripts/get_surprisals.py:88-103 | with tables trained together every surprisal is non-negative, and it is zero exactly when the bigram is as frequent as its first word |
| Surprisals.UnseenFirstWordSurprisal | scripts/get_surprisals.py:92-103 | a counted bigram whose first word is missing from the unigram table gets a negative surprisal |
| Surprisals.GetLines | scripts/get_surprisals.py:20-27 | one output line per input line, in order, each the stripped input line (see `Text.Strip` and `Text.StripSlice` for what stripping keeps) |
| Tables.AddAllCounts | scripts/get_surprisals.py:46-47 | counting a token list adds each token's number of occurrences to its entry, keeps every key positive, adds keys exactly for the listed tokens, and grows the total by the list length |
| Tables.CountAllCounts | scripts/get_surprisals.py:43-47 | counting groups of tokens from a table gives each entry the table's count plus its occurrences across all groups; the keys are the table's keys plus every token that occurs; positive tables stay positive; the table total grows by the number of tokens counted |
| Tables.CountAllAppend | scripts/get_surprisals.py:43-47 | counting one more group continues from the table left by the earlier groups |
| Tables.TotalInc | scripts/get_surprisals.py:47 | `unigram_freq[token] += 1` grows the table total by exactly one |
| Text.Strip | scripts/get_surprisals.py:25 | for any set of blanks (`IsSpace` for `str.strip()`), the stripped line is empty or starts and ends with a character that is not blank |
| Text.StripSlice | scripts/get_surprisals.py:25 | the stripped line is a slice of the line, with only blanks before and after it |
| Text.StripPadding | scripts/get_surprisals.py:25 | stripping text that is already trimmed, with blanks around it, gives the text back |
| Text.StripIgnoresTrailingSpace | scripts/get_surprisals.py:25 | trailing blanks such as the kept line break never change the stripped line |
| Text.StripIdempotent | scripts/get_surprisals.py:25 | stripping twice is stripping once |
| Text.Split | scripts/get_durations.py:26 | a line splits into one more field than it has separators, and no field contains the separator |
| Text.JoinSplit | scripts/get_durations.py:26 | joining the fields of a split with the separator restores the line |
| Text.SplitJoin | scripts/get_durations.py:26 | splitting a join of separator-free fields gives the fields back |
| Text.SplitField | scripts/get_durations.py:26 | a separator-free prefix followed by the separator is the first field, and the rest splits on its own |
| Text.ReplaceAll | scripts/get_durations.py:81 | replacing a pattern by text no longer than it never lengthens the string, so removing `sentence` and `.csv` only shortens the name |
| Text.ReplaceSkip | scripts/get_durations.py:81 | `replace` keeps a prefix in which the pattern cannot start |
| Text.ReplaceFront | scripts/get_durations.py:81 | `replace` substitutes an occurrence at the front and continues after it |
| Text.RemoveKeepsOnly | scripts/get_durations.py:81 | removing a pattern never introduces a character |
| PyInt.ParseIntToString | scripts/get_durations.py:27 | `int()` reads `str(n)` as n also when it is surrounded by whitespace `int()` skips (`IntSpace`), such as the kept line break |
| PyInt.ParseNeedsDigit | scripts/get_durations.py:27 | text without any digit raises `ValueError` |
| PyInt.ParseInt | scripts/get_durations.py:27 | `int()` fails only with `ValueError` |
| PyInt.ParseBlank | scripts/get_durations.py:27 | text holding only whitespace `int()` skips, the empty text included, raises `ValueError` |
| PyInt.ParseIntRoundTrip | scripts/get_durations.py:27 | `int(str(n)) == n` for every integer n |
| PyInt.SeparatorControlRejected | scripts/get_durations.py:27 | a digit preceded by U+001C raises `ValueError`: `int()` does not skip the ASCII separator controls |
| Text.SeparatorControlsAreSpace | scripts/get_surprisals.py:25 | U+001C to U+001F are whitespace for `str.isspace()`, so `strip` removes them although `int()` does not skip them |
| PyInt.NatToStringDigits | scripts/get_durations.py:27 | `str(n)` of a natural number is a plain digit run whose value is n |
| Durations.FieldValue | scripts/get_durations.py:26-27 | a line without `;` raises `IndexError` and is the only kind that does; any other failure is `ValueError` |
| Durations.FieldValueOfRow | scripts/get_durations.py:26-27 | a line `name;<n>` followed by whitespace `int()` skips, or by a further `;`, yields n |
| Durations.SentenceDurationMs | scripts/get_durations.py:21-28 | the millisecond total succeeds exactly when every line after the header parses; otherwise it fails with the exception of the first line that does not; a header-only file totals 0 |
| Durations.RenderedDurationFile | scripts/get_durations.py:21-30 | a file whose data lines are `name;<ms>` rows, each ending in whitespace `int()` skips or in a further `;`, totals the sum of the millisecond values whatever the header holds, and its duration is that sum in seconds |
| Durations.ParsedRows | scripts/get_durations.py:24-28 | data lines whose fields parse as `ms` total `Sum(ms)`, whatever the header holds |
| Durations.MissingSeparator | scripts/get_durations.py:24-27 | the first data line without `;` makes the whole file fail with `IndexError` |
| Durations.Seconds | scripts/get_durations.py:30 | seconds times 1000 are the milliseconds |
| Durations.SentenceDuration | scripts/get_durations.py:30 | the duration exists exactly when the millisecond total does, times 1000 equals it, and otherwise carries the same exception |
| Durations.MillisecondsToSeconds | scripts/get_durations.py:30 | a millisecond total of ms gives the duration ms / 1000 |
| Durations.SentenceIndex | scripts/get_durations.py:81 | a file name the index computation rejects raises `ValueError` |
| Durations.SentenceIndexOfName | scripts/get_durations.py:81 | `sentenceK.csv` has index K - 1, for every integer K |
| Durations.NameWithoutNumber | scripts/get_durations.py:81 | a file name without any digit raises `ValueError` |
| Durations.PyIndex | scripts/get_durations.py:85 | a list index succeeds exactly for `-len <= i < len` and then returns `xs[i]`, or `xs[len + i]` for a negative index; otherwise `IndexError` |
| Durations.RowFor | scripts/get_durations.py:79-90 | a file's row exists exactly when `int()` accepts what is left of the name once `sentence` and `.csv` are removed, its duration parses and the index is a valid list index; a name `int()` rejects raises `ValueError`; the row's duration is the file's millisecond total over 1000 and its surprisal is the table's entry at that index, counted from the end when negative |
| Durations.SentenceRow | scripts/get_durations.py:81-90 | the file of sentence K fails with its duration's exception when the duration fails; otherwise it gets row `[duration, surprisal_values[K-1]]` for 1 <= K <= the number of rows, K beyond the rows raises `IndexError`, and `sentence0.csv` wraps round to the last row |
| Durations.CsvFiles | scripts/get_durations.py:79 | every processed name ends with `.csv` |
| Durations.CsvFilesCount | scripts/get_durations.py:77-79 | each `.csv` name is processed as often as it is listed, and no other name is processed |
| Durations.CsvFilesSorted | scripts/get_durations.py:74-79 | filtering keeps the sorted order |
| Durations.Combine | scripts/get_durations.py:72-90 | `main` emits at most one row per listed name, and every surprisal in its output is one of the table's |
| Durations.CombineNames | scripts/get_durations.py:74-79 | `main` processes exactly the `.csv` names of the listing, each as often as listed, in ascending name order |
| Durations.CombineRows | scripts/get_durations.py:77-90 | `main` emits one row per processed file, each the row of that file; it fails exactly when some file's row fails, with the exception of the first such file |
| Durations.OrderedInOutput | scripts/get_durations.py:74-90 | of two listed `.csv` files, the one whose name sorts strictly first has its row first |
| Durations.TenBeforeTwoInOutput | scripts/get_durations.py:74 | when both are listed, `sentence10.csv` is processed before `sentence2.csv` |
| Ordering.Sort | scripts/get_durations.py:74 | `sorted()` returns an ascending permutation of the listing |
| Ordering.SortedUnique | scripts/get_durations.py:74 | an ascending arrangement of the names is unique, so `Sort` agrees with any correct sort |
| Ordering.LessEqTotal | scripts/get_durations.py:74 | any two names are comparable |
| Ordering.LessEqTransitive | scripts/get_durations.py:74 | the name order is transitive |
| Ordering.LessEqAntisymmetric | scripts/get_durations.py:74 | names ordered both ways are equal |
| Ordering.TenBeforeTwo | scripts/get_durations.py:74 | `sentence10.csv` sorts strictly before `sentence2.csv` |

## Left out

- Tokenisation with NLTK `word_tokenize` and `sent_tokenize` is a foreign library. Sentences enter the model already tokenised, as sequences of tokens.
- File opening and reading, `os.listdir`, `os.makedirs`, CSV reading and writing, and printing are I/O.
  - The model takes the lines of a file, and the directory listing, as sequences of strings.
  - A duration file's lines are given by a function from file names to line lists.
  - The surprisal column is given as a sequence of numbers.
  - The exceptions these steps can raise are therefore not modelled: `OSError` from `open` and `os.listdir`, and `KeyError` when the surprisal file has no `Surprisal` column (`scripts/get_durations.py:68`).
- `readlines` splitting a file into lines is I/O and is not modelled. The lines are taken as given, line break included.
- Floating point is not modelled: `math.log2`, the float division in the smoothed probability and in `/ 1000`, and `float()` of the surprisal column.
  - Probabilities and durations are exact rationals.
  - `log2` is any function satisfying `IsLog2`.
- Surprisals.IsLog2: the model does not exhibit a function meeting the predicate, since the real logarithm is not definable in Dafny's arithmetic. The results about surprisal hold for every such function.
- PyInt.ParseInt: non-ASCII decimal digits, which Python's `int()` also accepts, are not modelled; such text is rejected. The limit of 4300 digits that Python 3.11 and later enforce (`ValueError` for longer text) is not modelled either, because the Python version the scripts run under is not fixed; the model parses numbers of any length.
- Text.ReplaceAll: the empty pattern is excluded, since the scripts only replace `sentence` and `.csv`.
- `scripts/get_linear_model.py`, the histogram scripts and `convert.py` are regression, plotting and audio conversion over foreign libraries, and are not part of this model.
- Sentence selection and scoring are not part of the two scripts modelled, and are not part of this model.
