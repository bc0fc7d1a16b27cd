# Word Puzzles: a Dafny model of the affix-matching engine

`word_puzzles.py` takes a word and lists every one-word and two-word
expression that starts or ends with it, provided the rest is itself a known
word. It keeps a growing vocabulary of one-grams. On every run it adds a
fixed add-list, drops blacklisted words, and learns new one-grams from the
"/s/" and "/e/" suggestion pages of an online dictionary. Results are ranked
by usage frequency and sorted alphabetically.

This project models the list-and-string engine between the scraping and the
printing:

- `Vocabulary` (vocabulary.dfy): the add-list loop, the blacklist loop and
  Python's `list.remove`.
- `Classifier` (classifier.dfy): the classification loop over a page's
  candidate strings, which grows `words` and collects the admissible
  two-grams.
- `Matcher` (matcher.dfy): the two list comprehensions that pick the
  one-grams that start or end with the query.
- `Ranker` (ranker.dfy): merging, the blacklist pass, the frequency key,
  the alphabetical key and the two sorted views.
- `Display` (display.dfy): the stem slicing used by the result table.
- `Search` (search.dfy): one whole run, including the validity gate and the
  vocabulary that is saved.
- `Etl` (etl.dfy): the one-time builders of the word list and of the
  frequency map.
- `Text` (text.dfy): Python's `split(sep)`, slicing (including the `-0`
  quirk), string ordering, and ASCII `lower`/`isalpha`/`strip`.

The script's module-level list `words` is passed into each loop method and
returned from it. Each loop of the source is a `method` with a `while` loop.
Its invariant ties the state after `i` steps to a specification function
applied to the first `i` inputs. Lemmas about that function state what the
source promises.

Inputs that come from outside become parameters:

- A suggestion page is a `Search.Page`. It is either `NotFound` (no
  `class=suggestions` marker) or the sequence of cleaned candidate strings.
- The frequency JSON is a `map<string, int>`.
- The stored CSV word list is a `seq<string>`.
- The query is the raw input line, lowered inside the model.

Points where the script's own comments promise more than its code does, and
the model follows the code:

- The comment at word_puzzles.py:202 says blacklisted words "should be
  removed if they are already present". `list.remove` (lines 215, 394, 471
  and 603) drops only the FIRST occurrence, so a blacklisted word is gone
  only from a list without duplicates. `Vocabulary.RemoveEachDuplicate`
  shows the other case.
- The comment at word_puzzles.py:252-253 says an `IndexError` means the word
  is not valid. Only the "/s/" lookup (line 250) is guarded that way. The
  same lookup for the "/e/" page (line 329) has no guard, so a page without
  the marker raises and nothing is printed or saved. The model gives this
  its own outcome, `Search.Outcome.Crashed`.
- The classifier accepts any single-token candidate as a one-gram, even an
  empty string (`Classifier.EmptyCandidateAdded`).

`sort_values` is called without `kind`, so it uses quicksort, which is not
stable. The model promises a permutation in key order and says nothing about
the order among equal keys.

## Model

| member | source | states |
|---|---|---|
| `Vocabulary.AddWords` | word_puzzles.py:207-209 | after the add loop every add-list entry is in `words`; the old list is a prefix of the new one |
| `Vocabulary.AddEachContains` | word_puzzles.py:207-209 | every add-list entry ends up present, and nothing already there is removed or reordered |
| `Vocabulary.AddEachMembers` | word_puzzles.py:207-209 | a word is present after the loop iff it was present before or is on the add list |
| `Vocabulary.AddEachNoDup` | word_puzzles.py:207-209 | the add loop never creates a duplicate |
| `Vocabulary.AddEachPresent` | word_puzzles.py:207-209 | when every entry is already present the loop changes nothing |
| `Vocabulary.AddEachIdempotent` | word_puzzles.py:207-209 | re-running the add loop changes nothing |
| `Vocabulary.AddEachAppends` | word_puzzles.py:207-209 | everything appended is an add-list entry that was absent |
| `Vocabulary.AddIfAbsent` | word_puzzles.py:297-298 | append-if-absent: the word is present afterwards, the old list is a prefix, and no duplicate appears |
| `Vocabulary.RemoveBlacklisted` | word_puzzles.py:213-215 | the blacklist loop; on a duplicate-free list no blacklisted word remains and no duplicate appears |
| `Vocabulary.RemoveFirstAt` | word_puzzles.py:215 | `list.remove` deletes exactly the first occurrence |
| `Vocabulary.RemoveFirstAbsent` | word_puzzles.py:214 | removing an absent word is a no-op |
| `Vocabulary.RemoveFirstMultiset` | word_puzzles.py:215 | `list.remove` takes away one copy and keeps everything else |
| `Vocabulary.RemoveFirstNoDup` | word_puzzles.py:215 | on a duplicate-free list `remove` leaves exactly the other words, still duplicate-free |
| `Vocabulary.RemoveEachIsWithout` | word_puzzles.py:601-603 | on a duplicate-free list the blacklist loop equals filtering out the blacklist, keeping order |
| `Vocabulary.WithoutFacts` | word_puzzles.py:601-603 | the filtered list holds exactly the non-blacklisted words and keeps distinctness |
| `Vocabulary.RemoveEachDuplicate` | word_puzzles.py:213-215 | with a duplicated entry one copy survives the blacklist loop |
| `Vocabulary.Settled` | word_puzzles.py:207-215 | a blacklist-free list holding every non-blacklisted add entry is unchanged by the add loop followed by the blacklist filter |
| `Classifier.ClassifyCandidates` | word_puzzles.py:288-306 | the classification loop: `words` only grows (prefix), stays duplicate-free, gains exactly the one-gram candidates; every kept two-gram is an admissible candidate; every candidate admissible against the starting vocabulary is kept |
| `Classifier.OneTokenIff` | word_puzzles.py:292-295 | `split(' ')` gives one token iff the candidate has no space |
| `Classifier.TwoTokensShape` | word_puzzles.py:301 | a two-token candidate is two space-free words joined by one space |
| `Classifier.StepIgnores` | word_puzzles.py:290 | a candidate with `-`, `(` or `,`, or with three or more tokens, changes nothing |
| `Classifier.StepWords` | word_puzzles.py:295-298 | one step changes `words` only for a one-gram, which is appended iff absent |
| `Classifier.StepTwoGrams` | word_puzzles.py:301-306 | one step appends the candidate to the two-grams iff the admission rule holds against `words` at that moment |
| `Classifier.AdmitsMonotone` | word_puzzles.py:304 | admission stays true when the vocabulary grows |
| `Classifier.AdmittedShape` | word_puzzles.py:304 | an admitted "starts" two-gram is `query + " " + t` (for "ends", `t + " " + query`) with `t` a known space-free word |
| `Classifier.AdmitsPhrase` | word_puzzles.py:365 | conversely, `query + " " + t` ("starts") and `t + " " + query` ("ends") are admitted iff `t` is known |
| `Classifier.ClassifyGrows` | word_puzzles.py:351-359 | a pass never removes or reorders a word and never adds a duplicate |
| `Classifier.ClassifyVocabulary` | word_puzzles.py:351-359 | after a pass a word is known iff it was known or was a one-gram candidate |
| `Classifier.ClassifyTwoGramsAdmitted` | word_puzzles.py:353-367 | every kept two-gram is a candidate admitted even against the final vocabulary |
| `Classifier.ClassifyAdmitsKnown` | word_puzzles.py:353-367 | a candidate admitted against the starting vocabulary is always kept |
| `Classifier.ClassifyTwoGramsBound` | word_puzzles.py:288-306 | a pass keeps at most one two-gram per candidate |
| `Classifier.ClassifyWordsAddEach` | word_puzzles.py:288-298 | the vocabulary side of a pass is the append-if-absent loop over the page's one-grams, whatever the query |
| `Classifier.EmptyCandidateAdded` | word_puzzles.py:292-298 | an empty candidate is one empty token and is appended to the vocabulary |
| `Classifier.CatNap` | word_puzzles.py:304 | "cat nap" is admitted for "cat" iff "nap" is known |
| `Matcher.StartsIff` | word_puzzles.py:384-385 | `w` is a "starts" one-gram iff it is known, longer than the query, begins with it, and the rest is known |
| `Matcher.EndsIff` | word_puzzles.py:461-462 | for a non-empty query, `w` is an "ends" one-gram iff it is known, longer, ends with the query, and the part before it is known |
| `Matcher.EndsEmptyQuery` | word_puzzles.py:461 | with an empty query, `word[-0:]` is the whole word, so the "ends" list is empty |
| `Matcher.StartsEmptyQuery` | word_puzzles.py:384 | with an empty query every non-empty known word is a "starts" match |
| `Matcher.NoSelfMatch` | word_puzzles.py:384 | the query never matches itself, since the length test is strict |
| `Matcher.InWordsOrder` | word_puzzles.py:384-385 | matches appear in vocabulary order |
| `Matcher.SelectMembers` | word_puzzles.py:461-462 | the comprehension keeps exactly the scanned words meeting the condition |
| `Matcher.CatScenario` | word_puzzles.py:384-385 | with "catnap", "nap" and "concatenate" known, the "starts" list for "cat" is exactly ["catnap"] |
| `Ranker.FrequencyKeys` | word_puzzles.py:398-419 | the counts list has one entry per result, each that result's frequency key |
| `Ranker.FrequencyKeyOneGram` | word_puzzles.py:413-419 | a one-gram's key is its own count, or 0 when unknown |
| `Ranker.FrequencyKeyTwoGram` | word_puzzles.py:478-487 | the key of `a b` is the count of `b` for "starts" and of `a` for "ends", or 0 |
| `Ranker.FrequencyKeyAdmitted` | word_puzzles.py:403-410 | an admitted two-gram's key is the count of its non-query word |
| `Ranker.SortKeys` | word_puzzles.py:430-448 | the sort-key column has one entry per result, each that result's alphabetical key |
| `Ranker.SortKeyRemovesSpace` | word_puzzles.py:435-445 | for a one- or two-word entry the alphabetical key is the entry with its space removed |
| `Ranker.SortKeyCatNap` | word_puzzles.py:437-438 | "cat nap" gets the key "catnap" |
| `Ranker.InsertSorted` | word_puzzles.py:451 | inserting into a sorted list keeps it sorted and adds one copy of the row |
| `Ranker.SortRowsView` | word_puzzles.py:425 | the reference sort gives a permutation of the rows in key order |
| `Ranker.PhrasesPermutation` | word_puzzles.py:454 | reordering the rows reorders the word column the same way |
| `Ranker.AlphabeticalPhrases` | word_puzzles.py:451-454 | the word list read off the alphabetical view is a permutation, non-decreasing by the alphabetical key |
| `Ranker.Rank` | word_puzzles.py:388-454 | the merged, blacklist-filtered results: the count view is a permutation, non-increasing by count, with each row's count and key correct; the alphabetical list is a permutation, non-decreasing by key |
| `Text.JoinSplit` | word_puzzles.py:292 | joining the `split(sep)` tokens with the separator gives back the string |
| `Text.SplitJoin` | word_puzzles.py:354 | splitting a join of separator-free parts gives back the parts |
| `Text.SplitLength` | word_puzzles.py:292 | `split(sep)` gives one more token than there are separators |
| `Text.SplitTokensFree` | word_puzzles.py:292 | no token contains the separator |
| `Text.SplitPair` | word_puzzles.py:406 | `a + " " + b` with space-free `a`, `b` splits into exactly `[a, b]` |
| `Text.LexLeTotal` | word_puzzles.py:451 | string order is total |
| `Text.LexLeTrans` | word_puzzles.py:528 | string order is transitive |
| `Text.LexLeAntisym` | word_puzzles.py:528 | string order is antisymmetric |
| `Text.LowerIdempotent` | word_puzzles.py:82 | lowering an already lowered word changes nothing |
| `Display.StartingStemOfMatch` | word_puzzles.py:566-568 | the stem of a "starts" one-gram is the known word after the query, and query + stem is the word |
| `Display.StartingStemTwoGram` | word_puzzles.py:570-572 | the stem of a "starts" two-gram is its second word, without the space |
| `Display.EndingStemOfMatch` | word_puzzles.py:556 | the stem of an "ends" one-gram is the known word before the query |
| `Display.EndingStemTwoGram` | word_puzzles.py:556 | the stem of an "ends" two-gram keeps the space before the query |
| `Display.EndingStemEmptyQuery` | word_puzzles.py:556 | with an empty query `[:-0]` gives an empty stem |
| `Search.RunQuery` | word_puzzles.py:183-616 | gives the fixed message iff the query has a space or the "/s/" page has no marker; crashes iff the search is valid but the "/e/" page has no marker; otherwise the results are the blacklist-filtered matches plus two-grams in alphabetical order, the saved list is the grown vocabulary minus the blacklist, and on a duplicate-free store the saved list is duplicate-free, blacklist-free, and keeps every stored and every add-list word that is not blacklisted |
| `Search.ScriptLoaded` | word_puzzles.py:200-215 | with the shipped lists, loading only makes sure "gam" is present |
| `Search.SpaceInvalid` | word_puzzles.py:244-245 | a query with a space is never a valid search |
| `Search.SavedShape` | word_puzzles.py:601-609 | on a duplicate-free store the saved list is add, filter, add the page one-grams, filter; it is duplicate-free |
| `Search.SavedIdempotent` | word_puzzles.py:207-609 | running the same query on the saved list with the same pages saves the same list |
| `Etl.CleanWords` | word_puzzles.py:74-95 | the cleaning loop as written; the list is each entry's contribution in order, a word is kept iff some entry contributes it, and every kept word has no underscore and is a prefix of a normalized entry that passed the skip test |
| `Etl.LowerUnchanged` | word_puzzles.py:81-82 | a word with no upper-case letter is unchanged by `lower()` |
| `Etl.CleanEntry` | word_puzzles.py:75-95 | the loop body for one entry, step by step as written, yields exactly that entry's as-written contribution |
| `Etl.LowerSkipsLowerCase` | word_puzzles.py:78-82 | strip, then lower unless `islower()` holds, always equals strip then lower, so the `islower()` test makes no difference |
| `Etl.CleanedAsWrittenKeeps` | word_puzzles.py:85-95 | as written, a kept word comes from an entry that passed the skip test and is the normalized entry cut just before its first underscore, or the whole entry when it has none |
| `Etl.CleanWordsIntended` | word_puzzles.py:74-95 | the corrected cleaning loop, with the length test after the cut; a word is kept iff some entry contributes it, and every kept word has at least two letters and no underscore |
| `Etl.CleanedKeeps` | word_puzzles.py:85-95 | under the corrected rule a kept word comes from an entry that passed the skip test, is the normalized entry cut just before its first underscore, and has at least two letters |
| `Etl.CleanedSkips` | word_puzzles.py:85-88 | an entry that meets the skip test contributes nothing |
| `Etl.SkipsEmpty` | word_puzzles.py:85 | the empty word is skipped by the first test, before any indexing |
| `Etl.AsWrittenKeepsOneLetter` | word_puzzles.py:85-95 | as written, "x_y-z" is kept as the one-letter word "x" |
| `Etl.AsWrittenKeepsEmpty` | word_puzzles.py:85-95 | as written, "_a-b" is kept as the empty word |
| `Etl.CollectMembers` | word_puzzles.py:91-95 | a word is in the list iff some entry contributed it |
| `Etl.ContributionsOrigin` | word_puzzles.py:74-95 | the per-entry contributions are exactly the results of the entries, one per entry |
| `Etl.ContributionsAppend` | word_puzzles.py:74-95 | handling entry `i` appends that entry's contribution, if any, to the list built so far |
| `Etl.CounterKeysFacts` | word_puzzles.py:99-102 | the `Counter` keys are duplicate-free, have the same members, and follow first-occurrence order |
| `Etl.BuildFrequencies` | word_puzzles.py:123-131 | the frequency map is the dictionary over the rows with count > 1000; every value exceeds 1000 |
| `Etl.PopularFacts` | word_puzzles.py:123 | the filter keeps exactly the rows with count > 1000 |
| `Etl.FreqMapLast` | word_puzzles.py:126-131 | a word is a key iff some row names it, and its value is the count of the last such row |

## Findings

| source | as written | input that shows it | evidently intended | confidence | as-written member | corrected member |
|---|---|---|---|---|---|---|
| word_puzzles.py:85-93 | the length-1 test runs before the cut at the first `_`, so the cut can leave one letter (or none) | entry `x_y-z`: kept as `x`; entry `_a-b`: kept as the empty word | only words of at least two letters enter the list | low; not executed | `Etl.AsWrittenKeepsOneLetter` | `Etl.CleanWordsIntended` |

`Etl.CleanWords` is the loop as written, over `Etl.CleanedAsWritten`.
`Etl.CleanWordsIntended` is the corrected loop, over `Etl.Cleaned`, which
also tests the length of the cut word: `Etl.Cleaned` keeps the as-written
word only when it has at least two letters. `Etl.CleanedKeeps` states what
the correction keeps.

## Left out

- HTTP fetching of the "/s/" and "/e/" pages: network I/O. Each page is an input `Search.Page`.
- HTML slicing and the regular-expression extraction of suggestions (word_puzzles.py:250-282, 329-342): site-specific markup scraping. The classifier receives the cleaned candidates directly. Only the missing-marker cases are kept (`NotFound`, and `Crashed` for the unguarded "/e/" page).
- pandas, CSV and JSON loading and saving, `os.system`/`chdir`, `datetime` printing and the `input` prompt: I/O and process setup. The saved vocabulary is the `saved` field of the outcome.
- Console rendering of the result table (word_puzzles.py:541-591), apart from the stem slicing in `Display`: formatting only.
- Ranker.SortRowsView: pandas `sort_values` is a non-stable quicksort. The model states only the permutation and the key order, through `Ranker.IsSortedView`. Its realisation `Ranker.SortRows` is an insertion sort, and the tie order it happens to give is not claimed to be pandas'.
- Unicode `lower()`, `islower()`, `isalpha()` and `strip()` are modelled on ASCII only (`Text.Lower`, `Etl.IsLowerCase`, `Text.IsAlpha`, `Text.Strip`). Non-ASCII letters and non-ASCII whitespace such as U+0085 and U+00A0 are not covered. The model strips the ASCII whitespace Python strips: space, U+0009 to U+000D and U+001C to U+001F.
- The frequency view of a direction is computed (`startingByCount`, `endingByCount`) but, as in the source, only the alphabetical lists are shown.
- Search.RunQuery: the promise that blacklisted words never appear in the result lists is stated only as the multiset of `RemoveEach(...)`, because `list.remove` drops only the first copy of a repeated two-gram.
