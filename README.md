# Prime-encoded symptom matching, modelled in Dafny

This project models the match-and-rank engine of a small educational symptom
checker (`backend.py`). Each symptom name gets a distinct prime. Each disease
is encoded as its square-free integer ("sqf"): the product of its symptoms'
primes. A query is a list of symptom primes. A disease matches a query prime
when that prime divides the disease's sqf. Matches are counted per disease and
ranked by count, highest first, with ties broken by disease name.

The model has five parts, one Dafny module each:

- `PrimeSource` (`primes.dfy`, with number theory in `arith.dfy`). `is_prime` is a
  trial-division loop method (`IsPrimeTrial`). `generate_primes` is a `while` loop
  method (`GeneratePrimes`). The loop terminates because primes are unbounded
  (`Arith.PrimeAtLeast`, Euclid's argument).
- `Codec` (`codec.dfy`). The mapping construction:
  - sorted distinct symptom names (`AllSymptoms`)
  - `symptom_to_prime` and `prime_to_symptom` (`SymptomToPrime`, `PrimeToSymptom`)
  - the sqf of each disease (`Sqf`, with the loop method `ComputeSqf`)
  - `disease_to_sqf` and the one-to-many `sqf_to_disease` (`EncodeDiseases`, `BuildCodec`)

  `CodecCorrect` states the central invariant: prime(s) divides sqf(D) exactly
  when s is a symptom of D. It rests on Euclid's lemma (`Arith.Euclid`).
- `Matcher` (`matcher.dfy`). `calculate_disease_matches_numeric` is a nested-loop
  method (`CalculateMatches`) proved equal to the specification function
  `Matches`.
- `Ranker` (`ranker.dfy`). The key-based `sorted` call (`Rank`).
- `QueryFilter` (`query.dfy`). The token-validation loop of the console demo
  (`FilterInputs`).

`ordering.dfy` holds Python's string order and one insertion sort. That sort
stands for both `sorted` and `list.sort`. `examples.dfy` replays the
three-symptom Common Cold / Influenza example.

Representation choices:
- A Python dict whose iteration order matters is a sequence of its items, in
  insertion order. This covers the disease table, `disease_to_sqf` and the match
  dictionary.
- `sqf_to_disease` is a `map<int, seq<string>>`.
- A symptom *set* is the sequence in which the set is iterated.
  `SqfOrderIndependent` proves that the iteration order does not change the sqf.
  A Python set has no repeats. The one lemma that depends on that,
  `SqfSquareFree`, requires the list to have no repeats.
- A query token is an `Option<int>`. `None` stands for a token on which `int()`
  raises `ValueError`.
- Python integers are unbounded, like Dafny's `int`, so no width is modelled.

Behaviours of the code worth noting:
- `generate_primes` with a negative count returns `[]`, because its `while` guard
  fails at once. It neither loops nor raises.
- The matcher takes a *list* of primes, not a set. A prime listed twice counts
  twice.
- A symptom whose prime lookup gives `None` or `0` is skipped in the product
  (the `if prime:` test).

## Model

| member | source | states |
|---|---|---|
| `PrimeSource.IsPrimeTrial` | backend.py:17-24 | false below 2; otherwise true iff no i with 2 <= i and i*i <= num divides num; and true iff num is prime |
| `PrimeSource.SmallDivisorSuffices` | backend.py:21-24 | trial division up to the square root decides primality: a number >= 2 with no divisor i, i*i <= n, is prime |
| `PrimeSource.GeneratePrimes` | backend.py:26-34 | returns exactly `count` numbers (none when count <= 0), all prime, strictly increasing, starting at 2, with no prime below the last one skipped, i.e. the first `count` primes |
| `Arith.PrimeAtLeast` | backend.py:30-33 | for every n there is a prime >= n, which is why the generator's while loop ends |
| `PrimeSource.FirstPrimesUnique` | backend.py:26-34 | two sequences that are each the first k primes are equal, so the generator's output is determined by `count` |
| `Arith.Euclid` | backend.py:89-95 | a prime dividing a product divides one of the factors, the fact behind the divisibility test |
| `Ordering.StrLeIsTotalOrder` | backend.py:79-81 | Python's string comparison (code point by code point, prefix first) is a total order |
| `Ordering.Sort` | backend.py:252 | the result is sorted in the given order and is a permutation of the input |
| `Ordering.SortedUnique` | backend.py:276-279 | under a total order two sorted permutations of one multiset are equal |
| `Ordering.SortIgnoresInputOrder` | backend.py:276-279 | sorting two rearrangements of the same elements gives the same list |
| `Ordering.StrictlySortedUnique` | backend.py:79-81 | a strictly ascending list of strings is determined by its elements, so `all_symptoms` is the only list meeting `AllSymptoms`' contract |
| `Codec.Mentions` | backend.py:79-81 | a name occurs in the flattened symptom lists iff some disease of the table has it |
| `Codec.Dedup` | backend.py:79-81 | the `set(...)` step: no repeats, and the same elements as its input |
| `Codec.AllSymptoms` | backend.py:79-81 | `all_symptoms` holds exactly the symptoms some disease has, strictly ascending in Python's string order |
| `Codec.SymptomToPrime` | backend.py:84 | the keys of `symptom_to_prime` are exactly the listed symptoms |
| `Codec.SymptomToPrimeAt` | backend.py:84 | with distinct names, the i-th symptom in sorted order is assigned the i-th prime |
| `Codec.PrimeToSymptom` | backend.py:85 | the keys of `prime_to_symptom` are exactly the assigned primes |
| `Codec.PrimeToSymptomAt` | backend.py:85 | with strictly increasing primes, the i-th prime maps back to the i-th symptom |
| `Codec.PrimeAssignmentRoundTrip` | backend.py:84-85 | `prime_to_symptom[symptom_to_prime[s]] == s` for every symptom, `symptom_to_prime[prime_to_symptom[p]] == p` for every prime, and `symptom_to_prime` is injective |
| `Codec.CodecSound` | backend.py:79-85 | for the built codec: a symptom has a prime iff the table mentions it, every assigned number is prime, no two symptoms share one, and the two maps round-trip |
| `Codec.SqfWithout` | backend.py:90-94 | removing any one symptom from the list divides the product by that symptom's factor |
| `Codec.SqfOrderIndependent` | backend.py:91-94 | the sqf does not depend on the order in which the symptom set is iterated |
| `Codec.SqfDivisibleIff` | backend.py:89-95 | for an injective prime code: `sqf % prime(s) == 0` iff s is one of the disease's symptoms |
| `Codec.SqfSquareFree` | backend.py:89-95 | the prime of each symptom divides the sqf exactly once (the quotient is not divisible again) |
| `Codec.SqfPositive` | backend.py:90-94 | with positive primes the product, started at 1, is at least 1 |
| `Codec.DiseaseSqfs` | backend.py:87-95 | `disease_to_sqf` has one item per disease, in table order, and each item is the disease's name with its sqf |
| `Codec.SqfIndexContents` | backend.py:88-96 | the keys of `sqf_to_disease` are exactly the sqfs that occur; under each sit the names of all diseases with that sqf, in table order, none overwritten |
| `Codec.NameListedUnderSqf` | backend.py:96 | every disease's name is listed under its own sqf |
| `Codec.CodecCorrect` | backend.py:79-96 | for every disease D and every symptom s of the table, `disease_to_sqf[D] % symptom_to_prime[s] == 0` iff s is a symptom of D |
| `Codec.BuildDeterministic` | backend.py:79-96 | two codecs built from one table are identical |
| `Codec.ComputeSqf` | backend.py:90-94 | the accumulator loop computes the sqf; with a prime code it is >= 1 and divisible by exactly the primes of the listed symptoms |
| `Codec.EncodeDiseases` | backend.py:87-96 | the loop fills `disease_to_sqf` and `sqf_to_disease` exactly as `DiseaseSqfs` and the appending index say |
| `Codec.BuildCodec` | backend.py:79-96 | builds the codec of the table; its assignment is an injective prime code, and every disease's sqf is divisible by a symptom's prime iff the disease has that symptom |
| `Matcher.CountDividing` | backend.py:107-110 | the count is at most the list's length and is positive iff some listed prime divides the sqf |
| `Matcher.MatchesOf` | backend.py:106-112 | each entry has a positive count and comes from an input disease with that count; every input disease with a positive count is present |
| `Matcher.Matches` | backend.py:101-113 | an empty prime list gives an empty result; otherwise each entry is an input disease with its positive count, and every input disease with a positive count has an entry; distinct row names give distinct entry names |
| `Matcher.CountMatching` | backend.py:107-110 | the inner loop computes `CountDividing`: positive iff some listed prime divides the sqf |
| `Matcher.CalculateMatches` | backend.py:101-113 | the nested loop computes `Matches`: empty for an empty list, at most one entry per row, and distinct disease names when the rows have distinct names |
| `Matcher.MatchesDistinct` | backend.py:103-113 | distinct disease names in the input give distinct keys in the result |
| `Matcher.CountIsShared` | backend.py:106-110 | with a prime code, the divisor count equals the number of listed primes whose symptom the disease has |
| `Matcher.CountIsSharedSymptoms` | backend.py:106-110 | the same for a built codec: matching by divisibility is counting shared symptoms |
| `Matcher.EmptySymptomsNeverMatch` | backend.py:104-112 | a disease with no symptoms has sqf 1 and no prime divides it, so its count is 0 |
| `Ranker.RankLeIsTotalOrder` | backend.py:276-279 | the key (-count, name) orders match entries totally, with no ties between distinct entries |
| `Ranker.Rank` | backend.py:276-279 | the ranked list is a permutation of the matches, by count descending, and by name ascending among equal counts |
| `Ranker.RankUnique` | backend.py:276-279 | any arrangement with those properties is the ranked list itself |
| `Ranker.RankIgnoresInputOrder` | backend.py:276-279 | ranking the same matches given in another order yields the same list |
| `QueryFilter.SortAscending` | backend.py:252 | the sorted prime list is ascending and has the same elements |
| `QueryFilter.Known` | backend.py:240-248 | a prime is listed iff some token is that integer and it has a symptom; the list has one entry per such token, so repeats are kept |
| `QueryFilter.Accepted` | backend.py:240-246 | each known prime once (no repeats), and a prime is accepted iff some token is that integer and it has a symptom |
| `QueryFilter.Rejections` | backend.py:247-250 | one warning per rejected token: each warning occurs exactly as often as there are tokens that draw it (a non-integer token, or an integer without a symptom); warnings plus known-prime tokens number the tokens |
| `QueryFilter.SymptomNames` | backend.py:246 | `valid_symptoms_found` lists the symptom of each accepted prime, in the same order |
| `QueryFilter.SortedAcceptedStrict` | backend.py:252 | sorting the repeat-free accepted list keeps its elements and makes it strictly ascending |
| `QueryFilter.FilterInputs` | backend.py:240-252 | the loop yields the sorted accepted primes, the symptom names and the warnings; every kept prime is a key of `prime_to_symptom` and was given, and the list is strictly ascending |
| `Examples.ExampleSymptomsSorted` | backend.py:79-81 | the example table's sorted distinct symptoms are Cough, Fever, Sore throat |
| `Examples.ExamplePrimes` | backend.py:26-34 | 2, 3 and 5 are the first three primes |
| `Examples.ExampleEncodes` | backend.py:79-96 | the example codec is the one the construction builds for the example table |
| `Examples.ExampleCodes` | backend.py:84 | Cough, Fever and Sore throat get 2, 3 and 5 |
| `Examples.ExampleSqfs` | backend.py:89-95 | Common Cold has sqf 10 and Influenza 30 |
| `Examples.ExampleMatches` | backend.py:101-113 | the query [2, 3] matches Common Cold once and Influenza twice |
| `Examples.ExampleRank` | backend.py:276-279 | Influenza (2) is ranked before Common Cold (1) |

## Left out

- IsPrimeTrial: the loop bound `int(math.sqrt(num))` is a floating-point computation; it is modelled as the integer condition `i * i <= num`, which is what it computes for the sizes the program handles.
- Graph visualisation (`visualize_graph_numeric`, backend.py:143-192) and the matplotlib import probe (backend.py:7-13): plotting and floating-point layout.
- `print_mappings` (backend.py:117-140): console text formatting only.
- The interactive loop of `symptom_disease_demo_numeric` (backend.py:196-346): the prompts, disclaimer, restart loop, catch-all exception handler and printing are I/O. Only its filtering loop (240-252) and ranking sort (276-279) are modelled. The text-splitting of the raw input line (225) and `int()` parsing are outside the model: tokens arrive already parsed as `Option<int>`.
- FilterInputs: a warning records only the rejected integer, or that a token was not an integer. The raw text of a non-integer token and the warning's message string are not modelled.
- The action-plan texts and their `"Default"` fallback (backend.py:58-74, 297): static advisory strings.
- The hard-coded disease table (backend.py:38-54): the table is a parameter of `BuildCodec`; `examples.dfy` uses a three-symptom table instead.
- EncodeDiseases and BuildCodec require distinct disease names, which holds because the source's table is a dictionary. Dictionary assignment is then the same as appending an item.
- CalculateMatches requires that no listed prime is 0 when both inputs are non-empty. Python's `%` raises `ZeroDivisionError` there, and the model does not represent that exception.
- app.py: Flask routing, template rendering and image encoding. Its ranking (app.py:35-38) repeats the one modelled. It calls the matcher with unvalidated, possibly repeated primes, and `CountDividing` counts every repeat. The `symptom_checker` module it imports is not part of this model.
