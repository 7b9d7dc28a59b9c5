# Publication list normalisation and ordering

A Dafny model of the pure part of `fetch_publications` in
`scripts/fetch_publications.py`. That script pulls an author's publications
from an academic-metadata service and writes them to a JSON file for a
personal website. After the service has returned the filled publication
records, the script does two things:

1. It maps each filled record to the fixed output record `title`, `authors`,
   `year`, `venue` and `links {pdf, doi}`:
   - a list `author` is joined with `", "`; any other value passes through;
   - a non-empty `pub_year` goes through `int(...)`, and a failure aborts the run;
   - `venue` is `venue or journal or booktitle`. This yields `booktitle`
     exactly as given when neither `venue` nor `journal` is non-empty, so an
     empty `booktitle` gives `""` and not null.
2. It sorts the list with `sort(key=(year or 0, title or ""), reverse=True)`.
   This is a stable sort, descending on that tuple key.

In the model, the service's answer is an input `seq<Filled>`. Inside `bib`,
a field holding `None` and a missing field are both `None`, since `bib.get`
does not tell them apart. The `bib` key itself is different:
`filled.get("bib", {})` gives an empty mapping when the key is missing, but
gives `None` when the key holds `None`, and the next `bib.get` then raises
`AttributeError`. The model keeps the three cases apart (`BibSlot`). Either
error is a `Failure` that replaces the whole list: `BibIsNone` for the
`AttributeError`, and `YearNotInteger(text)` for an `int()` failure.

Modules:

- `Wrappers`: `Option` for Python's `None` or a missing key, and `Result` for a raised error.
- `Digits`: ASCII decimal text. `ParseNat` models `int(text)`. `ShowNat` prints a number; parsing its text gives the number back. It is used only in proofs.
- `Names`: `Join` is `", ".join`. `Split` undoes it for names that contain no comma, and is used to show that the join loses none of them. A name with a comma, such as `"Smith, J."`, is joined all the same, but the joined string no longer tells the names apart.
- `StrOrder`: Python's `<` on `str`, by code point, with its order laws.
- `Publication`: the input and output records and the per-record mapping `Normalize`.
- `PubSort`: the sort key, a stable insertion sort, and its correctness.
  - The output is sorted, a permutation of the input, and stable.
  - It is the only sorted, stable arrangement of the input.
  - Sorting is idempotent.
- `Fetch`: the whole pipeline `FetchPublications`, plus worked two-record scenarios.

## Model

| member | source | states |
|---|---|---|
| Publication.Authors | scripts/fetch_publications.py:22 | a missing author gives null; a scalar string passes through unchanged; every list, including one with commas inside its names, gives `Some` of its `", "` join |
| Names.Join | scripts/fetch_publications.py:22 | no names give `""`; one name gives that name; a longer list gives the join of all but the last name, then exactly one `", "`, then the last name |
| Publication.AuthorsSplitBack | scripts/fetch_publications.py:22 | the author string of a non-empty list of comma-free names splits back into exactly those names, in order |
| Names.SplitJoin | scripts/fetch_publications.py:22 | the `", "` join of comma-free names is undone by splitting at `", "`, so no name is lost, merged or reordered |
| Publication.Year | scripts/fetch_publications.py:23 | an absent or empty `pub_year` gives null; a non-empty all-digit text of any length gives its decimal value (Python's digit-count limit is under Left out); any other text is the error that aborts the run, carrying that text |
| Digits.ParseNat | scripts/fetch_publications.py:23 | `int()` on year text succeeds exactly on a non-empty run of ASCII digits, leading zeros allowed, with their decimal value; text without a leading zero is exactly the printed form of that value |
| Digits.ShowNat | scripts/fetch_publications.py:23 | the canonical decimal text of a number is non-empty, all digits, and has no leading zero |
| Digits.ParseShowNat | scripts/fetch_publications.py:23 | the year parser reads every number's decimal text back as that number |
| Digits.ShowValueOf | scripts/fetch_publications.py:23 | a digit text without a leading zero is exactly the canonical text of its parsed value, so parsing loses nothing |
| Digits.LeadingZero | scripts/fetch_publications.py:23 | a leading zero does not change the parsed value, as with `int("02020") == 2020` |
| Publication.Venue | scripts/fetch_publications.py:24 | a non-empty `venue` wins; otherwise a non-empty `journal`; otherwise `booktitle` exactly as given (absent gives null, `""` gives `""`); the result is always one of the three fields, and it is non-empty exactly when one of them is |
| Publication.VenueExamples | scripts/fetch_publications.py:24 | `journal` is used when `venue` is missing; `venue` wins over `journal`; all-empty fields give `""` |
| Publication.AuthorsExamples | scripts/fetch_publications.py:22 | `["A", "B", "C"]` gives `"A, B, C"`, `"Solo"` gives `"Solo"`, and a missing author gives null |
| Publication.Normalize | scripts/fetch_publications.py:20-37 | a `bib` holding `None` fails with `BibIsNone`; otherwise a record maps exactly when its year maps, and fails with its `pub_year` text when the year does not; title is copied, `links.pdf` comes from `eprint_url`, and `links.doi` comes from `doi`, absence giving null; authors, year and venue follow the per-field rules; the year is present exactly when `pub_year` is non-empty, and is never negative; a missing `bib` reads as an empty mapping |
| StrOrder.StrLt | scripts/fetch_publications.py:39 | one title is below another exactly when, at the first position where they differ, its code point is smaller, or when it is a proper prefix of the other |
| StrOrder.StrLtIrreflexive | scripts/fetch_publications.py:39 | no title sorts before itself |
| StrOrder.StrLtTransitive | scripts/fetch_publications.py:39 | title order by code point is transitive |
| StrOrder.StrLtTotal | scripts/fetch_publications.py:39 | of two different titles one sorts before the other |
| StrOrder.StrLtAsymmetric | scripts/fetch_publications.py:39 | two titles never sort before each other |
| PubSort.KeyOf | scripts/fetch_publications.py:39 | the key's year is the record's year, with a missing year read as 0; its title is the record's title, with a missing title read as `""` |
| PubSort.KeyLt | scripts/fetch_publications.py:39 | tuple `<` on keys: different years decide by year; equal years decide by the title order |
| PubSort.KeyLtIrreflexive | scripts/fetch_publications.py:39 | no `(year or 0, title or "")` key is below itself |
| PubSort.KeyLtAsymmetric | scripts/fetch_publications.py:39 | two keys are never each below the other |
| PubSort.KeyLtTotal | scripts/fetch_publications.py:39 | two different keys are ordered one way or the other |
| PubSort.KeyLtTransitive | scripts/fetch_publications.py:39 | the tuple order on keys is transitive |
| PubSort.OrderedTransitive | scripts/fetch_publications.py:39 | "key not smaller" between records is transitive |
| PubSort.Insert | scripts/fetch_publications.py:39 | inserting a record into a descending sequence keeps it descending and one longer |
| PubSort.InsertPermutes | scripts/fetch_publications.py:39 | inserting a record adds exactly that record and nothing else |
| PubSort.Sort | scripts/fetch_publications.py:39 | the result is in descending key order, with every neighbouring pair ordered, and has the input's length |
| PubSort.SortPermutes | scripts/fetch_publications.py:39 | the result is a permutation of the input: the same records with the same multiplicities |
| PubSort.InsertKeepsTies | scripts/fetch_publications.py:39 | inserting a record keeps the order of equal keys, with the inserted record first among its ties |
| PubSort.SortKeepsTies | scripts/fetch_publications.py:39 | the sort is stable: for every key, the records with that key appear in input order |
| PubSort.SortedAllPairs | scripts/fetch_publications.py:39 | in a sorted result, every earlier record has a key at least as large as every later one, not only neighbours |
| PubSort.SortedHeadFirst | scripts/fetch_publications.py:39 | the first record of a sorted result has the greatest key |
| PubSort.SortedTiesUnique | scripts/fetch_publications.py:39 | two sorted sequences that list the same records per key, in the same order per key, are equal |
| PubSort.SortIsUnique | scripts/fetch_publications.py:39 | any sorted, stable arrangement of the input is the sort's output, so the contract pins the result down |
| PubSort.SortSorted | scripts/fetch_publications.py:39 | an already sorted sequence is returned unchanged |
| PubSort.SortIdempotent | scripts/fetch_publications.py:39 | sorting the sorted output again changes nothing |
| Fetch.NormalizeAll | scripts/fetch_publications.py:17-37 | the loop succeeds exactly when every record maps; on success there is one output per input, in input order, each the mapping of its input; on failure the error is that of the first failing record |
| Fetch.FetchPublications | scripts/fetch_publications.py:14-40 | the run fails exactly when some record fails, with the first such error and no list; otherwise the list has one record per input and is sorted descending, a permutation of the mapped records, and stable |
| Fetch.OutputsContainInputs | scripts/fetch_publications.py:18-39 | every input's mapped record is in the output |
| Fetch.OutputsComeFromInputs | scripts/fetch_publications.py:18-39 | every output record is the mapping of some input |
| Fetch.OutputIsDetermined | scripts/fetch_publications.py:39 | any sorted, stable arrangement of the mapped records equals the output |
| Fetch.OutputSortIdempotent | scripts/fetch_publications.py:39 | sorting the output again leaves it unchanged |
| Fetch.FetchTwo | scripts/fetch_publications.py:18-39 | with two mappable records, the output is the pair, swapped exactly when the first has the smaller key |
| Fetch.NewerYearFirst | scripts/fetch_publications.py:39 | `B` (2019) and `A` (2021) come out as `A`, then `B` |
| Fetch.MissingYearLast | scripts/fetch_publications.py:23-39 | a record without a year sorts as year 0, after a record from 2000 |
| Fetch.FetchTwoFails | scripts/fetch_publications.py:18-39 | when the second of two records has a bad year, the run fails with that record's error although the first one mapped |
| Fetch.BadYearAborts | scripts/fetch_publications.py:23 | a `pub_year` of `"abc"` makes the whole run fail with that text, even after a good record |
| Fetch.NullBibAborts | scripts/fetch_publications.py:20-21 | a `bib` holding `None` makes the whole run fail, even after a good record |

## Left out

- The metadata-service calls (`search_author_id` and the two `fill` calls, scripts/fetch_publications.py:15-16,19) are network calls into a library outside this model. Their result is the input sequence of filled records, in the service's order. Errors they raise are not modelled.
- Argument parsing, JSON serialisation, file writing and the summary print (scripts/fetch_publications.py:43-52) are I/O with no logic to state.
- Publication.Year: only ASCII-digit text parses. Python's `int()` also accepts surrounding whitespace, a sign, underscores between digits and non-ASCII decimal digits. The model reports all of those as the error. In the other direction, the model parses digit text of any length. Python 3.11 and later, and the security releases 3.7.14, 3.8.14, 3.9.14 and 3.10.7, raise `ValueError` for decimal text longer than `sys.int_max_str_digits`, which is 4300 by default and configurable. That limit is not modelled.
- Publication.Normalize: `bib` is assumed to be missing, `None` or a mapping. Its fields are assumed to hold only strings, lists of strings (for `author`), or `None`. Python truthiness of other types, and an `author` of another sequence type such as a tuple, are not modelled.
- Fetch.FetchPublications: the errors are `YearNotInteger(text)` and `BibIsNone`. They stand for Python's `ValueError` and `AttributeError` with their messages, whose exact wording is not modelled.
