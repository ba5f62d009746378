# Budget-proposal search: a Dafny model

This project models the query core of a small record-search tool over a table
of budget proposals (`test.py`). A `ProposalSearcher` loads a category
taxonomy and a proposal table, builds a category lookup and answers three
kinds of query. A
`SearchMenu` turns console answers into query arguments.

- **Category mapping** (`_create_category_mapping`) flattens the taxonomy into a
  value → category lookup. A value listed more than once keeps the key of its
  last listing.
- **Unique values** (`get_unique_values`) lists the sorted, distinct, non-empty
  values of four columns: category, who, result and full_name.
- **Structured search** (`search_proposals`) narrows the table by up to four
  filters, combined with AND. Category, result and full_name are compared for
  equality. `who` is matched by substring. An empty cell never matches, and a
  falsy argument sets no filter.
- **Keyword search** (`search_by_keyword`) builds one case-insensitive
  substring mask per requested column that exists, ORs the masks, and indexes
  the table with the result. An empty keyword gives an empty result. With no
  field list it searches `content` only. Requested names that are not columns
  are skipped. If no requested name is a column, concatenating the empty list
  of masks raises.
- **Menu rules**: an option is picked by typing its printed number. The keyword
  prompt's option `2` searches five columns; any other option searches
  `content`.

Modules, one per component:

- `Wrappers` (`wrappers.dfy`): `Option` and `Result`.
- `Text` (`text.dfy`): literal substring containment and ASCII lower-casing.
- `Ordering` (`ordering.dfy`): Python's `str` order and `sorted(set(xs))`.
- `Taxonomy` (`taxonomy.dfy`): the category mapping. `CreateCategoryMapping`
  keeps the source's three nested loops and is proved equal to `CategoryMapping`.
  `CategoryMapping` performs the assignments `d[value] = key` in iteration
  order (`Entries`).
- `Proposals` (`proposals.dfy`): the `Record` row type and the `Column`
  schema. It also holds `Select` (the filter `df[condition]`), unique values,
  `SearchProposals` and `SearchByKeyword`. `SearchProposals` is a method that
  narrows the table one filter at a time. `SearchByKeyword` is a method with
  the mask-building loop; the function `KeywordSearch` specifies it.
- `Menu` (`menu.dfy`): the numbered-choice rule and the keyword-option rule.
- `Scenarios` (`scenarios.dfy`): worked examples on a two-row table.

The taxonomy and the table are parameters; nothing is read from files. A
table cell is `Option<string>`, where `None` is an empty (NaN) cell.

Behaviour of the code worth noting:

- Only a missing field list (`None`) gets the default `['content']`. An empty
  list `[]` is kept, so no mask is built and the search raises
  (`Err(NoObjectsToConcatenate)`).
- Skipping unknown field names is not always silent. When every requested
  name is unknown, the search raises.
- A malformed taxonomy does not raise a dedicated error in the code. Loading is
  not part of this model.

## Model

| member | source | states |
|---|---|---|
| `Taxonomy.CreateCategoryMapping` | test.py:11-17 | The three nested loops build exactly the dictionary obtained by assigning `mapping[value] = key` for every value of every item of every group, in document order |
| `Taxonomy.MappingKeys` | test.py:13-16 | A value is a key of the mapping iff it is listed under some key of some group; there are no other keys |
| `Taxonomy.MappingLastWins` | test.py:16 | If the n-th assignment in iteration order is the last one to value v, the mapping sends v to that assignment's key (last write wins) |
| `Taxonomy.FromPairsLastWins` | test.py:16 | Repeated `d[v] = k` assignments leave, for v, the key of the last assignment to v |
| `Taxonomy.FromPairsKeys` | test.py:12-16 | The keys of a dictionary filled by assignments are exactly the assigned values |
| `Taxonomy.EntriesMembership` | test.py:13-15 | (v, k) is assigned iff some group has an item with key k whose value list contains v |
| `Taxonomy.GroupEntriesMembership` | test.py:14-15 | Within one group, (v, k) is assigned iff an item with key k lists v |
| `Taxonomy.MappingOfDistinctMembers` | test.py:11-17 | When no value is listed twice, each listed value maps to exactly the key that lists it |
| `Taxonomy.LaterGroupWins` | test.py:13-16 | A value listed under "A" in one group and under "B" in a later group maps to "B" |
| `Ordering.SortedSet` | test.py:21-24 | `sorted(set(xs))`: the result is strictly ascending under Python's string order and holds exactly the values of xs |
| `Ordering.Insert` | test.py:21-24 | Adding a value to an ascending list keeps it ascending and adds exactly that value |
| `Ordering.AscendingUnique` | test.py:21-24 | Two strictly ascending lists with the same values are equal, so the sorted distinct list is unique |
| `Ordering.AscendingIsDuplicateFree` | test.py:21-24 | A strictly ascending list holds no value twice |
| `Ordering.BelowTransitive` | test.py:21-24 | Python's string order is transitive |
| `Ordering.BelowTotal` | test.py:21-24 | Two different strings are ordered one way or the other |
| `Proposals.ColumnValues` | test.py:21-24 | `df[c].dropna()` holds a value iff some row's cell in column c is that value |
| `Proposals.GetUniqueValues` | test.py:19-25 | Each of the four lists is strictly ascending, with no duplicates, and holds exactly the values present in its column (categories, who, results, full_name) |
| `Proposals.UniqueValuesDetermined` | test.py:19-25 | Any list that is ascending and holds exactly a column's values equals the one returned |
| `Proposals.ColumnNamed` | test.py:58 | A header maps to the column whose name it is, and every column's name maps back to that column |
| `Proposals.SearchProposals` | test.py:27-39 | Narrowing a copy of the table by each truthy filter in turn gives the rows satisfying all supplied filters, in table order |
| `Proposals.SearchWithoutFiltersReturnsTable` | test.py:28-39 | With no truthy argument the whole table is returned unchanged and in order |
| `Proposals.SearchProposalsMembership` | test.py:30-37 | A row is returned iff it is in the table and equals the category, contains the proposer, and equals the result and full_name for each filter that is supplied; an empty cell never passes a filter on its column |
| `Proposals.SelectKeepsMatchingRowsInOrder` | test.py:31 | `df[condition]` returns the table's rows at exactly the positions where the condition holds, each once, at ascending positions |
| `Proposals.SelectMembership` | test.py:31 | A value is selected iff it is a row of the table satisfying the condition |
| `Proposals.SelectEverything` | test.py:28 | Selecting with a condition every row satisfies returns the table unchanged |
| `Proposals.SelectTwice` | test.py:31-33 | Narrowing a selection by a second condition equals selecting once by both (AND) |
| `Proposals.SelectAppend` | test.py:31 | Selecting from two tables appended equals appending the two selections |
| `Proposals.SelectAgreeing` | test.py:31 | Conditions that agree on every row select the same rows |
| `Proposals.KeywordSearch` | test.py:41-64 | An empty keyword returns an empty result; the search raises iff the keyword is non-empty and no requested name is a column (for tables whose searched columns each hold at least one non-empty cell) |
| `Proposals.SearchByKeyword` | test.py:41-64 | The mask-building loop, OR of the masks and boolean indexing compute exactly `KeywordSearch` |
| `Proposals.KeywordSearchSelects` | test.py:56-64 | For a non-empty keyword and at least one column, the rows returned, in table order, are exactly those where some requested column's non-empty cell contains the keyword ignoring case |
| `Proposals.KeywordSearchDefaultsToContent` | test.py:52-53 | Without a field list only the content column is searched |
| `Proposals.KeywordSearchSkipsUnknownField` | test.py:57-58 | A requested name that is not a column changes nothing, wherever it stands in the list |
| `Proposals.KeywordSearchIgnoresCase` | test.py:59 | Searching for the keyword or for its lower-cased form gives the same result |
| `Proposals.PresentColumnsMembership` | test.py:57-58 | A column is searched iff some requested name names it |
| `Proposals.PresentColumnsEmpty` | test.py:57-63 | No mask is built iff no requested name is a column |
| `Proposals.PresentColumnsAppend` | test.py:57-60 | The masks built for two field lists appended are those of the first followed by those of the second |
| `Proposals.CompressIsSelect` | test.py:63-64 | Indexing by a mask computed row by row from a condition selects exactly by that condition |
| `Text.ContainsAt` | test.py:33 | Substring containment holds iff the pattern occurs at some position of the string |
| `Text.ContainsWitness` | test.py:59 | An occurrence at some position is enough for containment |
| `Text.LowerIdempotent` | test.py:59 | Lower-casing twice is the same as lower-casing once |
| `Text.ContainsIgnoringCaseOfLowered` | test.py:59 | Lower-casing the text and the keyword does not change the case-insensitive match |
| `Menu.ChooseFromList` | test.py:76-78 | A selection is always one of the listed options, and only an all-digit answer selects; the same rule is at test.py:89-91 and 98-100 |
| `Menu.TypingPrintedNumberSelects` | test.py:73-77 | Typing the number printed before option i (`enumerate(..., 1)`) selects option i |
| `Menu.TypingUnlistedNumberSelectsNothing` | test.py:76-78 | A number outside 1..len, 0 included, selects nothing |
| `Menu.LeadingZeroSelectsSame` | test.py:76-77 | `int()` ignores leading zeros, so "01" selects what "1" selects |
| `Menu.DecimalRoundTrip` | test.py:74-76 | Reading back a printed number with `int()` gives the number |
| `Menu.LeadingZeroIgnored` | test.py:76 | A leading zero does not change the value `int()` reads |
| `Menu.KeywordInput` | test.py:112-119 | An empty keyword gives (None, None); otherwise the keyword comes with a field list, and every listed field is a column |
| `Menu.MenuKeywordSearch` | test.py:115-119 | A menu keyword search never raises (for tables whose searched columns each hold at least one non-empty cell). Option "2" finds the rows where content, who, full_name, category or result contains the keyword; time_place is not searched. Any other option searches content only |
| `Scenarios.CategoryFilterExample` | test.py:30-31 | On the two-row example table, filtering on category "A" returns the first row only |
| `Scenarios.KeywordExample` | test.py:52-64 | On the example table, searching "repair" returns the first row; the row with empty content is not returned |
| `Scenarios.CaseInsensitiveExample` | test.py:59 | "budget" is found in "Budget review" |

## Left out

- Loading (test.py:5-9): `open`, `json.load` and `pd.read_csv` are I/O. The
  taxonomy's `categories` list and the table are parameters, and a malformed
  file is not modelled.
- The console: `display_menu`, `display_full_content_results`, `main`, the
  `input`/`print` calls and `get_proposer_input` (test.py:72-75, 80-82,
  104-110, 121-196). Only the pure selection rules are modelled.
- Regular expressions: `str.contains` treats its pattern as a regular
  expression (test.py:33, 59). The model uses literal substring containment,
  so a proposer or keyword with regex metacharacters is out of scope.
- Case folding: `case=False` is modelled as ASCII lower-casing of both sides.
  Unicode case folding is not modelled.
- The numeric `cost` column and its NaN check (test.py:134): floating point,
  used only for display.
- Other columns: only the six text columns are modelled. A requested name
  such as `cost`, or an extra CSV column, counts as "not a column" and is
  skipped. pandas would search it, or raise if its values are not strings.
- Proposals.KeywordSearch: does not model the AttributeError pandas raises when
  a searched text column has no non-empty cell at all (`pd.read_csv` reads it
  as float64, and `.str.contains` at test.py:59 then raises); the model reads
  such cells as `None` and returns no match for them. The same holds for
  `Proposals.SearchByKeyword`, for `Menu.MenuKeywordSearch`, and for
  `Proposals.SearchProposals` when a proposer filter is given and the `who`
  column is entirely empty (test.py:33).
- Non-string cell values: a column that pandas parses as numbers, which
  `sorted` would order numerically, is not modelled.
- Empty cells: a `None` cell stands for an empty CSV cell. The model does not
  say that the loader never produces an empty string.
- `Menu.ChooseFromList`: `str.isdigit` is modelled for ASCII digits only.
  Other Unicode digits are not modelled, including the superscripts that make
  `int()` raise.
- `Menu.ChooseFromList`: its contract states only that a pick is a listed
  option and that the answer was all digits. Which option is picked is stated
  by `Menu.TypingPrintedNumberSelects` and
  `Menu.TypingUnlistedNumberSelectsNothing`.
- DataFrame index bookkeeping (`idx+1`, test.py:127) and the `.copy()`
  aliasing detail (test.py:28): the queries return new sequences.
- An unknown keyword argument to `search_proposals` is a Python `TypeError`.
  The Dafny signature has exactly four filter parameters, so it cannot occur.
