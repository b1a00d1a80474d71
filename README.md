# Recipe scraper: a verified model of its data handling

`backend/app/database/scraping.py` has two entry points.

- `get_random_recipe(theme)` looks up a theme's listing page in the
  seven-entry `RECIPE_THEME` table. It then collects the anchors of the
  page's article list and returns the `href` of one anchor picked with
  `randint`.
- `get_info_recipe(url)` reads a recipe page and returns a dict with the
  four keys `title`, `header`, `info_recipe` and `nutrition`.
  - `title` and `header` are the stripped texts of the page's `h1` and of
    its subheading.
  - `info_recipe` is built by a loop over the recipe-details items. Each
    item stores its label text under the key and its value text as the
    value, both with the last character cut off (`[:-1]`).
  - `nutrition` is built by a loop over the rows of the nutrition table.
    Each row stores its stripped second cell as the key and its stripped
    first cell as the value.

This model runs on what the DOM queries return, not on HTML.

- An article list is a sequence of anchors, each with its attribute map.
  A listing page is a function from URL to `Option<seq<Anchor>>`: `None`
  means the article list is missing. This keeps the order of the source:
  look up the theme, then fetch.
- A recipe page is a `RecipePage`: one `Option` for each query the source
  runs. A details item holds an `Option` for its label and one for its
  value. A nutrition row is the list of its cell texts.
- The random draw is an injected index `n`. The precondition says `n` lies
  in the range `randint(0, len - 1)` promises whenever that range is not
  empty.
- Every exception the code raises once the pages are fetched is a
  `Result.Err`:
  - `KeyError`: an unknown theme, or an anchor without `href`;
  - `EmptyRange`: the `ValueError` from `randint(0, -1)` when there are no
    anchors;
  - `AttributeError(step)`: `.text` or `.find_all` called on the `None` a
    query returned, tagged with the query;
  - `IndexError`: a row with fewer than two cells.

Modules:

- `Results`: the `Option`, `Result` and `Error` types.
- `PyStr`: Python's `str.strip()` (whitespace as `str.isspace` defines it)
  and the slice `s[:-1]`.
- `Dicts`: the dict-building loop both extraction loops use. `Assemble`
  is "start from `{}` and store `d[k] = v` for each entry in turn".
  `Traverse` is "compute one entry per item and stop at the first item
  that raises".
- `Scraping`: the theme table, the random pick, the two extraction loops
  as methods with loop invariants, `GetInfoRecipe`, and the properties of
  the record.

The model follows what the code does:

- A details item that lacks its label or its value aborts the whole
  extraction with an `AttributeError`. The item is not skipped.
- The title is not required to be non-empty. An empty `h1` gives an empty
  title.
- The HTTP status is never checked. An error page is parsed like any
  other page, and the elements it lacks then raise `AttributeError`.
- Failures are the Python exceptions listed above.

## Model

| member | source | states |
|---|---|---|
| `Scraping.ThemeUrl` | backend/app/database/scraping.py:10-18 | a theme resolves exactly when it is one of dessert, breakfast, lunch, healthy, appetizer, salad, drink; any other name is `KeyError(theme)` |
| `Scraping.ThemeUrlsDistinct` | backend/app/database/scraping.py:10-18 | the table is one-to-one: two different themes never share a listing URL |
| `Scraping.PickRecipe` | backend/app/database/scraping.py:33-35 | an empty anchor list is `EmptyRange` and never an empty result; otherwise the result is `Ok` of the `href` of anchor `n` (with `0 <= n < len`) when it has one, and `KeyError("href")` when it has none |
| `Scraping.GetRandomRecipe` | backend/app/database/scraping.py:21-35 | an unknown theme is `KeyError`; a missing article list is an `AttributeError`; no anchors is `EmptyRange`; otherwise the drawn anchor `n` gives `Ok` of its `href`, or `KeyError("href")` when it has none; a returned URL is the `href` of one of the anchors on that theme's listing page |
| `Scraping.UnknownThemeNoFetch` | backend/app/database/scraping.py:30 | for an unknown theme the outcome does not depend on any listing page: the lookup fails before the fetch |
| `Scraping.EveryAnchorReachable` | backend/app/database/scraping.py:33-35 | every anchor with an `href` on a known theme's list is returned by the draw that picks its index |
| `PyStr.LStripShape` | backend/app/database/scraping.py:49 | `lstrip` removes a prefix made only of whitespace and stops at a non-whitespace character |
| `PyStr.RStripShape` | backend/app/database/scraping.py:49 | `rstrip` removes a suffix made only of whitespace and stops at a non-whitespace character |
| `PyStr.Strip` | backend/app/database/scraping.py:49-50 | the stripped text has no whitespace at either edge |
| `PyStr.StripBorder` | backend/app/database/scraping.py:49-50 | the stripped text is a contiguous slice of the input, and everything cut off on both sides is whitespace |
| `PyStr.StripUnique` | backend/app/database/scraping.py:49-50 | for any text with no whitespace at its edges, padding it with whitespace on both sides and stripping gives back exactly that text |
| `PyStr.StripTrimmed` | backend/app/database/scraping.py:69 | a text with no whitespace at its edges is left unchanged |
| `PyStr.StripIdempotent` | backend/app/database/scraping.py:49-50 | stripping twice is the same as stripping once |
| `PyStr.DropLast` | backend/app/database/scraping.py:58-59 | `s[:-1]` is `s` without its last character, and the empty text stays empty |
| `Dicts.AssembleKeys` | backend/app/database/scraping.py:56-60 | the keys of the built dict are exactly the keys that were stored |
| `Dicts.AssembleLastWins` | backend/app/database/scraping.py:60 | the value under a key is the value of the last store to that key |
| `Dicts.AssembleHasLastWrite` | backend/app/database/scraping.py:56-60 | every key of the built dict has a last store that put it there |
| `Dicts.AssembleSize` | backend/app/database/scraping.py:56-60 | the dict has no more entries than stores were made |
| `Dicts.AssembleAppend` | backend/app/database/scraping.py:57-60 | storing `a` and then `b` gives the dict of `a` overridden by the dict of `b` |
| `Dicts.AssembleKeepsEarlier` | backend/app/database/scraping.py:57-60 | later stores to other keys leave an earlier entry unchanged, and add no key the prefix lacked |
| `Dicts.TraverseOk` | backend/app/database/scraping.py:57-60 | the loop completes exactly when every item gives an entry, and it then gives one entry per item, in order |
| `Dicts.TraverseFirstError` | backend/app/database/scraping.py:57-60 | a failed loop reports the error of the first item that raises, and every earlier item succeeded |
| `Dicts.TraversePrefixError` | backend/app/database/scraping.py:57-60 | once a prefix has raised, the remaining items do not change the outcome |
| `Dicts.TraversePrefixOk` | backend/app/database/scraping.py:57-60 | a loop that completes has completed each prefix, with the matching prefix of its entries |
| `Dicts.TraverseStep` | backend/app/database/scraping.py:57-60 | one more item extends a prefix that has not raised by that item's entry, or ends it with that item's error |
| `Scraping.CollectDetails` | backend/app/database/scraping.py:56-60 | the details loop returns the dict of the items' (label, value) entries, or the error of the first incomplete item |
| `Scraping.CollectNutrition` | backend/app/database/scraping.py:66-69 | the nutrition loop returns the dict of the rows' (cell 1, cell 0) entries, or `IndexError` at the first short row |
| `Scraping.GetInfoRecipe` | backend/app/database/scraping.py:49-76 | the extraction runs the queries in the source's order and gives the reference record or error; a returned title and header have no whitespace at their edges |
| `Scraping.DetailsOk` | backend/app/database/scraping.py:57-60 | the details loop completes if and only if every item has both its label and its value |
| `Scraping.DetailsKeys` | backend/app/database/scraping.py:56-60 | the details keys are exactly the labels with their last character removed, and there are at most as many keys as items |
| `Scraping.DetailsLastWins` | backend/app/database/scraping.py:60 | where several items share a label, the dict holds the value of the last of them, with its last character removed |
| `Scraping.DetailsEntryOrigin` | backend/app/database/scraping.py:57-60 | every details entry is the label and value of one item, each with the last character removed, and no later item has that label |
| `Scraping.DetailsPrefixSurvives` | backend/app/database/scraping.py:57-60 | the entries of the first `i` items survive the rest of the loop unless a later item has the same label |
| `Scraping.DetailsFirstError` | backend/app/database/scraping.py:58-59 | the first incomplete item decides the error: a missing label is reported before a missing value |
| `Scraping.NutritionOk` | backend/app/database/scraping.py:67-69 | the nutrition loop completes if and only if every row has at least two cells, and it otherwise fails with `IndexError` |
| `Scraping.NutritionKeys` | backend/app/database/scraping.py:66-69 | the nutrition keys are exactly the stripped second cells, and there are at most as many keys as rows |
| `Scraping.NutritionSwapsColumns` | backend/app/database/scraping.py:69 | a row's stripped second cell maps to its stripped first cell, unless a later row has the same second cell |
| `Scraping.NutritionEntryOrigin` | backend/app/database/scraping.py:67-69 | every nutrition entry is the stripped (cell 1, cell 0) pair of one row, and no later row has that name |
| `Scraping.NutritionPrefixSurvives` | backend/app/database/scraping.py:67-69 | the entries of the first `i` rows survive the rest of the loop unless a later row has the same name |
| `Scraping.InfoRecipeOk` | backend/app/database/scraping.py:49-76 | a record is returned if and only if every query finds its element, every details item is complete and every row has two cells; the title and header are then stripped texts and the two dicts are the ones the loops build |
| `Scraping.IncompleteDetailAborts` | backend/app/database/scraping.py:58-59 | a details item without its label or its value aborts the whole extraction; no degraded record is returned |
| `Scraping.ShortRowAborts` | backend/app/database/scraping.py:68-69 | a nutrition row with fewer than two cells aborts the whole extraction |
| `Scraping.MissingNutritionTable` | backend/app/database/scraping.py:62-64 | a page that is fine apart from a missing nutrition table fails with the nutrition-table `AttributeError` |
| `Scraping.ExampleDetails` | backend/app/database/scraping.py:56-60 | on "Prep Time:" / "15 mins:" and two "Servings:" items, the colons are cut off and the later "Servings" value wins |
| `Scraping.ExampleNutrition` | backend/app/database/scraping.py:66-69 | on a two-row table, the cells are stripped and each name maps to its amount |
| `Scraping.ExamplePage` | backend/app/database/scraping.py:49-76 | a whole example page gives the expected four-field record |

## Left out

- Network I/O is not modelled (the `requests.get` calls and the `HEADERS` User-Agent, lines 6-8, 30 and 47). A page enters the model only as the results of the queries run on it. The exceptions `requests.get` raises itself (`ConnectionError`, `Timeout`, `MissingSchema` or `InvalidURL` for a bad address such as a relative `href`) belong to this I/O and are not modelled. The source never checks the HTTP status, so an error page is parsed like any other page: the model receives whatever its queries find, and the first required element it lacks raises `AttributeError`.
- BeautifulSoup is a foreign library (lines 31-33, 48-54 and 62-64). Its HTML parsing, its CSS-selector and class matching, and its `.text` concatenation are not modelled. Their outputs are inputs to the model: `Option` where a query may find nothing, sequences where it finds many.
- `randint` is not modelled (lines 1 and 34). The draw is an injected index. Uniform selection and all other statistical properties are outside the model. `EveryAnchorReachable` states only that every anchor with an `href` can be the one returned.
- Python dicts keep insertion order, so the details and nutrition dicts are serialized in the order their keys were first stored. The model uses unordered `map`s and does not capture that order.
- The returned dict is the four-field datatype `RecipeInfo`. Having exactly the four keys `title`, `header`, `info_recipe` and `nutrition` is true by construction, not stated by a contract.
- The URLs in the table are opaque values. Their format is not modelled.

Each member listed below has a contract or precondition narrower than the source's behaviour:

- `Scraping.PickRecipe`: an out-of-range index is excluded by its precondition. `randint` never returns one.
- `Scraping.DetailsKeys`, `Scraping.DetailsLastWins` and `Scraping.DetailsPrefixSurvives`: these require every details item to be complete. Only then does the details dict exist. The incomplete case is covered by `Scraping.DetailsOk` and `Scraping.DetailsFirstError`.
- `Scraping.NutritionKeys`, `Scraping.NutritionSwapsColumns` and `Scraping.NutritionPrefixSurvives`: these require every row to have two cells. The short-row case is covered by `Scraping.NutritionOk`.
