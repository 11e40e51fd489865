# Heat-capacity scraper and notebook-execution plugin: a Dafny model

This project models the two pieces of logic in the repository's
documentation tooling.

- **The table scraper** (`docs/code/scrape_wiki.py`) walks the rows of the
  "Heat capacities of the elements" wiki table. A row takes part only when its
  unnamed caption cell starts with `<`. Its description is the caption from two
  characters past the first `>`. The value comes from the `J/(mol·K)` cell of
  the *following* row; a text value keeps only its last whitespace-separated
  token. The description is split on whitespace into number, abbreviation,
  full name and remark words. Any failure aborts the whole run.
  `ScrapeWiki.ScrapeElements` is that loop, run over a sequence of rows, and it
  is proved equal to the reference function `ScrapeWiki.Scrape`. The lemmas
  about `Scrape` and `ParseRow` state what the run produces and when it aborts.
  Module `PyStr` models the Python string behaviour the loop relies on:
  `str.split()`, `' '.join`, `str.index`, slicing past the end, `int()`.
- **The docs build plugin** (`execute.py`, class `Plugin`) keeps the map
  `output_map` from a page's absolute source path to the names of the output
  files its notebook execution wrote. `Execute.Plugin` has that map as a field.
  `OnPageReadSource` records the entry for its page. `OnPageMarkdown` pops the
  entry and appends one already-saved file per name, in order, to the host's
  file collection, `Execute.Files`.

Abstractions:

- A table row is `Row(caption, value)`, where the value cell is either a number
  the table reader already parsed (`Float`) or text (`Text`).
- The record's `c` field is that cell, or for text the token `float()` would be
  applied to.
- Errors are a `Result`. Each error names the row index and the Python
  exception it stands for.
- The notebook execution is a foreign call. Its results are parameters of the
  read hook: the output names in order and the rendered markdown.

The value is always read from the row after the qualifying one
(`raw.rows[index+1]`), never from the qualifying row's own value cell, even
when that cell holds a value. The model follows the code here. So a
qualifying last row always aborts the run
(`ScrapeWiki.ScrapeQualifyingLastRow`).

## Model

| member | source | states |
|---|---|---|
| `PyStr.Drop` | docs/code/scrape_wiki.py:30 | slicing from a start past the end gives the empty string; otherwise the result is the characters from that start on |
| `PyStr.IndexOf` | docs/code/scrape_wiki.py:30 | `str.index` fails exactly when the character is absent; otherwise it gives the first position holding it |
| `PyStr.Split` | docs/code/scrape_wiki.py:33-34 | every token of `str.split()` is non-empty and holds no character `str.isspace` accepts (`PyStr.IsSpace`: tab to carriage return, 0x1C to space, NEL, no-break space, the Unicode space separators, line and paragraph separators) |
| `PyStr.SplitEmpty` | docs/code/scrape_wiki.py:33 | `s.split()` is empty exactly when `s` is all whitespace, which is when `c.split()[-1]` raises |
| `PyStr.SplitJoin` | docs/code/scrape_wiki.py:34-39 | splitting a space-joined list of tokens gives the tokens back |
| `PyStr.Join` | docs/code/scrape_wiki.py:39 | `' '.join` of tokens is empty exactly when there are no tokens; a non-empty join starts with the first token and ends with the last |
| `PyStr.JoinSnoc` | docs/code/scrape_wiki.py:39 | appending a token to a non-empty join adds exactly one `' '` and the token |
| `PyStr.SplitAtSpace` | docs/code/scrape_wiki.py:33 | splitting at a whitespace character gives the tokens before it, then the tokens after it |
| `PyStr.SplitWord` | docs/code/scrape_wiki.py:33 | a single token splits into itself |
| `PyStr.ParseInt` | docs/code/scrape_wiki.py:36 | `int()` succeeds exactly on an integer literal: digits, optionally after one `+` or `-`, starting and ending with a digit, with single underscores only between digits |
| `PyStr.ParseIntPlus` | docs/code/scrape_wiki.py:36 | a leading `+` does not change the value, and after it only unsigned well-formed digits are accepted |
| `PyStr.ParseIntMinus` | docs/code/scrape_wiki.py:36 | `int("-" + t)` is minus `int(t)` when `t` is unsigned well-formed digits, and fails otherwise |
| `PyStr.ParseIntLeadingZero` | docs/code/scrape_wiki.py:36 | a leading zero does not change the value |
| `PyStr.ParseIntUnderscore` | docs/code/scrape_wiki.py:36 | an underscore between two digit groups does not change the value |
| `PyStr.ParseIntShowInt` | docs/code/scrape_wiki.py:36 | `int(str(n)) == n` for every integer |
| `ScrapeWiki.Description` | docs/code/scrape_wiki.py:29-30 | no description exists exactly when the caption has no `>`, which makes `index` raise |
| `ScrapeWiki.DescriptionAfterMarker` | docs/code/scrape_wiki.py:30 | the description is the caption with everything up to and including the character after its first `>` cut away |
| `ScrapeWiki.DescriptionMarkerAtEnd` | docs/code/scrape_wiki.py:30 | a caption whose first `>` is its last character has the empty description, since the slice starts past the end |
| `ScrapeWiki.CellValue` | docs/code/scrape_wiki.py:31-33 | a number cell is kept as it is; a text cell fails exactly when it is all whitespace, and otherwise gives one of its tokens |
| `ScrapeWiki.CellValueLastToken` | docs/code/scrape_wiki.py:33 | for a text cell, only the last token is kept: any text ending in whitespace before it and any trailing whitespace after it are dropped |
| `ScrapeWiki.ParseRow` | docs/code/scrape_wiki.py:27-41 | every error names the row, and each check fails exactly in the source's order: no `>` gives MissingMarker; then a last row gives NoNextRow; then an all-whitespace text value cell in the next row gives EmptyValue; then fewer than three description words give TooFewTokens; then a first word that is no integer literal gives NotAnInteger. The row parses exactly when none of these holds. A record has number, abbr and full name from the first three words, and as remark the remaining words joined by single spaces (empty exactly when there are three words). Its value is what `CellValue` keeps of the next row's cell |
| `ScrapeWiki.ParseRowRoundTrip` | docs/code/scrape_wiki.py:29-41 | a caption `<…> N Abbr Name remark words` qualifies and parses back to N, Abbr, Name and the remark words joined by single spaces, as in `<x> 26 Fe Iron (some remark)` |
| `ScrapeWiki.QualifyingBelow` | docs/code/scrape_wiki.py:26-28 | the positions of the rows whose caption starts with `<`: all of them, only them, in increasing order |
| `ScrapeWiki.Scrape` | docs/code/scrape_wiki.py:25-42 | the run yields one record per row whose caption starts with `<` (`ScrapeWiki.Qualifies`), or aborts with the error of such a row that fails to parse |
| `ScrapeWiki.ScrapePrefixSucceeds` | docs/code/scrape_wiki.py:25-42 | the loop over the first `n` rows finishes exactly when every qualifying row among them parses |
| `ScrapeWiki.ScrapePrefixRecords` | docs/code/scrape_wiki.py:25-42 | after `n` rows without error, the list holds one record per qualifying row among them, in row order, each the parse of its row |
| `ScrapeWiki.ScrapeRecords` | docs/code/scrape_wiki.py:25-42 | the run succeeds exactly when every qualifying row parses; then it yields one record per qualifying row, in row order, and other rows add nothing |
| `ScrapeWiki.ScrapeFirstError` | docs/code/scrape_wiki.py:25-42 | a failed run reports the error of a qualifying row, and every qualifying row before that one parses |
| `ScrapeWiki.ScrapeQualifyingLastRow` | docs/code/scrape_wiki.py:31 | a qualifying row in last position has no successor, so the run always aborts |
| `ScrapeWiki.ScrapePrefixFailureSticks` | docs/code/scrape_wiki.py:25-42 | once an error is raised, later rows cannot change the outcome |
| `ScrapeWiki.ScrapeElements` | docs/code/scrape_wiki.py:25-42 | the indexed loop with its appends and early aborts computes exactly `Scrape` |
| `Execute.Registered` | execute.py:85-93 | one already-saved file per output name, in the same order, each with the name, the docs and site directories and the directory-URL setting |
| `Execute.RegisteredAppend` | execute.py:85-93 | registering two name lists one after the other registers their concatenation |
| `Execute.Plugin.constructor` | execute.py:53-54 | a new plugin has an empty output map |
| `Execute.Plugin.OnPageReadSource` | execute.py:56-81 | afterwards the page's entry is its output-name list, overwriting any earlier entry; no other key is added and no other entry changes; the rendered markdown is returned |
| `Execute.Plugin.OnPageMarkdown` | execute.py:83-93 | without an entry for the page it fails and changes nothing; otherwise it removes exactly that entry, appends exactly the registered files for the recorded names after the existing ones (nothing for zero names), and returns None, so the host keeps the markdown |
| `Execute.ProcessPage` | execute.py:56-93 | the read hook followed by the markdown hook leaves the map as before minus the page and extends the files by exactly the page's outputs |
| `Execute.Files.Append` | execute.py:86 | the host's collection gains the one file at its end |

## Left out

- The wikitables fetch and the destructuring of exactly one table
  (`docs/code/scrape_wiki.py:22`): network I/O through a foreign library. The
  model starts from the rows.
- The JSON serialisation of the records and the write of `elements.json`
  (`docs/code/scrape_wiki.py:44`): file I/O and library formatting.
- `float()` on the value token (`docs/code/scrape_wiki.py:33`): no float
  semantics are modelled. The record keeps the token, so a token `float()`
  rejects is not an error here. A value cell holding anything other than a
  parsed float or text is not modelled either.
- `PyStr.ParseInt`: Python's `int()` also accepts non-ASCII decimal digits and
  surrounding whitespace; the model accepts only ASCII digits, and a token of
  `str.split()` holds no whitespace anyway. The limit of 4300 digits that
  Python 3.11 and later put on `int()` of a string is not modelled: there a
  longer literal raises ValueError, while the model parses it.
- The `src_path` of the page is left out of `Execute.Page`: it only feeds the
  `unique_key` of the export resources (`execute.py:65`), which is not modelled.
- The row lookups `row['']` and `['J/(mol·K)']` are assumed to succeed, and the
  caption to be text.
- The notebook read, execution and export, the `FilesWriter` output, and the
  reading and deletion of `out.md` (`execute.py:61-79`): foreign calls and
  filesystem effects. Their results are the `outputs` and `rendered`
  parameters of `OnPageReadSource`.
- Setting `PLOTLY_RENDERER` (`execute.py:59`): global process state.
- The exporter and output-extractor configuration (`execute.py:12-16, 24-49`):
  library configuration, not behaviour.
- `AlreadySavedFile.copy_file` doing nothing (`execute.py:19-21`): a host
  framework override. A registered file is modelled only as the record of its
  name, directories and URL setting.
- `pr-preview/pr-2/code/common.py`: plotting-library configuration and float
  arithmetic on plot objects.
- Concurrent invocation of the hooks: the plugin assumes pages are processed
  one at a time, and the model's methods run sequentially.
