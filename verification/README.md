# Resumable school-page scraper, modelled in Dafny

The scraper reads a register of schools from `schools_register<D>.pkl`. It
keeps the entries that can be scraped and have not been scraped yet, and
opens each school's page on `https://bus.gov.ru`. It polls for the
"other information" panel, parses identifiers, director, parent
authority, subsidies and staff tables out of it, and appends the school
merged with those fields to `schools_results<D>.pkl`. The file is
rewritten after every append, so a later run resumes where an earlier one
stopped. A companion script (`scrape_school_details.py`) repeats the
selection logic to list the schools' details pages.

The model covers the decision logic of both scripts:

| module | file | what it models |
|---|---|---|
| `Records` | records.dfy | records as string-keyed maps, the exceptions that can escape |
| `Text` | text.dfy | `str.strip()`, `str.replace`, the cell cleanup, NFKD and `\d`/`\w` as parameters |
| `FileNames` | filenames.dfy | `get_infile_name`, `get_outfile_name`, the `REGS_FILE`/`RESULTS_FILE` pair |
| `Selection` | selection.dfy | `filter_schools`, `filter_new`, the composition in `load_schools` |
| `Retry` | retry.dfy | `get_url` and the info-panel polling loop, over scripted outcomes |
| `Parsers` | parsers.dfy | `parse_inns`, `parse_director`, `parse_authority`, `parse_subsidies`, `parse_staff`, `parse_info` |
| `Scraper` | scraper.dfy | the `__main__` loop of the scraper: open, poll, parse, merge, append |
| `Details` | details.dfy | `load_schools` of the details script as written |

Modelling choices:

- **Records.** A record is a `map<string, Value>`. `{**a, **b}` is `a + b` in Dafny, where the right operand wins.
- **Hashing.** The filters use `main_url` values as dict keys. A string or a scalar can be a key; a list or a dict raises `TypeError: unhashable type`, which is `Error.Unhashable` here.
- **Errors.** Every Python exception that can escape becomes `Failure(Error)`.
- **Unicode as parameters.** `unicodedata.normalize('NFKD', ·)` and the regular-expression classes `\d` and `\w` are fields of a `Unicode` parameter. Nothing is assumed about them.
- **Whitespace is concrete.** It is the set CPython's `str.isspace` accepts, used by both `strip()` and `\s`.
- **The HTML document is pre-extracted data.** It becomes a `Document`:
  - every `<div>` as its `.string` paired with the `.string` of `div.parent.contents[1]`, its "value slot";
  - every `mat-table` as its rows of `mat-cell` strings;
  - whether an `app-other-information-tab` exists.
- **The browser is a script.** Each school has a `Visit`: the outcome of each navigation attempt (`true` = `driver.get` returned), and the answer of each panel poll (not shown yet / shown with its document / raised).
- **The main loop's parser is a parameter.** `Run` takes any parser that only adds keys among the parsed ones and never raises the `main_url` `KeyError`. `Scrape` instantiates it with `ParseInfo`, and `Scraper.ParseInfoParsesFields` proves that `ParseInfo` qualifies.

Behaviour modelled as the code has it:

- **Repeated captions are last-wins.** `Parsers.LastPut` is the reference definition of this, scanning from the end.
- **No tables: bare column map.** With no `mat-table`, `parse_subsidies` and `parse_staff` return their column map unwrapped. `year` then comes from both, and the staff one wins.
- **One table: `parse_staff` fails.** It reads `tabs[1]`.
- **`get_url` gives up silently** after its attempts.
- **The loop opens `main_url`,** not `details_url`.
- **A `NoSuchWindowException` ends the loop for good.** The handler starts a new browser but does not resume. Any other exception escapes. `Halt.Stopped` covers both, and the results written so far stay written.
- **Python's `$` accepts a final newline.** So `re.match(r"^schools_register(\d+)\.pkl$", name)` also accepts `"schools_register1.pkl\n"`. The identifier pattern of `parse_inns` only ever sees stripped text, so `Parsers.IdMatch` requires text that does not end in whitespace.

## Model

| member | source | states |
|---|---|---|
| FileNames.RegisterDigits | scrape_school.py:17 | the pattern matches only `schools_register` + non-empty digits + `.pkl`, optionally followed by one newline, and yields those digits |
| FileNames.RegisterNameMatches | scrape_school.py:21 | converse: every such name matches and yields its own digits |
| FileNames.GetOutfileName | scrape_school.py:20-24 | raises exactly for names the pattern rejects, with that name in the error; a result never equals its input |
| FileNames.OutfileOfRegister | scrape_school.py:20-24 | `schools_register<D>.pkl` is rewritten to `schools_results<D>.pkl` for every non-empty digit string `D` |
| FileNames.GetInfileName | scrape_school.py:14-18 | nothing exactly when no listed name matches; otherwise the first listed name that matches |
| FileNames.StorageKeys | scrape_school.py:28-29 | fails exactly when no register file is listed; otherwise a listed register file paired with the results file of the same digits |
| Retry.GetUrl | scrape_school.py:102-110 | at most `retries` attempts; the page loads iff one of the first `retries` attempts succeeds, and then the last attempt is the first success; otherwise all `retries` attempts are made |
| Retry.GetUrlGivesUpSilently | scrape_school.py:102-110 | when every attempt fails, `get_url` returns after exactly `retries` attempts with the page not loaded, and raises nothing |
| Retry.PollInfo | scrape_school.py:267-274 | the panel is absent iff every one of the first `RETRIES_INFO` polls says not shown; a found panel or a crash is decided by the first poll that says anything else |
| Selection.FilterSchools | scrape_school.py:55-67 | raises `TypeError` exactly when a record with both URLs has a list or dict `main_url`; otherwise every kept record has both URLs, and no two kept records share a `main_url` |
| Selection.FilterSchoolsKeepsFirstEligible | scrape_school.py:55-67 | the output is the input restricted to the first eligible record of every `main_url`, in input order |
| Selection.FilterSchoolsIdempotent | scrape_school.py:55-67 | when filtering succeeds, filtering its output again changes nothing |
| Selection.SavedUrls | scrape_school.py:75-77 | the set of saved `main_url` values; fails exactly when some saved record has no hashable `main_url`, and then the first such record decides: `KeyError` without `main_url`, `TypeError` for a list or dict |
| Selection.FilterNew | scrape_school.py:70-82 | succeeds exactly when every saved record has a hashable `main_url` and no entry has a list or dict `main_url`; a saved record's error comes first; no kept record has a saved `main_url` |
| Selection.FilterNewKeepsUnsaved | scrape_school.py:78-82 | the output is exactly the input records that have a `main_url` no saved record has, in order |
| Selection.LoadSchools | scrape_school.py:96-97 | the composition succeeds exactly when every register record with both URLs has a hashable `main_url` and every saved record has one; a register `TypeError` comes before the saved records' errors; its output is eligible, hashable, unsaved and free of duplicate `main_url` values |
| Selection.LoadSchoolsSelects | scrape_school.py:96-97 | the composition keeps, in register order, exactly the first eligible record of each `main_url` that is not saved |
| Text.Strip | scrape_school.py:161 | `strip()` removes exactly the leading and trailing whitespace: a slice of the input with non-space ends, and only whitespace around it |
| Text.Tidy | scrape_school.py:207 | a cleaned cell contains neither a space nor a comma |
| Text.TidyIdempotent | scrape_school.py:207 | cleaning a cleaned cell changes nothing |
| Text.TidyGroupedDecimal | scrape_school.py:207 | `"1 234,56"` is cleaned to `"1234.56"` |
| Parsers.LastPut | scrape_school.py:163 | the value of the last write of a key, and no later write of that key |
| Parsers.Apply | scrape_school.py:158-164 | a loop of dictionary writes succeeds iff nothing raises; each key then holds its last written value, or its value before the loop |
| Parsers.IdMatch | scrape_school.py:161-162 | on stripped text (the only text line 162 receives), a match is a caption `ИНН`, `КПП` or `ОГРН` at the start, whitespace, then a word token to the end; the key is the caption's Latin name |
| Parsers.IdMatchLabelled | scrape_school.py:162 | converse: caption, whitespace and a word token always match, and the token is returned |
| Parsers.ParseInns | scrape_school.py:153-164 | only the keys `INN`, `KPP`, `OGRN`; a key is present iff the normalised, stripped text of some `<div>` matches its caption, whitespace and a word token to the end; its value is the non-empty word token of the last such `<div>` |
| Parsers.ParseDirector | scrape_school.py:167-178 | only the key `director`; present iff some `<div>` text is `Директор` after normalising and stripping, holding the value slot of the last such `<div>`; a labelled `<div>` without a value slot raises |
| Parsers.ParseAuthority | scrape_school.py:181-192 | only the key `authority`; present iff some `<div>` text is `Вышестоящая организация` after normalising and stripping, holding the value slot of the last such `<div>`; a labelled `<div>` without a value slot raises |
| Parsers.LabelLookup | scrape_school.py:167-192 | the key is present iff some `<div>` text equals the caption after normalising and stripping; it holds the value slot of the last such `<div>`; a labelled `<div>` without a value slot raises |
| Parsers.TableCells | scrape_school.py:204-208 | succeeds iff every row has the needed cells; the cell strings of each row, row by row |
| Parsers.ColumnsFilled | scrape_school.py:204-208 | each column holds cell `c` of every row, cleaned, in row order, as many entries as rows |
| Parsers.ParseSubsidies | scrape_school.py:195-209 | no table: the bare `year`/`subsidy` map with empty lists; otherwise `subsidies` holds the first table's cleaned columns, one entry per row; only a missing cell raises |
| Parsers.ParseStaff | scrape_school.py:212-226 | no table: the bare `year`/`employees`/`mean_salary` map with empty lists; exactly one table raises; otherwise `staff` holds the second table's cleaned columns |
| Parsers.ParseInfo | scrape_school.py:229-240 | raises without the information tab and with exactly one table; succeeds iff every part succeeds; the keys are exactly the union of the five parts' keys; identifier keys come from `parse_inns`; director, authority and staff survive the merge, and so does every subsidies key the staff result does not override |
| Parsers.TableUnder | scrape_school.py:204-209 | a table parser succeeds iff every row has the needed cells; its result is the single key holding a table whose columns are filled from the rows; otherwise a missing cell raises |
| Parsers.MergedParts | scrape_school.py:233-239 | the merge order keeps every key of every part, and each part's value wins unless a later part has the same key; only `year` is shared, between subsidies and staff, and staff wins |
| Scraper.Process | scrape_school.py:264-280 | without `main_url` the loop stops with a `KeyError` before opening anything; otherwise the school's `main_url` page is opened, then: a panel that never shows up continues with nothing appended; a poll that raises quits with `PanelWaitFailed`; a panel that parses continues with `{**school, **res}` appended; a parse error quits with that error |
| Scraper.Run | scrape_school.py:263-287 | the pages of a prefix of the schools are opened in order at their `main_url`; the results are the saved list followed by what each opened page yields, in order; every opened page passes except a last one that crashed or failed to parse, whose error stops the loop; the loop finishes only after the last school, and a `KeyError` stop means the next school has no `main_url` |
| Scraper.RunAppends | scrape_school.py:277-279 | the saved list stays in front, at most one record is appended per opened page, and each appended record is an opened school merged with parsed fields |
| Scraper.RunStopsAtFirstFailure | scrape_school.py:267-287 | when the schools before `i` pass and school `i` crashes or fails to parse with `e`, the loop stops with `e` after exactly `i + 1` pages, having appended what the earlier pages yielded |
| Scraper.RunIgnoresNavigation | scrape_school.py:102-110 | for the same poll answers, whether navigation succeeds changes neither the results nor how the loop ends |
| Scraper.RunPanelNeverShown | scrape_school.py:273-274 | if the panel never shows up, nothing is appended and the loop runs to its end |
| Scraper.RunAllParsed | scrape_school.py:267-279 | if every panel shows up within `RETRIES_INFO` polls and parses, the results are the saved list followed by every school merged with its parsed fields, in order, and the loop runs to its end |
| Scraper.RunKeepsMainUrlsDistinct | scrape_school.py:263-281 | if the schools have distinct `main_url` values that no saved record has, the results never hold two records with the same `main_url` |
| Scraper.Scrape | scrape_school.py:253-281 | fails exactly when `load_schools` does, with its `TypeError` or `KeyError`; otherwise the outcome is the main loop's outcome over the schools `load_schools` selects; the results extend the saved list; every appended record carries a hashable `main_url` that was not saved; distinct saved `main_url` values stay distinct |
| Scraper.RunAppendsUnsaved | scrape_school.py:277-281 | when no selected school has a saved `main_url`, every appended record carries the `main_url` of a visited school and so none that was saved |
| Scraper.RunAppendsHashable | scrape_school.py:277-281 | when the saved records and the schools have hashable `main_url` values, so does every record of the results |
| Scraper.ScrapeResumes | scrape_school.py:86-99 | reloading the register against the new results selects none of the schools already recorded |
| Details.LoadSchoolsAsWritten | scrape_school_details.py:75-88 | as written, `load_schools` always raises `NameError` on `fname` |
| Details.LoadSchoolsAsWrittenNeverLoads | scrape_school_details.py:84 | whenever the filter composition succeeds (every `main_url` it looks up is hashable), the function as written returns something else |
| Details.EmptyRegisterWitness | scrape_school_details.py:84 | for an empty register and no saved results the intended result is the empty list, the written one a `NameError` |

The details script's `get_infile_name` (scrape_school_details.py:14-18) and
`get_outfile_name` (scrape_school_details.py:20-24) are the same code as the
scraper's. So are its `filter_schools` (scrape_school_details.py:44-56),
`filter_new` (scrape_school_details.py:59-71) and `get_url`
(scrape_school_details.py:90-98). The rows of `FileNames`, `Selection` and
`Retry` above model both copies.

## Left out

- Selenium is left out: `init_driver`, `WebDriverWait`, `find_elements_by_xpath`, the clicks and `driver.quit`. Navigation and panel polling are scripted outcomes.
- `open_page` waits 60 seconds for the tab labels, inside a `try` whose `finally` returns. The wait can therefore never raise and carries no logic.
- `time.sleep` pauses are wall-clock only.
- Pickle, `os.listdir`, `dump_soup` and `print` are I/O. The directory listing, the register and the saved results are inputs.
- The main block loads the saved results twice, once inside `load_schools` and once itself. Both read the same file, so `Scrape` uses one list for both.
- BeautifulSoup internals are replaced by the pre-extracted `Document`.
- NFKD and the `\d`/`\w` classes are left uninterpreted, as parameters.
- Register values come in four shapes: a string, a list of strings, a dict of string lists, or a scalar. Lists and dicts of other contents are not represented. Python's hashing rejects every list and every dict alike, so this does not change which calls raise `TypeError`.
- `Scraper.Run`: a `NoSuchWindowException` and every other exception from the poll both end in `Stopped(PanelWaitFailed)`. The model does not keep what tells them apart: the message printed, the restart of a browser that is never used, and the exit status. The handler catches a `NoSuchWindowException`, so the script then ends normally; any other exception escapes and the script ends with an error status.
- `Scraper.Run`: the page address is recorded as the `main_url` value. The address string `f"{BASE_URL}/{main_url}"` is not formed; it carries no logic beyond the value.
- `Scraper.RunIgnoresNavigation`: holds for the same poll answers only. In the program a failed `get_url` leaves the previous page loaded, which can change what the polls see; the browser state behind the poll answers is not modelled.
- `Scraper.Run`: the results file content is the results list after each append. The file writes themselves are not modelled.
- The details script's `__main__` only prints the details URLs of the first two schools. That is I/O.

## Findings

| source | as written | input that shows it | evidently intended | confidence | as-written member | corrected member |
|---|---|---|---|---|---|---|
| scrape_school_details.py:84 | the progress message interpolates `fname`, which is not defined in `load_schools` (its parameter is `register_fname`) nor at module level, so the function raises `NameError` before filtering | any call, e.g. an empty register and no saved results | interpolate `register_fname` and return `filter_new(filter_schools(register), saved)` | high; not executed | Details.LoadSchoolsAsWrittenNeverLoads | Selection.LoadSchools |
