# Release-notes digest, modelled in Dafny

This project models the digest pipeline of `ReleaseNotesAutomator` (`main.py`).

1. It picks the repositories of an organisation that carry the `core-team` topic.
2. From each one it keeps the releases made inside a `[start, end]` date window that are not dependency bumps (their body holds no `**deps:**`).
3. It tags each kept release with the name of its repository.
4. It sorts the releases newest first.
5. It renders one row per release:
   - a remote run appends a Markdown table row to `notes`, after a fixed header;
   - a local run collects an HTML `<tr>` block per release and substitutes the blocks, joined by newlines, into the page template.

Each release body is normalised before it goes into its row:

- a leading date stamp such as `(2023-10-27) ` is cut off;
- the rest is converted by the Markdown library;
- every whitespace run in the result is collapsed to one space.

Modules, in dependency order:

- `Wrappers`: `Option` and `Result`.
- `Text`: the parts of Python's `str` the pipeline relies on.
  - `str.isspace`, `in`, `split(sep)`, `split()`, `join` and `strip`.
  - Lemmas about these: split/join round trips, the last piece of a split, and collapse idempotence.
- `Dates`: instants in UTC and their order.
  - `strptime(s, '%d-%m-%Y')` returns a `Result` whose failure is `ValueError`.
  - `strftime` with `'%d-%m-%Y'` and with `'%d-%m-%Y %H:%M'`.
- `Releases`: repositories and listed releases.
  - The `core-team` filter and the window/deps filter.
  - The gathered, tagged releases, with soundness and completeness lemmas.
- `Ordering`: `sorted(..., key=created_at, reverse=True)` as a stable insertion sort. It is proved to be a newest-first permutation, stable and idempotent, and to be the only stable newest-first permutation.
- `Collector`: `get_relevant_releases` as a method with the source's nested loop.
- `Normalise`: the regular-expression search for the date stamp, `pre_markdown_body` and `get_html_from_markdown`.
- `Render`: `release_url`, the Markdown table (header and rows) and the HTML `<tr>` blocks, with lemmas on the line structure of what is produced.
- `Automator`: the class `ReleaseNotesAutomator`.
  - Fields: the settings, `notes` and `html`.
  - The constructor.
  - `BuildNotes` and the loop it runs.
  - The `AttributeError` that `build_notes` raises as written in a remote run.

The Markdown library is a parameter `md: string -> string`, taken as given. The hosting API's listings are given sequences of `Repo` values.

Where the two differ, the model follows the code:

- For `pre_markdown_body` with a stamp, the result is the last piece of `body.split(stamp_text)`, stripped. When the stamp text occurs again later in the body, that is not "everything after the match".
- Without a stamp, the body is returned as it is. It comes in already stripped, because `build_notes` strips it first.
- The window bounds parse to midnight. A release made on the end day after midnight is outside the window; `Releases.EndDayAfterMidnightExcluded` states this.

## Model

| member | source | states |
|---|---|---|
| Releases.CoreRepos | main.py:57-62 | a repository is kept iff it is listed and its topics contain "core-team" |
| Releases.CoreReposAppend | main.py:57-62 | the filter keeps listing order: filtering a concatenation filters each part |
| Releases.KeptReleases | main.py:64-70 | a release is kept iff it is listed, `start <= created_at <= end` (both bounds inclusive) and its body does not contain "**deps:**"; never more releases than listed |
| Releases.KeptReleasesAppend | main.py:64-70 | kept releases stay in listing order: filtering a concatenation filters each part |
| Releases.Tag | main.py:77-78 | no contract of its own: the release with `repo` set to the repository's name and its other fields as listed; `GatheredSound` and `GatheredComplete` state what the tagging gives |
| Releases.TagAll | main.py:77-78 | tags every release of one repository, in listing order: the result has as many releases, each the tagged release at the same position |
| Releases.Gathered | main.py:72-80 | every gathered release lies inside the window and is no dependency bump |
| Releases.GatheredSound | main.py:72-80 | every gathered release is a listed release of a core repository whose name it carries |
| Releases.GatheredComplete | main.py:72-80 | every kept release of every core repository is gathered, tagged with that repository's name |
| Releases.GatheredAppend | main.py:72-80 | the aggregate is the concatenation, in repository order, of each repository's tagged kept releases |
| Releases.EndDayAfterMidnightExcluded | main.py:64-70 | with the end bound parsed to midnight, a release later on the end day is outside the window |
| Collector.RelevantReleases | main.py:72-80 | the nested loop returns the gathered releases of the core repositories, sorted newest first |
| Ordering.SortByDate | main.py:143-144 | the result is a permutation of the input and no release is older than one after it |
| Ordering.SortStable | main.py:143-144 | releases made at the same instant keep their input order |
| Ordering.SortIdempotent | main.py:143-144 | sorting twice gives the same result as sorting once |
| Ordering.SortByDateCharacterised | main.py:143-144 | any stable newest-first permutation of the input equals the sort's result |
| Normalise.Search | main.py:137 | `re.search` finds the leftmost position where the stamp pattern matches, with its greedy whitespace tail; no match means no position of the text fits the pattern |
| Normalise.SearchFrom | main.py:137 | the search returns the leftmost position where the stamp pattern matches, with the greedy whitespace tail, or none when there is no match |
| Normalise.PreMarkdownBody | main.py:135-140 | without a match the body is returned unchanged; with one the result starts and ends with non-whitespace |
| Normalise.PreMarkdownBodyCutsAfterStamp | main.py:137-138 | with a match, the result is the stripped text after the last occurrence of the matched text that the left-to-right split consumes; that cut lies after the stamp, and no whole occurrence lies in the text after it |
| Normalise.PreMarkdownBodyExample | main.py:135-140 | "(2023-10-27) Fixed a bug" gives "Fixed a bug" |
| Normalise.PreMarkdownBodyNoStamp | main.py:139-140 | "No date here" is returned unchanged |
| Normalise.HtmlFromMarkdown | main.py:102-107 | the empty body gives ""; any result has no whitespace but single spaces between other characters, none at either end |
| Normalise.HtmlFromMarkdownStable | main.py:105-106 | the conversion keeps every non-whitespace character of the Markdown output in order, keeps its words (so each whitespace run between words becomes one space), and collapsing it again changes nothing |
| Text.Collapse | main.py:106 | `' '.join(s.split())` is collapsed and leaves whitespace-free text alone |
| Text.Words | main.py:106 | `str.split()` gives non-empty pieces holding no whitespace; `WordsOfJoin` and `CollapseWords` relate it to the join |
| Text.CollapseIdempotent | main.py:106 | collapsing twice equals collapsing once |
| Text.CollapseKeepsText | main.py:106 | collapsing keeps every non-whitespace character, in order |
| Text.CollapseWords | main.py:106 | the collapsed text splits at whitespace into the same words as the input: each whitespace run between two words becomes exactly one space |
| Text.Split | main.py:138 | `s.split(sep)` gives at least one piece and no piece contains `sep` |
| Text.SplitJoinRoundTrip | main.py:138 | joining the pieces of a split with the separator gives the text back |
| Text.SplitLastPiece | main.py:138 | the last piece of a split is the text after the last separator the split consumed |
| Text.Strip | main.py:87 | `strip()` is a slice of the text with only whitespace cut on either side, and it neither starts nor ends with whitespace |
| Dates.ParseDate | main.py:46-53 | `strptime(s, '%d-%m-%Y')` succeeds only on ten characters whose two-digit day, two-digit month and four-digit year are the instant's, at midnight; with `ParseFormatRoundTrip` and `FormatParseRoundTrip` it succeeds exactly on `FormatDate` of a midnight instant |
| Dates.FormatDate | main.py:83-84 | `strftime('%d-%m-%Y')` gives ten characters: the day in two digits, `-`, the month in two digits, `-`, the year in four digits |
| Dates.ParseFormatRoundTrip | main.py:46-53 | parsing a date formatted with '%d-%m-%Y' gives that day at midnight |
| Dates.FormatParseRoundTrip | main.py:46-53 | a string that parses is exactly the formatting of the instant it parses to, which is at midnight |
| Dates.FormatDateTime | main.py:93 | '%d-%m-%Y %H:%M' gives 16 characters on one line: the '%d-%m-%Y' date, a space, the hour in two digits, a colon and the minute in two digits |
| Dates.FormatDateTimeDeterminesMinute | main.py:93 | two instants written alike fall on the same day, hour and minute |
| Render.ReleaseUrlInjective | main.py:109-110 | on one host and organisation, a release link determines the repository and the tag |
| Render.ReleaseUrl | main.py:109-110 | no contract of its own: the link of a release on the host; `ReleaseUrlInjective` shows it determines the repository and the tag |
| Render.Details | main.py:87 | a blank body gives an empty cell, and no cell holds a newline |
| Render.MarkdownLine | main.py:97-99 | no contract of its own: the cells of one table row; `MarkdownLineIsOneLine` shows it is one line, and `MarkdownTableLines` places it in the notes |
| Render.MarkdownRow | main.py:97-99 | no contract of its own: the line of one release ended by a newline; `MarkdownRowsAppend` shows each release appends exactly this row |
| Render.MarkdownRowsAppend | main.py:96-99 | one more release appends exactly its row to the Markdown rows |
| Render.MarkdownTableLines | main.py:96-99 | the remote notes (the header of main.py:36, then the rows) split at newlines are the two header lines, one line per release in order, then nothing |
| Render.HtmlRowsAppend | main.py:88-95 | one more release appends exactly its `<tr>` block to the collected blocks |
| Render.HtmlLines | main.py:89-95 | the `<tr>` block of one release has seven lines; `HtmlLinesAreLines` shows none of them holds a newline |
| Render.HtmlRow | main.py:89-95 | no contract of its own: the seven lines of the block joined by newlines; `HtmlRowsAppend` and `HtmlContentLines` state its place in the page |
| Render.HtmlContentLines | main.py:88-100 | the page content is empty for no release; otherwise, split at newlines, it is the lines of the blocks in release order |
| Render.HtmlLineCount | main.py:88-95 | each release contributes seven lines of content |
| Automator.ReleaseNotesAutomator.constructor | main.py:26-36 | the settings are recorded, `html` is the template in a local run only, and `notes` is the table header |
| Automator.ReleaseNotesAutomator.AddRow | main.py:86-99 | a remote run appends the release's Markdown row to `notes`; a local run appends its `<tr>` block to `rows` and leaves `notes` alone |
| Automator.ReleaseNotesAutomator.AddRows | main.py:85-99 | after the loop, a remote run's `notes` is the old notes followed by the rows of the releases in order, and a local run's `rows` are their blocks |
| Automator.ReleaseNotesAutomator.BuildNotes | main.py:82-100 | a bound that fails to parse raises `ValueError` (the start first) and changes nothing; otherwise the notes or the page hold exactly the rows of the sorted relevant releases, and a remote run keeps `html` |
| Automator.Fill | main.py:100 | no contract of its own: `format(content=...)` puts the content between the page's prefix and suffix; `BuildNotes` states the page it gives |
| Automator.FormatHtmlAsWritten | main.py:100 | the final `self.html.format(...)` raises `AttributeError` exactly when `html` was never set |
| Automator.RemoteRunCrashesAsWritten | main.py:100 | as written, every remote run raises `AttributeError` at the end of `build_notes` |

## Left out

- Traffic with the hosting API is left out: the client, listing repositories and releases, reading and updating `README.md` remotely, closing the connection (main.py:38-44, 60, 67, 112-123). Repositories and releases are given sequences.
- `push_commit` is left out. It only performs I/O: a remote commit, or local writes of `README.md` and `README.html`.
- Also left out: the `print` calls, `load_dotenv`/`os.getenv`, `github_endpoint_api`, `repo_to_update` and the module-level instantiation with fixed arguments.
- `markdown.markdown` is a foreign library. It is a parameter `md`, and only the whitespace collapse around it is proved.
- The default-window branches (main.py:49, 54) are left out. They return a method object and a `date`, so the comparison at main.py:68 would fail. `BuildNotes` requires both date strings to be non-empty.
- `strptime` leniency is left out: unpadded fields, and digits outside ASCII. Timezones are left out too, since everything is UTC. Sub-second precision is left out: instants are to the second.
- Normalise.SearchFrom: the `\d` of the date-stamp pattern matches ASCII digits only. In a Python `str` pattern, `\d` matches any Unicode decimal digit, so a stamp written in other scripts' digits (such as Arabic-Indic digits) is not cut off by this model. The Unicode digit table is not part of this model.
- A `None` release body is left out. Bodies are strings.
- `html_template.py` is a `Template` of a prefix and a suffix around the `{content}` hole, with its doubled braces already undone. The CSS text itself is not part of this model.
- `Collector.RelevantReleases`: the in-place `release.repo = repo.name` is modelled by building a tagged `Release` value, so aliasing of the API's release objects is not captured.
- `Automator.ReleaseNotesAutomator.AddRows`: the body of the loop of `build_notes` is the method `AddRow`, and the loop is this method. The final page fill stays in `BuildNotes`.

## Findings

| source | as written | input that shows it | evidently intended | confidence | as-written member | corrected member |
|---|---|---|---|---|---|---|
| main.py:100 (with main.py:33-34) | `self.html` is set only when `local_run` is true, yet `build_notes` formats it unconditionally | `local_run=False`: `self.html.format(...)` raises `AttributeError`, so the notes built are never pushed | only a local run fills the HTML page; a remote run keeps its notes and goes on to push them | high; not executed | Automator.RemoteRunCrashesAsWritten | Automator.ReleaseNotesAutomator.BuildNotes |
