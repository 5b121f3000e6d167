# gh_status core, modelled in Dafny

gh_status takes a snapshot of a GitHub user's public footprint. It produces three documents:

- an **inventory** of public repositories, newest push first. The three most recently pushed ("hot") repositories also get their README, CHANGELOG and latest-commit file list.
- a **TODO list**: for each repository, the TODO lines of its first non-empty TODO file and a short synopsis from its README.
- an **activity feed** over a window of days: a summary count per event type, insights (streak of consecutive active days, busiest local day, top repositories and top event types), and one display record per event.

This project models the builders of those documents (`gh_status/builder.py`) and the client-side rules of the GitHub API client (`gh_status/github_client.py`):

- pagination;
- the archived filter and the push-time ordering;
- the 404 and error handling of file fetches;
- the blob filter over a commit tree;
- the open/closed life cycle of the client.

Modules, one file each:

| file | module | what it holds |
|---|---|---|
| `wrappers.dfy` | `Wrappers` | `Option` and `Result` |
| `text.dfy` | `Text` | `str.strip`, `str.splitlines`, `str.startswith("#")`, `str(int)` |
| `sorting.dfy` | `Sorting` | Python's stable `sorted(..., reverse=True)` by key, and slicing `[:n]` |
| `counting.dfy` | `Counting` | `collections.Counter` (an insertion-ordered list of key/count pairs), `most_common` |
| `schemas.dfy` | `Schemas` | the snapshot records; `Repo` is a class because `build_inventory` fills its detail fields in place |
| `client.dfy` | `Client` | the API as an oracle, pagination, `GitHubClient` |
| `inventory.dfy` | `Inventory` | `build_inventory` |
| `todolist.dfy` | `TodoList` | TODO-line normalisation, TODO parsing, synopsis, `build_todos` |
| `activity.dfy` | `Activity` | the window filter, counters, streak, event records, `build_activity` |

The remote API is an immutable value `Api`:

- each list endpoint (repositories, events) is a sequence of pages, each with a status, items and a `next` flag;
- file, commit-list and tree requests are functions from their arguments to a response.

`GitHubClient` holds that oracle and one mutable field, `open`, which stands for `self.client is not None`. Every fetch on a closed client returns `Failure(Closed)`, the model of the `RuntimeError`.

Two things the source takes from the environment are parameters:

- "now" is an integer number of seconds;
- the timezone conversion is a supplied function from a UTC timestamp to a local day number.

Loops the source runs are methods with loop invariants, proved equal to a specification function. The properties are proved about that function.

## Model

| member | source | states |
|---|---|---|
| Text.Strip | gh_status/builder.py:26 | `strip()` leaves no blank at either end, is a head of `lstrip()` and a tail of `rstrip()`, is empty exactly for a blank string, and otherwise runs from the first non-blank through the last |
| Text.StripIdempotent | gh_status/builder.py:26 | stripping twice is stripping once |
| Text.SplitLinesNoNewline | gh_status/builder.py:32 | no line produced by `splitlines()` contains a newline |
| Text.TerminateSplitLines | gh_status/builder.py:32 | joining the lines back with newlines gives the original text, plus a final newline if it lacked one |
| Text.SplitLinesTerminate | gh_status/builder.py:32 | newline-free lines, joined and split again, come back unchanged |
| Text.LStripBlankThen | gh_status/builder.py:25 | `lstrip` removes exactly the leading blanks in front of a text that starts with a non-blank |
| Text.RStripThenBlank | gh_status/builder.py:26 | `rstrip` removes exactly the trailing blanks after a text that ends with a non-blank |
| Text.IntToString | gh_status/builder.py:190 | `str(n)` is an optional `-` and decimal digits, starts with `-` exactly when `n` is negative, reads back as `n`, and has no leading zero, so `0` gives exactly `"0"` |
| Text.NatToString | gh_status/builder.py:190 | the digits of a non-negative `n` read back as `n`, and only `0` itself starts with `0` |
| TodoList.DropListMarker | gh_status/builder.py:25 | the substitution leaves a tail of the line; with a `-`/`*` marker that tail is shorter than the line without its leading blanks; without one the line is untouched |
| TodoList.MarkerShape | gh_status/builder.py:25 | every line with a marker splits into leading blanks, the marker, blanks, an optional checkbox, blanks and a rest that opens with no blank (and with no checkbox when none was taken); the substitution leaves exactly that rest |
| TodoList.NormalizeTodoLineSpec | gh_status/builder.py:22-26 | a normalised line is trimmed and is a tail of the line without its trailing blanks, so nothing is truncated; an unmarked line is only trimmed; a marked line gets strictly shorter than the trimmed line |
| TodoList.DropCheckboxItem | gh_status/builder.py:25 | leading blanks, marker, blanks, `[ ]`/`[x]`/`[X]` and blanks in front of a text are exactly what the substitution removes |
| TodoList.DropPlainItem | gh_status/builder.py:25 | leading blanks, marker and blanks in front of a text that opens with no checkbox are exactly what the substitution removes |
| TodoList.NormalizeCheckboxItem | gh_status/builder.py:22-26 | leading blanks, marker, blanks, checkbox, blanks, a trimmed text and trailing blanks normalise to exactly that text |
| TodoList.NormalizePlainItem | gh_status/builder.py:22-26 | leading blanks, marker, blanks, a trimmed text without a checkbox, and trailing blanks normalise to exactly that text |
| TodoList.NormalizeOpenExample | gh_status/builder.py:22-26 | `- [ ] Fix bug` normalises to `Fix bug` |
| TodoList.NormalizeDoneExample | gh_status/builder.py:22-26 | `* [x]   Done thing  ` normalises to `Done thing` |
| TodoList.NormalizeIndentedExample | gh_status/builder.py:22-26 | the indented sub-item `  - [ ] sub-task` normalises to `sub-task` |
| TodoList.NormalizeIndentedPlainExample | gh_status/builder.py:22-26 | the indented `    * Write docs ` normalises to `Write docs` |
| TodoList.KeptImagesSpec | gh_status/builder.py:32-35 | map-and-filter keeps no more items than lines; a string is kept exactly when the filter accepts it and it is the image of some line |
| TodoList.KeptImagesAppend | gh_status/builder.py:32-35 | map-and-filter of a concatenation is the concatenation of the results, so input order is kept |
| TodoList.KeepImages | gh_status/builder.py:31-36 | the append loop returns exactly the map-and-filter of its lines |
| TodoList.TodoLinesSpec | gh_status/builder.py:29-36 | TODOs are non-empty and trimmed; there are no more of them than lines; a string is a TODO exactly when it is the non-empty normalisation of some line; TODOs of a concatenation come part by part, in order |
| TodoList.ParseTodosFromContent | gh_status/builder.py:29-36 | the parsed TODOs are the TODO lines of the content's lines |
| TodoList.FirstContentSpec | gh_status/builder.py:79-85 | a TODO content is chosen exactly when some candidate file has non-empty content, and it is the first such candidate's content |
| TodoList.FindTodoFile | gh_status/builder.py:73-85 | the filename loop returns that first non-empty content, or fails on a closed client |
| TodoList.SynopsisSpec | gh_status/builder.py:91-98 | at most 5 lines, each trimmed, non-empty, not a heading and the strip of a README line; they are the start of all candidate lines in README order, and there are as many as there are candidates, up to 5 |
| TodoList.TodoItemSpec | gh_status/builder.py:76-98 | a record keeps the repository name; it has TODOs exactly when some candidate file has content; a truthy README on the record is used as is; otherwise there is a synopsis exactly when the fetched README is non-empty |
| TodoList.BuildTodoItem | gh_status/builder.py:76-98 | one loop iteration yields that record, or fails on a closed client |
| TodoList.TodoSourcesStep | gh_status/builder.py:75-76 | one more repository adds its name and README to the sources |
| TodoList.TodoItemsAppend | gh_status/builder.py:100 | one more source appends its TODO record |
| TodoList.TodoItemsAt | gh_status/builder.py:75-100 | the record at each position is the TODO record of the repository at that position |
| TodoList.BuildTodos | gh_status/builder.py:66-106 | one record per inventory repository, in inventory order; fails exactly when the client is closed and there is a repository to look at |
| Inventory.HotNamesSpec | gh_status/builder.py:48 | at most three hot names; a name is hot exactly when one of the first three repositories carries it; in a push-ordered list a non-hot repository was pushed no later than any hot one |
| Inventory.EnrichRepo | gh_status/builder.py:55-57 | the record gets the README, CHANGELOG and recent files the server gives |
| Inventory.EnrichHotRepos | gh_status/builder.py:51-57 | every record with a hot name is enriched; every other record keeps its detail fields |
| Inventory.BuildInventory | gh_status/builder.py:41-63 | fails exactly on a closed client; otherwise the records are fresh and follow the public repository list; a record is enriched when its name is hot and has no details otherwise |
| Client.PaginatedSpec | gh_status/github_client.py:50-65 | pagination returns the items of every page up to the first failing page or the first page without `next`, in fetch order; the stopping page counts only when it succeeded |
| Client.GitHubClient.GetPaginated | gh_status/github_client.py:45-65 | the `while "next"` loop returns exactly that, with no error for a failing page; it fails on a closed client |
| Client.UnarchivedSpec | gh_status/github_client.py:73-90 | no more records than listed repositories; a record is kept exactly when some unarchived repository produces it |
| Client.UnarchivedAppend | gh_status/github_client.py:73-90 | the records of two listings joined are the records of each, joined in listing order |
| Client.UnarchivedOne | gh_status/github_client.py:73-90 | one repository gives its single record when it is not archived and no record when it is |
| Client.ListUnarchived | gh_status/github_client.py:73-90 | the append loop builds exactly the unarchived records in listing order |
| Client.NewRepos | gh_status/github_client.py:77-90 | one fresh record per entry, in order, with no detail fields |
| Client.PublicReposSpec | gh_status/github_client.py:93 | the list holds only unarchived repositories, no more than listed; it is ordered newest push first, a permutation of the unarchived list, and stable among equal push times |
| Client.GitHubClient.GetPublicRepos | gh_status/github_client.py:67-93 | the returned records are the public repository list, fresh and without details; fails on a closed client |
| Client.GitHubClient.GetPublicEvents | gh_status/github_client.py:95-102 | the paginated event list; fails on a closed client |
| Client.GitHubClient.GetFileContent | gh_status/github_client.py:104-125 | the text is returned exactly on a 2xx status; `None` on 404 and on every other failing status; fails on a closed client |
| Client.BlobPathsSpec | gh_status/github_client.py:153 | the blob filter fails (KeyError) exactly when a blob entry has no path; otherwise as many paths as blob entries (`CountBlobs`), and a path is listed exactly when a blob entry carries it |
| Client.BlobPathsAppend | gh_status/github_client.py:153 | the blob filter works piecewise over a concatenation, so paths keep tree order |
| Client.GitHubClient.GetRecentFileChanges | gh_status/github_client.py:127-157 | the blob paths of the latest commit's tree; `None` on a failing status, an empty commit list or a missing key; fails on a closed client |
| Client.GitHubClient.Close | gh_status/github_client.py:159-163 | afterwards the client is closed; closing again changes nothing |
| Client.GitHubClient.constructor | gh_status/github_client.py:20-37 | a new client is open |
| Sorting.SortDescSortedPermutation | gh_status/github_client.py:93 | the sort is ordered largest key first and is a permutation of its input |
| Sorting.SortDescStable | gh_status/github_client.py:93 | among items with the same key the sort keeps input order |
| Sorting.SortDescHead | gh_status/builder.py:139 | the first sorted item has the largest key and comes from the input |
| Sorting.TopSorted | gh_status/builder.py:173-174 | the first `n` of the sort have `min(n, len)` items, are ordered, are a sub-multiset of the input, dominate every item left out, and among equal keys are the earliest ones in input order |
| Sorting.TopTies | gh_status/builder.py:173-174 | when a rank increases along the input, kept items with equal keys are in rank order and an item left out ranks after every kept item with its key |
| Counting.IncrementGet | gh_status/builder.py:137 | `c[k] += 1` raises the count of `k` by one and leaves every other count alone |
| Counting.CountAllSpec | gh_status/builder.py:129-137 | a counter has distinct keys and positive counts; each key's count is its number of occurrences; the keys are exactly the items seen, in order of first occurrence (`FirstIndex`) |
| Counting.CountAllSize | gh_status/builder.py:159 | `len(counter)` is the number of distinct items |
| Counting.MostCommonSpec | gh_status/builder.py:173-174 | `most_common(n)` has `min(n, len)` entries, ordered by count, a sub-multiset of the counter, none outranked by an entry left out; among equal counts it keeps the earliest entries in counter order; it repeats no key |
| Counting.MostCommonTies | gh_status/builder.py:173-174 | in `Counter(ks).most_common(n)` equal counts are in order of first occurrence in `ks`, and an entry left out with a kept entry's count first occurs later |
| Counting.MostCommonKeySpec | gh_status/builder.py:139 | the busiest key is absent exactly for an empty counter; otherwise it has the largest count and is the first key seen with it |
| Activity.InWindowSpec | gh_status/builder.py:123-126 | the window holds exactly the events created at or after its start, no more than fetched, and filtering a concatenation filters each part in order |
| Activity.WindowAsWrittenRaises | gh_status/builder.py:116-126 | as written, the filter fails with a TypeError exactly when there is an event |
| Activity.WindowAsIntended | gh_status/builder.py:123-126 | with an aware window start the filter as written is the integer filter the model uses |
| Activity.SummarizeSpec | gh_status/builder.py:157-168 | `events` counts the window events, `repos` the distinct repository names, each named field the events of its type (comments are issue plus commit comments); the named fields together never exceed `events` |
| Activity.TopEntriesSpec | gh_status/builder.py:173-174 | five entries, or one per distinct name when fewer; each is a name with its number of occurrences, no name twice, from most to least frequent; a name left out occurs no more often than any kept |
| Activity.TopEntriesTies | gh_status/builder.py:173-174 | names with equal counts are listed in order of first appearance, and a name left out with a listed name's count first appears after it |
| Activity.CountLocalDays | gh_status/builder.py:133-137 | the counting loop builds the counter of the window's local days |
| Activity.BusiestDaySpec | gh_status/builder.py:139 | the busiest day is absent exactly when there are no events; otherwise it has events, no day has more, and every other day with as many first appears later |
| Activity.ActiveDaysSpec | gh_status/builder.py:142 | the active days are exactly the days with events, strictly increasing, one per counter entry |
| Activity.TrailingRunSpec | gh_status/builder.py:141-154 | the streak is 0 exactly when there are no days; otherwise it is between 1 and the number of days, its days are one apart, and the day before it is not |
| Activity.Streak | gh_status/builder.py:143-154 | the backward walk computes that run |
| Activity.StreakSpec | gh_status/builder.py:141-154 | over the active days of the local days, the streak is 0 exactly when there are no days and never more than the number of distinct days |
| Activity.SplitOwnerSpec | gh_status/builder.py:180 | owner and short name join back into the full name, and neither holds a slash |
| Activity.SplitOwnerJoin | gh_status/builder.py:180 | any slash-free owner and name joined by a slash split back into themselves |
| Activity.AbbrevSpec | gh_status/builder.py:192 | a commit line is at most 7 sha characters, `: `, and the message up to its first newline |
| Activity.PushTitleSingular | gh_status/builder.py:188-190 | the push title says "commit" exactly when the size is 1 and "commits" otherwise |
| Activity.EventRecordSpec | gh_status/builder.py:179-212 | a record keeps type, time and id; owner and name join to the repository name; only pushes list commits, one abbreviated line per payload commit; push titles are `Pushed {n} commit to {repo}` exactly at size 1 and `Pushed {n} commits to {repo}` otherwise, pull-request titles are `PR {action}: "{title}" on {repo}`, and every other title is `{type} on {repo}`; pull requests link the PR, pushes with a ref the repository's `/tree/{ref}` page, and every other record the repository |
| Activity.BuildEventRecords | gh_status/builder.py:177-212 | the loop builds one record per window event, in window order |
| Activity.InsightsBounds | gh_status/builder.py:139-175 | streak and busiest day are empty exactly when the window is; the streak is at most the number of active days; both top lists have at most five entries |
| Activity.BuildInsights | gh_status/builder.py:129-175 | the counters, streak loop and rankings compute the insights of the window |
| Activity.ActivityForSpec | gh_status/builder.py:109-222 | the feed starts `window_days` before now, has one summary count and one record per window event, and its streak and busiest day are empty exactly when the window is |
| Activity.ActivityForBounds | gh_status/builder.py:170-175 | the feed's streak is at most its number of active days, and its top lists have at most five entries |
| Activity.BuildActivity | gh_status/builder.py:109-222 | fails only on a closed client; otherwise returns the feed of the fetched events |

## Left out

- HTTP transport, hishel caching, request headers, URLs and logging: responses come from the `Api` oracle.
- `gh_status/writers.py`, `gh_status/cli.py` and `gh_status/__main__.py`: serialisation, file output, argument parsing and the time-of-day guard are library and I/O code. They are not part of this model.
- pydantic validation and dumping: `gh_status/schemas.py` is used only for the shape of the records.
- Clock and timezones: `datetime.utcnow()` is the parameter `now`, and `astimezone(...).strftime("%Y-%m-%d")` is the supplied `localDay` function giving a day number. Sorting day numbers matches sorting `YYYY-MM-DD` strings, and "one day apart" is a difference of 1.
- Timestamps are integer seconds, and `at_utc` keeps the parsed timestamp rather than the raw string.
- Whitespace is the ASCII set space, tab, newline, carriage return, vertical tab and form feed, for both `\s` and `str.strip`. `splitlines` splits on `\n` only.
- JSON keys read with `.get(key, default)` are `Option` fields. An explicit `null` is not distinguished from an absent key.
- The truncated-tree warning in `get_recent_file_changes` is logging only.
- Client.GitHubClient.GetPaginated: requires the chain of `next` links to end within the given pages (`ChainEnds`). The server is a finite page list, so an endless chain is not modelled.
- Activity.BuildActivity: requires every window event to be well shaped. That means a repository name with exactly one slash, a non-empty message in every push commit, and an action and a pull request on every pull-request event. The source raises (ValueError, IndexError, KeyError) otherwise, and those exceptions are not modelled.
- TodoList.DropListMarker: its own contract bounds the remaining tail but does not name it. The exact tail for every line with a marker is stated by TodoList.MarkerShape, and for given pieces by TodoList.DropCheckboxItem and TodoList.DropPlainItem.
- The window has only a lower bound, as in the source. Events after `now` are kept.
- Activity.WindowStart: `timedelta(days=n)` is `n * 86400` seconds. The model does not distinguish naive from aware datetimes except in the finding below.

## Findings

| source | as written | input that shows it | evidently intended | confidence | as-written member | corrected member |
|---|---|---|---|---|---|---|
| gh_status/builder.py:116-126 | the window start comes from the naive `datetime.utcnow()` (line 116), while each event time is an aware datetime from `fromisoformat(... "+00:00")` (line 125); comparing them with `>=` raises TypeError | any fetched event list with at least one event | keep the events created at or after the window start, compared as UTC instants | not executed | Activity.WindowAsWrittenRaises | Activity.WindowAsIntended |
