# work_reporter daily report, modelled in Dafny

`daily_report.py` writes a one-day work report from git history. It reads
`WORK_REPORT_DIR` and works out the current git author from `git config`.
It finds every git repository under that directory and asks each one for
the subjects of the author's commits made today. It tags every subject with
its repository and sends the whole list, once, to a chat-completion service.
The reply is printed and saved as `report.md`.

This project models that pipeline as pure functions over explicit inputs:

- `wrappers.dfy`: `Option` and `Result`, standing in for `None` and raised
  exceptions.
- `pytext.dfy`: the Python string operations the script relies on.
  - `str.isspace`, with CPython's full set of whitespace characters.
  - `strip`, `startswith`, and `split` on one separator character.
  - `join`, the partner of `split`.
  - Proved: `split` inverts `join`, and `strip` ignores surrounding
    whitespace and is idempotent.
- `filetree.dfy`: the directory tree as an inductive value.
  - Directories hold sub-directories and files. A file's text may be
    unreadable.
  - Paths are sequences of names below the base directory.
  - They render to the strings `os.walk` produces, via the POSIX
    `os.path.join`.
- `locator.dfy`: `find_git_repos`.
  - A top-down, pre-order walk.
  - `dirs.remove('.git')` is modelled literally: it drops the first entry
    named `.git`.
  - The `.git` file test strips the file's text and looks for `gitdir:`.
  - A read error is swallowed.
  - The walk is proved to find exactly the repositories reachable without
    entering a `.git` directory, each once, with every directory listed
    before the repositories found below it.
  - Properties that depend on names being unique within a directory (true
    of any real filesystem) carry `requires Valid(top)`. The walk itself
    accepts any tree.
- `commits.dfy`: `get_git_user` and the output handling of
  `get_today_commits`.
  - The `git` subprocesses are parameters: `Ok(text)` or `Failed`.
- `orchestrator.dfy`: `generate_daily_report` and `main`.
  - Parameters:
    - the environment;
    - the tree at the report directory;
    - the two `git config` answers;
    - a function giving the `git log` answer for each (repository, author)
      pair;
    - the date;
    - the service, as a function from request to reply.
  - A run records how it ended and each argument the generator was called
    with.
  - It also records the requests that reached the service and what
    `report.md` holds afterwards.

Behaviour worth knowing:

- The collected list has one line `repo:<repo>: commit:<subject>` per
  subject.
  - Repositories appear in discovery order, and each one's subjects in log
    order.
  - Duplicates are kept.
  - Its length is the sum of the per-repository counts.
- The generator is called only when that list is non-empty, exactly once,
  and with the whole list.
- The API key and URL are checked inside `generate_daily_report`, after the
  scan. `main` catches the resulting `ValueError` and reports it.
  - So with the key unset, the repositories are still scanned and the
    generator is still called.
  - No request is sent and nothing is written.
- `get_today_commits` strips the whole `git log` output before splitting
  it. So a final commit with an empty subject is not counted
  (`Commits.TrailingEmptySubjectDropped`), and neither is a first one
  (`Commits.LeadingEmptySubjectDropped`). Leading whitespace of the first
  subject and trailing whitespace of the last are cut off as well.
  `Commits.TodayCommitsRoundTrip` states exactly when the subject list
  survives intact.
- If the service replies with no content, `report.md` is opened for writing
  first, which empties it. The write then raises, and the error is
  reported.

## Model

| member | source | states |
|---|---|---|
| PyText.Strip | daily_report.py:35 | the result is a slice of the input with only whitespace cut from each end, and it neither starts nor ends with whitespace |
| PyText.StripEmpty | daily_report.py:55-56 | a text strips to the empty string exactly when it is all whitespace, so `if log` is false exactly for blank output |
| PyText.StripIgnoresPadding | daily_report.py:35 | extra whitespace around a text does not change what it strips to |
| PyText.StripIdempotent | daily_report.py:55 | stripping twice gives the same as stripping once |
| PyText.Split | daily_report.py:56 | there is at least one piece, no piece contains the separator, and joining the pieces with the separator gives back the input |
| PyText.SplitJoin | daily_report.py:56 | splitting a join of separator-free pieces gives back exactly those pieces |
| PyText.JoinInjective | daily_report.py:56 | two lists of separator-free pieces that join to the same text are equal |
| FileTree.RenderShape | daily_report.py:24 | a path below the base renders as the base, one separator unless the base already ends in one, and the names joined by `/` |
| FileTree.RenderUnderBase | daily_report.py:24 | every directory text the walk yields starts with the base directory's text |
| FileTree.RenderInjective | daily_report.py:24 | distinct paths of proper names render to distinct texts |
| Locator.GitFile | daily_report.py:30-34 | a `.git` file is found exactly when a non-directory entry has that name, and it is one of the directory's files |
| Locator.WalkedSubdirs | daily_report.py:28 | the walk descends only into sub-directories of the current directory |
| Locator.Walk | daily_report.py:24-41 | every recorded path lies at or below the visited directory, and only the first entry can be that directory itself |
| Locator.FindGitRepos | daily_report.py:21-42 | nothing is found when there is no tree; otherwise one text per recorded directory, each starting with the base directory |
| Locator.RecordedIffRepository | daily_report.py:26-38 | a directory is recorded exactly when it has a `.git` sub-directory or a `.git` file whose stripped text starts with `gitdir:` |
| Locator.WalkSound | daily_report.py:24-41 | whatever the walk records is a repository below the starting point, reached without passing through a `.git` directory |
| Locator.WalkComplete | daily_report.py:24-41 | every repository reachable from the starting point without entering a `.git` directory is recorded |
| Locator.WalkFindsExactlyTheRepositories | daily_report.py:21-42 | a path is recorded exactly when it names a repository reachable without entering a `.git` directory |
| Locator.WalkPreOrdered | daily_report.py:24 | the walk is top-down: no entry lies at or above an earlier one |
| Locator.GitDirTakesPrecedence | daily_report.py:26-30 | with a `.git` sub-directory the directory is recorded, and its files (a `.git` file included) make no difference |
| Locator.UnusableGitFileIsSkipped | daily_report.py:30-41 | a `.git` file that cannot be read or lacks the marker adds nothing, and the walk proceeds as if the directory had no files |
| Locator.UnreadableNeverLinks | daily_report.py:39-41 | a `.git` file whose read raises never marks its directory |
| Locator.MarkerIgnoresSurroundingSpace | daily_report.py:35-37 | whitespace around a `.git` file's text never changes whether it marks a repository |
| Locator.FindGitReposFindsExactlyTheRepositories | daily_report.py:21-42 | the returned texts are exactly the renderings of the reachable repositories |
| Locator.FindGitReposDistinct | daily_report.py:24-38 | no directory text is returned twice, and each recorded path comes before every path recorded below it |
| Locator.BaseListedFirstIffRepository | daily_report.py:24-27 | the base directory is returned, and returned first, exactly when it is a repository itself |
| Commits.GitUser | daily_report.py:12-19 | there is no author exactly when one of the two queries fails; an author is never empty, starts with the stripped name, ends with ` <`, the stripped email and `>`, and is exactly three characters longer than name and email together, so it is `name <email>` |
| Commits.TodayCommits | daily_report.py:44-58 | a failed query or blank output gives no subjects; otherwise at least one subject, none containing a newline, and joined by newlines they are the stripped output |
| Commits.TodayCommitsRoundTrip | daily_report.py:55-56 | the subject lines `git log` prints parse back to exactly that list, duplicates included, when stripping cuts nothing from the ends |
| Commits.TrailingEmptySubjectDropped | daily_report.py:55-56 | a last subject that is empty is lost: the output parses as if it were not there |
| Commits.LeadingEmptySubjectDropped | daily_report.py:55-56 | a first subject that is empty is lost too: the output parses as if it were not there |
| Orchestrator.AllCommitsLength | daily_report.py:126-130 | the collected list is as long as the sum of the per-repository subject counts |
| Orchestrator.AllCommitsAt | daily_report.py:126-130 | subject `j` of repository `i` is at position (earlier repositories' subject count + `j`), tagged with its own repository |
| Orchestrator.NothingToReportIff | daily_report.py:126-134 | the list is empty exactly when every repository's subject list is empty |
| Orchestrator.CollectCommits | daily_report.py:126-130 | the loop builds exactly the reference list: all repositories' tagged subjects in discovery order |
| Orchestrator.GenerateDailyReport | daily_report.py:60-110 | the key is checked before the URL; a request is sent exactly when both are set, carrying the lines and the date unchanged; the service's answer or error is what comes back |
| Orchestrator.Conclude | daily_report.py:132-143 | no lines means no generator call; otherwise one call with the whole list, and the run ends with the generator's own error, with its missing content, or with its report; `report.md` is written only with the service's content and is emptied when the reply has none |
| Orchestrator.RunDailyReport | daily_report.py:116-143 | unset report directory or unknown author stops the run with nothing called; otherwise the generator gets the whole collected list exactly when it is non-empty; at most one request reaches the service; a missing key still scans but sends nothing; a run that called the generator ends with the error it raised, its missing content or its report, and only such a run ends that way |

## Left out

- The clock: `datetime.now()` decides the day window of `git log` and the
  date in the request. Both are parameters (`log`, `date`).
- The `git` subprocesses: each answer is a parameter. This covers the
  `--author` pattern match, `--all`, the `--since`/`--until` window, and the
  `CalledProcessError` exit.
  - A UTF-8 decode error in their output is not modelled. The script does
    not catch it.
  - `git` itself failing to start is not modelled. `check_output` then
    raises `FileNotFoundError` (an `OSError`), which neither `get_git_user`
    nor `get_today_commits` catches, so `main` crashes. A `GitOutput` is
    only a completed run or a non-zero exit.
- Commits.TodayCommits: does not model which commits `git log` selects.
  `--author` is a regular-expression match on the author, not an exact
  match, and that selection happens inside git.
- The prompt text, the JSON encoding of the request, the model name and the
  OpenAI client internals. The service is a function from request to reply.
  - The client retries a failed call by itself (by default up to two more
    times, on connection errors, 429 and 5xx answers). So one `create` call
    can reach the server up to three times. A run's `requests` counts calls
    made through the client, not deliveries to the server.
- Printing: the per-repository counts, the report, and the messages are not
  modelled. Only the outcome and the file contents are.
- Filesystem behaviours beyond a tree of names:
  - symbolic links (`os.walk` does not follow them by default);
  - directories that cannot be listed (`os.walk` skips them silently);
  - a failure to open or write `report.md` for other reasons.
- `load_dotenv` and the process environment: the settings are an `Env`
  value.
- `main` lets the `ValueError` for an unset `WORK_REPORT_DIR` escape. That
  is modelled as the outcome `MissingReportDir`.
