/**
 * The report driver (`main` and `generate_daily_report`): read the
 * settings, identify the author, collect the day's subjects from every
 * repository under the report directory, and hand the whole list to the
 * text-generation service at most once.
 *
 * The environment, the tree on disk, the `git` answers and the service are
 * parameters; what `main` prints is not modelled, what `report.md` ends up
 * holding is.
 */
module Orchestrator {
  import opened Wrappers
  import opened FileTree
  import opened Locator
  import opened Commits

  /** What every line of a repository starts with. */
  function TagPrefix(repo: string): string {
    "repo:" + repo + ": commit:"
  }

  /** One line of the service's input: `repo:<repo>: commit:<subject>`. */
  function Tag(repo: string, subject: string): string {
    TagPrefix(repo) + subject
  }

  /**
   * The lines `main` adds for one repository, in the order of its subjects:
   * each names the repository and gives back its subject after the prefix.
   */
  function Tagged(repo: string, subjects: seq<string>): (lines: seq<string>)
    ensures |lines| == |subjects|
    ensures forall j :: 0 <= j < |lines| ==>
              PyText.HasPrefix(lines[j], TagPrefix(repo)) && lines[j][|TagPrefix(repo)|..] == subjects[j]
  {
    seq(|subjects|, j requires 0 <= j < |subjects| => Tag(repo, subjects[j]))
  }

  /**
   * `get_today_commits(repo, user)` for every repository, given what `git log`
   * answers for a repository and author. The lemmas below hold for any
   * such per-repository subject lists.
   */
  function SubjectsOf(user: string, log: (string, string) -> GitOutput): string -> seq<string> {
    repo => TodayCommits(log(repo, user))
  }

  /** Reference for the collecting loop: the tagged subjects of every repository, repositories in order. */
  function AllCommits(repos: seq<string>, subjectsOf: string -> seq<string>): seq<string>
    decreases |repos|
  {
    if repos == [] then []
    else
      var last := repos[|repos| - 1];
      AllCommits(repos[..|repos| - 1], subjectsOf) + Tagged(last, subjectsOf(last))
  }

  /** The sum of the per-repository subject counts. */
  function CommitCount(repos: seq<string>, subjectsOf: string -> seq<string>): nat
    decreases |repos|
  {
    if repos == [] then 0
    else
      var last := repos[|repos| - 1];
      CommitCount(repos[..|repos| - 1], subjectsOf) + |subjectsOf(last)|
  }

  /** The collected list is as long as all the per-repository lists together. */
  lemma {:induction false} AllCommitsLength(repos: seq<string>, subjectsOf: string -> seq<string>)
    ensures |AllCommits(repos, subjectsOf)| == CommitCount(repos, subjectsOf)
    decreases |repos|
  {
    if repos != [] {
      AllCommitsLength(repos[..|repos| - 1], subjectsOf);
    }
  }

  /**
   * Subject `j` of repository `i` sits at position "subjects of the earlier
   * repositories + j", tagged with its repository: nothing is lost, reordered
   * or attributed to another repository.
   */
  lemma {:induction false} AllCommitsAt(repos: seq<string>, subjectsOf: string -> seq<string>, i: nat, j: nat)
    requires i < |repos| && j < |subjectsOf(repos[i])|
    ensures CommitCount(repos[..i], subjectsOf) + j < |AllCommits(repos, subjectsOf)|
    ensures AllCommits(repos, subjectsOf)[CommitCount(repos[..i], subjectsOf) + j]
            == Tag(repos[i], subjectsOf(repos[i])[j])
    decreases |repos|
  {
    var init := repos[..|repos| - 1];
    var front, lines := LastRepo(repos, subjectsOf);
    AllCommitsLength(init, subjectsOf);
    if i == |repos| - 1 {
      InLastRepo(repos, front, lines, subjectsOf, j);
    } else {
      assert init[..i] == repos[..i];
      assert init[i] == repos[i];
      AllCommitsAt(init, subjectsOf, i, j);
      var k := CommitCount(repos[..i], subjectsOf) + j;
      assert (front + lines)[k] == front[k];
    }
  }

  lemma InLastRepo(repos: seq<string>, front: seq<string>, lines: seq<string>,
                   subjectsOf: string -> seq<string>, j: nat)
    requires repos != [] && |front| == CommitCount(repos[..|repos| - 1], subjectsOf)
    requires lines == Tagged(repos[|repos| - 1], subjectsOf(repos[|repos| - 1]))
    requires j < |lines|
    ensures CommitCount(repos[..|repos| - 1], subjectsOf) + j < |front + lines|
    ensures (front + lines)[CommitCount(repos[..|repos| - 1], subjectsOf) + j]
            == Tag(repos[|repos| - 1], subjectsOf(repos[|repos| - 1])[j])
  {
  }

  /** The collected list splits into the earlier repositories' lines and the last repository's. */
  lemma LastRepo(repos: seq<string>, subjectsOf: string -> seq<string>)
    returns (front: seq<string>, lines: seq<string>)
    requires repos != []
    ensures front == AllCommits(repos[..|repos| - 1], subjectsOf)
    ensures lines == Tagged(repos[|repos| - 1], subjectsOf(repos[|repos| - 1]))
    ensures AllCommits(repos, subjectsOf) == front + lines
  {
    front := AllCommits(repos[..|repos| - 1], subjectsOf);
    lines := Tagged(repos[|repos| - 1], subjectsOf(repos[|repos| - 1]));
  }

  /** There is nothing to report exactly when every repository's subject list is empty. */
  lemma {:induction false} NothingToReportIff(repos: seq<string>, subjectsOf: string -> seq<string>)
    ensures AllCommits(repos, subjectsOf) == []
            <==> forall i :: 0 <= i < |repos| ==> subjectsOf(repos[i]) == []
    decreases |repos|
  {
    if repos != [] {
      var init := repos[..|repos| - 1];
      var front, lines := LastRepo(repos, subjectsOf);
      NothingToReportIff(init, subjectsOf);
      assert front + lines == [] <==> front == [] && lines == [];
      EverySnoc(repos, init, r => subjectsOf(r) == []);
    }
  }

  /** A property holds of every element exactly when it holds of all but the last and of the last. */
  lemma EverySnoc<T>(xs: seq<T>, init: seq<T>, p: T -> bool)
    requires xs != [] && init == xs[..|xs| - 1]
    ensures (forall i :: 0 <= i < |xs| ==> p(xs[i]))
            <==> (forall i :: 0 <= i < |init| ==> p(init[i])) && p(xs[|xs| - 1])
  {
    assert forall i :: 0 <= i < |init| ==> init[i] == xs[i];
  }

  /** `main`'s loop: query each repository in turn and extend the list with its tagged subjects. */
  method CollectCommits(repos: seq<string>, user: string, log: (string, string) -> GitOutput)
    returns (all: seq<string>)
    ensures all == AllCommits(repos, SubjectsOf(user, log))
  {
    all := [];
    var i := 0;
    while i < |repos|
      invariant i <= |repos|
      invariant all == AllCommits(repos[..i], SubjectsOf(user, log))
    {
      var subjects := TodayCommits(log(repos[i], user));
      all := all + Tagged(repos[i], subjects);
      assert repos[..i + 1][..i] == repos[..i];
      i := i + 1;
    }
    assert repos[..|repos|] == repos;
  }

  /** The settings `main` reads from the environment after loading `.env`; `None` for an unset variable. */
  datatype Env = Env(reportDir: Option<string>, apiKey: Option<string>, apiUrl: Option<string>)

  /** Python truthiness of an optional string: present and not empty. */
  predicate IsSet(v: Option<string>) {
    v.Some? && v.value != ""
  }

  const ApiKeyVar := "DEEPSEEK_API_KEY"
  const ApiUrlVar := "DEEPSEEK_API_URL"

  /** What is sent to the service: the collected lines and the day's date. */
  datatype ReportRequest = ReportRequest(commits: seq<string>, date: string)

  /** The service's answer: the first choice's message content, which may be absent, or the error the client raises. */
  datatype Reply = Completion(content: Option<string>) | ServiceError(reason: string)

  /** Why `generate_daily_report` raised: a setting it needs is unset, or the service call failed. */
  datatype GenerationError = MissingSetting(variable: string) | ServiceFailed(reason: string)

  /** One call of `generate_daily_report`: the request it sent, if it got that far, and what it returned or raised. */
  datatype Generation = Generation(sent: Option<ReportRequest>, result: Result<Option<string>, GenerationError>)

  /**
   * `generate_daily_report`: the key is checked first, then the URL; only
   * with both set is one request sent, carrying the lines unchanged.
   */
  function GenerateDailyReport(env: Env, date: string, commits: seq<string>, service: ReportRequest -> Reply)
    : (g: Generation)
    ensures g.sent.Some? <==> IsSet(env.apiKey) && IsSet(env.apiUrl)
    ensures g.sent.Some? ==> g.sent.value == ReportRequest(commits, date)
    ensures !IsSet(env.apiKey) ==> g.result == Failure(MissingSetting(ApiKeyVar))
    ensures IsSet(env.apiKey) && !IsSet(env.apiUrl) ==> g.result == Failure(MissingSetting(ApiUrlVar))
    ensures g.sent.Some? ==> g.result == Answer(service(g.sent.value))
  {
    if !IsSet(env.apiKey) then Generation(None, Failure(MissingSetting(ApiKeyVar)))
    else if !IsSet(env.apiUrl) then Generation(None, Failure(MissingSetting(ApiUrlVar)))
    else
      var request := ReportRequest(commits, date);
      Generation(Some(request), Answer(service(request)))
  }

  /** The service's reply as `generate_daily_report`'s return value or exception. */
  function Answer(reply: Reply): Result<Option<string>, GenerationError> {
    match reply
    case Completion(content) => Success(content)
    case ServiceError(reason) => Failure(ServiceFailed(reason))
  }

  /** How a run of `main` ends. */
  datatype Outcome =
    | MissingReportDir                          // the report directory is unset: `main` raises
    | UserNotConfigured                         // no author could be determined
    | NoCommits                                 // no repository had a subject today
    | GenerationFailed(error: GenerationError)  // reported as "Error generating report"
    | ContentMissing                            // the reply had no content: `report.md` was emptied, then the write raised
    | ReportWritten(report: string)             // the report was printed and saved

  /**
   * A run: how it ended, the argument of every call of the generator, the
   * requests that reached the service, and what `report.md` holds afterwards
   * (`None` when it was not opened).
   */
  datatype Run = Run(outcome: Outcome, generatorCalls: seq<seq<string>>, requests: seq<ReportRequest>,
                     reportFile: Option<string>)

  /** The lines `main` collects under `dir` for `user`. */
  function Collected(dir: string, top: Option<Dir>, user: string, log: (string, string) -> GitOutput): seq<string> {
    AllCommits(FindGitRepos(dir, top), SubjectsOf(user, log))
  }

  /** The run stops before scanning exactly in these two cases, and then nothing is called or written. */
  predicate StopsEarly(env: Env, userName: GitOutput, userEmail: GitOutput, run: Run) {
    && (!IsSet(env.reportDir) ==> run == Run(MissingReportDir, [], [], None))
    && (IsSet(env.reportDir) && GitUser(userName, userEmail).None? ==> run == Run(UserNotConfigured, [], [], None))
  }

  /** After a scan, the generator is called exactly when the list is non-empty, once, with the whole list. */
  predicate CallsGeneratorOnce(all: seq<string>, run: Run) {
    && (all == [] ==> run == Run(NoCommits, [], [], None))
    && (all != [] ==> run.generatorCalls == [all] && run.outcome != NoCommits)
  }

  /** The service sees at most the one request built from the generator's argument and the date. */
  predicate ServiceUse(env: Env, date: string, run: Run) {
    && |run.generatorCalls| <= 1
    && (run.requests != [] ==> run.generatorCalls != [] && run.requests == [ReportRequest(run.generatorCalls[0], date)])
    && (run.generatorCalls != [] ==> (run.requests != [] <==> IsSet(env.apiKey) && IsSet(env.apiUrl)))
    && (run.generatorCalls != [] && !IsSet(env.apiKey) ==> run.outcome == GenerationFailed(MissingSetting(ApiKeyVar)))
  }

  /** `report.md` is written only with the service's content, and emptied when that content is absent. */
  predicate ReportFileUse(run: Run, service: ReportRequest -> Reply) {
    && (run.reportFile.Some? <==> run.requests != [] && service(run.requests[0]).Completion?)
    && (run.outcome.ReportWritten? <==>
          run.requests != [] && service(run.requests[0]).Completion? && service(run.requests[0]).content.Some?)
    && (run.outcome.ReportWritten? ==>
          run.reportFile == Some(run.outcome.report)
          && service(run.requests[0]) == Completion(Some(run.outcome.report)))
    && (run.outcome.ContentMissing? ==> run.reportFile == Some(""))
  }

  /** The outcomes that only a call of the generator can produce. */
  predicate Generated(outcome: Outcome) {
    outcome.GenerationFailed? || outcome.ContentMissing? || outcome.ReportWritten?
  }

  /**
   * Once the generator has run, the run ends as its result says: with the
   * error it raised, with the missing content, or with the report text; and
   * without a generator call it ends in none of these ways.
   */
  predicate OutcomeFollowsGenerator(env: Env, date: string, service: ReportRequest -> Reply, run: Run) {
    && (Generated(run.outcome) ==> run.generatorCalls != [])
    && (run.generatorCalls != [] ==>
          match GenerateDailyReport(env, date, run.generatorCalls[0], service).result
          case Failure(e) => run.outcome == GenerationFailed(e)
          case Success(None) => run.outcome == ContentMissing
          case Success(Some(text)) => run.outcome == ReportWritten(text))
  }

  /**
   * `main`. `top` is the tree at the report directory (`None` when there is
   * none), `log` answers `git log` for a repository and author on the day
   * `date`, and `service` answers the chat-completion request.
   */
  method RunDailyReport(env: Env, top: Option<Dir>, userName: GitOutput, userEmail: GitOutput,
                        log: (string, string) -> GitOutput, date: string, service: ReportRequest -> Reply)
    returns (run: Run)
    ensures StopsEarly(env, userName, userEmail, run)
    ensures IsSet(env.reportDir) && GitUser(userName, userEmail).Some? ==>
              CallsGeneratorOnce(Collected(env.reportDir.value, top, GitUser(userName, userEmail).value, log), run)
    ensures ServiceUse(env, date, run)
    ensures ReportFileUse(run, service)
    ensures OutcomeFollowsGenerator(env, date, service, run)
  {
    if !IsSet(env.reportDir) {
      return Run(MissingReportDir, [], [], None);
    }
    var user := GitUser(userName, userEmail);
    if !IsSet(user) {
      return Run(UserNotConfigured, [], [], None);
    }
    var repos := FindGitRepos(env.reportDir.value, top);
    var all := CollectCommits(repos, user.value, log);
    if all == [] {
      return Run(NoCommits, [], [], None);
    }
    run := Conclude(env, all, date, service);
  }

  /** What `main` does once the lines are collected: stop if there are none, else generate, print and save. */
  function Conclude(env: Env, all: seq<string>, date: string, service: ReportRequest -> Reply): (run: Run)
    ensures CallsGeneratorOnce(all, run)
    ensures ServiceUse(env, date, run)
    ensures ReportFileUse(run, service)
    ensures OutcomeFollowsGenerator(env, date, service, run)
  {
    if all == [] then Run(NoCommits, [], [], None)
    else
      var g := GenerateDailyReport(env, date, all, service);
      var requests := if g.sent.Some? then [g.sent.value] else [];
      match g.result
      case Failure(e) => Run(GenerationFailed(e), [all], requests, None)
      case Success(None) => Run(ContentMissing, [all], requests, Some(""))
      case Success(Some(report)) => Run(ReportWritten(report), [all], requests, Some(report))
  }
}
