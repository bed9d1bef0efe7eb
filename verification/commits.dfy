/**
 * The commit extractor's own logic: `get_git_user` turning the two
 * `git config` answers into an author string, and `get_today_commits`
 * turning the output of `git log --pretty=format:%s` into subject lines.
 * The subprocesses themselves (and the day window passed to `git log`) are
 * outside the model: their results arrive as `GitOutput` values.
 */
module Commits {
  import opened Wrappers
  import opened PyText

  /** A `git` subprocess's decoded standard output, or its non-zero exit (`CalledProcessError`). */
  datatype GitOutput = Ok(out: string) | Failed

  /**
   * `get_git_user`: `"<name> <<email>>"` from the stripped answers of
   * `git config user.name` and `git config user.email`, or nothing when
   * either query fails. A success is never the empty string, so the caller's
   * "not configured" branch is reached only through a failed query.
   */
  function GitUser(name: GitOutput, email: GitOutput): (user: Option<string>)
    ensures user.None? <==> name.Failed? || email.Failed?
    ensures user.Some? ==> user.value != "" && user.value[|user.value| - 1] == '>'
    ensures user.Some? ==> HasPrefix(user.value, Strip(name.out))
    ensures user.Some? ==> |user.value| == |Strip(name.out)| + |Strip(email.out)| + 3
    ensures user.Some? ==>
              var tail := " <" + Strip(email.out) + ">";
              |tail| <= |user.value| && user.value[|user.value| - |tail|..] == tail
  {
    if name.Failed? || email.Failed? then None
    else
      var head, tail := Strip(name.out), " <" + Strip(email.out) + ">";
      PrefixAndSuffix(head, tail);
      Some(head + tail)
  }

  /** A concatenation starts with its first part and ends with its second. */
  lemma PrefixAndSuffix(head: string, tail: string)
    ensures HasPrefix(head + tail, head)
    ensures |tail| <= |head + tail| && (head + tail)[|head + tail| - |tail|..] == tail
  {
  }

  /**
   * `get_today_commits` after the query: a failed query gives no subjects;
   * otherwise the output is stripped, nothing is left if it was all
   * whitespace, and else the subjects are its lines, in log order, empty and
   * repeated lines included.
   */
  function TodayCommits(log: GitOutput): (subjects: seq<string>)
    ensures log.Failed? ==> subjects == []
    ensures log.Ok? && AllSpace(log.out) ==> subjects == []
    ensures log.Ok? && !AllSpace(log.out) ==>
              && |subjects| >= 1
              && Join(subjects, '\n') == Strip(log.out)
              && forall i :: 0 <= i < |subjects| ==> '\n' !in subjects[i]
  {
    match log
    case Failed => []
    case Ok(out) =>
      var text := Strip(out);
      StripEmpty(out);
      if text == "" then [] else Split(text, '\n')
  }

  /**
   * What `git log` prints for a list of subjects (one per line, no newline
   * after the last) parses back to exactly that list, duplicates included,
   * as long as stripping the whole output cuts nothing off its ends.
   */
  lemma {:induction false} TodayCommitsRoundTrip(subjects: seq<string>)
    requires |subjects| >= 1
    requires forall i :: 0 <= i < |subjects| ==> '\n' !in subjects[i]
    requires subjects[0] != "" && !IsSpace(subjects[0][0])
    requires var last := subjects[|subjects| - 1]; last != "" && !IsSpace(last[|last| - 1])
    ensures TodayCommits(Ok(Join(subjects, '\n'))) == subjects
  {
    var out := Join(subjects, '\n');
    JoinFirstChar(subjects, '\n');
    JoinLastChar(subjects, '\n');
    assert [] + out + [] == out;
    StripPadded([], out, []);
    SplitJoin(subjects, '\n');
  }

  /**
   * Stripping the whole output drops a final empty subject: a last commit
   * whose subject is empty is not counted.
   */
  lemma {:induction false} TrailingEmptySubjectDropped(subjects: seq<string>)
    requires |subjects| >= 1
    ensures TodayCommits(Ok(Join(subjects + [""], '\n'))) == TodayCommits(Ok(Join(subjects, '\n')))
  {
    var out := Join(subjects, '\n');
    JoinAppendEmpty(subjects, '\n');
    assert AllSpace("\n");
    StripTrailingSpace(out, "\n");
  }

  /**
   * Stripping the whole output drops a first empty subject as well: a first
   * commit whose subject is empty is not counted either.
   */
  lemma {:induction false} LeadingEmptySubjectDropped(subjects: seq<string>)
    requires |subjects| >= 1
    ensures TodayCommits(Ok(Join([""] + subjects, '\n'))) == TodayCommits(Ok(Join(subjects, '\n')))
  {
    var out := Join(subjects, '\n');
    assert ([""] + subjects)[1..] == subjects;
    assert Join([""] + subjects, '\n') == "\n" + out;
    assert AllSpace("\n");
    StripLeadingSpace("\n", out);
  }

  lemma {:induction false} JoinAppendEmpty(parts: seq<string>, sep: char)
    requires |parts| >= 1
    ensures Join(parts + [""], sep) == Join(parts, sep) + [sep]
    decreases |parts|
  {
    if |parts| > 1 {
      assert (parts + [""])[1..] == parts[1..] + [""];
      JoinAppendEmpty(parts[1..], sep);
    }
  }
}
