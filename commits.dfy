/**
  The client script's per-project step (`cleanMessage` and
  `fetchLatestCommit`): a guard against unconfigured projects, one request
  for the latest commit (its outcome a parameter of the model), and the
  record built from the answer.
 */
module Commits {
  import opened Wrappers
  import opened Js
  import opened Text

  /** `cleanMessage` on a non-empty string: the first line, trimmed, each whitespace run made one space. */
  function CleanLine(message: string): string
  {
    CollapseSpaces(Trim(FirstLine(message)))
  }

  /**
    The cleaned line has no line feed, no whitespace at either end and never
    two whitespace characters side by side; it keeps every other character of
    the first line in order, and is empty exactly when that line is blank.
   */
  lemma CleanLineIsClean(message: string)
    ensures var r := CleanLine(message);
      '\n' !in r &&
      (r == [] || (!IsSpace(r[0]) && !IsSpace(r[|r| - 1]))) &&
      (forall k :: 0 <= k < |r| - 1 ==> !(IsSpace(r[k]) && IsSpace(r[k + 1]))) &&
      NonSpace(r) == NonSpace(FirstLine(message)) &&
      (r == [] <==> AllSpace(FirstLine(message)))
  {
    var line := FirstLine(message);
    var t := Trim(line);
    var r := CollapseSpaces(t);
    CollapseSpacesSeparates(t);
    CollapseSpacesKeepsText(t);
    assert '\n' !in r by {
      forall k | 0 <= k < |r| ensures r[k] != '\n' {
        assert IsSpace(r[k]) ==> r[k] == ' ';
      }
    }
    NonSpaceTrim(line);
  }

  /**
    `cleanMessage(message)`: "Update" for a falsy message, the cleaned first
    line for a non-empty string, and None where `message.split` would throw
    (a truthy value that is not a string).
   */
  function CleanMessage(message: Value): (r: Option<string>)
    ensures !Truthy(message) ==> r == Some("Update")
    ensures message.Str? && message.s != "" ==> r == Some(CleanLine(message.s))
    ensures Truthy(message) && !message.Str? ==> r.None?
  {
    if !Truthy(message) then Some("Update")
    else if message.Str? then Some(CleanLine(message.s))
    else None
  }

  /** A non-empty message whose first line is blank comes out as "", not as "Update". */
  lemma BlankFirstLineGivesEmpty(message: string)
    requires message != [] && AllSpace(FirstLine(message))
    ensures CleanMessage(Str(message)) == Some("")
  {
    CleanLineIsClean(message);
  }

  /** `/YOUR-GITHUB-ORG|YOUR-USERNAME|YOUR-REPO/i.test(repo)`. */
  predicate IsPlaceholderRepo(repo: string) {
    ContainsIgnoringCase(repo, "YOUR-GITHUB-ORG")
    || ContainsIgnoringCase(repo, "YOUR-USERNAME")
    || ContainsIgnoringCase(repo, "YOUR-REPO")
  }

  /** The guard of `fetchLatestCommit`: a project, with a `repo`, that is not a placeholder. */
  predicate ShouldQuery(project: Value) {
    Truthy(project) && Truthy(Prop(project, "repo"))
    && !(Prop(project, "repo").Str? && IsPlaceholderRepo(Prop(project, "repo").s))
  }

  /** What a request for JSON came back with: a network failure, or a status and the parsed body (None: not JSON). */
  datatype JsonResponse = Unreachable | Answered(ok: bool, payload: Option<Value>)

  /** The record `fetchLatestCommit` resolves to. */
  datatype CommitUpdate = CommitUpdate(name: Value, url: Value, date: Value, message: string)

  /** How the promise `fetchLatestCommit(project)` settles: rejected, null, or a record. */
  datatype Outcome = Rejected | NoUpdate | Update(update: CommitUpdate)

  /** `commits[0]` on a truthy value. */
  function FirstElement(commits: Value): Value
    requires !Nullish(commits)
  {
    match commits
    case Array(es) => if |es| > 0 then es[0] else Undefined
    case Object(m) => if "0" in m then m["0"] else Undefined
    case Str(s) => if |s| > 0 then Str([s[0]]) else Undefined
    case _ => Undefined
  }

  /** `commits && commits[0]`: the value `fetchLatestCommit` calls `latest`. */
  function Latest(commits: Value): Value {
    if Truthy(commits) then FirstElement(commits) else commits
  }

  /** `v?.date`. */
  function OptionalDate(v: Value): Value {
    if Nullish(v) then Undefined else Prop(v, "date")
  }

  /**
    `fetchLatestCommit(project)`, `response` standing for what the request for
    the latest commit returned (not consulted when the guard fails).
   */
  function FetchLatestCommit(project: Value, response: JsonResponse): (r: Outcome)
    ensures !ShouldQuery(project) ==> r == NoUpdate
    ensures ShouldQuery(project) && response.Unreachable? ==> r == Rejected
    ensures ShouldQuery(project) && response.Answered? && !response.ok ==> r == NoUpdate
    ensures ShouldQuery(project) && response.Answered? && response.ok && response.payload.None? ==> r == Rejected
    ensures r.Update? ==> ShouldQuery(project) && response.Answered? && response.ok && response.payload.Some?
    ensures r.Update? ==> r.update.name == Prop(project, "name") && r.update.url == Prop(project, "url")
  {
    if !ShouldQuery(project) then NoUpdate
    else match response
      case Unreachable => Rejected
      case Answered(ok, payload) =>
        if !ok then NoUpdate
        else match payload
          case None => Rejected
          case Some(commits) =>
            var latest := Latest(commits);
            if !Truthy(latest) || !Truthy(Prop(latest, "commit")) then NoUpdate
            else
              var commit := Prop(latest, "commit");
              match CleanMessage(Prop(commit, "message"))
              case None => Rejected
              case Some(message) =>
                var date := FirstTruthy([OptionalDate(Prop(commit, "author"))], OptionalDate(Prop(commit, "committer")));
                Update(CommitUpdate(Prop(project, "name"), Prop(project, "url"), date, message))
  }

  /**
    A project whose `repo` names a placeholder, in any letter case, is skipped
    without a request: whatever the network would have answered, the result is null.
   */
  lemma PlaceholderRepoSkipped(project: Value, response: JsonResponse, i: nat, pat: string)
    requires project.Object? && "repo" in project.fields && project.fields["repo"].Str?
    requires pat in ["YOUR-GITHUB-ORG", "YOUR-USERNAME", "YOUR-REPO"]
    requires MatchesAt(project.fields["repo"].s, i, pat)
    ensures FetchLatestCommit(project, response) == NoUpdate
  {
    var repo := project.fields["repo"].s;
    ContainsIgnoringCaseMeans(repo, pat);
  }

  /**
    For any payload whose `latest.commit` is truthy, the record takes its name
    and url from the project, its date from the author, else the committer,
    and its message from `cleanMessage`; where `cleanMessage` throws, the
    promise rejects.
   */
  lemma LatestCommitRecord(project: Value, commits: Value)
    requires ShouldQuery(project)
    requires Truthy(Latest(commits)) && Truthy(Prop(Latest(commits), "commit"))
    ensures var commit := Prop(Latest(commits), "commit");
      var r := FetchLatestCommit(project, Answered(true, Some(commits)));
      var author := OptionalDate(Prop(commit, "author"));
      var committer := OptionalDate(Prop(commit, "committer"));
      (r == Rejected <==> CleanMessage(Prop(commit, "message")).None?) &&
      (r.Update? <==> CleanMessage(Prop(commit, "message")).Some?) &&
      (r.Update? ==>
        r.update.name == Prop(project, "name") && r.update.url == Prop(project, "url") &&
        (Truthy(author) ==> r.update.date == author) &&
        (!Truthy(author) ==> r.update.date == committer) &&
        Some(r.update.message) == CleanMessage(Prop(commit, "message")))
  {
  }

  /** A commit without a message is still recorded, with the message "Update". */
  lemma MissingMessageIsUpdate(project: Value, commits: Value)
    requires ShouldQuery(project)
    requires Truthy(Latest(commits)) && Truthy(Prop(Latest(commits), "commit"))
    requires !Truthy(Prop(Prop(Latest(commits), "commit"), "message"))
    ensures var r := FetchLatestCommit(project, Answered(true, Some(commits)));
      r.Update? && r.update.message == "Update"
  {
    LatestCommitRecord(project, commits);
  }

  /** Whenever `!latest || !latest.commit` holds, whatever the payload, the result is null. */
  lemma NoCommitGivesNull(project: Value, commits: Value)
    requires !Truthy(Latest(commits)) || !Truthy(Prop(Latest(commits), "commit"))
    ensures FetchLatestCommit(project, Answered(true, Some(commits))) == NoUpdate
  {
  }
}
