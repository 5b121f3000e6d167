/**
 * The snapshot records of gh_status.  Timestamps are seconds since the
 * epoch (UTC), local calendar days are day numbers.  A repository record is
 * a class because the inventory builder fills in its detail fields in place.
 */
module Schemas {
  import opened Wrappers

  const SchemaVersion: string := "1"

  /** The core fields of a repository, fixed once the record is made. */
  datatype RepoInfo = RepoInfo(
    full: string,
    desc: Option<string>,
    topics: seq<string>,
    lang: Option<string>,
    stars: int,
    forks: int,
    openIssues: int,
    pushedUtc: int,
    homepage: Option<string>,
    defaultBranch: string)

  class Repo {
    const info: RepoInfo
    // Detail fields, filled in for "hot" repositories only.
    var readme: Option<string>
    var changelog: Option<string>
    var recentFiles: Option<seq<string>>

    constructor (info: RepoInfo)
      ensures this.info == info
      ensures readme == None && changelog == None && recentFiles == None
    {
      this.info := info;
      readme, changelog, recentFiles := None, None, None;
    }
  }

  function Infos(repos: seq<Repo>): (r: seq<RepoInfo>)
    ensures |r| == |repos|
    ensures forall i :: 0 <= i < |repos| ==> r[i] == repos[i].info
  {
    if repos == [] then [] else [repos[0].info] + Infos(repos[1..])
  }

  datatype Inventory = Inventory(
    schemaVersion: string,
    username: string,
    generatedUtc: int,
    repos: seq<Repo>)

  datatype RepoTodosItem = RepoTodosItem(
    full: string,
    todos: Option<seq<string>>,
    synopsis: Option<seq<string>>)

  datatype Todos = Todos(
    schemaVersion: string,
    username: string,
    generatedUtc: int,
    repos: seq<RepoTodosItem>)

  datatype ActivitySummary = ActivitySummary(
    events: nat,
    repos: nat,
    pushes: nat,
    pullRequests: nat,
    issues: nat,
    comments: nat,
    releases: nat,
    stars: nat,
    creates: nat,
    deletes: nat)

  datatype ActivityInsights = ActivityInsights(
    streakDays: nat,
    busiestLocalDay: Option<int>,
    topRepos: seq<string>,
    topEventTypes: seq<string>)

  datatype ActivityEvent = ActivityEvent(
    kind: string,
    repoOwner: string,
    repoName: string,
    atUtc: int,
    url: string,
    title: string,
    commits: Option<seq<string>>,
    eventId: string)

  datatype Activity = Activity(
    schemaVersion: string,
    username: string,
    generatedUtc: int,
    windowStartUtc: int,
    windowDays: int,
    summary: ActivitySummary,
    insights: ActivityInsights,
    events: seq<ActivityEvent>)
}
