/**
 * `build_inventory`: the public repositories, newest push first, where the
 * three most recently pushed ("hot") repositories also get their README,
 * CHANGELOG and latest-commit file list filled in, in place.
 */
module Inventory {
  import opened Wrappers
  import opened Sorting
  import opened Schemas
  import opened Client

  /** How many of the newest repositories count as "hot". */
  const HotRepoCount: nat := 3

  /** `{repo.full for repo in repos[:HOT_REPO_COUNT]}` */
  function HotNames(infos: seq<RepoInfo>): set<string> {
    set info | info in Take(infos, HotRepoCount) :: info.full
  }

  /** The names of a list of repositories are no more than its length. */
  lemma {:induction false} NamesCard(infos: seq<RepoInfo>)
    ensures |set info | info in infos :: info.full| <= |infos|
  {
    if infos != [] {
      NamesCard(infos[1..]);
      assert (set info | info in infos :: info.full)
          == (set info | info in infos[1..] :: info.full) + {infos[0].full} by {
        forall info | info in infos ensures info == infos[0] || info in infos[1..] {
        }
      }
    }
  }

  /**
   * There are at most three hot names; a name is hot exactly when one of
   * the first three repositories carries it; and in a list ordered newest
   * push first, a repository whose name is not hot was pushed no later
   * than any of the first three.
   */
  lemma HotNamesSpec(infos: seq<RepoInfo>)
    ensures |HotNames(infos)| <= HotRepoCount
    ensures forall n :: n in HotNames(infos) <==>
              exists j :: 0 <= j < |infos| && j < HotRepoCount && infos[j].full == n
    ensures SortedDesc(infos, Pushed) ==>
              forall j, k :: 0 <= j < |infos| && j < HotRepoCount && 0 <= k < |infos| && infos[k].full !in HotNames(infos) ==>
                infos[j].pushedUtc >= infos[k].pushedUtc
  {
    var hot := Take(infos, HotRepoCount);
    NamesCard(hot);
    forall n ensures n in HotNames(infos) <==> exists j :: 0 <= j < |infos| && j < HotRepoCount && infos[j].full == n {
      if n in HotNames(infos) {
        var info :| info in hot && info.full == n;
        var j :| 0 <= j < |hot| && hot[j] == info;
        assert infos[j] == info;
      }
      if exists j :: 0 <= j < |infos| && j < HotRepoCount && infos[j].full == n {
        var j :| 0 <= j < |infos| && j < HotRepoCount && infos[j].full == n;
        assert hot[j] in hot;
      }
    }
    if SortedDesc(infos, Pushed) {
      forall j, k | 0 <= j < |infos| && j < HotRepoCount && 0 <= k < |infos| && infos[k].full !in HotNames(infos)
        ensures infos[j].pushedUtc >= infos[k].pushedUtc
      {
        if k < HotRepoCount {
          assert false;
        }
        assert Pushed(infos[j]) >= Pushed(infos[k]);
      }
    }
  }

  /** A hot repository after enrichment: README, CHANGELOG and recent files as the server gives them. */
  predicate Enriched(api: Api, repo: Repo)
    reads repo
  {
    repo.readme == FileContent(api, repo.info.full, "README.md")
    && repo.changelog == FileContent(api, repo.info.full, "CHANGELOG.md")
    && repo.recentFiles == RecentFiles(api, repo.info.full)
  }

  /** A repository with no detail fields. */
  predicate Bare(repo: Repo)
    reads repo
  {
    repo.readme == None && repo.changelog == None && repo.recentFiles == None
  }

  /** Fetches one hot repository's details into its record. */
  method EnrichRepo(client: GitHubClient, repo: Repo)
    requires client.open
    modifies repo
    ensures Enriched(client.api, repo)
  {
    var readme := client.GetFileContent(repo.info.full, "README.md");
    var changelog := client.GetFileContent(repo.info.full, "CHANGELOG.md");
    var recentFiles := client.GetRecentFileChanges(repo.info.full);
    repo.readme := readme.value;
    repo.changelog := changelog.value;
    repo.recentFiles := recentFiles.value;
  }

  /**
   * The enrichment loop of `build_inventory`: every repository whose name
   * is in `hot` gets its details; every other repository is left as it
   * was.  A record listed twice is simply enriched twice with the same
   * values.
   */
  method EnrichHotRepos(client: GitHubClient, repos: seq<Repo>, hot: set<string>)
    requires client.open
    modifies set repo | repo in repos
    ensures forall repo | repo in repos && repo.info.full in hot :: Enriched(client.api, repo)
    ensures forall repo | repo in repos && repo.info.full !in hot ::
              repo.readme == old(repo.readme) && repo.changelog == old(repo.changelog)
              && repo.recentFiles == old(repo.recentFiles)
  {
    for i := 0 to |repos|
      invariant forall j :: 0 <= j < i && repos[j].info.full in hot ==> Enriched(client.api, repos[j])
      invariant forall repo | repo in repos && repo.info.full !in hot ::
                  repo.readme == old(repo.readme) && repo.changelog == old(repo.changelog)
                  && repo.recentFiles == old(repo.recentFiles)
    {
      if repos[i].info.full in hot {
        EnrichRepo(client, repos[i]);
      }
    }
  }

  /**
   * `build_inventory`: fails only on a closed client; otherwise the
   * repositories are fresh records of the public repository list, and a
   * record is enriched when its name is hot and has no details otherwise.
   */
  method BuildInventory(client: GitHubClient, username: string, now: int) returns (r: Result<Inventory, ClientError>)
    requires ChainEnds(client.api.repoPages)
    ensures r.Failure? <==> !client.open
    ensures r.Failure? ==> r.error == Closed
    ensures r.Success? ==> r.value.username == username && r.value.generatedUtc == now
                           && r.value.schemaVersion == SchemaVersion
    ensures r.Success? ==> Infos(r.value.repos) == PublicRepos(Paginated(client.api.repoPages))
    ensures r.Success? ==> forall repo | repo in r.value.repos ::
              fresh(repo)
              && (repo.info.full in HotNames(Infos(r.value.repos)) ==> Enriched(client.api, repo))
              && (repo.info.full !in HotNames(Infos(r.value.repos)) ==> Bare(repo))
  {
    var repos :- client.GetPublicRepos();
    var hotNames := HotNames(Infos(repos));
    EnrichHotRepos(client, repos, hotNames);
    return Success(Inventory(SchemaVersion, username, now, repos));
  }
}
