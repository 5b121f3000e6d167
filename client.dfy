/**
 * The GitHub API client.  The remote API is an immutable oracle (`Api`):
 * for every request it gives the response the server would send.  The
 * client's only state is whether its HTTP session is still open.
 */
module Client {
  import opened Wrappers
  import opened Sorting
  import opened Schemas

  /** The RuntimeError raised by every fetch on a closed client. */
  datatype ClientError = Closed

  /** What `raise_for_status` lets through: a 2xx status. */
  predicate IsSuccess(status: int) {
    200 <= status < 300
  }

  /** One page of a list endpoint: its status, its JSON items and whether a `next` link is present. */
  datatype Page<T> = Page(status: int, items: seq<T>, hasNext: bool)

  datatype FileResponse = FileResponse(status: int, text: string)

  /** The commits listing; an entry lacking a "sha" key is `None`. */
  datatype CommitsResponse = CommitsResponse(status: int, shas: seq<Option<string>>)

  /** An entry of a git tree; absent keys are `None`. */
  datatype TreeEntry = TreeEntry(path: Option<string>, kind: Option<string>)

  /** A git tree; `tree` is `None` when the response has no "tree" key. */
  datatype TreeResponse = TreeResponse(status: int, tree: Option<seq<TreeEntry>>)

  /** A repository as the repos endpoint lists it; keys read with a default are `Option`s. */
  datatype RawRepo = RawRepo(
    fullName: string,
    description: Option<string>,
    topics: Option<seq<string>>,
    language: Option<string>,
    stargazersCount: Option<int>,
    forksCount: Option<int>,
    openIssuesCount: Option<int>,
    pushedAt: int,
    homepage: Option<string>,
    defaultBranch: string,
    archived: bool)

  datatype Commit = Commit(sha: string, message: string)

  datatype PullRequest = PullRequest(title: string, htmlUrl: string)

  /** The payload keys the activity builder reads; absent keys are `None`. */
  datatype Payload = Payload(
    size: Option<int>,
    commits: Option<seq<Commit>>,
    ref: Option<string>,
    action: Option<string>,
    pullRequest: Option<PullRequest>)

  /** A public event as the events endpoint lists it; `createdAt` is the parsed "created_at". */
  datatype RawEvent = RawEvent(
    id: string,
    kind: string,
    repoName: string,
    createdAt: int,
    payload: Payload)

  /** The server: the pages of the two list endpoints and the responses to per-repository requests. */
  datatype Api = Api(
    repoPages: seq<Page<RawRepo>>,
    eventPages: seq<Page<RawEvent>>,
    files: (string, string) -> FileResponse,
    commits: string -> CommitsResponse,
    trees: (string, string) -> TreeResponse)

  /** The chain of `next` links ends within `pages`: the last page fails or has no `next` link. */
  predicate ChainEnds<T>(pages: seq<Page<T>>) {
    pages != [] && (!IsSuccess(pages[|pages| - 1].status) || !pages[|pages| - 1].hasNext)
  }

  /** What pagination collects: the items of each page until a failing page or one without a `next` link. */
  function Paginated<T>(pages: seq<Page<T>>): seq<T> {
    if pages == [] || !IsSuccess(pages[0].status) then []
    else pages[0].items + (if pages[0].hasNext then Paginated(pages[1..]) else [])
  }

  /** The items of all `pages`, in order. */
  function AllItems<T>(pages: seq<Page<T>>): seq<T> {
    if pages == [] then [] else pages[0].items + AllItems(pages[1..])
  }

  /** Index of the last page requested: the first that fails or has no `next` link. */
  function StopIndex<T>(pages: seq<Page<T>>): (k: nat)
    ensures k <= |pages|
    ensures forall j :: 0 <= j < k ==> IsSuccess(pages[j].status) && pages[j].hasNext
    ensures k < |pages| ==> !IsSuccess(pages[k].status) || !pages[k].hasNext
  {
    if pages == [] || !IsSuccess(pages[0].status) || !pages[0].hasNext then 0
    else 1 + StopIndex(pages[1..])
  }

  /**
   * Pagination returns the items of every page up to the stopping page, in
   * fetch order, counting the stopping page only when it succeeded: a
   * failing page contributes nothing and ends the fetch without an error.
   */
  lemma {:induction false} PaginatedSpec<T>(pages: seq<Page<T>>)
    requires ChainEnds(pages)
    ensures StopIndex(pages) < |pages|
    ensures Paginated(pages) ==
              AllItems(pages[..StopIndex(pages) + if IsSuccess(pages[StopIndex(pages)].status) then 1 else 0])
    decreases |pages|
  {
    StopBeforeEnd(pages);
    if StopIndex(pages) > 0 {
      RestChainEnds(pages);
      PaginatedSpec(pages[1..]);
      PaginatedStep(pages);
    } else if IsSuccess(pages[0].status) {
      assert pages[..1][1..] == [];
    } else {
      assert pages[..0] == [];
    }
  }

  /** The inductive step of `PaginatedSpec`: from the pages after the first to all of them. */
  lemma PaginatedStep<T>(pages: seq<Page<T>>)
    requires ChainEnds(pages) && 0 < StopIndex(pages) < |pages|
    requires StopIndex(pages[1..]) < |pages[1..]|
    requires Paginated(pages[1..]) ==
               AllItems(pages[1..][..StopIndex(pages[1..]) + if IsSuccess(pages[1..][StopIndex(pages[1..])].status) then 1 else 0])
    ensures Paginated(pages) ==
              AllItems(pages[..StopIndex(pages) + if IsSuccess(pages[StopIndex(pages)].status) then 1 else 0])
  {
    var rest := pages[1..];
    var m := StopIndex(rest) + if IsSuccess(rest[StopIndex(rest)].status) then 1 else 0;
    assert rest[StopIndex(rest)] == pages[StopIndex(pages)];
    assert pages[..m + 1][1..] == rest[..m];
  }

  /** A chain that ends within the pages stops at one of them. */
  lemma StopBeforeEnd<T>(pages: seq<Page<T>>)
    requires ChainEnds(pages)
    ensures StopIndex(pages) < |pages|
  {
    var last := |pages| - 1;
    assert !IsSuccess(pages[last].status) || !pages[last].hasNext;
  }

  /** Past a page that succeeded with a `next` link, the chain still ends within the remaining pages. */
  lemma RestChainEnds<T>(pages: seq<Page<T>>)
    requires ChainEnds(pages) && 0 < StopIndex(pages)
    ensures ChainEnds(pages[1..])
  {
    StopBeforeEnd(pages);
    assert pages[1..][|pages| - 2] == pages[|pages| - 1];
  }

  /** One step of pagination, from page `i` on. */
  lemma PaginatedFrom<T>(pages: seq<Page<T>>, i: nat)
    requires ChainEnds(pages) && i < |pages|
    ensures !IsSuccess(pages[i].status) ==> Paginated(pages[i..]) == []
    ensures IsSuccess(pages[i].status) ==> Paginated(pages[i..]) == pages[i].items + if pages[i].hasNext then Paginated(pages[i + 1..]) else []
    ensures IsSuccess(pages[i].status) && pages[i].hasNext ==> i + 1 < |pages|
    ensures pages[0..] == pages
  {
    assert pages[i..][0] == pages[i];
    if i + 1 < |pages| {
      assert pages[i..][1..] == pages[i + 1..];
    }
  }

  function ToInfo(raw: RawRepo): RepoInfo {
    RepoInfo(
      full := raw.fullName,
      desc := raw.description,
      topics := if raw.topics.Some? then raw.topics.value else [],
      lang := raw.language,
      stars := if raw.stargazersCount.Some? then raw.stargazersCount.value else 0,
      forks := if raw.forksCount.Some? then raw.forksCount.value else 0,
      openIssues := if raw.openIssuesCount.Some? then raw.openIssuesCount.value else 0,
      pushedUtc := raw.pushedAt,
      homepage := raw.homepage,
      defaultBranch := raw.defaultBranch)
  }

  /** The records of the repositories that are not archived, in listing order. */
  function Unarchived(raws: seq<RawRepo>): seq<RepoInfo> {
    if raws == [] then []
    else Unarchived(raws[..|raws| - 1])
         + (if raws[|raws| - 1].archived then [] else [ToInfo(raws[|raws| - 1])])
  }

  function Pushed(info: RepoInfo): int {
    info.pushedUtc
  }

  /** The public repository list: unarchived records, most recently pushed first. */
  function PublicRepos(raws: seq<RawRepo>): seq<RepoInfo> {
    SortDesc(Unarchived(raws), Pushed)
  }

  lemma {:induction false} UnarchivedSpec(raws: seq<RawRepo>)
    ensures |Unarchived(raws)| <= |raws|
    ensures forall x :: x in Unarchived(raws) <==> exists raw | raw in raws :: !raw.archived && ToInfo(raw) == x
  {
    if raws != [] {
      var init := raws[..|raws| - 1];
      UnarchivedSpec(init);
      assert raws == init + [raws[|raws| - 1]];
      forall x | exists raw | raw in raws :: !raw.archived && ToInfo(raw) == x
        ensures x in Unarchived(raws)
      {
        var raw :| raw in raws && !raw.archived && ToInfo(raw) == x;
        if raw in init {
        } else {
          assert raw == raws[|raws| - 1];
        }
      }
    }
  }

  /** A single repository yields its record exactly when it is not archived. */
  lemma UnarchivedOne(r: RawRepo)
    ensures Unarchived([r]) == if r.archived then [] else [ToInfo(r)]
  {
    assert [r][..0] == [];
  }

  /**
   * The filter works repository by repository: one record for each
   * unarchived repository, none for an archived one, in listing order.
   */
  lemma {:induction false} UnarchivedAppend(a: seq<RawRepo>, b: seq<RawRepo>)
    ensures Unarchived(a + b) == Unarchived(a) + Unarchived(b)
  {
    if b == [] {
      assert a + b == a;
    } else {
      var init, last := b[..|b| - 1], b[|b| - 1];
      var tail := if last.archived then [] else [ToInfo(last)];
      assert (a + b)[..|a + b| - 1] == a + init;
      assert (a + b)[|a + b| - 1] == last;
      UnarchivedAppend(a, init);
      calc {
        Unarchived(a + b);
        Unarchived(a + init) + tail;
        (Unarchived(a) + Unarchived(init)) + tail;
        Unarchived(a) + (Unarchived(init) + tail);
        Unarchived(a) + Unarchived(b);
      }
    }
  }

  /** The loop of `get_public_repos` that skips archived repositories and builds the records of the others. */
  method ListUnarchived(raws: seq<RawRepo>) returns (infos: seq<RepoInfo>)
    ensures infos == Unarchived(raws)
  {
    infos := [];
    for i := 0 to |raws|
      invariant infos == Unarchived(raws[..i])
    {
      assert raws[..i + 1][..i] == raws[..i];
      if raws[i].archived {
        continue;
      }
      infos := infos + [ToInfo(raws[i])];
    }
    assert raws[..|raws|] == raws;
  }

  /** A fresh record with no details for each repository, in order. */
  method NewRepos(infos: seq<RepoInfo>) returns (repos: seq<Repo>)
    ensures Infos(repos) == infos
    ensures forall repo | repo in repos ::
              fresh(repo) && repo.readme == None && repo.changelog == None && repo.recentFiles == None
  {
    repos := [];
    for i := 0 to |infos|
      invariant |repos| == i
      invariant forall j :: 0 <= j < i ==> repos[j].info == infos[j]
      invariant forall repo | repo in repos ::
                  fresh(repo) && repo.readme == None && repo.changelog == None && repo.recentFiles == None
    {
      var repo := new Repo(infos[i]);
      repos := repos + [repo];
    }
  }

  /**
   * The public repository list holds no archived repository and no more
   * entries than were listed, is ordered by push time, newest first, and
   * keeps listing order among repositories pushed at the same time.
   */
  lemma PublicReposSpec(raws: seq<RawRepo>)
    ensures |PublicRepos(raws)| <= |raws|
    ensures forall x | x in PublicRepos(raws) :: exists raw | raw in raws :: !raw.archived && ToInfo(raw) == x
    ensures SortedDesc(PublicRepos(raws), Pushed)
    ensures multiset(PublicRepos(raws)) == multiset(Unarchived(raws))
    ensures forall t :: WithKey(PublicRepos(raws), Pushed, t) == WithKey(Unarchived(raws), Pushed, t)
  {
    var u := Unarchived(raws);
    UnarchivedSpec(raws);
    SortDescSortedPermutation(u, Pushed);
    forall x | x in PublicRepos(raws) ensures x in u {
      assert x in multiset(PublicRepos(raws));
    }
    forall t ensures WithKey(PublicRepos(raws), Pushed, t) == WithKey(u, Pushed, t) {
      SortDescStable(u, Pushed, t);
    }
  }

  /** `get_file_content`: the text of a 2xx response; nothing on 404 or any other failing status. */
  function FileContent(api: Api, repo: string, path: string): Option<string> {
    var response := api.files(repo, path);
    if response.status == 404 then None
    else if !IsSuccess(response.status) then None
    else Some(response.text)
  }

  predicate IsBlob(e: TreeEntry) {
    e.kind == Some("blob")
  }

  /** `[item["path"] for item in tree if item.get("type") == "blob"]`; a blob without a path is a KeyError. */
  function BlobPaths(tree: seq<TreeEntry>): Option<seq<string>> {
    if tree == [] then Some([])
    else
      var rest := BlobPaths(tree[1..]);
      if !IsBlob(tree[0]) then rest
      else if tree[0].path.None? || rest.None? then None
      else Some([tree[0].path.value] + rest.value)
  }

  /** The blob filter can be applied piecewise, so it keeps tree order. */
  lemma {:induction false} BlobPathsAppend(a: seq<TreeEntry>, b: seq<TreeEntry>)
    ensures BlobPaths(a + b) ==
              if BlobPaths(a).Some? && BlobPaths(b).Some? then Some(BlobPaths(a).value + BlobPaths(b).value) else None
  {
    if a == [] {
      assert a + b == b;
      if BlobPaths(b).Some? {
        assert [] + BlobPaths(b).value == BlobPaths(b).value;
      }
    } else {
      assert (a + b)[0] == a[0] && (a + b)[1..] == a[1..] + b;
      BlobPathsAppend(a[1..], b);
      var ra, rb := BlobPaths(a[1..]), BlobPaths(b);
      if IsBlob(a[0]) && a[0].path.Some? && ra.Some? && rb.Some? {
        assert [a[0].path.value] + (ra.value + rb.value) == ([a[0].path.value] + ra.value) + rb.value;
      }
    }
  }

  /** The number of blob entries in a tree. */
  function CountBlobs(tree: seq<TreeEntry>): nat {
    if tree == [] then 0 else (if IsBlob(tree[0]) then 1 else 0) + CountBlobs(tree[1..])
  }

  /**
   * The blob filter fails exactly when some blob entry has no path; when
   * it succeeds it yields one path per blob entry, and a path is listed
   * exactly when a blob entry carries it.
   */
  lemma {:induction false} BlobPathsSpec(tree: seq<TreeEntry>)
    ensures BlobPaths(tree).Some? <==> forall e | e in tree && IsBlob(e) :: e.path.Some?
    ensures BlobPaths(tree).Some? ==> |BlobPaths(tree).value| == CountBlobs(tree) <= |tree|
    ensures BlobPaths(tree).Some? ==>
              forall p :: p in BlobPaths(tree).value <==> exists e | e in tree :: IsBlob(e) && e.path == Some(p)
  {
    if tree != [] {
      BlobPathsSpec(tree[1..]);
      assert tree == [tree[0]] + tree[1..];
      assert forall e | e in tree :: e == tree[0] || e in tree[1..];
    }
  }

  /**
   * `get_recent_file_changes`: the paths of the blobs in the tree of the
   * latest commit; nothing when a request fails, when there is no commit
   * (IndexError) or when a key is missing (KeyError).
   */
  function RecentFiles(api: Api, repo: string): Option<seq<string>> {
    var commits := api.commits(repo);
    if !IsSuccess(commits.status) || commits.shas == [] || commits.shas[0].None? then None
    else
      var treeResponse := api.trees(repo, commits.shas[0].value);
      if !IsSuccess(treeResponse.status) then None
      else BlobPaths(if treeResponse.tree.Some? then treeResponse.tree.value else [])
  }

  class GitHubClient {
    const username: string
    const api: Api
    /** Whether the HTTP session is open (`self.client is not None`). */
    var open: bool

    constructor (username: string, api: Api)
      ensures this.username == username && this.api == api
      ensures open
    {
      this.username := username;
      this.api := api;
      open := true;
    }

    /** `close`: ends the session; closing a closed client changes nothing. */
    method Close()
      modifies this
      ensures !open
    {
      if open {
        open := false;
      }
    }

    /** `_get_paginated`: follows `next` links, keeping what was gathered when a page fails. */
    method GetPaginated<T>(pages: seq<Page<T>>) returns (r: Result<seq<T>, ClientError>)
      requires ChainEnds(pages)
      ensures !open ==> r == Failure(Closed)
      ensures open ==> r == Success(Paginated(pages))
    {
      if !open {
        return Failure(Closed);
      }
      var items: seq<T> := [];
      var i := 0;
      var response := pages[i];
      PaginatedFrom(pages, 0);
      if !IsSuccess(response.status) {
        return Success(items);
      }
      items := items + response.items;
      while response.hasNext
        invariant 0 <= i < |pages| && response == pages[i] && IsSuccess(response.status)
        invariant response.hasNext ==> i + 1 < |pages| && Paginated(pages) == items + Paginated(pages[i + 1..])
        invariant !response.hasNext ==> Paginated(pages) == items
        decreases |pages| - i
      {
        i := i + 1;
        response := pages[i];
        PaginatedFrom(pages, i);
        if !IsSuccess(response.status) {
          assert items + [] == items;
          return Success(items);
        }
        var before := items;
        items := items + response.items;
        if response.hasNext {
          ConcatAssoc(before, response.items, Paginated(pages[i + 1..]));
        } else {
          assert response.items + [] == response.items;
        }
      }
      return Success(items);
    }

    /** `get_public_repos`: fresh, unenriched records of the public repository list. */
    method GetPublicRepos() returns (r: Result<seq<Repo>, ClientError>)
      requires ChainEnds(api.repoPages)
      ensures !open ==> r == Failure(Closed)
      ensures open ==> r.Success? && Infos(r.value) == PublicRepos(Paginated(api.repoPages))
      ensures r.Success? ==> forall repo | repo in r.value ::
                fresh(repo) && repo.readme == None && repo.changelog == None && repo.recentFiles == None
    {
      var fetched := GetPaginated(api.repoPages);
      if fetched.Failure? {
        return Failure(fetched.error);
      }
      var infos := ListUnarchived(fetched.value);
      var sorted := SortDesc(infos, Pushed);
      var repos := NewRepos(sorted);
      return Success(repos);
    }

    /** `get_public_events`: the paginated public event list. */
    method GetPublicEvents() returns (r: Result<seq<RawEvent>, ClientError>)
      requires ChainEnds(api.eventPages)
      ensures !open ==> r == Failure(Closed)
      ensures open ==> r == Success(Paginated(api.eventPages))
    {
      if !open {
        return Failure(Closed);
      }
      r := GetPaginated(api.eventPages);
    }

    /** `get_file_content`: the file's text, or nothing when the server answers 404 or another failing status. */
    method GetFileContent(repo: string, path: string) returns (r: Result<Option<string>, ClientError>)
      ensures !open ==> r == Failure(Closed)
      ensures open ==> r == Success(FileContent(api, repo, path))
      ensures open ==> (r.value.Some? <==> IsSuccess(api.files(repo, path).status))
      ensures open && r.value.Some? ==> r.value.value == api.files(repo, path).text
    {
      if !open {
        return Failure(Closed);
      }
      var response := api.files(repo, path);
      if response.status == 404 {
        return Success(None);
      }
      if !IsSuccess(response.status) {
        return Success(None);
      }
      return Success(Some(response.text));
    }

    /** `get_recent_file_changes`: the blob paths of the latest commit's tree, or nothing on any failure. */
    method GetRecentFileChanges(repo: string) returns (r: Result<Option<seq<string>>, ClientError>)
      ensures !open ==> r == Failure(Closed)
      ensures open ==> r == Success(RecentFiles(api, repo))
    {
      if !open {
        return Failure(Closed);
      }
      var response := api.commits(repo);
      if !IsSuccess(response.status) || |response.shas| == 0 || response.shas[0].None? {
        return Success(None);
      }
      var commitSha := response.shas[0].value;
      var treeResponse := api.trees(repo, commitSha);
      if !IsSuccess(treeResponse.status) {
        return Success(None);
      }
      var tree := if treeResponse.tree.Some? then treeResponse.tree.value else [];
      return Success(BlobPaths(tree));
    }
  }
}
