/**
 * `build_activity`: the public events of a time window, summarised into
 * counters, a busiest local day, a streak of consecutive active days, top
 * lists and one display record per event.  Instants are seconds since the
 * epoch; the timezone conversion is the supplied `localDay`, which maps an
 * instant to the number of its local calendar day.
 */
module Activity {
  import opened Wrappers
  import opened Text
  import opened Sorting
  import opened Counting
  import opened Schemas
  import opened Client

  const DaySeconds: int := 86400
  /** Length of the top-repository and top-event-type lists. */
  const TopCount: nat := 5
  /** Characters of a commit sha shown in a push record. */
  const ShaChars: nat := 7

  /** `now_utc - timedelta(days=window_days)` */
  function WindowStart(now: int, windowDays: int): int {
    now - windowDays * DaySeconds
  }

  // ---------------------------------------------------------------------
  // The window filter

  /** The events created at or after `start`, in feed order, event times compared with the window start as UTC instants. */
  function InWindow(events: seq<RawEvent>, start: int): seq<RawEvent> {
    if events == [] then []
    else (if events[0].createdAt >= start then [events[0]] else []) + InWindow(events[1..], start)
  }

  /**
   * The window holds exactly the events created at or after its start,
   * and filtering a concatenation filters each part in order.
   */
  lemma {:induction false} InWindowSpec(events: seq<RawEvent>, more: seq<RawEvent>, start: int)
    ensures |InWindow(events, start)| <= |events|
    ensures forall e :: e in InWindow(events, start) <==> e in events && e.createdAt >= start
    ensures InWindow(events + more, start) == InWindow(events, start) + InWindow(more, start)
  {
    if events != [] {
      InWindowSpec(events[1..], more, start);
      assert (events + more)[1..] == events[1..] + more;
      assert events == [events[0]] + events[1..];
    } else {
      assert events + more == more;
    }
  }

  /** A Python `datetime`: naive (no UTC offset) or aware (offset attached). */
  datatype Stamp = Naive(seconds: int) | Aware(seconds: int)

  datatype CompareError = TypeError

  /** `a >= b` on datetimes: comparing a naive with an aware one raises `TypeError`. */
  function StampAtLeast(a: Stamp, b: Stamp): Result<bool, CompareError> {
    if a.Naive? != b.Naive? then Failure(TypeError) else Success(a.seconds >= b.seconds)
  }

  /** The window filter as written: aware event times compared with the given window start. */
  function InWindowAsWritten(events: seq<RawEvent>, start: Stamp): Result<seq<RawEvent>, CompareError> {
    if events == [] then Success([])
    else
      var keep :- StampAtLeast(Aware(events[0].createdAt), start);
      var rest :- InWindowAsWritten(events[1..], start);
      Success((if keep then [events[0]] else []) + rest)
  }

  /**
   * As written, the window start comes from the naive `utcnow()`, so the
   * filter raises on the first event: it succeeds only on an empty feed.
   */
  lemma WindowAsWrittenRaises(events: seq<RawEvent>, now: int, windowDays: int)
    ensures InWindowAsWritten(events, Naive(WindowStart(now, windowDays))).Failure? <==> events != []
  {
  }

  /** With an aware window start, the filter as written is the intended one. */
  lemma {:induction false} WindowAsIntended(events: seq<RawEvent>, start: int)
    ensures InWindowAsWritten(events, Aware(start)) == Success(InWindow(events, start))
  {
    if events != [] {
      WindowAsIntended(events[1..], start);
    }
  }

  // ---------------------------------------------------------------------
  // Counters and the summary

  /** `e["repo"]["name"] for e in window_events` */
  function RepoNames(window: seq<RawEvent>): (r: seq<string>)
    ensures |r| == |window|
    ensures forall i :: 0 <= i < |window| ==> r[i] == window[i].repoName
  {
    if window == [] then [] else [window[0].repoName] + RepoNames(window[1..])
  }

  /** `e["type"] for e in window_events` */
  function Kinds(window: seq<RawEvent>): (r: seq<string>)
    ensures |r| == |window|
    ensures forall i :: 0 <= i < |window| ==> r[i] == window[i].kind
  {
    if window == [] then [] else [window[0].kind] + Kinds(window[1..])
  }

  /** The number of window events of a kind: the reference the type counter is checked against. */
  function CountKind(window: seq<RawEvent>, kind: string): nat {
    if window == [] then 0 else (if window[0].kind == kind then 1 else 0) + CountKind(window[1..], kind)
  }

  /** The type counter's entry for a kind is the number of events of that kind. */
  lemma CountKindIsGet(window: seq<RawEvent>, kind: string)
    ensures Get(CountAll(Kinds(window)), kind) == CountKind(window, kind)
  {
    CountAllSpec(Kinds(window));
    KindsMultiset(window, kind);
  }

  lemma {:induction false} KindsMultiset(window: seq<RawEvent>, kind: string)
    ensures multiset(Kinds(window))[kind] == CountKind(window, kind)
  {
    if window != [] {
      KindsMultiset(window[1..], kind);
      assert Kinds(window) == [window[0].kind] + Kinds(window[1..]);
    }
  }

  /** The nine named kinds of the summary together never count more events than there are. */
  lemma {:induction false} NamedKindsBound(window: seq<RawEvent>)
    ensures CountKind(window, "PushEvent") + CountKind(window, "PullRequestEvent") + CountKind(window, "IssuesEvent")
            + CountKind(window, "IssueCommentEvent") + CountKind(window, "CommitCommentEvent")
            + CountKind(window, "ReleaseEvent") + CountKind(window, "WatchEvent")
            + CountKind(window, "CreateEvent") + CountKind(window, "DeleteEvent") <= |window|
  {
    if window != [] {
      NamedKindsBound(window[1..]);
    }
  }

  /** `schemas.ActivitySummary(...)` from the repository and type counters. */
  function Summarize(window: seq<RawEvent>): ActivitySummary {
    var types := CountAll(Kinds(window));
    ActivitySummary(
      events := |window|,
      repos := |CountAll(RepoNames(window))|,
      pushes := Get(types, "PushEvent"),
      pullRequests := Get(types, "PullRequestEvent"),
      issues := Get(types, "IssuesEvent"),
      comments := Get(types, "IssueCommentEvent") + Get(types, "CommitCommentEvent"),
      releases := Get(types, "ReleaseEvent"),
      stars := Get(types, "WatchEvent"),
      creates := Get(types, "CreateEvent"),
      deletes := Get(types, "DeleteEvent"))
  }

  /**
   * The summary counts the window events and their distinct repositories;
   * each named field is the number of events of its kind (comments are
   * issue comments plus commit comments); and the named fields together
   * never exceed the number of events.
   */
  lemma SummarizeSpec(window: seq<RawEvent>)
    ensures Summarize(window).events == |window|
    ensures Summarize(window).repos == |set e | e in window :: e.repoName|
    ensures Summarize(window).pushes == CountKind(window, "PushEvent")
    ensures Summarize(window).pullRequests == CountKind(window, "PullRequestEvent")
    ensures Summarize(window).issues == CountKind(window, "IssuesEvent")
    ensures Summarize(window).comments == CountKind(window, "IssueCommentEvent") + CountKind(window, "CommitCommentEvent")
    ensures Summarize(window).releases == CountKind(window, "ReleaseEvent")
    ensures Summarize(window).stars == CountKind(window, "WatchEvent")
    ensures Summarize(window).creates == CountKind(window, "CreateEvent")
    ensures Summarize(window).deletes == CountKind(window, "DeleteEvent")
    ensures var s := Summarize(window);
            s.pushes + s.pullRequests + s.issues + s.comments + s.releases + s.stars + s.creates + s.deletes <= s.events
  {
    RepoNamesSet(window);
    CountAllSize(RepoNames(window));
    CountKindIsGet(window, "PushEvent");
    CountKindIsGet(window, "PullRequestEvent");
    CountKindIsGet(window, "IssuesEvent");
    CountKindIsGet(window, "IssueCommentEvent");
    CountKindIsGet(window, "CommitCommentEvent");
    CountKindIsGet(window, "ReleaseEvent");
    CountKindIsGet(window, "WatchEvent");
    CountKindIsGet(window, "CreateEvent");
    CountKindIsGet(window, "DeleteEvent");
    NamedKindsBound(window);
  }

  lemma RepoNamesSet(window: seq<RawEvent>)
    ensures (set x | x in RepoNames(window)) == (set e | e in window :: e.repoName)
  {
    var names := RepoNames(window);
    forall x | x in names ensures exists e | e in window :: e.repoName == x {
      var i :| 0 <= i < |names| && names[i] == x;
      assert window[i] in window;
    }
    forall e | e in window ensures e.repoName in names {
      var i :| 0 <= i < |window| && window[i] == e;
      assert names[i] == e.repoName;
    }
  }

  // ---------------------------------------------------------------------
  // Top lists

  /** `f"{name}:{count}"` */
  function Label(entry: (string, nat)): string {
    entry.0 + ":" + NatToString(entry.1)
  }

  function Labels(entries: seq<(string, nat)>): (r: seq<string>)
    ensures |r| == |entries|
    ensures forall i :: 0 <= i < |entries| ==> r[i] == Label(entries[i])
  {
    if entries == [] then [] else [Label(entries[0])] + Labels(entries[1..])
  }

  /** `Counter(names).most_common(5)` */
  function TopEntries(names: seq<string>): seq<(string, nat)> {
    MostCommon(CountAll(names), TopCount)
  }

  /**
   * The top list has five entries, or one per distinct name when there
   * are fewer; each entry is a name with its number of occurrences; the
   * entries run from most to least frequent; and a name left out occurs
   * no more often than any name kept.
   */
  lemma TopEntriesSpec(names: seq<string>)
    ensures |TopEntries(names)| == if |set n | n in names| < TopCount then |set n | n in names| else TopCount
    ensures SortedDesc(TopEntries(names), CountOf)
    ensures forall e | e in TopEntries(names) :: e.0 in names && e.1 == multiset(names)[e.0]
    ensures forall n, e | n in names && e in TopEntries(names) && (forall e' | e' in TopEntries(names) :: e'.0 != n) ::
              multiset(names)[n] <= e.1
    ensures forall i, j :: 0 <= i < j < |TopEntries(names)| ==> TopEntries(names)[i].0 != TopEntries(names)[j].0
  {
    var c := CountAll(names);
    var top := TopEntries(names);
    CountAllSpec(names);
    CountAllSize(names);
    MostCommonSpec(c, TopCount);
    forall e | e in top ensures e.0 in names && e.1 == multiset(names)[e.0] {
      var i :| 0 <= i < |c| && c[i] == e;
      CountAllAt(names, i);
      assert Keys(c)[i] == e.0;
    }
    forall n, e | n in names && e in top && (forall e' | e' in top :: e'.0 != n) ensures multiset(names)[n] <= e.1 {
      var i := CountAllEntry(names, n);
      CountAllAt(names, i);
      assert c[i] !in top;
    }
  }

  /**
   * Names with equal counts are listed in order of first appearance, and
   * a name left out with the same count as a listed one first appears
   * after it: ties are cut as `most_common` cuts them.
   */
  lemma TopEntriesTies(names: seq<string>)
    ensures var top := TopEntries(names);
            forall i, j :: 0 <= i < j < |top| && top[i].1 == top[j].1 ==> FirstIndex(names, top[i].0) < FirstIndex(names, top[j].0)
    ensures var top := TopEntries(names);
            forall n, e | n in names && e in top && (forall e' | e' in top :: e'.0 != n) && multiset(names)[n] == e.1 ::
              FirstIndex(names, e.0) < FirstIndex(names, n)
  {
    var c := CountAll(names);
    var top := TopEntries(names);
    MostCommonTies(names, TopCount);
    forall n, e | n in names && e in top && (forall e' | e' in top :: e'.0 != n) && multiset(names)[n] == e.1
      ensures FirstIndex(names, e.0) < FirstIndex(names, n)
    {
      var i := CountAllEntry(names, n);
      CountAllAt(names, i);
      assert c[i] in c && c[i] !in top;
    }
  }

  // ---------------------------------------------------------------------
  // Local days, the busiest day and the streak

  /** The local day of each window event, in window order. */
  function Days(window: seq<RawEvent>, localDay: int -> int): (r: seq<int>)
    ensures |r| == |window|
  {
    seq(|window|, i requires 0 <= i < |window| => localDay(window[i].createdAt))
  }

  /** The loop filling `events_by_local_day`. */
  method CountLocalDays(window: seq<RawEvent>, localDay: int -> int) returns (counter: Counter<int>)
    ensures counter == CountAll(Days(window, localDay))
  {
    counter := [];
    for i := 0 to |window|
      invariant counter == CountAll(Days(window[..i], localDay))
    {
      var day := localDay(window[i].createdAt);
      ghost var before := Days(window[..i], localDay);
      assert Days(window[..i + 1], localDay) == before + [day];
      assert (before + [day])[..|before|] == before;
      counter := Increment(counter, day);
    }
    assert window[..|window|] == window;
  }

  /**
   * The busiest day is absent exactly when there are no events; otherwise
   * it is a day with events, no day has more, and every other day with as
   * many first appears later.
   */
  lemma BusiestDaySpec(days: seq<int>)
    ensures MostCommonKey(CountAll(days)).None? <==> days == []
    ensures MostCommonKey(CountAll(days)).Some? ==>
              MostCommonKey(CountAll(days)).value in days
              && forall x | x in days :: multiset(days)[MostCommonKey(CountAll(days)).value] >= multiset(days)[x]
    ensures MostCommonKey(CountAll(days)).Some? ==>
              var d := MostCommonKey(CountAll(days)).value;
              forall x | x in days && multiset(days)[x] == multiset(days)[d] :: FirstIndex(days, d) <= FirstIndex(days, x)
  {
    var c := CountAll(days);
    CountAllKeys(days);
    MostCommonKeySpec(c);
    if days != [] {
      assert days[0] in Keys(c);
      BusiestDayMax(days);
      BusiestDayFirst(days);
    }
  }

  /** The most common day of a non-empty list is one of its days, and no day occurs more often. */
  lemma BusiestDayMax(days: seq<int>)
    requires MostCommonKey(CountAll(days)).Some?
    ensures MostCommonKey(CountAll(days)).value in days
    ensures forall x | x in days :: multiset(days)[MostCommonKey(CountAll(days)).value] >= multiset(days)[x]
  {
    var c := CountAll(days);
    var i := MostCommonKeyIndex(c);
    var d := MostCommonKey(c).value;
    CountAllAt(days, i);
    CountAllKeys(days);
    assert Keys(c)[i] == d;
    forall x | x in days ensures multiset(days)[d] >= multiset(days)[x] {
      var j := CountAllEntry(days, x);
      CountAllAt(days, j);
      assert c[j] in c;
    }
  }

  /** Any other day with as many events as the busiest one first appears after it. */
  lemma BusiestDayFirst(days: seq<int>)
    requires MostCommonKey(CountAll(days)).Some?
    ensures var d := MostCommonKey(CountAll(days)).value;
            forall x | x in days && multiset(days)[x] == multiset(days)[d] :: FirstIndex(days, d) <= FirstIndex(days, x)
  {
    var c := CountAll(days);
    var i := MostCommonKeyIndex(c);
    var d := MostCommonKey(c).value;
    CountAllAt(days, i);
    CountAllOrder(days);
    forall x | x in days && multiset(days)[x] == multiset(days)[d] ensures FirstIndex(days, d) <= FirstIndex(days, x) {
      var j := CountAllEntry(days, x);
      CountAllAt(days, j);
      assert i <= j;
      assert Keys(c)[i] == d && Keys(c)[j] == x;
    }
  }

  function Neg(day: int): int {
    -day
  }

  /** `sorted(events_by_local_day.keys())` */
  function ActiveDays(counter: Counter<int>): seq<int> {
    SortDesc(Keys(counter), Neg)
  }

  /** The active days are exactly the days with events, in strictly increasing order. */
  lemma ActiveDaysSpec(days: seq<int>)
    ensures forall d :: d in ActiveDays(CountAll(days)) <==> d in days
    ensures forall i, j :: 0 <= i < j < |ActiveDays(CountAll(days))| ==> ActiveDays(CountAll(days))[i] < ActiveDays(CountAll(days))[j]
    ensures |ActiveDays(CountAll(days))| == |CountAll(days)|
    ensures ActiveDays(CountAll(days)) == [] <==> days == []
  {
    var c := CountAll(days);
    var keys := Keys(c);
    var a := ActiveDays(c);
    CountAllWellFormed(days);
    CountAllKeys(days);
    DistinctKeysList(c);
    SortDescSortedPermutation(keys, Neg);
    SameMembers(a, keys);
    DistinctPermutation(keys, a);
    forall i, j | 0 <= i < j < |a| ensures a[i] < a[j] {
      assert Neg(a[i]) >= Neg(a[j]);
    }
    if days != [] {
      assert days[0] in keys;
    }
  }

  /** The number of days, counted back from the last, that follow each other one day apart. */
  function TrailingRun(days: seq<int>): nat {
    if |days| <= 1 then |days|
    else if days[|days| - 1] - days[|days| - 2] == 1 then 1 + TrailingRun(days[..|days| - 1])
    else 1
  }

  /**
   * The run is empty exactly when there are no days; otherwise it has
   * between one and all of them, its days follow each other one day apart,
   * and it cannot be extended by the day before it.
   */
  lemma {:induction false} TrailingRunSpec(days: seq<int>)
    ensures TrailingRun(days) == 0 <==> days == []
    ensures days != [] ==> 1 <= TrailingRun(days) <= |days|
    ensures forall j :: |days| - TrailingRun(days) <= j < |days| - 1 ==> days[j + 1] - days[j] == 1
    ensures 0 < TrailingRun(days) < |days| ==>
              days[|days| - TrailingRun(days)] - days[|days| - TrailingRun(days) - 1] != 1
  {
    if |days| > 1 && days[|days| - 1] - days[|days| - 2] == 1 {
      var init := days[..|days| - 1];
      TrailingRunSpec(init);
      forall j | |days| - TrailingRun(days) <= j < |days| - 1 ensures days[j + 1] - days[j] == 1 {
        if j < |days| - 2 {
          assert init[j + 1] - init[j] == 1;
        }
      }
      if TrailingRun(days) < |days| {
        assert days[|days| - TrailingRun(days)] == init[|init| - TrailingRun(init)];
      }
    }
  }

  /** The streak loop: walks back from the last active day while the days are one apart. */
  method Streak(days: seq<int>) returns (streak: nat)
    ensures streak == TrailingRun(days)
  {
    streak := 0;
    if |days| > 0 {
      streak := 1;
      var current := days[|days| - 1];
      var i := |days| - 2;
      assert days[..|days|] == days;
      while i >= 0
        invariant -1 <= i <= |days| - 2
        invariant streak == |days| - 1 - i
        invariant current == days[i + 1]
        invariant TrailingRun(days) == |days| - 2 - i + TrailingRun(days[..i + 2])
        decreases i + 1
      {
        var prev := days[i];
        if current - prev == 1 {
          assert days[..i + 2][..i + 1] == days[..i + 1];
          streak := streak + 1;
          current := prev;
        } else {
          break;
        }
        i := i - 1;
      }
    }
  }

  // ---------------------------------------------------------------------
  // Event records

  function CountChar(s: string, c: char): nat {
    if s == [] then 0 else (if s[0] == c then 1 else 0) + CountChar(s[1..], c)
  }

  lemma {:induction false} CountCharAppend(a: string, b: string, c: char)
    ensures CountChar(a + b, c) == CountChar(a, c) + CountChar(b, c)
  {
    if a != [] {
      assert (a + b)[1..] == a[1..] + b;
      CountCharAppend(a[1..], b, c);
    } else {
      assert a + b == b;
    }
  }

  lemma {:induction false} CountCharZero(s: string, c: char)
    ensures CountChar(s, c) == 0 <==> c !in s
  {
    if s != [] {
      CountCharZero(s[1..], c);
      assert s == [s[0]] + s[1..];
    }
  }

  /** `repo_name_full.split('/')` unpacks into two parts only when there is exactly one slash. */
  predicate OneSlash(full: string) {
    CountChar(full, '/') == 1
  }

  /** `repo_owner, repo_name_short = repo_name_full.split('/')` */
  function SplitOwner(full: string): (string, string)
    requires OneSlash(full)
  {
    CountCharZero(full, '/');
    var k := IndexOf(full, '/');
    (full[..k], full[k + 1..])
  }

  /** Owner and name join back into the full name, and neither holds a slash. */
  lemma SplitOwnerSpec(full: string)
    requires OneSlash(full)
    ensures SplitOwner(full).0 + "/" + SplitOwner(full).1 == full
    ensures '/' !in SplitOwner(full).0 && '/' !in SplitOwner(full).1
  {
    var k := IndexOf(full, '/');
    CountCharZero(full, '/');
    assert k < |full|;
    assert full == full[..k] + "/" + full[k + 1..];
    CountCharAppend(full[..k] + "/", full[k + 1..], '/');
    CountCharAppend(full[..k], "/", '/');
    CountCharZero(full[k + 1..], '/');
  }

  /** Any slash-free owner and name joined by a slash split back into themselves. */
  lemma SplitOwnerJoin(owner: string, name: string)
    requires '/' !in owner && '/' !in name
    ensures OneSlash(owner + "/" + name)
    ensures SplitOwner(owner + "/" + name) == (owner, name)
  {
    var full := owner + "/" + name;
    CountCharAppend(owner + "/", name, '/');
    CountCharAppend(owner, "/", '/');
    CountCharZero(owner, '/');
    CountCharZero(name, '/');
    IndexOfPrefix(owner, '/', name);
    assert full[..|owner|] == owner;
    assert full[|owner| + 1..] == name;
  }

  /** `event["payload"].get("commits", [])` */
  function PushCommits(payload: Payload): seq<Commit> {
    if payload.commits.Some? then payload.commits.value else []
  }

  /** `event["payload"].get("size", 0)` */
  function PushSize(payload: Payload): int {
    if payload.size.Some? then payload.size.value else 0
  }

  /** `f"{c['sha'][:7]}: {c['message'].splitlines()[0]}"` */
  function Abbrev(c: Commit): string
    requires c.message != ""
  {
    FirstLine(c.message);
    Take(c.sha, ShaChars) + ": " + SplitLines(c.message)[0]
  }

  /** A commit line is at most seven characters of the sha, then the message up to its first newline. */
  lemma AbbrevSpec(c: Commit)
    requires c.message != ""
    ensures Abbrev(c) == Take(c.sha, ShaChars) + ": " + c.message[..IndexOf(c.message, '\n')]
    ensures |Take(c.sha, ShaChars)| <= ShaChars && Take(c.sha, ShaChars) <= c.sha
    ensures '\n' !in c.message[..IndexOf(c.message, '\n')]
  {
    FirstLine(c.message);
  }

  function Abbrevs(commits: seq<Commit>): (r: seq<string>)
    requires forall c | c in commits :: c.message != ""
    ensures |r| == |commits|
    ensures forall i :: 0 <= i < |commits| ==> r[i] == Abbrev(commits[i])
  {
    if commits == [] then [] else [Abbrev(commits[0])] + Abbrevs(commits[1..])
  }

  /** `f"Pushed {commit_count} commit{plural} to {repo_name_full}"` */
  function PushTitle(size: int, full: string): string {
    "Pushed " + IntToString(size) + " commit" + (if size != 1 then "s" else "") + " to " + full
  }

  /** The title says "commit" rather than "commits" exactly when the push has one commit. */
  lemma PushTitleSingular(size: int, full: string)
    ensures PushTitle(size, full) == "Pushed " + IntToString(size) + " commit to " + full <==> size == 1
    ensures PushTitle(size, full) == "Pushed " + IntToString(size) + " commits to " + full <==> size != 1
  {
    if size != 1 {
      assert |PushTitle(size, full)| == |"Pushed " + IntToString(size) + " commit to " + full| + 1;
    } else {
      assert |PushTitle(size, full)| + 1 == |"Pushed " + IntToString(size) + " commits to " + full|;
    }
  }

  function RepoUrl(full: string): string {
    "https://github.com/" + full
  }

  /**
   * The event shapes the record builder relies on: one slash in the
   * repository name, a first line in every push commit message, and an
   * action and a pull request on every pull-request event.
   */
  predicate WellShaped(e: RawEvent) {
    OneSlash(e.repoName)
    && (e.kind == "PushEvent" ==> forall c | c in PushCommits(e.payload) :: c.message != "")
    && (e.kind == "PullRequestEvent" ==> e.payload.action.Some? && e.payload.pullRequest.Some?)
  }

  /** The display record of one window event. */
  function EventRecord(e: RawEvent): ActivityEvent
    requires WellShaped(e)
  {
    var (owner, name) := SplitOwner(e.repoName);
    var full := e.repoName;
    if e.kind == "PushEvent" then
      ActivityEvent(e.kind, owner, name, e.createdAt,
        if e.payload.ref.Some? then RepoUrl(full) + "/tree/" + e.payload.ref.value else RepoUrl(full),
        PushTitle(PushSize(e.payload), full),
        Some(Abbrevs(PushCommits(e.payload))), e.id)
    else if e.kind == "PullRequestEvent" then
      var pr := e.payload.pullRequest.value;
      ActivityEvent(e.kind, owner, name, e.createdAt, pr.htmlUrl,
        "PR " + e.payload.action.value + ": \"" + pr.title + "\" on " + full, None, e.id)
    else
      ActivityEvent(e.kind, owner, name, e.createdAt, RepoUrl(full), e.kind + " on " + full, None, e.id)
  }

  /**
   * A record keeps the event's type, time and id; its owner and short
   * name join back into the repository name; only push records list
   * commits, one line per payload commit in order; a push title counts
   * the commits and is singular exactly when the size is one; a
   * pull-request title names the action and the pull request's title, any
   * other title the event type; a pull-request record links the pull
   * request and any other record the repository (or, for a push with a
   * ref, its tree at that ref).
   */
  lemma EventRecordSpec(e: RawEvent)
    requires WellShaped(e)
    ensures EventRecord(e).kind == e.kind && EventRecord(e).atUtc == e.createdAt && EventRecord(e).eventId == e.id
    ensures EventRecord(e).repoOwner + "/" + EventRecord(e).repoName == e.repoName
    ensures '/' !in EventRecord(e).repoOwner && '/' !in EventRecord(e).repoName
    ensures EventRecord(e).commits.Some? <==> e.kind == "PushEvent"
    ensures e.kind == "PushEvent" ==>
              |EventRecord(e).commits.value| == |PushCommits(e.payload)|
              && forall i :: 0 <= i < |PushCommits(e.payload)| ==>
                   EventRecord(e).commits.value[i] == Abbrev(PushCommits(e.payload)[i])
    ensures e.kind == "PushEvent" ==>
              (EventRecord(e).title == "Pushed " + IntToString(PushSize(e.payload)) + " commit to " + e.repoName
               <==> PushSize(e.payload) == 1)
    ensures e.kind == "PushEvent" && PushSize(e.payload) != 1 ==>
              EventRecord(e).title == "Pushed " + IntToString(PushSize(e.payload)) + " commits to " + e.repoName
    ensures e.kind == "PullRequestEvent" ==>
              EventRecord(e).title
              == "PR " + e.payload.action.value + ": \"" + e.payload.pullRequest.value.title + "\" on " + e.repoName
    ensures e.kind != "PushEvent" && e.kind != "PullRequestEvent" ==>
              EventRecord(e).title == e.kind + " on " + e.repoName
    ensures e.kind == "PullRequestEvent" ==> EventRecord(e).url == e.payload.pullRequest.value.htmlUrl
    ensures e.kind != "PullRequestEvent" && !(e.kind == "PushEvent" && e.payload.ref.Some?) ==>
              EventRecord(e).url == RepoUrl(e.repoName)
    ensures e.kind == "PushEvent" && e.payload.ref.Some? ==>
              EventRecord(e).url == RepoUrl(e.repoName) + "/tree/" + e.payload.ref.value
  {
    SplitOwnerSpec(e.repoName);
    PushTitleSingular(PushSize(e.payload), e.repoName);
  }

  /** One record per window event, in window order. */
  function EventRecords(window: seq<RawEvent>): (r: seq<ActivityEvent>)
    requires forall e | e in window :: WellShaped(e)
  {
    seq(|window|, i requires 0 <= i < |window| => EventRecord(window[i]))
  }

  /** The loop filling `events_list`. */
  method BuildEventRecords(window: seq<RawEvent>) returns (records: seq<ActivityEvent>)
    requires forall e | e in window :: WellShaped(e)
    ensures |records| == |window|
    ensures forall i :: 0 <= i < |window| ==> records[i] == EventRecord(window[i])
  {
    records := [];
    for i := 0 to |window|
      invariant |records| == i
      invariant forall j :: 0 <= j < i ==> records[j] == EventRecord(window[j])
    {
      var e := window[i];
      assert e in window;
      var (owner, name) := SplitOwner(e.repoName);
      var full := e.repoName;
      var title := e.kind + " on " + full;
      var commits: Option<seq<string>> := None;
      var url := RepoUrl(full);
      if e.kind == "PushEvent" {
        var size := PushSize(e.payload);
        title := PushTitle(size, full);
        commits := Some(Abbrevs(PushCommits(e.payload)));
        if e.payload.ref.Some? {
          url := RepoUrl(full) + "/tree/" + e.payload.ref.value;
        }
      } else if e.kind == "PullRequestEvent" {
        var action := e.payload.action.value;
        var pr := e.payload.pullRequest.value;
        title := "PR " + action + ": \"" + pr.title + "\" on " + full;
        url := pr.htmlUrl;
      }
      records := records + [ActivityEvent(e.kind, owner, name, e.createdAt, url, title, commits, e.id)];
    }
  }

  // ---------------------------------------------------------------------
  // The whole feed

  /** Every event of the window has the shape the record builder needs. */
  predicate WindowWellShaped(events: seq<RawEvent>, start: int) {
    forall e | e in InWindow(events, start) :: WellShaped(e)
  }

  /** What `build_activity` returns for a fetched event list. */
  function ActivityFor(username: string, now: int, windowDays: int, localDay: int -> int, events: seq<RawEvent>): Activity
    requires WindowWellShaped(events, WindowStart(now, windowDays))
  {
    var start := WindowStart(now, windowDays);
    var window := InWindow(events, start);
    Activity(
      schemaVersion := SchemaVersion,
      username := username,
      generatedUtc := now,
      windowStartUtc := start,
      windowDays := windowDays,
      summary := Summarize(window),
      insights := Insights(window, localDay),
      events := EventRecords(window))
  }

  /** The insights `build_activity` derives from the window and its local days. */
  function Insights(window: seq<RawEvent>, localDay: int -> int): ActivityInsights {
    var days := CountAll(Days(window, localDay));
    ActivityInsights(
      streakDays := TrailingRun(ActiveDays(days)),
      busiestLocalDay := MostCommonKey(days),
      topRepos := Labels(TopEntries(RepoNames(window))),
      topEventTypes := Labels(TopEntries(Kinds(window))))
  }

  /**
   * The streak over the active days of a list of local days is zero
   * exactly when there are no days, and never more than the number of
   * distinct days.
   */
  lemma {:induction false} StreakSpec(ds: seq<int>)
    ensures TrailingRun(ActiveDays(CountAll(ds))) == 0 <==> ds == []
    ensures TrailingRun(ActiveDays(CountAll(ds))) <= |set d | d in ds|
  {
    var a := ActiveDays(CountAll(ds));
    ActiveDaysSpec(ds);
    CountAllSize(ds);
    TrailingRunSpec(a);
  }

  /**
   * The insights over a window: the streak and the busiest day are empty
   * exactly when the window is; the streak is at most the number of
   * active days; the top lists have at most five entries.
   */
  lemma InsightsBounds(window: seq<RawEvent>, localDay: int -> int)
    ensures var i := Insights(window, localDay);
            (i.streakDays == 0 <==> window == [])
            && (i.busiestLocalDay.None? <==> window == [])
            && i.streakDays <= |set d | d in Days(window, localDay)|
            && |i.topRepos| <= TopCount && |i.topEventTypes| <= TopCount
  {
    var ds := Days(window, localDay);
    StreakSpec(ds);
    BusiestDaySpec(ds);
    MostCommonSpec(CountAll(RepoNames(window)), TopCount);
    MostCommonSpec(CountAll(Kinds(window)), TopCount);
  }

  /**
   * The feed starts `windowDays` days before `now`, has one summary count
   * and one record per window event, and its streak and busiest day are
   * empty exactly when the window is.
   */
  lemma ActivityForSpec(username: string, now: int, windowDays: int, localDay: int -> int, events: seq<RawEvent>)
    requires WindowWellShaped(events, WindowStart(now, windowDays))
    ensures var a := ActivityFor(username, now, windowDays, localDay, events);
            var window := InWindow(events, WindowStart(now, windowDays));
            a.windowStartUtc == WindowStart(now, windowDays)
            && a.summary.events == |window| == |a.events|
            && (a.insights.streakDays == 0 <==> window == [])
            && (a.insights.busiestLocalDay.None? <==> window == [])
  {
    InsightsBounds(InWindow(events, WindowStart(now, windowDays)), localDay);
  }

  /** The feed's streak is at most its number of active days, and its top lists have at most five entries. */
  lemma ActivityForBounds(username: string, now: int, windowDays: int, localDay: int -> int, events: seq<RawEvent>)
    requires WindowWellShaped(events, WindowStart(now, windowDays))
    ensures var a := ActivityFor(username, now, windowDays, localDay, events);
            var window := InWindow(events, WindowStart(now, windowDays));
            a.insights.streakDays <= |set d | d in Days(window, localDay)|
            && |a.insights.topRepos| <= TopCount && |a.insights.topEventTypes| <= TopCount
  {
    InsightsBounds(InWindow(events, WindowStart(now, windowDays)), localDay);
  }

  /** The counters, streak and rankings of `build_activity`. */
  method BuildInsights(window: seq<RawEvent>, localDay: int -> int) returns (insights: ActivityInsights)
    ensures insights == Insights(window, localDay)
  {
    var repoCounter := CountAll(RepoNames(window));
    var typeCounter := CountAll(Kinds(window));
    var dayCounter := CountLocalDays(window, localDay);
    var busiest := MostCommonKey(dayCounter);
    var activeDays := ActiveDays(dayCounter);
    var streak := Streak(activeDays);
    insights := ActivityInsights(streak, busiest, Labels(MostCommon(repoCounter, TopCount)),
                                 Labels(MostCommon(typeCounter, TopCount)));
  }

  /**
   * `build_activity`: fails only on a closed client; otherwise the feed of
   * the fetched events as `ActivityFor` describes it.
   */
  method BuildActivity(client: GitHubClient, username: string, localDay: int -> int, windowDays: int, now: int)
    returns (r: Result<Activity, ClientError>)
    requires ChainEnds(client.api.eventPages)
    requires WindowWellShaped(Paginated(client.api.eventPages), WindowStart(now, windowDays))
    ensures !client.open ==> r == Failure(Closed)
    ensures client.open ==> r == Success(ActivityFor(username, now, windowDays, localDay, Paginated(client.api.eventPages)))
  {
    var start := WindowStart(now, windowDays);
    var allEvents :- client.GetPublicEvents();
    var window := InWindow(allEvents, start);
    var summary := Summarize(window);
    var insights := BuildInsights(window, localDay);
    var records := BuildEventRecords(window);
    assert records == EventRecords(window);
    return Success(Activity(SchemaVersion, username, now, start, windowDays, summary, insights, records));
  }
}
