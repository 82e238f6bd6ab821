/**
 * Selecting one year's releases from the paginated list-releases endpoint.
 * The endpoint is given as the sequence of its answers to page 1, 2, ...;
 * a page asked for beyond the end of that sequence answers with no releases.
 */
module Releases {
  import opened Text
  import opened Changelog

  datatype Option<T> = None | Some(value: T)

  /**
   * A release as the endpoint reports it, with the fields the selection reads;
   * `year` is the calendar year of `createdAt`.
   */
  datatype Release = Release(year: int, createdAt: string, name: Option<string>, htmlUrl: string, body: Option<string>)

  /** The endpoint's answer to one page request: the page's releases, or a failure status. */
  datatype Response = Ok(data: seq<Release>) | Err(status: int, text: string)

  /** The record collected for a release of the target year. */
  datatype Entry = Entry(createdAt: string, name: string, htmlUrl: string, body: string)

  /** What `getReleasesForYear` ends with: the collected records, or the error it throws. */
  datatype Outcome = Collected(entries: seq<Entry>) | Failed(status: int, text: string)

  const NoName: string := "No name provided"

  /** `release.body || ""` */
  function BodyText(release: Release): string {
    match release.body
    case Some(b) => b
    case None => ""
  }

  /** `release.name || "No name provided"`: a missing or empty name falls back to the placeholder. */
  function DisplayName(release: Release): string {
    if release.name.Some? && release.name.value != "" then release.name.value else NoName
  }

  /** A release of the target year whose filtered body is not empty: it produces a record. */
  predicate Eligible(release: Release, year: int) {
    release.year == year && Filtered(BodyText(release)) != ""
  }

  function EntryOf(release: Release): Entry {
    Entry(release.createdAt, DisplayName(release), release.htmlUrl, Filtered(BodyText(release)))
  }

  /** The records of the eligible releases among `releases`, in their order. */
  function Collect(releases: seq<Release>, year: int): seq<Entry> {
    if |releases| == 0 then []
    else
      var n := |releases| - 1;
      Collect(releases[..n], year) + (if Eligible(releases[n], year) then [EntryOf(releases[n])] else [])
  }

  /** The answer to the request for page `n + 1`. */
  function ResponseAt(pages: seq<Response>, n: nat): Response {
    if n < |pages| then pages[n] else Ok([])
  }

  /** After this answer the loop asks for the next page: it is a non-empty page with no release older than the year. */
  predicate Continues(response: Response, year: int) {
    response.Ok? && |response.data| > 0 && forall i :: 0 <= i < |response.data| ==> response.data[i].year >= year
  }

  /** The loop went on after each of the first `p` answers. */
  predicate AllContinue(pages: seq<Response>, year: int, p: nat)
    requires p <= |pages|
  {
    forall m :: 0 <= m < p ==> Continues(pages[m], year)
  }

  /** The index of the first answer, from `from` on, after which the loop asks for no further page. */
  function StopPage(pages: seq<Response>, year: int, from: nat): (p: nat)
    requires from <= |pages|
    ensures from <= p <= |pages|
    ensures forall m :: from <= m < p ==> Continues(pages[m], year)
    ensures p < |pages| ==> !Continues(pages[p], year)
    decreases |pages| - from
  {
    if from == |pages| || !Continues(pages[from], year) then from else StopPage(pages, year, from + 1)
  }

  /** The releases of the given pages, one page after the other. */
  function Flatten(pages: seq<Response>): seq<Release> {
    if |pages| == 0 then []
    else
      var last := pages[|pages| - 1];
      Flatten(pages[..|pages| - 1]) + (if last.Ok? then last.data else [])
  }

  /** The releases of a page that come before its first release older than the year. */
  function BeforeOlder(releases: seq<Release>, year: int): (r: seq<Release>)
    ensures |r| <= |releases| && r == releases[..|r|]
    ensures forall i :: 0 <= i < |r| ==> r[i].year >= year
    ensures |r| < |releases| ==> releases[|r|].year < year
  {
    if |releases| == 0 || releases[0].year < year then []
    else [releases[0]] + BeforeOlder(releases[1..], year)
  }

  /**
   * The result of `getReleasesForYear(year)`: pages are read up to the first
   * one that fails, is empty, or holds a release older than the year. A
   * failing page throws; otherwise the records of the eligible releases seen
   * so far, that page's releases before its first older one included, are
   * returned.
   */
  function Expected(pages: seq<Response>, year: int): Outcome {
    var p := StopPage(pages, year, 0);
    match ResponseAt(pages, p)
    case Err(status, text) => Failed(status, text)
    case Ok(data) => Collected(Collect(Flatten(pages[..p]) + BeforeOlder(data, year), year))
  }

  /** The stop page is the first page after which the loop does not go on. */
  lemma StopPageIs(pages: seq<Response>, year: int, p: nat)
    requires p <= |pages|
    requires AllContinue(pages, year, p)
    requires p < |pages| ==> !Continues(pages[p], year)
    ensures StopPage(pages, year, 0) == p
  {
  }

  /** A page's releases before its first older one are exactly those before index `i`, when `i` holds the first older one. */
  lemma BeforeOlderIs(releases: seq<Release>, year: int, i: nat)
    requires i <= |releases|
    requires forall k :: 0 <= k < i ==> releases[k].year >= year
    requires i < |releases| ==> releases[i].year < year
    ensures BeforeOlder(releases, year) == releases[..i]
  {
  }

  /** Appending one release to the scanned ones appends its record, if it is eligible. */
  lemma CollectStep(seen: seq<Release>, data: seq<Release>, i: nat, year: int)
    requires i < |data|
    ensures Collect(seen + data[..i + 1], year) ==
              Collect(seen + data[..i], year) + (if Eligible(data[i], year) then [EntryOf(data[i])] else [])
  {
    assert (seen + data[..i + 1])[..|seen| + i] == seen + data[..i];
  }

  /** The releases of the first `p + 1` pages are those of the first `p` pages followed by page `p + 1`'s. */
  lemma FlattenStep(pages: seq<Response>, p: nat)
    requires p < |pages| && pages[p].Ok?
    ensures Flatten(pages[..p + 1]) == Flatten(pages[..p]) + pages[p].data
  {
    assert pages[..p + 1][..p] == pages[..p];
  }

  /** A page after which the loop goes on extends the run of such pages. */
  lemma ContinueStep(pages: seq<Response>, year: int, p: nat)
    requires p < |pages| && AllContinue(pages, year, p)
    requires Continues(pages[p], year)
    ensures AllContinue(pages, year, p + 1)
  {
  }

  /** A failing page, reached after pages that all continue, makes the whole call fail: no record is returned. */
  lemma ErrorAborts(pages: seq<Response>, year: int, p: nat)
    requires p < |pages| && pages[p].Err?
    requires AllContinue(pages, year, p)
    ensures Expected(pages, year) == Failed(pages[p].status, pages[p].text)
  {
    StopPageIs(pages, year, p);
  }

  /** An empty page, reached after pages that all continue, ends the loop with every record collected so far. */
  lemma EmptyPageEnds(pages: seq<Response>, year: int, p: nat)
    requires p <= |pages| && ResponseAt(pages, p) == Ok([])
    requires AllContinue(pages, year, p)
    ensures Expected(pages, year) == Collected(Collect(Flatten(pages[..p]), year))
  {
    StopPageIs(pages, year, p);
    assert Flatten(pages[..p]) + BeforeOlder([], year) == Flatten(pages[..p]);
  }

  /**
   * The first release older than the year, at index `i` of page `p + 1`, ends
   * the call at once: the records are those of the releases before it, and no
   * later release of that page and no later page contributes.
   */
  lemma StopsAtFirstOlder(pages: seq<Response>, year: int, p: nat, i: nat)
    requires p < |pages| && pages[p].Ok? && i < |pages[p].data|
    requires AllContinue(pages, year, p)
    requires forall k :: 0 <= k < i ==> pages[p].data[k].year >= year
    requires pages[p].data[i].year < year
    ensures Expected(pages, year) == Collected(Collect(Flatten(pages[..p]) + pages[p].data[..i], year))
  {
    StopPageIs(pages, year, p);
    BeforeOlderIs(pages[p].data, year, i);
  }

  /**
   * `getReleasesForYear(year)`: ask for page after page, keep the records of
   * the matching releases, and stop at an empty page or at the first release
   * older than the year; a failing page aborts with its status and text.
   */
  method GetReleasesForYear(pages: seq<Response>, year: int) returns (outcome: Outcome)
    ensures outcome == Expected(pages, year)
  {
    var releases: seq<Entry> := [];
    var page := 1;
    while true
      invariant 1 <= page <= |pages| + 1
      invariant AllContinue(pages, year, page - 1)
      invariant releases == Collect(Flatten(pages[..page - 1]), year)
      decreases |pages| + 1 - page
    {
      var response := ResponseAt(pages, page - 1);
      if response.Err? {
        ErrorAborts(pages, year, page - 1);
        return Failed(response.status, response.text);
      }
      var data := response.data;
      if |data| == 0 {
        EmptyPageEnds(pages, year, page - 1);
        break;
      }
      ghost var seen := Flatten(pages[..page - 1]);
      var older;
      releases, older := ScanPage(data, year, releases, seen);
      if older < |data| {
        StopsAtFirstOlder(pages, year, page - 1, older);
        return Collected(releases);
      }
      assert data[..older] == data;
      NextPage(pages, year, page - 1);
      page := page + 1;
    }
    return Collected(releases);
  }

  /** A non-empty page with no release older than the year sends the loop on to the next page. */
  lemma NextPage(pages: seq<Response>, year: int, p: nat)
    requires p <= |pages| && AllContinue(pages, year, p)
    requires ResponseAt(pages, p).Ok? && |ResponseAt(pages, p).data| > 0
    requires forall k :: 0 <= k < |ResponseAt(pages, p).data| ==> ResponseAt(pages, p).data[k].year >= year
    ensures p < |pages| && AllContinue(pages, year, p + 1)
    ensures Flatten(pages[..p + 1]) == Flatten(pages[..p]) + ResponseAt(pages, p).data
  {
    FlattenStep(pages, p);
    ContinueStep(pages, year, p);
  }

  /**
   * The inner loop of `getReleasesForYear` over one page: each release of the
   * year whose filtered body is not empty adds its record; a newer release is
   * skipped; the first older release ends the scan, and `older` is its index
   * (`|data|` when the page has none).
   */
  method ScanPage(data: seq<Release>, year: int, releases: seq<Entry>, ghost seen: seq<Release>)
    returns (releases': seq<Entry>, older: nat)
    requires releases == Collect(seen, year)
    ensures older <= |data|
    ensures forall k :: 0 <= k < older ==> data[k].year >= year
    ensures older < |data| ==> data[older].year < year
    ensures releases' == Collect(seen + data[..older], year)
  {
    releases' := releases;
    assert seen + data[..0] == seen;
    older := 0;
    while older < |data| && data[older].year >= year
      invariant 0 <= older <= |data|
      invariant forall k :: 0 <= k < older ==> data[k].year >= year
      invariant releases' == Collect(seen + data[..older], year)
    {
      CollectStep(seen, data, older, year);
      if data[older].year == year {
        releases' := AddRecord(data[older], year, releases');
      }
      older := older + 1;
    }
  }

  /** A release of the year adds its record, with its body filtered and its name defaulted, unless the filtered body is empty. */
  method AddRecord(release: Release, year: int, releases: seq<Entry>) returns (releases': seq<Entry>)
    requires release.year == year
    ensures releases' == releases + (if Eligible(release, year) then [EntryOf(release)] else [])
  {
    var filteredBody := FilterCategoriesFromMarkdown(BodyText(release));
    if filteredBody != "" {
      releases' := releases + [Entry(release.createdAt, DisplayName(release), release.htmlUrl, filteredBody)];
    } else {
      releases' := releases;
    }
  }

  /** Records keep the order of the releases: collecting a concatenation concatenates the records. */
  lemma {:induction false} CollectAppend(a: seq<Release>, b: seq<Release>, year: int)
    ensures Collect(a + b, year) == Collect(a, year) + Collect(b, year)
  {
    if |b| > 0 {
      var n := |b| - 1;
      assert (a + b)[..|a| + n] == a + b[..n];
      CollectAppend(a, b[..n], year);
    } else {
      assert a + b == a;
    }
  }

  /** Record `e` is produced by the release at index `i`. */
  predicate ProducedAt(releases: seq<Release>, year: int, i: int, e: Entry) {
    0 <= i < |releases| && Eligible(releases[i], year) && e == EntryOf(releases[i])
  }

  /** The records are exactly the records of the eligible releases among those scanned. */
  lemma CollectMembers(releases: seq<Release>, year: int, e: Entry)
    ensures e in Collect(releases, year) <==> exists i :: ProducedAt(releases, year, i, e)
  {
    if e in Collect(releases, year) {
      var i := CollectSource(releases, year, e);
    }
    if exists i :: ProducedAt(releases, year, i, e) {
      var i :| ProducedAt(releases, year, i, e);
      CollectIncludes(releases, year, i);
    }
  }

  /** Each record has a release that produced it. */
  lemma {:induction false} CollectSource(releases: seq<Release>, year: int, e: Entry) returns (i: int)
    requires e in Collect(releases, year)
    ensures ProducedAt(releases, year, i, e)
  {
    var n := |releases| - 1;
    var init := releases[..n];
    if e in Collect(init, year) {
      i := CollectSource(init, year, e);
      assert init[i] == releases[i];
    } else {
      i := n;
    }
  }

  /** Each eligible release produces its record. */
  lemma CollectIncludes(releases: seq<Release>, year: int, i: int)
    requires 0 <= i < |releases| && Eligible(releases[i], year)
    ensures EntryOf(releases[i]) in Collect(releases, year)
  {
    var r := releases[i];
    assert releases == releases[..i] + [r] + releases[i + 1..];
    CollectAppend(releases[..i] + [r], releases[i + 1..], year);
    CollectAppend(releases[..i], [r], year);
    CollectOne(r, year);
  }

  /** A single release yields its record exactly when it is eligible. */
  lemma CollectOne(r: Release, year: int)
    ensures Collect([r], year) == if Eligible(r, year) then [EntryOf(r)] else []
  {
    assert [r][..0] == [];
  }

  /** The releases of the first `q` pages come first among the releases of all pages. */
  lemma {:induction false} FlattenPrefix(pages: seq<Response>, q: nat)
    requires q <= |pages|
    ensures Flatten(pages[..q]) <= Flatten(pages)
  {
    if q < |pages| {
      var n := |pages| - 1;
      FlattenPrefix(pages[..n], q);
      assert pages[..n][..q] == pages[..q];
      assert pages[..|pages|] == pages;
    } else {
      assert pages[..q] == pages;
    }
  }

  /** The releases the call scans before it stops come first among the releases of all pages. */
  lemma ScannedIsPrefix(pages: seq<Response>, year: int)
    ensures var p := StopPage(pages, year, 0);
            ResponseAt(pages, p).Ok? ==>
              Flatten(pages[..p]) + BeforeOlder(ResponseAt(pages, p).data, year) <= Flatten(pages)
  {
    var p := StopPage(pages, year, 0);
    var response := ResponseAt(pages, p);
    if response.Ok? {
      var before := BeforeOlder(response.data, year);
      if p < |pages| {
        FlattenStep(pages, p);
        FlattenPrefix(pages, p + 1);
        assert Flatten(pages[..p]) + before <= Flatten(pages[..p]) + response.data;
      } else {
        assert pages[..p] == pages;
      }
    }
  }

  /**
   * Every record comes from a release in the pages of the target year whose
   * filtered body is not empty; its body is that filtered body, its name the
   * release's name when that is present and not empty and the placeholder
   * otherwise, and its date and URL are the release's.
   */
  lemma EntriesAreFromTargetYear(pages: seq<Response>, year: int, e: Entry)
    requires Expected(pages, year).Collected? && e in Expected(pages, year).entries
    ensures exists release :: release in Flatten(pages) && release.year == year
              && e.body == Filtered(BodyText(release)) && e.body != ""
              && e.name == (if release.name.Some? && release.name.value != "" then release.name.value else NoName)
              && e.createdAt == release.createdAt && e.htmlUrl == release.htmlUrl
  {
    var p := StopPage(pages, year, 0);
    var scanned := Flatten(pages[..p]) + BeforeOlder(ResponseAt(pages, p).data, year);
    CollectMembers(scanned, year, e);
    var i :| ProducedAt(scanned, year, i, e);
    ScannedIsPrefix(pages, year);
    assert scanned[i] == Flatten(pages)[i];
  }

  /** The record each release would produce, one per release, in order. */
  function EntriesOf(releases: seq<Release>): seq<Entry> {
    Map(EntryOf, releases)
  }

  /** The records keep the order of their releases: they are those releases' records with some left out. */
  lemma {:induction false} CollectInOrder(releases: seq<Release>, year: int)
    ensures IsSubsequence(Collect(releases, year), EntriesOf(releases))
  {
    if |releases| > 0 {
      var n := |releases| - 1;
      CollectInOrder(releases[..n], year);
      SubsequenceSnoc(Collect(releases[..n], year), EntriesOf(releases[..n]), EntryOf(releases[n]), Eligible(releases[n], year));
    }
  }

  /** Adding `x` to the end of `b`, and possibly to the end of its subsequence `a`, keeps `a` a subsequence. */
  lemma SubsequenceSnoc<T>(a: seq<T>, b: seq<T>, x: T, keep: bool)
    requires IsSubsequence(a, b)
    ensures IsSubsequence(a + (if keep then [x] else []), b + [x])
  {
    assert (b + [x])[..|b|] == b;
    if keep {
      assert (a + [x])[..|a|] == a;
    } else {
      assert a + [] == a;
    }
  }

  /** A subsequence of `b` is one of any extension of `b`. */
  lemma {:induction false} SubsequenceExtend<T>(a: seq<T>, b: seq<T>, c: seq<T>)
    requires IsSubsequence(a, b)
    ensures IsSubsequence(a, b + c)
  {
    if |c| == 0 {
      assert b + c == b;
    } else {
      SubsequenceExtend(a, b, c[..|c| - 1]);
      assert (b + c)[..|b + c| - 1] == b + c[..|c| - 1];
    }
  }

  /**
   * The records come in the order of the releases in the pages, one page after
   * the other: they are the records of all releases with some left out.
   */
  lemma RecordsInPageOrder(pages: seq<Response>, year: int)
    requires Expected(pages, year).Collected?
    ensures IsSubsequence(Expected(pages, year).entries, EntriesOf(Flatten(pages)))
  {
    var p := StopPage(pages, year, 0);
    ScannedIsPrefix(pages, year);
    PrefixInOrder(Flatten(pages[..p]) + BeforeOlder(ResponseAt(pages, p).data, year), Flatten(pages), year);
  }

  /** The records of the first releases of `all` keep the order of the records of all of them. */
  lemma PrefixInOrder(scanned: seq<Release>, all: seq<Release>, year: int)
    requires scanned <= all
    ensures IsSubsequence(Collect(scanned, year), EntriesOf(all))
  {
    CollectInOrder(scanned, year);
    SubsequenceOfPrefixMap(EntryOf, Collect(scanned, year), scanned, all);
  }

  /** A subsequence of the images of a prefix is one of the images of the whole. */
  lemma SubsequenceOfPrefixMap<A, B>(f: A -> B, a: seq<B>, s: seq<A>, all: seq<A>)
    requires s <= all && IsSubsequence(a, Map(f, s))
    ensures IsSubsequence(a, Map(f, all))
  {
    var rest := all[|s|..];
    assert all == s + rest;
    MapAppend(f, s, rest);
    SubsequenceExtend(a, Map(f, s), Map(f, rest));
  }

  /** The releases of two runs of pages, one after the other. */
  lemma {:induction false} FlattenAppend(a: seq<Response>, b: seq<Response>)
    ensures Flatten(a + b) == Flatten(a) + Flatten(b)
  {
    if |b| > 0 {
      var n := |b| - 1;
      assert (a + b)[..|a| + n] == a + b[..n];
      FlattenAppend(a, b[..n]);
    } else {
      assert a + b == a;
    }
  }

  /** Leaving one release that is not eligible out of the scanned ones changes no record. */
  lemma SkipIneligible(x: seq<Release>, r: Release, y: seq<Release>, year: int)
    requires !Eligible(r, year)
    ensures Collect(x + [r] + y, year) == Collect(x + y, year)
  {
    CollectAppend(x + [r], y, year);
    CollectAppend(x, y, year);
  }

  /** Taking a newer release out of a page that has others keeps whether the loop goes on after it. */
  lemma RemoveNewerContinues(data: seq<Release>, year: int, i: nat)
    requires i < |data| && |data| > 1 && data[i].year > year
    ensures Continues(Ok(data[..i] + data[i + 1..]), year) <==> Continues(Ok(data), year)
  {
    var data' := data[..i] + data[i + 1..];
    if Continues(Ok(data), year) {
      forall k | 0 <= k < |data'| ensures data'[k].year >= year {
        if k < i { assert data'[k] == data[k]; } else { assert data'[k] == data[k + 1]; }
      }
    }
    if Continues(Ok(data'), year) {
      forall k | 0 <= k < |data| ensures data[k].year >= year {
        if k < i { assert data[k] == data'[k]; } else if k > i { assert data[k] == data'[k - 1]; }
      }
    }
  }

  /** A newer release after the page's first older one: taking it out leaves what comes before that older one alone. */
  lemma RemoveAfterOlder(data: seq<Release>, year: int, i: nat)
    requires i < |data| && data[i].year >= year && |BeforeOlder(data, year)| <= i
    ensures BeforeOlder(data[..i] + data[i + 1..], year) == BeforeOlder(data, year)
  {
    var data' := data[..i] + data[i + 1..];
    var n := |BeforeOlder(data, year)|;
    assert data'[..n] == data[..n];
    assert n < |data'| ==> data'[n] == data[n];
    BeforeOlderIs(data', year, n);
  }

  /** A newer release before the page's first older one: taking it out takes it out of what comes before that older one. */
  lemma RemoveBeforeOlder(data: seq<Release>, year: int, i: nat)
    requires i < |BeforeOlder(data, year)|
    ensures BeforeOlder(data, year) == data[..i] + [data[i]] + data[i + 1..|BeforeOlder(data, year)|]
    ensures BeforeOlder(data[..i] + data[i + 1..], year) == data[..i] + data[i + 1..|BeforeOlder(data, year)|]
  {
    var n := |BeforeOlder(data, year)|;
    RemoveFromRun(data, year, i, n);
    SliceAround(data, i, n);
  }

  lemma SliceAround<T>(s: seq<T>, i: nat, n: nat)
    requires i < n <= |s|
    ensures s[..n] == s[..i] + [s[i]] + s[i + 1..n]
  {
  }

  /** Taking release `i` out of a run of `n` releases not older than the year, followed by an older one or the end. */
  lemma RemoveFromRun(data: seq<Release>, year: int, i: nat, n: nat)
    requires i < n <= |data|
    requires forall k :: 0 <= k < n ==> data[k].year >= year
    requires n < |data| ==> data[n].year < year
    ensures BeforeOlder(data[..i] + data[i + 1..], year) == data[..i] + data[i + 1..n]
  {
    var data' := data[..i] + data[i + 1..];
    forall k | 0 <= k < n - 1 ensures data'[k].year >= year {
      if k < i { assert data'[k] == data[k]; } else { assert data'[k] == data[k + 1]; }
    }
    assert n < |data| ==> data'[n - 1] == data[n];
    BeforeOlderIs(data', year, n - 1);
    assert data'[..n - 1] == data[..i] + data[i + 1..n] by {
      assert data'[..n - 1] == data'[..i] + data'[i..n - 1];
      assert data'[i..n - 1] == data[i + 1..n];
    }
  }

  /** At the stop page, taking out a release that is not eligible and not older changes no record. */
  lemma SkipAtStopPage(front: seq<Release>, data: seq<Release>, year: int, i: nat)
    requires i < |data| && data[i].year > year
    ensures Collect(front + BeforeOlder(data[..i] + data[i + 1..], year), year) == Collect(front + BeforeOlder(data, year), year)
  {
    var n := |BeforeOlder(data, year)|;
    if n <= i {
      RemoveAfterOlder(data, year, i);
    } else {
      RemoveBeforeOlder(data, year, i);
      var x, y := data[..i], data[i + 1..n];
      SkipInside(front, x, data[i], y, [], [], year);
      assert front + (x + y) + [] + [] == front + (x + y);
      assert front + (x + [data[i]] + y) + [] + [] == front + (x + [data[i]] + y);
    }
  }

  /** Before the stop page, taking out a release that is not eligible changes no record. */
  lemma SkipBeforeStopPage(pages: seq<Response>, year: int, p: nat, i: nat, s: nat, tail: seq<Release>)
    requires p < s <= |pages| && pages[p].Ok? && i < |pages[p].data| && !Eligible(pages[p].data[i], year)
    ensures var data := pages[p].data;
            Collect(Flatten(pages[p := Ok(data[..i] + data[i + 1..])][..s]) + tail, year) == Collect(Flatten(pages[..s]) + tail, year)
  {
    var data := pages[p].data;
    FlattenAround(pages, p, s);
    FlattenReplaced(pages, p, s, data[..i] + data[i + 1..]);
    assert data == data[..i] + [data[i]] + data[i + 1..];
    SkipInside(Flatten(pages[..p]), data[..i], data[i], data[i + 1..], Flatten(pages[p + 1..s]), tail, year);
  }

  /** Taking a release that is not eligible out of the middle of the scanned releases changes no record. */
  lemma SkipInside(front: seq<Release>, x: seq<Release>, r: Release, y: seq<Release>, mid: seq<Release>, tail: seq<Release>, year: int)
    requires !Eligible(r, year)
    ensures Collect(front + (x + y) + mid + tail, year) == Collect(front + (x + [r] + y) + mid + tail, year)
  {
    assert front + (x + [r] + y) + mid + tail == (front + x) + [r] + (y + mid + tail);
    assert front + (x + y) + mid + tail == (front + x) + (y + mid + tail);
    SkipIneligible(front + x, r, y + mid + tail, year);
  }

  /** Replacing page `p + 1` by a page of other releases replaces its releases among those of the first `s` pages. */
  lemma FlattenReplaced(pages: seq<Response>, p: nat, s: nat, d: seq<Release>)
    requires p < s <= |pages|
    ensures Flatten(pages[p := Ok(d)][..s]) == Flatten(pages[..p]) + d + Flatten(pages[p + 1..s])
  {
    var pages' := pages[p := Ok(d)];
    FlattenAround(pages', p, s);
    assert pages'[..p] == pages[..p];
    assert pages'[p + 1..s] == pages[p + 1..s];
  }

  /** The releases of the first `s` pages split around page `p + 1`. */
  lemma FlattenAround(pages: seq<Response>, p: nat, s: nat)
    requires p < s <= |pages| && pages[p].Ok?
    ensures Flatten(pages[..s]) == Flatten(pages[..p]) + pages[p].data + Flatten(pages[p + 1..s])
  {
    assert pages[..s] == pages[..p + 1] + pages[p + 1..s];
    FlattenAppend(pages[..p + 1], pages[p + 1..s]);
    FlattenStep(pages, p);
  }

  /** Replacing a page changes neither the stop page nor its answer, when the replacement continues exactly when the page did. */
  lemma ReplaceKeepsStop(pages: seq<Response>, year: int, p: nat, x: Response)
    requires p < |pages| && (Continues(x, year) <==> Continues(pages[p], year))
    ensures var s := StopPage(pages, year, 0);
            StopPage(pages[p := x], year, 0) == s && (s != p ==> ResponseAt(pages[p := x], s) == ResponseAt(pages, s))
  {
    var pages' := pages[p := x];
    var s := StopPage(pages, year, 0);
    assert AllContinue(pages', year, s) by {
      forall m | 0 <= m < s ensures Continues(pages'[m], year) {
        if m != p { assert pages'[m] == pages[m]; }
      }
    }
    if s < |pages| && s != p {
      assert pages'[s] == pages[s];
    }
    StopPageIs(pages', year, s);
  }

  /**
   * A release newer than the year is skipped without stopping: taking it out of
   * a page that still has other releases changes nothing about the result.
   */
  lemma NewerReleaseSkipped(pages: seq<Response>, year: int, p: nat, i: nat)
    requires p < |pages| && pages[p].Ok? && i < |pages[p].data| && |pages[p].data| > 1
    requires pages[p].data[i].year > year
    ensures var data := pages[p].data;
            Expected(pages[p := Ok(data[..i] + data[i + 1..])], year) == Expected(pages, year)
  {
    var data := pages[p].data;
    var data' := data[..i] + data[i + 1..];
    var pages' := pages[p := Ok(data')];
    RemoveNewerContinues(data, year, i);
    ReplaceKeepsStop(pages, year, p, Ok(data'));
    var s := StopPage(pages, year, 0);
    if s < p {
      assert pages'[..s] == pages[..s];
    } else if s == p {
      assert pages'[..s] == pages[..s];
      SkipAtStopPage(Flatten(pages[..p]), data, year, i);
    } else if ResponseAt(pages, s).Ok? {
      SkipBeforeStopPage(pages, year, p, i, s, BeforeOlder(ResponseAt(pages, s).data, year));
    }
  }

  /** An empty first page ends the call with no records and no error. */
  lemma EmptyFirstPage(pages: seq<Response>, year: int)
    requires ResponseAt(pages, 0) == Ok([])
    ensures Expected(pages, year) == Collected([])
  {
    EmptyPageEnds(pages, year, 0);
  }

  /** A failing first page makes the call fail with that page's status. */
  lemma FailingFirstPage(pages: seq<Response>, year: int)
    requires |pages| > 0 && pages[0].Err?
    ensures Expected(pages, year) == Failed(pages[0].status, pages[0].text)
  {
    ErrorAborts(pages, year, 0);
  }

  /**
   * One page holding a release of the year and then an older one: the call
   * returns the first one's record, or no record when its filtered body is
   * empty, whatever later pages hold.
   */
  lemma ReleaseThenOlder(pages: seq<Response>, year: int, current: Release, older: Release)
    requires |pages| > 0 && pages[0] == Ok([current, older])
    requires current.year == year && older.year < year
    ensures Expected(pages, year) == Collected(if Filtered(BodyText(current)) != "" then [EntryOf(current)] else [])
  {
    StopsAtFirstOlder(pages, year, 0, 1);
    assert Flatten(pages[..0]) + pages[0].data[..1] == [current];
    CollectOne(current, year);
  }
}
