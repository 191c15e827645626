/**
 * The plain logic inside src/scraper/youtube_parser.js, lifted out of its
 * browser and network wrappers: picking a video id out of a URL, the
 * de-duplicating and capping loop over scraped video links, the "About"
 * tab's stats classifier and links map, and the configuration checks of
 * `scrapeYoutube`.
 */
module YoutubeParser {
  import opened Wrappers
  import opened JsString
  import opened JsValue
  import opened JsObject
  import opened ConfigRules

  // ---------------------------------------------------------------------
  // extractVideoId
  // ---------------------------------------------------------------------

  /**
   * What `new URL(videoUrl)` exposes to `extractVideoId`: the decoded
   * query parameters in order, and the path.
   */
  datatype ParsedUrl = ParsedUrl(query: seq<(string, string)>, pathname: string)

  /** `searchParams.get(name)`: the first value given for `name`, if any. */
  function QueryGet(query: seq<(string, string)>, name: string): (r: Option<string>)
    ensures r.None? <==> forall i :: 0 <= i < |query| ==> query[i].0 != name
    ensures r.Some? ==> (name, r.value) in query
  {
    if query == [] then None
    else if query[0].0 == name then Some(query[0].1)
    else QueryGet(query[1..], name)
  }

  /** `s.split(sep)`: the pieces between separators, empty ones included. */
  function Split(s: string, sep: char): (r: seq<string>)
    ensures |r| >= 1
    ensures forall i :: 0 <= i < |r| ==> sep !in r[i]
    decreases |s|
  {
    if s == [] then [[]]
    else
      var rest := Split(s[1..], sep);
      if s[0] == sep then [[]] + rest
      else [[s[0]] + rest[0]] + rest[1..]
  }

  /** `pieces.join(sep)` */
  function Join(pieces: seq<string>, sep: char): string
    requires |pieces| >= 1
    decreases |pieces|
  {
    if |pieces| == 1 then pieces[0] else pieces[0] + [sep] + Join(pieces[1..], sep)
  }

  /** Joining the pieces of a split gives the string back. */
  lemma {:induction false} JoinSplit(s: string, sep: char)
    ensures Join(Split(s, sep), sep) == s
    decreases |s|
  {
    if s != [] {
      var rest := Split(s[1..], sep);
      JoinSplit(s[1..], sep);
      if s[0] == sep {
        assert [sep] + Join(rest, sep) == s;
      } else if |rest| == 1 {
        assert [s[0]] + rest[0] == s;
      } else {
        assert ([[s[0]] + rest[0]] + rest[1..])[1..] == rest[1..];
        assert rest[1..] == rest[1..][..];
        assert Join(rest, sep) == rest[0] + [sep] + Join(rest[1..], sep);
        assert [s[0]] + (rest[0] + [sep] + Join(rest[1..], sep)) == s;
      }
    }
  }

  /** `.filter(Boolean)` on strings: the non-empty ones, in order. */
  function NonEmpty(pieces: seq<string>): (r: seq<string>)
    ensures |r| <= |pieces|
  {
    if pieces == [] then []
    else (if pieces[0] != [] then [pieces[0]] else []) + NonEmpty(pieces[1..])
  }

  /** The filter keeps every non-empty piece and nothing else. */
  lemma {:induction false} NonEmptyElements(pieces: seq<string>)
    ensures var r := NonEmpty(pieces);
      && (forall i :: 0 <= i < |r| ==> r[i] != [] && r[i] in pieces)
      && (forall p :: p in pieces && p != [] ==> p in r)
    decreases |pieces|
  {
    if pieces != [] {
      var tail := pieces[1..];
      NonEmptyElements(tail);
      var head := if pieces[0] != [] then [pieces[0]] else [];
      var r := NonEmpty(pieces);
      assert r == head + NonEmpty(tail);
      forall i | 0 <= i < |r| ensures r[i] != [] && r[i] in pieces {
        if i >= |head| {
          assert r[i] == NonEmpty(tail)[i - |head|];
        }
      }
      forall p | p in pieces && p != [] ensures p in r {
        if p != pieces[0] {
          assert p in tail;
        }
      }
    }
  }

  /** `pathname.split('/').filter(Boolean)`: the non-empty path segments. */
  function Segments(pathname: string): (r: seq<string>)
    ensures forall i :: 0 <= i < |r| ==> r[i] != [] && '/' !in r[i]
  {
    SegmentsAreClean(pathname);
    NonEmpty(Split(pathname, '/'))
  }

  lemma SegmentsAreClean(pathname: string)
    ensures CleanSegments(NonEmpty(Split(pathname, '/')))
  {
    var pieces := Split(pathname, '/');
    var r := NonEmpty(pieces);
    NonEmptyElements(pieces);
    forall i | 0 <= i < |r| ensures '/' !in r[i] {
      var j :| 0 <= j < |pieces| && pieces[j] == r[i];
    }
  }

  /**
   * `extractVideoId(videoUrl)`, given the outcome of `new URL(videoUrl)`
   * (None when the constructor throws). A `v` query parameter wins, even
   * an empty one; otherwise the id is the segment after `shorts` or
   * `embed`, or else the last path segment; a URL with neither is null.
   */
  function ExtractVideoId(url: Option<ParsedUrl>): (r: Option<string>)
    ensures url.None? ==> r.None?
    ensures url.Some? && QueryGet(url.value.query, "v").Some? ==> r == QueryGet(url.value.query, "v")
    ensures url.Some? && QueryGet(url.value.query, "v").None? ==>
      (r.None? <==> Segments(url.value.pathname) == [])
    ensures url.Some? && QueryGet(url.value.query, "v").None? && r.Some? ==>
      r.value != [] && '/' !in r.value && r.value in Segments(url.value.pathname)
  {
    if url.None? then None
    else
      var v := QueryGet(url.value.query, "v");
      if v.Some? then v
      else
        var segments := Segments(url.value.pathname);
        if |segments| >= 2 && (segments[0] == "shorts" || segments[0] == "embed") then Some(segments[1])
        else if |segments| >= 1 then Some(segments[|segments| - 1])
        else None
  }

  /** A path made of the given segments, each behind one slash. */
  function PathOf(segments: seq<string>): string {
    if segments == [] then [] else "/" + segments[0] + PathOf(segments[1..])
  }

  /** Splitting a path built from clean segments finds those segments again. */
  lemma {:induction false} SegmentsOfPath(segments: seq<string>)
    requires CleanSegments(segments)
    ensures Segments(PathOf(segments)) == segments
    decreases |segments|
  {
    if segments != [] {
      var rest := segments[1..];
      var sp := Split(PathOf(rest), '/');
      SegmentsOfPath(rest);
      SplitPathCons(segments);
      PathStartsWithSlash(rest);
      NonEmptyLead([], sp[1..]);
      assert sp == [[]] + sp[1..];
      NonEmptyLead(segments[0], sp[1..]);
      NonEmptyLead([], [segments[0]] + sp[1..]);
      assert [[], segments[0]] + sp[1..] == [[]] + ([segments[0]] + sp[1..]);
      assert segments == [segments[0]] + rest;
    }
  }

  /** The pieces of a built path: an empty one, the first segment, then the pieces after the rest's leading one. */
  lemma SplitPathCons(segments: seq<string>)
    requires segments != [] && '/' !in segments[0]
    ensures Split(PathOf(segments), '/') == [[], segments[0]] + Split(PathOf(segments[1..]), '/')[1..]
  {
    PathStartsWithSlash(segments[1..]);
    assert PathOf(segments) == "/" + (segments[0] + PathOf(segments[1..]));
    SplitSlashPiece(segments[0], PathOf(segments[1..]));
  }

  /** A slash, a piece without slashes, then a string whose first piece is empty. */
  lemma SplitSlashPiece(s: string, p: string)
    requires '/' !in s && Split(p, '/')[0] == []
    ensures Split("/" + (s + p), '/') == [[], s] + Split(p, '/')[1..]
  {
    var sp := Split(p, '/');
    SplitAcrossPiece(s, p, '/');
    SplitAfterSeparator(s + p, '/');
    assert s + sp[0] == s;
  }

  /** A leading separator contributes one empty piece. */
  lemma SplitAfterSeparator(x: string, sep: char)
    ensures Split([sep] + x, sep) == [[]] + Split(x, sep)
  {
    assert ([sep] + x)[1..] == x;
  }

  /** An empty piece in front is dropped by NonEmpty, a non-empty one is kept. */
  /** The filter keeps order: filtering a concatenation filters each part in turn. */
  lemma {:induction false} NonEmptyAppend(a: seq<string>, b: seq<string>)
    ensures NonEmpty(a + b) == NonEmpty(a) + NonEmpty(b)
    decreases |a|
  {
    if a == [] {
      assert a + b == b;
    } else {
      assert (a + b)[1..] == a[1..] + b;
      NonEmptyAppend(a[1..], b);
      var head := if a[0] != [] then [a[0]] else [];
      assert NonEmpty(a + b) == head + (NonEmpty(a[1..]) + NonEmpty(b));
    }
  }

  lemma NonEmptyLead(s: string, tail: seq<string>)
    ensures NonEmpty([s] + tail) == (if s == [] then [] else [s]) + NonEmpty(tail)
  {
    assert ([s] + tail)[1..] == tail;
  }

  /** The first piece of a built path is empty: the path is empty or starts with a slash. */
  lemma PathStartsWithSlash(segments: seq<string>)
    ensures Split(PathOf(segments), '/')[0] == []
  {
    if segments != [] {
      assert PathOf(segments) == "/" + (segments[0] + PathOf(segments[1..]));
    }
  }

  /** A piece without separators glues onto the first piece of what follows it. */
  lemma {:induction false} SplitAcrossPiece(s: string, tail: string, sep: char)
    requires sep !in s
    ensures Split(s + tail, sep) == [s + Split(tail, sep)[0]] + Split(tail, sep)[1..]
    decreases |s|
  {
    if s == [] {
      assert s + tail == tail;
      assert s + Split(tail, sep)[0] == Split(tail, sep)[0];
      assert Split(tail, sep) == [Split(tail, sep)[0]] + Split(tail, sep)[1..];
    } else {
      assert (s + tail)[1..] == s[1..] + tail;
      SplitAcrossPiece(s[1..], tail, sep);
      HeadTailAppend(s, Split(tail, sep)[0]);
    }
  }

  /** Clean path segments: non-empty and free of slashes. */
  predicate CleanSegments(segments: seq<string>) {
    forall i :: 0 <= i < |segments| ==> segments[i] != [] && '/' !in segments[i]
  }

  /** A watch URL: the `v` parameter is the id, whatever the path. */
  lemma WatchUrlId(before: seq<(string, string)>, id: string, after: seq<(string, string)>, pathname: string)
    requires forall i :: 0 <= i < |before| ==> before[i].0 != "v"
    ensures ExtractVideoId(Some(ParsedUrl(before + [("v", id)] + after, pathname))) == Some(id)
  {
    var q := before + [("v", id)] + after;
    QueryGetSkips(before, [("v", id)] + after, "v");
    assert q == before + ([("v", id)] + after);
  }

  lemma {:induction false} QueryGetSkips(a: seq<(string, string)>, b: seq<(string, string)>, name: string)
    requires forall i :: 0 <= i < |a| ==> a[i].0 != name
    ensures QueryGet(a + b, name) == QueryGet(b, name)
    decreases |a|
  {
    if a == [] {
      assert a + b == b;
    } else {
      assert (a + b)[1..] == a[1..] + b;
      QueryGetSkips(a[1..], b, name);
    }
  }

  /** `/shorts/ID...` and `/embed/ID...` without a `v` parameter give ID. */
  lemma ShortsAndEmbedId(query: seq<(string, string)>, kind: string, id: string, more: seq<string>)
    requires QueryGet(query, "v").None?
    requires kind == "shorts" || kind == "embed"
    requires CleanSegments([kind, id] + more)
    ensures ExtractVideoId(Some(ParsedUrl(query, PathOf([kind, id] + more)))) == Some(id)
  {
    SegmentsOfPath([kind, id] + more);
  }

  /** Any other path without a `v` parameter gives its last segment, and no segment gives null. */
  lemma LastSegmentId(query: seq<(string, string)>, segments: seq<string>)
    requires QueryGet(query, "v").None?
    requires CleanSegments(segments)
    requires |segments| >= 2 ==> segments[0] != "shorts" && segments[0] != "embed"
    ensures ExtractVideoId(Some(ParsedUrl(query, PathOf(segments))))
      == if segments == [] then None else Some(segments[|segments| - 1])
  {
    SegmentsOfPath(segments);
  }

  // ---------------------------------------------------------------------
  // The de-duplicating, capped link loop of getChannelVideoLinks and
  // getSearchVideoLinks
  // ---------------------------------------------------------------------

  /** A scraped anchor: its resolved URL and its trimmed title. */
  datatype VideoLink = VideoLink(url: string, title: string)

  /**
   * The links whose URL is not in `seen` and has not appeared earlier, in
   * input order: each URL's first link.
   */
  function FirstOccurrences(links: seq<VideoLink>, seen: set<string>): (r: seq<VideoLink>)
    ensures |r| <= |links|
    decreases |links|
  {
    if links == [] then []
    else if links[0].url in seen then FirstOccurrences(links[1..], seen)
    else [links[0]] + FirstOccurrences(links[1..], seen + {links[0].url})
  }

  /** The URLs of some links. */
  function Urls(links: seq<VideoLink>): (r: set<string>)
    ensures forall i :: 0 <= i < |links| ==> links[i].url in r
    ensures forall u :: u in r ==> exists i :: 0 <= i < |links| && links[i].url == u
  {
    set i | 0 <= i < |links| :: links[i].url
  }

  /** `uniqueUrls.length >= maxVideos` for a length `n`: false when maxVideos converts to NaN. */
  predicate Reached(n: nat, cap: Option<int>) {
    cap.Some? && n >= cap.value
  }

  /**
   * How many distinct links the loop keeps: it breaks once the output
   * length reaches maxVideos, testing after the first push, so a cap
   * below 1 still lets one link through; a cap that is NaN never breaks.
   */
  function Limit(distinct: nat, cap: Option<int>): (r: nat)
    ensures r <= distinct
  {
    if cap.None? || distinct <= cap.value then distinct
    else if cap.value < 1 then (if distinct == 0 then 0 else 1)
    else cap.value
  }

  /** The first occurrences, cut to the number the loop keeps. */
  function UniqueLinks(links: seq<VideoLink>, maxVideos: Value): (r: seq<VideoLink>)
    ensures |r| <= |links|
  {
    var all := FirstOccurrences(links, {});
    all[..Limit(|all|, ToNumber(maxVideos))]
  }

  /**
   * The loop of lines 320-332 (and its copy at 363-375): walk the links,
   * keep each URL's first link, stop once the output reaches the cap.
   */
  method UniqueVideoLinks(links: seq<VideoLink>, maxVideos: Value) returns (unique: seq<VideoLink>)
    ensures unique == UniqueLinks(links, maxVideos)
  {
    ghost var all := FirstOccurrences(links, {});
    var cap := ToNumber(maxVideos);
    unique := [];
    var seen: set<string> := {};
    var i := 0;
    while i < |links|
      invariant DedupInv(links, i, unique, seen, all, cap)
    {
      var item := links[i];
      ghost var before, seenBefore := unique, seen;
      if item.url !in seen {
        seen := seen + {item.url};
        unique := unique + [item];
      }
      DedupStep(links, i, before, seenBefore, unique, seen, all, cap);
      i := i + 1;
      if Reached(|unique|, cap) {
        break;
      }
    }
    if !Reached(|unique|, cap) {
      AllKept(links, i, unique, seen, all, cap);
    }
    CutIsUniqueLinks(links, maxVideos, all, cap, unique);
  }

  /**
   * The loop's invariant after `i` links: `seen` holds the kept URLs, the
   * kept links followed by the first occurrences still to come are all the
   * first occurrences, and the cap has not yet been reached by a push.
   */
  ghost predicate DedupInv(links: seq<VideoLink>, i: int, unique: seq<VideoLink>, seen: set<string>,
                           all: seq<VideoLink>, cap: Option<int>)
  {
    && 0 <= i <= |links|
    && seen == SeenUrls(unique)
    && unique + FirstOccurrences(links[i..], seen) == all
    && (i == 0 ==> unique == [])
    && (i > 0 ==> unique != [] && !Reached(|unique|, cap))
  }

  /** The loop's prefix of the first occurrences is the specified result. */
  lemma CutIsUniqueLinks(links: seq<VideoLink>, maxVideos: Value, all: seq<VideoLink>, cap: Option<int>,
                         unique: seq<VideoLink>)
    requires all == FirstOccurrences(links, {}) && cap == ToNumber(maxVideos)
    requires unique == all[..Limit(|all|, cap)]
    ensures unique == UniqueLinks(links, maxVideos)
  {
  }

  /**
   * One iteration of the loop: it keeps the invariant, or it reaches the
   * cap having kept exactly the links the cap allows.
   */
  lemma DedupStep(links: seq<VideoLink>, i: nat, unique: seq<VideoLink>, seen: set<string>,
                  unique': seq<VideoLink>, seen': set<string>, all: seq<VideoLink>, cap: Option<int>)
    requires i < |links| && DedupInv(links, i, unique, seen, all, cap)
    requires (unique', seen') == Visit(unique, seen, links[i])
    ensures !Reached(|unique'|, cap) ==> DedupInv(links, i + 1, unique', seen', all, cap)
    ensures Reached(|unique'|, cap) ==> unique' == all[..Limit(|all|, cap)]
  {
    ScanOne(links, i, unique, seen, unique', seen');
    if i == 0 {
      assert seen == {} && links[0].url !in seen;
    }
    if Reached(|unique'|, cap) {
      CapHit(unique', FirstOccurrences(links[i + 1..], seen'), all, |unique|, cap);
    }
  }

  /** The loop body's effect on the kept links and the seen URLs. */
  function Visit(unique: seq<VideoLink>, seen: set<string>, item: VideoLink): (seq<VideoLink>, set<string>) {
    if item.url in seen then (unique, seen) else (unique + [item], seen + {item.url})
  }

  /** Looking at one more link moves it from the links to come into the kept ones when its URL is new. */
  lemma ScanOne(links: seq<VideoLink>, i: nat, unique: seq<VideoLink>, seen: set<string>,
                unique': seq<VideoLink>, seen': set<string>)
    requires i < |links| && seen == SeenUrls(unique)
    requires links[i].url in seen ==> unique' == unique && seen' == seen
    requires links[i].url !in seen ==> unique' == unique + [links[i]] && seen' == seen + {links[i].url}
    ensures seen' == SeenUrls(unique')
    ensures unique + FirstOccurrences(links[i..], seen) == unique' + FirstOccurrences(links[i + 1..], seen')
  {
    var item := links[i];
    var tail := links[i + 1..];
    assert links[i..][0] == item;
    assert links[i..][1..] == tail;
    if item.url in seen {
      assert FirstOccurrences(links[i..], seen) == FirstOccurrences(tail, seen);
    } else {
      assert FirstOccurrences(links[i..], seen) == [item] + FirstOccurrences(tail, seen');
      assert unique + ([item] + FirstOccurrences(tail, seen')) == unique' + FirstOccurrences(tail, seen');
      assert unique'[..|unique|] == unique;
    }
  }

  /** The `seen` set of the loop: the URLs pushed so far. */
  function SeenUrls(links: seq<VideoLink>): set<string> {
    if links == [] then {} else SeenUrls(links[..|links| - 1]) + {links[|links| - 1].url}
  }

  /** The loop breaks on reaching the cap: it has kept exactly the links the cap allows. */
  lemma CapHit(unique: seq<VideoLink>, rest: seq<VideoLink>, all: seq<VideoLink>, before: nat, cap: Option<int>)
    requires unique + rest == all
    requires 1 <= |unique| <= before + 1
    requires before == 0 || !Reached(before, cap)
    requires Reached(|unique|, cap)
    ensures unique == all[..Limit(|all|, cap)]
  {
    PrefixOfAll(unique, rest, all);
    LimitReached(|all|, before, |unique|, cap);
  }

  /** When the loop runs out of links, it has kept every first occurrence. */
  lemma AllKept(links: seq<VideoLink>, i: int, unique: seq<VideoLink>, seen: set<string>,
                all: seq<VideoLink>, cap: Option<int>)
    requires DedupInv(links, i, unique, seen, all, cap) && i >= |links|
    requires !Reached(|unique|, cap)
    ensures unique == all[..Limit(|all|, cap)]
  {
    assert links[i..] == [];
  }

  /** A sequence that begins the loop's result is its prefix. */
  lemma PrefixOfAll(unique: seq<VideoLink>, rest: seq<VideoLink>, all: seq<VideoLink>)
    requires unique + rest == all
    ensures |unique| <= |all| && unique == all[..|unique|]
  {
  }

  /**
   * What the loop returns: no two links with the same URL, a subsequence of
   * the input, each link the first one seen with its URL, and as many as
   * the cap allows of the distinct URLs.
   */
  lemma UniqueLinksGuarantees(links: seq<VideoLink>, maxVideos: Value)
    ensures var u := UniqueLinks(links, maxVideos);
      && DistinctUrls(u) && IsSubsequence(u, links)
      && (forall x :: x in u ==> FirstWith(links, x.url) == Some(x))
      && |u| == Limit(|Urls(links)|, ToNumber(maxVideos))
  {
    var all := FirstOccurrences(links, {});
    CappedFirstOccurrences(links, Limit(|all|, ToNumber(maxVideos)));
    FirstOccurrencesCount(links);
  }

  /** Any prefix of the first occurrences keeps their guarantees. */
  lemma CappedFirstOccurrences(links: seq<VideoLink>, k: nat)
    requires k <= |FirstOccurrences(links, {})|
    ensures var u := FirstOccurrences(links, {})[..k];
      && DistinctUrls(u) && IsSubsequence(u, links)
      && (forall x :: x in u ==> FirstWith(links, x.url) == Some(x))
  {
    var all := FirstOccurrences(links, {});
    FirstOccurrencesDistinct(links, {});
    FirstOccurrencesSubsequence(links, {});
    FirstOccurrencesAreFirst(links, {});
    SubsequencePrefix(all, links, k);
    forall x | x in all[..k] ensures x in all {
      var i :| 0 <= i < k && all[..k][i] == x;
      assert all[i] == x;
    }
  }

  /** There are as many first occurrences as distinct URLs. */
  lemma FirstOccurrencesCount(links: seq<VideoLink>)
    ensures |FirstOccurrences(links, {})| == |Urls(links)|
  {
    FirstOccurrencesDistinct(links, {});
    FirstOccurrencesUrls(links, {});
    assert Urls(links) - {} == Urls(links);
    DistinctUrlCount(FirstOccurrences(links, {}));
  }

  /** Links with distinct URLs have as many URLs as links. */
  lemma {:induction false} DistinctUrlCount(links: seq<VideoLink>)
    requires DistinctUrls(links)
    ensures |Urls(links)| == |links|
    decreases |links|
  {
    if links != [] {
      var head, tail := links[0], links[1..];
      assert links == [head] + tail;
      DistinctUrlCount(tail);
      UrlsCons(head, tail);
      assert head.url !in Urls(tail);
    }
  }

  /** A prefix of a subsequence is a subsequence. */
  lemma {:induction false} SubsequencePrefix(a: seq<VideoLink>, b: seq<VideoLink>, k: nat)
    requires k <= |a| && IsSubsequence(a, b)
    ensures IsSubsequence(a[..k], b)
    decreases |b|
  {
    if k > 0 {
      if a[0] == b[0] {
        SubsequencePrefix(a[1..], b[1..], k - 1);
        assert a[..k][1..] == a[1..][..k - 1];
      } else {
        SubsequencePrefix(a, b[1..], k);
      }
    }
  }

  /**
   * When the test first succeeds, the output holds exactly the capped number
   * of links: it grew by at most one from below the cap, or from empty.
   */
  lemma LimitReached(distinct: nat, before: nat, after: nat, cap: Option<int>)
    requires after <= distinct && 1 <= after <= before + 1
    requires before == 0 || !Reached(before, cap)
    requires Reached(after, cap)
    ensures after == Limit(distinct, cap)
  {
  }

  /** No two links share a URL. */
  predicate DistinctUrls(links: seq<VideoLink>) {
    forall i, j :: 0 <= i < j < |links| ==> links[i].url != links[j].url
  }

  /** `a` is `b` with some elements left out, the rest in order. */
  predicate IsSubsequence(a: seq<VideoLink>, b: seq<VideoLink>)
    decreases |b|
  {
    a == [] || (b != [] && if a[0] == b[0] then IsSubsequence(a[1..], b[1..]) else IsSubsequence(a, b[1..]))
  }

  /** The first link with URL `url`, if any. */
  function FirstWith(links: seq<VideoLink>, url: string): (r: Option<VideoLink>)
    ensures r.None? <==> url !in Urls(links)
    ensures r.Some? ==> r.value.url == url && r.value in links
  {
    if links == [] then None
    else if links[0].url == url then Some(links[0])
    else
      var r := FirstWith(links[1..], url);
      assert url in Urls(links) <==> url in Urls(links[1..]) by {
        if url in Urls(links) {
          var i :| 0 <= i < |links| && links[i].url == url;
          assert links[1..][i - 1] == links[i];
        }
        if url in Urls(links[1..]) {
          var i :| 0 <= i < |links[1..]| && links[1..][i].url == url;
          assert links[i + 1] == links[1..][i];
        }
      }
      r
  }

  /** Each URL outside `seen` appears once among the first occurrences, and no other URL does. */
  lemma {:induction false} FirstOccurrencesUrls(links: seq<VideoLink>, seen: set<string>)
    ensures Urls(FirstOccurrences(links, seen)) == Urls(links) - seen
    decreases |links|
  {
    if links != [] {
      var head, tail := links[0], links[1..];
      assert links == [head] + tail;
      UrlsCons(head, tail);
      if head.url in seen {
        FirstOccurrencesUrls(tail, seen);
      } else {
        FirstOccurrencesUrls(tail, seen + {head.url});
        UrlsCons(head, FirstOccurrences(tail, seen + {head.url}));
      }
    }
  }

  /** The first occurrences have distinct URLs. */
  lemma {:induction false} FirstOccurrencesDistinct(links: seq<VideoLink>, seen: set<string>)
    ensures DistinctUrls(FirstOccurrences(links, seen))
    decreases |links|
  {
    if links != [] {
      var head, tail := links[0], links[1..];
      if head.url in seen {
        FirstOccurrencesDistinct(tail, seen);
      } else {
        var seen' := seen + {head.url};
        var rest := FirstOccurrences(tail, seen');
        FirstOccurrencesDistinct(tail, seen');
        FirstOccurrencesUrls(tail, seen');
        assert head.url !in Urls(rest);
        DistinctUrlsCons(head, rest);
      }
    }
  }

  /** A link whose URL is new, in front of links with distinct URLs, keeps them distinct. */
  lemma DistinctUrlsCons(head: VideoLink, rest: seq<VideoLink>)
    requires DistinctUrls(rest) && head.url !in Urls(rest)
    ensures DistinctUrls([head] + rest)
  {
    var r := [head] + rest;
    forall i, j | 0 <= i < j < |r| ensures r[i].url != r[j].url {
      assert r[j] == rest[j - 1];
      if i > 0 {
        assert r[i] == rest[i - 1];
      }
    }
  }

  /** The first occurrences are a subsequence of the links. */
  lemma {:induction false} FirstOccurrencesSubsequence(links: seq<VideoLink>, seen: set<string>)
    ensures IsSubsequence(FirstOccurrences(links, seen), links)
    decreases |links|
  {
    if links != [] {
      var head, tail := links[0], links[1..];
      assert links == [head] + tail;
      if head.url in seen {
        FirstOccurrencesSubsequence(tail, seen);
        SubsequenceSkip(FirstOccurrences(tail, seen), head, tail);
      } else {
        var rest := FirstOccurrences(tail, seen + {head.url});
        FirstOccurrencesSubsequence(tail, seen + {head.url});
        assert ([head] + rest)[1..] == rest;
      }
    }
  }

  /** Each kept link is the first link with its URL: later duplicates never replace it. */
  lemma {:induction false} FirstOccurrencesAreFirst(links: seq<VideoLink>, seen: set<string>)
    ensures forall x :: x in FirstOccurrences(links, seen) ==> FirstWith(links, x.url) == Some(x)
    decreases |links|
  {
    if links != [] {
      var head, tail := links[0], links[1..];
      var r := FirstOccurrences(links, seen);
      if head.url in seen {
        FirstOccurrencesAreFirst(tail, seen);
        FirstOccurrencesUrls(tail, seen);
        forall x | x in r ensures FirstWith(links, x.url) == Some(x) {
          assert x.url in Urls(r);
        }
      } else {
        var seen' := seen + {head.url};
        var rest := FirstOccurrences(tail, seen');
        FirstOccurrencesAreFirst(tail, seen');
        FirstOccurrencesUrls(tail, seen');
        forall x | x in r ensures FirstWith(links, x.url) == Some(x) {
          if x != head {
            assert x in rest;
            assert x.url in Urls(rest);
          }
        }
      }
    }
  }

  lemma UrlsCons(head: VideoLink, tail: seq<VideoLink>)
    ensures Urls([head] + tail) == {head.url} + Urls(tail)
  {
    var l := [head] + tail;
    forall u | u in Urls(l) ensures u in {head.url} + Urls(tail) {
      var i :| 0 <= i < |l| && l[i].url == u;
      if i > 0 { assert tail[i - 1] == l[i]; }
    }
    forall u | u in Urls(tail) ensures u in Urls(l) {
      var i :| 0 <= i < |tail| && tail[i].url == u;
      assert l[i + 1] == tail[i];
    }
    assert l[0] == head;
  }

  /** A subsequence stays one when an element is put in front of the longer sequence. */
  lemma {:induction false} SubsequenceSkip(a: seq<VideoLink>, x: VideoLink, b: seq<VideoLink>)
    requires IsSubsequence(a, b)
    ensures IsSubsequence(a, [x] + b)
    decreases |b|, 1
  {
    assert ([x] + b)[1..] == b;
    if a != [] && a[0] == x {
      SubsequenceDropHead(a, b);
    }
  }

  /** Dropping the first element of a subsequence leaves a subsequence. */
  lemma {:induction false} SubsequenceDropHead(a: seq<VideoLink>, b: seq<VideoLink>)
    requires a != [] && IsSubsequence(a, b)
    ensures IsSubsequence(a[1..], b)
    decreases |b|, 0
  {
    if a[0] == b[0] {
      SubsequenceSkip(a[1..], b[0], b[1..]);
      assert [b[0]] + b[1..] == b;
    } else {
      SubsequenceDropHead(a, b[1..]);
      SubsequenceSkip(a[1..], b[0], b[1..]);
      assert [b[0]] + b[1..] == b;
    }
  }

  /**
   * A numeric cap of at least 1 keeps min(cap, distinct) links; a cap of
   * 0 or less still keeps one link when there is any.
   */
  lemma LimitOfNumber(distinct: nat, cap: int)
    ensures cap >= 1 ==> Limit(distinct, Some(cap)) == if cap < distinct then cap else distinct
    ensures cap < 1 ==> Limit(distinct, Some(cap)) == if distinct == 0 then 0 else 1
  {
  }

  // ---------------------------------------------------------------------
  // The "About" tab: stats classification and the links map
  // ---------------------------------------------------------------------

  /** `/^[A-Za-z\s]+$/.test(s)`: one or more ASCII letters and white space. */
  predicate LettersAndSpaces(s: string) {
    s != [] && forall i :: 0 <= i < |s| ==> IsAsciiLetter(s[i]) || IsSpace(s[i])
  }

  /** `/Joined/i.test(s)` */
  predicate MentionsJoined(s: string) {
    ContainsCI(s, "joined")
  }

  /** `/views/i.test(s)` */
  predicate MentionsViews(s: string) {
    ContainsCI(s, "views")
  }

  /** The country test of line 250, besides the `!country` guard. */
  predicate CountryLike(s: string) {
    LettersAndSpaces(s) && |s| < 40
  }

  /** How the stats loop treats one stats string. */
  datatype StatKind = JoinedStat | ViewsStat | CountryCandidate | OtherStat

  /**
   * The branch a stats string takes: "joined" anywhere (any case) first,
   * then "views", then a letters-and-spaces string of fewer than 40
   * characters (its length in UTF-16 units, the same as |s| for such text).
   */
  function Classify(s: string): StatKind {
    if MentionsJoined(s) then JoinedStat
    else if MentionsViews(s) then ViewsStat
    else if CountryLike(s) then CountryCandidate
    else OtherStat
  }

  /** Each kind, by the tests that decide it. */
  lemma ClassifyCases(s: string)
    ensures Classify(s) == JoinedStat <==> MentionsJoined(s)
    ensures Classify(s) == ViewsStat <==> !MentionsJoined(s) && MentionsViews(s)
    ensures Classify(s) == CountryCandidate <==> !MentionsJoined(s) && !MentionsViews(s) && CountryLike(s)
  {
  }

  /**
   * The replace of line 247: the first case-insensitive "joined" and the
   * white space after it removed.
   */
  function RemoveJoined(s: string): (r: string)
    ensures |r| <= |s|
    decreases |s|
  {
    if |s| < 6 then s
    else if MatchesAt(s, 0, "joined") then TrimStart(s[6..])
    else [s[0]] + RemoveJoined(s[1..])
  }

  /** The `activeFrom` a "Joined" stats string gives. */
  function JoinedDate(s: string): (r: string)
    ensures r == Trim(r)
  {
    TrimIdempotent(RemoveJoined(s));
    Trim(RemoveJoined(s))
  }

  /** "Joined" in any case, then white space, then a date: the date, trimmed. */
  lemma JoinedDateOfWord(word: string, gap: string, date: string)
    requires |word| == 6 && MatchesAt(word, 0, "joined")
    requires forall i :: 0 <= i < |gap| ==> IsSpace(gap[i])
    ensures JoinedDate(word + gap + date) == Trim(date)
  {
    var s := word + gap + date;
    assert MatchesAt(s, 0, "joined") by {
      forall k | 0 <= k < 6 ensures Lower(s[k]) == "joined"[k] {
        assert s[k] == word[k];
      }
    }
    assert s[6..] == gap + date;
    TrimStartSkipsSpaces(gap, date);
    TrimAfterTrimStart(date);
  }

  /** The last stats string of the given kind, if any. */
  function LastOfKind(stats: seq<string>, kind: StatKind): Option<string>
    decreases |stats|
  {
    if stats == [] then None
    else if Classify(stats[|stats| - 1]) == kind then Some(stats[|stats| - 1])
    else LastOfKind(stats[..|stats| - 1], kind)
  }

  /** The first stats string of the given kind, if any. */
  function FirstOfKind(stats: seq<string>, kind: StatKind): Option<string>
    decreases |stats|
  {
    if stats == [] then None
    else if Classify(stats[0]) == kind then Some(stats[0])
    else FirstOfKind(stats[1..], kind)
  }

  /**
   * `LastOfKind` picks the element of that kind with no later one of that
   * kind, and is None exactly when there is none.
   */
  lemma {:induction false} LastOfKindIsLast(stats: seq<string>, kind: StatKind)
    ensures var r := LastOfKind(stats, kind);
      && (r.None? <==> forall i :: 0 <= i < |stats| ==> Classify(stats[i]) != kind)
      && (r.Some? ==> exists i :: 0 <= i < |stats| && stats[i] == r.value && Classify(r.value) == kind
                                  && forall j :: i < j < |stats| ==> Classify(stats[j]) != kind)
    decreases |stats|
  {
    if stats != [] {
      var n := |stats| - 1;
      var front := stats[..n];
      if Classify(stats[n]) == kind {
        assert LastOfKind(stats, kind) == Some(stats[n]);
      } else {
        LastOfKindIsLast(front, kind);
        assert LastOfKind(stats, kind) == LastOfKind(front, kind);
        assert forall i :: 0 <= i < n ==> front[i] == stats[i];
        if LastOfKind(front, kind).Some? {
          var i :| 0 <= i < |front| && front[i] == LastOfKind(front, kind).value
                   && Classify(front[i]) == kind && forall j :: i < j < |front| ==> Classify(front[j]) != kind;
          assert stats[i] == front[i];
          assert forall j :: i < j < |stats| ==> Classify(stats[j]) != kind by {
            forall j | i < j < |stats| ensures Classify(stats[j]) != kind {
              if j < n { assert stats[j] == front[j]; }
            }
          }
        } else {
          assert forall i :: 0 <= i < |stats| ==> Classify(stats[i]) != kind by {
            forall i | 0 <= i < |stats| ensures Classify(stats[i]) != kind {
              if i < n { assert stats[i] == front[i]; }
            }
          }
        }
      }
    }
  }


  /**
   * `FirstOfKind` picks the element of that kind with no earlier one of
   * that kind, and is None exactly when there is none.
   */
  lemma {:induction false} FirstOfKindIsFirst(stats: seq<string>, kind: StatKind)
    ensures var r := FirstOfKind(stats, kind);
      && (r.None? <==> forall i :: 0 <= i < |stats| ==> Classify(stats[i]) != kind)
      && (r.Some? ==> exists i :: 0 <= i < |stats| && stats[i] == r.value && Classify(r.value) == kind
                                  && forall j :: 0 <= j < i ==> Classify(stats[j]) != kind)
    decreases |stats|
  {
    if stats != [] && Classify(stats[0]) != kind {
      var tail := stats[1..];
      FirstOfKindIsFirst(tail, kind);
      assert forall i :: 1 <= i < |stats| ==> tail[i - 1] == stats[i];
      if FirstOfKind(tail, kind).Some? {
        var i :| 0 <= i < |tail| && tail[i] == FirstOfKind(tail, kind).value
                 && Classify(tail[i]) == kind && forall j :: 0 <= j < i ==> Classify(tail[j]) != kind;
        assert stats[i + 1] == tail[i];
        forall j | 0 <= j < i + 1 ensures Classify(stats[j]) != kind {
          if j > 0 { assert stats[j] == tail[j - 1]; }
        }
      }
    }
  }

  /** The `activeFrom` the loop ends with: the date of the last "joined" string. */
  function ActiveFrom(stats: seq<string>): Option<string> {
    match LastOfKind(stats, JoinedStat)
    case None => None
    case Some(s) => Some(JoinedDate(s))
  }

  /** The stats strings: each element's text content, trimmed (lines 237-239). */
  function Stats(texts: seq<string>): (r: seq<string>)
    ensures |r| == |texts|
    ensures forall i :: 0 <= i < |r| ==> r[i] == Trim(texts[i])
  {
    seq(|texts|, i requires 0 <= i < |texts| => Trim(texts[i]))
  }

  /**
   * The stats loop of lines 245-253. The last "joined" string sets
   * `activeFrom` (as its date), the last "views" string `viewCounter`, and
   * the first country-like string `country`: once set, a country is
   * non-empty, hence truthy, and the `!country` guard keeps it.
   */
  method ScanStats(stats: seq<string>) returns (activeFrom: Option<string>, viewCounter: Option<string>, country: Option<string>)
    ensures activeFrom == ActiveFrom(stats)
    ensures viewCounter == LastOfKind(stats, ViewsStat)
    ensures country == FirstOfKind(stats, CountryCandidate)
  {
    activeFrom, viewCounter, country := None, None, None;
    for i := 0 to |stats|
      invariant activeFrom == ActiveFrom(stats[..i])
      invariant viewCounter == LastOfKind(stats[..i], ViewsStat)
      invariant country == FirstOfKind(stats[..i], CountryCandidate)
    {
      var s := stats[i];
      ClassifyCases(s);
      LastOfKindStep(stats, i, JoinedStat);
      LastOfKindStep(stats, i, ViewsStat);
      FirstOfKindStep(stats, i, CountryCandidate);
      if MentionsJoined(s) {
        activeFrom := Some(JoinedDate(s));
      } else if MentionsViews(s) {
        viewCounter := Some(s);
      } else if country.None? && CountryLike(s) {
        country := Some(s);
      }
    }
    assert stats[..|stats|] == stats;
  }

  lemma LastOfKindStep(stats: seq<string>, i: nat, kind: StatKind)
    requires i < |stats|
    ensures LastOfKind(stats[..i + 1], kind)
      == if Classify(stats[i]) == kind then Some(stats[i]) else LastOfKind(stats[..i], kind)
  {
    assert stats[..i + 1][..i] == stats[..i];
  }

  lemma FirstOfKindStep(stats: seq<string>, i: nat, kind: StatKind)
    requires i < |stats|
    ensures FirstOfKind(stats[..i + 1], kind)
      == if FirstOfKind(stats[..i], kind).Some? then FirstOfKind(stats[..i], kind)
         else if Classify(stats[i]) == kind then Some(stats[i]) else None
  {
    FirstOfKindExtend(stats[..i], stats[i], kind);
    assert stats[..i + 1] == stats[..i] + [stats[i]];
  }

  /** Lines 237-253: the stats texts are trimmed, then scanned. */
  method ClassifyStats(texts: seq<string>) returns (activeFrom: Option<string>, viewCounter: Option<string>, country: Option<string>)
    ensures activeFrom == ActiveFrom(Stats(texts))
    ensures viewCounter == LastOfKind(Stats(texts), ViewsStat)
    ensures country == FirstOfKind(Stats(texts), CountryCandidate)
  {
    activeFrom, viewCounter, country := ScanStats(Stats(texts));
  }

  lemma {:induction false} FirstOfKindExtend(stats: seq<string>, s: string, kind: StatKind)
    ensures FirstOfKind(stats + [s], kind)
      == if FirstOfKind(stats, kind).Some? then FirstOfKind(stats, kind)
         else if Classify(s) == kind then Some(s) else None
    decreases |stats|
  {
    if stats == [] {
      assert stats + [s] == [s];
    } else {
      assert (stats + [s])[1..] == stats[1..] + [s];
      FirstOfKindExtend(stats[1..], s, kind);
    }
  }

  /** One anchor of the links section: its text content and its resolved `href`. */
  datatype Anchor = Anchor(text: string, href: string)

  /** The key an anchor is stored under: its trimmed text, or "Link" when that is blank. */
  function LinkLabel(text: string): (r: string)
    ensures r != []
  {
    var t := Trim(text);
    if t == [] then "Link" else t
  }

  /** A text with something besides white space is stored under its trimmed self; a blank one under "Link". */
  lemma LinkLabelOfText(text: string)
    ensures (exists i :: 0 <= i < |text| && !IsSpace(text[i])) ==> LinkLabel(text) == Trim(text)
    ensures (forall i :: 0 <= i < |text| ==> IsSpace(text[i])) ==> LinkLabel(text) == "Link"
  {
  }

  /**
   * `!links[key]` on the links object: an own property is falsy when it is
   * the empty string; a name the object does not own but inherits reads as
   * a function or object, which is truthy; any other name reads undefined.
   */
  predicate LookupFalsy(links: seq<(string, string)>, key: string) {
    var own := Own(links, key);
    if own.Some? then own.value == [] else key !in InheritedNames
  }

  /** The links object after the anchors, processed in order (the loop's specification). */
  function LinksAfter(anchors: seq<Anchor>): seq<(string, string)>
    decreases |anchors|
  {
    if anchors == [] then []
    else
      LinkStep(LinksAfter(anchors[..|anchors| - 1]), anchors[|anchors| - 1])
  }

  /** One iteration: store the anchor's href under its label when the lookup is falsy. */
  function LinkStep(links: seq<(string, string)>, a: Anchor): seq<(string, string)> {
    var key := LinkLabel(a.text);
    if LookupFalsy(links, key) then Assign(links, key, a.href) else links
  }

  /** The links object never holds a label twice. */
  lemma {:induction false} LinksAfterDistinct(anchors: seq<Anchor>)
    ensures DistinctKeys(LinksAfter(anchors))
    decreases |anchors|
  {
    if anchors != [] {
      var prev := LinksAfter(anchors[..|anchors| - 1]);
      LinksAfterDistinct(anchors[..|anchors| - 1]);
      var a := anchors[|anchors| - 1];
      var key := LinkLabel(a.text);
      if LookupFalsy(prev, key) && key != ProtoKey {
        assert DistinctKeys(SetOwn(prev, key, a.href));
      }
    }
  }

  /** What one iteration does to the value stored under `key`. */
  lemma OwnAfterLinkStep(links: seq<(string, string)>, a: Anchor, key: string)
    ensures Own(LinkStep(links, a), key)
      == if LinkLabel(a.text) == key && key != ProtoKey && LookupFalsy(links, key) then Some(a.href)
         else Own(links, key)
  {
  }

  /** The loop of lines 262-268: a label keeps the first href stored under it unless that was empty. */
  method BuildLinks(anchors: seq<Anchor>) returns (links: seq<(string, string)>)
    ensures links == LinksAfter(anchors)
  {
    links := [];
    for i := 0 to |anchors|
      invariant links == LinksAfter(anchors[..i])
    {
      LinksAfterStep(anchors, i);
      var key := LinkLabel(anchors[i].text);
      var href := anchors[i].href;
      if LookupFalsy(links, key) {
        links := Assign(links, key, href);
      }
      assert links == LinkStep(LinksAfter(anchors[..i]), anchors[i]);
    }
    assert anchors[..|anchors|] == anchors;
  }

  lemma LinksAfterStep(anchors: seq<Anchor>, i: nat)
    requires i < |anchors|
    ensures LinksAfter(anchors[..i + 1]) == LinkStep(LinksAfter(anchors[..i]), anchors[i])
  {
    assert anchors[..i + 1][..i] == anchors[..i];
  }

  /** Some anchor is stored under `key`. */
  predicate HasLabel(anchors: seq<Anchor>, key: string)
    decreases |anchors|
  {
    && anchors != []
    && (HasLabel(anchors[..|anchors| - 1], key) || LinkLabel(anchors[|anchors| - 1].text) == key)
  }

  /** The first non-empty href among the anchors labelled `key`. */
  function FirstNonEmptyHref(anchors: seq<Anchor>, key: string): (r: Option<string>)
    ensures r.Some? ==> r.value != []
    ensures r.Some? ==> exists i :: 0 <= i < |anchors| && anchors[i] == Anchor(anchors[i].text, r.value)
                                   && LinkLabel(anchors[i].text) == key
  {
    if anchors == [] then None
    else if LinkLabel(anchors[0].text) == key && anchors[0].href != [] then Some(anchors[0].href)
    else
      var r := FirstNonEmptyHref(anchors[1..], key);
      assert forall i :: 1 <= i < |anchors| ==> anchors[1..][i - 1] == anchors[i];
      r
  }

  /**
   * The reference reading of the links object: an inherited name or a
   * label no anchor has is absent; otherwise the label holds the first
   * non-empty href given for it, or the empty string when all were empty.
   */
  function StoredHref(anchors: seq<Anchor>, key: string): Option<string> {
    if key in InheritedNames || !HasLabel(anchors, key) then None
    else if FirstNonEmptyHref(anchors, key).Some? then FirstNonEmptyHref(anchors, key)
    else Some([])
  }

  lemma {:induction false} FirstNonEmptyHrefExtend(anchors: seq<Anchor>, a: Anchor, key: string)
    ensures FirstNonEmptyHref(anchors + [a], key)
      == if FirstNonEmptyHref(anchors, key).Some? then FirstNonEmptyHref(anchors, key)
         else if LinkLabel(a.text) == key && a.href != [] then Some(a.href) else None
    decreases |anchors|
  {
    if anchors == [] {
      assert anchors + [a] == [a];
    } else {
      assert (anchors + [a])[0] == anchors[0];
      assert (anchors + [a])[1..] == anchors[1..] + [a];
      FirstNonEmptyHrefExtend(anchors[1..], a, key);
    }
  }

  /** A label that no anchor has has no non-empty href either. */
  lemma {:induction false} NoLabelNoHref(anchors: seq<Anchor>, key: string)
    requires !HasLabel(anchors, key)
    ensures FirstNonEmptyHref(anchors, key) == None
    decreases |anchors|
  {
    if anchors != [] {
      var front := anchors[..|anchors| - 1];
      NoLabelNoHref(front, key);
      FirstNonEmptyHrefStep(anchors, key);
    }
  }

  /** Adding one anchor to the end: the first non-empty href. */
  lemma FirstNonEmptyHrefStep(anchors: seq<Anchor>, key: string)
    requires anchors != []
    ensures var front := anchors[..|anchors| - 1];
      var a := anchors[|anchors| - 1];
      FirstNonEmptyHref(anchors, key)
         == if FirstNonEmptyHref(front, key).Some? then FirstNonEmptyHref(front, key)
            else if LinkLabel(a.text) == key && a.href != [] then Some(a.href) else None
  {
    var front := anchors[..|anchors| - 1];
    var a := anchors[|anchors| - 1];
    assert anchors == front + [a];
    FirstNonEmptyHrefExtend(front, a, key);
  }

  /**
   * Every key of the built links object holds what the reference reading
   * says: the first non-empty href for its label, else the empty string;
   * inherited names never become keys.
   */
  lemma {:induction false} LinksAfterStoresFirstHref(anchors: seq<Anchor>, key: string)
    ensures Own(LinksAfter(anchors), key) == StoredHref(anchors, key)
    decreases |anchors|
  {
    if anchors != [] {
      var front := anchors[..|anchors| - 1];
      var a := anchors[|anchors| - 1];
      var prev := LinksAfter(front);
      LinksAfterStoresFirstHref(front, key);
      FirstNonEmptyHrefStep(anchors, key);
      OwnAfterLinkStep(prev, a, key);
      assert LinksAfter(anchors) == LinkStep(prev, a);
      assert HasLabel(anchors, key) == (HasLabel(front, key) || LinkLabel(a.text) == key);
      if LinkLabel(a.text) != key {
        assert Own(LinksAfter(anchors), key) == Own(prev, key);
      } else if key in InheritedNames {
        assert !LookupFalsy(prev, key);
      } else {
        assert ProtoKey in InheritedNames;
        LinksAfterStoresNewHref(anchors, key);
      }
    }
  }

  /** The last anchor carries a label that is not inherited: its href is stored unless a non-empty one was. */
  lemma LinksAfterStoresNewHref(anchors: seq<Anchor>, key: string)
    requires anchors != []
    requires LinkLabel(anchors[|anchors| - 1].text) == key && key !in InheritedNames
    requires Own(LinksAfter(anchors[..|anchors| - 1]), key) == StoredHref(anchors[..|anchors| - 1], key)
    ensures StoredHref(anchors, key)
      == if FirstNonEmptyHref(anchors[..|anchors| - 1], key).Some? then FirstNonEmptyHref(anchors[..|anchors| - 1], key)
         else Some(anchors[|anchors| - 1].href)
    ensures LookupFalsy(LinksAfter(anchors[..|anchors| - 1]), key)
        <==> FirstNonEmptyHref(anchors[..|anchors| - 1], key).None?
  {
    var front := anchors[..|anchors| - 1];
    FirstNonEmptyHrefStep(anchors, key);
    if !HasLabel(front, key) {
      NoLabelNoHref(front, key);
    }
  }


  // ---------------------------------------------------------------------
  // scrapeYoutube: merge, mode checks and the maxVideos clamp
  // ---------------------------------------------------------------------

  /**
   * Lines 470-479: a falsy or non-positive `maxVideos` becomes
   * `defaults.maxVideos || 10`; then anything above 100 becomes 100. The
   * result is always truthy and never above 100.
   */
  function ClampMaxVideos(requested: Value, fallback: Value): (r: Value)
    ensures Truthy(r) && !Above(r, 100)
  {
    var v := if !Truthy(requested) || AtMost(requested, 0) then Or(fallback, Num(10)) else requested;
    if Above(v, 100) then Num(100) else v
  }

  /** A numeric or missing request, with a sane default, ends up a number from 1 to 100. */
  lemma ClampBounds(requested: Value, fallback: Value)
    requires requested.Num? || !Truthy(requested)
    requires !Truthy(fallback) || (fallback.Num? && fallback.n >= 1)
    ensures var r := ClampMaxVideos(requested, fallback); r.Num? && 1 <= r.n <= 100
  {
  }

  /** A number already from 1 to 100 is kept as it is. */
  lemma ClampKeepsValid(n: int, fallback: Value)
    requires 1 <= n <= 100
    ensures ClampMaxVideos(Num(n), fallback) == Num(n)
  {
  }

  /** Anything that converts to a number above 100, a numeric string included, becomes 100. */
  lemma ClampCapsLarge(requested: Value, fallback: Value)
    requires Above(requested, 100)
    ensures ClampMaxVideos(requested, fallback) == Num(100)
  {
  }

  /**
   * A truthy value that converts to NaN (a string such as "abc") passes
   * both checks untouched.
   */
  lemma ClampKeepsNaN(requested: Value, fallback: Value)
    requires Truthy(requested) && ToNumber(requested).None?
    ensures ClampMaxVideos(requested, fallback) == requested
  {
  }

  /**
   * A missing, falsy or non-positive request is replaced by the default,
   * itself replaced by 10 when falsy, and that value is still capped at 100.
   */
  lemma ClampUsesFallback(requested: Value, fallback: Value)
    requires !Truthy(requested) || AtMost(requested, 0)
    ensures Truthy(fallback) ==>
      ClampMaxVideos(requested, fallback) == (if Above(fallback, 100) then Num(100) else fallback)
    ensures !Truthy(fallback) ==> ClampMaxVideos(requested, fallback) == Num(10)
  {
  }

  /** A cap that converts to NaN never stops the dedup loop: every distinct link is kept. */
  lemma NaNCapKeepsAll(links: seq<VideoLink>, maxVideos: Value)
    requires ToNumber(maxVideos).None?
    ensures UniqueLinks(links, maxVideos) == FirstOccurrences(links, {})
  {
    var all := FirstOccurrences(links, {});
    assert all[..|all|] == all;
  }

  /** With a numeric or missing request and a sane default, a scrape visits at most 100 videos. */
  lemma ClampedScrapeVisitsAtMost100(links: seq<VideoLink>, requested: Value, fallback: Value)
    requires requested.Num? || !Truthy(requested)
    requires !Truthy(fallback) || (fallback.Num? && fallback.n >= 1)
    ensures 1 <= |UniqueLinks(links, ClampMaxVideos(requested, fallback))| <= 100 || links == []
  {
    var cap := ClampMaxVideos(requested, fallback);
    ClampBounds(requested, fallback);
    UniqueLinksGuarantees(links, cap);
    if links != [] {
      assert links[0].url in Urls(links);
    }
  }

  /** The configuration `scrapeYoutube` dispatches on, or the problem it rejects with. */
  function ScrapeConfig(defaults: Config, userConfig: Config): Result<Config, ModeProblem> {
    var config := Spread(defaults, userConfig);
    match CheckMode(config)
    case Some(problem) => Failure(problem)
    case None => Success(config["maxVideos" := ClampMaxVideos(Get(config, "maxVideos"), Get(defaults, "maxVideos"))])
  }

  /**
   * `scrapeYoutube` up to the mode dispatch (lines 444-479): defaults
   * overridden by the caller's configuration, the three mode checks in
   * order, then `maxVideos` clamped in place.
   */
  method PrepareScrape(defaults: Config, userConfig: Config) returns (r: Result<Config, ModeProblem>)
    ensures r == ScrapeConfig(defaults, userConfig)
  {
    var config := Spread(defaults, userConfig);
    var problem := CheckMode(config);
    if problem.Some? {
      return Failure(problem.value);
    }
    ghost var merged := config;
    if !Truthy(Get(config, "maxVideos")) || AtMost(Get(config, "maxVideos"), 0) {
      config := config["maxVideos" := Or(Get(defaults, "maxVideos"), Num(10))];
    }
    if Above(Get(config, "maxVideos"), 100) {
      config := config["maxVideos" := Num(100)];
    }
    assert config == merged["maxVideos" := Get(config, "maxVideos")];
    r := Success(config);
  }

  /**
   * A rejection happens exactly when the merged configuration cannot run,
   * with the first failing check's code; an accepted configuration is the
   * merge with only `maxVideos` replaced, by its clamped value, and can run.
   */
  lemma ScrapeConfigChecks(defaults: Config, userConfig: Config)
    ensures var merged := Spread(defaults, userConfig);
      var r := ScrapeConfig(defaults, userConfig);
      && (r.Failure? <==> !Runnable(merged))
      && (r.Failure? ==> CheckMode(merged) == Some(r.error))
      && (r.Success? ==> Runnable(r.value))
      && (r.Success? ==> Get(r.value, "maxVideos") == ClampMaxVideos(Get(merged, "maxVideos"), Get(defaults, "maxVideos")))
      && (r.Success? ==> forall k :: k != "maxVideos" ==> Get(r.value, k) == Get(merged, k))
  {
    var merged := Spread(defaults, userConfig);
    if CheckMode(merged).None? {
      var clamped := merged["maxVideos" := ClampMaxVideos(Get(merged, "maxVideos"), Get(defaults, "maxVideos"))];
      CheckModeReadsThreeKeys(merged, clamped);
    }
  }

  /** `config.maxVideos || defaults.maxVideos || 10`, as lines 386 and 419 read the cap. */
  function EffectiveMaxVideos(config: Config, defaults: Config): (r: Value)
    ensures Truthy(Get(config, "maxVideos")) ==> r == Get(config, "maxVideos")
  {
    Or(Or(Get(config, "maxVideos"), Get(defaults, "maxVideos")), Num(10))
  }

  /** After `scrapeYoutube`'s clamp, the fallback of lines 386 and 419 never applies. */
  lemma ClampedCapIsUsed(defaults: Config, userConfig: Config)
    requires ScrapeConfig(defaults, userConfig).Success?
    ensures var config := ScrapeConfig(defaults, userConfig).value;
      EffectiveMaxVideos(config, defaults) == Get(config, "maxVideos")
  {
  }

}
