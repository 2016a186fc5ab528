/**
 * Repository identity from a GitHub location, and the Zread address built
 * from it (utils/url-transformer.ts).
 */
module UrlTransformer {
  import opened Wrappers
  import opened JsString
  import UriComponent

  datatype RepoInfo = RepoInfo(owner: string, repo: string)

  /** First path segments GitHub uses for its own sections, never for an owner. */
  const GITHUB_RESERVED_PATHS: set<string> := {
    "settings", "marketplace", "codespaces", "explore", "topics", "collections",
    "sponsors", "customer-stories", "security", "features", "team", "enterprise",
    "about", "pricing", "nonprofit", "education", "solutions", "resources",
    "orgs", "notifications", "watching", "stars", "issues", "pulls"
  }

  const ZREAD_ORIGIN: string := "https://zread.ai/"

  /** A non-empty run of characters other than `/`: what `[^/]+` matches. */
  predicate IsSegment(s: string) {
    s != [] && '/' !in s
  }

  /** The two capture groups of `^\/([^/]+)\/([^/]+)` (greedy, so each group
      runs up to the next `/` or the end). */
  function MatchOwnerRepo(path: string): (r: Option<(string, string)>)
    ensures r.Some? ==>
      var (owner, repo) := r.value;
      && IsSegment(owner) && IsSegment(repo)
      && StartsWith(path, "/" + owner + "/" + repo)
      && (|path| == |owner| + |repo| + 2 || path[|owner| + |repo| + 2] == '/')
  {
    if path == [] || path[0] != '/' then None
    else
      var rest := path[1..];
      var i := FirstIndexIn(rest, {'/'});
      if i == 0 || i == |rest| then None
      else
        var after := rest[i + 1..];
        var j := FirstIndexIn(after, {'/'});
        if j == 0 then None
        else
          assert path[..i + j + 2] == "/" + rest[..i] + "/" + after[..j];
          Some((rest[..i], after[..j]))
  }

  /** The match succeeds exactly on `/owner/repo` followed by nothing or by `/`. */
  lemma MatchOwnerRepoComplete(owner: string, repo: string, tail: string)
    requires IsSegment(owner) && IsSegment(repo)
    requires tail == [] || tail[0] == '/'
    ensures MatchOwnerRepo("/" + owner + "/" + repo + tail) == Some((owner, repo))
  {
    var path := "/" + owner + "/" + repo + tail;
    var rest := path[1..];
    assert rest == owner + ("/" + repo + tail);
    SegmentThenSlash(owner, "/" + repo + tail);
    var after := rest[|owner| + 1..];
    assert after == repo + tail;
    SegmentThenSlash(repo, tail);
  }

  /** A slash-free run followed by nothing or by `/` is cut right after it. */
  lemma SegmentThenSlash(seg: string, tail: string)
    requires '/' !in seg
    requires tail == [] || tail[0] == '/'
    ensures FirstIndexIn(seg + tail, {'/'}) == |seg|
    ensures (seg + tail)[..|seg|] == seg
  {
    var s := seg + tail;
    assert forall k :: 0 <= k < |seg| ==> s[k] == seg[k];
    FirstIndexAt(s, {'/'}, |seg|);
    assert s[..|seg|] == seg;
  }

  /** The first index in `stops` is `i` when nothing before `i` is in `stops`
      and `s[i]` is (or `i` is the end). */
  lemma FirstIndexAt(s: string, stops: set<char>, i: nat)
    requires i <= |s|
    requires forall k :: 0 <= k < i ==> s[k] !in stops
    requires i < |s| ==> s[i] in stops
    ensures FirstIndexIn(s, stops) == i
    decreases i
  {
    if i > 0 {
      FirstIndexAt(s[1..], stops, i - 1);
    }
  }

  /** `owner` spells `name` up to letter case, character by character. */
  predicate SameIgnoringCase(owner: string, name: string) {
    |owner| == |name| && forall k :: 0 <= k < |owner| ==> LowerChar(owner[k]) == name[k]
  }

  /** Whether an owner name, lower-cased, is one of GitHub's own sections:
      the owner spells a reserved name in any letter case, with nothing
      around it. */
  function IsReserved(owner: string): (b: bool)
    ensures b <==> exists name :: name in GITHUB_RESERVED_PATHS && SameIgnoringCase(owner, name)
  {
    var lower := ToLower(owner);
    assert forall name :: SameIgnoringCase(owner, name) ==> name == lower;
    assert SameIgnoringCase(owner, lower);
    lower in GITHUB_RESERVED_PATHS
  }

  /** `extractRepoInfo` once the pathname is known. */
  function RepoInfoFromPathname(pathname: string): (r: Option<RepoInfo>)
    ensures r.Some? ==> Trimmed(r.value.owner) && '/' !in r.value.owner
    ensures r.Some? ==> Trimmed(r.value.repo) && '/' !in r.value.repo
                        && '?' !in r.value.repo && '#' !in r.value.repo
  {
    match MatchOwnerRepo(pathname)
    case None => None
    case Some((owner, repo)) =>
      if IsReserved(owner) then None
      else Some(RepoInfo(Trim(owner), Trim(CutQueryAndFragment(repo))))
  }

  /** `extractRepoInfo(url)`. A URL starting with `http` goes through the
      WHATWG URL parser, given here as `parsePathname` (`None` where
      `new URL` throws, which the source catches); anything else is taken
      as a pathname. Every failure is `None`. */
  function ExtractRepoInfo(url: string, parsePathname: string -> Option<string>): (r: Option<RepoInfo>)
    ensures r.Some? ==> Trimmed(r.value.owner) && '/' !in r.value.owner
    ensures r.Some? ==> Trimmed(r.value.repo) && '/' !in r.value.repo
                        && '?' !in r.value.repo && '#' !in r.value.repo
  {
    var pathname := if StartsWith(url, "http") then parsePathname(url) else Some(url);
    if pathname.None? then None else RepoInfoFromPathname(pathname.value)
  }

  /** What `extractRepoInfo` returns for a pathname `/owner/repo...` whose
      owner is not reserved: the owner trimmed, and the repo cut at `?`/`#`
      and trimmed; only the first two segments matter. */
  lemma ExtractFromPath(owner: string, repo: string, tail: string, parse: string -> Option<string>)
    requires IsSegment(owner) && IsSegment(repo)
    requires tail == [] || tail[0] == '/'
    ensures ExtractRepoInfo("/" + owner + "/" + repo + tail, parse)
            == if IsReserved(owner) then None
               else Some(RepoInfo(Trim(owner), Trim(CutQueryAndFragment(repo))))
  {
    var path := "/" + owner + "/" + repo + tail;
    MatchOwnerRepoComplete(owner, repo, tail);
    NotHttp(path);
    assert ExtractRepoInfo(path, parse) == RepoInfoFromPathname(path);
  }

  lemma NotHttp(path: string)
    requires path != [] && path[0] == '/'
    ensures !StartsWith(path, "http")
  {
    if |path| >= 4 {
      assert path[..4][0] == '/';
    }
  }

  /** `extractRepoInfo` gives `null` for a pathname that is not `/`, a
      segment, `/` and a segment. */
  lemma ExtractNeedsTwoSegments(path: string, parse: string -> Option<string>)
    requires !StartsWith(path, "http")
    requires MatchOwnerRepo(path).None?
    ensures ExtractRepoInfo(path, parse).None?
  {
  }

  /** An owner whose lower-case form is reserved is never a repository
      owner, whatever its case and whatever follows. */
  lemma ReservedOwnerRejected(owner: string, repo: string, tail: string, parse: string -> Option<string>)
    requires IsSegment(owner) && IsSegment(repo)
    requires tail == [] || tail[0] == '/'
    requires ToLower(owner) in GITHUB_RESERVED_PATHS
    ensures ExtractRepoInfo("/" + owner + "/" + repo + tail, parse).None?
  {
    ExtractFromPath(owner, repo, tail, parse);
  }

  /** The repo may come out empty: `/owner/?x` gives owner and `""`. */
  lemma RepoMayBeEmpty(owner: string, query: string, parse: string -> Option<string>)
    requires IsSegment(owner) && !IsReserved(owner)
    requires IsSegment(query) && query[0] == '?'
    ensures ExtractRepoInfo("/" + owner + "/" + query, parse) == Some(RepoInfo(Trim(owner), ""))
  {
    assert "/" + owner + "/" + query + [] == "/" + owner + "/" + query;
    ExtractFromPath(owner, query, [], parse);
    assert CutQueryAndFragment(query) == [];
  }

  /** `generateZreadUrl(owner, repo)`. */
  function GenerateZreadUrl(owner: string, repo: string): (url: string)
    ensures StartsWith(url, ZREAD_ORIGIN)
  {
    ZREAD_ORIGIN + UriComponent.EncodeURIComponent(owner) + "/" + UriComponent.EncodeURIComponent(repo)
  }

  /** Reading a Zread address back: the two path segments after the origin,
      each decoded with `decodeURIComponent`. */
  function ParseZreadUrl(url: string): Option<(string, string)> {
    if !StartsWith(url, ZREAD_ORIGIN) then None
    else
      var parts := Split(url[|ZREAD_ORIGIN|..], '/');
      if |parts| != 2 then None
      else
        match (UriComponent.DecodeURIComponent(parts[0]), UriComponent.DecodeURIComponent(parts[1]))
        case (Some(owner), Some(repo)) => Some((owner, repo))
        case _ => None
  }

  /** The address names exactly the owner and repo it was made from: no
      character of either (a `/` included) can move the segment boundary. */
  lemma ZreadUrlRoundTrip(owner: string, repo: string)
    ensures ParseZreadUrl(GenerateZreadUrl(owner, repo)) == Some((owner, repo))
  {
    var eo := UriComponent.EncodeURIComponent(owner);
    var er := UriComponent.EncodeURIComponent(repo);
    var url := GenerateZreadUrl(owner, repo);
    var path := eo + "/" + er;
    assert url[|ZREAD_ORIGIN|..] == path;
    FirstIndexAt(path, {'/'}, |eo|);
    assert path[|eo| + 1..] == er;
    assert path[..|eo|] == eo;
    FirstIndexAt(er, {'/'}, |er|);
    assert Split(path, '/') == [eo, er];
    UriComponent.DecodeEncode(owner);
    UriComponent.DecodeEncode(repo);
  }

  /** `pathname.replace(/\/+$/, '')`. */
  function StripTrailingSlashes(s: string): (r: string)
    ensures |r| <= |s| && s[..|r|] == r
    ensures r == [] || r[|r| - 1] != '/'
    ensures forall k :: |r| <= k < |s| ==> s[k] == '/'
  {
    if s == [] || s[|s| - 1] != '/' then s else StripTrailingSlashes(s[..|s| - 1])
  }

  /** `isRepositoryPage(pathname)`: a repository main page exactly when the
      text before the first `?` or `#` has two non-empty `/`-separated
      segments. */
  function IsRepositoryPage(pathname: string): (b: bool)
    ensures b <==> SegmentCount(CutQueryAndFragment(pathname)) == 2
  {
    var clean := CutQueryAndFragment(pathname);
    SplitCountsSegments(StripTrailingSlashes(clean));
    StripKeepsSegments(clean);
    |NonEmpty(Split(StripTrailingSlashes(clean), '/'))| == 2
  }


  /** Reference count of `/`-separated non-empty segments: the positions where
      a non-`/` character follows a `/` or the start (`afterSlash`). */
  function SegmentStarts(s: string, afterSlash: bool): nat {
    if s == [] then 0
    else (if s[0] != '/' && afterSlash then 1 else 0) + SegmentStarts(s[1..], s[0] == '/')
  }

  function SegmentCount(s: string): nat { SegmentStarts(s, true) }

  lemma {:induction false} NonEmptyAppend(xs: seq<string>, ys: seq<string>)
    ensures NonEmpty(xs + ys) == NonEmpty(xs) + NonEmpty(ys)
  {
    if xs != [] {
      NonEmptyAppend(xs[1..], ys);
      var zs := xs + ys;
      assert zs != [] && zs[0] == xs[0];
      assert zs[1..] == xs[1..] + ys;
      if xs[0] == [] {
        assert NonEmpty(zs) == NonEmpty(zs[1..]);
      } else {
        assert NonEmpty(zs) == [xs[0]] + NonEmpty(zs[1..]);
      }
    } else {
      assert xs + ys == ys;
    }
  }

  /** Characters without `/` open no new segment after the first. */
  lemma {:induction false} SegmentStartsInside(x: string, y: string, afterSlash: bool)
    requires x != [] && '/' !in x
    ensures SegmentStarts(x + y, afterSlash) == (if afterSlash then 1 else 0) + SegmentStarts(y, false)
  {
    assert (x + y)[1..] == x[1..] + y;
    if |x| > 1 {
      SegmentStartsInside(x[1..], y, false);
    } else {
      assert x[1..] + y == y;
    }
  }

  /** A `/` after a slash-free head closes the head's segment, if any. */
  lemma SegmentCountAtSlash(head: string, rest: string)
    requires '/' !in head
    ensures SegmentCount(head + "/" + rest) == (if head == [] then 0 else 1) + SegmentCount(rest)
  {
    assert ("/" + rest)[1..] == rest;
    assert head + "/" + rest == head + ("/" + rest);
    if head == [] {
      assert head + ("/" + rest) == "/" + rest;
    } else {
      SegmentStartsInside(head, "/" + rest, true);
    }
  }

  lemma NonEmptySingle(head: string)
    ensures |NonEmpty([head])| == if head == [] then 0 else 1
  {
    assert [head][1..] == [];
  }

  /** Splitting on `/` and dropping empty pieces counts the segments. */
  lemma {:induction false} SplitCountsSegments(s: string)
    ensures |NonEmpty(Split(s, '/'))| == SegmentCount(s)
    decreases |s|
  {
    if FirstIndexIn(s, {'/'}) == |s| {
      if s != [] {
        SegmentStartsInside(s, [], true);
        assert s + [] == s;
      }
    } else {
      var i := FirstIndexIn(s, {'/'});
      SplitAtFirst(s, '/', i);
      var head, rest := s[..i], s[i + 1..];
      SplitCountsSegments(rest);
      NonEmptyAppend([head], Split(rest, '/'));
      NonEmptySingle(head);
      SegmentCountAtSlash(head, rest);
    }
  }

  lemma {:induction false} SegmentStartsTrailingSlash(s: string, afterSlash: bool)
    ensures SegmentStarts(s + "/", afterSlash) == SegmentStarts(s, afterSlash)
  {
    if s != [] {
      assert (s + "/")[1..] == s[1..] + "/";
      SegmentStartsTrailingSlash(s[1..], s[0] == '/');
    }
  }

  lemma {:induction false} StripKeepsSegments(s: string)
    ensures SegmentCount(StripTrailingSlashes(s)) == SegmentCount(s)
    decreases |s|
  {
    if s != [] && s[|s| - 1] == '/' {
      StripKeepsSegments(s[..|s| - 1]);
      SegmentStartsTrailingSlash(s[..|s| - 1], true);
      assert s[..|s| - 1] + "/" == s;
    }
  }

  lemma CutWithoutQuery(p: string, extra: string)
    requires '?' !in p && '#' !in p
    requires extra == [] || extra[0] == '?' || extra[0] == '#'
    ensures CutQueryAndFragment(p + extra) == p
  {
    FirstIndexAt(p + extra, {'?', '#'}, |p|);
    assert (p + extra)[..|p|] == p;
  }

  /** Trailing slashes, a query and a fragment do not change the verdict. */
  lemma IsRepositoryPageIgnoresSuffixes(p: string, extra: string)
    requires '?' !in p && '#' !in p
    requires extra == [] || extra[0] == '?' || extra[0] == '#'
    ensures IsRepositoryPage(p + "/" + extra) == IsRepositoryPage(p)
    ensures IsRepositoryPage(p + extra) == IsRepositoryPage(p)
  {
    CutWithoutQuery(p, extra);
    CutWithoutQuery(p + "/", extra);
    CutWithoutQuery(p, []);
    assert p + [] == p;
    SegmentStartsTrailingSlash(p, true);
  }

  /** `/a/b` has two segments. */
  lemma {:induction false} SegmentCountOfTwo(a: string, b: string)
    requires IsSegment(a) && IsSegment(b)
    ensures SegmentCount("/" + a + "/" + b) == 2
  {
    var p := "/" + a + "/" + b;
    assert p[1..] == a + ("/" + b);
    SegmentStartsInside(a, "/" + b, true);
    assert ("/" + b)[1..] == b + [];
    SegmentStartsInside(b, [], true);
  }

  /** `isRepositoryPage` on a path `/a/b` without query or fragment. */
  lemma RepositoryPageOfTwo(a: string, b: string)
    requires IsSegment(a) && IsSegment(b)
    requires '?' !in a && '#' !in a && '?' !in b && '#' !in b
    ensures IsRepositoryPage("/" + a + "/" + b)
  {
    var p := "/" + a + "/" + b;
    assert '?' !in p && '#' !in p;
    CutWithoutQuery(p, []);
    assert p + [] == p;
    SegmentCountOfTwo(a, b);
  }

  /** On `/a/b` with two plain segments and a non-reserved owner, the page is
      a repository page and the identifier is the two segments, trimmed. */
  lemma PlainRepositoryPath(a: string, b: string, parse: string -> Option<string>)
    requires IsSegment(a) && IsSegment(b)
    requires '?' !in a && '#' !in a && '?' !in b && '#' !in b
    requires !IsReserved(a)
    ensures IsRepositoryPage("/" + a + "/" + b)
    ensures ExtractRepoInfo("/" + a + "/" + b, parse) == Some(RepoInfo(Trim(a), Trim(b)))
  {
    RepositoryPageOfTwo(a, b);
    assert "/" + a + "/" + b + [] == "/" + a + "/" + b;
    ExtractFromPath(a, b, [], parse);
    CutWithoutQuery(b, []);
    assert b + [] == b;
  }

  /** `isRepositoryPage` ignores reserved names, so `/settings/x` is a
      repository page although `extractRepoInfo` gives `null` for it. */
  lemma ReservedRepositoryPage(a: string, b: string, parse: string -> Option<string>)
    requires IsSegment(a) && IsSegment(b)
    requires '?' !in a && '#' !in a && '?' !in b && '#' !in b
    requires IsReserved(a)
    ensures IsRepositoryPage("/" + a + "/" + b)
    ensures ExtractRepoInfo("/" + a + "/" + b, parse).None?
  {
    RepositoryPageOfTwo(a, b);
    assert "/" + a + "/" + b + [] == "/" + a + "/" + b;
    ExtractFromPath(a, b, [], parse);
  }

  /** `//a//b` has two segments. */
  lemma DoubledSlashSegments(a: string, b: string)
    requires IsSegment(a) && IsSegment(b)
    ensures SegmentCount("//" + a + "//" + b) == 2
  {
    SegmentCountAtSlash([], "/" + a + "//" + b);
    assert [] + "/" + ("/" + a + "//" + b) == "//" + a + "//" + b;
    SegmentCountAtSlash([], a + "//" + b);
    assert [] + "/" + (a + "//" + b) == "/" + a + "//" + b;
    SegmentCountAtSlash(a, "/" + b);
    assert a + "/" + ("/" + b) == a + "//" + b;
    SegmentCountAtSlash([], b);
    assert [] + "/" + b == "/" + b;
    SegmentStartsInside(b, [], true);
    assert b + [] == b;
  }

  /** The pattern of `extractRepoInfo` needs a segment right after the first
      `/`, so it does not match `//...`. */
  lemma DoubledSlashNoMatch(rest: string)
    ensures MatchOwnerRepo("//" + rest).None?
  {
    var p := "//" + rest;
    assert p[1..] == "/" + rest;
    FirstIndexAt(p[1..], {'/'}, 0);
  }

  /** `isRepositoryPage` skips empty segments while the pattern of
      `extractRepoInfo` does not: `//a//b` is a repository page without an
      identifier. */
  lemma DoubledSlashRepositoryPage(a: string, b: string, parse: string -> Option<string>)
    requires IsSegment(a) && IsSegment(b)
    requires '?' !in a && '#' !in a && '?' !in b && '#' !in b
    ensures IsRepositoryPage("//" + a + "//" + b)
    ensures ExtractRepoInfo("//" + a + "//" + b, parse).None?
  {
    var p := "//" + a + "//" + b;
    assert '?' !in p && '#' !in p;
    CutWithoutQuery(p, []);
    assert p + [] == p;
    DoubledSlashSegments(a, b);
    NotHttp(p);
    assert p == "//" + (a + "//" + b);
    DoubledSlashNoMatch(a + "//" + b);
    ExtractNeedsTwoSegments(p, parse);
  }
}
