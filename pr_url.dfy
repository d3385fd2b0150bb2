/**
 * `parse_github_pr_url`: reads a pull request's repository and number out of
 * the path of its URL. Splitting the URL into host and path (`urlparse`) is a
 * library call, so the path and the host it found are the inputs here.
 */
module PrUrl {
  import opened Results
  import opened Text

  /** What the parser returns: the host as `urlparse` found it, `owner/repo`, and the PR number. */
  datatype PrRef = PrRef(host: Option<string>, repo: string, id: string)

  /** The `ValueError("Invalid GitHub PR URL format")` the source raises. */
  datatype UrlError = InvalidPrUrlFormat

  /** `path.strip('/').split('/')` */
  function PathParts(path: string): seq<string> {
    Split(Strip(path, {'/'}), '/')
  }

  /** The check and the selection on the path's segments. */
  function ParseParts(host: Option<string>, parts: seq<string>): Result<PrRef, UrlError>
  {
    if |parts| >= 4 && parts[2] == "pull" then
      Ok(PrRef(host, parts[0] + "/" + parts[1], parts[3]))
    else
      Err(InvalidPrUrlFormat)
  }

  /** `parse_github_pr_url`, given the hostname and path `urlparse` produced. */
  function ParsePrUrl(host: Option<string>, path: string): Result<PrRef, UrlError>
  {
    ParseParts(host, PathParts(path))
  }

  /** On success the repository is exactly two path segments and the number is one. */
  lemma ParsedShape(host: Option<string>, path: string)
    requires ParsePrUrl(host, path).Ok?
    ensures var r := ParsePrUrl(host, path).value;
      '/' !in r.id && Split(r.repo, '/') == PathParts(path)[..2]
  {
    var parts := PathParts(path);
    SplitAppend(parts[0], parts[1], '/');
    SplitNoSep(parts[0], '/');
    SplitNoSep(parts[1], '/');
    assert parts[0] + "/" + parts[1] == parts[0] + ['/'] + parts[1];
  }

  /** Segments after the number do not affect the result. */
  lemma ExtraSegmentsIgnored(host: Option<string>, parts: seq<string>, extra: seq<string>)
    requires |parts| == 4
    ensures ParseParts(host, parts + extra) == ParseParts(host, parts)
  {
  }

  predicate IsSegment(s: string) {
    s != [] && '/' !in s
  }

  lemma JoinThree(a: string, b: string, c: string)
    ensures Join([a, b, c], '/') == a + "/" + b + "/" + c
  {
    assert [a, b, c][1..] == [b, c] && [b, c][1..] == [c];
    calc {
      Join([a, b, c], '/');
      a + ['/'] + Join([b, c], '/');
      a + ['/'] + (b + ['/'] + Join([c], '/'));
      a + "/" + b + "/" + c;
    }
  }

  lemma JoinFour(a: string, b: string, c: string, d: string)
    ensures Join([a, b, c, d], '/') == a + "/" + b + "/" + c + "/" + d
  {
    assert [a, b, c, d][1..] == [b, c, d];
    JoinThree(b, c, d);
  }

  /** Stripping `/` from `/core suffix` keeps `core` whole when it neither starts nor ends with `/`. */
  lemma StripAroundCore(core: string, suffix: string)
    requires core != [] && core[0] != '/' && core[|core| - 1] != '/'
    requires suffix == [] || suffix[0] == '/'
    ensures var tail := RStrip(suffix, {'/'});
      Strip("/" + core + suffix, {'/'}) == core + tail && (tail == [] || tail[0] == '/')
  {
    var cs := {'/'};
    var path := "/" + core + suffix;
    assert path[1..] == core + suffix;
    LStripKept(core + suffix, cs);
    assert LStrip(path, cs) == core + suffix;
    RStripAppend(core, suffix, cs);
  }

  /** Joined segments followed by `/` and more text split into those segments first. */
  lemma {:induction false} SplitJoinedPrefix(segs: seq<string>, core: string, tail: string)
    requires |segs| >= 1 && forall i :: 0 <= i < |segs| ==> '/' !in segs[i]
    requires core == Join(segs, '/')
    requires tail == [] || tail[0] == '/'
    ensures |Split(core + tail, '/')| >= |segs|
    ensures Split(core + tail, '/')[..|segs|] == segs
  {
    SplitJoin(segs, '/');
    if tail == [] {
      assert core + tail == core;
    } else {
      var rest := tail[1..];
      assert core + tail == core + ['/'] + rest;
      SplitAppend(core, rest, '/');
      assert Split(core + tail, '/') == segs + Split(rest, '/');
      PrefixOfAppend(segs, Split(rest, '/'));
    }
  }

  lemma PrefixOfAppend(a: seq<string>, b: seq<string>)
    ensures |a + b| >= |a| && (a + b)[..|a|] == a
  {
  }

  /**
   * Every path of the shape `/owner/repo/pull/id`, followed by nothing or by
   * further segments after a `/`, parses to `owner/repo` and `id`.
   */
  lemma WellShapedPathParses(host: Option<string>, owner: string, repo: string, id: string, suffix: string)
    requires IsSegment(owner) && '/' !in repo && IsSegment(id)
    requires suffix == [] || suffix[0] == '/'
    ensures ParsePrUrl(host, "/" + owner + "/" + repo + "/pull/" + id + suffix)
         == Ok(PrRef(host, owner + "/" + repo, id))
  {
    var core := owner + "/" + repo + "/pull/" + id;
    assert owner[0] in owner && id[|id| - 1] in id;
    assert core[0] == owner[0] && core[|core| - 1] == id[|id| - 1];
    assert "/" + owner + "/" + repo + "/pull/" + id + suffix == "/" + core + suffix;
    StripAroundCore(core, suffix);
    ShapedPathParses(host, "/" + core + suffix, owner, repo, id, RStrip(suffix, {'/'}));
  }

  /**
   * The stripped path `s` reads `owner/repo/pull/id` followed by `tail`, which
   * is empty or starts a further segment. The owner, the repository and the
   * number hold no `/`; the repository and the number may be empty.
   */
  predicate PathShape(s: string, owner: string, repo: string, id: string, tail: string) {
    '/' !in owner && '/' !in repo && '/' !in id && (tail == [] || tail[0] == '/') &&
    s == owner + "/" + repo + "/pull/" + id + tail
  }

  /** What follows the fourth segment when the segments are joined again. */
  function JoinedTail(rest: seq<string>): string {
    if rest == [] then [] else "/" + Join(rest, '/')
  }

  /** Joining one more leading segment puts it and a `/` in front. */
  lemma JoinInFront(a: string, rest: seq<string>)
    requires rest != []
    ensures Join([a] + rest, '/') == a + "/" + Join(rest, '/')
  {
    JoinCons(a, rest, '/');
  }

  /** The last segment joined with whatever follows it. */
  lemma JoinLast(d: string, rest: seq<string>)
    ensures Join([d] + rest, '/') == d + JoinedTail(rest)
  {
    JoinCons(d, rest, '/');
  }

  lemma ConcatSlashes(a: string, b: string, t: string)
    ensures a + "/" + (b + "/" + ("pull" + "/" + t)) == a + "/" + b + "/pull/" + t
  {
  }

  lemma ConcatAssoc(u: string, d: string, t: string)
    ensures u + (d + t) == u + d + t
  {
  }

  /** Segments `a, b, pull, d`, then `rest`, join to `a/b/pull/d` and the joined rest. */
  lemma JoinFourSegments(a: string, b: string, d: string, rest: seq<string>)
    ensures Join([a] + ([b] + (["pull"] + ([d] + rest))), '/') == a + "/" + b + "/pull/" + (d + JoinedTail(rest))
  {
    var x3 := [d] + rest;
    var x2 := ["pull"] + x3;
    var x1 := [b] + x2;
    JoinLast(d, rest);
    JoinInFront("pull", x3);
    JoinInFront(b, x2);
    JoinInFront(a, x1);
    ConcatSlashes(a, b, d + JoinedTail(rest));
  }

  /** Segments `owner, repo, pull, id, rest...` join to the shape's text. */
  lemma JoinedSegments(parts: seq<string>)
    requires |parts| >= 4 && parts[2] == "pull"
    ensures Join(parts, '/') == parts[0] + "/" + parts[1] + "/pull/" + parts[3] + JoinedTail(parts[4..])
  {
    assert parts == [parts[0]] + ([parts[1]] + (["pull"] + ([parts[3]] + parts[4..])));
    JoinFourSegments(parts[0], parts[1], parts[3], parts[4..]);
    ConcatAssoc(parts[0] + "/" + parts[1] + "/pull/", parts[3], JoinedTail(parts[4..]));
  }

  /** A path the parser accepts has that shape, with a non-empty owner. */
  lemma ParsedPathShape(host: Option<string>, path: string)
    requires ParsePrUrl(host, path).Ok?
    ensures exists owner, repo, id, tail :: owner != [] && PathShape(Strip(path, {'/'}), owner, repo, id, tail)
  {
    var s := Strip(path, {'/'});
    var parts := Split(s, '/');
    JoinSplit(s, '/');
    JoinedSegments(parts);
    StripEnds(path, {'/'});
    SplitFirstNonEmpty(s, '/');
    assert PathShape(s, parts[0], parts[1], parts[3], JoinedTail(parts[4..]));
  }

  /** Every path of that shape is accepted, with `owner/repo` and `id`. */
  lemma ShapedPathParses(host: Option<string>, path: string, owner: string, repo: string, id: string, tail: string)
    requires PathShape(Strip(path, {'/'}), owner, repo, id, tail)
    ensures ParsePrUrl(host, path) == Ok(PrRef(host, owner + "/" + repo, id))
  {
    var segs := [owner, repo, "pull", id];
    var core := owner + "/" + repo + "/pull/" + id;
    JoinFour(owner, repo, "pull", id);
    assert core == Join(segs, '/');
    assert '/' !in "pull";
    assert forall i :: 0 <= i < |segs| ==> '/' !in segs[i] by {
      assert segs[0] == owner && segs[1] == repo && segs[2] == "pull" && segs[3] == id;
    }
    assert Strip(path, {'/'}) == core + tail;
    SplitJoinedPrefix(segs, core, tail);
    var parts := PathParts(path);
    assert parts[0] == owner && parts[1] == repo && parts[2] == "pull" && parts[3] == id by {
      assert parts[..4] == segs;
    }
  }

  /**
   * An empty number is accepted when a further segment follows it: the
   * source checks only the number of segments and segment 2.
   */
  lemma EmptyIdAccepted(host: Option<string>, owner: string, repo: string, x: string)
    requires IsSegment(owner) && '/' !in repo && IsSegment(x)
    ensures ParsePrUrl(host, "/" + owner + "/" + repo + "/pull//" + x) == Ok(PrRef(host, owner + "/" + repo, ""))
  {
    var core := owner + "/" + repo + "/pull//" + x;
    var path := "/" + owner + "/" + repo + "/pull//" + x;
    assert owner[0] in owner && x[|x| - 1] in x;
    assert core[0] == owner[0] && core[|core| - 1] == x[|x| - 1];
    assert path == "/" + core + [];
    StripAroundCore(core, []);
    assert RStrip([], {'/'}) == [];
    assert core == owner + "/" + repo + "/pull/" + [] + ("/" + x);
    ShapedPathParses(host, path, owner, repo, [], "/" + x);
  }

  /** A trailing slash after `pull` with no number leaves three segments, which is refused. */
  lemma MissingNumberRefused(host: Option<string>, owner: string, repo: string)
    requires IsSegment(owner) && '/' !in repo
    ensures ParsePrUrl(host, "/" + owner + "/" + repo + "/pull/") == Err(InvalidPrUrlFormat)
  {
    var segs := [owner, repo, "pull"];
    var core := owner + "/" + repo + "/pull";
    var path := "/" + owner + "/" + repo + "/pull/";
    JoinThree(owner, repo, "pull");
    assert core == Join(segs, '/');
    assert '/' !in "pull";
    assert forall i :: 0 <= i < |segs| ==> '/' !in segs[i] by {
      assert segs[0] == owner && segs[1] == repo && segs[2] == "pull";
    }
    assert owner[0] in owner;
    assert core[0] == owner[0] && core[|core| - 1] == 'l';
    assert path == "/" + core + "/";
    StripAroundCore(core, "/");
    assert RStrip("/", {'/'}) == [];
    assert core + [] == core;
    SplitJoin(segs, '/');
    assert PathParts(path) == segs;
  }
}
