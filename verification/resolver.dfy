/**
 `pathToList`: turns the listing found at a path into the filtered list of
 media paths. A plain-text body is a manifest whose lines each name a file or
 a pattern inside a directory, resolved against that directory's index page;
 an HTML body is itself an index page; anything else yields nothing. The
 entries are then filtered by extension and, when the shuffle box is checked,
 shuffled.

 The network, the HTML parser, regular expressions and `unescape` are not
 modelled: they are the oracles of an `Env`.
 */
module Resolver {
  import opened JsString
  import opened Seqs
  import Shuffling

  datatype Option<T> = None | Some(value: T)

  /** What `get` resolves with: the Content-Type header (None when the
      response carried none, where `getResponseHeader` gives null) and the
      body text. */
  datatype Response = Response(contentType: Option<string>, body: string)

  /** The collaborators of the resolver, as oracles.
      - `fetch(url)`: the response to a GET of `url`.
      - `anchors(html)`: the `href` attributes of the children of the third
        child element of the parsed page's body, in document order; None when
        the body has no third child.
      - `patternValid(p)`: compiling `p` as a regular expression succeeds.
      - `regexMatches(link, p)`: `link` has a match of the compiled `p`.
      - `unescape(s)`: the global `unescape` function. */
  datatype Env = Env(
    fetch: string -> Response,
    anchors: string -> Option<seq<string>>,
    patternValid: string -> bool,
    regexMatches: (string, string) -> bool,
    unescape: string -> string)

  /** The exceptions that reject `pathToList`. */
  datatype ResolveError =
    | NoContentType(url: string)       // `.includes` on a null header
    | NoLinkList(url: string)          // `children` of a missing third body child
    | InvalidPattern(pattern: string)  // SyntaxError from `new RegExp`

  datatype Result<T> = Success(value: T) | Failure(error: ResolveError)

  /** The extensions `pathToList` keeps. */
  const AllowedExtensions: seq<string> := ["ogg", "mp4", "webm", "mp3", "wav"]

  /** The `slice(1)` of `extractLinks`: drops the parent-directory link. */
  function DropFirst(hrefs: seq<string>): (r: seq<string>)
    ensures |hrefs| == 0 ==> r == []
    ensures 0 < |hrefs| ==> hrefs == [hrefs[0]] + r
  {
    if |hrefs| == 0 then [] else hrefs[1..]
  }

  /** `extractLinks(html)`. */
  function ExtractLinks(env: Env, html: string): (r: Option<seq<string>>)
    ensures r.Some? <==> env.anchors(html).Some?
    ensures r.Some? ==> var hrefs := env.anchors(html).value;
              && |r.value| == (if |hrefs| == 0 then 0 else |hrefs| - 1)
              && forall k :: 0 <= k < |r.value| ==> r.value[k] == hrefs[k + 1]
  {
    match env.anchors(html)
    case None => None
    case Some(hrefs) => Some(DropFirst(hrefs))
  }

  /** `prependPaths(arr, path)`: every element becomes `path/element`. */
  function PrependPaths(arr: seq<string>, path: string): (r: seq<string>)
    ensures |r| == |arr|
    ensures forall k :: 0 <= k < |r| ==>
              |path| + 1 <= |r[k]| && r[k][..|path| + 1] == path + "/" && r[k][|path| + 1..] == arr[k]
  {
    Map(a => path + "/" + a, arr)
  }

  /** An entry is kept when the last piece of the entry split at `.` is an
      allowed extension; without a `.` that piece is the whole entry. */
  predicate HasMediaExtension(entry: string)
  {
    var segments := Split(entry, '.');
    segments[|segments| - 1] in AllowedExtensions
  }

  /** The extension test, stated with the position of the last `.`. */
  lemma MediaExtensionAfterLastDot(entry: string)
    ensures var k := LastIndexOf(entry, '.');
            HasMediaExtension(entry) <==> entry[k + 1..] in AllowedExtensions
  {
    SplitAtLastSeparator(entry, '.');
  }

  /** The final filter of `pathToList`: exactly the entries with an allowed
      extension, each as often as in the input, in input order. */
  function FilterMedia(list: seq<string>): (r: seq<string>)
    ensures forall k :: 0 <= k < |r| ==> HasMediaExtension(r[k])
    ensures forall e :: multiset(r)[e] == if HasMediaExtension(e) then multiset(list)[e] else 0
    ensures IsSubsequence(r, list)
  {
    Filter(list, HasMediaExtension)
  }

  /** A manifest line: the directory to list and the file name or pattern. */
  datatype ManifestLine = ManifestLine(dir: string, filename: string)

  /** A directory that does not start with `/` (the empty one included) gets
      one prefixed. */
  function NormalizeDir(raw: string): (dir: string)
    ensures 0 < |dir| && dir[0] == '/'
    ensures 0 < |raw| && raw[0] == '/' ==> dir == raw
    ensures !(0 < |raw| && raw[0] == '/') ==> dir == "/" + raw
  {
    if 0 < |raw| && raw[0] == '/' then raw else "/" + raw
  }

  /** Parsing a manifest line: the directory is every `/`-segment but the
      last, re-joined and made to start with `/`; the file name is the last
      segment, trimmed. */
  function ParseLine(line: string): (m: ManifestLine)
    ensures 0 < |m.dir| && m.dir[0] == '/'
    ensures '/' !in m.filename
    ensures 0 < |m.filename| ==> !IsWhitespace(m.filename[0]) && !IsWhitespace(m.filename[|m.filename| - 1])
  {
    var segments := Split(line, '/');
    var last := segments[|segments| - 1];
    TrimKeepsOut(last, '/');
    ManifestLine(NormalizeDir(Join(segments[..|segments| - 1], '/')), Trim(last))
  }

  /** The parse of a line, stated with the position of its last `/`: a line
      without `/` names a file of the root directory. */
  lemma ParseLineAtLastSlash(line: string)
    ensures var k := LastIndexOf(line, '/');
            && (k < 0 ==> ParseLine(line) == ManifestLine("/", Trim(line)))
            && (0 <= k ==> ParseLine(line) == ManifestLine(NormalizeDir(line[..k]), Trim(line[k + 1..])))
  {
    ParseLineWithoutSlash(line);
    ParseLineWithSlash(line);
  }

  /** A line without `/` names a file of the root directory. */
  lemma ParseLineWithoutSlash(line: string)
    ensures LastIndexOf(line, '/') < 0 ==> ParseLine(line) == ManifestLine("/", Trim(line))
  {
    if LastIndexOf(line, '/') < 0 {
      var parts := Split(line, '/');
      SplitAtLastSeparator(line, '/');
      assert parts[..|parts| - 1] == [];
      ParseLineOfPieces(line, "", line);
    }
  }

  /** A line with a `/` is cut at the last one. */
  lemma ParseLineWithSlash(line: string)
    ensures var k := LastIndexOf(line, '/');
            0 <= k ==> ParseLine(line) == ManifestLine(NormalizeDir(line[..k]), Trim(line[k + 1..]))
  {
    LeadingPiecesBeforeSlash(line);
    LastPieceAfterSlash(line);
    var k := LastIndexOf(line, '/');
    if 0 <= k {
      ParseLineOfPieces(line, line[..k], line[k + 1..]);
    }
  }

  /** The segments before the last one re-join to the text before the last `/`. */
  lemma LeadingPiecesBeforeSlash(line: string)
    ensures var parts := Split(line, '/');
            var k := LastIndexOf(line, '/');
            0 <= k ==> Join(parts[..|parts| - 1], '/') == line[..k]
  {
    SplitAtLastSeparator(line, '/');
  }

  /** The last segment is the text after the last `/`. */
  lemma LastPieceAfterSlash(line: string)
    ensures var parts := Split(line, '/');
            var k := LastIndexOf(line, '/');
            0 <= k ==> parts[|parts| - 1] == line[k + 1..]
  {
    SplitAtLastSeparator(line, '/');
  }

  /** The parse of a line whose leading segments re-join to `dir` and whose
      last segment is `name`. */
  lemma ParseLineOfPieces(line: string, dir: string, name: string)
    requires var parts := Split(line, '/');
             Join(parts[..|parts| - 1], '/') == dir && parts[|parts| - 1] == name
    ensures ParseLine(line) == ManifestLine(NormalizeDir(dir), Trim(name))
  {
  }

  /** The literal test of a manifest line: the file name is one of the links,
      or its unescaped form is one of the unescaped links. */
  predicate ExactMatch(env: Env, links: seq<string>, filename: string)
  {
    || filename in links
    || env.unescape(filename) in Map(env.unescape, links)
  }

  /** The pattern test of a manifest line: the link matches the pattern as a
      regular expression, or its unescaped form contains the pattern. */
  predicate Selects(env: Env, link: string, pattern: string)
  {
    env.regexMatches(link, pattern) || Contains(env.unescape(link), pattern)
  }

  function Selector(env: Env, pattern: string): string -> bool
  {
    link => Selects(env, link, pattern)
  }

  /** The links of the index page of `dir`: `extractLinks` of the body that
      fetching `dir` gives. */
  function DirLinks(env: Env, dir: string): Option<seq<string>>
  {
    ExtractLinks(env, env.fetch(dir).body)
  }

  /** The literal test holds exactly when the file name is listed as it is,
      or some listed link unescapes to what the file name unescapes to. */
  lemma ExactMatchMeans(env: Env, links: seq<string>, filename: string)
    ensures ExactMatch(env, links, filename) <==>
              || filename in links
              || exists k :: 0 <= k < |links| && env.unescape(links[k]) == env.unescape(filename)
  {
    var unescaped := Map(env.unescape, links);
    if env.unescape(filename) in unescaped {
      var k :| 0 <= k < |unescaped| && unescaped[k] == env.unescape(filename);
      assert env.unescape(links[k]) == env.unescape(filename);
    }
  }

  /** The pattern test holds exactly when the regular expression matches the
      link or the pattern occurs somewhere in the unescaped link. */
  lemma SelectsMeans(env: Env, link: string, pattern: string)
    ensures Selects(env, link, pattern) <==>
              env.regexMatches(link, pattern) || exists i: nat :: OccursAt(env.unescape(link), pattern, i)
  {
    ContainsIffOccurs(env.unescape(link), pattern);
  }

  /** A directory has a link list exactly when its fetched page has the
      anchor list, and the list is every href of the page but the first. */
  lemma DirLinksOfIndexPage(env: Env, dir: string)
    ensures DirLinks(env, dir).Some? <==> env.anchors(env.fetch(dir).body).Some?
    ensures DirLinks(env, dir).Some? ==>
              var hrefs := env.anchors(env.fetch(dir).body).value;
              var links := DirLinks(env, dir).value;
              && |links| == (if |hrefs| == 0 then 0 else |hrefs| - 1)
              && forall k :: 0 <= k < |links| ==> links[k] == hrefs[k + 1]
  {
  }

  /** The entries one manifest line contributes. The pattern
      is compiled before the directory is fetched, so an invalid pattern
      fails first. */
  function LineEntries(env: Env, line: string): (r: Result<seq<string>>)
    ensures r.Failure? ==> r.error == InvalidPattern(ParseLine(line).filename)
                           || r.error == NoLinkList(ParseLine(line).dir)
    ensures !env.patternValid(ParseLine(line).filename) ==> r == Failure(InvalidPattern(ParseLine(line).filename))
    ensures env.patternValid(ParseLine(line).filename) && DirLinks(env, ParseLine(line).dir).None?
            ==> r == Failure(NoLinkList(ParseLine(line).dir))
    ensures r.Success? <==> env.patternValid(ParseLine(line).filename) && DirLinks(env, ParseLine(line).dir).Some?
    ensures r.Success? ==> forall k :: 0 <= k < |r.value| ==>
              |ParseLine(line).dir| + 1 <= |r.value[k]|
              && r.value[k][..|ParseLine(line).dir| + 1] == ParseLine(line).dir + "/"
  {
    var m := ParseLine(line);
    if !env.patternValid(m.filename) then Failure(InvalidPattern(m.filename))
    else
      match DirLinks(env, m.dir)
      case None => Failure(NoLinkList(m.dir))
      case Some(links) =>
        if ExactMatch(env, links, m.filename) then Success([m.dir + "/" + m.filename])
        else Success(PrependPaths(Filter(links, Selector(env, m.filename)), m.dir))
  }

  /** A line whose file name is literally in its directory's listing
      contributes exactly `dir/filename`. */
  lemma ExactLineGivesOneEntry(env: Env, line: string, links: seq<string>)
    requires env.patternValid(ParseLine(line).filename)
    requires DirLinks(env, ParseLine(line).dir) == Some(links)
    requires ParseLine(line).filename in links
             || exists l :: l in links && env.unescape(l) == env.unescape(ParseLine(line).filename)
    ensures LineEntries(env, line) == Success([ParseLine(line).dir + "/" + ParseLine(line).filename])
  {
    var m := ParseLine(line);
    var unescaped := Map(env.unescape, links);
    if m.filename !in links {
      var l :| l in links && env.unescape(l) == env.unescape(m.filename);
      var k :| 0 <= k < |links| && links[k] == l;
      assert unescaped[k] == env.unescape(m.filename);
    }
  }

  /** `dir/link` is among the prefixed survivors of a filter exactly when
      `link` is a listed link that passes. */
  lemma PrefixedSurvivors(links: seq<string>, p: string -> bool, dir: string, e: string)
    ensures e in PrependPaths(Filter(links, p), dir) <==>
              exists link :: link in links && p(link) && e == dir + "/" + link
  {
    var kept := Filter(links, p);
    var r := PrependPaths(kept, dir);
    if e in r {
      var k :| 0 <= k < |r| && r[k] == e;
      FilterMembership(links, p, kept[k]);
      assert kept[k] in links && p(kept[k]) && e == dir + "/" + kept[k];
    }
    if exists link :: link in links && p(link) && e == dir + "/" + link {
      var link :| link in links && p(link) && e == dir + "/" + link;
      FilterMembership(links, p, link);
      var k :| 0 <= k < |kept| && kept[k] == link;
      assert r[k] == e;
    }
  }

  /** Otherwise the line contributes `dir/link` for exactly the links the
      pattern selects, each as often as it is listed, in listing order; every
      contribution comes from a link of that directory. */
  lemma PatternLineGivesSelectedLinks(env: Env, line: string, links: seq<string>, e: string)
    requires env.patternValid(ParseLine(line).filename)
    requires DirLinks(env, ParseLine(line).dir) == Some(links)
    requires !ExactMatch(env, links, ParseLine(line).filename)
    ensures LineEntries(env, line).Success?
    ensures var m := ParseLine(line);
            var r := LineEntries(env, line).value;
            && r == PrependPaths(Filter(links, Selector(env, m.filename)), m.dir)
            && (e in r <==> exists link :: link in links && Selects(env, link, m.filename) && e == m.dir + "/" + link)
  {
    var m := ParseLine(line);
    var p := Selector(env, m.filename);
    assert LineEntries(env, line) == Success(PrependPaths(Filter(links, p), m.dir));
    PrefixedSurvivors(links, p, m.dir, e);
    assert forall link :: p(link) == Selects(env, link, m.filename);
  }

  /** A blank line (also the single line of an empty manifest) has no `/` and
      an empty pattern, which every unescaped link contains: unless a link is
      literally empty, it contributes every link of the root directory. */
  lemma BlankLineListsRoot(env: Env, line: string, links: seq<string>)
    requires forall k :: 0 <= k < |line| ==> IsWhitespace(line[k])
    requires env.patternValid("")
    requires DirLinks(env, "/") == Some(links)
    requires !ExactMatch(env, links, "")
    ensures LineEntries(env, line) == Success(PrependPaths(links, "/"))
  {
    assert '/' !in line by {
      assert !IsWhitespace('/');
    }
    assert Trim(line) == "";
    assert ParseLine(line) == ManifestLine("/", "") by {
      ParseLineAtLastSlash(line);
    }
    var select := Selector(env, "");
    assert forall k :: 0 <= k < |links| ==> select(links[k]);
    FilterKeepsAll(links, select);
  }

  /** The lines of a manifest body: the trimmed body cut at every newline. */
  function ManifestLines(body: string): (lines: seq<string>)
    ensures 1 <= |lines|
    ensures forall k :: 0 <= k < |lines| ==> '\n' !in lines[k]
  {
    Split(Trim(body), '\n')
  }

  /** The lines are the trimmed body cut at its newlines: re-joined they give
      it back. */
  lemma ManifestLinesRejoin(body: string)
    ensures Join(ManifestLines(body), '\n') == Trim(body)
  {
    SplitThenJoin(Trim(body), '\n');
  }

  /** A manifest that is empty or only whitespace still has one line, the
      empty one. */
  lemma BlankManifestHasOneLine(body: string)
    requires forall k :: 0 <= k < |body| ==> IsWhitespace(body[k])
    ensures ManifestLines(body) == [""]
  {
    assert Trim(body) == "";
  }

  /** The loop over the manifest lines: their contributions, concatenated top to
      bottom; the first failing line rejects the whole resolution. */
  function ManifestEntries(env: Env, lines: seq<string>): Result<seq<string>>
  {
    Collect(Map(LineResolver(env), lines))
  }

  /** The manifest resolves exactly when every line does, and a failure is
      the failure of one of its lines. */
  lemma ManifestEntriesOutcome(env: Env, lines: seq<string>)
    ensures ManifestEntries(env, lines).Success?
            <==> forall k :: 0 <= k < |lines| ==> LineEntries(env, lines[k]).Success?
    ensures ManifestEntries(env, lines).Failure?
            ==> exists k :: 0 <= k < |lines| && LineEntries(env, lines[k]) == Failure(ManifestEntries(env, lines).error)
  {
    var results := Map(LineResolver(env), lines);
    assert forall k :: 0 <= k < |lines| ==> results[k] == LineEntries(env, lines[k]);
  }

  /** `LineEntries` as a function value, for mapping over the lines. */
  function LineResolver(env: Env): string -> Result<seq<string>>
  {
    line => LineEntries(env, line)
  }

  /** Concatenates the contributions in order; the first failure wins. */
  function Collect(results: seq<Result<seq<string>>>): (r: Result<seq<string>>)
    ensures r.Failure? ==> exists k :: 0 <= k < |results| && results[k] == Failure(r.error)
    ensures r.Success? ==> forall k :: 0 <= k < |results| ==> results[k].Success?
  {
    if |results| == 0 then Success([]) else CollectStep(results[0], Collect(results[1..]))
  }

  /** One iteration of the loop: a line's entries in front of those of the
      lines below it; the line's own failure comes first. */
  function CollectStep(head: Result<seq<string>>, tail: Result<seq<string>>): (r: Result<seq<string>>)
    ensures r.Success? <==> head.Success? && tail.Success?
    ensures r.Failure? ==> r == head || r == tail
    ensures head.Failure? ==> r == head
    ensures r.Success? ==> r.value == head.value + tail.value
  {
    match head
    case Failure(e) => Failure(e)
    case Success(entries) =>
      match tail
      case Failure(e) => Failure(e)
      case Success(rest) => Success(entries + rest)
  }

  /** Collecting a concatenation: the entries of the first part followed by
      those of the second, and a failure in the first part is the failure of
      the whole. */
  lemma {:induction false} CollectAppend(a: seq<Result<seq<string>>>, b: seq<Result<seq<string>>>)
    ensures Collect(a).Failure? ==> Collect(a + b) == Collect(a)
    ensures Collect(a).Success? && Collect(b).Failure? ==> Collect(a + b) == Collect(b)
    ensures Collect(a).Success? && Collect(b).Success? ==>
              Collect(a + b) == Success(Collect(a).value + Collect(b).value)
    decreases |a|
  {
    if |a| == 0 {
      assert a + b == b;
      if Collect(b).Success? {
        assert Collect(a).value + Collect(b).value == Collect(b).value;
      }
    } else {
      var ab := a + b;
      assert ab[0] == a[0];
      assert ab[1..] == a[1..] + b;
      CollectAppend(a[1..], b);
      assert Collect(ab) == CollectStep(a[0], Collect(a[1..] + b));
      assert Collect(a) == CollectStep(a[0], Collect(a[1..]));
      if a[0].Success? && Collect(a[1..]).Success? && Collect(b).Success? {
        var head := a[0].value;
        var mid := Collect(a[1..]).value;
        var rest := Collect(b).value;
        assert head + (mid + rest) == (head + mid) + rest;
      }
    }
  }

  /** Splitting a manifest in two: its entries are those of the first part
      followed by those of the second, and a failure in the first part is the
      failure of the whole. */
  lemma ManifestEntriesAppend(env: Env, a: seq<string>, b: seq<string>)
    ensures ManifestEntries(env, a).Failure? ==> ManifestEntries(env, a + b) == ManifestEntries(env, a)
    ensures ManifestEntries(env, a).Success? && ManifestEntries(env, b).Failure? ==>
              ManifestEntries(env, a + b) == ManifestEntries(env, b)
    ensures ManifestEntries(env, a).Success? && ManifestEntries(env, b).Success? ==>
              ManifestEntries(env, a + b) == Success(ManifestEntries(env, a).value + ManifestEntries(env, b).value)
  {
    MapConcat(LineResolver(env), a, b);
    CollectAppend(Map(LineResolver(env), a), Map(LineResolver(env), b));
  }

  /** In a successful collection each contribution sits between those before
      it and those after it. */
  lemma {:induction false} CollectInPlace(results: seq<Result<seq<string>>>, i: nat)
    requires i < |results|
    requires Collect(results).Success?
    ensures results[i].Success? && Collect(results[..i]).Success? && Collect(results[i + 1..]).Success?
    ensures Collect(results).value
            == Collect(results[..i]).value + results[i].value + Collect(results[i + 1..]).value
  {
    var rest := results[i..];
    assert results == results[..i] + rest;
    CollectAppend(results[..i], rest);
    assert Collect(results[..i]).Success? && Collect(rest).Success?;
    assert rest[0] == results[i];
    assert rest[1..] == results[i + 1..];
    assert Collect(rest) == CollectStep(results[i], Collect(results[i + 1..]));
    var before := Collect(results[..i]).value;
    var after := Collect(results[i + 1..]).value;
    assert before + (results[i].value + after) == before + results[i].value + after;
  }

  /** Each line's contribution sits in the result between those of the lines
      above it and those of the lines below it. */
  lemma ManifestLineInPlace(env: Env, lines: seq<string>, i: nat)
    requires i < |lines|
    ensures ManifestEntries(env, lines).Success? ==>
              && LineEntries(env, lines[i]).Success?
              && ManifestEntries(env, lines[..i]).Success? && ManifestEntries(env, lines[i + 1..]).Success?
              && ManifestEntries(env, lines).value
                 == ManifestEntries(env, lines[..i]).value + LineEntries(env, lines[i]).value
                    + ManifestEntries(env, lines[i + 1..]).value
  {
    if ManifestEntries(env, lines).Success? {
      CollectMapInPlace(LineResolver(env), lines, i);
    }
  }

  /** `CollectInPlace` for contributions computed element by element. */
  lemma CollectMapInPlace<A>(f: A -> Result<seq<string>>, xs: seq<A>, i: nat)
    requires i < |xs|
    requires Collect(Map(f, xs)).Success?
    ensures f(xs[i]).Success? && Collect(Map(f, xs[..i])).Success? && Collect(Map(f, xs[i + 1..])).Success?
    ensures Collect(Map(f, xs)).value
            == Collect(Map(f, xs[..i])).value + f(xs[i]).value + Collect(Map(f, xs[i + 1..])).value
  {
    var results := Map(f, xs);
    MapSlice(f, xs, 0, i);
    assert xs[0..i] == xs[..i] && results[0..i] == results[..i];
    MapSlice(f, xs, i + 1, |xs|);
    assert xs[i + 1..|xs|] == xs[i + 1..] && results[i + 1..|results|] == results[i + 1..];
    CollectInPlace(results, i);
  }

  /** `pathToList(path)` before the shuffle. */
  function Resolve(env: Env, path: string): (r: Result<seq<string>>)
    ensures r.Success? ==> forall k :: 0 <= k < |r.value| ==> HasMediaExtension(r.value[k])
  {
    var data := env.fetch(path);
    match data.contentType
    case None => Failure(NoContentType(path))
    case Some(contentType) =>
      if Contains(contentType, "text/plain") then
        match ManifestEntries(env, ManifestLines(data.body))
        case Failure(e) => Failure(e)
        case Success(list) => Success(FilterMedia(list))
      else if Contains(contentType, "text/html") then
        match ExtractLinks(env, data.body)
        case None => Failure(NoLinkList(path))
        case Some(links) => Success(FilterMedia(PrependPaths(links, path)))
      else Success([])
  }

  /** Without a Content-Type header the resolution fails; with one that names
      neither `text/plain` nor `text/html` it yields nothing. */
  lemma OtherContentTypeGivesNothing(env: Env, path: string)
    ensures env.fetch(path).contentType.None? ==> Resolve(env, path) == Failure(NoContentType(path))
    ensures var ct := env.fetch(path).contentType;
            ct.Some? && !Contains(ct.value, "text/plain") && !Contains(ct.value, "text/html")
            ==> Resolve(env, path) == Success([])
  {
  }

  /** The failures of a listing: an HTML page without a link list rejects with
      the path, and a manifest rejects with the failure of its lines. */
  lemma ListingFailures(env: Env, path: string)
    ensures var data := env.fetch(path);
            && data.contentType.Some? && !Contains(data.contentType.value, "text/plain")
            && Contains(data.contentType.value, "text/html") && env.anchors(data.body).None?
            ==> Resolve(env, path) == Failure(NoLinkList(path))
    ensures var data := env.fetch(path);
            && data.contentType.Some? && Contains(data.contentType.value, "text/plain")
            && ManifestEntries(env, ManifestLines(data.body)).Failure?
            ==> Resolve(env, path) == ManifestEntries(env, ManifestLines(data.body))
  {
  }

  /** The media entries among `path/link` for the given links. */
  lemma MediaOfPrefixedLinks(links: seq<string>, path: string, e: string)
    ensures IsSubsequence(FilterMedia(PrependPaths(links, path)), PrependPaths(links, path))
    ensures e in FilterMedia(PrependPaths(links, path)) <==>
              HasMediaExtension(e) && exists j :: 0 <= j < |links| && e == path + "/" + links[j]
  {
    var all := PrependPaths(links, path);
    FilterMembership(all, HasMediaExtension, e);
    if e in all {
      var k :| 0 <= k < |all| && all[k] == e;
      assert e == path + "/" + links[k];
    }
    if exists j :: 0 <= j < |links| && e == path + "/" + links[j] {
      var j :| 0 <= j < |links| && e == path + "/" + links[j];
      assert all[j] == e;
    }
  }

  /** An HTML listing yields `path/href` for the media links among all hrefs
      but the first, in page order. */
  lemma HtmlListingGivesItsLinks(env: Env, path: string, hrefs: seq<string>, e: string)
    requires env.fetch(path).contentType.Some?
    requires !Contains(env.fetch(path).contentType.value, "text/plain")
    requires Contains(env.fetch(path).contentType.value, "text/html")
    requires env.anchors(env.fetch(path).body) == Some(hrefs)
    ensures Resolve(env, path) == Success(FilterMedia(PrependPaths(DropFirst(hrefs), path)))
    ensures forall x :: multiset(Resolve(env, path).value)[x]
                        == if HasMediaExtension(x) then multiset(PrependPaths(DropFirst(hrefs), path))[x] else 0
    ensures IsSubsequence(Resolve(env, path).value, PrependPaths(DropFirst(hrefs), path))
    ensures e in Resolve(env, path).value <==>
              HasMediaExtension(e) && exists j :: 1 <= j < |hrefs| && e == path + "/" + hrefs[j]
  {
    assert Resolve(env, path) == Success(FilterMedia(PrependPaths(DropFirst(hrefs), path)));
    MediaOfListedHrefs(hrefs, path, e);
  }

  /** The media entries among `path/href` for every href but the first. */
  lemma MediaOfListedHrefs(hrefs: seq<string>, path: string, e: string)
    ensures e in FilterMedia(PrependPaths(DropFirst(hrefs), path)) <==>
              HasMediaExtension(e) && exists j :: 1 <= j < |hrefs| && e == path + "/" + hrefs[j]
  {
    MediaOfPrefixedLinks(DropFirst(hrefs), path, e);
    DropFirstShift(hrefs, path, e);
  }

  /** Position `j` of the hrefs after the first is position `j + 1` of all. */
  lemma DropFirstShift(hrefs: seq<string>, path: string, e: string)
    ensures (exists j :: 0 <= j < |DropFirst(hrefs)| && e == path + "/" + DropFirst(hrefs)[j])
            <==> (exists j :: 1 <= j < |hrefs| && e == path + "/" + hrefs[j])
  {
    var links := DropFirst(hrefs);
    if exists j :: 0 <= j < |links| && e == path + "/" + links[j] {
      var j :| 0 <= j < |links| && e == path + "/" + links[j];
      assert e == path + "/" + hrefs[j + 1];
    }
    if exists j :: 1 <= j < |hrefs| && e == path + "/" + hrefs[j] {
      var j :| 1 <= j < |hrefs| && e == path + "/" + hrefs[j];
      assert links[j - 1] == hrefs[j];
    }
  }

  /** A manifest yields the media entries of its lines' contributions,
      concatenated top to bottom. */
  lemma ManifestGivesLineEntries(env: Env, path: string, a: seq<string>, b: seq<string>)
    ensures var data := env.fetch(path);
            && data.contentType.Some? && Contains(data.contentType.value, "text/plain")
            && ManifestLines(data.body) == a + b
            && ManifestEntries(env, a).Success? && ManifestEntries(env, b).Success?
            ==> Resolve(env, path)
                == Success(FilterMedia(ManifestEntries(env, a).value) + FilterMedia(ManifestEntries(env, b).value))
  {
    var data := env.fetch(path);
    if && data.contentType.Some? && Contains(data.contentType.value, "text/plain")
       && ManifestLines(data.body) == a + b
       && ManifestEntries(env, a).Success? && ManifestEntries(env, b).Success?
    {
      ManifestEntriesAppend(env, a, b);
      FilterConcat(ManifestEntries(env, a).value, ManifestEntries(env, b).value, HasMediaExtension);
    }
  }

  /** `pathToList(path)`: the resolved list, shuffled in place when the
      shuffle box is checked. Shuffling changes the order only. */
  method PathToList(env: Env, path: string, shuffleChecked: bool, random: nat -> real)
    returns (r: Result<seq<string>>)
    requires Shuffling.ValidDraws(random)
    ensures r.Success? <==> Resolve(env, path).Success?
    ensures r.Failure? ==> r == Resolve(env, path)
    ensures !shuffleChecked ==> r == Resolve(env, path)
    ensures r.Success? ==> multiset(r.value) == multiset(Resolve(env, path).value)
    ensures r.Success? ==> forall k :: 0 <= k < |r.value| ==> HasMediaExtension(r.value[k])
  {
    r := Resolve(env, path);
    if r.Success? && shuffleChecked {
      var list := r.value;
      var shuffled := Shuffling.Shuffle(list, random);
      forall k | 0 <= k < |shuffled|
        ensures HasMediaExtension(shuffled[k])
      {
        Shuffling.ShuffleKeepsElements(list, random, shuffled[k]);
      }
      r := Success(shuffled);
    }
  }
}
