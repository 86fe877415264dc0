# Media playlist resolver and session, in Dafny

This project models the core of a browser media player that builds a playlist
from a directory index or a manifest, all in `playlist.js`:

- **Resolving a path to a list of media paths** (`pathToList`, `extractLinks`,
  `prependPaths`).
  - A response whose Content-Type contains `text/plain` is a manifest.
    - Each line of its trimmed body names a directory and a file name or
      pattern.
    - The line is resolved against the links of that directory's index page.
      The file name is first compiled as a regular expression; a name that
      does not compile rejects the whole resolution. A file name that is
      listed as it is, or after `unescape` on both sides, gives
      `dir/filename`. Otherwise the line gives `dir/link` for every link the
      pattern selects.
  - A `text/html` response is itself an index page. Its links, minus the
    first (the parent-directory link), are prefixed with the path.
  - Any other content type yields nothing.
  - The collected entries are filtered to the extensions `ogg`, `mp4`,
    `webm`, `mp3` and `wav`. When the shuffle box is checked they are
    shuffled.
- **Shuffling** (`shuffle`). Each position is swapped with a randomly drawn
  position.
- **The playlist session** (`createPlaylist`). It keeps a current index.
  - `set` accepts an integer index only if it is in range, and also accepts
    NaN (see below).
  - `next` and `prev` move by ±1 modulo the length, using JavaScript's
    truncating `%`.
  - So `next` wraps from the last path to the first.
  - `prev` from the first path computes -1. The guard rejects -1, so the
    index stays at 0. With a single path, `-1 % 1` is zero and the same
    path is replayed.
  - On an empty playlist `x % 0` is NaN. NaN passes the guard because every
    comparison with NaN is false, so after the first move the index is NaN
    and stays NaN.

Modules, one per file:

- `JsString` (`js_string.dfy`): the string builtins the resolver relies on,
  and one reference definition.
  - `trim`, with ECMAScript's whitespace set.
  - `split` and `join` on one character.
  - `includes`.
  - `LastIndexOf`, a reference definition of the last position of a
    character. The source does not call it. The line parse and the
    extension test are stated against it.
- `Seqs` (`seqs.dfy`): `filter` and `map` over sequences.
- `Shuffling` (`shuffle.dfy`): the shuffle. The draws of `Math.random()`
  are a stream of reals in [0, 1).
- `PlaylistSession` (`session.dfy`): the index logic of `createPlaylist`.
  JavaScript numbers are integers or NaN.
- `Resolver` (`resolver.dfy`): `pathToList` and its helpers. The
  collaborators of `pathToList` are oracles, fields of an `Env` value:
  - the network (`get`);
  - the HTML parser's anchor extraction;
  - regular-expression compilation and matching;
  - `unescape`.

The exceptions that reject the promise of `pathToList` are modelled as a
`Failure`:

- a response without Content-Type (`.includes` on null);
- an index page without a third body child (`extractLinks` reads
  `children` of undefined);
- a manifest file name that is not a valid regular expression
  (`new RegExp` throws before the directory is fetched).

Two consequences of the code that are easy to miss:

- Every line of the trimmed manifest body, cut at each newline, is resolved,
  including blank lines.
  - An empty or all-whitespace manifest still has one line, the empty one
    (`Resolver.BlankManifestHasOneLine`).
  - A blank line resolves to every link of the root directory
    (`Resolver.BlankLineListsRoot`). The empty pattern matches everything.
- The extension test takes the last piece of the entry cut at each `.`. An
  entry without a `.` is one piece, so it is tested as a whole against the
  extension list.

## Model

| member | source | states |
|---|---|---|
| Shuffling.RandomIndex | playlist.js:51 | `Math.floor(x * length)` for a draw in [0, 1) is a valid index, and it is the floor of `x * length` |
| Shuffling.Swap | playlist.js:52-54 | the swap exchanges the two positions, leaves every other position alone, and keeps the multiset |
| Shuffling.ShuffleStep | playlist.js:50-55 | one loop iteration keeps the length and the multiset of elements |
| Shuffling.ShuffleFrom | playlist.js:49-56 | the iterations from any position to the end keep the length and the multiset of elements |
| Shuffling.Shuffle | playlist.js:49-56 | the loop performs every iteration from the first position to the last, so the result is a permutation of the input (same length, same multiset) |
| Shuffling.ShuffleKeepsElements | playlist.js:49-56 | whatever the draws, a value is in the shuffled sequence exactly when it is in the input |
| PlaylistSession.JsRem | playlist.js:161 | `%` is the remainder of the quotient truncated toward zero: it takes the dividend's sign and is smaller than the divisor in magnitude |
| PlaylistSession.JsRemNearZero | playlist.js:161 | within one divisor of zero the remainder is the dividend itself; `n % n` is 0 |
| PlaylistSession.Rem | playlist.js:161 | `x % length` is a number exactly when `x` is one and the length is not 0 (otherwise NaN) |
| PlaylistSession.CreatePlaylist | playlist.js:133-134 | the session plays the given paths and starts at index 0, which designates a path exactly when there is one |
| PlaylistSession.Set | playlist.js:136-138 | an integer index is accepted exactly when it is in range; a rejected call changes nothing; an accepted one makes the index current; NaN is always accepted |
| PlaylistSession.Add | playlist.js:161 | `currentIndex + delta` is NaN exactly when the index is, and otherwise the index moved by `delta` |
| PlaylistSession.Move | playlist.js:160-162 | moving never changes the paths and keeps the index in range |
| PlaylistSession.Next | playlist.js:164-166 | `next` keeps the paths, and from an in-range index it is accepted and stays in range |
| PlaylistSession.Prev | playlist.js:168-170 | `prev` keeps the paths, and from an in-range index it stays in range |
| PlaylistSession.ValidIsInvariant | playlist.js:133-170 | from an in-range index, `next` and `prev` stay in range, and `set` does unless it accepts NaN |
| PlaylistSession.NextAdvancesOrWraps | playlist.js:160-166 | `next` is always accepted; it advances by one, and from the last path it wraps to the first |
| PlaylistSession.PrevStepsBackOrStays | playlist.js:160-170 | `prev` from a later path is accepted and steps back by one; from the first path the session is unchanged, and the call is accepted only for a single path |
| PlaylistSession.NextPrevInverse | playlist.js:160-170 | `prev` undoes `next` unless `next` wrapped; `next` undoes `prev` unless `prev` was at the first path |
| PlaylistSession.EmptyPlaylistIndexBecomesNaN | playlist.js:133-170 | on an empty playlist `set(0)` is rejected, but every move is accepted and leaves the index NaN, also on the next move |
| JsString.Trim | playlist.js:195 | `trim` keeps a contiguous slice whose ends are not whitespace and which holds every non-whitespace character of the input |
| JsString.TrimIdempotent | playlist.js:195 | trimming a trimmed string changes nothing |
| JsString.Split | playlist.js:193 | `split` gives at least one piece; no piece contains the separator; there is one piece exactly when the separator does not occur |
| JsString.SplitThenJoin | playlist.js:193 | joining the pieces of a split with the same separator gives back the string |
| JsString.JoinThenSplit | playlist.js:193 | splitting a join of separator-free pieces gives back the pieces |
| JsString.JoinSnoc | playlist.js:193 | `join` of several pieces is the join of all but the last, the separator, then the last piece |
| JsString.TrimKeepsOut | playlist.js:195 | trimming introduces no character: one absent from the string is absent from its trim |
| JsString.LastIndexOf | playlist.js:193-195 | reference definition of the last position of a character, which the source never computes but which pins where `split` cuts: the result is -1 or a position of the character, and the character does not occur after it |
| JsString.SplitAtLastSeparator | playlist.js:193-195 | the last piece of a split is the text after the last separator; the other pieces re-joined are the text before it; with no separator the only piece is the whole string |
| JsString.Contains | playlist.js:201 | `includes` holds for the empty needle and fails for a needle longer than the haystack |
| JsString.ContainsIffOccurs | playlist.js:201 | `includes` holds exactly when the needle occurs at some position of the haystack |
| Seqs.Filter | playlist.js:201 | `filter` keeps exactly the passing elements, each as often as in the input, in input order |
| Seqs.FilterMembership | playlist.js:201 | a value is kept exactly when it is in the input and passes |
| Seqs.FilterConcat | playlist.js:202 | filtering a concatenation is concatenating the filtered parts |
| Seqs.FilterKeepsAll | playlist.js:201 | a filter that every element passes keeps the whole sequence |
| Seqs.Map | playlist.js:198 | `map` gives one image per element, position by position |
| Resolver.DropFirst | playlist.js:178-179 | `slice(1)` is the hrefs without the first one, and empty for an empty list |
| Resolver.ExtractLinks | playlist.js:175-180 | a page has a link list exactly when it has the anchor list; the links are the hrefs after the first, position by position |
| Resolver.PrependPaths | playlist.js:182-184 | each element becomes `path/element`, with the same number of elements |
| Resolver.MediaExtensionAfterLastDot | playlist.js:209-210 | an entry passes the extension test exactly when the text after its last `.` is an allowed extension (the whole entry when it has no `.`) |
| Resolver.FilterMedia | playlist.js:209-210 | the final filter keeps exactly the entries with an allowed extension, with their multiplicities, in order |
| Resolver.NormalizeDir | playlist.js:194 | the directory starts with `/`: unchanged when it already does, else prefixed with `/` |
| Resolver.ParseLine | playlist.js:193-195 | a line gives a directory starting with `/` and a file name without `/` and with no whitespace at either end |
| Resolver.ParseLineAtLastSlash | playlist.js:193-195 | the directory is the text before the last `/` and the file name is the trimmed text after it; a line without `/` names a file of `/` |
| Resolver.ExactMatchMeans | playlist.js:198 | the literal test holds exactly when the file name is listed, or some link unescapes to what the file name unescapes to |
| Resolver.SelectsMeans | playlist.js:201 | a link is selected exactly when the regular expression matches it or the pattern occurs at some position of the unescaped link |
| Resolver.DirLinksOfIndexPage | playlist.js:197 | a directory has links exactly when its fetched page has the anchor list; they are the page's hrefs after the first |
| Resolver.LineEntries | playlist.js:193-203 | a line succeeds exactly when its pattern is valid and its directory has a link list; an invalid pattern fails with that pattern, checked before the directory; a missing link list fails with that directory; every entry it gives starts with `dir/` |
| Resolver.ExactLineGivesOneEntry | playlist.js:196-199 | a file name that compiles as a regular expression and is listed, literally or after unescaping, gives exactly `dir/filename` |
| Resolver.PrefixedSurvivors | playlist.js:201-202 | `dir/link` is among the prefixed filtered links exactly when `link` is listed and passes the filter |
| Resolver.PatternLineGivesSelectedLinks | playlist.js:200-202 | otherwise the line gives `dir/link` for exactly the listed links that the pattern matches or whose unescaped form contains it |
| Resolver.BlankLineListsRoot | playlist.js:191-202 | a blank line gives every link of the root directory, unless one link is literally empty |
| Resolver.ManifestLines | playlist.js:191 | the manifest has at least one line, and no line contains a newline |
| Resolver.ManifestLinesRejoin | playlist.js:191 | the lines re-joined with newlines are the trimmed body |
| Resolver.BlankManifestHasOneLine | playlist.js:191 | an empty or all-whitespace manifest has the single line `""` |
| Resolver.ManifestEntriesOutcome | playlist.js:192-204 | the manifest resolves exactly when every line does, and a failure is the failure of one of its lines |
| Resolver.Collect | playlist.js:192-204 | the loop succeeds only if every line does, and a failure is the failure of one of the lines |
| Resolver.CollectStep | playlist.js:192-204 | one iteration succeeds exactly when the line and the rest do; a failing line's own failure comes first; on success the line's entries come in front of the rest |
| Resolver.CollectAppend | playlist.js:192-204 | collecting two runs of lines gives the first run's entries followed by the second's; a failure in the first run wins |
| Resolver.ManifestEntriesAppend | playlist.js:192-204 | the manifest's entries are those of its first lines followed by those of the rest; a failure in the first lines wins |
| Resolver.CollectInPlace | playlist.js:192-204 | in a successful collection each contribution sits between those before it and those after it |
| Resolver.ManifestLineInPlace | playlist.js:192-204 | in a manifest that resolves, each line resolves and its entries sit between those of the lines above and those of the lines below it |
| Resolver.CollectMapInPlace | playlist.js:192-204 | the same for the collection of any per-line function: the line at a position and the runs before and after it all succeed, and the whole is their concatenation |
| Resolver.Resolve | playlist.js:186-210 | every entry of a successful resolution has an allowed extension |
| Resolver.OtherContentTypeGivesNothing | playlist.js:190-207 | a missing Content-Type rejects; one that names neither plain text nor HTML gives the empty list |
| Resolver.ListingFailures | playlist.js:190-206 | an HTML page without the anchor list rejects naming the path; a manifest whose lines fail rejects with that failure |
| Resolver.MediaOfPrefixedLinks | playlist.js:206-210 | the media entries among `path/link` are those `path/link` with an allowed extension, in order |
| Resolver.HtmlListingGivesItsLinks | playlist.js:205-210 | an HTML listing gives exactly the media entries among `path/href` for the hrefs after the first, each as often as it is listed, in page order |
| Resolver.MediaOfListedHrefs | playlist.js:178-179 | `path/href` is a kept entry exactly when it has an allowed extension and `href` is one of the hrefs after the first |
| Resolver.DropFirstShift | playlist.js:178-179 | the hrefs after the first are the hrefs from position 1 on |
| Resolver.ManifestGivesLineEntries | playlist.js:190-210 | a manifest gives the media entries of its lines, concatenated top to bottom |
| Resolver.PathToList | playlist.js:186-216 | the result succeeds or fails with the resolution; unshuffled it is the resolution; shuffled it is a permutation of it; every entry has an allowed extension |

## Left out

- `get` (XMLHttpRequest) and the `async`/`await` sequencing are not modelled.
  Each fetch is the `fetch` oracle of `Env`. Because `fetch` is one fixed
  function, every fetch of the same URL during a resolution gets the same
  response: the server is treated as static while a playlist is built. A failed request never settles
  the promise in the program, so it has no outcome to model.
- `DOMParser` and the page structure are not modelled. `extractLinks` reads the
  hrefs through the `anchors` oracle. `getAttribute` returning null for an
  anchor without `href` is not distinguished from a string.
- Regular-expression syntax and matching are not modelled. They are the
  `patternValid` and `regexMatches` oracles.
- `unescape` is the `unescape` oracle.
- The uniformity of `Math.random()` is not modelled: the draws are an
  arbitrary stream in [0, 1).
- Floating-point rounding of `Math.random() * arr.length` is not modelled;
  the product is exact over the reals.
- `Shuffling.Shuffle`: the source shuffles the array in place. The model
  returns the shuffled sequence as a value.
- The shuffle checkbox (`byId('shuffle').checked`) is the `shuffleChecked`
  parameter of `Resolver.PathToList`.
- `PlaylistSession.Set` models only the index guard and the assignment. The
  DOM and video side effects of `playlist` (`playlist.js` lines 139 to 156) are not modelled:
  the current-song and index labels, `showTable`, `playVideo`, the `ended`
  listener, the keyboard shortcuts and the volume handler.
- `togglePause`, `seekByTimeFn`, `createVideo`, `playVideo`, the volume
  handling and `localStorage` are browser plumbing outside the resolver and
  the session logic.
- `onKey`/`SHORTCUTS`, `createTable`/`showTable` and the DOM helpers
  (`byId`, `hide`, `clearChildren`, `setChildren`) are rendering outside
  the resolver and the session logic.
- `loadPlaylist`, `startPlaylist` and `window.onload` are the page's wiring
  and are not modelled. `loadPlaylist` trims the path, stores it in
  `localStorage`, calls `pathToList` and `createPlaylist`, starts at
  `set(0)`, and binds `next` and `prev` to the right and left arrow keys.
  `window.onload` starts a playlist on Enter, restores the shuffle box from
  `localStorage`, and restarts the playlist whenever the box changes.
- Strings are sequences of Unicode scalar values, not of UTF-16 code units.
  A string holding a lone surrogate (which `unescape` can produce) has no
  counterpart in the model, and lengths and positions count scalar values.
- `JsString.Join`, `Resolver.HasMediaExtension`, `Resolver.ManifestEntries`,
  `Resolver.ExactMatch`, `Resolver.Selects` and `Resolver.DirLinks` carry no
  contract of their own. What they compute is stated by the lemmas about them
  in the table (`SplitThenJoin`, `MediaExtensionAfterLastDot`,
  `ManifestEntriesOutcome`, `ExactMatchMeans`, `SelectsMeans`,
  `DirLinksOfIndexPage`).
