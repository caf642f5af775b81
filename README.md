# sharelove, modelled in Dafny

`sharelove` stars, on GitHub, the repositories of every dependency a Node.js
project declares. One run merges the names of `dependencies` and
`devDependencies`. It asks the npms registry where each package's repository
lives, then asks GitHub's GraphQL API whether the user has starred each
repository. It stars the rest with a single mutation and lists their package
names.

This project models all of that logic in `index.js`. The three network calls
are replaced by their inputs and results.

- `Dependencies` (dependencies.dfy): the merged name list. This is the keys of
  `{ ...dependencies, ...devDependencies }`, with JavaScript's
  insertion-order semantics for object keys.
- `Registry` (registry.dfy): turning the registry's answer into
  `{name, owner, repository}` records. The URL is split on `/`. The owner is
  piece 3. The repository is piece 4 cut before its last `.`. This includes
  the `lastIndexOf` quirk: with no `.`, `substring(0, -1)` gives the empty
  string.
- `Stars` (stars.dfy): the rest of the run.
  - The status query, with positional aliases `_i`, plus the dictionary
    `aliases` that maps each alias back to its package.
  - The filter over the status answer that builds the `addStar` mutation and
    fills the dictionary `notStarred`.
  - The empty check and the report.
  - The two module-level dictionaries are the fields of class `Session`. Its
    methods update them in loops, as the `forEach` callbacks do.
  - `Session.ThanksDependencies` strings the stages together. The two services
    are function parameters.
- `JsText` (js_text.dfy): the JavaScript string operations used above, with
  their ECMAScript meaning: `split`, `join`, `lastIndexOf`, `substring`,
  number-to-decimal in template literals, and newline-terminated text.
- `Wrappers` and `Failures` (wrappers.dfy): `Option`, `Result`, and the
  uncaught exceptions that end a run.

The exceptions the source can raise on its inputs are modelled as `Err`
results. Two kinds are not: a registry body that is not an object, and keys
that clash with names a plain object inherits (see "Left out"). The modelled
cases are:
- a registry entry with no repository URL;
- a URL with fewer than five `/`-pieces, where `url[4].substring` throws;
- a status answer without `data`;
- a `null` entry in the status answer, where `repo.viewerHasStarred` throws;
- a `notStarred` key that has no entry in `aliases`.

The main result is the alias join, proved for a status answer that carries
the query's aliases `_0 … _{n-1}` in order:
- `NotStarredOfAnswer`: `notStarred` holds exactly the unstarred entries, in
  answer order.
- `MutationAliasesOfAnswer`: each mutation line's own alias is also its
  `clientMutationId`.
- `ReportOfAnswer`: the report names exactly the packages of the unstarred
  repositories, in order.

Two behaviours of the code are easy to miss, and the model keeps both:
- Piece 4 of the URL is not just stripped of an extension. When it has no
  `.`, the repository name is empty.
- The status answer is not checked for per-repository GraphQL errors. Only a
  `null` entry ends the run, and it does so at that entry, after the earlier
  entries have been processed.

## Model

| member | source | states |
|---|---|---|
| Dependencies.MergeNoDup | index.js:11 | the merged dependency list never names a package twice |
| Dependencies.MergeMembers | index.js:11 | a name is in the merged list iff it is a key of `dependencies` or of `devDependencies` |
| Dependencies.MergeOrder | index.js:11 | for duplicate-free key lists, the merged list is all `dependencies` keys in order, then the `devDependencies` keys not already present, in order |
| Dependencies.AssignKeysOrder | index.js:11 | assigning distinct keys into an object keeps the existing keys in place and appends the new ones in order |
| Dependencies.AbsentMembers | index.js:11 | the appended part holds exactly the development dependencies that are not regular ones, each once when the development keys are distinct |
| Registry.Resolve | index.js:35-41 | the result has one package per registry entry, in the same order, named by the entry's key; if any entry fails, the run fails with the error of the first failing entry |
| Registry.RepositoryName | index.js:38 | without a `.` the repository name is empty; otherwise it is the segment's prefix up to its last `.` |
| Registry.ParseJoinedUrl | index.js:36-38 | a URL of `/`-free pieces parses iff it has at least five pieces, and then gives piece 3 as owner and piece 4 cut before its last `.` as repository |
| Registry.RepositoryNameDropsExtension | index.js:38 | a name followed by `.` and a dot-free extension gives back the name |
| Registry.ParseGitHubPieces | index.js:36-38 | `https://github.com/<owner>/<last>` parses to owner `<owner>` and the repository name of `<last>` |
| Registry.ParseGitHubUrl | index.js:36-38 | `https://github.com/<owner>/<repo>.git` parses to owner `<owner>` and repository `<repo>` |
| Registry.ParseExampleUrl | index.js:36-38 | `https://github.com/ownerA/repoB.git` parses to `("ownerA", "repoB")` |
| Registry.ParseUrlWithoutExtension | index.js:38 | a GitHub URL whose last piece has no `.` parses to an empty repository name |
| JsText.Split | index.js:36 | `split` yields at least one piece and no piece contains the separator |
| JsText.JoinSplit | index.js:36 | joining the pieces of a split gives back the string |
| JsText.SplitJoin | index.js:36 | splitting a join of separator-free pieces gives back the pieces |
| JsText.LastIndexOf | index.js:38 | the result is -1 iff the character is absent; otherwise it is a position of the character with none after it |
| JsText.Substring | index.js:38 | between in-range indices, in either order, `substring` is the slice; a negative index counts as 0 and an index past the end as the length, in every combination of one in-range index with one out of range; two non-positive indices, or two indices at or past the end, give `""` |
| JsText.NatToString | index.js:49 | a decimal numeral is non-empty, all digits, with no leading zero |
| JsText.DecimalRoundTrip | index.js:49 | reading the numeral of `n` back gives `n` |
| JsText.LinesOfUnlines | index.js:49 | text built from single-line lines, each followed by a newline, splits back into exactly those lines |
| Stars.AliasInjective | index.js:49-50 | distinct positions get distinct aliases `_i` |
| Stars.AliasMapLookup | index.js:48-51 | after the status loop `aliases[_i] == pkgs[i]` for every `i < n`, and every recorded alias is one of `_0 … _{n-1}` |
| Stars.StatusQueryLines | index.js:48-49 | the status query has exactly `n` lines; line `i` uses alias `_i` with `pkgs[i]`'s owner and repository |
| Stars.Session.BuildStatusQuery | index.js:46-51 | the query is the `n` status lines in package order; `aliases` gains `_i -> pkgs[i]` for every `i`; `notStarred` is unchanged |
| Stars.FirstNull | index.js:56-57 | the position of the first `null` entry in the status answer, whose `viewerHasStarred` is read first |
| Stars.UnstarredPositions | index.js:56-57 | exactly the positions of the non-null entries with `viewerHasStarred == false`, in increasing order |
| Stars.MutationSelectionsSpec | index.js:56-58 | one `addStar` line per unstarred entry, in answer order; the line for position `j` has alias `_j`, that entry's alias as `clientMutationId` and its `id` as `starrableId` |
| Stars.MutationQueryLines | index.js:58 | the mutation has exactly one line per unstarred entry and splits back into those lines |
| Stars.NewlyStarredSpec | index.js:56-59 | the pairs assigned into `notStarred` are exactly the unstarred entries' aliases and answers, in answer order; starred entries add nothing |
| Stars.NothingToStar | index.js:56-63 | nothing is assigned into `notStarred` iff no entry is unstarred |
| Stars.Put | index.js:59 | assigning a new key appends it; assigning an existing key replaces its value in place |
| Stars.PutKeys | index.js:59 | keyed assignment changes the keys of `notStarred` exactly as it changes any object's keys (an existing key stays, a new one is appended), so distinct keys stay distinct |
| Stars.PutAllKeys | index.js:54-61 | however many pairs the loop assigns, distinct keys of `notStarred` stay distinct, so an existing key names one entry |
| Stars.PutAllFresh | index.js:59 | assigning pairs whose keys are distinct and new appends them in order |
| Stars.NewlyStarredKeysDistinct | index.js:56-59 | when the answer's aliases are distinct, the keys assigned into `notStarred` are distinct |
| Stars.Session.BuildStarMutation | index.js:54-61 | the mutation is the `addStar` lines of the answer; `notStarred` gains the unstarred entries in order; a `null` entry throws after the entries before it; `aliases` is unchanged |
| Stars.ReportNames | index.js:70-71 | when every `notStarred` key is in `aliases`, the report is `aliases[alias].name` once per key, in order; otherwise it fails at the first missing key |
| Stars.Session.Report | index.js:63-75 | the outcome is "already starred" iff `notStarred` is empty; otherwise the mutation `mutation{…}` is sent and the report lists the names of `notStarred`'s keys in order |
| Stars.AnswerAliasesDistinct | index.js:49 | an answer carrying the query's aliases has distinct aliases |
| Stars.NotStarredOfAnswer | index.js:56-61 | starting from an empty `notStarred`, an answer carrying the query's aliases leaves exactly its unstarred entries in it, in order |
| Stars.MutationAliasesOfAnswer | index.js:49-58 | for an answer carrying the query's aliases, each mutation line's alias equals its `clientMutationId`: both sides use the same join key |
| Stars.ReportOfAnswer | index.js:48-72 | for an answer carrying the query's aliases, the report names exactly the packages whose repositories are unstarred, in answer order |
| Stars.FreshRunDecision | index.js:54-72 | in a fresh session with a matching answer, `notStarred` is empty, so the run ends "already starred", iff no entry is unstarred; otherwise `k` unstarred entries give `k` recorded pairs, `k` mutation lines and the `k` package names in answer order |
| Stars.Session.constructor | index.js:9-10 | both dictionaries start empty |
| Stars.Session.ThanksDependencies | index.js:44-78 | the whole run: a resolve error ends it with no dictionary changed; otherwise `aliases` gains the status aliases, a missing `data` or a `null` entry ends it with that error, and otherwise the outcome is decided on `notStarred` as in `Report` |

## Left out

- The `got.post` calls to the npms registry and to GitHub's GraphQL endpoint (index.js:19-33, 53, 66) are network I/O. The registry and the status query are function parameters of `ThanksDependencies`. The mutation's response is not used by the source and is not modelled. A network failure of any call is not modelled.
- The `GITHUB_API_TOKEN` check and both `process.exit` calls (index.js:13-17, 77) are process and environment plumbing.
- Reading `package.json` (index.js:7) is file I/O. The two dependency objects are parameters, given by their keys in enumeration order; the version strings do not affect the result. A missing `dependencies` or `devDependencies` object spreads as nothing and corresponds to an empty key list.
- Colours, emoji and `console.log` (index.js:14-15, 64-74) are terminal output. The report is modelled as the sequence of reported package names. When the report fails part-way, the lines already printed are not modelled.
- JavaScript's placement of integer-like keys first in enumeration order is not modelled. All aliases start with `_`, and registry and answer entries are taken as ordered sequences.
- A registry entry whose `repository.url` is present but is not a string is not modelled. A status answer whose `data` is something other than an object or null is not modelled either.
- The dictionaries `aliases` and `notStarred` are modelled as a map and a list of pairs. Neither has the names a plain `{}` inherits from `Object.prototype`. In the source, `aliases["constructor"].name` is `"Object"` rather than a throw, and assigning `notStarred["__proto__"]` changes the prototype rather than adding a key. Neither key arises when the answer carries the query's aliases `_i`.
- The registry body is taken to be an object with entries. A `null` body, on which `Object.entries` throws (index.js:35), is not modelled.
- JsText.Substring: does not model a NaN index. The source only passes integers.
