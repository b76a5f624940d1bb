# podman2deb tag resolver, in Dafny

podman2deb builds a Debian package of Podman together with the tools it
depends on. Before it builds anything, it decides which tag of each
dependency to build. Podman is the anchor. It gets a release tag: the
latest release, or the tag the caller names. That tag's commit time becomes
the reference. Every other repository then gets the best tag whose commit
is at or before the reference. The repository's name picks one of three
selection policies:

- **default**: the parsed versions from highest to lowest, skipping any
  that contains `+`;
- **passt**: the raw tag strings in descending string order, with no
  parsing and no filter;
- **mandown**: four-piece tags are rewritten to `a.b.c+d` before parsing,
  `+` is turned back into `.` afterwards, and the list is scanned in the
  library's own (ascending) order.

If no tag qualifies, a mandatory dependency (`go`, `rust`) raises and an
optional one gets `None`. When a tag is accepted, the repository's `date`
becomes that tag's commit time.

Files:

- `wrappers.dfy` (module `Wrappers`): `Option` stands for Python's `None`;
  `Result` for a raised exception.
- `pystr.dfy` (module `PyStr`): the Python builtins the resolver relies on,
  as functions with their laws:
  - `str.split`, `str.join` and `str.replace` on one-character arguments;
  - Python's `str` ordering;
  - `sorted(..., reverse=True)` and `list.reverse()`.
- `models.dfy` (module `Models`): everything in `dev/models.py`.
  - `RepoName` is a datatype.
  - `Repo` is a class with mutable fields.
  - `Repos` is a datatype of eleven `Repo` references.
  - `Debinfo` holds the one field the resolver writes.
- `resolver.dfy` (module `Resolver`): `get_latest_tag`, `get_closest_tag`
  and lines 34-60 of `get_repos`.
  - Each operation is a method that mirrors the Python loop, proved against
    a specification function.
  - The policy lemmas are stated about those functions.

Collaborators outside the model become parameters:

- `semver(...)` and `SemVer(...).pre` from the version library are a
  `Semver` value (two functions).
  - Where a lemma needs the library's order, it takes that order as a
    relation `below`, plus a precondition that the list is ascending under
    `below`.
- A clone is a `Checkout`:
  - the lines `git tag` prints;
  - a map from each tag to its commit time (what `get_commit_time`
    returns), as an integer instant.
  - A tag missing from the map stands for `git log` failing. The model
    surfaces it as an `UnknownCommit` error.

The code is modelled as written:

- The default filter tests only for `+`, so a pre-release such as
  `1.1.0-rc1` is not excluded (`PreReleaseNotExcluded`).
- The mandown rewrite keeps only the fourth piece.
- The mandown list is never reversed, so that policy picks the LOWEST
  version committed by the reference (`MandownClosestIsLowest`). The default
  policy picks the highest (`DefaultClosestIsHighest`).

## Model

| member | source | states |
|---|---|---|
| Models.NamesAreEleven | dev/models.py:8-19 | `RepoName` has exactly eleven members, each listed once, and no two share a string value |
| Models.FieldPerName | dev/models.py:8-33 | the list of `Repos` field names written out in this model has one entry per `RepoName` member, in the same order, equal to the member's lowercase value (the names themselves are not reflected from the datatype; see "## Left out") |
| Models.Repo.constructor | dev/models.py:49-57 | only `name` and `giturl` must be given; `path`, `tag`, `date` and `download` start as `None` and `prefix` as `""` |
| Models.Repo.WithFields | dev/models.py:49-57 | a `Repo` built with every keyword holds exactly those values; it stands for `Repo(**r)` in the configuration loader (main.py:43), which is outside this model |
| Models.Repos.FieldsDistinct | dev/models.py:21-33 | in a record whose fields hold repositories of their own names, the eleven fields are eleven different objects |
| Models.BuildRepos | dev/podman2deb.py:39 | `Repos(**drs)` succeeds exactly when every name is a key; each field is then the entry of its name, and the record is consistent when the entries carry their keys' names |
| Models.Debinfo.constructor | dev/models.py:35-47 | the package version is the version given |
| PyStr.Split | dev/podman2deb.py:334 | `t.split(".")` has at least one piece and no piece contains the separator |
| PyStr.Join | dev/podman2deb.py:336 | `".".join(...)` of no pieces is empty, and otherwise starts with the first piece; with JoinOfSplit and SplitOfJoin it is the inverse of `split` |
| PyStr.JoinOfSplit | dev/podman2deb.py:334-336 | joining the pieces of a split with the same separator gives back the string |
| PyStr.SplitOfJoin | dev/podman2deb.py:334-336 | splitting a join of separator-free pieces gives back the pieces |
| PyStr.Replace | dev/podman2deb.py:342 | `v.replace("+", ".")` keeps the length, changes exactly the `+` characters, and leaves no `+` |
| PyStr.Reversed | dev/podman2deb.py:301 | `versions.reverse()` yields the same length with element `k` taken from position `n-1-k` |
| PyStr.LexLe | dev/podman2deb.py:321 | Python's `<=` on `str`, which `sorted` uses: a prefix is at most the string, a non-empty string is above the empty one, and a differing first code point decides |
| PyStr.LexLeTotal | dev/podman2deb.py:321 | Python's string order relates any two strings |
| PyStr.LexLeAntisymmetric | dev/podman2deb.py:321 | two strings each at most the other are equal |
| PyStr.LexLeTransitive | dev/podman2deb.py:321 | the string order is transitive |
| PyStr.SortedDescending | dev/podman2deb.py:321 | `sorted(tags, reverse=True)` is a permutation of the tags in descending string order |
| PyStr.DescendingPermutationUnique | dev/podman2deb.py:321 | any two descending permutations of the same tags are equal, so the sort's contract determines it |
| Resolver.ProbeCandidates | dev/podman2deb.py:321-325 | the probing loop (passt's unfiltered one, 321-325, and the shared `+`-filtered one, 348-354) returns exactly the first-match scan `Scan` |
| Resolver.ScanHitIsCommitted | dev/podman2deb.py:348-354 | an accepted tag is an eligible candidate with a commit time at or before the reference, and the time recorded for `repo.date` is its commit time |
| Resolver.ScanHitIsFirstAccepted | dev/podman2deb.py:348-354 | an accepted tag is eligible and committed by the reference, every eligible candidate before it was committed later, and the recorded time is its commit time |
| Resolver.FirstAcceptedIsScanHit | dev/podman2deb.py:348-354 | conversely, the first eligible candidate committed by the reference is what the scan accepts |
| Resolver.ScanMissIff | dev/podman2deb.py:348-360 | the scan falls through exactly when every eligible candidate was committed after the reference |
| Resolver.ScanUnknownIsFirstUnresolved | dev/podman2deb.py:351 | a failing commit-time lookup is reported for the first eligible candidate that cannot be resolved, all eligible ones before it having been too late |
| Resolver.FilterIrrelevantWithoutPlus | dev/podman2deb.py:342-349 | with no `+` in any candidate, the `+` filter changes nothing |
| Resolver.ScanHitIsExtreme | dev/podman2deb.py:348-354 | if the candidates are in an order, the accepted one is above every other eligible candidate committed by the reference |
| Resolver.RewriteTag | dev/podman2deb.py:334-339 | a tag with at most three `.`-pieces is passed through unchanged |
| Resolver.RewriteSplitsAtPlus | dev/podman2deb.py:335-336 | a rewritten tag with more than three pieces splits at its single `+` into the first three pieces joined by `.` and the fourth piece |
| Resolver.RestoreAfterRewrite | dev/podman2deb.py:333-342 | rewriting and then restoring `.` gives a `+`-free tag back when it has at most four pieces, and only its first four pieces otherwise |
| Resolver.RewriteOfJoin | dev/podman2deb.py:334-336 | a tag of more than three dot-free pieces is rewritten to its first three pieces joined by `.`, a `+` and its fourth piece |
| Resolver.MandownFourPieceExample | dev/podman2deb.py:334-336 | `1.2.3.4` is rewritten to `1.2.3+4` |
| Resolver.RestoreAll | dev/podman2deb.py:342 | the list comprehension keeps the length, replaces `+` by `.` in each entry, and leaves no entry with a `+` |
| Resolver.RewriteTags | dev/podman2deb.py:332-339 | the `tmp_tags` loop produces one rewritten tag per tag, in order |
| Resolver.Candidates | dev/podman2deb.py:320-346 | the list each policy probes: for passt the tags in descending string order (a permutation of them); for mandown, entry i is parsed rewritten version i with `+` restored to `.`, so none holds a `+`; otherwise entry k is parsed version `n-1-k`, i.e. the parsed list reversed |
| Resolver.ClosestResult | dev/podman2deb.py:310-360 | what `get_closest_tag` returns or raises: "path not set" exactly when the path is missing; every exception names the repository and is "path not set", "unknown commit" or, only with `trigger_error`, "no closest tag"; a returned tag is a candidate committed at or before the reference |
| Resolver.GetClosestTag | dev/podman2deb.py:310-360 | returns or raises what the policy of the repository's name prescribes; on acceptance `date` is the accepted tag's commit time, otherwise it is unchanged; "no closest tag" is raised only with `trigger_error` |
| Resolver.ClosestAbsentOrRaises | dev/podman2deb.py:326-330 | with the path set and every eligible candidate committed after the reference, the call returns `None` if `trigger_error` is false and raises if it is true; both only then (the same for 356-360) |
| Resolver.DefaultClosestIsFirstMatch | dev/podman2deb.py:344-354 | default policy: the result is `t` exactly when `t` is the first `+`-free entry of the reversed version list committed by the reference |
| Resolver.ReversedScanIsHighest | dev/podman2deb.py:345-354 | for versions ascending by a given order, the filtered scan of the reversed list accepts a `+`-free version that no other `+`-free version committed by the reference is above |
| Resolver.DefaultClosestIsHighest | dev/podman2deb.py:344-354 | default policy with ascending versions: no `+`-free version committed by the reference is higher than the result |
| Resolver.PasstClosestIsGreatestCommitted | dev/podman2deb.py:320-325 | passt policy: the result is `t` exactly when `t` is a raw tag committed by the reference and every greater tag string was committed later |
| Resolver.AcceptedIsGreatest | dev/podman2deb.py:321-325 | the tag that passt's sorted scan accepts is the greatest tag string committed by the reference |
| Resolver.GreatestIsAccepted | dev/podman2deb.py:321-325 | the greatest tag string committed by the reference is accepted in passt's sorted scan |
| Resolver.MandownClosestIsFirstMatch | dev/podman2deb.py:331-354 | mandown policy: the result is `t` exactly when `t` is the first restored version in the library's order committed by the reference; the `+` filter excludes nothing |
| Resolver.MandownClosestIsLowest | dev/podman2deb.py:341-342 | mandown policy with ascending versions: because the list is not reversed, no version committed by the reference is lower than the result |
| Resolver.PreReleaseNotExcluded | dev/podman2deb.py:348-349 | a pre-release committed by the reference wins over an older release under the default policy |
| Resolver.FirstReleaseIsFirst | dev/podman2deb.py:302-306 | the search returns the first entry with an empty pre-release part, and nothing exactly when there is none |
| Resolver.LatestRaisesIffNoRelease | dev/podman2deb.py:300-308 | `get_latest_tag` raises "no latest tag" exactly when the path is set and no parsed version is a release |
| Resolver.LastReleaseIsHighest | dev/podman2deb.py:300-306 | in a list ascending by a given order, a release followed by no other release is above every other release of the list |
| Resolver.FirstReleaseOfReversedIsHighest | dev/podman2deb.py:300-306 | in a list ascending by a given order, the first release of the reversed list is a release of the list and no release of the list is higher |
| Resolver.LatestIsHighestRelease | dev/podman2deb.py:300-306 | with ascending versions, the latest tag is a parsed release and no release is higher |
| Resolver.GetLatestTag | dev/podman2deb.py:291-308 | the loop over the reversed versions returns `LatestTag`: the path assertion, then the first release or the exception |
| Resolver.VersionOf | dev/podman2deb.py:45-47 | the package version is the tag with one leading `v` dropped; an empty tag raises |
| Resolver.AssignClosestTag | dev/podman2deb.py:51 | one dependency line: on success the repository's tag becomes what `get_closest_tag` returned and its date follows the acceptance rule; on an exception neither tag nor date changes, the error names this repository and is "path not set", "unknown commit" or, only with `trigger_error`, "no closest tag" |
| Resolver.AnchorPodman | dev/podman2deb.py:40-50 | Podman's tag is the given tag, or else the latest release; `info.version` is derived from it; Podman's date and the reference are its commit time; each error arises exactly in its case; on any error Podman's date is unchanged, and when choosing the tag fails Podman's tag and `info.version` are unchanged too |
| Resolver.ResolveEarlyDependencies | dev/podman2deb.py:51-55 | `runc`, `conmon`, `passt`, `netavark` and `aardvark_dns` are settled in turn against the reference with `trigger_error=False`; one with no accepted tag keeps its date; an exception names one of these five and is never "no closest tag"; the repository that raised and every one after it keep their tag and date |
| Resolver.ResolveLateDependencies | dev/podman2deb.py:56-60 | `go`, `image`, `slirp4netns`, `rust` and `mandown` are settled in turn, `go` and `rust` with `trigger_error=True`; one with no accepted tag keeps its date; an exception names one of these five, "no closest tag" only for `go` or `rust`; the repository that raised and every one after it keep their tag and date |
| Resolver.ResolveDependencies | dev/podman2deb.py:51-60 | each of the ten dependencies is settled against the reference, only `go` and `rust` with `trigger_error=True`; a dependency with no accepted tag keeps its date; on an exception the repository that raised and every one after it in source order keep their tag and date, and "no closest tag" comes only from `go` or `rust` |
| Resolver.GetRepos | dev/podman2deb.py:40-60 | on success, Podman is anchored as above and every dependency is settled against Podman's commit time; only tag, date and `info.version` change; "no closest tag" can only come from `go` or `rust` |
| Resolver.KeyByName | dev/podman2deb.py:34-36 | the map keyed by `repo.name` holds exactly the names in the list, each mapped to a repository of that name, the last one listed |

## Left out

- The version library (`semver`, `SemVer`) is not part of this model. It is a pair of abstract functions. Its ascending, duplicate-free output is not assumed globally; only the ordering lemmas take it as a precondition (the `below` relation).
- `get_commit_time` (dev/podman2deb.py:277-289) runs `git log` and parses a timezone-aware date. It is a map from tag to an integer instant, so two commit times compare as instants. The path assertion at line 278 is modelled where it is reached: inside `get_closest_tag` by the assertion at line 311 (`ClosestResult` returns `PathNotSet`), and for the call at line 49 in `get_repos` by `AnchorPodman`, which returns `PathNotSet` when Podman has no path.
- The `git tag` call and `splitlines()` are not modelled; a `Checkout`'s `tags` is the resulting list. The `assert(output is not None)` checks and `os.chdir` are not modelled either.
- `set_repo` (dev/podman2deb.py:37) clones or fetches the repository and sets its path; it is not modelled, and `path` is taken as it comes.
- `pprint` before raising, and the JSON dump of lines 62-66, are output only; they are not modelled.
- `Debinfo` keeps only `version`; its other fields are static package metadata that the resolver does not touch.
- `update`, `clean`, `list_tags`, `build_info`, `build`, `generate_md5sums`, dev/install_deps.py, main.py and __init__.py are git, filesystem, network, `dpkg` and CLI glue outside the resolver.
- GetClosestTag: it writes `date` once, after the probe has accepted a tag. The source writes it inside the loop just before returning, which is the same state.
- GetRepos: on an exception it states only which repository a "no closest tag" error came from. It does not repeat what ResolveDependencies states about the records left behind when a dependency raises midway: the failing repository and those after it are untouched.
- FieldPerName: Dafny cannot reflect the names of a datatype's fields, so the lemma compares a written-out list of names with the members' values. The link from a name to its field is `Repos.Get`, together with `BuildRepos`'s clause `r.value.Get(n) == drs[n]`.
- Repo: `name` is typed `RepoName`, but main.py:43 builds each `Repo` from plain strings read from YAML. A configured name outside the enum is not representable here, so the `TypeError` that `Repos(**drs)` (dev/podman2deb.py:39) then raises is not modelled. BuildRepos covers only a missing name.
- Repo: `name` is a constant field, because nothing in the resolver reassigns it.
