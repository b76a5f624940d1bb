/** The tag resolver of dev/podman2deb.py. Podman's tag (the latest release, or
    one given by the caller) fixes a reference commit time; every other
    repository then gets the best tag committed at or before that time, under
    one of three policies chosen by the repository's name. */
module Resolver {
  import opened Wrappers
  import opened PyStr
  import opened Models

  /** The two calls into the version library that the resolver makes, as
      values: `semver(tags, flatten=True, no_duplicates=True, skip_error=True,
      prefix=p)` (the parseable tags, one per version, lowest version first)
      and `SemVer(v, prefix=p).pre` (the pre-release part, "" for a release). */
  datatype Semver = Semver(versions: (seq<string>, string) -> seq<string>,
                           pre: (string, string) -> string)

  /** A local clone: the lines `git tag` prints and, for each tag git can
      resolve, the commit time `git log -1 --format=%aI <tag>` reports. */
  datatype Checkout = Checkout(tags: seq<string>, times: map<string, int>)

  /** The exceptions of the resolver. */
  datatype Error =
    | PathNotSet(repo: RepoName)               // `assert(repo.path is not None)`
    | NoLatestTag(repo: RepoName)              // "No latest tag found at repo ..."
    | NoClosestTag(repo: RepoName, time: int)  // "No closest tag found at repo ... for time ..."
    | UnknownCommit(repo: RepoName, tag: string)  // `git log` cannot resolve the tag
    | EmptyVersion                             // `info.version[0]` on an empty tag

  /** Outcome of probing candidates in order: the first one accepted, with its
      commit time; none accepted; or a probed tag whose commit time is unknown. */
  datatype Probe = Hit(tag: string, time: int) | Miss | Unknown(tag: string)

  // The first-match scan

  /** Whether the scan looks at candidate `v` at all: with the filter on, a
      candidate containing `+` is skipped without a lookup. */
  predicate Eligible(v: string, filtered: bool)
  {
    !filtered || '+' !in v
  }

  /** Probe the candidates in order; accept the first eligible one committed at
      or before `ref`. */
  function Scan(cands: seq<string>, filtered: bool, times: map<string, int>, ref: int): Probe
    decreases |cands|
  {
    if cands == [] then Miss
    else if !Eligible(cands[0], filtered) then Scan(cands[1..], filtered, times, ref)
    else if cands[0] !in times then Unknown(cands[0])
    else if times[cands[0]] <= ref then Hit(cands[0], times[cands[0]])
    else Scan(cands[1..], filtered, times, ref)
  }

  /** Every eligible candidate before position `k` has a commit time, and it is
      later than `ref`. */
  predicate TooLate(cands: seq<string>, filtered: bool, times: map<string, int>, ref: int, k: nat)
    requires k <= |cands|
  {
    forall j :: 0 <= j < k && Eligible(cands[j], filtered) ==> cands[j] in times && times[cands[j]] > ref
  }

  /** Candidate `i` is the first acceptable one in scan order. */
  predicate AcceptedAt(cands: seq<string>, filtered: bool, times: map<string, int>, ref: int, i: nat)
  {
    i < |cands| && Eligible(cands[i], filtered) && cands[i] in times && times[cands[i]] <= ref &&
    TooLate(cands, filtered, times, ref, i)
  }

  lemma TooLateShift(cands: seq<string>, filtered: bool, times: map<string, int>, ref: int, k: nat)
    requires k < |cands|
    ensures TooLate(cands, filtered, times, ref, k + 1) <==>
            (Eligible(cands[0], filtered) ==> cands[0] in times && times[cands[0]] > ref) &&
            TooLate(cands[1..], filtered, times, ref, k)
  {
    if TooLate(cands[1..], filtered, times, ref, k) && (Eligible(cands[0], filtered) ==> cands[0] in times && times[cands[0]] > ref) {
      forall j | 0 < j < k + 1 && Eligible(cands[j], filtered)
        ensures cands[j] in times && times[cands[j]] > ref
      {
        assert cands[1..][j - 1] == cands[j];
      }
    }
  }

  /** A hit is the first acceptable candidate, and its time is that candidate's commit time. */
  lemma {:induction false} ScanHitIsFirstAccepted(cands: seq<string>, filtered: bool, times: map<string, int>, ref: int)
    requires Scan(cands, filtered, times, ref).Hit?
    ensures exists i: nat :: AcceptedAt(cands, filtered, times, ref, i) &&
                             cands[i] == Scan(cands, filtered, times, ref).tag &&
                             times[cands[i]] == Scan(cands, filtered, times, ref).time
    decreases |cands|
  {
    if Eligible(cands[0], filtered) && cands[0] in times && times[cands[0]] <= ref {
      assert AcceptedAt(cands, filtered, times, ref, 0);
    } else {
      ScanHitIsFirstAccepted(cands[1..], filtered, times, ref);
      var i: nat :| AcceptedAt(cands[1..], filtered, times, ref, i) &&
                    cands[1..][i] == Scan(cands, filtered, times, ref).tag &&
                    times[cands[1..][i]] == Scan(cands, filtered, times, ref).time;
      TooLateShift(cands, filtered, times, ref, i);
      assert AcceptedAt(cands, filtered, times, ref, i + 1);
    }
  }

  /** The first acceptable candidate is what the scan returns. */
  lemma {:induction false} FirstAcceptedIsScanHit(cands: seq<string>, filtered: bool, times: map<string, int>, ref: int, i: nat)
    requires AcceptedAt(cands, filtered, times, ref, i)
    ensures Scan(cands, filtered, times, ref) == Hit(cands[i], times[cands[i]])
    decreases |cands|
  {
    if i > 0 {
      TooLateShift(cands, filtered, times, ref, i - 1);
      assert cands[1..][i - 1] == cands[i];
      FirstAcceptedIsScanHit(cands[1..], filtered, times, ref, i - 1);
    }
  }

  /** The scan finds nothing exactly when every eligible candidate was committed after `ref`. */
  lemma {:induction false} ScanMissIff(cands: seq<string>, filtered: bool, times: map<string, int>, ref: int)
    ensures Scan(cands, filtered, times, ref) == Miss <==> TooLate(cands, filtered, times, ref, |cands|)
    decreases |cands|
  {
    if cands != [] {
      ScanMissIff(cands[1..], filtered, times, ref);
      TooLateShift(cands, filtered, times, ref, |cands| - 1);
    }
  }

  /** An unknown commit is reported for the first eligible candidate git cannot
      resolve, all eligible ones before it having been too late. */
  lemma {:induction false} ScanUnknownIsFirstUnresolved(cands: seq<string>, filtered: bool, times: map<string, int>, ref: int)
    requires Scan(cands, filtered, times, ref).Unknown?
    ensures exists i: nat :: i < |cands| && cands[i] == Scan(cands, filtered, times, ref).tag &&
                             Eligible(cands[i], filtered) && cands[i] !in times &&
                             TooLate(cands, filtered, times, ref, i)
    decreases |cands|
  {
    if !(Eligible(cands[0], filtered) && cands[0] !in times) {
      ScanUnknownIsFirstUnresolved(cands[1..], filtered, times, ref);
      var i: nat :| i < |cands[1..]| && cands[1..][i] == Scan(cands, filtered, times, ref).tag &&
                    Eligible(cands[1..][i], filtered) && cands[1..][i] !in times &&
                    TooLate(cands[1..], filtered, times, ref, i);
      TooLateShift(cands, filtered, times, ref, i);
    } else {
      assert TooLate(cands, filtered, times, ref, 0);
    }
  }

  /** When no candidate holds a `+`, the filter changes nothing. */
  lemma {:induction false} FilterIrrelevantWithoutPlus(cands: seq<string>, times: map<string, int>, ref: int)
    requires forall k :: 0 <= k < |cands| ==> '+' !in cands[k]
    ensures Scan(cands, true, times, ref) == Scan(cands, false, times, ref)
    decreases |cands|
  {
    if cands != [] {
      FilterIrrelevantWithoutPlus(cands[1..], times, ref);
    }
  }

  /** If the candidates come in an order `above`, the hit is above every other
      eligible candidate committed by `ref`. */
  lemma ScanHitIsExtreme(cands: seq<string>, filtered: bool, times: map<string, int>, ref: int,
                         above: (string, string) -> bool)
    requires forall i, j :: 0 <= i < j < |cands| ==> above(cands[i], cands[j])
    requires Scan(cands, filtered, times, ref).Hit?
    ensures forall k :: 0 <= k < |cands| && Eligible(cands[k], filtered) && cands[k] in times &&
                        times[cands[k]] <= ref ==>
                        cands[k] == Scan(cands, filtered, times, ref).tag ||
                        above(Scan(cands, filtered, times, ref).tag, cands[k])
  {
    ScanHitIsFirstAccepted(cands, filtered, times, ref);
    var i: nat :| AcceptedAt(cands, filtered, times, ref, i) && cands[i] == Scan(cands, filtered, times, ref).tag &&
                  times[cands[i]] == Scan(cands, filtered, times, ref).time;
    assert TooLate(cands, filtered, times, ref, i);
  }

  /** The probing loop shared by every policy: `for v in versions`, skip a
      filtered-out candidate, look up its commit time, return the first at or
      before the reference. */
  method ProbeCandidates(cands: seq<string>, filtered: bool, times: map<string, int>, ref: int)
    returns (p: Probe)
    ensures p == Scan(cands, filtered, times, ref)
  {
    for i := 0 to |cands|
      invariant Scan(cands[i..], filtered, times, ref) == Scan(cands, filtered, times, ref)
    {
      var v := cands[i];
      assert cands[i..][1..] == cands[i + 1..];
      if Eligible(v, filtered) {
        if v !in times {
          return Unknown(v);
        }
        var tmpTime := times[v];
        if tmpTime <= ref {
          return Hit(v, tmpTime);
        }
      }
    }
    assert cands[|cands|..] == [];
    return Miss;
  }

  // The mandown rewrite

  /** One mandown tag before parsing: a tag of more than three `.`-pieces becomes
      the first three joined by `.`, a `+` and the fourth piece; pieces after the
      fourth are dropped. */
  function RewriteTag(t: string): (r: string)
    ensures |Split(t, '.')| <= 3 ==> r == t
  {
    var elems := Split(t, '.');
    if |elems| > 3 then Join(elems[..3], '.') + "+" + elems[3] else t
  }

  function RewriteAll(tags: seq<string>): seq<string>
  {
    seq(|tags|, i requires 0 <= i < |tags| => RewriteTag(tags[i]))
  }

  /** The list comprehension that turns every `+` back into `.`. */
  function RestoreAll(versions: seq<string>): (r: seq<string>)
    ensures |r| == |versions|
    ensures forall i :: 0 <= i < |versions| ==> r[i] == Replace(versions[i], '+', '.')
    ensures forall i :: 0 <= i < |r| ==> '+' !in r[i]
  {
    seq(|versions|, i requires 0 <= i < |versions| => Replace(versions[i], '+', '.'))
  }

  /** A rewritten four-or-more-piece tag splits at its one `+` into the first
      three pieces (joined by `.`) and the fourth. */
  lemma RewriteSplitsAtPlus(t: string)
    requires '+' !in t && |Split(t, '.')| > 3
    ensures Split(RewriteTag(t), '+') == [Join(Split(t, '.')[..3], '.'), Split(t, '.')[3]]
    ensures Split(Join(Split(t, '.')[..3], '.'), '.') == Split(t, '.')[..3]
  {
    var p := Split(t, '.');
    var head := Join(p[..3], '.');
    var last := p[3];
    assert RewriteTag(t) == head + "+" + last;
    SplitAvoids(t, '.', '+');
    assert '+' !in last;
    JoinAvoids(p[..3], '.', '+');
    SplitOneSeparator(head, last, '+');
    SplitOfJoin(p[..3], '.');
  }

  /** Rewriting a `+`-free tag and then turning `+` back into `.` gives the tag
      itself when it has at most four pieces, and its first four pieces
      otherwise. */
  lemma RestoreAfterRewrite(t: string)
    requires '+' !in t
    ensures Replace(RewriteTag(t), '+', '.') ==
            if |Split(t, '.')| > 4 then Join(Split(t, '.')[..4], '.') else t
  {
    var p := Split(t, '.');
    if |p| <= 3 {
      ReplaceAbsent(t, '+', '.');
    } else {
      RestoreFourPieces(t, p);
      if |p| == 4 {
        assert p[..4] == p;
        JoinOfSplit(t, '.');
      }
    }
  }

  lemma RestoreFourPieces(t: string, p: seq<string>)
    requires '+' !in t && p == Split(t, '.') && |p| > 3
    ensures Replace(RewriteTag(t), '+', '.') == Join(p[..4], '.')
  {
    RewriteTagPieces(t);
    SplitAvoids(t, '.', '+');
    RestorePlusAfterJoin(p);
  }

  /** The rewrite of a tag of more than three pieces, in terms of its pieces. */
  lemma RewriteTagPieces(t: string)
    requires |Split(t, '.')| > 3
    ensures RewriteTag(t) == Join(Split(t, '.')[..3], '.') + "+" + Split(t, '.')[3]
  {
  }

  /** For `+`-free pieces, turning the `+` after the first three joined pieces
      into `.` joins the first four. */
  lemma RestorePlusAfterJoin(p: seq<string>)
    requires |p| > 3
    requires forall k :: 0 <= k < |p| ==> '+' !in p[k]
    ensures Replace(Join(p[..3], '.') + "+" + p[3], '+', '.') == Join(p[..4], '.')
  {
    var head := p[..3];
    assert forall k :: 0 <= k < |head| ==> '+' !in head[k];
    JoinAvoids(head, '.', '+');
    ReplaceOneSeparator(Join(head, '.'), p[3]);
    JoinAppend(head, p[3], '.');
    assert head + [p[3]] == p[..4];
  }

  /** The loop that builds `tmp_tags`, one rewritten tag appended per tag. */
  method RewriteTags(tags: seq<string>) returns (tmpTags: seq<string>)
    ensures |tmpTags| == |tags|
    ensures forall i :: 0 <= i < |tags| ==> tmpTags[i] == RewriteTag(tags[i])
  {
    tmpTags := [];
    for i := 0 to |tags|
      invariant |tmpTags| == i
      invariant forall k :: 0 <= k < i ==> tmpTags[k] == RewriteTag(tags[k])
    {
      tmpTags := tmpTags + [RewriteTag(tags[i])];
    }
  }

  // get_closest_tag

  /** The candidates in scan order: passt's raw tags greatest string first;
      mandown's rewritten, parsed and restored versions in the library's order
      (lowest first, never reversed); everyone else's parsed versions highest
      first. */
  function Candidates(name: RepoName, prefix: string, tags: seq<string>, lib: Semver): (r: seq<string>)
    ensures name == Passt ==> multiset(r) == multiset(tags) && Descending(r)
    ensures name == Mandown ==>
              |r| == |lib.versions(RewriteAll(tags), prefix)| && forall i :: 0 <= i < |r| ==> '+' !in r[i]
    ensures name == Mandown ==>
              forall i :: 0 <= i < |r| ==> r[i] == Replace(lib.versions(RewriteAll(tags), prefix)[i], '+', '.')
    ensures name != Passt && name != Mandown ==>
              |r| == |lib.versions(tags, prefix)| && forall v :: v in r <==> v in lib.versions(tags, prefix)
    ensures name != Passt && name != Mandown ==>
              forall k :: 0 <= k < |r| ==> r[k] == lib.versions(tags, prefix)[|r| - 1 - k]
  {
    ReversedSameElements(lib.versions(tags, prefix));
    if name == Passt then SortedDescending(tags)
    else if name == Mandown then RestoreAll(lib.versions(RewriteAll(tags), prefix))
    else Reversed(lib.versions(tags, prefix))
  }

  /** Only passt's scan has no `+` filter. */
  function ClosestProbe(name: RepoName, prefix: string, co: Checkout, lib: Semver, ref: int): Probe
  {
    Scan(Candidates(name, prefix, co.tags, lib), name != Passt, co.times, ref)
  }

  /** What `get_closest_tag` returns or raises. */
  function ClosestResult(name: RepoName, path: Option<string>, prefix: string, co: Checkout,
                         lib: Semver, ref: int, triggerError: bool): (r: Result<Option<string>, Error>)
    ensures r == Err(PathNotSet(name)) <==> path.None?
    ensures r.Err? ==> (r.error.PathNotSet? || r.error.UnknownCommit? || r.error.NoClosestTag?) && r.error.repo == name
    ensures r.Err? && r.error.NoClosestTag? ==> triggerError
    ensures r.Ok? && r.value.Some? ==>
              var t := r.value.value;
              t in Candidates(name, prefix, co.tags, lib) && t in co.times && co.times[t] <= ref
  {
    if path.None? then Err(PathNotSet(name))
    else
      match ClosestProbe(name, prefix, co, lib, ref)
      case Hit(t, _) =>
        ScanHitIsCommitted(Candidates(name, prefix, co.tags, lib), name != Passt, co.times, ref);
        Ok(Some(t))
      case Unknown(t) => Err(UnknownCommit(name, t))
      case Miss => if triggerError then Err(NoClosestTag(name, ref)) else Ok(None)
  }

  /** An accepted tag is an eligible candidate committed by the reference, and
      its recorded time is its commit time. */
  lemma {:induction false} ScanHitIsCommitted(cands: seq<string>, filtered: bool, times: map<string, int>, ref: int)
    requires Scan(cands, filtered, times, ref).Hit?
    ensures Scan(cands, filtered, times, ref).tag in cands
    ensures Eligible(Scan(cands, filtered, times, ref).tag, filtered)
    ensures Scan(cands, filtered, times, ref).tag in times
    ensures Scan(cands, filtered, times, ref).time == times[Scan(cands, filtered, times, ref).tag]
    ensures times[Scan(cands, filtered, times, ref).tag] <= ref
    decreases |cands|
  {
    if Eligible(cands[0], filtered) && cands[0] in times && times[cands[0]] <= ref {
    } else {
      ScanHitIsCommitted(cands[1..], filtered, times, ref);
    }
  }

  /** `get_closest_tag(repo, commit_time, trigger_error)`. On acceptance `repo.date`
      becomes the accepted tag's commit time; otherwise it is left as it was. */
  method GetClosestTag(repo: Repo, co: Checkout, lib: Semver, commitTime: int, triggerError: bool)
    returns (r: Result<Option<string>, Error>)
    modifies repo`date
    ensures r == ClosestResult(repo.name, repo.path, repo.prefix, co, lib, commitTime, triggerError)
    ensures r.Ok? && r.value.Some? ==>
            r.value.value in co.times && repo.date == Some(co.times[r.value.value])
    ensures !(r.Ok? && r.value.Some?) ==> repo.date == old(repo.date)
    ensures r.Err? && r.error.NoClosestTag? ==> triggerError && r.error.repo == repo.name
  {
    if repo.path.None? {
      return Err(PathNotSet(repo.name));
    }
    var p: Probe;
    if repo.name == Passt {
      p := ProbeCandidates(SortedDescending(co.tags), false, co.times, commitTime);
      assert Candidates(repo.name, repo.prefix, co.tags, lib) == SortedDescending(co.tags);
    } else {
      var versions: seq<string>;
      if repo.name == Mandown {
        var tmpTags := RewriteTags(co.tags);
        assert tmpTags == RewriteAll(co.tags);
        versions := lib.versions(tmpTags, repo.prefix);
        versions := RestoreAll(versions);
      } else {
        versions := lib.versions(co.tags, repo.prefix);
        versions := Reversed(versions);
      }
      p := ProbeCandidates(versions, true, co.times, commitTime);
    }
    assert p == ClosestProbe(repo.name, repo.prefix, co, lib, commitTime);
    match p
    case Hit(t, tmpTime) =>
      ScanHitIsCommitted(Candidates(repo.name, repo.prefix, co.tags, lib), repo.name != Passt, co.times, commitTime);
      repo.date := Some(tmpTime);
      r := Ok(Some(t));
    case Unknown(t) =>
      r := Err(UnknownCommit(repo.name, t));
    case Miss =>
      if triggerError {
        r := Err(NoClosestTag(repo.name, commitTime));
      } else {
        r := Ok(None);
      }
  }

  /** With no candidate qualifying (every eligible one committed after the
      reference), the call returns `None` for an optional dependency and raises
      for a mandatory one; and only then. */
  lemma {:induction false} ClosestAbsentOrRaises(name: RepoName, path: Option<string>, prefix: string,
                                                 co: Checkout, lib: Semver, ref: int, triggerError: bool)
    ensures var cands := Candidates(name, prefix, co.tags, lib);
            var none := path.Some? && TooLate(cands, name != Passt, co.times, ref, |cands|);
            (ClosestResult(name, path, prefix, co, lib, ref, triggerError) == Ok(None) <==> none && !triggerError) &&
            (ClosestResult(name, path, prefix, co, lib, ref, triggerError) == Err(NoClosestTag(name, ref)) <==> none && triggerError)
  {
    ScanMissIff(Candidates(name, prefix, co.tags, lib), name != Passt, co.times, ref);
  }

  /** Default policy: the result is the first `+`-free entry of the reversed
      version list whose commit time is at or before the reference; every
      `+`-free entry before it was committed later. Pre-release entries are not
      skipped. */
  lemma {:induction false} DefaultClosestIsFirstMatch(name: RepoName, path: Option<string>, prefix: string,
                                                      co: Checkout, lib: Semver, ref: int, triggerError: bool, t: string)
    requires name != Passt && name != Mandown
    ensures ClosestResult(name, path, prefix, co, lib, ref, triggerError) == Ok(Some(t)) ==>
            path.Some? && exists i: nat :: AcceptedAt(Reversed(lib.versions(co.tags, prefix)), true, co.times, ref, i) &&
                                           Reversed(lib.versions(co.tags, prefix))[i] == t
    ensures (path.Some? && exists i: nat :: AcceptedAt(Reversed(lib.versions(co.tags, prefix)), true, co.times, ref, i) &&
                                           Reversed(lib.versions(co.tags, prefix))[i] == t) ==>
            ClosestResult(name, path, prefix, co, lib, ref, triggerError) == Ok(Some(t))
  {
    var cands := Reversed(lib.versions(co.tags, prefix));
    assert Candidates(name, prefix, co.tags, lib) == cands;
    assert ClosestProbe(name, prefix, co, lib, ref) == Scan(cands, true, co.times, ref);
    if ClosestResult(name, path, prefix, co, lib, ref, triggerError) == Ok(Some(t)) {
      assert Scan(cands, true, co.times, ref).Hit? && Scan(cands, true, co.times, ref).tag == t;
      ScanHitIsFirstAccepted(cands, true, co.times, ref);
      var i: nat :| AcceptedAt(cands, true, co.times, ref, i) && cands[i] == t;
    }
    if path.Some? && exists i: nat :: AcceptedAt(cands, true, co.times, ref, i) && cands[i] == t {
      var i: nat :| AcceptedAt(cands, true, co.times, ref, i) && cands[i] == t;
      FirstAcceptedIsScanHit(cands, true, co.times, ref, i);
      assert ClosestProbe(name, prefix, co, lib, ref) == Hit(t, co.times[t]);
    }
  }

  /** Default policy, given that the library lists versions in ascending order
      `below`: the result is the highest `+`-free version committed by the
      reference time. */
  lemma DefaultClosestIsHighest(name: RepoName, path: Option<string>, prefix: string, co: Checkout,
                                lib: Semver, ref: int, triggerError: bool, t: string,
                                below: (string, string) -> bool)
    requires name != Passt && name != Mandown
    requires forall i, j :: 0 <= i < j < |lib.versions(co.tags, prefix)| ==>
               below(lib.versions(co.tags, prefix)[i], lib.versions(co.tags, prefix)[j])
    requires ClosestResult(name, path, prefix, co, lib, ref, triggerError) == Ok(Some(t))
    ensures forall v :: (v in lib.versions(co.tags, prefix) && '+' !in v && v in co.times &&
                         co.times[v] <= ref) ==> v == t || below(v, t)
  {
    var vs := lib.versions(co.tags, prefix);
    assert Candidates(name, prefix, co.tags, lib) == Reversed(vs);
    assert Scan(Reversed(vs), true, co.times, ref).tag == t;
    ReversedScanIsHighest(vs, co.times, ref, below);
  }

  /** For a list ascending by `below`, the filtered scan of the reversed list
      accepts the highest `+`-free entry committed by the reference. */
  lemma ReversedScanIsHighest(vs: seq<string>, times: map<string, int>, ref: int, below: (string, string) -> bool)
    requires forall i, j :: 0 <= i < j < |vs| ==> below(vs[i], vs[j])
    requires Scan(Reversed(vs), true, times, ref).Hit?
    ensures forall v :: (v in vs && '+' !in v && v in times && times[v] <= ref) ==>
              v == Scan(Reversed(vs), true, times, ref).tag || below(v, Scan(Reversed(vs), true, times, ref).tag)
  {
    var cands := Reversed(vs);
    var above := (a: string, b: string) => below(b, a);
    forall i, j | 0 <= i < j < |cands| ensures above(cands[i], cands[j]) {
      assert cands[i] == vs[|vs| - 1 - i] && cands[j] == vs[|vs| - 1 - j];
    }
    ScanHitIsExtreme(cands, true, times, ref, above);
    forall v | v in vs && '+' !in v && v in times && times[v] <= ref
      ensures v == Scan(cands, true, times, ref).tag || below(v, Scan(cands, true, times, ref).tag)
    {
      var m :| 0 <= m < |vs| && vs[m] == v;
      assert cands[|vs| - 1 - m] == v;
    }
  }

  /** passt policy: the result is a raw tag committed at or before the
      reference, and every tag greater than it as a string was committed later
      (no version parsing, no `+` filter). */
  lemma PasstClosestIsGreatestCommitted(path: Option<string>, prefix: string, co: Checkout, lib: Semver,
                                        ref: int, triggerError: bool, t: string)
    ensures ClosestResult(Passt, path, prefix, co, lib, ref, triggerError) == Ok(Some(t)) <==>
            path.Some? && GreatestCommitted(co, ref, t)
  {
    var cands := SortedDescending(co.tags);
    assert Candidates(Passt, prefix, co.tags, lib) == cands;
    if ClosestResult(Passt, path, prefix, co, lib, ref, triggerError) == Ok(Some(t)) {
      ScanHitIsFirstAccepted(cands, false, co.times, ref);
      var i: nat :| AcceptedAt(cands, false, co.times, ref, i) && cands[i] == t;
      AcceptedIsGreatest(co, ref, cands, i);
    }
    if path.Some? && GreatestCommitted(co, ref, t) {
      var i := GreatestIsAccepted(co, ref, cands, t);
      FirstAcceptedIsScanHit(cands, false, co.times, ref, i);
      assert ClosestProbe(Passt, prefix, co, lib, ref) == Hit(t, co.times[t]);
    }
  }

  /** Tag `t` was committed by `ref`, and every tag greater than it as a string was committed later. */
  predicate GreatestCommitted(co: Checkout, ref: int, t: string)
  {
    t in co.tags && t in co.times && co.times[t] <= ref &&
    forall u :: u in co.tags && u != t && LexLe(t, u) ==> u in co.times && co.times[u] > ref
  }

  lemma AcceptedIsGreatest(co: Checkout, ref: int, cands: seq<string>, i: nat)
    requires cands == SortedDescending(co.tags)
    requires AcceptedAt(cands, false, co.times, ref, i)
    ensures GreatestCommitted(co, ref, cands[i])
  {
    var t := cands[i];
    assert t in multiset(cands);
    forall u | u in co.tags && u != t && LexLe(t, u) ensures u in co.times && co.times[u] > ref {
      assert u in multiset(cands);
      var j :| 0 <= j < |cands| && cands[j] == u;
      if j > i {
        LexLeAntisymmetric(t, u);
      }
      assert j < i;
    }
  }

  lemma GreatestIsAccepted(co: Checkout, ref: int, cands: seq<string>, t: string) returns (i: nat)
    requires cands == SortedDescending(co.tags)
    requires GreatestCommitted(co, ref, t)
    ensures AcceptedAt(cands, false, co.times, ref, i) && cands[i] == t
  {
    assert t in multiset(cands);
    i := Index(cands, t);
    forall j | 0 <= j < i ensures cands[j] in co.times && co.times[cands[j]] > ref {
      assert cands[j] in multiset(co.tags);
      assert LexLe(cands[i], cands[j]);
    }
  }

  /** mandown policy: the restored versions never hold a `+`, so the filter
      excludes nothing, and the result is the first one in the library's own
      order (not reversed) committed at or before the reference. */
  lemma {:induction false} MandownClosestIsFirstMatch(path: Option<string>, prefix: string, co: Checkout,
                                                      lib: Semver, ref: int, triggerError: bool, t: string)
    ensures var cands := RestoreAll(lib.versions(RewriteAll(co.tags), prefix));
            ClosestResult(Mandown, path, prefix, co, lib, ref, triggerError) == Ok(Some(t)) <==>
            path.Some? && exists i: nat :: AcceptedAt(cands, false, co.times, ref, i) && cands[i] == t
  {
    var cands := RestoreAll(lib.versions(RewriteAll(co.tags), prefix));
    assert Candidates(Mandown, prefix, co.tags, lib) == cands;
    FilterIrrelevantWithoutPlus(cands, co.times, ref);
    if ClosestResult(Mandown, path, prefix, co, lib, ref, triggerError) == Ok(Some(t)) {
      ScanHitIsFirstAccepted(cands, false, co.times, ref);
    }
    if path.Some? && exists i: nat :: AcceptedAt(cands, false, co.times, ref, i) && cands[i] == t {
      var i: nat :| AcceptedAt(cands, false, co.times, ref, i) && cands[i] == t;
      FirstAcceptedIsScanHit(cands, false, co.times, ref, i);
    }
  }

  /** mandown policy, given versions in ascending order `below`: because the
      list is not reversed, the result is the LOWEST version committed by the
      reference time. */
  lemma MandownClosestIsLowest(path: Option<string>, prefix: string, co: Checkout, lib: Semver,
                               ref: int, triggerError: bool, t: string, below: (string, string) -> bool)
    requires forall i, j :: 0 <= i < j < |RestoreAll(lib.versions(RewriteAll(co.tags), prefix))| ==>
               below(RestoreAll(lib.versions(RewriteAll(co.tags), prefix))[i],
                     RestoreAll(lib.versions(RewriteAll(co.tags), prefix))[j])
    requires ClosestResult(Mandown, path, prefix, co, lib, ref, triggerError) == Ok(Some(t))
    ensures forall v :: (v in RestoreAll(lib.versions(RewriteAll(co.tags), prefix)) && v in co.times &&
                         co.times[v] <= ref) ==> v == t || below(t, v)
  {
    var cands := RestoreAll(lib.versions(RewriteAll(co.tags), prefix));
    assert Candidates(Mandown, prefix, co.tags, lib) == cands;
    ScanHitIsExtreme(cands, true, co.times, ref, below);
  }

  /** The `+` filter is all the default policy applies: a pre-release such as
      `1.1.0-rc1` committed by the reference wins over an older release. */
  lemma PreReleaseNotExcluded()
    ensures var lib := Semver((tags: seq<string>, p: string) => ["1.0.0", "1.1.0-rc1"], (v: string, p: string) => "");
            var co := Checkout(["1.0.0", "1.1.0-rc1"], map["1.0.0" := 10, "1.1.0-rc1" := 20]);
            ClosestResult(Runc, Some("runc"), "", co, lib, 30, false) == Ok(Some("1.1.0-rc1"))
  {
    var vs: seq<string> := ["1.0.0", "1.1.0-rc1"];
    assert Reversed(vs) == ["1.1.0-rc1", "1.0.0"];
  }

  /** A tag made of more than three dot-free pieces is rewritten to its first
      three pieces, a `+` and its fourth piece. */
  lemma RewriteOfJoin(p: seq<string>)
    requires |p| > 3
    requires forall k :: 0 <= k < |p| ==> '.' !in p[k]
    ensures RewriteTag(Join(p, '.')) == Join(p[..3], '.') + "+" + p[3]
  {
    SplitOfJoin(p, '.');
  }

  /** A four-piece mandown tag becomes `a.b.c+d`. */
  lemma MandownFourPieceExample()
    ensures RewriteTag("1.2.3.4") == "1.2.3+4"
  {
    var four: seq<string> := ["1", "2", "3", "4"];
    assert Join(four[3..], '.') == "4";
    assert Join(four[2..], '.') == "3.4";
    assert Join(four[1..], '.') == "2.3.4";
    assert Join(four, '.') == "1.2.3.4";
    var three := four[..3];
    assert three == ["1", "2", "3"];
    assert Join(three[2..], '.') == "3";
    assert Join(three[1..], '.') == "2.3";
    assert Join(three, '.') == "1.2.3";
    RewriteOfJoin(four);
  }

  // get_latest_tag

  predicate IsRelease(v: string, prefix: string, lib: Semver)
  {
    lib.pre(v, prefix) == ""
  }

  /** The first release (empty pre-release part) in a list. */
  function FirstRelease(versions: seq<string>, prefix: string, lib: Semver): Option<string>
    decreases |versions|
  {
    if versions == [] then None
    else if IsRelease(versions[0], prefix, lib) then Some(versions[0])
    else FirstRelease(versions[1..], prefix, lib)
  }

  /** What `get_latest_tag` returns or raises. */
  function LatestTag(name: RepoName, path: Option<string>, prefix: string, co: Checkout, lib: Semver)
    : Result<string, Error>
  {
    if path.None? then Err(PathNotSet(name))
    else
      match FirstRelease(Reversed(lib.versions(co.tags, prefix)), prefix, lib)
      case Some(t) => Ok(t)
      case None => Err(NoLatestTag(name))
  }

  /** `FirstRelease` returns the first release in the list, and nothing exactly
      when the list holds no release. */
  lemma {:induction false} FirstReleaseIsFirst(versions: seq<string>, prefix: string, lib: Semver)
    ensures FirstRelease(versions, prefix, lib).None? <==>
            forall j :: 0 <= j < |versions| ==> !IsRelease(versions[j], prefix, lib)
    ensures FirstRelease(versions, prefix, lib).Some? ==>
            exists i :: 0 <= i < |versions| && versions[i] == FirstRelease(versions, prefix, lib).value &&
                        IsRelease(versions[i], prefix, lib) &&
                        forall j :: 0 <= j < i ==> !IsRelease(versions[j], prefix, lib)
    decreases |versions|
  {
    if versions != [] && !IsRelease(versions[0], prefix, lib) {
      FirstReleaseIsFirst(versions[1..], prefix, lib);
      if FirstRelease(versions, prefix, lib).Some? {
        var i :| 0 <= i < |versions[1..]| && versions[1..][i] == FirstRelease(versions, prefix, lib).value &&
                 IsRelease(versions[1..][i], prefix, lib) &&
                 forall j :: 0 <= j < i ==> !IsRelease(versions[1..][j], prefix, lib);
        assert versions[i + 1] == versions[1..][i];
        forall j | 0 <= j < i + 1 ensures !IsRelease(versions[j], prefix, lib) {
          if j > 0 { assert versions[j] == versions[1..][j - 1]; }
        }
      } else {
        forall j | 0 <= j < |versions| ensures !IsRelease(versions[j], prefix, lib) {
          if j > 0 { assert versions[j] == versions[1..][j - 1]; }
        }
      }
    }
  }

  /** `get_latest_tag` raises "no latest tag" exactly when the path is set and
      no parsed version is a release. */
  lemma LatestRaisesIffNoRelease(name: RepoName, path: Option<string>, prefix: string, co: Checkout, lib: Semver)
    ensures LatestTag(name, path, prefix, co, lib) == Err(NoLatestTag(name)) ==>
            path.Some? && forall v :: v in lib.versions(co.tags, prefix) ==> !IsRelease(v, prefix, lib)
    ensures (path.Some? && forall v :: v in lib.versions(co.tags, prefix) ==> !IsRelease(v, prefix, lib)) ==>
            LatestTag(name, path, prefix, co, lib) == Err(NoLatestTag(name))
  {
    var vs := lib.versions(co.tags, prefix);
    var rs := Reversed(vs);
    FirstReleaseIsFirst(rs, prefix, lib);
    ReversedSameElements(vs);
    if path.Some? && FirstRelease(rs, prefix, lib).None? {
      forall v | v in vs ensures !IsRelease(v, prefix, lib) {
        var m :| 0 <= m < |rs| && rs[m] == v;
      }
    }
  }

  /** In a list ascending by `below`, a release with no release after it is
      above every other release. */
  lemma LastReleaseIsHighest(vs: seq<string>, n: nat, prefix: string, lib: Semver,
                             below: (string, string) -> bool)
    requires n < |vs|
    requires forall i, j :: 0 <= i < j < |vs| ==> below(vs[i], vs[j])
    requires forall m :: n < m < |vs| ==> !IsRelease(vs[m], prefix, lib)
    ensures forall v :: v in vs && IsRelease(v, prefix, lib) ==> v == vs[n] || below(v, vs[n])
  {
    forall v | v in vs && IsRelease(v, prefix, lib) ensures v == vs[n] || below(v, vs[n]) {
      var m :| 0 <= m < |vs| && vs[m] == v;
      if m < n {
        assert below(vs[m], vs[n]);
      }
    }
  }

  /** The position of the first release, when there is one. */
  lemma FirstReleaseIndex(versions: seq<string>, prefix: string, lib: Semver) returns (i: nat)
    requires FirstRelease(versions, prefix, lib).Some?
    ensures i < |versions| && versions[i] == FirstRelease(versions, prefix, lib).value
    ensures IsRelease(versions[i], prefix, lib)
    ensures forall j :: 0 <= j < i ==> !IsRelease(versions[j], prefix, lib)
  {
    FirstReleaseIsFirst(versions, prefix, lib);
    i :| 0 <= i < |versions| && versions[i] == FirstRelease(versions, prefix, lib).value &&
         IsRelease(versions[i], prefix, lib) &&
         forall j :: 0 <= j < i ==> !IsRelease(versions[j], prefix, lib);
  }

  /** No release among the first `i` entries of the reversed list means none
      among the last `i` entries of the list. */
  lemma NoReleaseAfter(vs: seq<string>, i: nat, prefix: string, lib: Semver)
    requires i < |vs|
    requires forall j :: 0 <= j < i ==> !IsRelease(Reversed(vs)[j], prefix, lib)
    ensures forall m :: |vs| - 1 - i < m < |vs| ==> !IsRelease(vs[m], prefix, lib)
  {
    var rs := Reversed(vs);
    forall m | |vs| - 1 - i < m < |vs| ensures !IsRelease(vs[m], prefix, lib) {
      assert vs[m] == rs[|vs| - 1 - m];
    }
  }

  /** In a list ascending by `below`, the first release of the reversed list is
      the highest release of the list. */
  lemma FirstReleaseOfReversedIsHighest(vs: seq<string>, prefix: string, lib: Semver,
                                        below: (string, string) -> bool)
    requires forall i, j :: 0 <= i < j < |vs| ==> below(vs[i], vs[j])
    requires FirstRelease(Reversed(vs), prefix, lib).Some?
    ensures FirstRelease(Reversed(vs), prefix, lib).value in vs
    ensures IsRelease(FirstRelease(Reversed(vs), prefix, lib).value, prefix, lib)
    ensures forall v :: v in vs && IsRelease(v, prefix, lib) ==>
              v == FirstRelease(Reversed(vs), prefix, lib).value || below(v, FirstRelease(Reversed(vs), prefix, lib).value)
  {
    var i := FirstReleaseIndex(Reversed(vs), prefix, lib);
    NoReleaseAfter(vs, i, prefix, lib);
    var n := |vs| - 1 - i;
    assert vs[n] == Reversed(vs)[i];
    LastReleaseIsHighest(vs, n, prefix, lib, below);
  }

  /** Given versions in ascending order `below`, the latest tag is the highest
      release among them. */
  lemma LatestIsHighestRelease(name: RepoName, path: Option<string>, prefix: string, co: Checkout, lib: Semver,
                               below: (string, string) -> bool)
    requires forall i, j :: 0 <= i < j < |lib.versions(co.tags, prefix)| ==>
               below(lib.versions(co.tags, prefix)[i], lib.versions(co.tags, prefix)[j])
    requires LatestTag(name, path, prefix, co, lib).Ok?
    ensures LatestTag(name, path, prefix, co, lib).value in lib.versions(co.tags, prefix)
    ensures IsRelease(LatestTag(name, path, prefix, co, lib).value, prefix, lib)
    ensures forall v :: v in lib.versions(co.tags, prefix) && IsRelease(v, prefix, lib) ==>
              v == LatestTag(name, path, prefix, co, lib).value || below(v, LatestTag(name, path, prefix, co, lib).value)
  {
    var vs := lib.versions(co.tags, prefix);
    assert LatestTag(name, path, prefix, co, lib) == Ok(FirstRelease(Reversed(vs), prefix, lib).value);
    FirstReleaseOfReversedIsHighest(vs, prefix, lib, below);
  }

  /** `get_latest_tag(repo)`: scan the reversed version list, return the first
      release. */
  method GetLatestTag(repo: Repo, co: Checkout, lib: Semver) returns (r: Result<string, Error>)
    ensures r == LatestTag(repo.name, repo.path, repo.prefix, co, lib)
  {
    if repo.path.None? {
      return Err(PathNotSet(repo.name));
    }
    var versions := lib.versions(co.tags, repo.prefix);
    versions := Reversed(versions);
    for i := 0 to |versions|
      invariant FirstRelease(versions[i..], repo.prefix, lib) == FirstRelease(versions, repo.prefix, lib)
    {
      var v := versions[i];
      assert versions[i..][1..] == versions[i + 1..];
      if lib.pre(v, repo.prefix) == "" {
        return Ok(v);
      }
    }
    assert versions[|versions|..] == [];
    return Err(NoLatestTag(repo.name));
  }

  // get_repos

  /** `info.version` from Podman's tag: one leading `v` is dropped; an empty tag
      makes `info.version[0]` raise. */
  function VersionOf(tag: string): (r: Result<string, Error>)
    ensures r.Err? <==> tag == ""
    ensures r.Ok? && tag[0] == 'v' ==> tag == "v" + r.value
    ensures r.Ok? && tag[0] != 'v' ==> r.value == tag
  {
    if tag == "" then Err(EmptyVersion)
    else if tag[0] == 'v' then Ok(tag[1..])
    else Ok(tag)
  }

  /** Podman's tag: the one given, or else the latest release. */
  function AnchorTag(podmanTag: Option<string>, name: RepoName, path: Option<string>, prefix: string,
                     co: Checkout, lib: Semver): Result<string, Error>
  {
    if podmanTag.Some? then Ok(podmanTag.value) else LatestTag(name, path, prefix, co, lib)
  }

  /** The dependencies resolved with `trigger_error=True`. */
  predicate Mandatory(n: RepoName)
  {
    n == Go || n == Rust
  }

  /** A repository's fields after `repo.tag = get_closest_tag(repo, ref,
      trigger_error)` returned: the tag is what the call returned, and when that
      is a tag the date is the tag's commit time. */
  predicate Settled(name: RepoName, path: Option<string>, prefix: string, tag: Option<string>, date: Option<int>,
                    co: Checkout, lib: Semver, ref: int, triggerError: bool)
  {
    ClosestResult(name, path, prefix, co, lib, ref, triggerError) == Ok(tag) &&
    (tag.Some? ==> tag.value in co.times && date == Some(co.times[tag.value]))
  }

  /** The dependency objects of a record, everything but Podman. */
  function DependencyObjects(repos: Repos): set<Repo>
  {
    {repos.runc, repos.conmon, repos.passt, repos.netavark, repos.aardvark_dns, repos.go, repos.image, repos.slirp4netns, repos.rust, repos.mandown}
  }

  /** The first five dependencies (lines 51-55) settled against `ref`. */
  ghost predicate EarlyDependenciesSettled(repos: Repos, clones: RepoName -> Checkout, lib: Semver, ref: int)
    reads {repos.runc, repos.conmon, repos.passt, repos.netavark, repos.aardvark_dns}
  {
    Settled(repos.runc.name, repos.runc.path, repos.runc.prefix, repos.runc.tag, repos.runc.date,
            clones(Runc), lib, ref, false) &&
    Settled(repos.conmon.name, repos.conmon.path, repos.conmon.prefix, repos.conmon.tag, repos.conmon.date,
            clones(Conmon), lib, ref, false) &&
    Settled(repos.passt.name, repos.passt.path, repos.passt.prefix, repos.passt.tag, repos.passt.date,
            clones(Passt), lib, ref, false) &&
    Settled(repos.netavark.name, repos.netavark.path, repos.netavark.prefix, repos.netavark.tag, repos.netavark.date,
            clones(Netavark), lib, ref, false) &&
    Settled(repos.aardvark_dns.name, repos.aardvark_dns.path, repos.aardvark_dns.prefix, repos.aardvark_dns.tag, repos.aardvark_dns.date,
            clones(AardvarkDns), lib, ref, false)
  }

  /** The last five dependencies (lines 56-60) settled against `ref`, `go` and
      `rust` with `trigger_error=True`. */
  ghost predicate LateDependenciesSettled(repos: Repos, clones: RepoName -> Checkout, lib: Semver, ref: int)
    reads {repos.go, repos.image, repos.slirp4netns, repos.rust, repos.mandown}
  {
    Settled(repos.go.name, repos.go.path, repos.go.prefix, repos.go.tag, repos.go.date,
            clones(Go), lib, ref, true) &&
    Settled(repos.image.name, repos.image.path, repos.image.prefix, repos.image.tag, repos.image.date,
            clones(Image), lib, ref, false) &&
    Settled(repos.slirp4netns.name, repos.slirp4netns.path, repos.slirp4netns.prefix, repos.slirp4netns.tag, repos.slirp4netns.date,
            clones(Slirp4netns), lib, ref, false) &&
    Settled(repos.rust.name, repos.rust.path, repos.rust.prefix, repos.rust.tag, repos.rust.date,
            clones(Rust), lib, ref, true) &&
    Settled(repos.mandown.name, repos.mandown.path, repos.mandown.prefix, repos.mandown.tag, repos.mandown.date,
            clones(Mandown), lib, ref, false)
  }

  /** Every dependency settled against `ref`, the mandatory ones with
      `trigger_error=True`. */
  ghost predicate DependenciesSettled(repos: Repos, clones: RepoName -> Checkout, lib: Semver, ref: int)
    reads DependencyObjects(repos)
  {
    EarlyDependenciesSettled(repos, clones, lib, ref) && LateDependenciesSettled(repos, clones, lib, ref)
  }

  /** The repository's tag and date are what they were in the pre-state. */
  twostate predicate Kept(r: Repo)
    reads r
  {
    r.tag == old(r.tag) && r.date == old(r.date)
  }

  /** One line `repos.<name>.tag = get_closest_tag(repos.<name>, commit_time,
      trigger_error=...)`, returning the exception if the call raised. */
  method AssignClosestTag(repo: Repo, co: Checkout, lib: Semver, commitTime: int, triggerError: bool)
    returns (err: Option<Error>)
    modifies repo`tag, repo`date
    ensures err.None? ==> Settled(repo.name, repo.path, repo.prefix, repo.tag, repo.date, co, lib, commitTime, triggerError)
    ensures err.None? && repo.tag.None? ==> repo.date == old(repo.date)
    ensures err.Some? ==>
            ClosestResult(repo.name, repo.path, repo.prefix, co, lib, commitTime, triggerError) == Err(err.value)
    ensures err.Some? ==> repo.tag == old(repo.tag) && repo.date == old(repo.date)
    ensures err.Some? ==> !err.value.EmptyVersion? && !err.value.NoLatestTag? && err.value.repo == repo.name
    ensures err.Some? && err.value.NoClosestTag? ==> triggerError
  {
    var res := GetClosestTag(repo, co, lib, commitTime, triggerError);
    if res.Err? {
      return Some(res.error);
    }
    repo.tag := res.value;
    return None;
  }

  /** Lines 40-50 of `get_repos`: Podman's tag (the one given, or else the
      latest release), the package version derived from it, and its commit
      time, which becomes Podman's date and the reference for the others. */
  method AnchorPodman(podman: Repo, info: Debinfo, podmanTag: Option<string>, co: Checkout, lib: Semver)
    returns (r: Result<int, Error>)
    modifies podman`tag, podman`date, info
    ensures r.Ok? ==>
            var anchor := AnchorTag(podmanTag, podman.name, podman.path, podman.prefix, co, lib);
            anchor.Ok? && podman.tag == Some(anchor.value) &&
            VersionOf(anchor.value) == Ok(info.version) &&
            anchor.value in co.times && r.value == co.times[anchor.value] && podman.date == Some(r.value)
    ensures var anchor := AnchorTag(podmanTag, podman.name, podman.path, podman.prefix, co, lib);
            r.Err? <==> anchor.Err? || anchor.value == "" || podman.path.None? || anchor.value !in co.times
    ensures var anchor := AnchorTag(podmanTag, podman.name, podman.path, podman.prefix, co, lib);
            r.Err? ==>
              if anchor.Err? then r.error == anchor.error
              else if anchor.value == "" then r.error == EmptyVersion
              else if podman.path.None? then r.error == PathNotSet(podman.name)
              else r.error == UnknownCommit(podman.name, anchor.value)
    ensures r.Err? ==> podman.date == old(podman.date)
    ensures AnchorTag(podmanTag, podman.name, podman.path, podman.prefix, co, lib).Err? ==>
              podman.tag == old(podman.tag) && info.version == old(info.version)
  {
    var tag: string;
    if podmanTag.None? {
      var latest := GetLatestTag(podman, co, lib);
      if latest.Err? {
        return Err(latest.error);
      }
      tag := latest.value;
    } else {
      tag := podmanTag.value;
    }
    podman.tag := Some(tag);
    info.version := tag;
    var version := VersionOf(tag);
    if version.Err? {
      return Err(version.error);
    }
    info.version := version.value;

    if podman.path.None? {
      return Err(PathNotSet(podman.name));
    }
    if tag !in co.times {
      return Err(UnknownCommit(podman.name, tag));
    }
    var commitTime := co.times[tag];
    podman.date := Some(commitTime);
    return Ok(commitTime);
  }

  /** Lines 51-55 of `get_repos`: `runc` to `aardvark_dns` in turn get the closest
      tag to `commitTime`, none of them mandatory. The first exception stops the
      sequence. */
  method ResolveEarlyDependencies(repos: Repos, clones: RepoName -> Checkout, lib: Semver, commitTime: int)
    returns (err: Option<Error>)
    requires repos.Valid()
    modifies repos.runc`tag, repos.runc`date, repos.conmon`tag, repos.conmon`date,
             repos.passt`tag, repos.passt`date, repos.netavark`tag, repos.netavark`date,
             repos.aardvark_dns`tag, repos.aardvark_dns`date
    ensures err.None? ==> EarlyDependenciesSettled(repos, clones, lib, commitTime)
    ensures err.None? ==>
            (repos.runc.tag.None? ==> repos.runc.date == old(repos.runc.date)) &&
            (repos.conmon.tag.None? ==> repos.conmon.date == old(repos.conmon.date)) &&
            (repos.passt.tag.None? ==> repos.passt.date == old(repos.passt.date)) &&
            (repos.netavark.tag.None? ==> repos.netavark.date == old(repos.netavark.date)) &&
            (repos.aardvark_dns.tag.None? ==> repos.aardvark_dns.date == old(repos.aardvark_dns.date))
    ensures err.Some? ==>
            !err.value.EmptyVersion? && !err.value.NoLatestTag? &&
            err.value.repo in {Runc, Conmon, Passt, Netavark, AardvarkDns}
    ensures err.Some? ==> !err.value.NoClosestTag?
    ensures err.Some? && err.value.repo in {Runc} ==> Kept(repos.runc)
    ensures err.Some? && err.value.repo in {Runc, Conmon} ==> Kept(repos.conmon)
    ensures err.Some? && err.value.repo in {Runc, Conmon, Passt} ==> Kept(repos.passt)
    ensures err.Some? && err.value.repo in {Runc, Conmon, Passt, Netavark} ==> Kept(repos.netavark)
    ensures err.Some? && err.value.repo in {Runc, Conmon, Passt, Netavark, AardvarkDns} ==> Kept(repos.aardvark_dns)
  {
    repos.FieldsDistinct();
    err := AssignClosestTag(repos.runc, clones(Runc), lib, commitTime, false);
    if err.Some? { return; }
    err := AssignClosestTag(repos.conmon, clones(Conmon), lib, commitTime, false);
    if err.Some? { return; }
    err := AssignClosestTag(repos.passt, clones(Passt), lib, commitTime, false);
    if err.Some? { return; }
    err := AssignClosestTag(repos.netavark, clones(Netavark), lib, commitTime, false);
    if err.Some? { return; }
    err := AssignClosestTag(repos.aardvark_dns, clones(AardvarkDns), lib, commitTime, false);
    if err.Some? { return; }
  }

  /** Lines 56-60 of `get_repos`: `go` to `mandown` in turn get the closest tag to
      `commitTime`; `go` and `rust` must have one. The first exception stops the
      sequence. */
  method ResolveLateDependencies(repos: Repos, clones: RepoName -> Checkout, lib: Semver, commitTime: int)
    returns (err: Option<Error>)
    requires repos.Valid()
    modifies repos.go`tag, repos.go`date, repos.image`tag, repos.image`date,
             repos.slirp4netns`tag, repos.slirp4netns`date, repos.rust`tag, repos.rust`date,
             repos.mandown`tag, repos.mandown`date
    ensures err.None? ==> LateDependenciesSettled(repos, clones, lib, commitTime)
    ensures err.None? ==>
            (repos.go.tag.None? ==> repos.go.date == old(repos.go.date)) &&
            (repos.image.tag.None? ==> repos.image.date == old(repos.image.date)) &&
            (repos.slirp4netns.tag.None? ==> repos.slirp4netns.date == old(repos.slirp4netns.date)) &&
            (repos.rust.tag.None? ==> repos.rust.date == old(repos.rust.date)) &&
            (repos.mandown.tag.None? ==> repos.mandown.date == old(repos.mandown.date))
    ensures err.Some? ==>
            !err.value.EmptyVersion? && !err.value.NoLatestTag? &&
            err.value.repo in {Go, Image, Slirp4netns, Rust, Mandown}
    ensures err.Some? && err.value.NoClosestTag? ==> Mandatory(err.value.repo)
    ensures err.Some? && err.value.repo in {Go} ==> Kept(repos.go)
    ensures err.Some? && err.value.repo in {Go, Image} ==> Kept(repos.image)
    ensures err.Some? && err.value.repo in {Go, Image, Slirp4netns} ==> Kept(repos.slirp4netns)
    ensures err.Some? && err.value.repo in {Go, Image, Slirp4netns, Rust} ==> Kept(repos.rust)
    ensures err.Some? && err.value.repo in {Go, Image, Slirp4netns, Rust, Mandown} ==> Kept(repos.mandown)
  {
    repos.FieldsDistinct();
    err := AssignClosestTag(repos.go, clones(Go), lib, commitTime, true);
    if err.Some? { return; }
    err := AssignClosestTag(repos.image, clones(Image), lib, commitTime, false);
    if err.Some? { return; }
    err := AssignClosestTag(repos.slirp4netns, clones(Slirp4netns), lib, commitTime, false);
    if err.Some? { return; }
    err := AssignClosestTag(repos.rust, clones(Rust), lib, commitTime, true);
    if err.Some? { return; }
    err := AssignClosestTag(repos.mandown, clones(Mandown), lib, commitTime, false);
    if err.Some? { return; }
  }

  /** Lines 51-60 of `get_repos`: every dependency in turn gets the closest tag
      to `commitTime`; only `go` and `rust` must have one. The first exception
      stops the sequence. */
  method ResolveDependencies(repos: Repos, clones: RepoName -> Checkout, lib: Semver, commitTime: int)
    returns (err: Option<Error>)
    requires repos.Valid()
    modifies repos.runc`tag, repos.runc`date, repos.conmon`tag, repos.conmon`date,
             repos.passt`tag, repos.passt`date, repos.netavark`tag, repos.netavark`date,
             repos.aardvark_dns`tag, repos.aardvark_dns`date, repos.go`tag, repos.go`date,
             repos.image`tag, repos.image`date, repos.slirp4netns`tag, repos.slirp4netns`date,
             repos.rust`tag, repos.rust`date, repos.mandown`tag, repos.mandown`date
    ensures err.None? ==> DependenciesSettled(repos, clones, lib, commitTime)
    ensures err.None? ==>
            (repos.runc.tag.None? ==> repos.runc.date == old(repos.runc.date)) &&
            (repos.conmon.tag.None? ==> repos.conmon.date == old(repos.conmon.date)) &&
            (repos.passt.tag.None? ==> repos.passt.date == old(repos.passt.date)) &&
            (repos.netavark.tag.None? ==> repos.netavark.date == old(repos.netavark.date)) &&
            (repos.aardvark_dns.tag.None? ==> repos.aardvark_dns.date == old(repos.aardvark_dns.date)) &&
            (repos.go.tag.None? ==> repos.go.date == old(repos.go.date)) &&
            (repos.image.tag.None? ==> repos.image.date == old(repos.image.date)) &&
            (repos.slirp4netns.tag.None? ==> repos.slirp4netns.date == old(repos.slirp4netns.date)) &&
            (repos.rust.tag.None? ==> repos.rust.date == old(repos.rust.date)) &&
            (repos.mandown.tag.None? ==> repos.mandown.date == old(repos.mandown.date))
    ensures err.Some? ==> !err.value.EmptyVersion? && !err.value.NoLatestTag? && err.value.repo != Podman
    ensures err.Some? && err.value.NoClosestTag? ==> Mandatory(err.value.repo)
    ensures err.Some? && err.value.repo in {Runc} ==> Kept(repos.runc)
    ensures err.Some? && err.value.repo in {Runc, Conmon} ==> Kept(repos.conmon)
    ensures err.Some? && err.value.repo in {Runc, Conmon, Passt} ==> Kept(repos.passt)
    ensures err.Some? && err.value.repo in {Runc, Conmon, Passt, Netavark} ==> Kept(repos.netavark)
    ensures err.Some? && err.value.repo in {Runc, Conmon, Passt, Netavark, AardvarkDns} ==> Kept(repos.aardvark_dns)
    ensures (err.Some? && err.value.repo in {Runc, Conmon, Passt, Netavark, AardvarkDns,
                                             Go}) ==>
            Kept(repos.go)
    ensures (err.Some? && err.value.repo in {Runc, Conmon, Passt, Netavark, AardvarkDns,
                                             Go, Image}) ==>
            Kept(repos.image)
    ensures (err.Some? && err.value.repo in {Runc, Conmon, Passt, Netavark, AardvarkDns,
                                             Go, Image, Slirp4netns}) ==>
            Kept(repos.slirp4netns)
    ensures (err.Some? && err.value.repo in {Runc, Conmon, Passt, Netavark, AardvarkDns,
                                             Go, Image, Slirp4netns, Rust}) ==>
            Kept(repos.rust)
    ensures (err.Some? && err.value.repo in {Runc, Conmon, Passt, Netavark, AardvarkDns,
                                             Go, Image, Slirp4netns, Rust, Mandown}) ==>
            Kept(repos.mandown)
  {
    repos.FieldsDistinct();
    err := ResolveEarlyDependencies(repos, clones, lib, commitTime);
    if err.Some? { return; }
    err := ResolveLateDependencies(repos, clones, lib, commitTime);
  }

  /** Lines 40-60 of `get_repos`: anchor on Podman, then resolve every
      dependency against Podman's commit time. */
  method GetRepos(repos: Repos, info: Debinfo, podmanTag: Option<string>, clones: RepoName -> Checkout,
                  lib: Semver)
    returns (r: Result<Repos, Error>)
    requires repos.Valid()
    modifies repos.Objects()`tag, repos.Objects()`date, info
    ensures r.Ok? ==> r.value == repos
    ensures r.Ok? ==>
            var anchor := AnchorTag(podmanTag, Podman, repos.podman.path, repos.podman.prefix, clones(Podman), lib);
            anchor.Ok? && repos.podman.tag == Some(anchor.value) &&
            VersionOf(anchor.value) == Ok(info.version) &&
            anchor.value in clones(Podman).times &&
            repos.podman.date == Some(clones(Podman).times[anchor.value])
    ensures r.Ok? ==> DependenciesSettled(repos, clones, lib, repos.podman.date.value)
    ensures r.Ok? ==>
            (repos.runc.tag.None? ==> repos.runc.date == old(repos.runc.date)) &&
            (repos.conmon.tag.None? ==> repos.conmon.date == old(repos.conmon.date)) &&
            (repos.passt.tag.None? ==> repos.passt.date == old(repos.passt.date)) &&
            (repos.netavark.tag.None? ==> repos.netavark.date == old(repos.netavark.date)) &&
            (repos.aardvark_dns.tag.None? ==> repos.aardvark_dns.date == old(repos.aardvark_dns.date)) &&
            (repos.go.tag.None? ==> repos.go.date == old(repos.go.date)) &&
            (repos.image.tag.None? ==> repos.image.date == old(repos.image.date)) &&
            (repos.slirp4netns.tag.None? ==> repos.slirp4netns.date == old(repos.slirp4netns.date)) &&
            (repos.rust.tag.None? ==> repos.rust.date == old(repos.rust.date)) &&
            (repos.mandown.tag.None? ==> repos.mandown.date == old(repos.mandown.date))
    ensures r.Err? && r.error.NoClosestTag? ==> Mandatory(r.error.repo)
  {
    repos.FieldsDistinct();
    var anchored := AnchorPodman(repos.podman, info, podmanTag, clones(Podman), lib);
    if anchored.Err? {
      return Err(anchored.error);
    }
    assert repos.runc.date == old(repos.runc.date);
    assert repos.conmon.date == old(repos.conmon.date);
    assert repos.passt.date == old(repos.passt.date);
    assert repos.netavark.date == old(repos.netavark.date);
    assert repos.aardvark_dns.date == old(repos.aardvark_dns.date);
    assert repos.go.date == old(repos.go.date);
    assert repos.image.date == old(repos.image.date);
    assert repos.slirp4netns.date == old(repos.slirp4netns.date);
    assert repos.rust.date == old(repos.rust.date);
    assert repos.mandown.date == old(repos.mandown.date);
    var err := ResolveDependencies(repos, clones, lib, anchored.value);
    if err.Some? {
      return Err(err.value);
    }
    assert repos.podman.date.value == anchored.value;
    return Ok(repos);
  }

  /** Lines 34-36 of `get_repos`: the repositories keyed by name; a later entry
      with the same name replaces an earlier one. */
  method KeyByName(list: seq<Repo>) returns (drs: map<RepoName, Repo>)
    ensures forall n :: n in drs <==> exists i :: 0 <= i < |list| && list[i].name == n
    ensures forall n :: n in drs ==> drs[n].name == n
    ensures forall n :: n in drs ==>
              exists i :: 0 <= i < |list| && drs[n] == list[i] &&
                          forall j :: i < j < |list| ==> list[j].name != n
  {
    drs := map[];
    for i := 0 to |list|
      invariant forall n :: n in drs <==> exists k :: 0 <= k < i && list[k].name == n
      invariant forall n :: n in drs ==> drs[n].name == n
      invariant forall n :: n in drs ==>
                  exists k :: 0 <= k < i && drs[n] == list[k] && forall j :: k < j < i ==> list[j].name != n
    {
      drs := drs[list[i].name := list[i]];
    }
  }
}
