/** The records of dev/models.py that the tag resolver reads and writes. */
module Models {
  import opened Wrappers

  /** The repositories a build draws on. The enum's values are produced by
      `auto()` on a `StrEnum`: the member's name in lower case. */
  datatype RepoName =
    | Podman | Runc | Conmon | Passt | Netavark | AardvarkDns
    | Go | Image | Slirp4netns | Rust | Mandown
  {
    /** The member's string value. */
    function Value(): string
    {
      match this
      case Podman => "podman"
      case Runc => "runc"
      case Conmon => "conmon"
      case Passt => "passt"
      case Netavark => "netavark"
      case AardvarkDns => "aardvark_dns"
      case Go => "go"
      case Image => "image"
      case Slirp4netns => "slirp4netns"
      case Rust => "rust"
      case Mandown => "mandown"
    }

    /** The member's position in the enum's declaration, which is its index in
        `AllNames`. */
    function Ordinal(): nat
    {
      match this
      case Podman => 0
      case Runc => 1
      case Conmon => 2
      case Passt => 3
      case Netavark => 4
      case AardvarkDns => 5
      case Go => 6
      case Image => 7
      case Slirp4netns => 8
      case Rust => 9
      case Mandown => 10
    }
  }

  /** The members of `RepoName` in declaration order. */
  const AllNames: seq<RepoName> :=
    [Podman, Runc, Conmon, Passt, Netavark, AardvarkDns, Go, Image, Slirp4netns, Rust, Mandown]

  /** The fields of the `Repos` record in declaration order. */
  const ReposFields: seq<string> :=
    ["podman", "runc", "conmon", "passt", "netavark", "aardvark_dns",
     "go", "image", "slirp4netns", "rust", "mandown"]

  /** `RepoName` has exactly eleven members, listed once each, with distinct values. */
  lemma NamesAreEleven()
    ensures |AllNames| == 11
    ensures forall n: RepoName :: n in AllNames
    ensures forall i, j :: 0 <= i < j < |AllNames| ==> AllNames[i] != AllNames[j]
    ensures forall a: RepoName, b: RepoName :: a.Value() == b.Value() ==> a == b
  {
    forall n: RepoName ensures n in AllNames {
      assert AllNames[n.Ordinal()] == n;
    }
  }

  /** `Repos` has one field per `RepoName` member, in the same order, named by
      the member's value: so `Repos(**drs)` with `drs` keyed by name fills it. */
  lemma FieldPerName()
    ensures |ReposFields| == |AllNames|
    ensures forall i :: 0 <= i < |AllNames| ==> ReposFields[i] == AllNames[i].Value()
  {
  }

  /** One dependency: where it is cloned from and to, the prefix its tags carry,
      and the tag and commit time chosen for it. The name is never reassigned by
      the code, so it is a constant here. Commit times are instants, as whole
      seconds. */
  class Repo {
    const name: RepoName
    var giturl: string
    var path: Option<string>
    var tag: Option<string>
    var date: Option<int>
    var download: Option<string>
    var prefix: string

    /** `Repo(name=..., giturl=...)`: only these two are required, the other
        fields take their defaults. */
    constructor (name: RepoName, giturl: string)
      ensures this.name == name && this.giturl == giturl
      ensures path == None && tag == None && date == None && download == None
      ensures prefix == ""
    {
      this.name := name;
      this.giturl := giturl;
      path, tag, date, download := None, None, None, None;
      prefix := "";
    }

    /** `Repo(**fields)` with every keyword given, as the configuration loader does. */
    constructor WithFields(name: RepoName, giturl: string, path: Option<string>, tag: Option<string>,
                           date: Option<int>, download: Option<string>, prefix: string)
      ensures this.name == name && this.giturl == giturl && this.path == path && this.tag == tag
      ensures this.date == date && this.download == download && this.prefix == prefix
    {
      this.name := name;
      this.giturl := giturl;
      this.path := path;
      this.tag := tag;
      this.date := date;
      this.download := download;
      this.prefix := prefix;
    }
  }

  /** The `Repos` record: one `Repo` per name. Its fields are never reassigned;
      the `Repo` objects they hold are updated in place. */
  datatype Repos = Repos(
    podman: Repo, runc: Repo, conmon: Repo, passt: Repo, netavark: Repo,
    aardvark_dns: Repo, go: Repo, image: Repo, slirp4netns: Repo, rust: Repo,
    mandown: Repo)
  {
    /** The field whose name is `n.Value()`. */
    function Get(n: RepoName): Repo
    {
      match n
      case Podman => podman
      case Runc => runc
      case Conmon => conmon
      case Passt => passt
      case Netavark => netavark
      case AardvarkDns => aardvark_dns
      case Go => go
      case Image => image
      case Slirp4netns => slirp4netns
      case Rust => rust
      case Mandown => mandown
    }

    /** Every field holds the repository of its own name (so the eleven objects
        are distinct). */
    predicate Valid()
    {
      podman.name == Podman && runc.name == Runc && conmon.name == Conmon &&
      passt.name == Passt && netavark.name == Netavark && aardvark_dns.name == AardvarkDns &&
      go.name == Go && image.name == Image && slirp4netns.name == Slirp4netns &&
      rust.name == Rust && mandown.name == Mandown
    }

    /** The eleven fields of a valid record hold eleven different objects. */
    lemma FieldsDistinct()
      requires Valid()
      ensures podman != runc && podman != conmon && podman != passt && podman != netavark && podman != aardvark_dns && podman != go && podman != image && podman != slirp4netns && podman != rust && podman != mandown
      ensures runc != conmon && runc != passt && runc != netavark && runc != aardvark_dns && runc != go && runc != image && runc != slirp4netns && runc != rust && runc != mandown
      ensures conmon != passt && conmon != netavark && conmon != aardvark_dns && conmon != go && conmon != image && conmon != slirp4netns && conmon != rust && conmon != mandown
      ensures passt != netavark && passt != aardvark_dns && passt != go && passt != image && passt != slirp4netns && passt != rust && passt != mandown
      ensures netavark != aardvark_dns && netavark != go && netavark != image && netavark != slirp4netns && netavark != rust && netavark != mandown
      ensures aardvark_dns != go && aardvark_dns != image && aardvark_dns != slirp4netns && aardvark_dns != rust && aardvark_dns != mandown
      ensures go != image && go != slirp4netns && go != rust && go != mandown
      ensures image != slirp4netns && image != rust && image != mandown
      ensures slirp4netns != rust && slirp4netns != mandown
      ensures rust != mandown
    {
    }

    function Objects(): set<Repo>
    {
      {podman, runc, conmon, passt, netavark, aardvark_dns, go, image, slirp4netns, rust, mandown}
    }
  }

  /** `Repos(**drs)`: the call succeeds exactly when every name is a key (a
      missing keyword is a `TypeError`, here `None`), and then each field holds
      the entry of its name. */
  function BuildRepos(drs: map<RepoName, Repo>): (r: Option<Repos>)
    ensures r.Some? <==> forall n: RepoName :: n in drs
    ensures r.Some? ==> forall n: RepoName :: r.value.Get(n) == drs[n]
    ensures r.Some? && (forall n :: n in drs ==> drs[n].name == n) ==> r.value.Valid()
  {
    NamesAreEleven();
    if forall n :: n in AllNames ==> n in drs then
      Some(Repos(drs[Podman], drs[Runc], drs[Conmon], drs[Passt], drs[Netavark],
                 drs[AardvarkDns], drs[Go], drs[Image], drs[Slirp4netns], drs[Rust],
                 drs[Mandown]))
    else
      None
  }

  /** The part of `Debinfo` that the resolver writes: the package version.
      The other fields are static package metadata. */
  class Debinfo {
    var version: string

    constructor (version: string)
      ensures this.version == version
    {
      this.version := version;
    }
  }
}
