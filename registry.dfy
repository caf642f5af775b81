/** Resolving the registry's answer into repository coordinates
    (`fetchPackagesInformation`, index.js lines 29-42, without the request).

    The registry's response body is an object from package name to metadata,
    taken here as its entries in `Object.entries` order. Each entry's
    repository URL is split on '/'; the owner is piece 3 and the repository
    name is piece 4 cut before its last '.'. When piece 4 has no '.',
    `lastIndexOf` is -1 and `substring(0, -1)` is the empty string. */
module Registry {
  import opened Wrappers
  import opened Failures
  import opened JsText

  /** A package resolved to the repository that hosts it. */
  datatype Package = Package(name: string, owner: string, repository: string)

  /** One registry entry: the package name and, when the metadata records
      one, `collected.metadata.repository.url`. */
  datatype RegistryEntry = RegistryEntry(name: string, repositoryUrl: Option<string>)

  /** `segment.substring(0, segment.lastIndexOf('.'))`: the segment before its
      last '.', or the empty string when it has none. */
  function RepositoryName(segment: string): (r: string)
    ensures '.' !in segment ==> r == ""
    ensures '.' in segment ==> |r| < |segment| && r == segment[..|r|] && segment[|r|] == '.' && '.' !in segment[|r| + 1..]
  {
    Substring(segment, 0, LastIndexOf(segment, '.'))
  }

  /** Owner and repository name from a repository URL. `url[4].substring`
      throws when the URL has fewer than five pieces. */
  function ParseRepositoryUrl(name: string, url: string): Result<(string, string), Error> {
    var pieces := Split(url, '/');
    if |pieces| < 5 then Err(MalformedRepositoryUrl(name, url))
    else Ok((pieces[3], RepositoryName(pieces[4])))
  }

  /** The `.map` body for one entry. */
  function ResolveEntry(e: RegistryEntry): Result<Package, Error> {
    match e.repositoryUrl
    case None => Err(MissingRepositoryUrl(e.name))
    case Some(url) =>
      match ParseRepositoryUrl(e.name, url)
      case Err(err) => Err(err)
      case Ok((owner, repository)) => Ok(Package(e.name, owner, repository))
  }

  /** `Object.entries(body).map(...)`: every entry resolved, in order; the
      first entry that throws ends the whole run with its error. */
  function Resolve(entries: seq<RegistryEntry>): (r: Result<seq<Package>, Error>)
    ensures r.Ok? <==> forall i :: 0 <= i < |entries| ==> ResolveEntry(entries[i]).Ok?
    ensures r.Ok? ==> |r.value| == |entries|
    ensures r.Ok? ==> forall i :: 0 <= i < |entries| ==>
              r.value[i] == ResolveEntry(entries[i]).value && r.value[i].name == entries[i].name
    ensures r.Err? ==> exists i :: 0 <= i < |entries| && ResolveEntry(entries[i]) == Err(r.error) &&
                                   forall j :: 0 <= j < i ==> ResolveEntry(entries[j]).Ok?
  {
    if |entries| == 0 then Ok([])
    else
      match ResolveEntry(entries[0])
      case Err(err) => Err(err)
      case Ok(p) =>
        match Resolve(entries[1..])
        case Err(err) =>
          assert forall i :: 1 <= i < |entries| ==> entries[1..][i - 1] == entries[i];
          Err(err)
        case Ok(ps) => Ok([p] + ps)
  }

  /** A URL made of '/'-free pieces parses to its piece 3 and to piece 4 cut
      before its last '.'; with fewer than five pieces it is an error. */
  lemma ParseJoinedUrl(name: string, pieces: seq<string>)
    requires |pieces| >= 1
    requires forall k :: 0 <= k < |pieces| ==> '/' !in pieces[k]
    ensures ParseRepositoryUrl(name, Join(pieces, '/')).Ok? <==> |pieces| >= 5
    ensures |pieces| >= 5 ==> ParseRepositoryUrl(name, Join(pieces, '/')) == Ok((pieces[3], RepositoryName(pieces[4])))
  {
    SplitJoin(pieces, '/');
  }

  /** The repository name drops exactly the last extension. */
  lemma RepositoryNameDropsExtension(base: string, ext: string)
    requires '.' !in ext
    ensures RepositoryName(base + "." + ext) == base
  {
    var s := base + "." + ext;
    assert s[|base|] == '.' && s[|base| + 1..] == ext;
    assert s[..|base|] == base;
  }

  /** The pieces of a `https://github.com/<owner>/<last>` URL. */
  lemma GitHubUrlPieces(owner: string, last: string)
    ensures Join(["https:", "", "github.com", owner, last], '/') == "https://github.com/" + owner + "/" + last
  {
    var pieces := ["https:", "", "github.com", owner, last];
    assert Join(pieces[3..], '/') == owner + "/" + last by {
      assert pieces[3..][1..] == [last];
    }
    assert Join(pieces[2..], '/') == "github.com/" + owner + "/" + last by {
      assert pieces[2..][1..] == pieces[3..];
    }
    assert Join(pieces[1..], '/') == "/github.com/" + owner + "/" + last by {
      assert pieces[1..][1..] == pieces[2..];
    }
    assert pieces[1..] == pieces[1..];
  }

  /** A GitHub URL `https://github.com/<owner>/<last>` gives `<owner>` and
      the repository name of `<last>`. */
  lemma ParseGitHubPieces(name: string, owner: string, last: string, url: string)
    requires '/' !in owner && '/' !in last
    requires url == "https://github.com/" + owner + "/" + last
    ensures ParseRepositoryUrl(name, url) == Ok((owner, RepositoryName(last)))
  {
    GitHubUrlPieces(owner, last);
    ParseJoinedUrl(name, ["https:", "", "github.com", owner, last]);
  }

  /** The usual GitHub URL `https://github.com/<owner>/<repo>.git` gives the
      owner and the repository name. */
  lemma ParseGitHubUrl(name: string, owner: string, repo: string, url: string)
    requires '/' !in owner && '/' !in repo
    requires url == "https://github.com/" + owner + "/" + repo + ".git"
    ensures ParseRepositoryUrl(name, url) == Ok((owner, repo))
  {
    var last := repo + "." + "git";
    assert '/' !in last;
    ParseGitHubPieces(name, owner, last, url);
    RepositoryNameDropsExtension(repo, "git");
  }

  /** The worked example: `https://github.com/ownerA/repoB.git`. */
  lemma ParseExampleUrl()
    ensures ParseRepositoryUrl("pkg", "https://github.com/ownerA/repoB.git") == Ok(("ownerA", "repoB"))
  {
    ParseGitHubUrl("pkg", "ownerA", "repoB", "https://github.com/ownerA/repoB.git");
  }

  /** Without an extension the repository name comes out empty
      (`substring(0, -1)`), even though the URL names a repository. */
  lemma ParseUrlWithoutExtension(name: string, owner: string, repo: string, url: string)
    requires '/' !in owner && '/' !in repo && '.' !in repo
    requires url == "https://github.com/" + owner + "/" + repo
    ensures ParseRepositoryUrl(name, url) == Ok((owner, ""))
  {
    ParseGitHubPieces(name, owner, repo, url);
  }
}
