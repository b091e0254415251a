/** `get configuration` (src/cli/commands/get_configuration.rs): which view of the CFS
    configurations is printed, and the layer list of the single-configuration view. The
    configuration list and the gitea commit lookup are inputs; the printed table or JSON
    is represented by the value it renders. */
module GetConfiguration {
  import opened Wrappers
  import opened Strings

  const GitHostPrefix := "https://api.cmn.alps.cscs.ch"
  const GitSuffix := ".git"
  const JsonOutput := "json"

  /** A layer of a CFS configuration as the registry returns it. */
  datatype CfsLayer = CfsLayer(name: string, cloneUrl: string, commit: Option<string>)

  datatype CfsConfiguration = CfsConfiguration(name: string, lastUpdated: string, layers: seq<CfsLayer>)

  /** What the gitea lookup reports of a commit: `commit.committer.name` and `.date`. */
  datatype CommitDetails = CommitDetails(committerName: string, committerDate: string)

  /** The key of a gitea lookup: repository clone URL and commit id. */
  datatype CommitRef = CommitRef(cloneUrl: string, commit: string)

  /** The gitea lookup. */
  type CommitLookup = CommitRef -> CommitDetails

  /** A layer of the printed configuration: name, repository path, commit, author, date. */
  datatype LayerView = LayerView(name: string, repoPath: string, commit: string, author: string, date: string)

  datatype ConfigurationView = ConfigurationView(name: string, lastUpdated: string, layers: seq<LayerView>)

  /** What the command prints. */
  datatype Output =
    | NoConfigurationFound                        // the message before `exit(0)`
    | JsonList(configurations: seq<CfsConfiguration>)
    | SingleTable(view: ConfigurationView)
    | MultiTable(configurations: seq<CfsConfiguration>)

  /** The repository path shown for a clone URL: host prefix and `.git` suffix trimmed. */
  function RepoPath(cloneUrl: string): (r: string)
    ensures !StartsWith(r, GitHostPrefix) && !EndsWith(r, GitSuffix)
  {
    TrimMatches(cloneUrl, GitHostPrefix, GitSuffix)
  }

  predicate HasCommits(layers: seq<CfsLayer>)
  {
    forall i :: 0 <= i < |layers| ==> layers[i].commit.Some?
  }

  /** The loop over the source layers: one gitea lookup and one built layer per source
      layer, in order. `lookups` lists the commits looked up. */
  method BuildLayers(source: seq<CfsLayer>, gitea: CommitLookup)
    returns (layers: seq<LayerView>, lookups: seq<CommitRef>)
    requires HasCommits(source)
    ensures |layers| == |source| && |lookups| == |source|
    ensures forall i :: 0 <= i < |source| ==>
      && lookups[i] == CommitRef(source[i].cloneUrl, source[i].commit.value)
      && layers[i].name == source[i].name
      && layers[i].commit == source[i].commit.value
      && layers[i].repoPath == RepoPath(source[i].cloneUrl)
      && layers[i].author == gitea(lookups[i]).committerName
      && layers[i].date == gitea(lookups[i]).committerDate
  {
    layers, lookups := [], [];
    for i := 0 to |source|
      invariant |layers| == i && |lookups| == i
      invariant forall k :: 0 <= k < i ==>
        && lookups[k] == CommitRef(source[k].cloneUrl, source[k].commit.value)
        && layers[k].name == source[k].name
        && layers[k].commit == source[k].commit.value
        && layers[k].repoPath == RepoPath(source[k].cloneUrl)
        && layers[k].author == gitea(lookups[k]).committerName
        && layers[k].date == gitea(lookups[k]).committerDate
    {
      var layer := source[i];
      var key := CommitRef(layer.cloneUrl, layer.commit.value);
      var giteaCommitDetails := gitea(key);
      lookups := lookups + [key];
      layers := layers + [LayerView(
        layer.name,
        RepoPath(layer.cloneUrl),
        layer.commit.value,
        giteaCommitDetails.committerName,
        giteaCommitDetails.committerDate)];
    }
  }

  /** The command after the configurations were fetched. */
  method GetConfiguration(configurations: seq<CfsConfiguration>, outputOpt: Option<string>, gitea: CommitLookup)
    returns (output: Output, lookups: seq<CommitRef>)
    requires |configurations| == 1 && outputOpt != Some(JsonOutput) ==> HasCommits(configurations[0].layers)
    ensures output == NoConfigurationFound <==> configurations == []
    ensures output.JsonList? <==> configurations != [] && outputOpt == Some(JsonOutput)
    ensures output.SingleTable? <==> |configurations| == 1 && outputOpt != Some(JsonOutput)
    ensures output.MultiTable? <==> |configurations| > 1 && outputOpt != Some(JsonOutput)
    ensures output.JsonList? || output.MultiTable? ==> output.configurations == configurations
    ensures !output.SingleTable? ==> lookups == []
    ensures output.SingleTable? ==>
      var source, view := configurations[0], output.view;
      && view.name == source.name
      && view.lastUpdated == source.lastUpdated
      && |view.layers| == |source.layers| == |lookups|
      && forall i :: 0 <= i < |source.layers| ==>
        && lookups[i] == CommitRef(source.layers[i].cloneUrl, source.layers[i].commit.value)
        && view.layers[i].name == source.layers[i].name
        && view.layers[i].commit == source.layers[i].commit.value
        && view.layers[i].repoPath == RepoPath(source.layers[i].cloneUrl)
        && view.layers[i].author == gitea(lookups[i]).committerName
        && view.layers[i].date == gitea(lookups[i]).committerDate
  {
    lookups := [];
    if configurations == [] {
      return NoConfigurationFound, [];
    }
    if outputOpt.Some? && outputOpt.value == JsonOutput {
      output := JsonList(configurations);
    } else {
      if |configurations| == 1 {
        var mostRecent := configurations[0];
        var layers;
        layers, lookups := BuildLayers(mostRecent.layers, gitea);
        output := SingleTable(ConfigurationView(mostRecent.name, mostRecent.lastUpdated, layers));
      } else {
        output := MultiTable(configurations);
      }
    }
  }

  /** A clone URL on the gitea host, `https://api.cmn.alps.cscs.ch/R.git`, shows as `/R`
      when `R` does not end with `.git`. */
  lemma RepoPathOfCloneUrl(repo: string)
    requires !EndsWith(repo, GitSuffix)
    ensures RepoPath(GitHostPrefix + "/" + repo + GitSuffix) == "/" + repo
  {
    var x := "/" + repo;
    assert GitHostPrefix + "/" + repo + GitSuffix == GitHostPrefix + x + GitSuffix;
    assert (x + GitSuffix)[0] == '/' != GitHostPrefix[0];
    assert !EndsWith(x, GitSuffix) by {
      if |repo| >= |GitSuffix| { assert x[|x| - |GitSuffix|..] == repo[|repo| - |GitSuffix|..]; }
      else if |x| == |GitSuffix| { assert x[0] == '/' != GitSuffix[0]; }
    }
    TrimMatchesOfWrapped(GitHostPrefix, x, GitSuffix);
  }
}
