/** Recovering a boot image id from the BOS session templates that reference a CFS
    configuration (src/common/bos_sessiontemplate_utils.rs). The image registry probe
    is an oracle: `probe(id)` is whether the registry call for `id` came back `Ok`. */
module BosTemplates {
  import opened Wrappers
  import opened Strings

  const BootImagesPrefix := "s3://boot-images/"
  const ManifestSuffix := "/manifest.json"

  /** One entry of a template's `boot_sets` object, `path` absent when the key is missing. */
  datatype BootSet = BootSet(name: string, path: Option<string>)

  /** A session template: its name, the value at `/cfs/configuration`, and its boot sets
      in the iteration order of the `boot_sets` object. */
  datatype SessionTemplate = SessionTemplate(name: string, cfsConfiguration: string, bootSets: seq<BootSet>)

  type ImageProbe = string -> bool

  /** The filter closure: the template references exactly this configuration. */
  predicate IsTarget(t: SessionTemplate, cfsConfigurationName: string)
  {
    t.cfsConfiguration == cfsConfigurationName
  }

  /** The templates that reference the configuration, in list order. */
  function TargetTemplates(templates: seq<SessionTemplate>, cfsConfigurationName: string): seq<SessionTemplate>
  {
    if templates == [] then []
    else
      var last := templates[|templates| - 1];
      TargetTemplates(templates[..|templates| - 1], cfsConfigurationName)
        + (if IsTarget(last, cfsConfigurationName) then [last] else [])
  }

  /** The image id a boot set `path` names: the path with the storage prefix trimmed from
      the front and the manifest suffix trimmed from the back. */
  function ImageIdFromPath(path: string): (id: string)
    ensures !StartsWith(id, BootImagesPrefix) && !EndsWith(id, ManifestSuffix)
  {
    TrimMatches(path, BootImagesPrefix, ManifestSuffix)
  }

  /** The candidate ids of a list of boot sets, in order; boot sets without `path` give none. */
  function BootSetCandidates(bootSets: seq<BootSet>): (r: seq<string>)
  {
    if bootSets == [] then []
    else
      var last := bootSets[|bootSets| - 1];
      BootSetCandidates(bootSets[..|bootSets| - 1])
        + (if last.path.Some? then [ImageIdFromPath(last.path.value)] else [])
  }

  /** The candidate ids of a list of templates: template by template, boot set by boot set. */
  function Candidates(templates: seq<SessionTemplate>): (r: seq<string>)
  {
    if templates == [] then []
    else Candidates(templates[..|templates| - 1]) + BootSetCandidates(templates[|templates| - 1].bootSets)
  }

  /** The first candidate the probe confirms. */
  function FirstConfirmed(candidates: seq<string>, probe: ImageProbe): (r: Option<string>)
    ensures r.Some? ==> r.value in candidates && probe(r.value)
    ensures r.None? <==> forall k :: 0 <= k < |candidates| ==> !probe(candidates[k])
  {
    if candidates == [] then None
    else if probe(candidates[0]) then Some(candidates[0])
    else FirstConfirmed(candidates[1..], probe)
  }

  /** The result of the search for a configuration over a template list. */
  function ResolvedImageId(templates: seq<SessionTemplate>, cfsConfigurationName: string, probe: ImageProbe): Option<string>
  {
    FirstConfirmed(Candidates(TargetTemplates(templates, cfsConfigurationName)), probe)
  }

  /** `get_image_id_from_bos_sessiontemplate_list`: walks the matching templates and their
      boot sets, probes each candidate id, and returns the first confirmed one. `probed`
      lists the ids handed to the registry, in call order. */
  method GetImageIdFromBosSessionTemplateList(
    cfsConfigurationName: string, templates: seq<SessionTemplate>, probe: ImageProbe)
    returns (r: Option<string>, probed: seq<string>)
    ensures r == ResolvedImageId(templates, cfsConfigurationName, probe)
    ensures probed <= Candidates(TargetTemplates(templates, cfsConfigurationName))
    ensures r.None? ==> probed == Candidates(TargetTemplates(templates, cfsConfigurationName))
    ensures r.Some? ==> probed != [] && probed[|probed| - 1] == r.value
    ensures forall k :: 0 <= k < |probed| - 1 ==> !probe(probed[k])
  {
    var targets := TargetTemplates(templates, cfsConfigurationName);
    probed := [];
    for i := 0 to |targets|
      invariant probed == Candidates(targets[..i])
      invariant forall k :: 0 <= k < |probed| ==> !probe(probed[k])
    {
      var found, probedHere := ProbeBootSets(targets[i].bootSets, probe);
      if found.Some? {
        TemplateEarlyReturn(targets, i, probed, probedHere, probe);
        return found, probed + probedHere;
      }
      probed := probed + probedHere;
      CandidatesSnoc(targets, i);
    }
    assert targets[..|targets|] == targets;
    r := None;
  }

  /** The inner loop of the search: the boot sets of one template, in order, up to the
      first candidate the probe confirms. */
  method ProbeBootSets(bootSets: seq<BootSet>, probe: ImageProbe) returns (r: Option<string>, probed: seq<string>)
    ensures r == FirstConfirmed(BootSetCandidates(bootSets), probe)
    ensures probed <= BootSetCandidates(bootSets)
    ensures r.None? ==> probed == BootSetCandidates(bootSets)
    ensures r.Some? ==> probed != [] && probed[|probed| - 1] == r.value
    ensures forall k :: 0 <= k < |probed| - 1 ==> !probe(probed[k])
  {
    probed := [];
    for j := 0 to |bootSets|
      invariant probed == BootSetCandidates(bootSets[..j])
      invariant forall k :: 0 <= k < |probed| ==> !probe(probed[k])
    {
      BootSetCandidatesSnoc(bootSets, j);
      if bootSets[j].path.Some? {
        var id := ImageIdFromPath(bootSets[j].path.value);
        if probe(id) {
          BootSetEarlyReturn(bootSets, j, probed, probe);
          var _ := BootSetCandidatesSplit(bootSets, j);
          return Some(id), probed + [id];
        }
        probed := probed + [id];
      }
    }
    assert bootSets[..|bootSets|] == bootSets;
    r := None;
  }

  /** `get_image_id_related_to_cfs_configuration`: the same search over the full template
      list returned by the template registry. */
  method GetImageIdRelatedToCfsConfiguration(
    cfsConfigurationName: string, allTemplates: seq<SessionTemplate>, probe: ImageProbe)
    returns (r: Option<string>)
    ensures r == ResolvedImageId(allTemplates, cfsConfigurationName, probe)
  {
    var probed;
    r, probed := GetImageIdFromBosSessionTemplateList(cfsConfigurationName, allTemplates, probe);
  }

  // ---------------------------------------------------------------------------------
  // Structure of the candidate list

  /** The filter keeps exactly the templates that reference the configuration: equality,
      not a substring match. */
  lemma {:induction false} TargetTemplatesMembers(templates: seq<SessionTemplate>, name: string, t: SessionTemplate)
    ensures t in TargetTemplates(templates, name) <==> t in templates && t.cfsConfiguration == name
  {
    if templates != [] {
      var init := templates[..|templates| - 1];
      TargetTemplatesMembers(init, name, t);
      assert templates == init + [templates[|templates| - 1]];
    }
  }

  lemma BootSetCandidatesSnoc(bootSets: seq<BootSet>, j: int)
    requires 0 <= j < |bootSets|
    ensures BootSetCandidates(bootSets[..j + 1]) == BootSetCandidates(bootSets[..j])
      + (if bootSets[j].path.Some? then [ImageIdFromPath(bootSets[j].path.value)] else [])
  {
    assert bootSets[..j + 1][..j] == bootSets[..j];
  }

  lemma CandidatesSnoc(templates: seq<SessionTemplate>, i: int)
    requires 0 <= i < |templates|
    ensures Candidates(templates[..i + 1]) == Candidates(templates[..i]) + BootSetCandidates(templates[i].bootSets)
  {
    assert templates[..i + 1][..i] == templates[..i];
  }

  lemma {:induction false} BootSetCandidatesConcat(a: seq<BootSet>, b: seq<BootSet>)
    ensures BootSetCandidates(a + b) == BootSetCandidates(a) + BootSetCandidates(b)
    decreases |b|
  {
    if b != [] {
      var b' := b[..|b| - 1];
      assert (a + b)[..|a + b| - 1] == a + b';
      BootSetCandidatesConcat(a, b');
    } else {
      assert a + b == a;
    }
  }

  lemma {:induction false} CandidatesConcat(a: seq<SessionTemplate>, b: seq<SessionTemplate>)
    ensures Candidates(a + b) == Candidates(a) + Candidates(b)
    decreases |b|
  {
    if b != [] {
      var b' := b[..|b| - 1];
      assert (a + b)[..|a + b| - 1] == a + b';
      CandidatesConcat(a, b');
    } else {
      assert a + b == a;
    }
  }

  lemma {:induction false} FirstConfirmedConcat(a: seq<string>, b: seq<string>, probe: ImageProbe)
    ensures FirstConfirmed(a + b, probe) == if FirstConfirmed(a, probe).Some? then FirstConfirmed(a, probe) else FirstConfirmed(b, probe)
  {
    if a != [] {
      assert (a + b)[0] == a[0] && (a + b)[1..] == a[1..] + b;
      FirstConfirmedConcat(a[1..], b, probe);
    } else {
      assert a + b == b;
    }
  }

  /** The candidates of a boot-set list around one boot set with a path. */
  lemma BootSetCandidatesAround(a: seq<BootSet>, b: BootSet, c: seq<BootSet>)
    requires b.path.Some?
    ensures BootSetCandidates(a + [b] + c) ==
      BootSetCandidates(a) + [ImageIdFromPath(b.path.value)] + BootSetCandidates(c)
  {
    BootSetCandidatesConcat(a + [b], c);
    BootSetCandidatesConcat(a, [b]);
    BootSetCandidatesOne(b);
  }

  lemma BootSetCandidatesOne(b: BootSet)
    requires b.path.Some?
    ensures BootSetCandidates([b]) == [ImageIdFromPath(b.path.value)]
  {
    assert [b][..0] == [];
  }

  /** The candidates of a template list around one template. */
  lemma CandidatesAround(a: seq<SessionTemplate>, t: SessionTemplate, c: seq<SessionTemplate>)
    ensures Candidates(a + [t] + c) == Candidates(a) + BootSetCandidates(t.bootSets) + Candidates(c)
  {
    CandidatesConcat(a + [t], c);
    CandidatesConcat(a, [t]);
    CandidatesOne(t);
  }

  lemma CandidatesOne(t: SessionTemplate)
    ensures Candidates([t]) == BootSetCandidates(t.bootSets)
  {
    assert [t][..0] == [];
  }

  /** The candidates of a boot-set list split at a boot set with a path. */
  lemma BootSetCandidatesSplit(bootSets: seq<BootSet>, j: int) returns (rest: seq<string>)
    requires 0 <= j < |bootSets| && bootSets[j].path.Some?
    ensures BootSetCandidates(bootSets) ==
      BootSetCandidates(bootSets[..j]) + [ImageIdFromPath(bootSets[j].path.value)] + rest
    ensures BootSetCandidates(bootSets[..j]) + [ImageIdFromPath(bootSets[j].path.value)] <= BootSetCandidates(bootSets)
  {
    assert bootSets == bootSets[..j] + [bootSets[j]] + bootSets[j + 1..];
    BootSetCandidatesAround(bootSets[..j], bootSets[j], bootSets[j + 1..]);
    rest := BootSetCandidates(bootSets[j + 1..]);
    PrefixOfConcat(BootSetCandidates(bootSets[..j]) + [ImageIdFromPath(bootSets[j].path.value)], rest);
  }

  /** The candidates of a template list split at template `i`. */
  lemma CandidatesSplit(targets: seq<SessionTemplate>, i: int) returns (rest: seq<string>)
    requires 0 <= i < |targets|
    ensures Candidates(targets) == Candidates(targets[..i]) + BootSetCandidates(targets[i].bootSets) + rest
  {
    assert targets == targets[..i] + [targets[i]] + targets[i + 1..];
    CandidatesAround(targets[..i], targets[i], targets[i + 1..]);
    rest := Candidates(targets[i + 1..]);
  }

  lemma PrefixOfConcat(a: seq<string>, b: seq<string>)
    ensures a <= a + b
  {
    assert (a + b)[..|a|] == a;
  }

  lemma PrefixInside(a: seq<string>, b: seq<string>, c: seq<string>, d: seq<string>)
    requires b <= c
    ensures a + b <= a + c + d
  {
    assert (a + c + d)[..|a + b|] == a + c[..|b|];
  }

  /** Candidates that all fail the probe do not change the first confirmed one. */
  lemma FirstConfirmedAfterFailures(before: seq<string>, after: seq<string>, probe: ImageProbe)
    requires forall k :: 0 <= k < |before| ==> !probe(before[k])
    ensures FirstConfirmed(before + after, probe) == FirstConfirmed(after, probe)
  {
    FirstConfirmedConcat(before, after, probe);
  }

  /** A confirmed candidate after candidates that all fail is the first confirmed one. */
  lemma FirstConfirmedAt(before: seq<string>, id: string, rest: seq<string>, probe: ImageProbe)
    requires forall k :: 0 <= k < |before| ==> !probe(before[k])
    requires probe(id)
    ensures FirstConfirmed(before + [id] + rest, probe) == Some(id)
  {
    var after := [id] + rest;
    assert after[0] == id;
    assert before + [id] + rest == before + after;
    FirstConfirmedAfterFailures(before, after, probe);
  }

  /** A template whose candidates hold a confirmed one, after candidates that all fail,
      decides the first confirmed candidate. */
  lemma FirstConfirmedWithin(before: seq<string>, mid: seq<string>, rest: seq<string>, probe: ImageProbe)
    requires forall k :: 0 <= k < |before| ==> !probe(before[k])
    requires FirstConfirmed(mid, probe).Some?
    ensures FirstConfirmed(before + mid + rest, probe) == FirstConfirmed(mid, probe)
  {
    assert before + mid + rest == before + (mid + rest);
    FirstConfirmedAfterFailures(before, mid + rest, probe);
    FirstConfirmedConcat(mid, rest, probe);
  }

  /** At an early return inside one template, the ids probed there followed by the id just
      confirmed are a prefix of its candidates, and that id is its first confirmed one. */
  lemma BootSetEarlyReturn(bootSets: seq<BootSet>, j: int, before: seq<string>, probe: ImageProbe)
    requires 0 <= j < |bootSets| && bootSets[j].path.Some?
    requires before == BootSetCandidates(bootSets[..j])
    requires forall k :: 0 <= k < |before| ==> !probe(before[k])
    requires probe(ImageIdFromPath(bootSets[j].path.value))
    ensures FirstConfirmed(BootSetCandidates(bootSets), probe) == Some(ImageIdFromPath(bootSets[j].path.value))
  {
    var id := ImageIdFromPath(bootSets[j].path.value);
    var rest := BootSetCandidatesSplit(bootSets, j);
    FirstConfirmedAt(before, id, rest, probe);
  }

  /** At an early return after template `i`, everything probed so far is a prefix of the
      whole candidate list, and the result is the first confirmed candidate of template `i`. */
  lemma TemplateEarlyReturn(targets: seq<SessionTemplate>, i: int, before: seq<string>, here: seq<string>, probe: ImageProbe)
    requires 0 <= i < |targets|
    requires before == Candidates(targets[..i])
    requires forall k :: 0 <= k < |before| ==> !probe(before[k])
    requires here <= BootSetCandidates(targets[i].bootSets)
    requires FirstConfirmed(BootSetCandidates(targets[i].bootSets), probe).Some?
    ensures before + here <= Candidates(targets)
    ensures FirstConfirmed(Candidates(targets), probe) == FirstConfirmed(BootSetCandidates(targets[i].bootSets), probe)
  {
    var mid := BootSetCandidates(targets[i].bootSets);
    var rest := CandidatesSplit(targets, i);
    PrefixInside(before, here, mid, rest);
    FirstConfirmedWithin(before, mid, rest, probe);
  }

  // ---------------------------------------------------------------------------------
  // Properties of the search result

  /** The candidate ids are exactly the trimmed paths of the boot sets that have one. */
  lemma {:induction false} BootSetCandidatesMembers(bootSets: seq<BootSet>, id: string)
    ensures id in BootSetCandidates(bootSets) <==>
      exists b :: b in bootSets && b.path.Some? && id == ImageIdFromPath(b.path.value)
  {
    if bootSets != [] {
      var init := bootSets[..|bootSets| - 1];
      BootSetCandidatesMembers(init, id);
      assert bootSets == init + [bootSets[|bootSets| - 1]];
    }
  }

  lemma {:induction false} CandidatesMembers(templates: seq<SessionTemplate>, id: string)
    ensures id in Candidates(templates) <==>
      exists t, b :: t in templates && b in t.bootSets && b.path.Some? && id == ImageIdFromPath(b.path.value)
  {
    if templates != [] {
      var init := templates[..|templates| - 1];
      var last := templates[|templates| - 1];
      CandidatesMembers(init, id);
      BootSetCandidatesMembers(last.bootSets, id);
      assert templates == init + [last];
    }
  }

  /** A returned id was confirmed by the probe and comes from a boot set `path` of a
      template that references the configuration exactly. */
  lemma ResolvedImageIdOrigin(templates: seq<SessionTemplate>, name: string, probe: ImageProbe)
    requires ResolvedImageId(templates, name, probe).Some?
    ensures var id := ResolvedImageId(templates, name, probe).value;
      && probe(id)
      && exists t, b :: && t in templates && t.cfsConfiguration == name
                        && b in t.bootSets && b.path.Some? && id == ImageIdFromPath(b.path.value)
  {
    var id := ResolvedImageId(templates, name, probe).value;
    var targets := TargetTemplates(templates, name);
    CandidatesMembers(targets, id);
    var t, b :| t in targets && b in t.bootSets && b.path.Some? && id == ImageIdFromPath(b.path.value);
    TargetTemplatesMembers(templates, name, t);
  }

  /** Nothing is returned exactly when no boot set path of a matching template yields a
      confirmed id; in particular an empty template list yields nothing. */
  lemma ResolvedImageIdNone(templates: seq<SessionTemplate>, name: string, probe: ImageProbe)
    ensures ResolvedImageId(templates, name, probe).None? <==>
      forall t, b :: t in templates && t.cfsConfiguration == name && b in t.bootSets && b.path.Some?
        ==> !probe(ImageIdFromPath(b.path.value))
  {
    var targets := TargetTemplates(templates, name);
    var cands := Candidates(targets);
    if ResolvedImageId(templates, name, probe).None? {
      forall t, b | t in templates && t.cfsConfiguration == name && b in t.bootSets && b.path.Some?
        ensures !probe(ImageIdFromPath(b.path.value))
      {
        TargetTemplatesMembers(templates, name, t);
        CandidatesMembers(targets, ImageIdFromPath(b.path.value));
      }
    } else {
      ResolvedImageIdOrigin(templates, name, probe);
    }
  }

  /** The result is the first confirmed candidate in template order, then boot-set order:
      every candidate before it fails the probe. */
  lemma {:induction false} FirstConfirmedIsFirst(candidates: seq<string>, probe: ImageProbe) returns (k: nat)
    requires FirstConfirmed(candidates, probe).Some?
    ensures k < |candidates| && candidates[k] == FirstConfirmed(candidates, probe).value
    ensures forall j :: 0 <= j < k ==> !probe(candidates[j])
  {
    if probe(candidates[0]) {
      k := 0;
    } else {
      var k' := FirstConfirmedIsFirst(candidates[1..], probe);
      k := k' + 1;
    }
  }

  /** The manifest suffix appended to an id that does not start with the storage prefix
      still does not start with it, unless the id is the prefix without its slash. */
  lemma ManifestPathKeepsPrefixOff(x: string)
    requires !StartsWith(x, BootImagesPrefix) && x != "s3://boot-images"
    ensures !StartsWith(x + ManifestSuffix, BootImagesPrefix)
  {
    var p, y := BootImagesPrefix, x + ManifestSuffix;
    if |x| >= |p| {
      assert y[..|p|] == x[..|p|];
    } else if x != p[..|x|] {
      var m :| 0 <= m < |x| && x[m] != p[m];
      assert y[m] == x[m];
    } else {
      var n := |x|;
      assert y[n] == '/';
      if n == 3 || n == 4 {
        assert y[n + 1] == 'm' && p[n + 1] != 'm';
      } else {
        assert n != 16;
        assert p[n] != '/';
      }
    }
  }

  /** `s3://boot-images/X/manifest.json` yields `X` when `X` does not end with the manifest
      suffix, does not start with the storage prefix, and is not the prefix without its
      trailing slash. */
  lemma ImageIdFromStoragePath(x: string)
    requires !StartsWith(x, BootImagesPrefix) && !EndsWith(x, ManifestSuffix)
    requires x != "s3://boot-images"
    ensures ImageIdFromPath(BootImagesPrefix + x + ManifestSuffix) == x
  {
    ManifestPathKeepsPrefixOff(x);
    TrimMatchesOfWrapped(BootImagesPrefix, x, ManifestSuffix);
  }

  /** Without the last condition the round trip fails: the prefix without its slash is
      trimmed together with the storage prefix, and the manifest suffix loses its slash. */
  lemma ImageIdFromStoragePathException()
    ensures ImageIdFromPath(BootImagesPrefix + "s3://boot-images" + ManifestSuffix) == "manifest.json"
  {
    var p, s := BootImagesPrefix, ManifestSuffix;
    var path := p + "s3://boot-images" + s;
    assert path == Repeat(p, 2) + "manifest.json";
    assert !StartsWith("manifest.json", p);
    TrimStartMatchesOf(p, 2, "manifest.json");
    assert !EndsWith("manifest.json", s);
  }
}
