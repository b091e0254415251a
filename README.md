# manta node-update core, modelled in Dafny

This project models the decision logic of five commands and helpers of `manta`, the
command-line tool for Shasta/CSM clusters:

- `update node`: the run that moves nodes to the boot image of a CFS configuration and
  reboots them, in `update_node.dfy`.
- The boot image resolver that looks up a configuration through its BOS session
  templates, in `bos_templates.dfy`.
- The label filter of the HSM group listing, in `hsm.dfy`.
- The tenant-role check of `config unset hsm`, in `config_unset_hsm.dfy`.
- The output dispatch and layer view of `get configuration`, in `get_configuration.dfy`.

Every backend answer the code acts on is an input value or an oracle function: the
xname validation and the CFS, BSS and IMS reads of `update node`, the operator's answer
to the reboot prompt, the IMS image probe, the HSM response, the BOS template list and
the gitea commit lookup. The
answers to the writes (the BSS patch, the CFS desired configuration, the CAPMC power-off
and power-on) are not acted on and are not modelled. The calls recorded in order are
these:

- the backend calls and the prompt of `update node`, as a trace of events;
- the image ids the resolver probes (`probed`);
- the commits `get configuration` looks up in gitea (`lookups`);
- the file written by `config unset hsm` (`written`).

The HSM listing and the template registry's `get_all` are not recorded; their answers are
inputs. The properties are about which calls and which writes a run makes, in what order,
and what the commands compute from the answers.

Shared modules:

- `wrappers.dfy`: `Option` and `Result`.
- `process.dfy`: how a command ends: `Exit0`, `Exit1` (the two `std::process::exit`
  codes), or `Done` (it returns normally).
- `seqs.dfy`: order-preserving subsequences, stated with an index embedding.
- `strings.dfy`: `starts_with`, `ends_with` and `contains`, plus Rust's
  `trim_start_matches` and `trim_end_matches` with a string pattern. These trims remove
  the pattern again and again, and an empty pattern leaves the string unchanged.

In four places one might expect `update node` to behave otherwise than its code does.
The model follows the code:

- One might expect the desired configuration to be applied at once only when no reboot
  follows. The code always sends the enable flag as the literal `true`
  (update_node.rs:196).
- One might expect the desired configuration to be updated whenever one is given. The
  code updates it only inside the restart branch (update_node.rs:139-238). A run that
  needs no restart writes nothing at all.
- One might expect the run to stop when power-off fails. The code issues power-on after
  power-off whatever power-off answered (update_node.rs:209-232).
- One might expect the nodes to move to the image id the boot configuration resolved to.
  The code moves them to the id of the first record in the image registry's answer
  (update_node.rs:101-104).

The trim chain `s3://boot-images/X/manifest.json` gives back `X` when `X` neither starts
with `s3://boot-images/` nor ends with `/manifest.json`, with one exception: `X =
"s3://boot-images"`. For that `X` the start trim removes two copies of the prefix, because
the second copy is formed with the first character of `/manifest.json`. The path then yields
`manifest.json`. `BosTemplates.ImageIdFromStoragePath` states the round trip with this
exception excluded, and `BosTemplates.ImageIdFromStoragePathException` proves the
exception. This is how `trim_start_matches` behaves, not a defect of the code.

The search of `get_image_id_from_bos_sessiontemplate_list` is two nested loops. It is
modelled as one method per loop: `GetImageIdFromBosSessionTemplateList` walks the
templates, and `ProbeBootSets` walks the boot sets of one template. The early return of
the inner loop ends the outer loop too.

## Model

| member | source | states |
|---|---|---|
| UpdateNode.Exec | src/cli/commands/update_node.rs:11-239 | validation is the first call exactly when a group is given, and a failed validation ends the run with exit 1 after that one call; a missing or empty runtime configuration ends it with exit 1 after the lookup; exit 1 exactly when validation fails, the runtime configuration is missing, or a given boot configuration resolves to no image or to no image record; exit 0 exactly when a restart is needed and the operator declines; the prompt is in the trace exactly when a restart is needed; after the first write there are only writes and no prompt; there is a write exactly when a restart is needed and confirmed, and then the writes are the patch, the desired configuration if given, power-off and power-on |
| UpdateNode.Prepare | src/cli/commands/update_node.rs:21-137 | the validation, lookup and resolution stage makes only reads and never prompts; it stops exactly in the three exit-1 cases; the restart flag is set exactly when a boot configuration was given, it resolved, and the nodes' current image differs from the first image record's id; when it is set, the stage hands on that id and the first boot-parameter record |
| UpdateNode.RestartNodes | src/cli/commands/update_node.rs:154-237 | the confirmed restart issues, in order: the boot parameters patched to the new image id; the desired configuration with flag `true`, only when a runtime configuration is given; a forced power-off of the node list; a power-on of the same node list with the same reason. All of them are writes |
| UpdateNode.ReadsThenWrites | src/cli/commands/update_node.rs:139-238 | a trace lemma used by `Exec`'s contract for the confirmed branch: a trace of reads followed by writes has exactly those writes, and no read or prompt follows a write |
| UpdateNode.WritesOfReads | src/cli/commands/update_node.rs:21-137 | a trace lemma used by `Exec`'s contract for the read-only stage: a trace without writes has no writes |
| UpdateNode.WritesOfWrites | src/cli/commands/update_node.rs:154-237 | a trace lemma used by `Exec`'s contract for the writes of the restart: a trace of writes is its own write list |
| UpdateNode.WritesConcat | src/cli/commands/update_node.rs:139-238 | a trace lemma about the write filter, used by `Exec`'s contract: the writes of two traces in sequence are the writes of the first followed by those of the second |
| BosTemplates.GetImageIdFromBosSessionTemplateList | src/common/bos_sessiontemplate_utils.rs:29-99 | the result is the first confirmed candidate of the matching templates; the ids probed are a prefix of the candidate list, all of it when nothing is found; a found id is the last one probed, and every id probed before the last failed the probe |
| BosTemplates.ProbeBootSets | src/common/bos_sessiontemplate_utils.rs:57-95 | over one template's boot sets: the result is the first confirmed candidate; the probes are a prefix of the candidates, all of them when none is confirmed; a found id is the last one probed, and every earlier probe failed |
| BosTemplates.GetImageIdRelatedToCfsConfiguration | src/common/bos_sessiontemplate_utils.rs:4-27 | the wrapper returns exactly what the search returns on the full template list |
| BosTemplates.TargetTemplatesMembers | src/common/bos_sessiontemplate_utils.rs:37-47 | a template is searched exactly when it is in the list and its configuration equals the name, not merely contains it |
| BosTemplates.ImageIdFromPath | src/common/bos_sessiontemplate_utils.rs:62-67 | the candidate id never starts with `s3://boot-images/` and never ends with `/manifest.json` |
| BosTemplates.ImageIdFromStoragePath | src/common/bos_sessiontemplate_utils.rs:62-67 | `s3://boot-images/X/manifest.json` yields `X` when `X` does not start with the prefix, does not end with the suffix, and is not `s3://boot-images` |
| BosTemplates.ImageIdFromStoragePathException | src/common/bos_sessiontemplate_utils.rs:62-67 | `s3://boot-images/s3://boot-images/manifest.json` yields `manifest.json`, so the round trip needs the last condition |
| BosTemplates.BootSetCandidatesMembers | src/common/bos_sessiontemplate_utils.rs:57-67 | the candidates of a boot-set list are exactly the trimmed paths of the boot sets that have a `path`; boot sets without one give none |
| BosTemplates.CandidatesMembers | src/common/bos_sessiontemplate_utils.rs:49-67 | the candidates of a template list are exactly the trimmed boot-set paths of its templates |
| BosTemplates.FirstConfirmed | src/common/bos_sessiontemplate_utils.rs:74-93 | a found id is a candidate and passes the probe; nothing is found exactly when every candidate fails the probe |
| BosTemplates.FirstConfirmedIsFirst | src/common/bos_sessiontemplate_utils.rs:49-93 | the found id sits at some position of the candidate list, and every candidate before that position fails the probe |
| BosTemplates.ResolvedImageIdOrigin | src/common/bos_sessiontemplate_utils.rs:37-93 | a returned id passes the probe and is the trimmed path of a boot set of a template whose configuration equals the name |
| BosTemplates.ResolvedImageIdNone | src/common/bos_sessiontemplate_utils.rs:49-98 | nothing is returned exactly when no boot-set path of a matching template yields a confirmed id; so an empty template list gives nothing |
| BosTemplates.BootSetEarlyReturn | src/common/bos_sessiontemplate_utils.rs:74-93 | a confirmed id after ids that all failed is the first confirmed candidate of its template |
| BosTemplates.TemplateEarlyReturn | src/common/bos_sessiontemplate_utils.rs:49-96 | at an early return, everything probed is a prefix of all candidates, and the template's first confirmed id is the first of all |
| BosTemplates.CandidatesConcat | src/common/bos_sessiontemplate_utils.rs:49-67 | the candidates of two template lists in sequence are the candidates of the first followed by those of the second |
| BosTemplates.FirstConfirmedConcat | src/common/bos_sessiontemplate_utils.rs:49-93 | searching two candidate lists in sequence finds the first list's result if it has one, and otherwise the second list's result |
| Strings.TrimStartMatches | src/common/bos_sessiontemplate_utils.rs:65 | the result is a suffix of the input that no longer starts with a non-empty pattern |
| Strings.TrimEndMatches | src/common/bos_sessiontemplate_utils.rs:66 | the result is a prefix of the input that no longer ends with a non-empty pattern |
| Strings.TrimMatches | src/common/bos_sessiontemplate_utils.rs:62-67 | after both trims, the result starts with neither the non-empty prefix nor ends with the non-empty suffix |
| Strings.TrimStartMatchesStrips | src/common/bos_sessiontemplate_utils.rs:65 | what the start trim removed is a whole number of copies of the pattern |
| Strings.TrimStartMatchesOf | src/common/bos_sessiontemplate_utils.rs:65 | removing any number of leading copies of a non-empty pattern from a string that does not start with it gives that string back |
| Strings.TrimEndMatchesStrips | src/common/bos_sessiontemplate_utils.rs:66 | what the end trim removed is a whole number of copies of the pattern |
| Strings.TrimEndMatchesOf | src/common/bos_sessiontemplate_utils.rs:66 | removing any number of trailing copies of a non-empty pattern from a string that does not end with it gives that string back |
| Strings.TrimMatchesOfWrapped | src/cli/commands/get_configuration.rs:54-57 | one prefix and one suffix wrapped around a string are both trimmed off again, provided neither trim can eat into the string |
| Hsm.GetHsmGroups | src/shasta/hsm.rs:38-58 | a non-success status returns the response text as the error; a body that is not well-formed JSON returns its parse error; with no name the result is an empty list, whatever the JSON holds; with a name it is the groups whose label contains the name, in order |
| Hsm.GroupsWithLabelMembers | src/shasta/hsm.rs:46-55 | a group is returned exactly when it is an input group whose label contains the name as a substring |
| Hsm.GroupsWithLabelEmbeds | src/shasta/hsm.rs:46-55 | the returned groups are unchanged copies of input groups, in input order, with a strictly increasing index map saying which |
| Hsm.GroupsWithLabelIsSubsequence | src/shasta/hsm.rs:46-55 | the result is an order-preserving subsequence of the input |
| Hsm.GroupsWithEmptyLabel | src/shasta/hsm.rs:48-53 | every label contains the empty name, so an empty name keeps the whole list |
| ConfigUnsetHsm.UnsetHsmGroup | src/cli/commands/config_unset_hsm.rs:34-69 | the `retain` loop keeps exactly the tenant roles; exit 1 exactly when a tenant role remains after the filter, and then nothing is written; otherwise the document is written back once, without `hsm_group`, with every other key and its value unchanged |
| ConfigUnsetHsm.TenantRolesMembers | src/cli/commands/config_unset_hsm.rs:44-45 | after `retain` neither `offline_access` nor `uma_authorization` is left, and every other role is |
| ConfigUnsetHsm.TenantRolesEmbeds | src/cli/commands/config_unset_hsm.rs:44-45 | the kept roles are roles of the input, in input order, with a strictly increasing index map saying which |
| ConfigUnsetHsm.TenantRolesIsSubsequence | src/cli/commands/config_unset_hsm.rs:44-45 | `retain` keeps an order-preserving subsequence of the roles |
| ConfigUnsetHsm.TenantRolesKeepsTenantList | src/cli/commands/config_unset_hsm.rs:44-45 | a role list with no default role is kept whole |
| GetConfiguration.GetConfiguration | src/cli/commands/get_configuration.rs:26-75 | an empty list prints only the not-found message; JSON output exactly when the list is non-empty and the option is `json`; the single-table view exactly for one configuration without JSON, the multi-table view exactly for several; the JSON and multi-table views print the list unchanged; lookups happen only in the single view, one per layer; the single view keeps the configuration's name and `last_updated` and maps each layer as `BuildLayers` does |
| GetConfiguration.BuildLayers | src/cli/commands/get_configuration.rs:40-66 | one built layer and one gitea lookup per source layer, in order; each built layer keeps the name and commit, shows the trimmed clone URL, and takes the author and date from the lookup of its own clone URL and commit |
| GetConfiguration.RepoPath | src/cli/commands/get_configuration.rs:54-57 | the shown path starts with neither the gitea host nor ends with `.git` |
| GetConfiguration.RepoPathOfCloneUrl | src/cli/commands/get_configuration.rs:54-57 | `https://api.cmn.alps.cscs.ch/R.git` shows as `/R` when `R` does not end with `.git` |

## Left out

- HTTP, TLS and proxies: building the HTTP clients, the `SOCKS5` proxy variable, the TLS
  settings and sending requests (src/shasta/hsm.rs:1-36) are not modelled. The HSM
  listing starts from the response's status, decoded body and text. Transport errors
  (the `?` on `send` and `text`) are not modelled.
- `get_component_status` (src/shasta/hsm.rs:62-92) is a plain HTTP wrapper and is not
  modelled.
- Library code the repository calls is not part of this model. The following are
  oracles or input fields: `validate_xnames`, the CFS, BSS, IMS and CAPMC clients,
  `get_image_id_from_cfs_configuration_name`, and the gitea commit lookup. `BootParameters`
  keeps only its hosts and image id; the kernel-parameter rewriting behind
  `set_boot_image` is not modelled.
- The responses to the patch, desired-configuration and power calls are not modelled.
  The code does not act on them. It logs the patch and power responses and drops the
  desired-configuration result without logging it.
- The reboot prompt is the input `confirmed`. An error from the prompt (an `unwrap`)
  is not modelled.
- Async execution, logging and the printed messages are not modelled. The printed
  result of `get configuration` is the `Output` value it renders; table layout and JSON
  serialisation are not modelled.
- JWT decoding, TOML parsing and printing, the XDG path and file access are not
  modelled. The document is a map from top-level key to value, and writing it back is the
  one element of `written`. Key order and formatting of the TOML file are not modelled.
- src/cli/commands.rs only declares modules and is not modelled.
- The `new_boot_image_id_opt` parameter of `exec` in update_node.rs is shadowed before any
  use, so `Args` does not have it.
- UpdateNode.Exec: requires a runtime configuration name. Without one, the lookup runs
  with no name. If that lookup fails or finds nothing, the code panics at line 54. If it
  finds configurations, the code panics at line 61 only when info logging is on: the
  `unwrap` there is an argument of `log::info!`. With info logging off the run goes on,
  and a confirmed restart patches and power-cycles the nodes without a desired-configuration
  write. That run is not modelled.
- UpdateNode.Exec: requires a non-empty boot-parameter list whenever the run reaches the
  BSS read. The code takes its first element with `unwrap` (lines 119-122). An error
  answer from BSS, which also panics, is not modelled.
- The image registry answer is a list of record ids. Its error case (the `unwrap` at
  update_node.rs:91) and a record without a string `id` are not modelled.
- BOS templates are typed records. In the code a field of a template panics only when the
  search reaches it:
  - a missing or non-string `/cfs/configuration` panics when the lazy filter reaches that
    template, that is, before a confirmed id is returned (bos_sessiontemplate_utils.rs:37-47,
    92);
  - a missing string `name`, a missing `boot_sets` object, or a non-string `path` panics
    only in a template whose configuration matches (lines 55, 57, 64).

  The types give every field a value, so a field the search never reads holds an arbitrary
  value, and the panics are not modelled. The same typing removes the panics for roles
  that are not strings, for a layer without a
  commit in the single view (GetConfiguration.GetConfiguration requires every layer to
  have one), and for gitea answers without committer name or date.
- Hsm.GetHsmGroups: requires, when a name is given, that the well-formed JSON body is an
  array of groups with string labels. Otherwise the code panics at hsm.rs:46 or 50.
  Without a name any well-formed body gives an empty list, and the model returns that.
- A failed gitea commit lookup panics in the code (the `unwrap` at get_configuration.rs:50).
  The lookup is a total function in the model, so this failure is not modelled.
- An error from the template registry's `get_all` (the `unwrap` at
  bos_sessiontemplate_utils.rs:17) is not modelled. The wrapper takes the template list
  as its input.
- The order of the `boot_sets` object is the order of the `bootSets` sequence. The
  library decides the real iteration order.
