/** The label filter of `get_hsm_groups` (src/shasta/hsm.rs). The HTTP exchange is an
    input: the response status, the already-decoded body, and the response text. */
module Hsm {
  import opened Wrappers
  import opened Strings
  import opened Seqs

  /** An HSM group as the directory returns it; only `groupLabel` (the JSON `label`) is inspected. */
  datatype HsmGroup = HsmGroup(groupLabel: string, description: string, members: seq<string>)

  /** A well-formed JSON body: an array of groups whose labels are strings, or any other
      JSON value (a non-array, or an array holding a group without a string label). */
  datatype GroupsBody = Groups(groups: seq<HsmGroup>) | OtherJson

  /** The answer to `GET {base}/smd/hsm/v2/groups`: the status code, the body parsed as
      JSON (`Err` only when the text is not well-formed JSON), and the body as text. */
  datatype GroupsResponse = GroupsResponse(status: int, body: Result<GroupsBody>, text: string)

  /** `StatusCode::is_success`: a 2xx status. */
  predicate IsSuccess(status: int)
  {
    200 <= status < 300
  }

  /** The groups whose label contains `name`, in the directory's order. */
  function GroupsWithLabel(groups: seq<HsmGroup>, name: string): seq<HsmGroup>
  {
    if groups == [] then []
    else
      var last := groups[|groups| - 1];
      GroupsWithLabel(groups[..|groups| - 1], name) + (if Contains(last.groupLabel, name) then [last] else [])
  }

  /** `get_hsm_groups` after the request was sent: a non-success status gives the
      response text as the error, and a body that is not JSON its parse error; otherwise,
      with a name, every group whose label contains it, and without a name nothing at all,
      whatever the JSON holds. With a name, a body that is not an array of groups with
      string labels makes the code panic. */
  method GetHsmGroups(response: GroupsResponse, hsmGroupName: Option<string>) returns (r: Result<seq<HsmGroup>>)
    requires IsSuccess(response.status) && response.body.Ok? && hsmGroupName.Some? ==> response.body.value.Groups?
    ensures !IsSuccess(response.status) ==> r == Err(response.text)
    ensures IsSuccess(response.status) && response.body.Err? ==> r == Err(response.body.error)
    ensures IsSuccess(response.status) && response.body.Ok? && hsmGroupName.None? ==> r == Ok([])
    ensures IsSuccess(response.status) && response.body.Ok? && hsmGroupName.Some? ==>
      r == Ok(GroupsWithLabel(response.body.value.groups, hsmGroupName.value))
  {
    var hsmGroups: seq<HsmGroup> := [];
    if !IsSuccess(response.status) {
      return Err(response.text);
    }
    if response.body.Err? {
      return Err(response.body.error);
    }
    var jsonResponse := response.body.value;
    if hsmGroupName.Some? {
      var groups := jsonResponse.groups;
      for i := 0 to |groups|
        invariant hsmGroups == GroupsWithLabel(groups[..i], hsmGroupName.value)
      {
        assert groups[..i + 1][..i] == groups[..i];
        if Contains(groups[i].groupLabel, hsmGroupName.value) {
          hsmGroups := hsmGroups + [groups[i]];
        }
      }
      assert groups[..|groups|] == groups;
    }
    r := Ok(hsmGroups);
  }

  /** Every returned group's label contains the name, and every group whose label
      contains it is returned. */
  lemma {:induction false} GroupsWithLabelMembers(groups: seq<HsmGroup>, name: string, g: HsmGroup)
    ensures g in GroupsWithLabel(groups, name) <==> g in groups && Contains(g.groupLabel, name)
  {
    if groups != [] {
      var init := groups[..|groups| - 1];
      GroupsWithLabelMembers(init, name, g);
      assert groups == init + [groups[|groups| - 1]];
    }
  }

  /** The filtered list is an order-preserving subsequence of the directory's list: each
      returned group is an unchanged copy of an input group, and `idx` says which. */
  lemma {:induction false} GroupsWithLabelEmbeds(groups: seq<HsmGroup>, name: string) returns (idx: seq<int>)
    ensures Embeds(GroupsWithLabel(groups, name), groups, idx)
  {
    if groups == [] {
      idx := [];
    } else {
      var init, last := groups[..|groups| - 1], groups[|groups| - 1];
      var idx' := GroupsWithLabelEmbeds(init, name);
      EmbedsSnoc(GroupsWithLabel(init, name), init, idx', last);
      assert init + [last] == groups;
      idx := if Contains(last.groupLabel, name) then idx' + [|init|] else idx';
    }
  }

  lemma GroupsWithLabelIsSubsequence(groups: seq<HsmGroup>, name: string)
    ensures IsSubsequence(GroupsWithLabel(groups, name), groups)
  {
    var idx := GroupsWithLabelEmbeds(groups, name);
  }

  /** Every group's label contains the empty name, so an empty name keeps the whole list. */
  lemma {:induction false} GroupsWithEmptyLabel(groups: seq<HsmGroup>)
    ensures GroupsWithLabel(groups, "") == groups
  {
    if groups != [] {
      var init, last := groups[..|groups| - 1], groups[|groups| - 1];
      GroupsWithEmptyLabel(init);
      assert OccursAt(last.groupLabel, "", 0);
      assert init + [last] == groups;
    }
  }
}
