/** `config unset hsm` (src/cli/commands/config_unset_hsm.rs): the tenant-role check and
    the removal of `hsm_group` from the local configuration document. The roles come
    from the token's `/realm_access/roles` claim; the document is the parsed TOML file as a
    map from top-level key to the item's text. */
module ConfigUnsetHsm {
  import opened Process
  import opened Seqs

  const OfflineAccess := "offline_access"
  const UmaAuthorization := "uma_authorization"
  const HsmGroupKey := "hsm_group"

  type Document = map<string, string>

  /** The two roles every Keycloak user has, which say nothing about tenancy. */
  predicate IsDefaultRole(role: string)
  {
    role == OfflineAccess || role == UmaAuthorization
  }

  /** What `retain` leaves of the role list: the roles that are not default ones. */
  function TenantRoles(roles: seq<string>): seq<string>
  {
    if roles == [] then []
    else
      var last := roles[|roles| - 1];
      TenantRoles(roles[..|roles| - 1]) + (if IsDefaultRole(last) then [] else [last])
  }

  /** The command after the token and the file were read: it retains the tenant roles;
      with none left it removes `hsm_group` and writes the document back, otherwise it
      exits with status 1 before writing anything. `written` lists the documents
      written to the file. */
  method UnsetHsmGroup(roles: seq<string>, doc: Document) returns (outcome: Outcome, written: seq<Document>)
    ensures outcome == Exit1 <==> TenantRoles(roles) != []
    ensures outcome == Exit1 ==> written == []
    ensures outcome != Exit1 ==> outcome == Done && |written| == 1
    ensures outcome == Done ==> HsmGroupKey !in written[0]
    ensures outcome == Done ==> written[0].Keys == doc.Keys - {HsmGroupKey}
    ensures outcome == Done ==> forall k :: k in written[0] ==> written[0][k] == doc[k]
  {
    // `retain`: keep, in order, the roles that are not default ones
    var settingsHsmAvailable: seq<string> := [];
    for i := 0 to |roles|
      invariant settingsHsmAvailable == TenantRoles(roles[..i])
    {
      assert roles[..i + 1][..i] == roles[..i];
      if !IsDefaultRole(roles[i]) {
        settingsHsmAvailable := settingsHsmAvailable + [roles[i]];
      }
    }
    assert roles[..|roles|] == roles;
    var doc := doc;
    if settingsHsmAvailable == [] {
      doc := doc - {HsmGroupKey};
    } else {
      return Exit1, [];
    }
    written := [doc];
    outcome := Done;
  }

  /** After `retain` neither default role is left, and every other role is. */
  lemma {:induction false} TenantRolesMembers(roles: seq<string>, role: string)
    ensures role in TenantRoles(roles) <==> role in roles && !IsDefaultRole(role)
  {
    if roles != [] {
      var init := roles[..|roles| - 1];
      TenantRolesMembers(init, role);
      assert roles == init + [roles[|roles| - 1]];
    }
  }

  /** `retain` keeps the other roles in their original order. */
  lemma {:induction false} TenantRolesEmbeds(roles: seq<string>) returns (idx: seq<int>)
    ensures Embeds(TenantRoles(roles), roles, idx)
  {
    if roles == [] {
      idx := [];
    } else {
      var init, last := roles[..|roles| - 1], roles[|roles| - 1];
      var idx' := TenantRolesEmbeds(init);
      EmbedsSnoc(TenantRoles(init), init, idx', last);
      assert init + [last] == roles;
      idx := if IsDefaultRole(last) then idx' else idx' + [|init|];
    }
  }

  lemma TenantRolesIsSubsequence(roles: seq<string>)
    ensures IsSubsequence(TenantRoles(roles), roles)
  {
    var idx := TenantRolesEmbeds(roles);
  }

  /** A role list with no default role is kept whole. */
  lemma {:induction false} TenantRolesKeepsTenantList(roles: seq<string>)
    requires forall k :: 0 <= k < |roles| ==> !IsDefaultRole(roles[k])
    ensures TenantRoles(roles) == roles
  {
    if roles != [] {
      var init := roles[..|roles| - 1];
      TenantRolesKeepsTenantList(init);
      assert init + [roles[|roles| - 1]] == roles;
    }
  }
}
