/** Who gets into an app and as which role: the group-path rule. */
module Admission {
  import opened Wrappers
  import opened Text

  datatype LoginGroup = EverySubject | LoginPath(path: string)
  datatype AdminGroup = NoAdmins | AdminPath(path: string)

  datatype AdmissionConfig = AdmissionConfig(boundIssuer: string, loginGroup: LoginGroup, adminGroup: AdminGroup)

  const ADMIN := "admin"
  const USER := "user"

  predicate IsBelow(groupPath: string, group: string) {
    groupPath + "/" <= group
  }

  predicate Holds(groupPath: string, group: string) {
    group == groupPath || IsBelow(groupPath, group)
  }

  predicate IsMemberOf(groupPath: string, groups: seq<string>) {
    exists i :: 0 <= i < |groups| && Holds(groupPath, groups[i])
  }

  /** What construction accepts of the two groups together; each path's own shape is a character rule. */
  predicate IsValid(config: AdmissionConfig) {
    config.loginGroup.LoginPath? && config.adminGroup.AdminPath? ==>
      IsBelow(config.loginGroup.path, config.adminGroup.path)
  }

  function AppRole(groups: seq<string>, config: AdmissionConfig): Option<string> {
    if config.loginGroup.LoginPath? && !IsMemberOf(config.loginGroup.path, groups) then None
    else if config.adminGroup.AdminPath? && IsMemberOf(config.adminGroup.path, groups) then Some(ADMIN)
    else Some(USER)
  }

  lemma {:induction false} PrefixOfJoined(head: seq<string>, tail: seq<string>)
    requires |head| > 0 && |tail| > 0
    ensures Join(head + tail, '/') == Join(head, '/') + "/" + Join(tail, '/')
  {
    var all := head + tail;
    assert all[1..] == head[1..] + tail;
    if |head| > 1 {
      PrefixOfJoined(head[1..], tail);
    } else {
      assert all[1..] == tail;
    }
  }

  /** Membership is by path segment: a group counts exactly when the path's segments begin its own. */
  lemma HoldsBySegment(groupPath: string, group: string)
    ensures Holds(groupPath, group) <==> Split(groupPath, '/') <= Split(group, '/')
  {
    var path, segments := Split(groupPath, '/'), Split(group, '/');
    if IsBelow(groupPath, group) {
      var rest := group[|groupPath| + 1..];
      assert group == groupPath + ['/'] + rest;
      SplitAcross(groupPath, rest, '/');
    }
    if path <= segments {
      JoinUndoesSplit(groupPath, '/');
      JoinUndoesSplit(group, '/');
      var rest := segments[|path|..];
      assert segments == path + rest;
      if rest != [] {
        PrefixOfJoined(path, rest);
        assert group == groupPath + "/" + Join(rest, '/');
      } else {
        assert segments == path;
      }
    }
  }

  /** In a valid configuration every admin is a member, so the admin role needs the admin group alone. */
  lemma AdminExactly(groups: seq<string>, config: AdmissionConfig)
    requires IsValid(config)
    ensures AppRole(groups, config) == Some(ADMIN) <==>
            config.adminGroup.AdminPath? && IsMemberOf(config.adminGroup.path, groups)
  {
    if config.adminGroup.AdminPath? && config.loginGroup.LoginPath? && IsMemberOf(config.adminGroup.path, groups) {
      var i :| 0 <= i < |groups| && Holds(config.adminGroup.path, groups[i]);
      var login, admin := config.loginGroup.path, config.adminGroup.path;
      assert login + "/" <= admin <= groups[i];
      assert Holds(login, groups[i]);
    }
  }

  /** Some group's segments begin with the path's: it is the path, or lies below it. */
  predicate BelongsTo(path: string, groups: seq<string>) {
    exists i :: 0 <= i < |groups| && Split(path, '/') <= Split(groups[i], '/')
  }

  lemma MembershipBySegment(path: string, groups: seq<string>)
    ensures IsMemberOf(path, groups) <==> BelongsTo(path, groups)
  {
    forall i | 0 <= i < |groups| ensures Holds(path, groups[i]) <==> Split(path, '/') <= Split(groups[i], '/') {
      HoldsBySegment(path, groups[i]);
    }
  }

  /** Nobody outside the login group has a role; of those inside, the admin group's are admins and all others users. */
  lemma RoleExactly(groups: seq<string>, config: AdmissionConfig)
    ensures var isMember := config.loginGroup.LoginPath? ==> BelongsTo(config.loginGroup.path, groups);
            var isAdmin := config.adminGroup.AdminPath? && BelongsTo(config.adminGroup.path, groups);
            && (AppRole(groups, config) == None <==> !isMember)
            && (AppRole(groups, config) == Some("admin") <==> isMember && isAdmin)
            && (AppRole(groups, config) == Some("user") <==> isMember && !isAdmin)
  {
    if config.loginGroup.LoginPath? {
      MembershipBySegment(config.loginGroup.path, groups);
    }
    if config.adminGroup.AdminPath? {
      MembershipBySegment(config.adminGroup.path, groups);
    }
    assert "admin" != "user" by {
      assert |"admin"| != |"user"|;
    }
  }

  /** Where both groups are set, a valid admin group lies strictly below the login group. */
  lemma ValidExactly(config: AdmissionConfig)
    requires config.loginGroup.LoginPath? && config.adminGroup.AdminPath?
    ensures IsValid(config) <==>
            Split(config.loginGroup.path, '/') < Split(config.adminGroup.path, '/')
  {
    var login, admin := config.loginGroup.path, config.adminGroup.path;
    HoldsBySegment(login, admin);
    if Split(login, '/') == Split(admin, '/') {
      JoinUndoesSplit(login, '/');
      JoinUndoesSplit(admin, '/');
    } else if IsBelow(login, admin) {
      assert login + "/" <= admin;
    }
  }
}
