/** The authorization decision of internal/authz/authz.go. */
module Authz {
  import opened Prelude

  /** Identifiers stand for the database's UUIDs; NO_ID stands for the empty string. */
  type UserId = int
  const NO_ID: UserId := 0

  datatype User = User(id: UserId, username: string, role: string)

  /** Any other text is an undefined action or an unknown role. */
  datatype Action = View | Download | Rename | Delete | Share | OtherAction(text: string)
  datatype Role = Editor | Viewer | OtherRole(text: string)

  datatype NodeAcl = NodeAcl(ownerId: UserId, grants: map<UserId, Role>)

  const ROLE_PERMISSIONS: map<Role, set<Action>> := map[
    Editor := {View, Download, Rename},
    Viewer := {View, Download}
  ]

  /** Deny by default: no user, unknown role and undefined action all end in false. */
  predicate Can(u: Option<User>, acl: NodeAcl, action: Action) {
    if u.None? || u.value.id == NO_ID then false
    else if u.value.id == acl.ownerId then action in {View, Download, Rename, Delete, Share}
    else if u.value.id in acl.grants then
      var role := acl.grants[u.value.id];
      role in ROLE_PERMISSIONS && action in ROLE_PERMISSIONS[role]
    else false
  }

  /** Who may do what: owners everything that is defined, editors and viewers look and download,
      editors rename as well, and nobody else anything. */
  lemma MatrixExactly(u: User, acl: NodeAcl, action: Action)
    ensures Can(Some(u), acl, action)
       <==> && u.id != NO_ID && !action.OtherAction?
            && (u.id == acl.ownerId
                || (u.id in acl.grants && acl.grants[u.id] == Editor && action in {View, Download, Rename})
                || (u.id in acl.grants && acl.grants[u.id] == Viewer && action in {View, Download}))
    ensures !Can(None, acl, action)
  {
    if u.id in acl.grants {
      var role := acl.grants[u.id];
      assert role in ROLE_PERMISSIONS <==> role == Editor || role == Viewer;
    }
  }

  /** Sharing and deleting are the owner's alone: no grant, account role or unknown text opens them. */
  lemma OnlyOwnersShareOrDelete(u: Option<User>, acl: NodeAcl, action: Action)
    requires action == Share || action == Delete
    ensures Can(u, acl, action) <==> u.Some? && u.value.id != NO_ID && u.value.id == acl.ownerId
  {
    if u.Some? { MatrixExactly(u.value, acl, action); }
  }
}
