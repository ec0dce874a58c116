/**
 * The value-level view of seuser's user database: records, the
 * case-insensitive name match the database looks names up with, and the
 * effect of each database operation on the ordered list of records. The
 * database methods in SeuserDb are proved against these functions.
 */
module SeuserRecords {
  import opened Wrappers

  /** The kind tag of a type/attribute/role item; only role items belong in a user record. */
  datatype ItemKind = RoleItem | OtherItem

  /** One item of a user's role list: its kind and its index in the policy. */
  datatype TaItem = TaItem(kind: ItemKind, idx: int)

  /** A record stored in the database: its name and its role items, in list order. */
  datatype UserRec = UserRec(name: string, roles: seq<TaItem>)

  /** A candidate record handed to the database; its name may be missing (a null pointer). */
  datatype UserView = UserView(name: Option<string>, roles: seq<TaItem>)

  /**
   * The parts of an apol policy the database consults: the valid role indices
   * (is_valid_role_idx) and the index of each role name (get_role_idx; names
   * absent from the map have no index).
   */
  datatype ApolPolicy = ApolPolicy(validRoles: set<int>, roleIdx: map<string, int>)

  /** get_role_idx: the role's index, or -1 when the name is not a role of the policy. */
  function RoleIndex(role: string, policy: Option<ApolPolicy>): (idx: int)
    ensures idx >= 0 ==> policy.Some? && role in policy.value.roleIdx && idx == policy.value.roleIdx[role]
    ensures policy.None? || role !in policy.value.roleIdx ==> idx == -1
  {
    if policy.Some? && role in policy.value.roleIdx then policy.value.roleIdx[role] else -1
  }

  /** ASCII lower-casing, as tolower in the C locale. */
  function Lower(c: char): (l: char)
    ensures 'A' <= c <= 'Z' ==> l as int == c as int + 32
    ensures !('A' <= c <= 'Z') ==> l == c
  {
    if 'A' <= c <= 'Z' then (c as int + 32) as char else c
  }

  /** strcasecmp(a, b) == 0: the names have the same length and agree character by character up to case. */
  predicate SameName(a: string, b: string)
    ensures SameName(a, b) ==> |a| == |b|
    ensures a == b ==> SameName(a, b)
  {
    |a| == |b| && forall i :: 0 <= i < |a| ==> Lower(a[i]) == Lower(b[i])
  }

  /** The lower-cased spelling of a name. */
  function Fold(s: string): (f: string)
    ensures |f| == |s|
    ensures forall i :: 0 <= i < |s| ==> f[i] == Lower(s[i])
  {
    if s == [] then [] else [Lower(s[0])] + Fold(s[1..])
  }

  /** Two names match exactly when their lower-cased spellings are equal, so matching is an equivalence. */
  lemma SameNameIsFoldEqual(a: string, b: string)
    ensures SameName(a, b) <==> Fold(a) == Fold(b)
  {
    if Fold(a) == Fold(b) {
      assert |a| == |b|;
      forall i | 0 <= i < |a|
        ensures Lower(a[i]) == Lower(b[i])
      {
        assert Fold(a)[i] == Fold(b)[i];
      }
    }
  }

  /** Some record's name matches. */
  predicate Exists(rs: seq<UserRec>, name: string)
  {
    exists j :: 0 <= j < |rs| && SameName(name, rs[j].name)
  }

  /** The index of the first record whose name matches, or |rs| when none does. */
  function FirstMatch(rs: seq<UserRec>, name: string): (k: nat)
    ensures k <= |rs|
    ensures k < |rs| ==> SameName(name, rs[k].name)
    ensures forall j :: 0 <= j < k ==> !SameName(name, rs[j].name)
    ensures k < |rs| <==> Exists(rs, name)
  {
    if rs == [] then 0
    else if SameName(name, rs[0].name) then 0
    else 1 + FirstMatch(rs[1..], name)
  }

  /** The number of records whose name matches. */
  function MatchCount(rs: seq<UserRec>, name: string): (n: nat)
    ensures n <= |rs|
  {
    if rs == [] then 0
    else (if SameName(name, rs[0].name) then 1 else 0) + MatchCount(rs[1..], name)
  }

  /** A name occurs in the list exactly when it is counted at least once. */
  lemma {:induction false} MatchCountPositive(rs: seq<UserRec>, name: string)
    ensures MatchCount(rs, name) > 0 <==> Exists(rs, name)
  {
    if rs != [] {
      MatchCountPositive(rs[1..], name);
      if Exists(rs[1..], name) {
        var j :| 0 <= j < |rs[1..]| && SameName(name, rs[1..][j].name);
        assert SameName(name, rs[j + 1].name);
      }
      if Exists(rs, name) && !SameName(name, rs[0].name) {
        var j :| 0 <= j < |rs| && SameName(name, rs[j].name);
        assert rs[1..][j - 1] == rs[j];
      }
    }
  }

  /** No two records have matching names. */
  predicate Unique(rs: seq<UserRec>)
  {
    forall i, j :: 0 <= i < j < |rs| ==> !SameName(rs[i].name, rs[j].name)
  }

  /**
   * seuser_remove_user on the list: the first matching record is unlinked and
   * every other record keeps its place in order; with no match the list is unchanged.
   */
  function RemoveFirst(rs: seq<UserRec>, name: string): (r: seq<UserRec>)
    ensures !Exists(rs, name) ==> r == rs
    ensures Exists(rs, name) ==> |r| == |rs| - 1
    ensures forall j :: 0 <= j < FirstMatch(rs, name) && j < |r| ==> r[j] == rs[j]
    ensures forall j :: FirstMatch(rs, name) <= j < |r| ==> r[j] == rs[j + 1]
  {
    var k := FirstMatch(rs, name);
    if k < |rs| then rs[..k] + rs[k + 1..] else rs
  }

  /** Past a head that does not match, a name is present exactly when it is present in the rest. */
  lemma ExistsPastHead(rs: seq<UserRec>, name: string)
    requires rs != [] && !SameName(name, rs[0].name)
    ensures Exists(rs, name) == Exists(rs[1..], name)
  {
    var t := rs[1..];
    if Exists(rs, name) {
      var j :| 0 <= j < |rs| && SameName(name, rs[j].name);
      assert t[j - 1] == rs[j];
    }
    if Exists(t, name) {
      var j :| 0 <= j < |t| && SameName(name, t[j].name);
      assert rs[j + 1] == t[j];
    }
  }

  /** Removal takes away exactly one matching record when there is one. */
  lemma {:induction false} RemoveFirstCount(rs: seq<UserRec>, name: string)
    ensures MatchCount(RemoveFirst(rs, name), name) == MatchCount(rs, name) - (if Exists(rs, name) then 1 else 0)
  {
    if rs != [] {
      var t := rs[1..];
      if SameName(name, rs[0].name) {
        assert RemoveFirst(rs, name) == t;
      } else {
        assert FirstMatch(rs, name) == 1 + FirstMatch(t, name);
        ExistsPastHead(rs, name);
        var r := RemoveFirst(rs, name);
        assert r == [rs[0]] + RemoveFirst(t, name);
        RemoveFirstCount(t, name);
        assert r[1..] == RemoveFirst(t, name);
      }
    }
  }

  /** Removal keeps a list free of matching names free of them. */
  lemma RemoveFirstUnique(rs: seq<UserRec>, name: string)
    requires Unique(rs)
    ensures Unique(RemoveFirst(rs, name))
  {
    var r := RemoveFirst(rs, name);
    var k := FirstMatch(rs, name);
    forall i, j | 0 <= i < j < |r|
      ensures !SameName(r[i].name, r[j].name)
    {
      var i' := if i < k then i else i + 1;
      var j' := if j < k then j else j + 1;
      assert r[i] == rs[i'] && r[j] == rs[j'];
    }
  }

  /** In a list without duplicate names, nothing matches the removed name any more. */
  lemma RemoveFirstLeavesNone(rs: seq<UserRec>, name: string)
    requires Unique(rs)
    ensures !Exists(RemoveFirst(rs, name), name)
  {
    var r := RemoveFirst(rs, name);
    var k := FirstMatch(rs, name);
    if k < |rs| {
      forall j | 0 <= j < |r|
        ensures !SameName(name, r[j].name)
      {
        if j >= k {
          assert r[j] == rs[j + 1];
          assert !SameName(rs[k].name, rs[j + 1].name);
        }
      }
    }
  }

  /**
   * seuser_rename_user on the list: the first matching record takes the new
   * name and keeps its roles and place; every other record is untouched.
   */
  function RenameFirst(rs: seq<UserRec>, oldName: string, newName: string): (r: seq<UserRec>)
    ensures |r| == |rs|
    ensures forall j :: 0 <= j < |rs| ==> r[j].roles == rs[j].roles
    ensures forall j :: 0 <= j < |rs| && j != FirstMatch(rs, oldName) ==> r[j] == rs[j]
    ensures Exists(rs, oldName) ==> r[FirstMatch(rs, oldName)].name == newName
    ensures !Exists(rs, oldName) ==> r == rs
  {
    var k := FirstMatch(rs, oldName);
    if k < |rs| then rs[k := UserRec(newName, rs[k].roles)] else rs
  }

  /**
   * Renaming back undoes a rename: when no record answers to the new name,
   * renaming the record to it and then back to its former spelling restores the list.
   */
  lemma RenameRoundTrip(rs: seq<UserRec>, oldName: string, newName: string)
    requires Exists(rs, oldName) && !Exists(rs, newName)
    ensures RenameFirst(RenameFirst(rs, oldName, newName), newName, rs[FirstMatch(rs, oldName)].name) == rs
  {
    var k := FirstMatch(rs, oldName);
    var r := RenameFirst(rs, oldName, newName);
    assert SameName(newName, r[k].name);
    assert forall j :: 0 <= j < k ==> r[j] == rs[j] && !SameName(newName, r[j].name);
    assert FirstMatch(r, newName) == k;
  }

  /**
   * A rename keeps names distinct when the new name is taken by nobody, or is
   * a respelling of the old one.
   */
  lemma RenameFirstUnique(rs: seq<UserRec>, oldName: string, newName: string)
    requires Unique(rs)
    requires !Exists(rs, newName) || SameName(newName, oldName)
    ensures Unique(RenameFirst(rs, oldName, newName))
  {
    var r := RenameFirst(rs, oldName, newName);
    var k := FirstMatch(rs, oldName);
    forall i, j | 0 <= i < j < |r|
      ensures !SameName(r[i].name, r[j].name)
    {
      if k < |rs| && (i == k || j == k) {
        var other := if i == k then j else i;
        assert r[other] == rs[other];
        if !Exists(rs, newName) {
          assert !SameName(newName, rs[other].name);
        } else {
          assert SameName(oldName, rs[k].name);
          assert !SameName(rs[k].name, rs[other].name) by {
            assert !SameName(rs[i].name, rs[j].name);
          }
        }
      } else {
        assert r[i] == rs[i] && r[j] == rs[j];
      }
    }
  }

  /** The rename does not check the new name: it can leave two records answering to one name. */
  lemma RenameCanDuplicate()
    ensures Unique([UserRec("alice", []), UserRec("bob", [])])
    ensures !Unique(RenameFirst([UserRec("alice", []), UserRec("bob", [])], "bob", "Alice"))
  {
    var rs := [UserRec("alice", []), UserRec("bob", [])];
    assert !SameName("alice", "bob");
    assert !SameName("alice", "Alice") ==> false;
    assert FirstMatch(rs, "bob") == 1 by {
      assert !SameName("bob", "alice");
      assert SameName("bob", "bob");
    }
    var r := RenameFirst(rs, "bob", "Alice");
    assert r[0].name == "alice" && r[1].name == "Alice";
    assert SameName(r[0].name, r[1].name);
  }

  /**
   * The role items of one record, checked in list order: the first item that
   * is not a role item gives -1, the first invalid role index gives 1, and a
   * list that passes gives 0.
   */
  function RolesCode(roles: seq<TaItem>, policy: ApolPolicy): (c: int)
    ensures c == -1 || c == 0 || c == 1
    ensures c == 0 <==> forall i :: 0 <= i < |roles| ==> roles[i].kind == RoleItem && roles[i].idx in policy.validRoles
    ensures c != 0 ==> exists i :: 0 <= i < |roles| && RolesOkBefore(roles, policy, i) && FailsAt(roles, policy, i, c)
  {
    if roles == [] then 0
    else if roles[0].kind != RoleItem then
      assert RolesOkBefore(roles, policy, 0) && FailsAt(roles, policy, 0, -1);
      -1
    else if roles[0].idx !in policy.validRoles then
      assert RolesOkBefore(roles, policy, 0) && FailsAt(roles, policy, 0, 1);
      1
    else
      var c := RolesCode(roles[1..], policy);
      if c != 0 then
        assert exists i :: 0 <= i < |roles| && RolesOkBefore(roles, policy, i) && FailsAt(roles, policy, i, c) by {
          var i :| 0 <= i < |roles[1..]| && RolesOkBefore(roles[1..], policy, i) && FailsAt(roles[1..], policy, i, c);
          assert RolesOkBefore(roles, policy, i + 1) by {
            forall j | 0 <= j < i + 1
              ensures roles[j].kind == RoleItem && roles[j].idx in policy.validRoles
            {
              if j > 0 {
                assert roles[j] == roles[1..][j - 1];
              }
            }
          }
          assert roles[i + 1] == roles[1..][i];
          assert FailsAt(roles, policy, i + 1, c);
        }
        c
      else
        assert forall i :: 1 <= i < |roles| ==> roles[i] == roles[1..][i - 1];
        c
  }

  /** Every item before position i is a valid role item. */
  ghost predicate RolesOkBefore(roles: seq<TaItem>, policy: ApolPolicy, i: nat)
    requires i <= |roles|
  {
    forall j :: 0 <= j < i ==> roles[j].kind == RoleItem && roles[j].idx in policy.validRoles
  }

  /** The item at position i fails with code c: -1 for a non-role item, 1 for an invalid role. */
  ghost predicate FailsAt(roles: seq<TaItem>, policy: ApolPolicy, i: nat, c: int)
    requires i < |roles|
  {
    if roles[i].kind != RoleItem then c == -1 else roles[i].idx !in policy.validRoles && c == 1
  }

  /**
   * seuser_is_proper_user_record: -1 for a missing record, name, role list or
   * policy, otherwise the verdict of its role list.
   */
  function ProperCode(user: Option<UserView>, policy: Option<ApolPolicy>): (c: int)
    ensures c == -1 || c == 0 || c == 1
    ensures c == 0 ==> user.Some? && user.value.name.Some? && policy.Some? && user.value.roles != []
    ensures user.None? || policy.None? ==> c == -1
  {
    if user.None? || policy.None? || user.value.name.None? || user.value.roles == [] then -1
    else RolesCode(user.value.roles, policy.value)
  }

  /** The return code of a database operation and the records afterwards. */
  datatype Outcome = Outcome(code: int, users: seq<UserRec>)

  /**
   * seuser_update_user on the list: -1 for missing arguments, 3 for an
   * improper record, 1 when adding a name that exists, 2 when changing one
   * that does not; otherwise the old record (when changing) is removed and the
   * new one goes to the end.
   */
  function UpdateSpec(rs: seq<UserRec>, user: Option<UserView>, newUser: bool, policy: Option<ApolPolicy>): (o: Outcome)
    ensures o.code in {-1, 0, 1, 2, 3}
    ensures user.None? || policy.None? ==> o.code == -1
    ensures user.Some? && policy.Some? && ProperCode(user, policy) != 0 ==> o.code == 3
    ensures ProperCode(user, policy) == 0 ==> (o.code == 0 <==> newUser != Exists(rs, user.value.name.value))
    ensures o.code != 0 ==> o.users == rs
    ensures o.code == 0 ==> ProperCode(user, policy) == 0
    ensures o.code == 0 ==> o.users == (if newUser then rs else RemoveFirst(rs, user.value.name.value))
                                      + [UserRec(user.value.name.value, user.value.roles)]
    ensures ProperCode(user, policy) == 0 ==>
      (o.code == 1 <==> newUser && Exists(rs, user.value.name.value)) &&
      (o.code == 2 <==> !newUser && !Exists(rs, user.value.name.value))
  {
    if user.None? || policy.None? then Outcome(-1, rs)
    else if ProperCode(user, policy) != 0 then Outcome(3, rs)
    else
      var name := user.value.name.value;
      var found := FirstMatch(rs, name) < |rs|;
      if found && newUser then Outcome(1, rs)
      else if !found && !newUser then Outcome(2, rs)
      else
        var kept := if newUser then rs else RemoveFirst(rs, name);
        Outcome(0, kept + [UserRec(name, user.value.roles)])
  }

  /**
   * After a successful update of a list without duplicate names, the list is
   * still free of duplicates, and looking the name up finds the new record,
   * now the last one.
   */
  lemma UpdateFindsNewRecord(rs: seq<UserRec>, user: Option<UserView>, newUser: bool, policy: Option<ApolPolicy>)
    requires Unique(rs)
    requires UpdateSpec(rs, user, newUser, policy).code == 0
    ensures Unique(UpdateSpec(rs, user, newUser, policy).users)
    ensures var r := UpdateSpec(rs, user, newUser, policy).users;
      FirstMatch(r, user.value.name.value) == |r| - 1 &&
      r[|r| - 1] == UserRec(user.value.name.value, user.value.roles)
  {
    var name := user.value.name.value;
    var kept := if newUser then rs else RemoveFirst(rs, name);
    if newUser {
      assert !Exists(kept, name);
    } else {
      RemoveFirstUnique(rs, name);
      RemoveFirstLeavesNone(rs, name);
    }
    assert Unique(kept);
    var u := UserRec(name, user.value.roles);
    var r := kept + [u];
    assert forall j :: 0 <= j < |kept| ==> r[j] == kept[j] && !SameName(name, kept[j].name);
    assert r[|kept|] == u && SameName(name, u.name);
    assert FirstMatch(r, name) == |kept|;
    forall i, j | 0 <= i < j < |r|
      ensures !SameName(r[i].name, r[j].name)
    {
      if j == |kept| {
        assert !SameName(name, r[i].name);
      }
    }
  }

  /**
   * The size of the list after an update: one more for an added record, the
   * same for a changed one, and unchanged on failure.
   */
  lemma UpdateLength(rs: seq<UserRec>, user: Option<UserView>, newUser: bool, policy: Option<ApolPolicy>)
    ensures var o := UpdateSpec(rs, user, newUser, policy);
      |o.users| == |rs| + (if o.code == 0 && newUser then 1 else 0)
  {
    var o := UpdateSpec(rs, user, newUser, policy);
    if o.code == 0 && !newUser {
    }
  }

  /**
   * The role list assembled by seuser_add_change_user from role names, in
   * order; None as soon as a name has no index.
   */
  function RolesFor(names: seq<string>, policy: Option<ApolPolicy>): (r: Option<seq<TaItem>>)
    ensures r.Some? <==> forall i :: 0 <= i < |names| ==> RoleIndex(names[i], policy) >= 0
    ensures r.Some? ==> |r.value| == |names|
    ensures r.Some? ==> forall i :: 0 <= i < |names| ==> r.value[i] == TaItem(RoleItem, RoleIndex(names[i], policy))
  {
    if names == [] then Some([])
    else if RoleIndex(names[0], policy) < 0 then None
    else
      var rest := RolesFor(names[1..], policy);
      assert forall i :: 1 <= i < |names| ==> names[i] == names[1..][i - 1];
      if rest.None? then None
      else Some([TaItem(RoleItem, RoleIndex(names[0], policy))] + rest.value)
  }

  /** Assembling one more known role name appends its item. */
  lemma RolesForSnoc(names: seq<string>, n: string, policy: Option<ApolPolicy>)
    requires RolesFor(names, policy).Some? && RoleIndex(n, policy) >= 0
    ensures RolesFor(names + [n], policy) == Some(RolesFor(names, policy).value + [TaItem(RoleItem, RoleIndex(n, policy))])
  {
    var ext := names + [n];
    assert forall i :: 0 <= i < |ext| ==> RoleIndex(ext[i], policy) >= 0 by {
      forall i | 0 <= i < |ext|
        ensures RoleIndex(ext[i], policy) >= 0
      {
        if i < |names| {
          assert ext[i] == names[i];
        }
      }
    }
    var r := RolesFor(ext, policy).value;
    var want := RolesFor(names, policy).value + [TaItem(RoleItem, RoleIndex(n, policy))];
    forall i | 0 <= i < |ext|
      ensures r[i] == want[i]
    {
      if i < |names| {
        assert ext[i] == names[i];
      }
    }
    assert r == want;
  }

  /**
   * seuser_add_change_user on the list: 4 when a role name is unknown,
   * otherwise the outcome of updating with the assembled record.
   */
  function AddChangeSpec(rs: seq<UserRec>, newUser: bool, name: string, roleNames: seq<string>, policy: Option<ApolPolicy>)
    : (o: Outcome)
    ensures o.code in {-1, 0, 1, 2, 3, 4}
    ensures o.code != 0 ==> o.users == rs
    ensures o.code == 4 <==> RolesFor(roleNames, policy).None?
    ensures RolesFor(roleNames, policy).Some? ==>
      o == UpdateSpec(rs, Some(UserView(Some(name), RolesFor(roleNames, policy).value)), newUser, policy)
    ensures o.code == 0 ==>
      o.users == (if newUser then rs else RemoveFirst(rs, name)) + [UserRec(name, RolesFor(roleNames, policy).value)]
  {
    var items := RolesFor(roleNames, policy);
    if items.None? then Outcome(4, rs)
    else UpdateSpec(rs, Some(UserView(Some(name), items.value)), newUser, policy)
  }

  /** A record without roles is refused as improper, even when the name is new. */
  lemma AddWithoutRolesIsImproper(rs: seq<UserRec>, newUser: bool, name: string, policy: ApolPolicy)
    ensures AddChangeSpec(rs, newUser, name, [], Some(policy)).code == 3
  {
  }

  /**
   * num_users after seuser_update_user as the code is written: the removal
   * inside a change decrements it, and nothing increments it, since the
   * append is handed only the list.
   */
  function CountAfterUpdateAsWritten(count: int, o: Outcome, newUser: bool): (n: int)
    ensures n <= count
    ensures o.code != 0 ==> n == count
  {
    if o.code == 0 && !newUser then count - 1 else count
  }

  /**
   * The count drifts: changing the only user leaves a one-record list counted
   * as empty, and adding a first user leaves it counted as empty too.
   */
  lemma CountDriftAsWritten()
    ensures var rs := [UserRec("alice", [TaItem(RoleItem, 1)])];
            var o := UpdateSpec(rs, Some(UserView(Some("alice"), [TaItem(RoleItem, 1)])), false, Some(ApolPolicy({1}, map[])));
            o.code == 0 && |o.users| == 1 && CountAfterUpdateAsWritten(|rs|, o, false) == 0
    ensures var o := UpdateSpec([], Some(UserView(Some("bob"), [TaItem(RoleItem, 1)])), true, Some(ApolPolicy({1}, map[])));
            o.code == 0 && |o.users| == 1 && CountAfterUpdateAsWritten(0, o, true) == 0
  {
    var policy := ApolPolicy({1}, map[]);
    assert RolesCode([TaItem(RoleItem, 1)], policy) == 0;
    var rs := [UserRec("alice", [TaItem(RoleItem, 1)])];
    assert SameName("alice", rs[0].name);
    assert FirstMatch(rs, "alice") == 0;
    assert RemoveFirst(rs, "alice") == [];
  }

  /**
   * num_users after an update as intended: the removal inside a change
   * decrements it and the append increments it.
   */
  function CountAfterUpdate(count: int, o: Outcome, newUser: bool): (n: int)
    ensures o.code != 0 ==> n == count
    ensures o.code == 0 ==> n == count + (if newUser then 1 else 0)
  {
    if o.code != 0 then count
    else (if newUser then count else count - 1) + 1
  }

  /** With the intended count, a count that agrees with the list before an update still agrees after it. */
  lemma CountAfterUpdateAgrees(rs: seq<UserRec>, user: Option<UserView>, newUser: bool, policy: Option<ApolPolicy>)
    ensures var o := UpdateSpec(rs, user, newUser, policy);
      CountAfterUpdate(|rs|, o, newUser) == |o.users|
  {
    UpdateLength(rs, user, newUser, policy);
  }
}
