/**
 * seuser's user database: the list of user records with its record count,
 * together with the configuration strings it carries. The list is the field
 * users, in list order, which each operation walks by position and replaces;
 * each operation is stated against its SeuserRecords function.
 */
module SeuserDb {
  import opened Wrappers
  import opened SeuserRecords

  /**
   * seuser_is_proper_user_record on a candidate record (None for a null
   * pointer): -1 for a null record, policy, name or role list and for a role
   * item of another kind, 1 for an invalid role index, 0 when every item is a
   * valid role; items are checked in list order.
   */
  method IsProperUserRecord(user: Option<UserView>, policy: Option<ApolPolicy>) returns (rc: int)
    ensures rc == ProperCode(user, policy)
  {
    if user.None? || policy.None? || user.value.name.None? || user.value.roles == [] {
      return -1;
    }
    var roles := user.value.roles;
    var i := 0;
    while i < |roles|
      invariant 0 <= i <= |roles|
      invariant RolesCode(roles, policy.value) == RolesCode(roles[i..], policy.value)
      decreases |roles| - i
    {
      assert roles[i..][1..] == roles[i + 1..];
      if roles[i].kind != RoleItem {
        return -1;
      }
      if roles[i].idx !in policy.value.validRoles {
        return 1;
      }
      i := i + 1;
    }
    return 0;
  }

  /** The error strings of seuser_read_conf_info's return codes 0 to 7. */
  const ConfErrMessages: seq<string> := [
    "Success",
    "Could not find seuser config file",
    "Could not open seuser config file",
    "Could not find policy.config file",
    "Could not open policy.config file",
    "Could not find policy directory",
    "Could not access policy directory",
    "Could not find user file"
  ]

  /** The string for every other return code. */
  const ConfErrDefault: string := "Error reading conf file"

  /** seuser_decode_read_conf_err: the fixed message of a configuration error code. */
  function DecodeReadConfErr(err: int): (msg: string)
    ensures 0 <= err < |ConfErrMessages| ==> msg == ConfErrMessages[err]
    ensures !(0 <= err < |ConfErrMessages|) ==> msg == ConfErrDefault
  {
    match err
    case 0 => "Success"
    case 1 => "Could not find seuser config file"
    case 2 => "Could not open seuser config file"
    case 3 => "Could not find policy.config file"
    case 4 => "Could not open policy.config file"
    case 5 => "Could not find policy directory"
    case 6 => "Could not access policy directory"
    case 7 => "Could not find user file"
    case _ => "Error reading conf file"
  }

  /** The code a message decodes from, reading the table back; -1 for the default message. */
  function ConfErrCode(msg: string): (err: int)
    ensures -1 <= err < |ConfErrMessages|
    ensures err >= 0 ==> ConfErrMessages[err] == msg
  {
    if msg == ConfErrMessages[0] then 0
    else if msg == ConfErrMessages[1] then 1
    else if msg == ConfErrMessages[2] then 2
    else if msg == ConfErrMessages[3] then 3
    else if msg == ConfErrMessages[4] then 4
    else if msg == ConfErrMessages[5] then 5
    else if msg == ConfErrMessages[6] then 6
    else if msg == ConfErrMessages[7] then 7
    else -1
  }

  /**
   * The messages are distinct: every code 0 to 7 is recovered from its
   * message, and every other code gives the default, which no code 0 to 7 gives.
   */
  lemma DecodeRoundTrip(err: int)
    ensures 0 <= err < |ConfErrMessages| ==> ConfErrCode(DecodeReadConfErr(err)) == err
    ensures !(0 <= err < |ConfErrMessages|) ==> ConfErrCode(DecodeReadConfErr(err)) == -1
  {
    var m := ConfErrMessages;
    assert |m[0]| == 7 && |m[5]| == 31 && |m[7]| == 24 && |ConfErrDefault| == 23;
    assert |m[1]| == |m[2]| == |m[3]| == |m[4]| == |m[6]| == 33;
    assert m[1][10] == 'f' && m[2][10] == 'o' && m[3][10] == 'f' && m[4][10] == 'o' && m[6][10] == 'a';
    assert m[1][15] == 's' && m[2][15] == 's' && m[3][15] == 'p' && m[4][15] == 'p';
  }

  /** A user_db_t. */
  class UserDb {
    var numUsers: int
    /** The records of the list, from head to tail. */
    var users: seq<UserRec>
    var policyConf: Option<string>
    var userFile: Option<string>
    var policyDir: Option<string>
    var configDir: Option<string>
    var confInit: bool

    /** num_users counts the records of the list. */
    ghost predicate Valid()
      reads this
    {
      numUsers == |users|
    }

    /** The configuration strings and flag, which no list operation touches. */
    ghost function Conf(): (Option<string>, Option<string>, Option<string>, Option<string>, bool)
      reads this
    {
      (policyConf, userFile, policyDir, configDir, confInit)
    }

    /** A user_db_t whose fields are all zero. */
    constructor ()
      ensures Valid() && users == []
      ensures policyConf.None? && userFile.None? && policyDir.None? && configDir.None? && !confInit
    {
      numUsers, users := 0, [];
      policyConf, userFile, policyDir, configDir, confInit := None, None, None, None, false;
    }

    /**
     * seuser_init_db: an empty list with a zero count; the configuration
     * strings are cleared only when initConf is set. Records that were linked
     * before are dropped, not freed.
     */
    method InitDb(initConf: bool) returns (rc: int)
      modifies this
      ensures rc == 0
      ensures Valid() && users == [] && numUsers == 0
      ensures initConf ==> policyConf.None? && userFile.None? && policyDir.None? && configDir.None? && !confInit
      ensures !initConf ==>
        && policyConf == old(policyConf) && userFile == old(userFile)
        && policyDir == old(policyDir) && configDir == old(configDir) && confInit == old(confInit)
    {
      numUsers, users := 0, [];
      if initConf {
        policyConf, userFile, policyDir, configDir, confInit := None, None, None, None, false;
      }
      return 0;
    }

    /** seuser_does_user_exist: some record's name matches, ignoring case; false for a null name. */
    method DoesUserExist(name: Option<string>) returns (b: bool)
      ensures b <==> name.Some? && Exists(users, name.value)
    {
      if name.None? {
        return false;
      }
      var i := 0;
      while i < |users|
        invariant 0 <= i <= |users|
        invariant forall j :: 0 <= j < i ==> !SameName(name.value, users[j].name)
        decreases |users| - i
      {
        if SameName(name.value, users[i].name) {
          return true;
        }
        i := i + 1;
      }
      return false;
    }

    /**
     * seuser_get_user_by_name: 0 and the first matching record, or -1 when
     * there is none or an argument is null (slot: the output pointer is
     * non-null); on failure the caller's variable keeps its value prior.
     */
    method GetUserByName(name: Option<string>, slot: bool, prior: Option<UserRec>) returns (rc: int, user: Option<UserRec>)
      ensures rc == 0 || rc == -1
      ensures rc == 0 <==> slot && name.Some? && Exists(users, name.value)
      ensures rc == 0 ==> user == Some(users[FirstMatch(users, name.value)])
      ensures rc != 0 ==> user == prior
    {
      if !slot || name.None? {
        return -1, prior;
      }
      var i := 0;
      while i < |users|
        invariant 0 <= i <= |users|
        invariant forall j :: 0 <= j < i ==> !SameName(name.value, users[j].name)
        decreases |users| - i
      {
        if SameName(name.value, users[i].name) {
          assert FirstMatch(users, name.value) == i;
          return 0, Some(users[i]);
        }
        i := i + 1;
      }
      return -1, prior;
    }

    /**
     * seuser_rename_user: 0 after giving the first matching record the new
     * name, 1 (nothing changed) when no record matches, -1 for a null name or
     * when the copy of the new name cannot be allocated (oom).
     */
    method RenameUser(oldName: Option<string>, newName: Option<string>, oom: bool) returns (rc: int)
      modifies this
      ensures numUsers == old(numUsers) && Conf() == old(Conf())
      ensures oldName.None? || newName.None? ==> rc == -1
      ensures oldName.Some? && newName.Some? ==>
        && (rc == 1 <==> !Exists(old(users), oldName.value))
        && (rc == -1 <==> Exists(old(users), oldName.value) && oom)
        && (rc == 0 <==> Exists(old(users), oldName.value) && !oom)
      ensures rc == 0 ==> users == RenameFirst(old(users), oldName.value, newName.value)
      ensures rc != 0 ==> users == old(users)
    {
      if oldName.None? || newName.None? {
        return -1;
      }
      var i := 0;
      while i < |users|
        invariant 0 <= i <= |users|
        invariant forall j :: 0 <= j < i ==> !SameName(oldName.value, users[j].name)
        decreases |users| - i
      {
        if SameName(oldName.value, users[i].name) {
          break;
        }
        i := i + 1;
      }
      if i == |users| {
        return 1;
      }
      assert FirstMatch(users, oldName.value) == i;
      if oom {
        return -1;
      }
      users := users[i := UserRec(newName.value, users[i].roles)];
      return 0;
    }

    /**
     * seuser_remove_user: 0 after unlinking the first matching record and
     * decrementing the count, 1 (nothing changed) when no record matches, -1
     * for a null name.
     */
    method RemoveUser(name: Option<string>) returns (rc: int)
      modifies this
      ensures Conf() == old(Conf())
      ensures name.None? ==> rc == -1
      ensures name.Some? ==> (rc == 0 <==> Exists(old(users), name.value)) && (rc == 1 <==> !Exists(old(users), name.value))
      ensures rc == 0 ==> users == RemoveFirst(old(users), name.value) && numUsers == old(numUsers) - 1
      ensures rc != 0 ==> users == old(users) && numUsers == old(numUsers)
    {
      if name.None? {
        return -1;
      }
      var i := 0;
      while i < |users|
        invariant 0 <= i <= |users|
        invariant forall j :: 0 <= j < i ==> !SameName(name.value, users[j].name)
        decreases |users| - i
      {
        if SameName(name.value, users[i].name) {
          assert FirstMatch(users, name.value) == i;
          users := users[..i] + users[i + 1..];
          numUsers := numUsers - 1;
          return 0;
        }
        i := i + 1;
      }
      return 1;
    }

    /**
     * append_user, which is not part of this model, taken as linking a record
     * at the end of the list. It is handed only the list, so the count is untouched.
     */
    method AppendUser(u: UserRec) returns (rc: int)
      modifies this
      ensures rc == 0
      ensures users == old(users) + [u]
      ensures numUsers == old(numUsers) && Conf() == old(Conf())
    {
      users := users + [u];
      return 0;
    }

    /**
     * seuser_update_user: -1 for a null record or policy, 3 for an improper
     * record, 1 when adding a name that exists, 2 when changing one that does
     * not; otherwise the old record (when changing) is removed and the given
     * record is linked at the end. The count is kept equal to the number of
     * records, which the code as written does not do.
     */
    method UpdateUser(user: Option<UserView>, newUser: bool, policy: Option<ApolPolicy>) returns (rc: int)
      modifies this
      ensures rc == UpdateSpec(old(users), user, newUser, policy).code
      ensures users == UpdateSpec(old(users), user, newUser, policy).users
      ensures numUsers == CountAfterUpdate(old(numUsers), UpdateSpec(old(users), user, newUser, policy), newUser)
      ensures old(Valid()) ==> Valid()
      ensures Conf() == old(Conf())
    {
      if user.None? || policy.None? {
        return -1;
      }
      var proper := IsProperUserRecord(user, policy);
      if proper != 0 {
        return 3;
      }
      var name := user.value.name.value;
      var found, existing := GetUserByName(Some(name), true, None);
      if found == 0 && newUser {
        return 1;
      } else if found != 0 && !newUser {
        return 2;
      }
      if !newUser {
        var removed := RemoveUser(Some(name));
      }
      rc := AppendUser(UserRec(name, user.value.roles));
      numUsers := numUsers + 1;
    }

    /**
     * seuser_add_change_user: builds a record named name with the roles
     * named by roles[..numRoles], then updates the database with it. 4 when a
     * role name has no index; oom is whether the record or its name cannot be
     * allocated, which gives -1. The count is the intended one that UpdateUser
     * keeps, which the code as written does not.
     */
    method AddChangeUser(newUser: bool, name: string, roles: seq<string>, numRoles: int, policy: Option<ApolPolicy>, oom: bool)
      returns (rc: int)
      requires numRoles <= |roles|
      modifies this
      ensures oom ==> rc == -1 && users == old(users) && numUsers == old(numUsers)
      ensures !oom ==>
        var o := AddChangeSpec(old(users), newUser, name, roles[..if numRoles < 0 then 0 else numRoles], policy);
        rc == o.code && users == o.users && numUsers == CountAfterUpdate(old(numUsers), o, newUser)
      ensures old(Valid()) ==> Valid()
      ensures Conf() == old(Conf())
    {
      if oom {
        return -1;
      }
      var n := if numRoles < 0 then 0 else numRoles;
      var items: seq<TaItem> := [];
      var i := 0;
      while i < n
        invariant 0 <= i <= n
        invariant RolesFor(roles[..i], policy) == Some(items)
        invariant users == old(users) && numUsers == old(numUsers) && Conf() == old(Conf())
        decreases n - i
      {
        var idx := RoleIndex(roles[i], policy);
        if idx < 0 {
          assert roles[..n][i] == roles[i];
          return 4;
        }
        RolesForSnoc(roles[..i], roles[i], policy);
        assert roles[..i + 1] == roles[..i] + [roles[i]];
        items := items + [TaItem(RoleItem, idx)];
        i := i + 1;
      }
      assert roles[..i] == roles[..n];
      rc := UpdateUser(Some(UserView(Some(name), items)), newUser, policy);
    }
  }
}
