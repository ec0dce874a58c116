# setools3 rule queries and seuser user database, in Dafny

This project models three parts of setools3:

- **libqpol's access-vector rule queries** (allow, neverallow, auditallow, dontaudit). It models opening a cursor over the rules of a policy's two rule tables, opening a cursor over one rule's permission bits, and the getters that project a rule node to its fields.
- **libqpol's type-enforcement rule queries** (type_transition, type_change, type_member). It models the same cursor and getters, plus the default-type lookup.
- **libseuser's user database.** This is a list of user records and a record count. The model covers lookup by case-insensitive name, rename, remove, add or change with numeric return codes, the validity check of a record, and the table of configuration-error messages.

How the files map to these parts:

- **Shared types.** `qpol_types.dfy` holds the policy database: the unconditional and conditional rule tables as sequences of buckets, and the 0-based type and class tables indexed by id − 1. It also holds the rule node (key, datum, merged flags, conditional context) and the status every call returns. A C null pointer is `None`, or a `slot` flag for an output pointer. errno is part of the returned status, not a global.
- **Rule-table cursor.** `avtab_cursor.dfy` is the cursor state `avtab_state_t` as a class. Its step moves in (table, bucket, chain) order and stops only at nodes whose kind bits meet the mask. The step is stated against the functions `Advance` and `Yield` on the combined bucket sequence. The lemma `YieldIsFilter` proves that reading a cursor to its end yields exactly the matching nodes, in order.
- **Permission-bit cursor.** `perm_cursor.dfy` is the cursor state `perm_state_t` as a class. Its step goes to the next set bit of a 32-bit word.
- **Queries.** `avrule_query.dfy` and `terule_query.dfy` hold the constructors of both cursors and the getters:
  - Iterator creation and the permission iterator are methods that build a cursor state and advance it once when the seeded position is unobservable.
  - The getters are functions.
  - Allocation failures are boolean parameters.
- **User database.** `user_records.dfy` states the effect of each database operation on the ordered list of records as functions, with lemmas about them. `seuser_db.dfy` is the database `user_db_t` as a class: the count `numUsers` and the list `users` as a sequence of records. Each method walks the list by position, and its contract ties its result to the `SeuserRecords` function.

Nothing here performs I/O. The model includes neither the iterator framework's generic layer nor the apol policy library; they appear only through the abstract operations named below.

## Model

| member | source | states |
|---|---|---|
| QpolTypes.LookupType | libqpol/src/avrule_query.c:97 | A 1-based type id is read at slot id − 1 of the 0-based table: id 1 is slot 0, the largest id is the last slot, and in a densely numbered table the struct found carries the id asked for |
| QpolTypes.LookupClass | libqpol/src/avrule_query.c:143 | A 1-based class id is read at slot id − 1. In a densely numbered table the struct found carries the id asked for |
| QpolTypes.FlagValue | libqpol/src/avrule_query.c:232-278 | A flag test as a C truth value: 1 exactly when the flag bit is set in merged, otherwise 0 |
| AvtabCursor.Matches | libqpol/src/avrule_query.c:73 | The kind-mask test: a node with no kind bits, or a zero mask, never matches |
| AvtabCursor.Filter | libqpol/src/avrule_query.c:73 | The subsequence of nodes whose kind bits meet the mask: no longer than the input, every kept node comes from the input and matches, and every matching input node is kept |
| AvtabCursor.FilterConcat | libqpol/src/avrule_query.c:64-75 | Filtering distributes over concatenation, so the rules of the unconditional table come before those of the conditional table |
| AvtabCursor.NextNonEmpty | libqpol/src/avrule_query.c:64-75 | The first non-empty bucket at or after a bucket, or the end; all buckets skipped are empty |
| AvtabCursor.RawNext | libqpol/src/avrule_query.c:64-75 | One unfiltered step lands on a node or at the end, and always moves forward: to the next node of the chain, or into a later bucket |
| AvtabCursor.RawNextSplit | libqpol/src/avrule_query.c:64-75 | A raw step consumes exactly the node it leaves, and nothing else of the traversal |
| AvtabCursor.SkipEmpty | libqpol/src/avrule_query.c:64-75 | Skipping empty buckets loses no node |
| AvtabCursor.Advance | libqpol/src/avrule_query.c:73-75 | The rule-table step always lands at the end or on a node that meets the mask |
| AvtabCursor.AdvanceFilter | libqpol/src/avrule_query.c:73-75 | The step skips only non-matching nodes: the matching nodes ahead of a position are the node there, if it matches, followed by the matching nodes ahead of where the step lands |
| AvtabCursor.AdvanceShrinks | libqpol/src/avrule_query.c:73-75 | From a node, the step lands strictly further on, so reading a cursor terminates |
| AvtabCursor.YieldIsFilter | libqpol/src/avrule_query.c:64-75 | Reading a cursor from any observable position to the end yields exactly the nodes from there on that meet the mask, in traversal order |
| AvtabCursor.FlatFromConcat | libqpol/src/avrule_query.c:64-65 | The buckets of the two tables together hold the unconditional nodes followed by the conditional nodes |
| AvtabCursor.StartHoldsAll | libqpol/src/avrule_query.c:64-67 | Traversal from bucket 0 of the unconditional table visits every node of both tables, unconditional ones first |
| AvtabCursor.AvtabState.AtEnd | libqpol/src/avrule_query.c:69 | Both tables are exhausted: the cursor then shows no node and no rule is still ahead |
| AvtabCursor.SeedMatches | libqpol/src/avrule_query.c:73 | The seeded node htable[0] exists and meets the mask |
| AvtabCursor.AvtabState.Current | libqpol/src/avrule_query.c:67 | The cursor shows a node exactly when its position holds one, and then it is the node at the cursor's bucket and chain position; none at the end or at an empty first bucket |
| AvtabCursor.AvtabState.constructor | libqpol/src/avrule_query.c:58-67 | The state holds both tables and the mask and sits at bucket 0 of the unconditional table, on htable[0]. Still ahead of it are the matching rules of the unconditional table, then those of the conditional table |
| AvtabCursor.AvtabState.Next | libqpol/src/avrule_query.c:73-75 | The step leaves the cursor at the end or on a matching node, at the place Advance gives; only the node it left is consumed from the rules still ahead; at the end nothing changes |
| AvtabCursor.AvtabState.MoveTo | libqpol/src/avrule_query.c:64-67 | A place in the combined buckets is named by its table and by a bucket within that table |
| PermCursor.NextSetBit | libqpol/src/avrule_query.c:182-183 | The lowest set bit at or above a bit index, or 32: every bit skipped is clear |
| PermCursor.SetBitsFrom | libqpol/src/avrule_query.c:182-183 | The set bits at or above an index, strictly ascending, and exactly those |
| PermCursor.Granted | libqpol/src/avrule_query.c:170-174 | The working word: the stored word for an ordinary rule, and for an audit-deny rule a word sharing no bit with the stored one whose union with it is all 32 bits, that is, its complement |
| PermCursor.PermState.AtEnd | libqpol/src/avrule_query.c:177-178 | Every bit index has been passed: the cursor is at 32 and no set bit is still ahead |
| PermCursor.ComplementFlips | libqpol/src/avrule_query.c:171 | Complementing the word flips every one of its 32 bits |
| PermCursor.GrantedBits | libqpol/src/avrule_query.c:170-174 | Bit by bit, the working word of an audit-deny rule is set exactly where the stored word is clear, and any other rule's working word is its stored word |
| PermCursor.PermState.constructor | libqpol/src/avrule_query.c:166-175 | The state holds the working word and the object class id, at bit 0, with every set bit still ahead |
| PermCursor.PermState.Next | libqpol/src/avrule_query.c:182-183 | The step goes to the next set bit above the current one, or to the end, consuming only the current bit; at the end nothing changes |
| PermCursor.Start | libqpol/src/avrule_query.c:175-183 | The cursor is advanced once exactly when bit 0 is clear. It then sits at the end or on a set bit, with every set bit of the word still ahead |
| AvruleQuery.GetAvruleIter | libqpol/src/avrule_query.c:36-77 | A first bucket is needed only when the arguments are non-null, the rules are loaded and the state is allocated, the one path that reads htable[0]. EINVAL for a null handle, policy or output and ENOTSUP when rules are not loaded, each with a null iterator. ENOMEM when the state cannot be allocated, and no errno when the iterator cannot be created. On success the cursor holds both tables and the mask, sits at the end or on a matching node, and yields exactly the matching unconditional rules and then the matching conditional ones |
| AvruleQuery.GetSourceType | libqpol/src/avrule_query.c:79-100 | EINVAL with a null output when a pointer is null. Otherwise the type struct at slot source id − 1, which in a dense table carries the source id |
| AvruleQuery.GetTargetType | libqpol/src/avrule_query.c:102-123 | EINVAL with a null output when a pointer is null. Otherwise the type struct at slot target id − 1, which in a dense table carries the target id |
| AvruleQuery.GetObjectClass | libqpol/src/avrule_query.c:125-146 | EINVAL with a null output when a pointer is null. Otherwise the class struct at slot class id − 1, which in a dense table carries the class id |
| AvruleQuery.StoresDeny | libqpol/src/avrule_query.c:170 | A rule whose kind bits include DONTAUDIT keeps an audit-deny word; such a rule has some kind bit |
| AvruleQuery.GetPermIter | libqpol/src/avrule_query.c:148-186 | EINVAL for a null pointer, and a failure without errno when allocation or iterator creation fails. On success, the working word is the complement of the datum for a dontaudit rule and the datum otherwise, the class id is the rule's target class, the cursor was advanced once exactly when bit 0 is clear, and it yields exactly the working word's set bits, ascending |
| AvruleQuery.GetRuleType | libqpol/src/avrule_query.c:188-209 | EINVAL and 0 when a pointer is null. Otherwise the rule's access-vector kind bits: no other bit survives, and a pure allow rule gives exactly ALLOW |
| AvruleQuery.GetCond | libqpol/src/avrule_query.c:211-230 | EINVAL when a pointer is null. Otherwise the rule's conditional context unchanged, where an unconditional rule is a successful None |
| AvruleQuery.GetIsEnabled | libqpol/src/avrule_query.c:232-251 | EINVAL and 0 when a pointer is null. Otherwise 1 exactly when the ENABLED bit of merged is set, else 0 |
| AvruleQuery.GetWhichList | libqpol/src/avrule_query.c:253-278 | EINVAL and 0 when a pointer is null or the rule is unconditional. Otherwise 1 exactly when the LIST bit of merged is set, else 0 |
| AvruleQuery.DontAuditEnumeratesComplement | libqpol/src/avrule_query.c:170-171 | A dontaudit rule's permission cursor enumerates exactly the bit indices that the stored word, read as a grant, lacks |
| TeruleQuery.GetTeruleIter | libqpol/src/terule_query.c:36-77 | Like the access-vector iterator, a first bucket is needed only on the path that reads htable[0] (non-null arguments, rules loaded, state allocated): EINVAL, ENOTSUP, ENOMEM or no errno on the failure paths, with a null iterator. On success a cursor at the end or on a matching node that yields exactly the matching rules of both tables, unconditional ones first |
| TeruleQuery.GetSourceType | libqpol/src/terule_query.c:79-100 | EINVAL with a null output when a pointer is null. Otherwise the type struct at slot source id − 1 |
| TeruleQuery.GetTargetType | libqpol/src/terule_query.c:102-123 | EINVAL with a null output when a pointer is null. Otherwise the type struct at slot target id − 1 |
| TeruleQuery.GetObjectClass | libqpol/src/terule_query.c:125-146 | EINVAL with a null output when a pointer is null. Otherwise the class struct at slot class id − 1 |
| TeruleQuery.DefaultTypeId | libqpol/src/terule_query.c:166 | The default type id read from the 32-bit datum word, so it is below 2^32 |
| TeruleQuery.GetDefaultType | libqpol/src/terule_query.c:148-169 | EINVAL with a null output when a pointer is null. Otherwise the type struct at slot datum − 1, which in a dense table carries the default type's id |
| TeruleQuery.GetRuleType | libqpol/src/terule_query.c:171-192 | EINVAL and 0 when a pointer is null. Otherwise the rule's type-enforcement kind bits: no other bit survives, and a pure type_transition rule gives exactly TYPE_TRANS |
| TeruleQuery.GetCond | libqpol/src/terule_query.c:194-213 | EINVAL when a pointer is null. Otherwise the conditional context unchanged, where an unconditional rule is a successful None |
| TeruleQuery.GetIsEnabled | libqpol/src/terule_query.c:215-234 | EINVAL and 0 when a pointer is null. Otherwise 1 exactly when the ENABLED bit is set, else 0 |
| TeruleQuery.GetWhichList | libqpol/src/terule_query.c:236-261 | EINVAL and 0 when a pointer is null or the rule is unconditional. Otherwise 1 exactly when the LIST bit is set, else 0 |
| SeuserRecords.RoleIndex | libseuser/seuser_db.c:368-369 | A role name's index in the policy, or −1 when the policy has no such role |
| SeuserRecords.SameName | libseuser/seuser_db.c:175 | strcasecmp(a, b) == 0: the names have equal length and agree up to case at every position; every name matches itself |
| SeuserRecords.Lower | libseuser/seuser_db.c:175 | ASCII lower-casing: capitals move by 32 and every other character is kept |
| SeuserRecords.Fold | libseuser/seuser_db.c:175 | The lower-cased spelling of a name, character by character, of the same length |
| SeuserRecords.SameNameIsFoldEqual | libseuser/seuser_db.c:175 | Two names match case-insensitively exactly when their lower-cased spellings are equal, so name matching is an equivalence |
| SeuserRecords.FirstMatch | libseuser/seuser_db.c:192-197 | The position of the first record whose name matches, with no match before it, or the length when no record matches |
| SeuserRecords.MatchCount | libseuser/seuser_db.c:174-178 | The number of records whose name matches is at most the number of records |
| SeuserRecords.MatchCountPositive | libseuser/seuser_db.c:174-178 | A name is present exactly when at least one record matches it |
| SeuserRecords.RemoveFirst | libseuser/seuser_db.c:278-298 | Without a match the list is unchanged. Otherwise it is one shorter: the records before the first match stay in place, and the ones after it move up by one, in order |
| SeuserRecords.ExistsPastHead | libseuser/seuser_db.c:174-178 | Past a head record that does not match, a name is present exactly when the rest of the list holds it |
| SeuserRecords.RemoveFirstCount | libseuser/seuser_db.c:278-298 | Removal takes away exactly one matching record when there is one and none otherwise |
| SeuserRecords.RemoveFirstUnique | libseuser/seuser_db.c:278-298 | Removal keeps a list without duplicate names free of duplicates |
| SeuserRecords.RemoveFirstLeavesNone | libseuser/seuser_db.c:278-298 | Once its record has been removed from a list without duplicates, a name is no longer present |
| SeuserRecords.RenameFirst | libseuser/seuser_db.c:244-260 | The list keeps its length and every record keeps its roles. Only the first match changes, and it takes the new name. Without a match the list is unchanged |
| SeuserRecords.RenameRoundTrip | libseuser/seuser_db.c:236-263 | Renaming to a name nobody has and then back to the former spelling restores the list |
| SeuserRecords.RenameFirstUnique | libseuser/seuser_db.c:236-263 | A rename keeps names distinct when the new name is unused or a respelling of the old one |
| SeuserRecords.RenameCanDuplicate | libseuser/seuser_db.c:236-263 | The rename does not check the new name: renaming bob to Alice beside alice leaves two records with the same name |
| SeuserRecords.RolesCode | libseuser/seuser_db.c:219-227 | Items are checked in list order. The result is 0 exactly when every item is a role with a valid index. Otherwise the first failing item decides: −1 for an item that is not a role, 1 for an invalid role index |
| SeuserRecords.ProperCode | libseuser/seuser_db.c:209-228 | −1 for a null record, policy, name or role list. Otherwise the role-list verdict, so 0 only for a named record with roles |
| SeuserRecords.UpdateSpec | libseuser/seuser_db.c:308-335 | −1 for a null record or policy, 3 for an improper record. For a proper record: 1 exactly when adding a present name, 2 exactly when changing an absent one, and 0 in every other case. On any error the list is unchanged. On success the old record is removed when changing, and the new one goes last |
| SeuserRecords.UpdateFindsNewRecord | libseuser/seuser_db.c:308-335 | A successful update keeps a list without duplicate names free of them, and looking the name up afterwards finds the new record, the last one |
| SeuserRecords.UpdateLength | libseuser/seuser_db.c:308-335 | A successful add lengthens the list by one. A change or a failure keeps its length |
| SeuserRecords.RolesFor | libseuser/seuser_db.c:364-388 | The assembled role list exists exactly when every name has an index. It has one role item per name, in order, with that name's index |
| SeuserRecords.RolesForSnoc | libseuser/seuser_db.c:364-388 | One more known role name appends exactly its role item |
| SeuserRecords.AddChangeSpec | libseuser/seuser_db.c:344-395 | 4 exactly when some role name is unknown. Otherwise the outcome, code and list, is the update's with the record of that name and one role item per name, in order. On any error the list is unchanged. On success the list is the old one, without the changed record, followed by the new record with exactly those roles |
| SeuserRecords.AddWithoutRolesIsImproper | libseuser/seuser_db.c:214-216 | A record assembled from no role names is refused as improper (3), even for a new name |
| SeuserRecords.CountAfterUpdateAsWritten | libseuser/seuser_db.c:293 | The count as the code keeps it: it never grows, and it is unchanged on failure |
| SeuserRecords.CountDriftAsWritten | libseuser/seuser_db.c:326-334 | As written, changing the only user leaves one record with a count of 0, and so does adding a first user |
| SeuserRecords.CountAfterUpdate | libseuser/seuser_db.c:308-335 | The intended count: unchanged on failure, and one more after a successful add |
| SeuserRecords.CountAfterUpdateAgrees | libseuser/seuser_db.c:308-335 | With the intended count, a count that equals the list's length before an update still equals it afterwards |
| SeuserDb.IsProperUserRecord | libseuser/seuser_db.c:209-228 | The loop over the role items returns exactly the verdict ProperCode defines |
| SeuserDb.DecodeReadConfErr | libseuser/seuser_db.c:515-547 | Codes 0 to 7 give their fixed messages, and every other code gives "Error reading conf file" |
| SeuserDb.ConfErrCode | libseuser/seuser_db.c:515-523 | Reading the message table back gives a code from −1 to 7, and a code of 0 or more names the message given |
| SeuserDb.DecodeRoundTrip | libseuser/seuser_db.c:525-547 | The eight messages are distinct and differ from the default: every code 0 to 7 is recovered from its message, and no other code's message is one of them |
| SeuserDb.UserDb.constructor | libseuser/seuser_db.c:46-54 | A database with no records, a zero count and no configuration strings |
| SeuserDb.UserDb.InitDb | libseuser/seuser_db.c:56-66 | Returns 0 with an empty list and a zero count. The configuration fields are cleared when initConf is set and otherwise unchanged |
| SeuserDb.UserDb.DoesUserExist | libseuser/seuser_db.c:167-180 | True exactly when the name is non-null and some record's name matches it ignoring case |
| SeuserDb.UserDb.GetUserByName | libseuser/seuser_db.c:185-199 | 0 exactly when the arguments are non-null and the name is present, and then the first matching record. Otherwise −1, with the caller's variable untouched |
| SeuserDb.UserDb.RenameUser | libseuser/seuser_db.c:236-263 | −1 for a null name. 1 exactly when no record matches. −1 exactly when the new name cannot be copied. 0 exactly when a record matches and the copy succeeds. On 0 the list is the first-match rename. On any other code the list is unchanged, and the count never changes. The configuration strings and flag are left as they were |
| SeuserDb.UserDb.RemoveUser | libseuser/seuser_db.c:271-299 | −1 for a null name. 0 exactly when the name is present, and then the first match is unlinked with the others' order kept and the count decremented. 1 exactly when the name is absent, and then nothing changes. The configuration strings and flag are left as they were |
| SeuserDb.UserDb.AppendUser | libseuser/seuser_db.c:134 | Links a record at the end of the list, leaving the count alone. The configuration strings and flag are left as they were |
| SeuserDb.UserDb.UpdateUser | libseuser/seuser_db.c:308-335 | The return code and the new list are exactly UpdateSpec's. The count is the intended count, so a database whose count agreed with its list still agrees. The configuration strings and flag are left as they were |
| SeuserDb.UserDb.AddChangeUser | libseuser/seuser_db.c:344-395 | −1 with nothing changed when the record cannot be allocated. Otherwise the return code and the new list are exactly AddChangeSpec's for the first numRoles role names. The count is the intended count kept by UpdateUser (CountAfterUpdate of the old count), so a count that agreed with the list still agrees; the code as written does not keep it. The configuration strings and flag are left as they were |

## Left out

- The rule-table and permission-bit step functions, iterator creation and the iterator's size are declared in a header that is not part of this model. The steps are modelled as their evident behaviour: the next matching node in table, bucket and chain order, and the next set bit. Iterator creation is a boolean that says whether it fails.
- The class permission count: the permission cursor runs over all 32 bits and is not clamped to the number of permissions of the rule's class.
- qpol_iterator_create's errno: the path where iterator creation fails is a failure without errno. When the permission iterator cannot be created, the allocated state leaks; leaks are not modelled.
- Logging through ERR, and errno as a process-global; the model returns errno as part of the status.
- Range checks on the ids a rule carries: the type and class getters require the id to be within its table, since the code indexes the table unchecked.
- AvruleQuery.GetAvruleIter and TeruleQuery.GetTeruleIter: line 67 of both files reads htable[0] unchecked, so on that path (non-null arguments, rules loaded, state allocated) the iterators require the unconditional table to have a first bucket.
- SeuserRecords.Lower: strcasecmp depends on the locale; the model fixes the C locale, where only the ASCII capitals fold.
- The hash layout of libsepol's tables and how conditional rules hang off boolean expressions: the tables are given as sequences of buckets.
- The user list is modelled on values, a sequence of records, not as linked nodes. The model therefore does not capture node identity or aliasing. In particular, seuser_get_user_by_name returns a copy of the record, not a pointer into the database.
- SeuserDb.UserDb.RemoveUser: the head and tail pointers are not modelled. This includes the tail left pointing at a freed record when the sole record, the head, is removed.
- SeuserDb.UserDb.UpdateUser: the use-after-free that follows when the record handed in is the database's own record, which the removal frees before the append, is not modelled.
- Memory management: free_user, seuser_free_db and the copy functions. The memset of the record in seuser_add_change_user comes before its null check; the model treats allocation failure as an early −1.
- SeuserDb.UserDb.AddChangeUser: allocation failure is modelled for the record and its name (oom), not for each role item. insert_ta_item is taken to succeed and to add each role item at the end of the record's role list, so return code 5 does not arise and the roles keep the order of the names; the in-order claims of SeuserRecords.RolesFor and SeuserRecords.AddChangeSpec rest on this.
- SeuserDb.UserDb.AddChangeUser: the user name is a string, not a possibly null pointer.
- append_user, insert_ta_item, is_valid_role_idx and get_role_idx are not part of this model. Append is taken as linking at the tail without touching the count. Role validity is a set of indices, and role lookup is a map from names to indices.
- Null database arguments: the database is always present, as `this`.
- seuser_read_conf_info, seuser_write_user_file, policy rebuilding and installation through system(), the commit-permission check, seuser_open_user_db, seuser_copy_db_from_apol and seuser_copy_user: these do file, process and apol-library work.
- secmds/findcon.cc, a command-line front end over a file-context query library.

## Findings

| source | as written | input that shows it | evidently intended | confidence | as-written member | corrected member |
|---|---|---|---|---|---|---|
| libseuser/seuser_db.c:326-334 | seuser_update_user hands append_user only the list, so num_users is never incremented. When a record is changed, the removal still decrements it | Adding "bob" to an empty database leaves one record with num_users 0. Changing the only user "alice" of a one-record database also leaves num_users 0 with one record appended, though that case also depends on how append_user treats the stale tail left by the removal | num_users equals the number of records after every update | not executed | SeuserRecords.CountDriftAsWritten | SeuserDb.UserDb.UpdateUser, SeuserDb.UserDb.AddChangeUser |
