# Permission index and grant graph of nest-typeorm-authorization

The library keeps two views of who may do what. The grant graph holds:

- policies: (resource, action) pairs;
- roles: named lists of policies;
- one UserPermissions record per subject, listing the roles and the direct policies the subject holds.

The denormalised index `UserPoliciesDenorm` holds one row `(subject, policyMapKey, roleKey)` per grant. Its `policyMapKey` is `"$" + resource + "$" + action`, and its `roleKey` is the granting role's name, or null for a direct grant. Access checks read only the index. Every write goes through a transaction that updates both views.

This project models that core in Dafny:

- **State.** The store is an abstract state (`Model.State`): policies, roles and users by id, UserPermissions records by subject, the index as a sequence of rows, and the next free id.
- **Codec.** The policy-key codec is modelled in `PolicyKey`.
- **Transaction bodies.** There is one pure function per body (`Transactions`). SQL and document-store bodies that act alike share one function. A class `Store.Store` holds the same collections as fields, and its methods perform each body's steps in order: loops over chunks, the de-duplicating reduction, the fan-out. Each method is proved to produce the state its function gives.
- **Legacy copies.** The older bodies under `src/abac/transactions` take the SQL steps.
- **Service rules.** The validations of the SQL service (`abac.service.ts`) and of the document-store service (`authorization.mongo.service.ts`) are pure functions returning the new state and the result (`AbacRules`, `MongoRules`). The classes `AbacService.AuthorizationService` and `MongoService.AuthorizationMongoService` mirror them method by method over a `Store`.
- **Runner.** `TransactionRunner` covers backend classification and the query-runner protocol of `PrimaryTransaction`.
- **Guard.** `Decorator` and `Guard` cover the dynamic-parameter syntax and `canActivate`. The access check is a parameter there.
- **Consistency.** `Consistency` calls the index consistent with the graph when every row in it is derivable from the records and every derivable row is in it. It proves that in such a state the access check answers from the graph. It proves which transactions keep the index consistent, and shows how each body that diverges from it breaks it.

Entities carry their key: a record loaded by id is the stored value with that id (`Queries.PolicyAt`, `RoleAt`, `UserAt`). Absent optional ids are `None`. An absent or empty subject is `""`. Where the code and its documented intent disagree, both are modelled: an `AsWritten` member for the code, and the intended one beside it (see Findings). The service classes follow the code as written.

## Model

| member | source | states |
|---|---|---|
| Model.NewPolicyKeepsIdsBelowNext | src/authorization/services/authorization.mongo.service.ts:755-762 | a new policy takes a free id, and every stored id stays below the next one |
| PolicyKey.Encode | src/helpers/utils.ts:4-11 | the key has length \|resource\| + \|action\| + 2, starts with '$', and holds resource, a second '$', then action at fixed positions |
| PolicyKey.Decode | src/helpers/utils.ts:4-11 | a decoded pair has no '$' in its resource and encodes back to the key it came from |
| PolicyKey.DecodeEncode | src/helpers/utils.ts:10 | round trip: decoding the key of a pair whose resource has no '$' gives the pair back |
| PolicyKey.EncodeInjective | src/helpers/utils.ts:10 | on resources without '$', two pairs get the same key exactly when they are equal |
| PolicyKey.SameKeyIff | src/helpers/utils.ts:4-11 | when neither resource contains '$', two policies get the same key exactly when their resource and action agree; no other field matters |
| PolicyKey.EncodeCollision | src/helpers/utils.ts:10 | with '$' allowed, ("a$b","c") and ("a","b$c") get the same key |
| Rows.DeleteWhereCounts | src/authorization/transactions/removeUserTransaction.ts:56-63 | a delete-where removes every copy of each matching row and keeps every other row with its multiplicity |
| Rows.DeleteWhereMembers | src/authorization/transactions/removeRoleTransaction.ts:57-60 | a row survives a delete-where exactly when it was present and does not match |
| Rows.CountWherePositive | src/abac/services/abac.service.ts:896-922 | the count of rows matching a filter is positive exactly when some row matches |
| Rows.CountWhereZero | src/authorization/services/authorization.mongo.service.ts:271-300 | a zero count means no row matches |
| Rows.SubjectsWithRole | src/authorization/transactions/addPolicyToRoleTransaction.ts:117-140 | the subjects listed are exactly those with a row granted through the named role |
| Rows.DedupSpec | src/authorization/transactions/addPolicyToRoleTransaction.ts:117-140 | the reduction has no repeated element and the same elements as its input |
| Rows.ChunkSpec | src/authorization/transactions/addRoleToUser.transaction.ts:233-258 | the chunks are non-empty, hold at most n elements each, and concatenate to the input |
| Rows.RoleRows | src/authorization/transactions/addRoleToUser.transaction.ts:170-198 | one row per policy of the role, in order, with the subject, the policy's key and the role's name |
| Rows.FanOutRows | src/authorization/transactions/addPolicyToRoleTransaction.ts:141-163 | one row per subject, in order, with the policy's key and the role's name |
| Queries.FindPolicyByPair | src/abac/services/abac.service.ts:1170-1215 | a found policy is stored with the pair asked for; none is found only when no stored policy has the pair |
| Queries.RoleDocumentsOf | src/authorization/services/authorization.mongo.service.ts:504-512 | the role documents found are exactly the stored roles whose ids the list names, each with its own list of policies |
| Queries.RolesOf | src/abac/services/abac.service.ts:411-453 | the roles listed are exactly the stored roles whose ids the list names, each loaded without its policies |
| Transactions.StripRole | src/authorization/transactions/removeRoleTransaction.ts:82-109 | every record keeps its subject, and its roles lose exactly the removed id |
| Transactions.RemoveUserEffect | src/authorization/transactions/removeUserTransaction.ts:43-116 | the subject's record and every row of the subject go; other records and rows are untouched; the user goes exactly when asked |
| Transactions.RemoveRoleFromUserEffect | src/authorization/transactions/removeRoleFromUserTransaction.ts:61-125 | the record loses exactly that role id; exactly the subject's rows granted through that role go |
| Transactions.RemovePolicyFromUserDropsRoleRows | src/authorization/transactions/removePolicyFromUserTransaction.ts:80-84 | as written, the subject's row for the key granted through a role is deleted; the direct-only removal keeps it |
| Transactions.SqlAddRoleToUserEffect | src/authorization/transactions/addRoleToUser.transaction.ts:117-198 | the body fails exactly when the subject already holds the role; otherwise it records the role and adds one row per stored policy of the role, removing none |
| Transactions.SqlAddRoleToUserFetchFailure | src/authorization/transactions/addRoleToUser.transaction.ts:110-115 | when the initial fetch fails, a fresh record with only this role is saved and no row is inserted |
| Transactions.MongoAddRoleToUserRepeats | src/authorization/transactions/addRoleToUser.transaction.ts:212-231 | the document-store body appends the role id again when the subject already holds it |
| Transactions.SqlAddPolicyToRoleFanOut | src/authorization/transactions/addPolicyToRoleTransaction.ts:86-163 | the old index is kept as a prefix; exactly one new row per distinct holder of the role, with the policy's key; the role's policies gain the policy |
| Transactions.AddPolicyToRoleDuplicate | src/authorization/transactions/addPolicyToRoleTransaction.ts:86-101 | a policy already on the role is refused by the SQL body; the document-store body (lines 189-205) appends it again |
| Transactions.MongoAddPolicyToUserKeepsRecord | src/authorization/transactions/addPolicyToUserTransaction.ts:158-197 | the document-store body leaves an existing record unchanged and only appends the direct row |
| Transactions.RemoveRoleEffect | src/authorization/transactions/removeRoleTransaction.ts:39-136 | no record holds the role afterwards; exactly the rows with its name go; the SQL body removes the role record, and the document-store body differs only in keeping it |
| Transactions.RemovePolicyFromRoleEffect | src/authorization/transactions/removePolicyFromRoleTransaction.ts:46-75 | the role keeps exactly its policies with another id; exactly the role's rows with the policy's key go |
| Transactions.MongoRemovePolicyFromRoleOverDeletes | src/authorization/transactions/removePolicyFromRoleTransaction.ts:95-98 | as written, the document-store body deletes the role's rows for its other policies; the by-key version keeps them |
| Transactions.DeleteWhereAppend | src/authorization/transactions/removePolicyFromRoleTransaction.ts:64-68 | deleting from a concatenation deletes from each part |
| Transactions.WithoutPolicyAppend | src/authorization/transactions/removePolicyFromRoleTransaction.ts:54-58 | removing a just-appended policy by its id gives the list back |
| Transactions.AttachDetachPolicyRoundTrip | src/authorization/transactions/addPolicyToRoleTransaction.ts:68-166 | attaching a new policy to a role with the SQL body and then detaching it restores the roles and the index |
| Store.SaveStripped | src/authorization/transactions/removeRoleTransaction.ts:82-124 | saving the filtered records chunk by chunk gives every record without the role id |
| Store.Store.CreatePolicy | src/abac/services/abac.service.ts:1131-1168 | the new policy takes the next id and the other collections are unchanged |
| Store.Store.CreateRole | src/abac/services/abac.service.ts:657-693 | the new role has the next id, the name and no policies; nothing else changes |
| Store.Store.InsertInChunks | src/authorization/transactions/addRoleToUser.transaction.ts:233-258 | inserting chunk by chunk appends exactly the rows, in order |
| Store.Store.SaveInChunks | src/authorization/transactions/removeRoleTransaction.ts:110-124 | saving chunk by chunk saves exactly the records, in order |
| Store.Store.SaveBatch | src/authorization/transactions/removeRoleTransaction.ts:110-124 | saving one chunk saves its records in order and changes nothing else |
| Store.Store.SqlAddRoleToUser | src/authorization/transactions/addRoleToUser.transaction.ts:55-201 | the loop over the role's policies leaves the state the SQL body gives; a failure leaves the state as it was |
| Store.Store.DistinctSubjects | src/authorization/transactions/addPolicyToRoleTransaction.ts:117-140 | the loop's result is the first-occurrence reduction of the holders |
| Store.Store.FanOut | src/authorization/transactions/addPolicyToRoleTransaction.ts:141-163 | the loop builds one fan-out row per subject |
| Store.Store.SqlAddPolicyToRole | src/authorization/transactions/addPolicyToRoleTransaction.ts:68-166 | the new state and result are those of the SQL body; a failure leaves the state as it was |
| Store.Store.SqlAttachToRole | src/authorization/transactions/addPolicyToRoleTransaction.ts:103-163 | append, save and fan out give the state and result of the shared attach step |
| Store.Store.SqlAddPolicyToUser | src/authorization/transactions/addPolicyToUserTransaction.ts:68-132 | the new state and result are those of the SQL body |
| Store.Store.SqlRemoveRole | src/authorization/transactions/removeRoleTransaction.ts:39-74 | the new state is that of the SQL body, and the result is success |
| Store.Store.SqlRemovePolicyFromRole | src/authorization/transactions/removePolicyFromRoleTransaction.ts:46-75 | the new state is that of the SQL body, and the result is success |
| Store.Store.SqlRemovePolicyFromUser | src/authorization/transactions/removePolicyFromUserTransaction.ts:62-91 | the new state is that of the body; a missing record fails and leaves it unchanged |
| Store.Store.SqlRemoveRoleFromUser | src/authorization/transactions/removeRoleFromUserTransaction.ts:61-90 | the new state is that of the body; a missing record fails and leaves it unchanged |
| Store.Store.SqlRemoveUser | src/authorization/transactions/removeUserTransaction.ts:43-77 | the new state is that of the body, and the result is success |
| Store.Store.MongoAddRoleToUser | src/authorization/transactions/addRoleToUser.transaction.ts:203-261 | chunked insertion leaves the state the document-store body gives |
| Store.Store.MongoAddPolicyToRole | src/authorization/transactions/addPolicyToRoleTransaction.ts:168-261 | the new state and result are those of the document-store body |
| Store.Store.MongoAddPolicyToUser | src/authorization/transactions/addPolicyToUserTransaction.ts:134-199 | the new state and result are those of the document-store body; a failure leaves the state as it was |
| Store.Store.MongoRemoveRole | src/authorization/transactions/removeRoleTransaction.ts:76-136 | the filter-and-save loop over the holders in chunks of 10000 leaves the state the document-store body gives |
| Store.Store.MongoRemovePolicyFromRole | src/authorization/transactions/removePolicyFromRoleTransaction.ts:77-105 | the new state is that of the document-store body as written |
| Store.Store.MongoRemovePolicyFromUser | src/authorization/transactions/removePolicyFromUserTransaction.ts:93-130 | the new state is that of the body; a missing record fails and leaves it unchanged |
| Store.Store.MongoRemoveRoleFromUser | src/authorization/transactions/removeRoleFromUserTransaction.ts:92-125 | the new state is that of the body; a missing record fails and leaves it unchanged |
| Store.Store.MongoRemoveUser | src/authorization/transactions/removeUserTransaction.ts:79-116 | the new state is that of the body, and the result is success |
| Store.Store.LegacyAddPolicyToRole | src/abac/transactions/addPolicyToRoleTransaction.ts:29-125 | the older copy leaves the state and result of the SQL body |
| Store.Store.LegacyRemovePolicyFromUser | src/abac/transactions/removePolicyFromUserTransaction.ts:28-55 | the older copy leaves the state of the SQL body |
| Store.Store.LegacyRemoveRoleFromUser | src/abac/transactions/removeRoleFromUserTransaction.ts:27-54 | the older copy leaves the state of the SQL body |
| Store.Store.LegacyRemoveUser | src/abac/transactions/removeUserTransaction.ts:23-55 | the older copy leaves the state of the SQL body |
| AbacRules.WrapUnlessHttp | src/abac/services/abac.service.ts:355-369 | the error passed on is always an HTTP error and is the original whenever that was one |
| AbacRules.CheckUserAccess | src/abac/services/abac.service.ts:152-215 | fails exactly when no subject can be found: with neither subject nor id, or with a user whose subject is empty; succeeds whenever a subject is given |
| AbacRules.CheckUserAccessMeaning | src/abac/services/abac.service.ts:183-214 | access is granted exactly when, for every requested permission, the subject has an index row with its key; duplicate requests collapse and an empty request is granted |
| AbacRules.AttachRoleToUser | src/abac/services/abac.service.ts:299-371 | checks, in order, role not found, empty role and empty subject, writing nothing on failure; with a successful fetch it succeeds exactly when the subject does not hold the role yet; errors reaching the caller are HTTP errors |
| AbacRules.AttachRoleToUserById | src/abac/services/abac.service.ts:223-238 | an unknown user is refused; success means the user's subject holds the role |
| AbacRules.RemoveUser | src/abac/services/abac.service.ts:240-297 | fails exactly when the user cannot be found or has no subject; on success the subject's record and rows are gone |
| AbacRules.GetRolesForUser | src/abac/services/abac.service.ts:411-453 | the roles returned are exactly the stored roles the user's record lists; the error cases are exactly the user lookup's |
| AbacRules.GetPoliciesForUser | src/abac/services/abac.service.ts:455-497 | the policies returned are exactly the user's direct policies |
| AbacRules.GetPoliciesForRole | src/abac/services/abac.service.ts:499-520 | an unknown role gives role not found; otherwise the result is the role's policies |
| AbacRules.RemoveRoleFromUser | src/abac/services/abac.service.ts:522-607 | refuses an unknown role, then a user lookup failure, then a record that does not hold the role; success removes the role from the record |
| AbacRules.RemoveRole | src/abac/services/abac.service.ts:609-655 | as intended: refused while some record holds the role unless forced; on success the role is gone and the number of holders is reported |
| AbacRules.RemoveRoleAsWritten | src/abac/services/abac.service.ts:609-655 | as written: an unknown role is refused; a known one is refused exactly when not forced, held or not; a forced removal is the intended one |
| AbacRules.RemoveRoleAsWrittenRefusesUnheld | src/abac/services/abac.service.ts:613-627 | a role nobody holds, removed without force, is refused as written and removed as intended |
| AbacRules.CreateRole | src/abac/services/abac.service.ts:657-693 | refused exactly when a role has the name; otherwise a role with the next id, the name and no policies is stored |
| AbacRules.NamedPolicy | src/abac/services/abac.service.ts:703-764 | a policy id and a pair that name two different stored policies conflict; otherwise the policy named by id, or else by pair, is the one found |
| AbacRules.RemovePolicyFromRoleTarget | src/abac/services/abac.service.ts:695-795 | refuses insufficient policy data; a target found is a stored policy held by the role, which keeps another policy |
| AbacRules.RemovePolicyFromRole | src/abac/services/abac.service.ts:695-811 | fails exactly when the checks fail; otherwise removes the policy from the role and that key's rows of the role |
| AbacRules.AttachPolicyToUserTarget | src/abac/services/abac.service.ts:820-922 | refuses insufficient data; a target found is a stored policy for which the subject has no row, directly or through a role |
| AbacRules.AttachPolicyToUser | src/abac/services/abac.service.ts:813-949 | as written: fails exactly when the checks fail; on success the record's direct policies are exactly the new one, and its row is in the index |
| AbacRules.AttachPolicyToUserAppend | src/abac/services/abac.service.ts:813-949 | as intended: on success the policy is appended to the record's direct policies and its row is in the index |
| AbacRules.AttachPolicyToUserOverwrites | src/authorization/transactions/addPolicyToUserTransaction.ts:103-112 | attaching a second policy as written leaves the record with only that policy while the first policy's row stays |
| AbacRules.RemovePolicyFromUserTarget | src/abac/services/abac.service.ts:951-1000 | a target found is a stored policy the subject's record holds directly |
| AbacRules.RemovePolicyFromUser | src/abac/services/abac.service.ts:951-1030 | as written: on success the policy leaves the direct list and every row of the subject with its key goes |
| AbacRules.RemoveDirectPolicyFromUser | src/abac/services/abac.service.ts:951-1030 | as intended: on success only the direct row goes and role-granted rows stay |
| AbacRules.AttachPolicyToRole | src/abac/services/abac.service.ts:1032-1129 | refuses insufficient data and an unknown role; on success the attached policy is the one the id names, else the stored pair (when ids stay below nextId), else a new one; the role's policies gain it and each distinct subject holding the role gains exactly its row |
| AbacRules.AttachPolicyToRoleNeverConflicting | src/abac/services/abac.service.ts:1060-1090 | the conflicting-policy check can never fire, because an earlier check refuses every case it would catch |
| AbacRules.CreatePolicyAsWritten | src/abac/services/abac.service.ts:1131-1168 | as written: always fails and writes nothing; the error is policy-exists exactly when the pair is stored |
| AbacRules.CreatePolicy | src/abac/services/abac.service.ts:1131-1168 | as intended: refused exactly when the pair is stored; otherwise a policy with the next id is stored |
| AbacRules.CreateOrFindPolicy | src/abac/services/abac.service.ts:1170-1215 | always succeeds; a policy returned has the pair asked for; when every stored policy id is below the next id (a state the creations keep, CreationsKeepIdsBelowNext) a policy is returned |
| AbacRules.CreationsKeepIdsBelowNext | src/abac/services/abac.service.ts:1131-1215 | createPolicy, createOrFindPolicy and createRole keep every stored policy and role id below the next free id, so the next id is free |
| AbacRules.CreateOrFindPolicyAsWritten | src/abac/services/abac.service.ts:1170-1215 | over createPolicy as written, a policy comes back exactly when the pair is already stored; nothing is written |
| AbacRules.CreateOrFindPolicyAsWrittenFails | src/abac/services/abac.service.ts:1199-1214 | on an empty store the as-written version returns no policy, and the intended version creates one |
| AbacService.AuthorizationService.CheckUserAccess | src/abac/services/abac.service.ts:152-215 | the loop's early exit gives the same answer as the set comparison of the rules |
| AbacService.AuthorizationService.AttachRoleToUser | src/abac/services/abac.service.ts:299-371 | leaves the state and returns the result of the attach rule |
| AbacService.AuthorizationService.AttachRoleToUserById | src/abac/services/abac.service.ts:223-238 | leaves the state and returns the result of the by-id rule |
| AbacService.AuthorizationService.RemoveUser | src/abac/services/abac.service.ts:240-297 | leaves the state and returns the result of the remove-user rule |
| AbacService.AuthorizationService.GetRolesForUser | src/abac/services/abac.service.ts:411-453 | returns the roles the rule gives and changes nothing |
| AbacService.AuthorizationService.GetPoliciesForUser | src/abac/services/abac.service.ts:455-497 | returns the policies the rule gives and changes nothing |
| AbacService.AuthorizationService.GetPoliciesForRole | src/abac/services/abac.service.ts:499-520 | returns the policies the rule gives and changes nothing |
| AbacService.AuthorizationService.RemoveRoleFromUser | src/abac/services/abac.service.ts:522-607 | leaves the state and returns the result of the rule |
| AbacService.AuthorizationService.RemoveRole | src/abac/services/abac.service.ts:609-655 | leaves the state and returns the result of the as-written rule |
| AbacService.AuthorizationService.CreateRole | src/abac/services/abac.service.ts:657-693 | leaves the state and returns the result of the rule |
| AbacService.AuthorizationService.RemovePolicyFromRole | src/abac/services/abac.service.ts:695-811 | leaves the state and returns the result of the rule |
| AbacService.AuthorizationService.AttachPolicyToUser | src/abac/services/abac.service.ts:813-949 | leaves the state and returns the result of the as-written rule |
| AbacService.AuthorizationService.RemovePolicyFromUser | src/abac/services/abac.service.ts:951-1030 | leaves the state and returns the result of the as-written rule |
| AbacService.AuthorizationService.AttachPolicyToRole | src/abac/services/abac.service.ts:1032-1129 | leaves the state and returns the result of the rule |
| AbacService.AuthorizationService.CreatePolicy | src/abac/services/abac.service.ts:1131-1168 | returns the result of createPolicy as written and changes nothing |
| AbacService.AuthorizationService.CreateOrFindPolicy | src/abac/services/abac.service.ts:1170-1215 | returns the result of createOrFindPolicy as written and changes nothing |
| MongoRules.CheckUserAccess | src/authorization/services/authorization.mongo.service.ts:421-425 | denies every request, whatever the state |
| MongoRules.CheckUserAccessDeniesGranted | src/authorization/services/authorization.mongo.service.ts:421-425 | an empty request that the SQL check grants is denied by the document-store check |
| MongoRules.AttachRoleToUser | src/authorization/services/authorization.mongo.service.ts:629-693 | checks, in order, empty subject, unknown role and role already held (exactly when the record holds it), with no empty-role check; success appends one row per policy of the role |
| MongoRules.AttachRoleToUserById | src/authorization/services/authorization.mongo.service.ts:166-184 | an unknown user is refused; success means the user's subject holds the role |
| MongoRules.AttachPolicyToUserTarget | src/authorization/services/authorization.mongo.service.ts:186-300 | a target found is a stored policy for which the subject has no direct row; role-granted rows are not counted |
| MongoRules.AttachPolicyToUserIgnoresRoleRows | src/authorization/services/authorization.mongo.service.ts:271-300 | a policy the subject holds only through a role is attached directly by the document-store service and refused by the SQL one |
| MongoRules.AttachPolicyToUser | src/authorization/services/authorization.mongo.service.ts:186-334 | as written: fails exactly when the checks fail; on success the direct row is added and the records are unchanged |
| MongoRules.AttachPolicyToUserRecorded | src/authorization/services/authorization.mongo.service.ts:186-334 | as intended: on success the policy also joins the record's direct policies |
| MongoRules.RemovePolicyFromUserTarget | src/authorization/services/authorization.mongo.service.ts:336-400 | refuses an unknown user or policy, an empty subject, a missing record (reading its fields fails) and a policy the record does not hold |
| MongoRules.RemovePolicyFromUser | src/authorization/services/authorization.mongo.service.ts:336-419 | on success the policy leaves the record and the subject has no row with its key |
| MongoRules.AttachThenRemovePolicy | src/authorization/services/authorization.mongo.service.ts:186-419 | a policy attached as written cannot be removed again (not attached), while after the intended attach it can |
| MongoRules.GetPoliciesForUserAsWritten | src/authorization/services/authorization.mongo.service.ts:427-469 | as written: never returns a policy; fails exactly when the user lookup fails or the subject has no record |
| MongoRules.GetPoliciesForUser | src/authorization/services/authorization.mongo.service.ts:427-469 | as intended: fails exactly when the user lookup fails; otherwise exactly the record's direct policies, and none for a subject without a record |
| MongoRules.GetRolesForUserAsWritten | src/authorization/services/authorization.mongo.service.ts:471-513 | as written: never returns a role when the record lists one; fails when there is no record |
| MongoRules.GetRolesForUser | src/authorization/services/authorization.mongo.service.ts:471-513 | as intended: fails exactly when the user lookup fails; otherwise exactly the stored role documents the record lists, each with its policies, and none for a subject without a record |
| MongoRules.GettersInverted | src/authorization/services/authorization.mongo.service.ts:427-513 | a user holding one policy and one role gets neither back as written, and both with the intended getters |
| MongoRules.GetRole | src/authorization/services/authorization.mongo.service.ts:826-848 | an unknown role gives role not found; otherwise the stored role document: its id, its name and its policies |
| MongoRules.RemoveRoleAsWritten | src/authorization/services/authorization.mongo.service.ts:579-627 | as written: never succeeds and writes nothing; refuses an unknown role, then a held role without force, then fails on the unset transaction |
| MongoRules.RemoveRole | src/authorization/services/authorization.mongo.service.ts:579-627 | as intended: after the same checks no record holds the role, none of its rows remain, the role record stays, and the holder count is reported |
| MongoRules.RemoveRoleNeverRemoves | src/authorization/services/authorization.mongo.service.ts:579-627 | a role nobody holds still cannot be removed as written, while the intended version succeeds and reports no holders |
| MongoRules.RemoveRoleFromUser | src/authorization/services/authorization.mongo.service.ts:894-973 | refuses an unknown role, a user lookup failure, and (exactly) a record that does not hold the role; success removes the role and its rows for the subject |
| MongoRules.AttachPolicyToRole | src/authorization/services/authorization.mongo.service.ts:993-1073 | refuses insufficient data, an unknown role and conflicting ids; on success the attached policy is the one the id names, and without an id always a new Policy(nextId, resource, action), even when the pair is stored; the role's policies gain it and each distinct subject holding the role gains exactly its row |
| MongoRules.AttachPolicyToRoleDuplicatesPair | src/authorization/services/authorization.mongo.service.ts:1010-1067 | given only a stored pair, the document-store service creates a second policy with that pair, where the SQL service reuses the stored one |
| MongoRules.RemovePolicyFromRoleAsWritten | src/authorization/services/authorization.mongo.service.ts:1075-1190 | never succeeds and writes nothing; the checks' errors come first; with identifiers compared by value the checks can pass, and then the unset transaction fails (as written, the reference comparison at line 1152 refuses every attached policy before that point) |
| MongoRules.RemovePolicyFromRole | src/authorization/services/authorization.mongo.service.ts:1075-1190 | as intended: fails exactly when the checks fail; otherwise the policy leaves the role and exactly the role's rows with its key go |
| MongoRules.CreateOrFindPolicy | src/authorization/services/authorization.mongo.service.ts:771-795 | a stored policy with the pair is returned; otherwise the result and state are those of createPolicy |
| MongoRules.WhereClause | src/authorization/services/authorization.mongo.service.ts:850-872 | the clause's keys are exactly the filter's keys, with "id" renamed to "_id" |
| MongoRules.WhereClauseValues | src/authorization/services/authorization.mongo.service.ts:850-872 | each key holds the value of the last entry renamed to it |
| MongoRules.ConvertWhere | src/authorization/services/authorization.mongo.service.ts:850-872 | an absent filter gives the empty clause; every other key is kept, and "id" never remains as a key |
| MongoService.AuthorizationMongoService.CheckUserAccess | src/authorization/services/authorization.mongo.service.ts:421-425 | denies every request |
| MongoService.AuthorizationMongoService.AttachRoleToUser | src/authorization/services/authorization.mongo.service.ts:629-693 | the scan over the held roles, with its exit out of the loop, leaves the state and result of the rule |
| MongoService.AuthorizationMongoService.AttachRoleToUserById | src/authorization/services/authorization.mongo.service.ts:166-184 | leaves the state and returns the result of the by-id rule |
| MongoService.AuthorizationMongoService.AttachPolicyToUser | src/authorization/services/authorization.mongo.service.ts:186-334 | leaves the state and returns the result of the as-written rule |
| MongoService.AuthorizationMongoService.RemovePolicyFromUser | src/authorization/services/authorization.mongo.service.ts:336-419 | leaves the state and returns the result of the rule |
| MongoService.AuthorizationMongoService.GetPoliciesForUser | src/authorization/services/authorization.mongo.service.ts:427-469 | returns the as-written result and changes nothing |
| MongoService.AuthorizationMongoService.GetRolesForUser | src/authorization/services/authorization.mongo.service.ts:471-513 | returns the as-written result and changes nothing |
| MongoService.AuthorizationMongoService.RemoveUser | src/authorization/services/authorization.mongo.service.ts:523-577 | leaves the state and returns the result of the remove-user rule |
| MongoService.AuthorizationMongoService.RemoveRole | src/authorization/services/authorization.mongo.service.ts:579-627 | returns the as-written result and changes nothing |
| MongoService.AuthorizationMongoService.CreatePolicy | src/authorization/services/authorization.mongo.service.ts:734-769 | leaves the state and returns the result of createPolicy as intended |
| MongoService.AuthorizationMongoService.CreateOrFindPolicy | src/authorization/services/authorization.mongo.service.ts:771-795 | leaves the state and returns the result of the rule |
| MongoService.AuthorizationMongoService.CreateRole | src/authorization/services/authorization.mongo.service.ts:797-824 | leaves the state and returns the result of createRole |
| MongoService.AuthorizationMongoService.GetRole | src/authorization/services/authorization.mongo.service.ts:826-848 | returns the rule's result and changes nothing |
| MongoService.AuthorizationMongoService.RemoveRoleFromUser | src/authorization/services/authorization.mongo.service.ts:894-973 | leaves the state and returns the result of the rule |
| MongoService.AuthorizationMongoService.AttachPolicyToRole | src/authorization/services/authorization.mongo.service.ts:993-1073 | leaves the state and returns the result of the rule |
| MongoService.AuthorizationMongoService.RemovePolicyFromRole | src/authorization/services/authorization.mongo.service.ts:1075-1190 | returns the as-written result and changes nothing |
| MongoService.AuthorizationMongoService.ConvertWhere | src/authorization/services/authorization.mongo.service.ts:850-872 | the loop that assigns one key per entry builds the clause the rule gives |
| TransactionRunner.Classify | src/helpers/transaction.ts:27-37 | SQL exactly for the five SQL types, Mongo exactly for "mongodb", and the unsupported-connection error for every other type |
| TransactionRunner.SqlProtocolShape | src/helpers/transaction.ts:82-95 | a run connects, starts and executes first; commits exactly when the body succeeds and rolls back exactly when it fails; releases exactly once, last |
| TransactionRunner.PrimaryTransaction.RunSql | src/helpers/transaction.ts:79-96 | the runner goes through exactly the protocol's events, ends released and out of the transaction, and the body's outcome is returned or rethrown unchanged |
| TransactionRunner.PrimaryTransaction.RunMongo | src/helpers/transaction.ts:69-77 | the body runs inside one document-store transaction and its outcome is returned |
| TransactionRunner.PrimaryTransaction.Run | src/helpers/transaction.ts:51-67 | dispatches by the backend kind to the SQL protocol or the document-store session |
| TransactionRunner.NewTransaction | src/helpers/transaction.ts:26-38 | fails with the unsupported-connection error exactly when classification fails; otherwise the kind is the classified one |
| Decorator.SourceName | src/authorization/decorators/abac.decorator.ts:9-13 | each source name is non-empty and has no colon |
| Decorator.GetKeySource | src/authorization/decorators/abac.decorator.ts:29-44 | a source found is one whose tag the value starts with; any other value gives the invalid-dynamic-parameter error |
| Decorator.GetKeySourceIffDynamic | src/authorization/decorators/abac.decorator.ts:17-44 | the source is found exactly for the values the dynamic-parameter check accepts |
| Decorator.TagsExclusive | src/authorization/decorators/abac.decorator.ts:18-25 | no value starts with two different tags |
| Decorator.GetKeySourceRoundTrip | src/authorization/decorators/abac.decorator.ts:39-43 | for every source and every key, the source of the tagged key is that source |
| Decorator.SplitSecond | src/authorization/guards/authorization.guard.ts:116 | the second field is absent exactly when the value has no colon, and never contains a colon |
| Decorator.SplitSecondTagged | src/authorization/guards/authorization.guard.ts:116 | for a tagged key without colons the second field is the key, also when a further colon follows |
| Guard.Field | src/authorization/guards/authorization.guard.ts:127-149 | a value is found exactly when the chosen request map has the key |
| Guard.DynamicValue | src/authorization/guards/authorization.guard.ts:110-125 | fails with the invalid-dynamic-parameter error exactly when the value is not dynamic |
| Guard.DynamicValueReads | src/authorization/guards/authorization.guard.ts:110-149 | a tagged key reads exactly that field of the map its tag names |
| Guard.Resolve | src/authorization/guards/authorization.guard.ts:98-105 | a dynamic value becomes its request lookup and any other value is copied |
| Guard.ConvertConfig | src/authorization/guards/authorization.guard.ts:87-108 | the permission's keys are resource, action and exactly the keys of the entry |
| Guard.ConvertConfigSets | src/authorization/guards/authorization.guard.ts:95-106 | each key takes the resolved value of its last occurrence |
| Guard.ConvertConfigUnset | src/authorization/guards/authorization.guard.ts:91-94 | resource and action stay null unless the entry sets them |
| Guard.ConvertEntry | src/authorization/guards/authorization.guard.ts:87-108 | the loop over the entry's keys builds the permission the function gives |
| Guard.Permissions | src/authorization/guards/authorization.guard.ts:54-62 | one permission per entry, in the same order |
| Guard.Present | src/authorization/guards/authorization.guard.ts:54-62 | the entries, in order, when none is null |
| Guard.SubjectOf | src/authorization/guards/authorization.guard.ts:67-75 | the user's subject field when it is a non-empty string, and the user value itself otherwise |
| Guard.CanActivate | src/authorization/guards/authorization.guard.ts:35-85 | passes without consulting the check when no entry is truthy; a null entry beside a truthy one fails; otherwise passes exactly when the check grants the built permissions and fails unauthorized otherwise |
| Guard.CanActivateSkipsCheck | src/authorization/guards/authorization.guard.ts:47-53 | without a truthy entry the outcome is the same whatever the access check says |
| Guard.CanActivateResolvesEntry | src/authorization/guards/authorization.guard.ts:87-124 | a dynamic resource reaches the check as the request's field, and a literal action as written |
| Consistency.HasRowIffGrants | src/abac/services/abac.service.ts:196-214 | in a consistent state the index has a row of the subject with a key exactly when the graph grants the key, directly or through a held role |
| Consistency.AccessMatchesGraph | src/abac/services/abac.service.ts:152-215 | in a consistent state access is granted exactly when the graph grants every requested pair |
| Consistency.KeyCollisionGrantsOther | src/helpers/utils.ts:10 | a subject granted ("a$b","c") passes the check for ("a","b$c") |
| Consistency.RemoveUserKeeps | src/authorization/transactions/removeUserTransaction.ts:43-116 | removeUser keeps the index consistent with the graph |
| Consistency.RemoveRoleFromUserKeeps | src/authorization/transactions/removeRoleFromUserTransaction.ts:61-125 | removeRoleFromUser keeps it when role names are unique |
| Consistency.SqlAddRoleToUserKeeps | src/authorization/transactions/addRoleToUser.transaction.ts:55-201 | addRoleToUser keeps it after a successful fetch |
| Consistency.GainRoleKeeps | src/authorization/transactions/addRoleToUser.transaction.ts:155-198 | recording a role and inserting one row per policy of the role keeps it |
| Consistency.GrowsDerivable | src/authorization/transactions/addPolicyToRoleTransaction.ts:103-114 | a row derivable before a role gains policies stays derivable |
| Consistency.RowHolderHoldsRole | src/authorization/transactions/addPolicyToRoleTransaction.ts:117-140 | in a sound state with unique role names, a subject with a row of the role holds the role |
| Consistency.AttachToRoleKeeps | src/authorization/transactions/addPolicyToRoleTransaction.ts:103-163 | the attach-and-fan-out step keeps the index consistent when role names are unique and no held role is empty |
| Consistency.AttachToRoleComplete | src/authorization/transactions/addPolicyToRoleTransaction.ts:103-163 | after that step every derivable row is in the index |
| Consistency.FanOutReaches | src/authorization/transactions/addPolicyToRoleTransaction.ts:117-163 | every holder of a non-empty role receives the new policy's row |
| Consistency.SqlAddPolicyToRoleKeeps | src/authorization/transactions/addPolicyToRoleTransaction.ts:68-166 | the SQL addPolicyToRole body keeps the index consistent, role names unique and held roles non-empty |
| Consistency.SameGraph | src/helpers/utils.ts:4-11 | consistency depends only on the records, the roles and the index, not on the policy table |
| Consistency.SqlRemovePolicyFromRoleKeeps | src/authorization/transactions/removePolicyFromRoleTransaction.ts:46-75 | the SQL removePolicyFromRole body keeps it when the role's policies with that key are exactly those with its id |
| Consistency.RemovePolicyFromRoleSound | src/authorization/transactions/removePolicyFromRoleTransaction.ts:46-75 | every row that survives the removal is still granted |
| Consistency.RemovePolicyFromRoleComplete | src/authorization/transactions/removePolicyFromRoleTransaction.ts:46-75 | every grant that remains still has its row |
| Consistency.RemovesRoleKeeps | src/authorization/transactions/removeRoleTransaction.ts:39-136 | stripping a role from all records and deleting its rows keeps it |
| Consistency.RemoveRoleKeeps | src/authorization/transactions/removeRoleTransaction.ts:39-136 | both removeRole bodies keep it; the role record the document-store body leaves grants nothing |
| Consistency.RowsHaveRecords | src/authorization/transactions/removeUserTransaction.ts:49-63 | in a sound state every row's subject has a record |
| Consistency.AddDirectPolicyToUserKeeps | src/authorization/transactions/addPolicyToUserTransaction.ts:68-132 | the intended addPolicyToUser keeps it |
| Consistency.RemoveDirectPolicyFromUserKeeps | src/authorization/transactions/removePolicyFromUserTransaction.ts:62-91 | the intended removePolicyFromUser keeps it when the direct policies with the key are exactly those with the id |
| Consistency.CreateRoleKeeps | src/abac/services/abac.service.ts:657-693 | createRole keeps role names unique and the index consistent |
| Consistency.AttachRoleToUserKeeps | src/abac/services/abac.service.ts:299-371 | the SQL attachRoleToUser keeps the index consistent and every held role non-empty |
| Consistency.MongoAttachRoleToUserKeeps | src/authorization/services/authorization.mongo.service.ts:629-693 | from a consistent state, the document-store attachRoleToUser keeps every index row derivable from the records and every derivable row in the index |
| Consistency.RemovePolicyFromUserBreaksComplete | src/authorization/transactions/removePolicyFromUserTransaction.ts:80-84 | as written, removing a policy the subject also holds through a role deletes a row the graph still grants |
| Consistency.SqlAddPolicyToUserBreaksSound | src/authorization/transactions/addPolicyToUserTransaction.ts:103-112 | as written, overwriting the direct list leaves a row the graph no longer grants |
| Consistency.MongoAddPolicyToUserBreaksSound | src/authorization/transactions/addPolicyToUserTransaction.ts:158-197 | the document-store body adds a direct row that the unchanged record does not grant |
| Consistency.MongoRemovePolicyFromRoleBreaksComplete | src/authorization/transactions/removePolicyFromRoleTransaction.ts:95-98 | as written, a holder loses the row for another policy the role keeps |
| Consistency.MongoEmptyRoleMissesFanOut | src/authorization/services/authorization.mongo.service.ts:629-693 | a role without policies attached by the document-store service, then given a policy, never grants it to that holder in the index |
| Consistency.NoRowsOfEmptyRole | src/authorization/transactions/addPolicyToRoleTransaction.ts:117-140 | in a sound state no row is granted through a role without policies |
| Consistency.NoSubjectsWithRole | src/authorization/transactions/addPolicyToRoleTransaction.ts:117-140 | with no row of the role there are no holders to fan out to |

## Left out

- Store faults inside transaction bodies (a failing save or delete) are not modelled in the bodies. The runner takes a body's outcome as a parameter and proves that any failure is rolled back and rethrown.
- Faults of connect, startTransaction, commitTransaction and release are not modelled. Each step is assumed to succeed.
- Concurrency is not modelled: no `Promise.all` interleavings and no lost updates between concurrent calls. Each call is sequential and each transaction atomic.
- Logger output, raw SQL strings, document-store aggregate pipelines and TypeORM query building are not modelled. Each query is an abstract read or write of the state.
- AbacRules.RemoveRole: `usersAffected` is, as written, the rows array the raw COUNT query returns (abac.service.ts:613-619). The model reports the number of records that hold the role instead.
- The document-store code compares ObjectIds by reference in some places (`!=` at lines 249, 1048 and 1121 of authorization.mongo.service.ts and at line 85 of removePolicyFromRoleTransaction.ts, `==` at line 1152 of the service) and by `toString` in others. The model compares identifiers by value throughout. So in removePolicyFromRole the attached-policy check can pass in the model, while as written it refuses every policy with PolicyNotAttachedOnRole. The conflicting-data checks of attachPolicyToUser and attachPolicyToRole refuse in the model only ids that really differ.
- MongoRules.GetRolesForUser: returns the documents in the order of the record's list and repeats a listed id. A document-store `$in` find returns each matching document once, in store order. Only the set of roles returned is promised.
- Transactions.JsText: document-store attachPolicyToRole with an absent resource or action stores the text "undefined" in that field of the new policy. The key `${undefined}` is rendered correctly. The stored document would hold null or omit the field, so only the model would find that policy by the literal pair ("undefined", "undefined").
- The failure of `new ObjectId(...)` on a malformed id is not modelled. Identifiers are natural numbers.
- The SQL store can hold two UserPermissions records for one subject; this happens when the fetch in addRoleToUser fails. The model keys records by subject, so the fresh record replaces the old one.
- JavaScript falsiness of id 0 is not modelled. Absent ids are `None`.
- Document-store records that lack a policies or roles field are not modelled. Every record has both lists.
- Request and user values other than strings are not modelled. The guard reads strings, and the whole user is passed as `WholeUser`.
- Connection lifecycle is not modelled: `onModuleInit`, `onModuleDestroy`, data-source creation, and the pass-through finds `getUsers`, `getRoles`, `getPolicies` and SQL `getRole`.
- The `execute` bodies of the older `src/abac/transactions` classes are never called by `PrimaryTransaction`. They are modelled as the SQL step they contain, not as reachable code.
- The SQL removeUser body names the document-store entity classes. It is modelled by what it does to the state.
- The document-store lookups written as `where: { id: ... }` are modelled as lookups by identifier.
- Messages and HTTP status codes of the exceptions are not modelled. The model has one `Error` datatype.
- Consistency.MongoAttachRoleToUserKeeps: does not state that held roles stay non-empty, as the SQL Consistency.AttachRoleToUserKeeps does, because lines 629-693 have no empty-role check. A role attached while empty then misses its later policies; Consistency.MongoEmptyRoleMissesFanOut gives such a case.

## Findings

| source | as written | input that shows it | evidently intended | confidence | as-written member | corrected member |
|---|---|---|---|---|---|---|
| src/abac/services/abac.service.ts:813-949 | the record is loaded without its policies, so the SQL body saves it with only the new policy | attach ("doc","read"), then ("doc","write"), to one user | the new policy is appended to the direct list | not executed | AbacRules.AttachPolicyToUserOverwrites | AbacRules.AttachPolicyToUserAppend |
| src/authorization/transactions/removePolicyFromUserTransaction.ts:80-84 | every row of the subject with the policy's key is deleted, role-granted ones too | a user holding policy p directly and through a role, then removing p | only the direct row goes | not executed | Transactions.RemovePolicyFromUserDropsRoleRows | Transactions.RemoveDirectPolicyFromUser |
| src/authorization/transactions/removePolicyFromRoleTransaction.ts:95-98 | every row of the role is deleted, whatever its key | a role with policies p and q, held by a user, removing p | only the role's rows with p's key go | not executed | Transactions.MongoRemovePolicyFromRoleOverDeletes | Transactions.MongoRemovePolicyFromRoleByKey |
| src/abac/services/abac.service.ts:1131-1168 | the new policy is saved through the role repository, so no policy is created | createPolicy("doc","read") on an empty store | the policy is stored | not executed | AbacRules.CreateOrFindPolicyAsWrittenFails | AbacRules.CreatePolicy |
| src/authorization/services/authorization.mongo.service.ts:427-513 | the length test is inverted: a non-empty list returns nothing and an empty one is looked up | a user with one direct policy and one role | each getter returns what the record lists | not executed | MongoRules.GettersInverted | MongoRules.GetRolesForUser |
| src/authorization/services/authorization.mongo.service.ts:579-627 | the removeRole transaction is never constructed, so the run fails after the checks | removing a role nobody holds | the role is stripped from every record and its rows go, while the role record stays (as the document-store body does) | not executed | MongoRules.RemoveRoleNeverRemoves | MongoRules.RemoveRole |
| src/authorization/services/authorization.mongo.service.ts:1075-1190 | the removePolicyFromRole transaction is never constructed, so a run that passes the checks fails; with identifiers compared by value, as the model does, the checks pass. As written, the reference `==` at line 1152 already refuses every attached policy with PolicyNotAttachedOnRole | removing one of two policies from a role: with by-value identifiers it reaches the unset transaction, and as written it stops at line 1163 | the policy leaves the role | not executed | MongoRules.RemovePolicyFromRoleAsWritten | MongoRules.RemovePolicyFromRole |
| src/abac/services/abac.service.ts:609-655 | the COUNT query's result is a non-empty rows array, always truthy, so every removal without force is refused | a role nobody holds, removed without force | refused only while some record holds the role | not executed | AbacRules.RemoveRoleAsWrittenRefusesUnheld | AbacRules.RemoveRole |
| src/authorization/transactions/addPolicyToUserTransaction.ts:158-197 | the policy is never added to the record, so it cannot be removed again | attach p to a user, then remove p | the record lists p | not executed | MongoRules.AttachThenRemovePolicy | MongoRules.AttachPolicyToUserRecorded |
