# kaal-db directory client and transaction counter, modelled in Dafny

This project models three parts of the kaal-db PHP library:

- **The LDAP session** (`src/LDAP/LDAP.php`). This covers:
  - the constructor's option loop and the per-URI registry;
  - the busy-retry loop shared by `list`, `read`, `add` and `modify`;
  - `search`, `list`, `read` and `move`;
  - the add/modify upsert, with its existence probe and its two hand-overs;
  - the replace set that `modify` builds;
  - the recursive `delete`.
- **The record factories** (`src/LDAP/Entry.php`): `fromArray` and `fromResultEntry`. They build a record one property assignment at a time, with PHP's ordered-array semantics.
- **The nested-transaction counter** (`src/PDO/PDO.php`): `beginTransaction`, `commit`, `rollBack`, `cancelTransaction`, `completeTransaction`, `inTransaction` and the per-DSN registry.

The directory server is an oracle. `server(i)` is the reply to the i-th request the session issues. Each operation is specified by a pure function in `LdapProtocol`. That function gives the operation's outcome and the exact requests it issues. The `Session` class (its `sent` field records the requests) is proved to do exactly that. The properties are lemmas about these specification functions. Examples:

- the shape of the retry loop;
- upsert runs only target the given DN;
- a record comes only from a successful add or modify's Post-Read value;
- the add/modify ping-pong can go round for ever.

`delete` works against a model of the directory tree (`LdapDirectory.Directory`). The tree's entries are root-first RDN paths, and the server keeps them closed under "parent of". The database driver under the transaction counter is replaced by a trace of the driver calls it would receive.

Files:
- `php.dfy`: PHP values, ordered arrays, and PHP 8's `intval` on integers, booleans, strings and arrays.
- `entry.dfy`: records.
- `ldap_options.dfy`: the constructor's option loop.
- `ldap_mods.dfy`: `modify`'s replace set.
- `ldap_protocol.dfy`: replies, the retry loop and the specification functions.
- `ldap_directory.dfy`: the directory tree.
- `ldap.dfy`: the session, `delete`, and the registry.
- `pdo.dfy`: the transaction counter.

Points where the code behaves in a way its names or comments do not suggest:

- **Busy-retry budget.** The budget is pre-decremented (`--$tries <= 0`). A budget of N sends at most N requests, so only N−1 BUSY replies are retried, and budgets 0 and 1 both give up at the first BUSY. With budget 2 and replies BUSY, BUSY, SUCCESS, the call fails (see `LdapProtocol.BudgetOfTwoStopsAtSecondBusy` and `LdapProtocol.BudgetsZeroAndOneAgree`).
- **`search` does not retry.** Any parsed status other than success raises before the BUSY branch, so exactly one request is sent.
- **Modify falling back to add.** The add request carries the caller's original array, including `-`-marked, null and empty attributes. It does not carry only the attributes that survive.
- **`delete`.** It does not remove a non-leaf entry (see Findings).
- **`move`.** The rename request carries an empty new RDN, so it asks for a DN with no leaf RDN (see Findings).

## Model

| member | source | states |
|---|---|---|
| Php.PutEffect | src/LDAP/Entry.php:29 | `$entry->$key = $value` makes the key hold the value. A new key is appended at the end and an existing key keeps its place. Distinct keys stay distinct. |
| Php.PutOther | src/LDAP/Entry.php:29 | An assignment leaves the value of every other key unchanged. |
| Php.PutAllLookup | src/LDAP/Entry.php:28-30 | After a run of assignments, each key holds its LAST assigned value. Keys never assigned keep their old value. |
| Php.PutAllKeys | src/LDAP/Entry.php:28-30 | After a run of assignments, the keys are the old keys followed by the new keys, in order of first assignment. |
| Php.PutAllDistinct | src/LDAP/Entry.php:28-30 | Assignments never create a duplicate key. |
| Php.PutAllRebuilds | src/LDAP/Entry.php:26-32 | Assigning an array with distinct keys pair by pair into an empty object rebuilds exactly that array: same keys, values and order. |
| Php.IntValOfIntString | src/LDAP/LDAP.php:81 | `intval` reads back PHP's decimal rendering of every 64-bit integer. Anything after the number that cannot continue it is ignored, so `"42 apples"` gives 42. |
| Php.IntValScientific | src/LDAP/LDAP.php:81 | A string `<m>e<k>` converts to m·10^k, saturated to the 64-bit range. |
| Php.IntValDropsFraction | src/LDAP/LDAP.php:81 | A string `<m>.<digits>` converts to m: the fraction is truncated. |
| Php.IntValExponent | src/LDAP/LDAP.php:81 | `intval("1e3")` is 1000. |
| Php.IntValSaturates | src/LDAP/LDAP.php:81 | `intval("1e20")` is `PHP_INT_MAX`. |
| Php.IntValScaledFraction | src/LDAP/LDAP.php:87 | `intval("2.5e1")` is 25. |
| Php.IntValUnitSuffix | src/LDAP/LDAP.php:87 | `intval("5s")` is 5. |
| Php.IntValTruncates | src/LDAP/LDAP.php:87 | `intval("7.9")` is 7. |
| Php.IntValNonNumeric | src/LDAP/LDAP.php:81 | `intval("apples")` is 0 and `intval(true)` is 1. |
| LdapEntry.FromArray | src/LDAP/Entry.php:26-32 | The record is the ordered fold of the array's pairs. For an array with distinct keys it holds exactly that array. |
| LdapEntry.FromResultEntry | src/LDAP/Entry.php:11-24 | The record is the fold of one assignment per cursor attribute, followed by `dn`. Its `dn` property is the cursor's DN. |
| LdapEntry.TransportValuesRoundTrip | src/LDAP/Entry.php:18-20 | Dropping `count` and reindexing gives back exactly the transport's values, in order, under keys 0..n-1. |
| LdapEntry.RecordAttribute | src/LDAP/Entry.php:13-21 | Every attribute other than `dn` holds the values of the last cursor attribute with that name, with the count removed. A name never visited is absent. |
| LdapEntry.RecordDn | src/LDAP/Entry.php:22 | `dn` is the cursor DN, even when the server also returned an attribute named `dn`. |
| LdapEntry.RecordKeys | src/LDAP/Entry.php:11-24 | The property names are the visited attribute names in first-visit order, then `dn` if it is new. No name appears twice. |
| LdapOptions.ParseForwards | src/LDAP/LDAP.php:76-102 | The transport receives the protocol version 3 first, then every option below 0x7000 exactly once and in input order, and never a private option. |
| LdapOptions.ParseSettings | src/LDAP/LDAP.php:77-100 | Each setting comes from the last option naming it, clamped (tries ≤ 0 → 0, wait ≤ 0 → 1000), or keeps its default (10, 1000, anonymous bind). The budget is ≥ 0 and the wait > 0. |
| LdapMods.ModValues | src/LDAP/LDAP.php:328-335 | A pair's value list is empty exactly when the key is `-`-marked, or the value is null or an empty array. Otherwise a scalar gives a one-value list and an array gives its values, reindexed. |
| LdapMods.BuildMods | src/LDAP/LDAP.php:320-336 | The `foreach` builds the replace set (the ordered fold of the normalised pairs), and its names are distinct. |
| LdapMods.ModSetAttribute | src/LDAP/LDAP.php:320-336 | Each attribute in the replace set comes from the last input pair naming it after prefix stripping. A name no pair uses is absent. |
| LdapMods.PrefixedNamesShareAttribute | src/LDAP/LDAP.php:323-329 | `-cn` and `+cn` both address `cn`, and `-cn` deletes it. |
| LdapProtocol.RetryShape | src/LDAP/LDAP.php:215-236 | The retry loop sends between 1 and max(budget, 1) requests, all of them the same request. The reply to the last one decides the outcome. |
| LdapProtocol.RetryBusyPrefix | src/LDAP/LDAP.php:226-232 | Every reply but the last was BUSY. |
| LdapProtocol.RetryExhausted | src/LDAP/LDAP.php:226-229 | A final BUSY means the budget was spent: exactly max(budget, 1) requests were sent. |
| LdapProtocol.RetryAnswered | src/LDAP/LDAP.php:217-236 | A first reply that is not BUSY ends the loop after one request, with that reply's verdict. |
| LdapProtocol.RetryAbsorbs | src/LDAP/LDAP.php:226-232 | k BUSY replies followed by another reply cost k+1 requests when k < budget, and that other reply decides. |
| LdapProtocol.BudgetOfTwoStopsAtSecondBusy | src/LDAP/LDAP.php:226-229 | With replies BUSY, BUSY, SUCCESS, budget 2 raises BUSY after two requests, and budget 3 succeeds on the third. |
| LdapProtocol.BudgetsZeroAndOneAgree | src/LDAP/LDAP.php:226-229 | A budget of 0 or 1 sends exactly one request and lets its reply decide, BUSY included, so budgets 0 and 1 behave alike. |
| LdapProtocol.ProbeAbsent | src/LDAP/LDAP.php:259-264 | A probe answered NO_SUCH_OBJECT fails after one read. |
| LdapProtocol.AddOutcome | src/LDAP/LDAP.php:253-304 | Whatever the server replies, `add` sends only reads, adds of the caller's array and modifies with its replace set, all at the DN. A record comes only from a successful add or modify's Post-Read value. ALREADY_EXISTS is raised only by a modify, and NO_SUCH_OBJECT only by an add. |
| LdapProtocol.AttemptAddOutcome | src/LDAP/LDAP.php:269-302 | The same, for the add loop after the probe. |
| LdapProtocol.ModifyOutcome | src/LDAP/LDAP.php:337-371 | The same, for `modify`. |
| LdapProtocol.ModifyHandOverOutcome | src/LDAP/LDAP.php:358-360 | The same, for a `modify` that hands over to `add`. |
| LdapProtocol.AddHandsOver | src/LDAP/LDAP.php:286-288 | An add answered ALREADY_EXISTS hands over to `modify` after exactly that one request. |
| LdapProtocol.ModifyHandsOver | src/LDAP/LDAP.php:358-360 | A modify answered NO_SUCH_OBJECT hands over to `add` after exactly that one request. |
| LdapProtocol.ModifyOfMissingEntryAdds | src/LDAP/LDAP.php:358-360 | Modifying a missing entry takes three requests (modify, read, add). The record comes from the add's Post-Read value. |
| LdapProtocol.UpsertRound | src/LDAP/LDAP.php:259-360 | If the server answers NO_SUCH_OBJECT to the probe, ALREADY_EXISTS to the add and NO_SUCH_OBJECT to the modify, one round brings `add` back to where it started after three requests, with two units of fuel spent and nothing settled. |
| LdapProtocol.UpsertNeverSettles | src/LDAP/LDAP.php:259-360 | If the server keeps answering every probe and modify with NO_SUCH_OBJECT and every add with ALREADY_EXISTS, `add` never settles, whatever the fuel. It always ends in `OutOfFuel`, after a probe, an add and a modify for each two units of fuel. |
| LdapDirectory.Directory.ListChildren | src/LDAP/LDAP.php:376 | The one-level list fails for a missing DN and otherwise yields exactly its children. |
| LdapDirectory.Directory.DeleteEntry | src/LDAP/LDAP.php:390 | The server deletes exactly an existing leaf, refuses anything else, and keeps the tree closed. |
| Ldap.Session.constructor | src/LDAP/LDAP.php:69-108 | The settings and option-setter calls are those of the option fold. No request is sent yet. The session is registered under its URI. |
| Ldap.Registry.GetInstance | src/LDAP/LDAP.php:115-121 | A known URI returns the registered session, whatever the options. An unknown one creates, registers and returns a new session. |
| Ldap.Session.Exchange | src/LDAP/LDAP.php:269-302 | The busy-retry loop sends exactly the requests of `Retry` and returns its verdict. |
| Ldap.Session.Search | src/LDAP/LDAP.php:127-172 | One request. Anything but success raises. The records are those of the cursor entries, in order. |
| Ldap.Session.List | src/LDAP/LDAP.php:174-211 | The retry loop, then one record per cursor entry. |
| Ldap.Session.Read | src/LDAP/LDAP.php:213-245 | The retry loop, then the record of the first entry. An empty cursor raises. |
| Ldap.Session.Add | src/LDAP/LDAP.php:253-304 | Sends exactly the requests of `AddSpec` and returns the record of the Post-Read value it settles on, or its failure. |
| Ldap.Session.Modify | src/LDAP/LDAP.php:314-372 | Sends exactly the requests of `ModifySpec`, with the replace set built from the caller's array, and returns its record or failure. |
| Ldap.Session.AddValues | src/LDAP/LDAP.php:259-267 | The probe, then a hand-over to `modify` or the add loop, as in `AddSpec`. |
| Ldap.Session.Probe | src/LDAP/LDAP.php:259-264 | The probe sends the requests of `read` and swallows every failure into "absent". |
| Ldap.Session.InsertValues | src/LDAP/LDAP.php:269-302 | The add loop, as in `AttemptAdd`. |
| Ldap.Session.ModifyValues | src/LDAP/LDAP.php:320-371 | The replace set, then the modify loop, as in `ModifySpec`. |
| Ldap.Session.Move | src/LDAP/LDAP.php:395-400 | Sends one rename request, with new RDN `""`, the new parent, and the old RDN deleted. It does not retry, and anything but success raises. |
| Ldap.Session.MoveKeepingName | src/LDAP/LDAP.php:395-400 | The corrected `move`: the same single request, except that its new RDN is the entry's own leaf RDN. |
| LdapProtocol.MoveLosesLeafName | src/LDAP/LDAP.php:397 | As written, the one rename request carries a new RDN that is not an RDN. The DN it asks for under the new parent no longer has the entry's leaf RDN. |
| LdapProtocol.MoveKeepsLeafName | src/LDAP/LDAP.php:395-400 | The corrected rename request asks for the entry's own leaf RDN under the new parent. It succeeds exactly when the server reports success. |
| Ldap.Record | src/LDAP/LDAP.php:290-292 | The record is `fromArray` of the Post-Read value. A failure is passed on. |
| Ldap.ToRecords | src/LDAP/LDAP.php:164-170 | One record per cursor entry, in cursor order. |
| Ldap.Delete | src/LDAP/LDAP.php:374-393 | A missing DN fails naming it, and nothing changes. A leaf is deleted. A non-leaf always fails, stays, and the failure names an entry strictly below it that the call itself removed. Only entries of its subtree go, and the tree stays closed. |
| Ldap.DeleteChildren | src/LDAP/LDAP.php:381-389 | The loop deletes only below the DN. It ends naming the last child visited, which is gone, or the DN itself when there were no children. |
| Ldap.DeleteSubtree | src/LDAP/LDAP.php:374-393 | Corrected `delete`: fails only for a missing DN. Otherwise it removes exactly the DN's subtree, and the tree stays closed. |
| Ldap.DeleteOfParentFails | src/LDAP/LDAP.php:386-391 | For a parent with one child, `delete` of the parent removes the child, keeps the parent, and fails naming the child. |
| Ldap.DeleteOfParentSucceeds | src/LDAP/LDAP.php:374-393 | The corrected delete removes both entries. |
| Pdo.Begins | src/PDO/PDO.php:27-34 | From depth 0, n begins reach the driver once, then set `trans2`…`trans<n>`. From depth d ≥ 1 they set `trans<d+1>`…`trans<d+n>`. |
| Pdo.Commits | src/PDO/PDO.php:36-43 | n commits from depth d ≥ n commit through the driver only when the depth reaches 0. |
| Pdo.RollBacks | src/PDO/PDO.php:45-52 | n rollbacks from depth d ≥ n roll back to each inner savepoint, innermost first, then through the driver when the depth reaches 0. |
| Pdo.BalancedCommit | src/PDO/PDO.php:27-43 | n begins then n commits from depth 0 give one real begin, savepoints `trans2`…`trans<n>`, one real commit, and depth 0. |
| Pdo.BalancedRollBack | src/PDO/PDO.php:27-52 | n begins then n rollbacks from depth 0 give one real begin, the savepoints, ROLLBACK TO `trans<n>`…`trans2`, one real rollback, and depth 0. |
| Pdo.SavepointNames | src/PDO/PDO.php:27-52 | A begin from depth d ≥ 1 sets `trans<d+1>`. The rollback at depth d+1 targets that same savepoint and restores depth d. |
| Pdo.DepthMoves | src/PDO/PDO.php:27-52 | Begin adds exactly one level, and commit and rollback remove exactly one. After a begin from depth ≥ 0 the connection is in a transaction. |
| Pdo.CancelFromAnyDepth | src/PDO/PDO.php:54-58 | `cancelTransaction` as written, from any depth: depth −1, ROLLBACK TO `trans0`, and no driver rollback. |
| Pdo.CompleteFromAnyDepth | src/PDO/PDO.php:60-64 | `completeTransaction` as written, from any depth: depth −1, no driver commit, and `commit` returns false. |
| Pdo.BeginAfterCancel | src/PDO/PDO.php:27-58 | After a cancel as written, the next begin sets savepoint `trans0` instead of starting a transaction. |
| Pdo.CancelAllEnds | src/PDO/PDO.php:54-58 | Corrected cancel: one driver rollback, and depth 0, from any depth. |
| Pdo.CompleteAllEnds | src/PDO/PDO.php:60-64 | Corrected complete: one driver commit, and depth 0, from any depth. |
| Pdo.Connection.constructor | src/PDO/PDO.php:20-25 | A new connection is at depth 0 with no driver calls and is registered under its DSN. |
| Pdo.Connection.BeginTransaction | src/PDO/PDO.php:27-34 | New depth, driver events and result are those of `BeginStep` of the old depth. |
| Pdo.Connection.Commit | src/PDO/PDO.php:36-43 | The same, with `CommitStep`. |
| Pdo.Connection.RollBack | src/PDO/PDO.php:45-52 | The same, with `RollBackStep`. |
| Pdo.Connection.CancelTransaction | src/PDO/PDO.php:54-58 | The same, with `CancelStep`. |
| Pdo.Connection.CompleteTransaction | src/PDO/PDO.php:60-64 | The same, with `CompleteStep`. |
| Pdo.Connection.CancelAllTransactions | src/PDO/PDO.php:54-58 | The corrected cancel, with `CancelAllStep`. |
| Pdo.Connection.CompleteAllTransactions | src/PDO/PDO.php:60-64 | The corrected complete, with `CompleteAllStep`. |
| Pdo.Connection.InTransactionNow | src/PDO/PDO.php:66-69 | In a transaction exactly when the depth is positive. |
| Pdo.Registry.GetInstance | src/PDO/PDO.php:12-18 | A known DSN returns the stored connection. An unknown one creates and registers a new one. |

## Left out

- Connecting, binding and unbinding (`src/LDAP/LDAP.php:72-75`, `104-106`, `110-113`) are not modelled. The constructor always succeeds, and the bind identity and secret are only recorded. `getConnection` is not modelled either.
- `usleep` between BUSY replies is not modelled. The wait time is only recorded.
- Php.IntVal: PHP float values are not modelled, because `Value` has no float. An option given as a float, such as `2.9`, cannot be expressed.
- Php.IntVal: a numeric string is converted by truncating its exact decimal value. PHP first rounds that value to a double, so the results differ when the rounding crosses an integer, as with seventeen 9s after the point. A string whose value overflows a double, such as `"1e400"`, converts to 0 in PHP but saturates to `PHP_INT_MAX` here.
- LdapProtocol.MoveKeepsLeafName: the leaf RDN is everything before the first comma. Escaped commas and multi-valued RDNs are not modelled.
- Exception messages are not modelled. Every failure is a `Failure` value in a `Result`.
- Ldap.Session.Search: returns the records as a finite sequence instead of a lazy generator.
- Ldap.Session.List: returns the records as a finite sequence instead of a lazy generator.
- Ldap.Session.Add: the add/modify hand-over has no bound in the source. The model takes a `fuel` argument and ends in `OutOfFuel` when it runs out. `UpsertNeverSettles` shows that the source's loop need not end.
- Ldap.Session.Modify: bounded by `fuel` in the same way.
- `stdClass` arguments cast to arrays (`src/LDAP/LDAP.php:256-258`, `316-318`) are not modelled. The model takes the attribute array directly.
- The Post-Read control is not modelled as encoded controls. It is the attribute array the transport decodes from it.
- Record building: each record is built once, by `Record` on the settled Post-Read value, rather than in each branch. The resulting record is the same.
- Ldap.Delete: works against a directory-tree model instead of the reply oracle. The model does not capture a listing that fails for a reason other than a missing DN, BUSY replies, or DNs given as strings; DNs are RDN paths.
- Ldap.Delete: for a missing DN, PHP 8 would raise on `ldap_first_entry(false)` after a successful deletion. The tree model never reaches that: deleting a missing DN always fails first.
- PDO: the `PDO` base class is reduced to the trace of driver calls it receives. Its constructor, `ATTR_ERRMODE`, and driver or SQL failures are not modelled. For example, the database would reject `ROLLBACK TO trans0`. The driver's begin and rollback are taken to return true.
- Pdo.Connection.RollBack: follows PHP 8, where `+` binds tighter than `.`, so the savepoint is `trans<k+1>`. Under PHP 7 the concatenation would come first.

## Findings

| source | as written | input that shows it | evidently intended | confidence | as-written member | corrected member |
|---|---|---|---|---|---|---|
| src/LDAP/LDAP.php:386-391 | The loop variable `$dn` overwrites the DN being deleted, so the final `ldap_delete` targets the last child visited, which is already gone. A non-leaf entry is never deleted. | Tree {`o`, `a,o`}: `delete("o")` removes `a,o`, keeps `o`, and fails naming `a,o`. | Delete every child's subtree, then the entry itself. | not executed | Ldap.DeleteOfParentFails | Ldap.DeleteSubtree |
| src/PDO/PDO.php:54-58 | The counter is set to 0 before `rollBack`. The depth becomes −1, it issues `ROLLBACK TO trans0`, and the outer transaction is never rolled back. | `beginTransaction(); cancelTransaction();` | Drop the inner levels and roll back the outer transaction through the driver, leaving depth 0. | not executed | Pdo.CancelFromAnyDepth | Pdo.CancelAllEnds |
| src/PDO/PDO.php:60-64 | The counter is set to 0 before `commit`. The depth becomes −1, the driver never commits, and the next begin sets a savepoint instead of starting a transaction. | `beginTransaction(); completeTransaction();` | Drop the inner levels and commit the outer transaction through the driver, leaving depth 0. | not executed | Pdo.CompleteFromAnyDepth | Pdo.CompleteAllEnds |
| src/LDAP/LDAP.php:397 | `move` passes `""` as the new RDN to `ldap_rename`. The request asks for a DN with no leaf RDN (`,o=y`); a server following section 4.9 of RFC 4511 refuses it, because the new RDN is not an RDN, so `move` cannot succeed against such a server. | `move("cn=a,o=x", "o=y")` asks for the DN `,o=y`. | Rename to the entry's own leaf RDN under the new parent: `cn=a,o=y`. | not executed | LdapProtocol.MoveLosesLeafName | LdapProtocol.MoveKeepsLeafName |
