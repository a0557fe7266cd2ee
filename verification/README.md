# Admin accounts of a hosting control panel, modelled in Dafny

This project models the API command class that manages the panel's
administrator (reseller) accounts. It covers the class's six commands:

- `listing`: all admin rows;
- `get`: one row, by id or by login name;
- `add`: the ordered validation chain and the inserted row;
- `update`: the self-edit override, normalisation of the received values, the
  quota guard and the one-row write;
- `delete`: row removal, usage-row cleanup and the hand-over of customers,
  domains and API keys to the caller;
- `unlock`: resets the failed-login counter.

Each command is a pure function from a store (an immutable record of maps
standing for the database tables), the calling admin's session and the
request, to a `Result` that holds either the new store and the returned row
or one of the command's errors.

Module layout:

- `resources.dfy` (`Resources`): the twelve resource kinds and the limit
  vector. Disk space and traffic are converted from user units to storage
  units, and mail quota and tickets are forced to unlimited when their
  feature is switched off.
- `outcomes.dfy` (`Outcomes`): the errors, `Option`/`Result`, and
  `FirstFailure`, the reference definition of an "if / elseif" validation
  chain.
- `quota_guard.dfy` (`QuotaGuard`): the check `update` runs before it lowers
  a limit, as a recursive function and as a loop.
- `normalise.dfy` (`Normalise`): flags, privileges, the IP restriction column
  and the CR-LF replacement in the notes.
- `admin_store.dfy` (`AdminStore`): the tables, the store invariant, the row
  lookup, `get` and `listing`.
- `environment.dfy` (`Environment`): the panel settings the commands read,
  and the collaborators they call: validators, password hashing and the
  password generator.
- `create_admin.dfy`, `update_admin.dfy`, `delete_admin.dfy`,
  `unlock_admin.dfy`: the commands that write.
- `scenarios.dfy`: concrete requests to `add` and `update` under fixed
  settings and collaborators.

Notes on how the code behaves, which the model follows:

- **Self-edit and disabled features.** The self-edit override in `update`
  keeps the editor's own stored limits, but the mail-quota and ticket
  feature switches are applied after it. So an admin editing itself while a
  feature is off gets that limit rewritten to -1
  (`UpdateAdmin.SelfEditKeepsRestrictedFields`).
- **Subdomains.** The quota guard of `update` compares eleven kinds and
  never checks subdomains (`QuotaGuard.GuardRejectsExactly`).
- **Unchanged limits.** A limit equal to the stored one is never reported by
  the guard, even when it is below usage: `QuotaGuard.Lowered` requires the
  new value to differ from the stored one, and `QuotaGuard.GuardRejectsExactly`
  reports exactly the lowered kinds.
- **Unlimited disk space and traffic.** The user's -1 is multiplied by the
  unit like any other value, so unlimited disk space is stored as -1024 and
  unlimited traffic as -1048576. The guard recognises these values because
  it divides back before comparing with -1 (`Resources.IsUnlimitedStored`).
- **No transaction.** `delete` issues its statements one after the other,
  without a transaction. The model is atomic by construction; see
  "Left out".
- **Login names ignore case.** The model assumes that the admin table's
  login-name column compares without regard to case, as the lower-casing in
  the uniqueness check of `add` (line 176) suggests; the table definition is
  not part of this model. Under that assumption a lookup by login name finds
  the row whose name equals the given one ignoring case
  (`AdminStore.FindByLogin`).

## Model

| member | source | states |
|---|---|---|
| Resources.ScaleToStorage | lib/classes/api/commands/class.Admins.php:150-151 | every kind is stored as its user value times its unit: disk space times 1024, traffic times 1024*1024, counts unchanged |
| Resources.Requested | lib/classes/api/commands/class.Admins.php:359-380 | when another admin edits a row, a limit named in the request takes the requested value in storage units, and an absent one keeps the stored value |
| Resources.FeatureGate | lib/classes/api/commands/class.Admins.php:135-141 | mail quota becomes -1 exactly when that feature is off, tickets likewise, and every other kind is kept |
| Resources.FeatureGateIdempotent | lib/classes/api/commands/class.Admins.php:392-398 | forcing the disabled features to unlimited a second time changes nothing |
| Resources.FeatureGateCommutesWithScaling | lib/classes/api/commands/class.Admins.php:135-151 | it does not matter whether `add` applies the feature switches before or after the unit conversion |
| Resources.UnlimitedSurvivesScaling | lib/classes/api/commands/class.Admins.php:458-461 | the guard's divide-back test reads a stored value as unlimited exactly when the user typed -1 |
| Outcomes.FirstFailure | lib/classes/api/commands/class.Admins.php:171-194 | a chain of checks fails exactly when some check fails, and then with the error of the earliest failing check |
| QuotaGuard.GuardedKindsCoverAllButSubdomains | lib/classes/api/commands/class.Admins.php:452-484 | the guard compares every kind except subdomains |
| QuotaGuard.Offending | lib/classes/api/commands/class.Admins.php:452-484 | a kind is reported exactly when it is compared and its new limit differs from the stored one, is not unlimited, and is below usage |
| QuotaGuard.CollectOffending | lib/classes/api/commands/class.Admins.php:451-484 | the loop that appends one warning per lowered kind produces exactly the report `Offending` defines |
| QuotaGuard.CollectWarnings | lib/classes/api/commands/class.Admins.php:451-484 | accumulating one warning per compared kind reports exactly the non-subdomain kinds lowered below usage, and nothing else |
| QuotaGuard.GuardRejectsExactly | lib/classes/api/commands/class.Admins.php:452-484 | a kind is in the report if and only if it is not subdomains and is lowered below usage |
| QuotaGuard.UnlimitedNeverRejected | lib/classes/api/commands/class.Admins.php:452 | a limit set to unlimited is never reported, however much is used |
| QuotaGuard.UnchangedNeverRejected | lib/classes/api/commands/class.Admins.php:452-488 | when all limits stay as stored, the guard reports nothing and raises no 406 |
| QuotaGuard.NothingLoweredNothingReported | lib/classes/api/commands/class.Admins.php:486-487 | when no compared kind is lowered, the report is empty |
| QuotaGuard.OffendingRanked | lib/classes/api/commands/class.Admins.php:451-484 | the report lists each offending kind once, in the order of the comparisons |
| QuotaGuard.WarningsInCheckOrder | lib/classes/api/commands/class.Admins.php:451-484 | the full report is strictly in the order customers, domains, disk space, traffic, e-mails, accounts, forwarders, quota, FTP, tickets, databases |
| QuotaGuard.SingleOffender | lib/classes/api/commands/class.Admins.php:451-487 | when exactly one compared kind is lowered, the 406 names only that kind |
| Normalise.NormFlag | lib/classes/api/commands/class.Admins.php:418-420 | a normalised flag is "0" or "1", and it is "1" exactly when the received value is "1" |
| Normalise.NormFlagIdempotent | lib/classes/api/commands/class.Admins.php:418-420 | normalising twice is normalising once |
| Normalise.NormFlagFixesStored | lib/classes/api/commands/class.Admins.php:418-440 | normalisation leaves a flag unchanged exactly when it is already "0" or "1" |
| Normalise.ApplyPrivileges | lib/classes/api/commands/class.Admins.php:372-376 | a privilege named in the request takes the received value, and the others keep the stored value |
| Normalise.NormPrivileges | lib/classes/api/commands/class.Admins.php:422-440 | every privilege flag becomes "0" or "1", and is "1" exactly where the input was "1" |
| Normalise.NormPrivilegesIdempotent | lib/classes/api/commands/class.Admins.php:422-440 | privilege normalisation is idempotent and leaves stored, well-formed flags alone |
| Normalise.EncodeIp | lib/classes/api/commands/class.Admins.php:512 | the written IP column is never an empty list: an empty value is written as the empty string, and any other value is written unchanged |
| Normalise.ReplaceCrLfDropsCrBeforeLf | lib/classes/api/commands/class.Admins.php:133 | the replacement of CR LF by LF in the notes drops exactly the carriage returns that are followed by a line feed, and keeps every other character in order |
| Normalise.ReplaceCrLfLength | lib/classes/api/commands/class.Admins.php:388 | the notes become shorter by exactly one character per CR LF pair |
| Normalise.CrLfCountZero | lib/classes/api/commands/class.Admins.php:388 | the count of CR LF pairs is zero exactly when no CR LF pair occurs anywhere in the notes |
| Normalise.ReplaceCrLfUnchangedIff | lib/classes/api/commands/class.Admins.php:388 | the notes are stored exactly as received if and only if they hold no CR LF pair |
| Normalise.ReplaceCrLfOnlyDropsCr | lib/classes/api/commands/class.Admins.php:133 | the replacement only removes carriage returns: apart from carriage returns, the notes are unchanged |
| Normalise.ReplaceCrLfKeepsCrFree | lib/classes/api/commands/class.Admins.php:388 | notes without carriage returns are stored exactly as received |
| AdminStore.FindByLogin | lib/classes/api/commands/class.Admins.php:69-75 | a lookup by login name finds a row exactly when some row's login name equals it ignoring case, and returns such a row |
| AdminStore.FindByLoginIgnoresCase | lib/classes/api/commands/class.Admins.php:69-75 | two login names that differ only in letter case find the same row |
| AdminStore.Lookup | lib/classes/api/commands/class.Admins.php:69-75 | the row is looked up by id when the id is positive, and by login name otherwise |
| AdminStore.GetAsWritten | lib/classes/api/commands/class.Admins.php:62-84 | `get` with the gate as written: success exactly when the caller is an admin that has the server-settings privilege, or whose id equals the given id, or whose login name equals the given one, and the looked-up row exists; the row returned is the looked-up one; a failure is 404 when the gate passed and 403 when it did not |
| AdminStore.Get | lib/classes/api/commands/class.Admins.php:62-84 | `get` with the gate on the key actually looked up: success exactly when the caller may read that key and the row exists; otherwise 404 when permitted, 403 when not |
| AdminStore.GetOnlyOwnRow | lib/classes/api/commands/class.Admins.php:68 | an admin without the server-settings privilege reads only its own row |
| AdminStore.GatesAgreeWhereCorrectedAdmits | lib/classes/api/commands/class.Admins.php:68 | the written and the corrected gate give the same outcome for privileged callers and wherever the corrected gate admits the caller; where they differ, the corrected one refuses with 403 |
| AdminStore.GetAsWrittenLeaksOtherRow | lib/classes/api/commands/class.Admins.php:68-75 | as written, an unprivileged admin that passes another admin's id together with its own login name receives the other admin's row |
| AdminStore.Listing | lib/classes/api/commands/class.Admins.php:28-47 | only privileged admins may list, others get 403; the list holds every admin row |
| AdminStore.ListingCountsRows | lib/classes/api/commands/class.Admins.php:37-45 | the count returned with the list is the number of rows in it |
| CreateAdmin.SystemAccountNameShape | lib/classes/api/commands/class.Admins.php:179 | a login name is a system-account name exactly when it is the account prefix followed by a digit and then anything |
| CreateAdmin.Add | lib/classes/api/commands/class.Admins.php:93-295 | `add` needs the privilege; on success it inserts exactly one row at the next id, under a non-empty login name that no admin or customer already uses, ignoring case, and that is not a system-account name |
| CreateAdmin.AddFollowsCheckOrder | lib/classes/api/commands/class.Admins.php:143-194 | `add` fails exactly when one of its nine checks fails, with the error of the first failing check in the source's order |
| CreateAdmin.AddRefusesTakenLogin | lib/classes/api/commands/class.Admins.php:155-177 | a login name equal, ignoring case, to an admin's or a customer's is refused; once permission and password pass, the error is "login name exists" |
| CreateAdmin.AddRefusesSystemAccountName | lib/classes/api/commands/class.Admins.php:179-180 | a login name of the form prefix, digit, anything is refused |
| CreateAdmin.AddStoresNormalisedRow | lib/classes/api/commands/class.Admins.php:197-280 | the new row has: the requested name and e-mail address; the notes with CR LF turned into LF; a hashed password, generated when none was given; flags "1" exactly where requested; disabled features unlimited; limits in storage units; the default theme |
| CreateAdmin.AddPreservesInvariants | lib/classes/api/commands/class.Admins.php:252-283 | after `add`, admin logins are still unique ignoring case, and every reference still points at an existing admin |
| UpdateAdmin.Update | lib/classes/api/commands/class.Admins.php:309-562 | non-admins get 403; when `get` fails its error (404 or 403) is passed through; a success writes only the target row, which the caller may edit, and keeps its login name, usage and failed-login counter |
| UpdateAdmin.UpdateFollowsCheckOrder | lib/classes/api/commands/class.Admins.php:404-488 | once the row is found, `update` fails exactly when one of its checks fails, with the first failing check's error: permission, name, e-mail, password policy, quota |
| UpdateAdmin.SelfEditKeepsRestrictedFields | lib/classes/api/commands/class.Admins.php:335-354 | a self-edit keeps the stored deactivation, privileges, IP restriction and limits, except that mail quota and tickets become unlimited when their feature is off |
| UpdateAdmin.GatedStoredLimitsPassGuard | lib/classes/api/commands/class.Admins.php:392-488 | the stored limits, after the feature switches, never trip the guard |
| UpdateAdmin.SelfEditNeverOverQuota | lib/classes/api/commands/class.Admins.php:335-488 | a self-edit is never refused for quota reasons |
| UpdateAdmin.UpdateGuardDecides | lib/classes/api/commands/class.Admins.php:449-488 | an accepted update lowers no compared limit below usage, and a 406 carries exactly the guard's non-empty report |
| UpdateAdmin.UpdateRefusedByGuard | lib/classes/api/commands/class.Admins.php:486-488 | once permission and profile checks pass, `update` fails exactly when the guard reports something, and with that report |
| UpdateAdmin.UpdateRefusesLimitBelowUsage | lib/classes/api/commands/class.Admins.php:452-487 | another admin's limit set to a changed, non-unlimited value below usage is refused with a 406 naming that kind |
| UpdateAdmin.UpdateStoresProfile | lib/classes/api/commands/class.Admins.php:325-402 | the written name, e-mail, language, notes and notes flag are the received values, or the stored ones when none was received; notes have CR LF turned into LF; an empty theme becomes the default theme |
| UpdateAdmin.UpdatePasswordRule | lib/classes/api/commands/class.Admins.php:442-447 | an empty password keeps the stored hash, and a non-empty one is stored hashed |
| UpdateAdmin.UpdateStoresLimitsAndIp | lib/classes/api/commands/class.Admins.php:356-398 | when another admin's row is edited, each limit is -1 for a switched-off mail-quota or ticket feature, else the requested value in storage units, else the stored one; the IP restriction is the requested one, else the stored one, in written form (line 512) |
| UpdateAdmin.UpdateNormalisesFlags | lib/classes/api/commands/class.Admins.php:418-440 | when another admin edits the row, every flag is "0" or "1", and is "1" exactly when the received (else stored) value is "1" |
| UpdateAdmin.UpdatePreservesInvariants | lib/classes/api/commands/class.Admins.php:520-550 | after `update`, admin logins are still unique ignoring case, and every reference still points at an existing admin |
| DeleteAdmin.Delete | lib/classes/api/commands/class.Admins.php:576-662 | `delete` succeeds exactly when the caller holds the privilege, `get` finds the row and the row is not the caller's; a failed `get` passes its error through; it returns the row `get` found, as it was before deletion |
| DeleteAdmin.DeleteSelfRefused | lib/classes/api/commands/class.Admins.php:589-592 | a privileged caller that addresses itself gets "you can't delete yourself" |
| DeleteAdmin.DeleteEffect | lib/classes/api/commands/class.Admins.php:594-655 | after a delete: the row and its usage rows are gone and other rows kept; its customers and domains now belong to the caller; its customer-less API keys are deleted and its other keys re-owned |
| DeleteAdmin.DeleteLeavesNoReference | lib/classes/api/commands/class.Admins.php:594-655 | after a delete, no table refers to the deleted admin |
| DeleteAdmin.HandOverKeepsReferences | lib/classes/api/commands/class.Admins.php:594-655 | removing an admin's rows and handing its customers, domains and keys to a remaining admin leaves no reference to a missing admin |
| DeleteAdmin.DeleteKeepsReferences | lib/classes/api/commands/class.Admins.php:594-655 | after a delete by a caller whose row exists, every customer, domain, key and usage row belongs to an existing admin |
| DeleteAdmin.DeletePreservesInvariants | lib/classes/api/commands/class.Admins.php:594-655 | after a delete, admin logins are still unique, and every reference points at an existing admin if the caller's own row exists |
| UnlockAdmin.Unlock | lib/classes/api/commands/class.Admins.php:676-704 | `unlock` succeeds exactly when the caller holds the privilege and `get` finds the row, and otherwise passes `get`'s error through; it changes only that row's failed-login counter, to 0, and returns the row |
| UnlockAdmin.UnlockIdempotent | lib/classes/api/commands/class.Admins.php:689-698 | unlock keeps the store invariant, and unlocking twice is unlocking once |
| Scenarios.CreateAlice | lib/classes/api/commands/class.Admins.php:135-151 | example: with ticketing off, a new admin asking for 10 tickets gets -1, 1024 MiB of disk is stored as 1024*1024, usage starts at the assumed column default of zero, and the stored password is the hash of a generated one |
| Scenarios.SystemAccountRefused | lib/classes/api/commands/class.Admins.php:179-180 | example: with account prefix `web`, the login name `web7` is refused in any store |
| Scenarios.OnlyCustomersOffend | lib/classes/api/commands/class.Admins.php:452-484 | example: lowering customers from 5 to 2 at 3 used, with ticketing off, is reported for customers only |
| Scenarios.LowerCustomersBelowUsage | lib/classes/api/commands/class.Admins.php:452-487 | example: that request to `update` fails with a 406 naming only customers |

## Left out

- Database access, the logger and the response/`apiCall` plumbing are not
  modelled. Each command is a function on an immutable store, so every
  command is atomic by construction. The source issues `delete`'s seven
  statements without a transaction, so a failure between them is not
  represented.
- The shared `validate()` helper and IDNA encoding/decoding of the e-mail
  address are left out. They belong to code this model does not include.
- Username validation, e-mail validation, the password policy, password
  hashing and password generation are parameters (`Collaborators`), because
  their code is not part of this model.
- Parameter reading (`getParam`/`getUlParam`) is left out. Requests arrive
  with optional fields already resolved. The 400 error for a missing
  required parameter (a missing `name`/`email` in `add`, a missing login
  name when the id is not positive) is not modelled.
- Resources.Requested: an absent disk-space or traffic parameter keeps the
  stored value. The source re-derives that value through `round(stored /
  unit, decimal places) * unit`, which can differ for stored values that are
  not whole multiples of the unit. Floating point is not modelled.
- Normalise.NormFlag: compares with "1" exactly. PHP's loose `!=` also
  treats numeric strings such as "01" or "1.0" as 1.
- AdminStore.Lower: folds only ASCII letters, as `strtolower` does. The
  database's case-insensitive collation, used by the login-name uniqueness
  check and by the login-name lookup of `get`, is modelled by this folding;
  collation rules for letters outside ASCII are not modelled.
- CreateAdmin.AddStoresNormalisedRow: the INSERT of `add` does not set the
  usage counters, the failed-login counter or the deactivation flag; the
  table's column defaults fill them. The model assumes those defaults are
  zero usage, no failed logins and "0", and the lemma (and
  `Scenarios.CreateAlice`) states these assumed defaults; the table
  definition is not part of this model.
- Normalise.EncodeIp: the JSON encoding of an address list, and the exact
  PHP truthiness of `$ipaddress`, are abstracted to three forms: unset, any
  address, a list.
- `updateCounters()` after a delete, and the static `increaseUsage` /
  `decreaseUsage` helpers are not modelled: they recompute or adjust usage
  counters in code outside this class.
- The order of `listing` (by login name) is not modelled: the rows are
  returned as a set.
- Error message texts and HTTP codes are not modelled: each error is a
  constructor, and the 406 carries the list of offending kinds instead of
  the concatenated message.
- The id of the database's last insert is modelled as the store's
  `nextAdminId` counter.
- `custom_notes_show` is stored as received, as in the source: it is not
  normalised to a flag.

## Findings

| source | as written | input that shows it | evidently intended | confidence | as-written member | corrected member |
|---|---|---|---|---|---|---|
| lib/classes/api/commands/class.Admins.php:68 | an admin without the server-settings privilege passes the gate when the id OR the login name names it, but the row is then looked up by the id whenever the id is positive | caller `bob` (id 2, no privilege) calls `get` with id 1 and loginname "bob" and receives admin 1's row, password hash included | the key used for the lookup must name the caller | not executed | AdminStore.GetAsWrittenLeaksOtherRow | AdminStore.GetOnlyOwnRow |

The other commands reach `get` through `apiCall` and use its gate as written:
`update`, `delete` and `unlock` call `AdminStore.GetAsWritten`, so their 404
and 403 outcomes follow the source. The corrected `AdminStore.Get` models
only the `get` command as evidently intended. The leak does not reach the
other commands: `update` checks again at line 323 that the found row is the
caller's unless the caller holds the server-settings privilege, and `delete`
and `unlock` require that privilege before they call `get`.
