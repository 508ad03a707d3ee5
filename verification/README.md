# ce-iam, modelled and proved in Dafny

This project models the application logic of ce-iam (capability minting and verification, the role
catalog and its durable store, root rotation, the revocation cache, the operator device registry, and
the secrets vault) and proves what each part promises over all inputs and over whole runs. Code that
changes state step by step is a class or a method with loops here, proved against a specification
function; what the system promises is proved about those functions.

| file | what it holds |
|---|---|
| `Text.dfy`, `Hex.dfy` | ordered strings, sorting, decimals, hex, trimming, principals |
| `Civil.dfy` | the days-to-date formula against walking the calendar; printed timestamps |
| `Policy.dfy` | policies, resources and their text form |
| `ScopeKey.dfy` | the JSON text of a scope, and that no two scopes share one |
| `Compiler.dfy` | wildcard expansion, the single-scope compiler, the grouping compiler |
| `Chains.dfy` | what narrower means; minting, attenuating, verifying and re-issuing chains |
| `Minting.dfy` | what a policy's text means, what minted grants carry, and from the policy to the verdict |
| `History.dfy` | the value last set, if nothing set or cleared it since |
| `AtomicFile.dfy` | writing a file through a temporary one, with faults |
| `Catalog.dfy`, `Compaction.dfy`, `Store.dfy` | the op-logged catalog, compaction, and the store on disk |
| `CatalogHistory.dfy` | what a catalog holds, in terms of the calls that made it |
| `Effective.dfy` | the report of effective grants, and that it agrees with the compiler |
| `Roots.dfy`, `Revocation.dfy` | root windows, their store and rotation; the cached revocation snapshot |
| `Devices.dfy`, `DeviceRuns.dfy`, `DeviceHistory.dfy` | the device registry, its runs, and what it holds in terms of the calls |
| `VaultRecords.dfy` | the vault's records and operations, and the vault as an object |
| `VaultRuns.dfy`, `VaultHistory.dfy`, `VaultGrants.dfy` | whole runs of the vault protocol, what it holds and answers in terms of the calls, and read-grants |

How the parts are modelled:

- **Histories.** Each operation is given once as a function of the state, for the methods and the runs,
  and then what it promises is stated without that function: a thing is there with a value exactly when
  some call of the run set it so and no later call set or cleared it.
- **Catalog and store.** JSON reads back what it wrote. A rename is atomic and durable, and a failed
  rename has no effect. A write can fail, or the process can die, at every step of
  `atomic_write_json`. The log on disk, the log in memory and the live catalog are compared after every
  step of every run. The 64 MiB read cap is not modelled.
- **Compiler.** An action means a set of abilities, a policy means a set of scopes with the actions
  listed under each. Sorting and removing duplicates gives the ordered elements of a set. Scope keys
  are the JSON text itself, proved injective, and ordered code point by code point.
- **Chains.** `ce_cap` is not part of this model. Its `authorize` is the six-point contract of
  SECURITY.md, with a concrete meaning for resources and caveats; the subset and narrowing checks are
  proved to decide exactly whether everything the child allows is allowed by the parent. Signatures
  and link hashes are symbolic. What README.md lists for narrowing does not include `not_before`, so
  a child may become active before its parent, and the short check of a chain looks at the
  `not_before` of every link. How many bytes a link takes is a parameter.
- **Vault.** What is wrapped to a key comes out only with the matching key, what is sealed opens only
  under the same key, and a signature names its signer and the body it covers. Each public method is
  one step on the shared store. Clocks, fresh secrets, slot ids, pairing codes and grant ids are
  parameters. A run is a list of calls by the devices of a fleet, with records lost in between; only
  the owner recovers, or initialises a vault that is not initialised. The main result is that the records simulate a guarded table that
  needs no cryptography.
- **Device registry.** Memory changes before the save, so a save that fails leaves memory ahead of the
  file. Runs include failed saves, deaths before and after the rename, and reopenings with seeds, some
  of which cannot read the file. The results rest on a rename that is durable together with what it
  renames: the code at crates/ce-iam-core/src/device.rs:128-129 ignores whether `sync_all` succeeded,
  and a blank file opens as an empty registry. They also assume that an existing file can be looked
  up: crates/ce-iam-core/src/device.rs:69 takes a file for missing when looking it up fails, and then
  the store opens as if nothing were on file, which `Devices.DeviceStore.Open` states.

Where the code and its documentation disagree, the code is followed:

- The remark at crates/ce-iam/src/catalog.rs:360-362 says `effective_grants` rejects roles with
  several scopes. The code groups them by scope, and so does the model.
- The report of effective grants is said to be precisely what minting would produce
  (crates/ce-iam/src/catalog.rs:117-120). It skips Deny statements, which the compiler refuses, and
  rejects an Allow without actions, which the compiler accepts beside a non-empty one of the same
  scope: `Effective.DenyIsReportedNotMinted` and `Effective.EmptyAllowIsMintedNotReported` are such
  catalogs. `Effective.ReportsWhatIsMinted` is stated for roles without an empty Allow, and
  `Effective.MintableExactly` says exactly when what is reported can be minted.
- That there is always an admin once there was one is false after a failed save: in the run
  `DeviceRuns.FailedSaveCanLoseAdmin` the only admin is in memory alone and a reopening loses it.
  `DeviceRuns.AdminPersistsExactly` says exactly when it is true. That an admin's key never changes
  while the device stays enrolled is false in the same way: `DeviceRuns.FailedSaveCanRestoreOldKey` is
  a run that shows it, and `DeviceRuns.AdminKeyStableExactly` says exactly when the key stays.
- An ability of a read-grant is one text, `read:` and a name. A verifier that asks for the action
  `read:a` on the name `b` is therefore answered by a grant for the secret `a:b`
  (`VaultGrants.AmbiguousAbility`); `VaultGrants.AcceptsExactly` says for every action which listed names admit it.

## Model

| member | source | states |
|---|---|---|
| Civil.FormulaIsWalk | crates/ce-iam-core/src/secrets.rs:874-885 | for every day number, negative ones too, the closed form is the date reached by walking that many days from 1970-01-01 through the proleptic Gregorian calendar |
| Civil.FormulaSuccessor | crates/ce-iam-core/src/secrets.rs:874-885 | the formula gives a date that exists, and the next day number gives the next day of the calendar |
| Civil.WalkAscends | crates/ce-iam-core/src/secrets.rs:874-885 | a later day number gives a later date, so no date repeats |
| Civil.FormulaReachesEveryDate | crates/ce-iam-core/src/secrets.rs:873-885 | every date of the calendar is the image of exactly one day number, the one counted through years and months |
| Iso.IsoLength | crates/ce-iam-core/src/secrets.rs:861-871 | the printed timestamp has 24 characters if and only if the time is before year 10000 |
| Iso.PrintedPlaces | crates/ce-iam-core/src/secrets.rs:861-871 | before year 10000 the marks stand at their places and the texts between them read as year, month, day, hour, minute, second and millisecond of the time |
| Iso.IsoReadsBack | crates/ce-iam-core/src/secrets.rs:860-871 | before year 10000 the fields of a printed timestamp read back to exactly the same millisecond |
| Iso.IsoOrder | crates/ce-iam-core/src/secrets.rs:861-871 | before year 10000 text order is time order, both ways |
| Principals.ParseHex | crates/ce-iam/src/principal.rs:26-39 | the hex form of a principal parses to that principal |
| Principals.ParseExact | crates/ce-iam/src/principal.rs:30-39 | a text parses to a principal if and only if, trimmed and in lower case, it is that principal's hex |
| Policies.ParseIsCanonical | crates/ce-iam/src/policy.rs:86-115 | every match that parsing gives is canonical, except the empty tag |
| Policies.ParseExactly | crates/ce-iam/src/policy.rs:86-115 | a text parses to a match if and only if it spells it, and is otherwise a bad resource |
| Policies.SplitExact | crates/ce-iam/src/policy.rs:96-104 | splitting at commas gives the comma-free pieces that join to the text |
| Policies.RenderParseExact | crates/ce-iam/src/grant.rs:656-662 | for every match that compiles, rendering its resource and parsing gives the match back if and only if it is canonical |
| Policies.ParseRenderRoundTrip | crates/ce-iam/src/policy.rs:60-115 | for every text that parses and compiles, rendering and parsing again gives the same match |
| JsonText.PrintInjective | crates/ce-iam/src/catalog.rs:448-451 | no two JSON values have the same text |
| ScopeKeys.ScopeKeyInjective | crates/ce-iam/src/catalog.rs:447-451 | two scopes share a key only when resource and conditions are equal |
| Compiler.ExpandActions | crates/ce-iam/src/grant.rs:190-224 | the loop gives the ordered set of the abilities the actions mean, or an error exactly when an action is empty or a wildcard covers nothing |
| PolicyMeaning.LiteralAction | crates/ce-iam/src/grant.rs:185-224 | a literal action expands to itself, in the universe or not |
| PolicyMeaning.WildcardAction | crates/ce-iam/src/grant.rs:190-224 | a prefix with a star expands to exactly the abilities of the universe with that prefix, a star alone to all of them, and is an error if and only if there are none |
| PolicyMeaning.BlankAction | crates/ce-iam/src/grant.rs:190-224 | a list with a blank action is an error |
| PolicyMeaning.ActionsExpandTogether | crates/ce-iam/src/grant.rs:190-224 | a list expands if and only if each of its actions does, to the union |
| PolicyMeaning.ResourceExact | crates/ce-iam/src/policy.rs:58-84 | a resource compiles if and only if it names something, and then matches exactly the nodes it names |
| PolicyMeaning.CaveatsExact | crates/ce-iam/src/policy.rs:147-159 | the compiled caveats permit a use, from the moment they are active, if and only if the conditions allow it: inside the time window, under each ceiling, on a listed port, below the path prefix |
| Compiler.CompilePolicy | crates/ce-iam/src/grant.rs:231-276 | the loops of `compile` give what the policy's one scope grants, or an error when there is a Deny or not exactly one scope |
| Compiler.GroupByScope | crates/ce-iam/src/grant.rs:283-329 | the groups are exactly the scopes of the statements, each with exactly the actions listed for it |
| Compiler.CompilePolicyScopes | crates/ce-iam/src/grant.rs:283-329 | the grouping loops give one result for each scope, in key order, or the first error |
| Compiler.CompileScopesConserves | crates/ce-iam/src/grant.rs:278-329 | no (scope, ability) pair is lost or invented, and each scope occurs once, in key order, with its own resource and caveats |
| Compiler.CompilersAgree | crates/ce-iam/src/grant.rs:226-329 | `compile` succeeds with X if and only if `compile_scopes` succeeds with the one-element list of X |
| Compiler.CompileDependsOnGrants | crates/ce-iam/src/grant.rs:231-329 | policies that grant the same actions in the same scopes compile to the same result, errors included |
| Compiler.StatementOrderIrrelevant | crates/ce-iam/src/grant.rs:231-329 | neither the order of statements nor repeating one changes the result |
| Compiler.StatementSplitIrrelevant | crates/ce-iam/src/grant.rs:231-329 | splitting a statement's actions over two statements changes nothing |
| Narrowing.SubsetExact | crates/ce-iam/src/policy.rs:40-56 | the resource check holds if and only if every node matched by the child is matched by the parent |
| Narrowing.SubsetTransitive | SECURITY.md:28-43 | the resource check is transitive |
| Narrowing.NarrowerExact | README.md:254-266 | the caveat check holds if and only if every use the child permits is one the parent permits |
| Narrowing.NarrowerTransitive | SECURITY.md:28-43 | the caveat check is transitive |
| Chains.MintPolicy | crates/ce-iam/src/grant.rs:376-432 | one signed single-link chain for each compiled scope, in order, with consecutive nonces; an error exactly when the policy does not compile or a nonce would exceed 64 bits |
| Minting.MintedLink | crates/ce-iam/src/grant.rs:336-354 | a minted grant is one signed root link from the issuer to the audience with the nonce asked for; it lists exactly the abilities that the Allow statements mean, matches exactly the nodes their resource names, and permits exactly the uses their conditions allow |
| Minting.MintSucceedsExactly | crates/ce-iam/src/grant.rs:231-276 | minting succeeds if and only if there is no Deny, one scope with an action in it, and every action expands and every resource names something; a Deny and a wrong number of scopes each have their error |
| Minting.CompileScopesSucceedsExactly | crates/ce-iam/src/grant.rs:283-329 | the grouping compiler succeeds if and only if there is no Deny, some Allow, an action in every allowed scope, and every action expands and every resource names something |
| Minting.MintIsFirstScope | crates/ce-iam/src/grant.rs:336-432 | `mint` gives a grant if and only if there is one scope and `mint_policy` gives that grant first |
| Minting.MintedScopeLink | crates/ce-iam/src/grant.rs:376-432 | the grant of `mint_policy` at position i is one signed root link with the nonce i after the base that carries exactly what the policy grants in the scope at i in key order |
| Minting.MintedVerifies | crates/ce-iam/src/grant.rs:336-584 | the token of a minted grant verifies for a request if and only if it is within the limits, its issuer is accepted, it is not revoked, the requester is its audience, and some Allow statement means the action, names the node and holds at the time |
| Minting.MintPolicyVerifies | crates/ce-iam/src/grant.rs:376-584 | of the grants of `mint_policy`, within the limits and not revoked, some token verifies for a request if and only if the issuer is accepted, the requester is the audience, and some Allow statement lets the request through |
| Minting.AttenuatedLink | crates/ce-iam/src/grant.rs:480-526 | an attenuated chain is the given one and one link more, signed by the holder, to the audience and with the nonce asked for, naming the leaf, and carrying exactly what the narrower policy grants |
| Minting.AttenuateRefusesExactly | crates/ce-iam/src/grant.rs:480-526 | attenuating is refused to anyone but the holder of the leaf, then for a policy that does not compile, and then if and only if the link would have an ability, a node or a use that the leaf does not |
| Minting.ReissuedLink | crates/ce-iam/src/grant.rs:442-469 | a grant is re-issued if and only if it is a single link without a parent, and the new link differs in issuer, nonce and signature alone |
| Minting.AttenuatedIsNotReissued | crates/ce-iam/src/grant.rs:434-469 | an attenuated chain is never re-issued |
| Chains.AttenuateExact | crates/ce-iam/src/grant.rs:480-526 | `attenuate` signs exactly the links that pass the verifier's continuity check, and no verifier accepts a chain with a link it refused |
| Chains.BuiltIsLinked | crates/ce-iam/src/grant.rs:336-526 | every chain that comes of minting, minting for several scopes, re-issuing and attenuating is signed link by link and each link continues its parent |
| Chains.LaterIsNarrower | SECURITY.md:20-26 | a later link is no broader than any earlier one, at any distance |
| Chains.LeafWithinEveryLink | SECURITY.md:20-26 | what the leaf allows (action, node and use) every link of the chain allows |
| Chains.AuthorizedChain | SECURITY.md:28-43 | in an authorized chain the root is accepted, the requester holds the leaf, and every link is signed by its issuer over its own fields, in time, not revoked, lists the action and matches the node; each after the first is issued by the one its parent was given to and names that parent |
| Chains.LeafFixesChain | SECURITY.md:28-43 | of two linked chains with the same leaf one ends with the links of the other, so a link cannot be moved to another chain |
| Chains.ShortCheckExact | crates/ce-iam/src/grant.rs:562-584 | for a linked chain the whole check holds if and only if the root is accepted, no link is revoked or not yet active, and the leaf alone is unexpired, matches the node, is held by the requester and lists the action |
| Chains.VerifyBuiltExact | crates/ce-iam/src/grant.rs:539-584 | for every chain this service builds, `verify` accepts its token if and only if the token is within the size and depth limits and the short check holds |
| Chains.VerifyExactly | crates/ce-iam/src/grant.rs:528-584 | a token is malformed exactly when it is too long, does not decode, or decodes to an empty or too deep chain; otherwise its chain alone decides |
| Chains.PrefixAllowed | crates/ce-iam/src/grant.rs:480-584 | if `verify` allows the holder of a built chain an action, it allows the holder of every shorter prefix the same action there and then |
| Chains.ReissueKeepsVerdicts | crates/ce-iam/src/grant.rs:434-469 | a re-issued root grant is authorized if and only if the original is, with the new root accepted in place of the old |
| Catalogs.Catalog.ApplyOp | crates/ce-iam/src/catalog.rs:167-217 | the in-place updates of one operation give the specified maps, version and audit ring |
| Catalogs.ReplayThrough | crates/ce-iam/src/catalog.rs:489-502 | the replay loop gives a new catalog with the value folded from the prefix of the log |
| Catalogs.RecordThenReplay | crates/ce-iam/src/catalog.rs:472-491 | recording an operation and replaying gives the catalog the operation was applied to, with actor and audit line |
| Catalogs.LiveEqualsReplay | crates/ce-iam/src/catalog.rs:454-503 | after any sequence of operations the live catalog equals a full replay in every field |
| Catalogs.ReplayInParts | crates/ce-iam/src/catalog.rs:493-502 | replaying a prefix and then the rest gives the same as replaying everything |
| Catalogs.AuditRing | crates/ce-iam/src/catalog.rs:163-217 | the version counts the operations, and the audit ring is exactly the last 10000 lines at most, with consecutive versions |
| CatalogHistory.RoleHistory | crates/ce-iam/src/catalog.rs:167-181 | after any calls a role is there exactly with the value last put under its name, if it was not removed since |
| CatalogHistory.PolicyHistory | crates/ce-iam/src/catalog.rs:167-188 | the same for policies |
| CatalogHistory.AttachmentHistory | crates/ce-iam/src/catalog.rs:167-205 | a role is attached to a principal if and only if some call attached it and no later one detached it there or removed it |
| CatalogHistory.DiskHistory | crates/ce-iam/src/store.rs:144-238 | in every run with faults, compactions and reopenings the file holds exactly what the committed operations last put, attached, detached and removed |
| CatalogHistory.ValidateExact | crates/ce-iam/src/store.rs:191-206 | validation admits exactly the operations that keep the catalog coherent |
| CatalogHistory.AdmitExact | crates/ce-iam/src/store.rs:171-206 | a running store admits an operation if and only if its result is coherent and `open` would take its log |
| CatalogHistory.OpensExactly | crates/ce-iam/src/store.rs:147-159 | a store opens if and only if its file can be read and is missing or a log within the limit; one that does not parse opens none |
| CatalogHistory.AuditLineTells | crates/ce-iam/src/catalog.rs:75-99 | operations that leave the same action and target in the audit log are of the same kind and about the same role, policy, or role and principal |
| Catalogs.AttachSorted | crates/ce-iam/src/catalog.rs:181-193 | attaching to a sorted list without duplicates gives the ordered set with the new name |
| Catalogs.ApplyKeepsCoherent | crates/ce-iam/src/store.rs:191-206 | a validated operation keeps names non-blank, roles under their names, and every attachment list non-empty, sorted, without duplicates, of a principal, and of roles that exist |
| Compaction.CompactReplays | crates/ce-iam/src/store.rs:208-238 | replaying the compacted log reproduces roles, policies and attachments exactly |
| Compaction.CompactTwice | crates/ce-iam/src/store.rs:208-238 | compacting what a compacted log gives writes the same log |
| Compaction.LiveStep | crates/ce-iam/src/catalog.rs:167-217 | an operation adds at most one live role, policy or attachment |
| Compaction.LiveBounded | crates/ce-iam/src/catalog.rs:167-217 | live objects never outnumber the operations of the log |
| Compaction.CompactLength | crates/ce-iam/src/store.rs:213-238 | the compacted log has one entry for each live object and is never longer than the log it replaces |
| AtomicFiles.Directory.AtomicWrite | crates/ce-iam/src/store.rs:55-97 | whatever fails and wherever the process dies, the file is the old one or the new one |
| Stores.CatalogStore.Open | crates/ce-iam/src/store.rs:147-159 | opening gives the file's log and its full replay, or an error for an unreadable or too long log; it is the step `Open` of a run |
| Stores.CatalogStore.ApplyOp | crates/ce-iam/src/store.rs:175-189 | an operation is validated, written, and only then applied to log and catalog; any refusal leaves both |
| Stores.CatalogStore.AllAttachments | crates/ce-iam/src/catalog.rs:330-344 | the loop gives an entry for every attached role of every principal, in key order |
| Stores.CatalogStore.BuildCompactLog | crates/ce-iam/src/store.rs:213-228 | the loops build the minimal log: roles, policies and attachments in key order |
| Stores.CatalogStore.Compact | crates/ce-iam/src/store.rs:213-238 | compaction writes the minimal log and only then replaces log and catalog |
| Stores.CatalogStore.Perform | crates/ce-iam/src/store.rs:175-238 | any one call leaves file and memory as the step of a run does, with the same reply, so the results about runs are about this class |
| Stores.RunsConsistent | crates/ce-iam/src/store.rs:144-238 | in every run with errors and deaths at any step, the file is a whole log within the limit that replays to a coherent catalog, and a running store's memory is that log and that replay in every field |
| Stores.OpenSucceeds | crates/ce-iam/src/store.rs:147-159 | in every run the next `open` that can read the file succeeds and shows the file's catalog; a log this store wrote is never rejected for length |
| Stores.CallIsAtomic | crates/ce-iam/src/store.rs:59-97 | after a call in flight the file holds the catalog before it or after it: after it when it returned Ok, before it when it was refused; a failed call leaves memory equal to disk |
| Stores.CommittedSurvives | crates/ce-iam/src/store.rs:171-238 | in every run the disk holds the roles, policies and attachments made by exactly the operations that were put on disk, in order, whatever compactions came between |
| Stores.CommittedExactly | crates/ce-iam/src/store.rs:175-189 | an event adds its operation to those put on disk if and only if it returned Ok or its process died after the rename; a refused one, for validation, length or a failed write, adds nothing, and none is ever taken back |
| Stores.CompactShrinks | crates/ce-iam/src/store.rs:208-238 | in every run compaction never lengthens the log, keeps the content, and a second compaction changes nothing |
| Effective.ReportEffectiveGrants | crates/ce-iam/src/catalog.rs:366-428 | the nested loops report each scope once, in key order, with the ordered set of its actions and of the roles they come from, or an error exactly when a role is missing or an Allow is empty |
| Effective.ReportedExactly | crates/ce-iam/src/catalog.rs:117-131 | each entry is a scope of the principal's attached roles, once each: an ability is listed if and only if an Allow of one of the roles lists it for that scope, and a role is named if and only if one of its Allows has that scope |
| Effective.ReportsWhatIsMinted | crates/ce-iam/src/catalog.rs:354-428 | in a coherent catalog, when no role of the principal has an empty Allow and the compiler accepts the concatenated role policies, the report succeeds and lists the scopes that would be minted, in the same order, and expanding each ability list gives exactly the minted abilities |
| Effective.MintableExactly | crates/ce-iam/src/catalog.rs:117-131 | the compiler accepts the role policies of a reported principal if and only if there is no Deny, something is reported, and every reported scope expands and names a resource |
| Effective.DenyIsReportedNotMinted | crates/ce-iam/src/catalog.rs:383-388 | a catalog with a Deny that is reported and not minted |
| Effective.EmptyAllowIsMintedNotReported | crates/ce-iam/src/catalog.rs:389-393 | a catalog with an empty Allow that is minted and not reported |
| Effective.ReportFailsExactly | crates/ce-iam/src/catalog.rs:366-428 | for a coherent catalog the report succeeds if and only if no attached role has an Allow without actions |
| Effective.CompactionKeepsEffectiveGrants | crates/ce-iam/src/store.rs:208-238 | compaction changes no principal's effective grants |
| RootStore.Roots.OpenRoots | crates/ce-iam/src/roots.rs:82-87 | opening gives the roots on file, or an error for a file that cannot be read; it is the step `Open` of a run |
| RootStore.Roots.AddRoot | crates/ce-iam/src/roots.rs:114-141 | a root with an empty window or past the limit is refused; otherwise its entry is set and saved, and stays in memory when saving fails |
| RootStore.Roots.RetireRoot | crates/ce-iam/src/roots.rs:146-155 | an existing root's `not_after` is set and saved, and nothing else changes |
| RootStore.Roots.RemoveRoot | crates/ce-iam/src/roots.rs:158-164 | exactly the entry of the key is removed, whether it was there is reported, and only then the file is written |
| RootStore.Roots.Perform | crates/ce-iam/src/roots.rs:114-164 | any one call leaves file and memory as the step of a run does |
| RootStore.ApplyKeepsFiled | crates/ce-iam/src/roots.rs:114-164 | every operation keeps each entry under the hex of its key and the count within the limit |
| RootStore.RunsSound | crates/ce-iam/src/roots.rs:80-164 | in every run with failed writes, deaths and reopenings the file parses, and on file and in memory every entry is under the hex of its key, within the limit |
| RootStore.QueriesAgree | crates/ce-iam/src/roots.rs:175-188 | the list of accepted roots and the single-key query agree, and the key's own window decides both |
| RootStore.RetirementStays | crates/ce-iam/src/roots.rs:143-164 | a retirement that is on file and in memory stays in both through operations on other roots, failed writes, deaths and reopenings |
| RootStore.RetiredRootRejected | crates/ce-iam/src/roots.rs:44-54 | in every run, after a retirement at a time above 0 that returned true the root is rejected at every later time, whatever happens to other roots, whatever fails and however often the store is reopened: none of its chains is authorized on another node |
| RootStore.RetiredRootAcceptedUntil | crates/ce-iam/src/roots.rs:143-155 | after a retirement that returned true and until its next operation, the key is accepted exactly from the bound it was added with to the time of its retirement |
| RootStore.RemovalStays | crates/ce-iam/src/roots.rs:157-164 | a key that is gone from file and memory stays gone until it is added, through failed writes, deaths and reopenings |
| RootStore.RemovedRootRejected | crates/ce-iam/src/roots.rs:157-164 | in every run, after a removal that returned true and until it is added again, a key is accepted at no time and none of its chains is authorized on another node |
| RootStore.AddedRootAccepted | crates/ce-iam/src/roots.rs:109-141 | in every run, after an addition that returned Ok and until its next operation, a key is accepted exactly between the two bounds given, 0 being no bound |
| RootStore.RefusedExactly | crates/ce-iam/src/roots.rs:121-130 | an addition is refused if and only if its entry would be accepted at no time or would be one root too many |
| RootStore.FailedRetirementIsUndone | crates/ce-iam/src/roots.rs:146-155 | a retirement whose write failed is in memory alone, and a reopening undoes it |
| RootStore.RotationLeavesNoGap | SECURITY.md:64-74 | when the windows of the old and new root meet or overlap, at every instant of the grant's own window after the old root's start and before the new root's end, the original or the re-issued token verifies |
| RootStore.RotationGap | SECURITY.md:64-74 | when the windows do not meet, right after the old root's end neither token verifies on a node that is not itself one of the two roots |
| Revocation.BuildSet | crates/ce-iam/src/revocation.rs:44-58 | the set holds the pairs of exactly the rows whose issuer is a node id in hex |
| Revocation.RowsOfPairs | crates/ce-iam/src/revocation.rs:44-58 | rows that spell node ids in hex give exactly the pairs they spell |
| Revocation.CachedRevocationSet.Refresh | crates/ce-iam/src/revocation.rs:150-171 | a fetch replaces the snapshot even when saving it fails; without one nothing changes |
| Revocation.ResolveRevocation | crates/ce-iam/src/main.rs:930-978 | the decision and the cache file it leaves, for each stance and each way fetching, reading and saving can fail |
| Revocation.CacheIsHonest | crates/ce-iam/src/revocation.rs:111-171 | whatever failed, the cached snapshot is what was on chain when it was fetched |
| Revocation.CacheHistory | crates/ce-iam/src/revocation.rs:150-171 | the cache holds exactly the last set that a call of the run fetched and saved |
| Revocation.FetchedSetIsUsed | crates/ce-iam/src/main.rs:947-949 | a checking call whose fetch succeeds works with exactly what is on chain at that time, under either stance; only a fail-closed call at time 0 that cannot save refuses |
| Revocation.FetchRefusesRevoked | crates/ce-iam/src/main.rs:947-949 | so a link revoked by then is refused |
| Revocation.LastSavedSetIsUsed | crates/ce-iam/src/main.rs:950-977 | a checking call whose fetch fails works with the last set that was fetched and saved: fail-open always, with the empty set when there is none, and fail-closed exactly when it is not older than the ttl |
| Revocation.NoCheckAndUnreadable | crates/ce-iam/src/main.rs:932-945 | without a check nothing is revoked, and a cache file that cannot be read refuses every check |
| Revocation.FailClosedIsRecent | crates/ce-iam/src/main.rs:962-974 | the set a fail-closed call works with was on chain no more than the ttl ago |
| Revocation.FailClosedRefusesRevoked | crates/ce-iam/src/main.rs:932-978 | a link revoked at time r makes every fail-closed verify after r + ttl refuse the chain, whatever fetches and cache writes failed |
| Revocation.FailOpenHasNoBound | crates/ce-iam/src/main.rs:951-961 | while fetches fail, fail-open uses a snapshot of any age, and fail-closed exactly those no older than the ttl |
| Devices.DeviceStore.Open | crates/ce-iam-core/src/device.rs:63-108 | opening adds exactly the seeds not yet on file and saves exactly when there were any; it fails when the file cannot be read or parsed or the save fails, takes a file that cannot be looked up for missing, and is otherwise the step `Reopen` of a run |
| Devices.DeviceStore.ClaimDevice | crates/ce-iam-core/src/device.rs:180-202 | a claim makes an admin exactly when there is none |
| Devices.DeviceStore.RequestDevice | crates/ce-iam-core/src/device.rs:208-258 | a request never changes an admin's key or role, and otherwise files the device as pending |
| Devices.DeviceStore.RegisterNodeId | crates/ce-iam-core/src/device.rs:263-282 | only the node id of an enrolled device changes |
| Devices.DeviceStore.ApproveDevice | crates/ce-iam-core/src/device.rs:299-317 | exactly a pending device becomes admin |
| Devices.DeviceStore.RevokeDevice | crates/ce-iam-core/src/device.rs:321-343 | exactly the device is removed, unless it is the last admin |
| Devices.DeviceStore.Perform | crates/ce-iam-core/src/device.rs:180-343 | any one call leaves file and memory as the step of a run does, with the same reply, so the results about runs are about this class |
| DeviceRuns.AdminPersists | crates/ce-iam-core/src/device.rs:63-343 | across failed saves, deaths and reopenings, once an admin is on file one always is, and then every running store shows one |
| DeviceRuns.AdminStepExact | crates/ce-iam-core/src/device.rs:63-343 | an event leaves a registry with an admin one if and only if it does not fall back on a file that has none and is given none by a new seed |
| DeviceRuns.AdminPersistsExactly | crates/ce-iam-core/src/device.rs:63-343 | in every run, once there is an admin, in memory or on file, there always is one if and only if no event falls back on a file that has none and is given none |
| DeviceRuns.AdminPersistsWithoutFailedSaves | crates/ce-iam-core/src/device.rs:63-343 | without failed saves, once there is an admin there always is one, across deaths and reopenings |
| DeviceRuns.FailedSaveCanLoseAdmin | crates/ce-iam-core/src/device.rs:180-202 | a run with a failed save in which the only admin is lost |
| DeviceRuns.AtMostOneClaim | crates/ce-iam-core/src/device.rs:177-202 | in every run at most one claim succeeds |
| DeviceRuns.AdminHasCause | crates/ce-iam-core/src/device.rs:63-343 | every admin of a run was made one by a claim while there was no admin, an approval while it was pending, or a seed of a device not on file; it was not admin before that event and has been ever since |
| DeviceRuns.ApplyKeepsAdminKey | crates/ce-iam-core/src/device.rs:180-343 | no operation changes the key or role of an admin it keeps |
| DeviceRuns.AdminKeyStable | crates/ce-iam-core/src/device.rs:63-343 | without failed saves an admin that stays enrolled stays admin under the same key, across deaths and reopenings |
| DeviceRuns.AdminKeyStableExactly | crates/ce-iam-core/src/device.rs:63-343 | with failed saves, while a device is admin its key stays if and only if no reopening or death falls back on a file (or a seed) with another key for it |
| DeviceRuns.FailedSaveCanRestoreOldKey | crates/ce-iam-core/src/device.rs:208-343 | a run with failed saves in which an admin's key changes back |
| DeviceRuns.ReopenExact | crates/ce-iam-core/src/device.rs:63-108 | a reopening, however it ends, leaves a running store if and only if the file can be read and no new seed failed to be saved; then there is an admin if and only if the file has one or a seed is new; without new seeds the registry is the same as before if and only if memory and file agreed |
| DeviceHistory.SessionPlays | crates/ce-iam-core/src/device.rs:180-343 | while nobody dies or reopens, the memory of a run is the registry with the calls played on, whether or not the saves succeed |
| DeviceHistory.DeviceAfterSession | crates/ce-iam-core/src/device.rs:180-343 | role, key, node id, label and time of a device, and whether it is enrolled, are those of the last call that set them and was not followed by a change: key and role of the claim, the last request before it was admin or the approval; a node id or label only if the call brings one |
| DeviceHistory.AnswersExactly | crates/ce-iam-core/src/device.rs:180-343 | a claim is granted if and only if no device is admin, an approval if and only if the device is pending, and a revocation is refused if and only if the device is the only admin |
| DeviceHistory.SeededDevice | crates/ce-iam-core/src/device.rs:78-107 | a seeded device that was not on file is admin under the first key the seed gives it, and one on file stays as it was |
| VaultRecords.KeysApart | crates/ce-iam-core/src/secrets.rs:787-823 | records of different classes never share a key, whatever the names in them, and within a class the key determines the name |
| VaultRecords.TokenReadsBack | crates/ce-iam-core/src/secrets.rs:354-364 | the text of an enrol token reads back as its slot and secret |
| Vaults.Vault.LoadMaster | crates/ce-iam-core/src/secrets.rs:206-225 | the device unwraps its own record or is told why not |
| Vaults.Vault.Recover | crates/ce-iam-core/src/secrets.rs:247-267 | the owner's derived master is wrapped to the owner and `meta` is written |
| Vaults.Vault.ApprovePairing | crates/ce-iam-core/src/secrets.rs:301-327 | the master is wrapped to the requesting device and the request removed, or nothing changes |
| Vaults.Vault.IssueEnrolToken | crates/ce-iam-core/src/secrets.rs:336-355 | the master is sealed under the fresh secret in its slot |
| Vaults.Vault.RedeemEnrolToken | crates/ce-iam-core/src/secrets.rs:360-385 | a well-formed token whose live slot opens with its secret enrols this device and removes the slot; otherwise nothing changes, and the reason is given |
| Vaults.Vault.PutSecret | crates/ce-iam-core/src/secrets.rs:443-510 | the value is sealed under the master with the next version, the first creation time and a rotation time when it replaces one |
| Vaults.Vault.GetSecret | crates/ce-iam-core/src/secrets.rs:513-532 | the value sealed under the name, or why it cannot be read |
| Vaults.Vault.IssueGrant | crates/ce-iam-core/src/secrets.rs:588-622 | an enrolled device signs the body and files the grant |
| Vaults.Vault.VerifyGrant | crates/ce-iam-core/src/secrets.rs:643-713 | the checks in their order, with the verdict of the first that fails |
| VaultRuns.StepSimulates | crates/ce-iam-core/src/secrets.rs:208-638 | each vault operation, and any loss of records, does to the records what it does to a guarded table without cryptography, with the same outcome |
| VaultRuns.VaultBehavesAsTable | crates/ce-iam-core/src/secrets.rs:208-638 | in every run where only the owner recovers, or initialises a vault that is not initialised, every outcome is the table's, every enrolled device's record wraps the same master, and every secret, slot and grant is as it was put or issued |
| VaultRuns.EnrolledExactly | crates/ce-iam-core/src/secrets.rs:237-410 | a device is enrolled if and only if some call of the run enrolled it (its recovery or first initialisation, the approval of its request, its redeemed token) and since then no other device revoked it and its record was not lost |
| VaultRuns.OneMaster | crates/ce-iam-core/src/secrets.rs:208-225 | in every run exactly the devices enrolled and not dropped since unwrap a master, all the same one, and any other device is refused |
| VaultRuns.RevokedDeviceIsRefused | crates/ce-iam-core/src/secrets.rs:403-410 | a device that another one revoked is refused the master and every secret until something enrols it again |
| VaultRuns.ReadsLastPut | crates/ce-iam-core/src/secrets.rs:440-532 | in every run any enrolled device reads the value of the last accepted put, and any other device is refused |
| VaultRuns.VersionsRise | crates/ce-iam-core/src/secrets.rs:447-510 | consecutive accepted puts under a name carry consecutive versions |
| VaultRuns.RecoveryRestores | crates/ce-iam-core/src/secrets.rs:247-267 | after losing any records, all device records and `meta` among them, the owner's recovery makes every surviving secret readable again with its value |
| VaultRuns.TokenWorksOnce | crates/ce-iam-core/src/secrets.rs:357-385 | after an enrol token was redeemed, any token for its slot is refused and changes nothing, until the slot is issued again |
| VaultRuns.TokenEnrols | crates/ce-iam-core/src/secrets.rs:329-385 | while its slot is left alone, an issued token enrols the device that redeems it up to its expiry, which then unwraps the one master, and is refused after it |
| VaultHistory.ReadsExactly | crates/ce-iam-core/src/secrets.rs:440-532 | in every run a read gives a value and kind if and only if the reader is enrolled and they were the last put under the name and neither deleted nor lost since; otherwise it says which of the two fails |
| VaultHistory.RecordExactly | crates/ce-iam-core/src/secrets.rs:447-499 | the record of a secret holds the value and kind last put, the time of the first put since there was no record, and the time of the last put if that is a later one |
| VaultHistory.FirstVersionIsOne | crates/ce-iam-core/src/secrets.rs:457-462 | the put that finds no record starts at version 1 |
| VaultHistory.WritersAreEnrolled | crates/ce-iam-core/src/secrets.rs:336-622 | putting a secret, issuing an enrol token and issuing a grant are refused exactly to devices that are not enrolled |
| VaultHistory.PairingExactly | crates/ce-iam-core/src/secrets.rs:271-327 | an approval returns the device that asked last under the code, which then unwraps the one master, if and only if the approver is enrolled and the request was neither approved nor lost since |
| VaultHistory.RedeemExactly | crates/ce-iam-core/src/secrets.rs:357-385 | a token is redeemed if and only if it names a slot with the secret last issued into it, not redeemed or lost since, and it is not later than the expiry |
| VaultHistory.MalformedTokenIsRefused | crates/ce-iam-core/src/secrets.rs:361-364 | a text that is no token is refused and changes nothing |
| VaultHistory.InitExactly | crates/ce-iam-core/src/secrets.rs:237-245 | `init` returns true if and only if nothing initialised or recovered the vault since `meta` was last missing |
| VaultHistory.ImpostorIsRefused | crates/ce-iam-core/src/secrets.rs:208-225 | whoever uses the id of a device of the fleet with another wrapping key is refused the master and every secret |
| VaultHistory.RevocationRefusedExactly | crates/ce-iam-core/src/secrets.rs:403-410 | a device is refused the revocation of itself and of no other |
| VaultGrants.GrantsAreInForce | crates/ce-iam-core/src/secrets.rs:588-638 | with fresh grant ids, the grants on record are exactly those issued by an enrolled device and not revoked since, each with the body it was issued with |
| VaultGrants.ListsExactly | crates/ce-iam-core/src/secrets.rs:598-709 | for every action, what is listed when issuing for some names permits it on a name exactly when the names admit it: for `read` the name or `*` |
| VaultGrants.AmbiguousAbility | crates/ce-iam-core/src/secrets.rs:700-709 | what is listed for the secret `a:b` permits the action `read:a` on `b`, and what is listed for `a` and `b` does not |
| VaultGrants.AcceptsExactly | crates/ce-iam-core/src/secrets.rs:640-713 | with fresh grant ids and unforgeable signatures, verification for any action accepts if and only if the token was issued in the run by a device that is still enrolled, was not revoked since, is for this audience, has no readable expiry before now, and lists a name that admits the action |
| VaultGrants.RevokedForGood | crates/ce-iam-core/src/secrets.rs:635-713 | with fresh grant ids, a grant that was issued and then revoked is never accepted again, for any action, audience, name or time |

## Left out

- Real cryptography, `ce-secrets-rs`, `ce-identity` and `ce_cap`: keys, seals, wraps, signatures and link hashes are symbolic, and `authorize` is defined by its documented contract.
- The labels, times and writers in device, pairing and enrol records: they are carried as in the code, and no result is about them.
- Signatures over device and secret records, fingerprints, the `display` and `public` fields, the listing calls and the challenge-response login of the vault: they do not take part in who can read what. Only grant bodies carry a signature here.
- Vaults.Vault.RedeemEnrolToken: a token text with characters outside ASCII counts as malformed. The code reports the same error, except that it stops the process when the secret part has an even number of bytes and the first of its two-byte pieces that is not a byte in hex cuts a character in two.
- Vaults.MemStore: each vault method is one step, so the get-then-put of two devices at once is not modelled, nor are store errors between two writes of one method.
- VaultGrants.AcceptsExactly: assumes fresh grant ids and unforgeable signatures.
- Runs in which a device other than the owner recovers, or initialises a vault that is not initialised: it would derive its own master. Initialising an initialised vault is in the runs, for every device.
- Machine integers: all numbers are unbounded, except the nonces of `mint_policy`, whose overflow is an error in the code and in the model.
- Error messages, and the `sid`, `version` and `description` texts beyond being carried along.
- The 64 MiB cap on store files, and directory creation beyond its being able to fail.
- The device registry: a role other than admin or pending in a file edited by hand; the environment text the seeds come from.
- A set of roots without a backing file.
- Concurrency between threads or processes on one store file.
- Windows and time-to-live of 0 mean no bound; the timing results are stated for positive values.
- `kv_store.rs`, `nodeauth.rs`, HTTP, mesh and DHT calls, `submit_revoke` and the command line: plumbing around unseen libraries.
- `authkv.rs` and `audit.rs`: replication is in an unseen library, and the gating is one branch for each request.
- `attestation.rs`, `trust.rs`, `wallet.rs` and `bridge.rs`: they would only add easy members.
