# Dynamic settings store: a Dafny model

This project models the settings core of a Filament plugin. The plugin
keeps per-user key/value settings in one `settings` table, and two admin
pages read and write them.

- **Setting names** (`SettingNames`): the `SettingName` enum has eleven
  string-backed cases. Its `group()` splits them into the home-page group
  (nine cases) and the general group (`logo`, `favicon`).
- **The table** (`SettingsStore`): a sequence of rows. Each row has an
  optional owner, a `group` string, a `name` string and an optional JSON
  payload. The migration declares no unique index.
  - A page's query (`where owner`, `where group`, `get`, `keyBy('name')`) is `Load`. When a name occurs twice, the later row wins.
  - `updateOrCreate` is `Upsert`. It rewrites the first row that matches the triple, or appends a new row.
  - A page's save loop is `UpsertAll`.
  - The foreign key's `nullOnDelete` is `DeleteOwner`, and its `cascadeOnUpdate` is `RekeyOwner`.
- **Payloads** (`Json`): a JSON tree or PHP null. The module also defines PHP's
  `??` (`Coalesce`, a helper whose behaviour the page lemmas state) and PHP
  truthiness (`Truthy`).
- **Validation** (`FieldRules`): the rules the home-page form declares, as
  Laravel's validator applies them.
  - Every rule except `required` is skipped for null or blank values.
  - A failed `required` ends that field's checks.
  - The phone rule is the regex `^[0-9\s\-\+\(\)]+$`, written out character by character.
  - The status toggle brings its own `boolean` rule: true, false, 0, 1, "0" and "1" pass.
- **The home-page page** (`HomePageSettings`): loading with defaults,
  validation, the save loop over nine fields, and the visibility of the
  "View site" action.
- **The general page** (`GeneralSettings`): loading `logo` and `favicon`,
  the `domain` shown (the gallery link with `https://` removed), and the
  save loop over two fields.
- **Cross-cutting invariants**:
  - At most one row per (owner, group, name): `SettingsStore.Unique`.
  - Every row sits under the group its name belongs to: `GroupAgreement`.
  - A save on one page does not affect the other page: `PageIndependence`.

Where the code departs from what its names suggest, the model follows the code:

- The table has no uniqueness constraint. "One row per triple" is therefore
  an invariant the writes keep (`UpsertPreservesUnique`), not an assumption.
  A page's round trip needs only the per-scope form, `UniqueIn`: one row per
  name among that user's rows of that group. Deleting users can break
  whole-table uniqueness but never an existing user's scope
  (`RoundTripAfterDeletions`).
  With duplicates, a load can disagree with what was just written
  (`DuplicatesDefeatRoundTrip`).
- `updateOrCreate` does not check that a name belongs to the group it is
  written under. `GroupsAgree` holds only because both pages write their
  own lists (`MisplacedRowDisagrees`).
- `keyBy` keeps the last row of a name, not the first. `Upsert` updates the
  first row. On a store with one row per triple the two agree.
- Query order is taken to be primary-key (insertion) order, for both `get()`
  and `updateOrCreate`'s `first()`. No query states an `ORDER BY`.

## Model

| member | source | states |
|---|---|---|
| SettingNames.FromKey | src/Enums/SettingName.php:8-22 | `tryFrom`: a found case has the given backing string; not found means no case has it |
| SettingNames.Key | src/Enums/SettingName.php:8-22 | the eleven backing strings; `KeyRoundTrip` and `KeyInjective` state that they identify the cases |
| SettingNames.Group | src/Enums/SettingName.php:24-45 | `group()`; `NamesInIsPreimage` states which cases each group holds |
| SettingNames.KeyRoundTrip | src/Enums/SettingName.php:8-22 | every case survives name → backing string → name |
| SettingNames.KeyInjective | src/Enums/SettingName.php:8-22 | distinct cases have distinct backing strings |
| SettingNames.AllNamesComplete | src/Enums/SettingName.php:8-22 | the case list holds all eleven cases, each exactly once |
| SettingNames.NamesInIsPreimage | src/Enums/SettingName.php:24-45 | a case is in a group's declaration-order list (STATUS … PHONE_NUMBER for the home page, LOGO, FAVICON for general) iff `group()` maps it to that group, so no case is in both groups and none is missing |
| SettingsStore.Load | src/Filament/Pages/HomePageSettings.php:65-68 | the `where`/`get`/`keyBy` query; `LoadKeys` and `LoadLastWins` state which row each name is bound to |
| SettingsStore.Upsert | src/Filament/Pages/HomePageSettings.php:260-266 | `updateOrCreate`; `UpsertSpec` states its effect and `LoadAfterUpsert` its partner law with `Load` |
| SettingsStore.LoadKeys | src/Filament/Pages/HomePageSettings.php:65-68 | a name is loaded iff some row of that owner and group has it, and the row returned matches owner, group and name |
| SettingsStore.LoadLastWins | src/Filament/Pages/HomePageSettings.php:65-68 | `keyBy`: the last matching row of a name is the one loaded |
| SettingsStore.Scope | src/Filament/Pages/HomePageSettings.php:65-67 | the two `where` clauses: every selected row has the owner and group, and every row of the table with them is selected; `ScopeCounts` states the multiplicities |
| SettingsStore.ScopeCounts | src/Filament/Pages/HomePageSettings.php:65-67 | each row of the table with the owner and group is selected as many times as the table holds it, and no other row is |
| SettingsStore.LoadOfScope | src/Filament/Pages/HomePageSettings.php:65-68 | `keyBy` over the selected rows gives the same map as over the whole table |
| SettingsStore.LoadDependsOnlyOnScope | src/Filament/Pages/HomePageSettings.php:65-68 | two tables with the same rows, in the same order, for an owner and group load the same map for them, whatever their other rows |
| SettingsStore.UpsertSpec | src/Filament/Pages/HomePageSettings.php:260-266 | `updateOrCreate`: the length is kept iff a matching row exists, otherwise exactly the new row is appended; keys are never changed; rows that do not match are unchanged; when the first match is at position k, only row k takes the payload and every other row, later matches included, is unchanged |
| SettingsStore.UpsertRewritesFirstMatch | src/Filament/Pages/HomePageSettings.php:260-266 | `first()` then `update`: exactly the first matching row takes the payload, every other row stays as it was |
| SettingsStore.UniqueScopes | database/migrations/2022_12_14_083707_create_settings_table.php:11-21 | one row per triple in the whole table, or among owned rows, gives one row per name within any user's group |
| SettingsStore.LoadAfterUpsert | src/Filament/Pages/HomePageSettings.php:260-266 | when the owner's group holds at most one row per name, loading after an upsert gives the old map with this name bound to the new row |
| SettingsStore.LoadOtherScopeAfterUpsert | src/Filament/Pages/HomePageSettings.php:260-266 | an upsert changes no other owner's or group's load |
| SettingsStore.UpsertPreservesUnique | database/migrations/2022_12_14_083707_create_settings_table.php:11-21 | with no unique index, upsert still keeps at most one row per triple |
| SettingsStore.UpsertPreservesUniqueIn | src/Filament/Pages/HomePageSettings.php:260-266 | an upsert keeps one row per name within every owner and group |
| SettingsStore.UpsertPreservesUniqueOwned | database/migrations/2022_12_14_083707_create_settings_table.php:11-21 | an upsert keeps one row per triple among owned rows |
| SettingsStore.UpsertOverwrites | src/Filament/Pages/HomePageSettings.php:260-266 | upserting twice on one triple equals upserting the second payload once |
| SettingsStore.UpsertNoop | src/Filament/Pages/HomePageSettings.php:260-266 | an upsert leaves the store unchanged iff the first matching row already holds the payload |
| SettingsStore.FirstPayloadOtherAfterUpsert | src/Filament/Pages/HomePageSettings.php:260-266 | an upsert does not change what `first()` finds for any triple differing in owner, group or name |
| SettingsStore.DuplicatesDefeatRoundTrip | database/migrations/2022_12_14_083707_create_settings_table.php:11-21 | with two rows for a triple, the upsert rewrites the first while the load reads the second, so the written value is not read back |
| SettingsStore.UpsertAllSpec | src/Filament/Pages/HomePageSettings.php:259-267 | a save loop keeps every old row's key, changes no out-of-scope row, and adds only in-scope rows of listed names |
| SettingsStore.UpsertAll | src/Filament/Pages/HomePageSettings.php:259-267 | the save loop; `UpsertAllSpec`, `LoadAfterUpsertAll` and `UpsertAllIdempotent` state its effect |
| SettingsStore.UpsertAllPreservesUnique | src/Filament/Pages/HomePageSettings.php:259-267 | a save loop keeps at most one row per triple |
| SettingsStore.UpsertAllPreservesUniqueIn | src/Filament/Pages/HomePageSettings.php:259-267 | a save loop keeps one row per name within every owner and group |
| SettingsStore.UpsertAllPreservesUniqueOwned | src/Filament/Pages/HomePageSettings.php:259-267 | a save loop keeps one row per triple among owned rows |
| SettingsStore.LoadAfterUpsertAll | src/Filament/Pages/HomePageSettings.php:259-267 | when the owner's group holds at most one row per name, loading after a save loop gives the old map overlaid with the written entries |
| SettingsStore.LoadOtherScopeAfterUpsertAll | src/Filament/Pages/HomePageSettings.php:259-267 | a save loop changes no other owner's or group's load |
| SettingsStore.OverlayBinds | src/Filament/Pages/HomePageSettings.php:259-267 | with distinct names, each written entry is bound to its own new row |
| SettingsStore.OverlayKeeps | src/Filament/Pages/HomePageSettings.php:259-267 | names the loop does not write keep their old binding |
| SettingsStore.FirstPayloadAfterUpsertAll | src/Filament/Pages/HomePageSettings.php:259-267 | after a loop with distinct names, `first()` finds each written payload |
| SettingsStore.FirstPayloadOtherAfterUpsertAll | src/Filament/Pages/HomePageSettings.php:259-267 | a loop does not change `first()` for a triple of another owner, another group, or a name it does not write |
| SettingsStore.UpsertAllNoop | src/Filament/Pages/HomePageSettings.php:259-267 | a loop whose payloads are all already first-found leaves the store unchanged |
| SettingsStore.UpsertAllIdempotent | src/Filament/Pages/HomePageSettings.php:259-267 | running a save loop with distinct names twice gives the same store as running it once |
| SettingsStore.DeleteOwner | database/migrations/2022_12_14_083707_create_settings_table.php:14 | `nullOnDelete`: no row is deleted; the deleted owner's rows lose their owner; group, name and payload are kept; other rows are unchanged |
| SettingsStore.RekeyOwner | database/migrations/2022_12_14_083707_create_settings_table.php:14 | `cascadeOnUpdate`: the old id's rows take the new id; everything else is unchanged |
| SettingsStore.LoadAfterDeleteOwner | database/migrations/2022_12_14_083707_create_settings_table.php:14 | after deletion the deleted owner loads nothing, and every other owner loads what they loaded before |
| SettingsStore.DeleteOwnerPreservesUniqueOwned | database/migrations/2022_12_14_083707_create_settings_table.php:14 | among rows that still have an owner, deletion keeps one row per triple |
| SettingsStore.DeleteOwnerCanBreakUnique | database/migrations/2022_12_14_083707_create_settings_table.php:14 | two owners' rows for one setting collide on a null owner once both owners are deleted |
| SettingsStore.RekeyOwnerPreservesUnique | database/migrations/2022_12_14_083707_create_settings_table.php:14 | re-keying to an id that owns no rows keeps one row per triple |
| SettingsStore.RekeyOwnerPreservesUniqueOwned | database/migrations/2022_12_14_083707_create_settings_table.php:14 | re-keying to an id that owns no rows keeps one row per triple among owned rows |
| SettingsStore.RekeyOwnerMovesUniqueIn | database/migrations/2022_12_14_083707_create_settings_table.php:14 | after re-keying, the new id's rows in a group have one row per name whenever the old id's rows had |
| GroupAgreement.UpsertAllKeepsAgreement | database/migrations/2022_12_14_083707_create_settings_table.php:16-17 | a save loop whose names all belong to its group keeps every row under its name's group |
| GroupAgreement.MisplacedRowDisagrees | database/migrations/2022_12_14_083707_create_settings_table.php:16-17 | the free-text columns admit a `logo` row under `home_page` |
| FieldRules.CheckField | src/Filament/Pages/HomePageSettings.php:133-201 | a field has no errors iff it passes every rule; each error names the field and a failing rule of the field; there are never more errors than rules |
| FieldRules.CheckFieldReportsAllFailures | src/Filament/Pages/HomePageSettings.php:133-201 | for a present value, or a field without `required`, the errors are exactly the failing rules, in order |
| FieldRules.CheckFieldStopsAtRequired | src/Filament/Pages/HomePageSettings.php:133-201 | for a value `required` rejects, the errors are exactly the failing rules up to and including the first `required`, in order, ending with `required`: later rules are not checked |
| FieldRules.RequiredStopsExample | src/Filament/Pages/HomePageSettings.php:133-136 | an empty company name reports `required` alone, not `maxLength(255)` |
| FieldRules.PhoneRules | src/Filament/Pages/HomePageSettings.php:197-201 | the phone rules pass iff the value is empty, or is a string of 1 to 255 characters that are digits, whitespace, `-`, `+`, `(` or `)` |
| FieldRules.PhoneExamples | src/Filament/Pages/HomePageSettings.php:201 | "+40-760 123 456" passes the pattern and "call me" fails |
| FieldRules.BooleanExamples | src/Filament/Pages/HomePageSettings.php:109 | the toggle's `boolean` rule accepts false, 1, "0" and an empty value, and rejects "yes" and 2 |
| HomePageSettings.Validate | src/Filament/Pages/HomePageSettings.php:109-201 | the form has no errors iff the status is empty or boolean-like, company name is present and at most 255 characters, address and description are at most 256, the links are URLs, the email is at most 255 characters and an address, and the phone matches its rules |
| HomePageSettings.Save | src/Filament/Pages/HomePageSettings.php:238-268 | validation comes first: the save succeeds iff the form is valid, and a rejected form leaves the store unchanged |
| HomePageSettings.NonBooleanStatusRejected | src/Filament/Pages/HomePageSettings.php:109 | a status the toggle's `boolean` rule rejects, such as "yes", stops the save with errors and writes nothing |
| HomePageSettings.SaveFieldsListHomePage | src/Filament/Pages/HomePageSettings.php:244-257 | the save list is the enum's home-page group, in declaration order |
| HomePageSettings.SaveFieldsPreimage | src/Filament/Pages/HomePageSettings.php:244-257 | a backing string is on the save list iff its case's `group()` is HOME_PAGE |
| HomePageSettings.FieldBelongsToGroup | src/Filament/Pages/HomePageSettings.php:263 | every saved name belongs to the group literal it is written under |
| HomePageSettings.Load | src/Filament/Pages/HomePageSettings.php:61-81 | `loadSettings`; `FormOfBindings`, `LoadDefaults` and `LoadReadsOnlyOwnRows` state what it reads |
| HomePageSettings.LoadReadsOnlyOwnRows | src/Filament/Pages/HomePageSettings.php:65-68 | two stores holding the same home-page rows of the user, in the same order, load the same form, whatever their other rows |
| HomePageSettings.FormOfBindings | src/Filament/Pages/HomePageSettings.php:70-78 | rows holding every field's value read back as the form, with defaults for nulls |
| HomePageSettings.LoadDefaults | src/Filament/Pages/HomePageSettings.php:70-78 | with no home-page row for the user, status is false and the eight other fields are null |
| HomePageSettings.NullPayloadReadsAsDefault | src/Filament/Pages/HomePageSettings.php:70-78 | when a field's last row for the user holds a null payload, the field reads as its default; a null status reads as false |
| HomePageSettings.SaveRoundTrip | src/Filament/Pages/HomePageSettings.php:259-267 | after a valid save on a store with at most one row per name among the user's home-page rows, loading gives back every saved field, with nulls read as defaults |
| HomePageSettings.SaveIsolation | src/Filament/Pages/HomePageSettings.php:260-266 | a save changes no other owner's or group's load, and no row outside the user's home page |
| HomePageSettings.SaveAddsOnlyOwnRows | src/Filament/Pages/HomePageSettings.php:260-266 | every row a save adds belongs to the user, sits under `home_page` and has a listed name |
| HomePageSettings.SaveIdempotent | src/Filament/Pages/HomePageSettings.php:259-267 | saving the same form twice equals saving it once |
| HomePageSettings.SavePreservesInvariants | src/Filament/Pages/HomePageSettings.php:259-267 | a save keeps one row per triple (in the whole table, among owned rows, and within any owner and group) and keeps every row under its name's group |
| HomePageSettings.ViewSiteVisible | src/Filament/Pages/HomePageSettings.php:51 | the action's visibility; `ViewSiteAfterLoad` and `ViewSiteAfterSave` state when it holds |
| HomePageSettings.ViewSiteAfterLoad | src/Filament/Pages/HomePageSettings.php:46-54 | "View site" shows iff the user's loaded status and company-name rows both hold truthy payloads |
| HomePageSettings.ViewSiteAfterSave | src/Filament/Pages/HomePageSettings.php:46-54 | after a valid save on a store with one row per name in the user's home page, "View site" shows iff the saved status and company name are truthy |
| HomePageSettings.ZeroCompanyNameHidesViewSite | src/Filament/Pages/HomePageSettings.php:51 | after a valid save whose company name is "0", which passes `required` but is falsy, "View site" stays hidden |
| HomePageSettings.ZeroCompanyFormValid | src/Filament/Pages/HomePageSettings.php:133-136 | a form with status on and company name "0" passes validation |
| HomePageSettings.FreshUserLifecycle | src/Filament/Pages/HomePageSettings.php:61-81 | on an empty table the page loads defaults; a valid save is read back; after the owner is deleted, the page shows defaults and the saved rows remain, ownerless |
| HomePageSettings.DeletionsOrphanRows | database/migrations/2022_12_14_083707_create_settings_table.php:14 | deleting two users who both saved a status leaves two ownerless status rows |
| HomePageSettings.RoundTripAfterDeletions | database/migrations/2022_12_14_083707_create_settings_table.php:14 | after those deletions the table is not unique, the owned rows are, and a third user's valid save still reads back |
| GeneralSettings.RemoveAllShortens | src/Filament/Pages/GeneralSettings.php:52 | removal never lengthens the link, and removes at least one whole occurrence when there is one |
| GeneralSettings.RemoveAllNoOccurrence | src/Filament/Pages/GeneralSettings.php:52 | a link without `https://` is left unchanged |
| GeneralSettings.RemoveAllChangesIffOccurs | src/Filament/Pages/GeneralSettings.php:52 | the removal changes the link iff the link contains the pattern |
| GeneralSettings.RemoveAllPrefix | src/Filament/Pages/GeneralSettings.php:52 | one leading occurrence followed by text without one leaves exactly that text |
| GeneralSettings.RemoveAllCanLeaveScheme | src/Filament/Pages/GeneralSettings.php:52 | pieces left around a removed occurrence can join into a new `https://` |
| GeneralSettings.RemoveAllLeftmost | src/Filament/Pages/GeneralSettings.php:52 | the text before the leftmost occurrence is kept, that occurrence is dropped, and removal resumes after it; with `RemoveAllNoOccurrence` this fixes the result on every text |
| GeneralSettings.RemoveAllKeepsPrefix | src/Filament/Pages/GeneralSettings.php:52 | text in which no occurrence starts is kept as it is, and the removal carries on with what follows |
| GeneralSettings.RemoveAllEveryOccurrence | src/Filament/Pages/GeneralSettings.php:52 | every occurrence goes, not only the first: `https://https://` becomes empty |
| GeneralSettings.RemoveAll | src/Filament/Pages/GeneralSettings.php:52 | `Str::replace` with an empty replacement; `RemoveAllLeftmost` and `RemoveAllNoOccurrence` determine it, and `RemoveAllShortens` and `RemoveAllChangesIffOccurs` state its effect |
| GeneralSettings.DomainOfLink | src/Filament/Pages/GeneralSettings.php:51-52 | the domain shown for `https://` + host, or for host alone, is host, provided host has no occurrence |
| GeneralSettings.LoadReads | src/Filament/Pages/GeneralSettings.php:39-53 | two stores holding the same general rows of the user, in the same order, give the same form for a link, whatever their other rows; `custom_domain` is never loaded and stays null |
| GeneralSettings.LoadDefaults | src/Filament/Pages/GeneralSettings.php:48-49 | with no general row, logo and favicon are null |
| GeneralSettings.Load | src/Filament/Pages/GeneralSettings.php:39-53 | `loadSettings`; `LoadReads`, `LoadDefaults` and `DomainOfLink` state what it reads |
| GeneralSettings.Save | src/Filament/Pages/GeneralSettings.php:121-144 | `save`, with `validate()` taken to pass; `SaveRoundTrip`, `SaveIsolation` and `SaveIdempotent` state its effect |
| GeneralSettings.SaveFieldsAreGeneralGroup | src/Filament/Pages/GeneralSettings.php:127 | the save list is the enum's general group, in order, and a backing string is on it iff its case's `group()` is GENERAL |
| GeneralSettings.FieldBelongsToGroup | src/Filament/Pages/GeneralSettings.php:133 | both saved names belong to the `general` literal |
| GeneralSettings.SaveRoundTrip | src/Filament/Pages/GeneralSettings.php:129-137 | after a save on a store with at most one row per name among the user's general rows, loading gives back the saved logo and favicon |
| GeneralSettings.SaveIgnoresDomains | src/Filament/Pages/GeneralSettings.php:127 | `domain` and `custom_domain` are never persisted: the saved store does not depend on them |
| GeneralSettings.SaveIsolation | src/Filament/Pages/GeneralSettings.php:130-136 | a save changes no other owner's or group's load; it adds only the user's general rows of listed names |
| GeneralSettings.SaveIdempotent | src/Filament/Pages/GeneralSettings.php:129-138 | saving twice equals saving once |
| GeneralSettings.SavePreservesInvariants | src/Filament/Pages/GeneralSettings.php:129-138 | a save keeps one row per triple (in the whole table, among owned rows, and within any owner and group) and keeps every row under its name's group |
| PageIndependence.GeneralSaveKeepsHomePage | src/Filament/Pages/GeneralSettings.php:130-136 | a general save changes no user's home page |
| PageIndependence.HomePageSaveKeepsGeneral | src/Filament/Pages/HomePageSettings.php:260-266 | a home-page save changes no user's logo or favicon |
| PageIndependence.HomePageSaveKeepsOtherUsers | src/Filament/Pages/HomePageSettings.php:260-266 | one user's home-page save leaves every other user's home page unchanged |
| Json.Truthy | src/Filament/Pages/HomePageSettings.php:51 | PHP's boolean conversion of a payload; `ZeroCompanyNameHidesViewSite` and `ViewSiteAfterLoad` state its use |

## Left out

- Rendering is not modelled: the form layout, the preview view and placeholder, the clipboard script, notifications, navigation labels, icons and sort order.
- The signed-in user is a parameter (`uid`), not a call to `Auth::id()`. Pages are taken to run for a signed-in user.
- The gallery link from `route(...)` is an opaque input string. On the home page it is not part of the settings and is left out.
- URL and e-mail syntax (`->url()`, `->email()`) are framework rules. The model takes them as function parameters (`FormatChecks`).
- A non-null text field that is not a string fails its text rules. Laravel's size and regex rules for numbers and arrays are not modelled.
- File upload storage for `logo` and `favicon` is not modelled. The payload is an opaque JSON value.
- The payload column's `array` cast is taken as an exact round trip of the JSON value. Floating-point payloads are not modelled.
- The surrogate `id` is a row's position in the table. The timestamps are not modelled.
- Concurrent saves and transactions are out of scope. Each save is one sequential step.
- The service provider and the `Setting` model's relation are framework wiring and are not modelled.
- `SettingGroup`'s backing values are not modelled: `SettingNames.SettingGroup` declares its two cases, and `GroupLiteral` assumes HOME_PAGE is stored as "home_page" and GENERAL as "general", the literals the pages write.
- HomePageSettings.Validate: lists a field's errors without the validator's messages. Only whether a rule failed is modelled. Of the rules the framework's components add for themselves, only the status toggle's `boolean` is modelled; any others are not.
- String comparison in queries is taken to be exact, as under a binary collation. The `where` clauses of the loads and the lookup of `updateOrCreate` compare `group` and `name` with the column's collation. Under a case-insensitive collation a row such as ("HOME_PAGE", "Status") would be selected and rewritten, yet `keyBy` would key it under its stored spelling.
- GeneralSettings.Save: the framework validation `validate()` of the two upload fields is taken to pass, so the model always writes. The upload components' own rules are not modelled.
