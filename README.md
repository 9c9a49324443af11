# Atlas service client of Apache Ranger, modelled in Dafny

Ranger's Atlas service answers `validateConfig` and `lookupResource` by building a
new `AtlasServiceClient` from the service configuration on every call, and its
cache therefore starts empty each time. The client does three jobs. It reads a comma-separated list of Atlas REST endpoints
from the service configuration. It logs in to the first endpoint that answers
with a form POST to `/j_spring_security_check`. It fetches the type headers
(`/api/atlas/v2/types/typedefs/headers`) and caches them as a map from the
lower-cased category to type names.

The client answers the policy editor's auto-complete lookups:

- `type-category` offers the five fixed category names. It uses neither the refresh nor the cache.
- `type`, `entity-type` and `entity-classification` refresh the cache first and then offer names from it.
- Each of these four lookups filters its candidates by the typed prefix and drops values that are already chosen.
- The `type` lookup also keeps only the categories that the chosen `type-category` values match, by case-insensitive equality or by a commons-io wildcard pattern. When no `type-category` value is chosen, it keeps all five categories.
- Any other resource name is echoed back unfiltered as the only value.

Modules, one per concern of the client:

- `Wrappers` (wrappers.dfy): `Option`, `Result` and a null-returning map lookup `Get`.
- `AtlasStrings` (strings.dfy): ASCII lower-casing, `startsWith`, case-insensitive equality, and commons-io's `wildcardMatch`. The matcher is modelled as its tokenizer plus what its backtracking scan accepts.
- `AtlasEndpoints` (urls.dfy): Java's `String.split(",")`, trailing-slash stripping and the endpoint list.
- `AtlasLogin` (login.dfy): password fallback and the login failover.
- `AtlasTypesDefs` (typesdefs.dfy): grouping the type headers and the endpoint loop of the refresh.
- `AtlasLookup` (lookup.dfy): the two `addIfStartsWithAndNotExcluded` overloads, `emptyOrContainsMatch` and the lookup answer as a function of the cache.
- `AtlasClient` (client.dfy): the class `AtlasServiceClient`. Its mutable field `typesDef` is the cache. Its methods are proved against the functions above. Beside the class are the two service entry points, each of which builds a new client.
- `AtlasDefaults` (defaults.dfy): the admin user added to every default policy item.

The network is a parameter, not something the model performs:

- `post(i, k, loginUrl, user, password)` is a login POST. `k` is the attempt's position in the endpoint list. The POST either responds, returns nothing, or throws past the inner handler.
- `get(i, url, cookies)` is the header GET. It either fails, returns no response, or returns a parsed body.
- `decrypt` is password decryption. A failure is `None`.

The index `i` is the refresh iteration, because the source creates a fresh
HTTP client for every endpoint it tries.

How the model reads the configuration follows the code:

- A missing `atlas.rest.address` gives no endpoints.
- An empty one gives a single empty endpoint, because `"".split(",")` is `[""]`. The client then tries the bare path `/j_spring_security_check`.
- Empty pieces at the end of the list are dropped, as `String.split` drops them. Empty pieces inside the list are kept.

So an empty setting and a missing setting behave differently, and the model follows the code.

The cached names keep the order and the duplicates of the response, because the source appends them to a list.

## Model

| member | source | states |
|---|---|---|
| AtlasClient.AtlasServiceClient.constructor | plugin-atlas/src/main/java/org/apache/ranger/services/atlas/RangerServiceAtlas.java:151-155 | the address, user and password are the configuration's values (absent when unset), and the cache starts empty |
| AtlasEndpoints.JoinPieces | plugin-atlas/src/main/java/org/apache/ranger/services/atlas/RangerServiceAtlas.java:374 | splitting at every comma loses nothing: re-joining the pieces with commas gives back the address string |
| AtlasEndpoints.PiecesShape | plugin-atlas/src/main/java/org/apache/ranger/services/atlas/RangerServiceAtlas.java:374 | there is one more piece than there are commas, and no piece contains a comma |
| AtlasEndpoints.JavaSplitShape | plugin-atlas/src/main/java/org/apache/ranger/services/atlas/RangerServiceAtlas.java:374 | without a comma the split is `[s]`; otherwise it keeps a prefix of the comma-separated pieces, none containing a comma, ends in a non-empty piece, and drops only empty pieces |
| AtlasEndpoints.StripTrailingSlashesSpec | plugin-atlas/src/main/java/org/apache/ranger/services/atlas/RangerServiceAtlas.java:377-385 | the stripped URL is a prefix of the original, it does not end in `/`, and every removed character is `/` |
| AtlasEndpoints.StripTrailingSlashesIdempotent | plugin-atlas/src/main/java/org/apache/ranger/services/atlas/RangerServiceAtlas.java:380-382 | stripping an already stripped URL changes nothing |
| AtlasEndpoints.AtlasUrlsSpec | plugin-atlas/src/main/java/org/apache/ranger/services/atlas/RangerServiceAtlas.java:371-388 | no endpoints without a configured address; otherwise one endpoint per kept split piece, each stripped of trailing slashes |
| AtlasEndpoints.SingleAddress | plugin-atlas/src/main/java/org/apache/ranger/services/atlas/RangerServiceAtlas.java:374-385 | an address without a comma gives exactly that address, stripped, even when it is empty |
| AtlasEndpoints.TwoAddressesExample | plugin-atlas/src/main/java/org/apache/ranger/services/atlas/RangerServiceAtlas.java:371-388 | `http://a/,http://b//` gives `[http://a, http://b]` |
| AtlasClient.AtlasServiceClient.GetAtlasUrls | plugin-atlas/src/main/java/org/apache/ranger/services/atlas/RangerServiceAtlas.java:371-388 | the array is fresh and holds exactly the endpoint list of the configured address |
| AtlasLogin.EffectivePassword | plugin-atlas/src/main/java/org/apache/ranger/services/atlas/RangerServiceAtlas.java:240-250 | the decrypted password when decryption gives one, else the configured value; a configured password always yields one |
| AtlasLogin.LoginFromSpec | plugin-atlas/src/main/java/org/apache/ranger/services/atlas/RangerServiceAtlas.java:234-272 | from any position, success carries the response of the first endpoint that responds, and failure happens exactly when none does |
| AtlasLogin.LoginSpec | plugin-atlas/src/main/java/org/apache/ranger/services/atlas/RangerServiceAtlas.java:229-286 | login succeeds with the first responding endpoint's response and fails exactly when no endpoint responds |
| AtlasLogin.LoginEmptyFails | plugin-atlas/src/main/java/org/apache/ranger/services/atlas/RangerServiceAtlas.java:274-283 | with no endpoints, login fails with an error that names no URL |
| AtlasLogin.LoginFromIgnoresLaterEndpoints | plugin-atlas/src/main/java/org/apache/ranger/services/atlas/RangerServiceAtlas.java:261-263 | after an endpoint responds, the endpoints after it have no influence on the outcome |
| AtlasLogin.FailoverToSecond | plugin-atlas/src/main/java/org/apache/ranger/services/atlas/RangerServiceAtlas.java:234-272 | if the first endpoint gives no response or throws and the second responds, login returns the second endpoint's response |
| AtlasLogin.LoginFromErrorUrl | plugin-atlas/src/main/java/org/apache/ranger/services/atlas/RangerServiceAtlas.java:264-283 | from any position before the end of the list, a failure names the login URL of the last endpoint that threw when one threw, and otherwise the pending URL or the last endpoint's URL |
| AtlasLogin.LoginErrorUrl | plugin-atlas/src/main/java/org/apache/ranger/services/atlas/RangerServiceAtlas.java:264-283 | a failed login over a non-empty list names the last endpoint that threw when some endpoint threw, and the last endpoint when none did |
| AtlasClient.AtlasServiceClient.LoginToAtlas | plugin-atlas/src/main/java/org/apache/ranger/services/atlas/RangerServiceAtlas.java:229-286 | the loop's result is the failover `Login` on the configured endpoints, with the decrypted password or the raw one |
| AtlasClient.AtlasServiceClient.ValidateConfig | plugin-atlas/src/main/java/org/apache/ranger/services/atlas/RangerServiceAtlas.java:157-165 | the connection test succeeds, with its success message, exactly when the login does; otherwise the login's exception propagates |
| AtlasTypesDefs.CategoriesSpec | plugin-atlas/src/main/java/org/apache/ranger/services/atlas/RangerServiceAtlas.java:323-345 | a category key is present exactly when some map item has both a name and a category whose lower-case form is that key |
| AtlasTypesDefs.NamesInNonEmpty | plugin-atlas/src/main/java/org/apache/ranger/services/atlas/RangerServiceAtlas.java:334-342 | every present category has at least one name |
| AtlasTypesDefs.NamesInHolds | plugin-atlas/src/main/java/org/apache/ranger/services/atlas/RangerServiceAtlas.java:332-342 | every item with a name and a category has its name listed under its lower-cased category |
| AtlasTypesDefs.GroupSpec | plugin-atlas/src/main/java/org/apache/ranger/services/atlas/RangerServiceAtlas.java:323-345 | every key of the grouped map is lower-case with a non-empty list, and every contributing item is listed under its key |
| AtlasTypesDefs.GroupStep | plugin-atlas/src/main/java/org/apache/ranger/services/atlas/RangerServiceAtlas.java:325-344 | one more item changes only its own category's list, by appending its name; other items leave the map unchanged |
| AtlasTypesDefs.GroupExample | plugin-atlas/src/main/java/org/apache/ranger/services/atlas/RangerServiceAtlas.java:323-345 | `Table/ENTITY` and `PII/Classification` give `{entity: [Table], classification: [PII]}` |
| AtlasTypesDefs.BuildTypesDef | plugin-atlas/src/main/java/org/apache/ranger/services/atlas/RangerServiceAtlas.java:323-345 | the lazily created lists built by the loop equal the grouping of the items |
| AtlasTypesDefs.FetchSpec | plugin-atlas/src/main/java/org/apache/ranger/services/atlas/RangerServiceAtlas.java:302-358 | the result is the grouping of the first endpoint that logs in and returns a list; there is no result exactly when no endpoint does |
| AtlasTypesDefs.AfterRefreshSpec | plugin-atlas/src/main/java/org/apache/ranger/services/atlas/RangerServiceAtlas.java:288-369 | without a login subject, or when no endpoint is usable, the cache is kept; with a subject and a fetched map, the cache becomes exactly that map, whose keys are lower-case with non-empty lists |
| AtlasTypesDefs.FetchAsWrittenAgrees | plugin-atlas/src/main/java/org/apache/ranger/services/atlas/RangerServiceAtlas.java:318-349 | unless some endpoint returns a null body, the code as written and the corrected fetch agree |
| AtlasTypesDefs.FetchAsWrittenFromEmpty | plugin-atlas/src/main/java/org/apache/ranger/services/atlas/RangerServiceAtlas.java:300-359 | starting with no map or an empty one, the loop as written returns the corrected loop's map when there is one, and otherwise no map or the empty map |
| AtlasTypesDefs.RefreshAsWrittenFromEmptyCache | plugin-atlas/src/main/java/org/apache/ranger/services/atlas/RangerServiceAtlas.java:288-369 | from the empty cache every client starts with, the refresh as written leaves the same cache as the corrected refresh, for every network |
| AtlasTypesDefs.NullBodyWipesCache | plugin-atlas/src/main/java/org/apache/ranger/services/atlas/RangerServiceAtlas.java:318-349 | as written, a null body makes the refresh replace a non-empty cache with the empty map and answer true, while the corrected refresh keeps the cache |
| AtlasClient.AtlasServiceClient.FetchTypesDefs | plugin-atlas/src/main/java/org/apache/ranger/services/atlas/RangerServiceAtlas.java:297-361 | the endpoint loop returns `Fetch` of the configured endpoints |
| AtlasClient.AtlasServiceClient.RefreshTypesDefs | plugin-atlas/src/main/java/org/apache/ranger/services/atlas/RangerServiceAtlas.java:288-369 | the result is true exactly when a subject exists and a fetch succeeds; the cache becomes `AfterRefresh` of the old cache |
| AtlasLookup.AddIfStartsWithAndNotExcluded | plugin-atlas/src/main/java/org/apache/ranger/services/atlas/RangerServiceAtlas.java:422-436 | the list is unchanged or gains the value at its end, and it grows exactly when the value is present, has the prefix and is not excluded |
| AtlasLookup.AddAllIfStartsWithAndNotExcluded | plugin-atlas/src/main/java/org/apache/ranger/services/atlas/RangerServiceAtlas.java:412-420 | the list gains exactly the accepted values, in order (nothing for an absent list) |
| AtlasLookup.FilteredConcat | plugin-atlas/src/main/java/org/apache/ranger/services/atlas/RangerServiceAtlas.java:417-419 | filtering distributes over concatenation |
| AtlasLookup.FilteredCounts | plugin-atlas/src/main/java/org/apache/ranger/services/atlas/RangerServiceAtlas.java:412-436 | an accepted value occurs as often as in the input, and a rejected value never occurs (the filter is a sub-multiset) |
| AtlasLookup.FilteredMembership | plugin-atlas/src/main/java/org/apache/ranger/services/atlas/RangerServiceAtlas.java:412-436 | a value is offered exactly when it is among the values and is accepted |
| AtlasLookup.FilteredIdempotent | plugin-atlas/src/main/java/org/apache/ranger/services/atlas/RangerServiceAtlas.java:412-436 | filtering an already filtered list changes nothing |
| AtlasLookup.ExclusionIsASet | plugin-atlas/src/main/java/org/apache/ranger/services/atlas/RangerServiceAtlas.java:431-433 | only the set of excluded values matters, not their order or multiplicity |
| AtlasLookup.ExcludeTwice | plugin-atlas/src/main/java/org/apache/ranger/services/atlas/RangerServiceAtlas.java:431-433 | excluding a value twice is the same as excluding it once |
| AtlasLookup.ContainsMatch | plugin-atlas/src/main/java/org/apache/ranger/services/atlas/RangerServiceAtlas.java:403-409 | true exactly when some item matches the category |
| AtlasLookup.ItemMatchesLiteral | plugin-atlas/src/main/java/org/apache/ranger/services/atlas/RangerServiceAtlas.java:404 | a filter entry without wildcards matches exactly the categories equal to it ignoring case |
| AtlasLookup.ItemMatchesNeedsEquality | plugin-atlas/src/main/java/org/apache/ranger/services/atlas/RangerServiceAtlas.java:404 | the equality test is not redundant: the entry `*?` is accepted for the category `*?` only because the two are equal |
| AtlasStrings.StarMatchesAll | plugin-atlas/src/main/java/org/apache/ranger/services/atlas/RangerServiceAtlas.java:404 | the pattern `*` matches every name |
| AtlasStrings.LiteralMatch | plugin-atlas/src/main/java/org/apache/ranger/services/atlas/RangerServiceAtlas.java:404 | a pattern without wildcards matches exactly the names equal to it ignoring case |
| AtlasStrings.StarQuestionMatchesOneChar | plugin-atlas/src/main/java/org/apache/ranger/services/atlas/RangerServiceAtlas.java:404 | the pattern `*?` matches exactly the one-character names, because a `?` after a `*` cancels the `*` |
| AtlasStrings.PrefixStarMatch | plugin-atlas/src/main/java/org/apache/ranger/services/atlas/RangerServiceAtlas.java:404 | a literal prefix followed by `*` matches exactly the names that start with that prefix, ignoring case |
| AtlasLookup.EmptyOrContainsMatch | plugin-atlas/src/main/java/org/apache/ranger/services/atlas/RangerServiceAtlas.java:398-410 | true exactly when the filter is absent or empty, or some item matches the category |
| AtlasStrings.EqualsIgnoreCaseIsWildcardMatch | plugin-atlas/src/main/java/org/apache/ranger/services/atlas/RangerServiceAtlas.java:404 | for a pattern without wildcards, case-insensitive equality and a wildcard match are the same test, in both directions |
| AtlasStrings.LowerIsLowerCase | plugin-atlas/src/main/java/org/apache/ranger/services/atlas/RangerServiceAtlas.java:333 | a lower-cased key is lower-case, and lower-casing it again changes nothing |
| AtlasLookup.StarAcceptsEveryCategory | plugin-atlas/src/main/java/org/apache/ranger/services/atlas/RangerServiceAtlas.java:398-410 | a filter containing `*` accepts every category |
| AtlasLookup.LiteralFilter | plugin-atlas/src/main/java/org/apache/ranger/services/atlas/RangerServiceAtlas.java:398-410 | a non-empty filter without wildcards accepts exactly the categories it names, ignoring case |
| AtlasLookup.EntityFilterExample | plugin-atlas/src/main/java/org/apache/ranger/services/atlas/RangerServiceAtlas.java:185-190 | the filter `[entity]` accepts `entity` and rejects `classification` |
| AtlasLookup.PrefixFilterExample | plugin-atlas/src/main/java/org/apache/ranger/services/atlas/RangerServiceAtlas.java:185-190 | the filter `[ENT*]` accepts `entity` and rejects `enum` |
| AtlasLookup.StarQuestionFilterOffersNoTypes | plugin-atlas/src/main/java/org/apache/ranger/services/atlas/RangerServiceAtlas.java:180-205 | under the filter `[*?]`, which admits none of the five categories, a `type` lookup offers nothing, whatever the cache holds |
| AtlasLookup.TypeNamesMembership | plugin-atlas/src/main/java/org/apache/ranger/services/atlas/RangerServiceAtlas.java:183-203 | a name is offered exactly when some admitted category lists it and it is accepted |
| AtlasLookup.LookupTypeUnion | plugin-atlas/src/main/java/org/apache/ranger/services/atlas/RangerServiceAtlas.java:180-205 | a name is in the `type` answer exactly when some admitted category of the cache lists it and it passes the prefix and exclusion filters |
| AtlasLookup.LookupTypeCategory | plugin-atlas/src/main/java/org/apache/ranger/services/atlas/RangerServiceAtlas.java:173-178 | a value is in the `type-category` answer exactly when it is one of the five categories and passes the filters |
| AtlasLookup.LookupOffersOnlyAccepted | plugin-atlas/src/main/java/org/apache/ranger/services/atlas/RangerServiceAtlas.java:167-219 | every value a filtered lookup offers has the typed prefix and is not already chosen |
| AtlasLookup.TypeCategoryExample | plugin-atlas/src/main/java/org/apache/ranger/services/atlas/RangerServiceAtlas.java:173-178 | the input `ent` offers only `entity` |
| AtlasLookup.TypeExample | plugin-atlas/src/main/java/org/apache/ranger/services/atlas/RangerServiceAtlas.java:180-205 | the filter `[entity]` offers only the entity names of the cache |
| AtlasLookup.TypeNamesStep | plugin-atlas/src/main/java/org/apache/ranger/services/atlas/RangerServiceAtlas.java:185-203 | each stanza of the `type` branch appends one category's candidates to what the earlier stanzas produced |
| AtlasClient.AtlasServiceClient.AddCategoryNames | plugin-atlas/src/main/java/org/apache/ranger/services/atlas/RangerServiceAtlas.java:185-203 | one stanza appends the category's accepted names when the filter admits the category, else nothing |
| AtlasClient.AtlasServiceClient.AddTypeNames | plugin-atlas/src/main/java/org/apache/ranger/services/atlas/RangerServiceAtlas.java:183-203 | the five stanzas together append the `type` candidates in source order |
| AtlasClient.AtlasServiceClient.LookupResource | plugin-atlas/src/main/java/org/apache/ranger/services/atlas/RangerServiceAtlas.java:167-227 | the cache is refreshed only for `type`, `entity-type` and `entity-classification`, and the answer is `LookupSpec` on the cache as it then stands |
| AtlasClient.ServiceLookupResource | plugin-atlas/src/main/java/org/apache/ranger/services/atlas/RangerServiceAtlas.java:104-118 | a service lookup answers `LookupSpec` from a new client's cache: the refreshed map for the taxonomy resources, otherwise the empty map |
| AtlasClient.ServiceValidateConfig | plugin-atlas/src/main/java/org/apache/ranger/services/atlas/RangerServiceAtlas.java:86-101 | the service's connection test succeeds exactly when some configured endpoint answers the login POST |
| AtlasClient.ServiceLookupWithoutRefresh | plugin-atlas/src/main/java/org/apache/ranger/services/atlas/RangerServiceAtlas.java:104-118 | because each lookup starts from an empty cache, a taxonomy lookup whose refresh fetches nothing offers nothing |
| AtlasDefaults.AtlasAdminUser | plugin-atlas/src/main/java/org/apache/ranger/services/atlas/RangerServiceAtlas.java:132-135 | the admin user is never blank: it is the configured `atlas.admin.user` when that is not blank, else `admin` |
| AtlasDefaults.WithAdminUser | plugin-atlas/src/main/java/org/apache/ranger/services/atlas/RangerServiceAtlas.java:128-140 | every policy item keeps its users and gains the admin user at the end |

## Left out

- HTTP transport is not modelled: Jersey clients, form encoding, the content type, cookies beyond being passed from the login response to the GET, and `client.destroy()`. Each request is an outcome supplied by the `post` and `get` parameters.
- JSON parsing with Gson is not modelled: the body arrives already parsed as a `Payload` (a null result, or a list of maps and non-maps with optional `name` and `category`). `toString` of non-string JSON values is not modelled.
- Password decryption (`PasswordUtils`) is the `decrypt` parameter; a thrown exception and a null result are both `None`.
- `getLoginSubject` and `Subject.doAs` are reduced to the boolean `subjectPresent`; Kerberos login is not modelled.
- An exception from `getEntity` or the GET itself and a login failure inside the refresh loop are all "no list from this endpoint"; the model does not distinguish them because the source catches them all alike.
- `RangerServiceAtlas.init` only delegates to the base class and is not modelled. The service name given to each new client is not modelled, because the client never reads it.
- Logging, the `HadoopException` message text and its response-data map: `LoginError` keeps only the login URL the message names.
- Concurrency: the cache field is not synchronised in the source, and the model is single-threaded.
- `toLowerCase`, `equalsIgnoreCase`, the case-insensitive wildcard match and `StringUtils.isBlank` are modelled on ASCII only: no locale and no Unicode case mapping. `isBlank` counts Java's ASCII whitespace.
- `getDefaultRangerPolicies`: the default policies come from the base class, which is not part of this model; `WithAdminUser` models only the admin user appended to each item's user list.
- Null elements inside lists (values, exclusions, category filters) are not modelled: elements are strings.
- AtlasLookup.AddIfStartsWithAndNotExcluded: a null `list` argument is not modelled, because every caller passes the lookup's own result list.
- A null resources map or a null resource name in the lookup context is not modelled (the source would throw).
- AtlasClient.AtlasServiceClient.LookupResource: the refresh's boolean result is ignored, as in the source.
- AtlasTypesDefs.Fetch: models the corrected behaviour from the finding below: an endpoint whose body parses to null is skipped. `FetchAsWritten` and `RefreshAsWritten` keep the code as written.
- AtlasClient.AtlasServiceClient.FetchTypesDefs: follows the corrected `Fetch`. For a null body it moves on to the next endpoint, where the code leaves an empty map behind.
- AtlasClient.AtlasServiceClient.LookupResource: its ensures on `typesDef` follows the corrected refresh. From a non-empty cache, a null body keeps the cache, where lines 323 and 364 install the empty map. From the empty cache every client starts with, the two agree (`RefreshAsWrittenFromEmptyCache`).
- AtlasClient.AtlasServiceClient.RefreshTypesDefs: follows the corrected `Fetch`. After a null body with no later usable endpoint it keeps the cache and answers false, where the code installs the empty map and answers true.
- AtlasStrings.WildcardMatch: commons-io is not part of this model. The matcher follows commons-io's `splitOnTokens` and states what its backtracking scan accepts, not the scan's steps. As the library does, a `?` after a `*` clears the pending `*`, so `*?` matches only one-character names.
- security-admin/src/main/java/org/apache/ranger/view/VXLdapSyncSourceInfo.java and security-admin/src/main/java/org/apache/ranger/service/XUgsyncAuditInfoServiceBase.java are not part of this model: they are view and service classes of the admin server, not of the Atlas client.

## Findings

| source | as written | input that shows it | evidently intended | confidence | as-written member | corrected member |
|---|---|---|---|---|---|---|
| plugin-atlas/src/main/java/org/apache/ranger/services/atlas/RangerServiceAtlas.java:318-349 | `ret` is set to a new empty map before the parsed list is iterated; when Gson yields `null` the loop throws, the exception is caught, and the empty map survives to replace the cache | one endpoint; login responds; the type-headers GET returns an empty body or the literal `null`; the cache was non-empty. No caller produces that last condition: each client is new, starts empty and serves one call (lines 92, 109, 151). Through the service the defect is therefore latent. Only the `true` result differs, and lines 181, 208 and 215 ignore it (`RefreshAsWrittenFromEmptyCache`) | an endpoint without a type list leaves the cache as it was and the refresh reports false | medium, not executed | AtlasTypesDefs.NullBodyWipesCache | AtlasTypesDefs.FetchSpec |
