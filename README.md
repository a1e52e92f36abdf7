# Licensing add-on for iThemes Exchange, modelled in Dafny

This project models the core of a WordPress add-on that sells software
licenses through the iThemes Exchange store. The model covers:

- **License keys.** A key moves between the statuses active, expired and
  disabled. It has an activation limit (`max`) and an optional expiry. It is
  valid while its active activations stay below the limit and its purchase is
  cleared and active. `extend` and `renew` move the expiry on by one billing
  interval. Deleting a key also deletes its activations and renewals.
- **The activations table.** The model takes from the table descriptor its
  seven columns, its defaults, its primary key and its unique key over the
  key and the location.
- **The HTTP API dispatcher.** It routes an action to an endpoint and decides
  authentication under the modes EXISTS, ACTIVE and VALID_ACTIVATION. It also
  builds the error envelopes, prepares response data for JSON and collapses
  whitespace in header values.
- **Releases.** A release has closed sets of statuses and types, defaults at
  creation, and setters that write back to the store. The changelog setter
  either appends or replaces.
- **The release editor's version comparator**, with the save button it gates.
- **Products.** The model covers loading a product, choosing the release
  offered to an activation, and the cached changelog.
- **The `wp itelic key` command.** It resolves a key argument, exactly or as
  a prefix search ending in "...". The model also covers what each command
  does to the key, the arguments `create` passes on, the release types for a
  track, and the guards on generating activations.
- **The plugin bootstrap.** This is the class-name-to-file autoloader and the
  version-upgrade gate.
- **The release admin screen's view registry** and the query builder's
  `FROM` clause.

## Modelling conventions

Each source file becomes one module. `Common` holds the PHP string built-ins
the others use. `Common.PhpEmpty` is PHP's `empty()` on a string (true for ""
and "0"). It is a definition with no contract of its own. What it does is
stated in the rows of `LicenseKey.NewKeyRow`, `Releases.CreateCheck`,
`Releases.StartDateOf`, `ApiDispatch.ActivationFor` and
`ApiDispatch.Dispatcher.Dispatch`.

Code that updates fields in place becomes a class:

- the key (`LicenseKey.Key`) and its stores;
- the release (`Releases.Release`);
- the endpoint registry (`ApiDispatch.Dispatcher`);
- the changelog cache;
- the view registry;
- the options table;
- the `FROM` tag.

Pure branches and lookups become functions. The loops of the version
comparator and of the changelog become methods, each proved equal to a
specification function. The properties are proved about those functions.

Everything the add-on receives from WordPress or the store becomes a value or
a function handed in by the caller: transactions, products, customers, the
object cache, date parsing and formatting, and `sanitize_text_field`. Dates
are integers. The billing interval is a positive integer.

## Model

| member | source | states |
|---|---|---|
| Common.UpdateEntry | lib/Key.php:493-501 | the same keys remain, every other entry is unchanged and the given key's entry is updated |
| Common.Prefix | exchange-addon-licensing.php:135-136 | substr($s, 0, $n): the first n characters, or the whole of a shorter string |
| Common.SubstrFrom | exchange-addon-licensing.php:137 | substr($s, $start): what follows the first start characters, empty past the end |
| Common.ToLower | exchange-addon-licensing.php:137-148 | strtolower: same length, each character lowercased |
| Common.ReplaceChar | exchange-addon-licensing.php:138 | str_replace of one character by another: same length, each occurrence replaced and nothing else |
| Common.ReplaceAllSkip | exchange-addon-licensing.php:164-170 | str_replace leaves text where no occurrence starts and works on the rest alone |
| Common.ReplaceAllHead | exchange-addon-licensing.php:164-170 | an occurrence at the front is replaced and replacing goes on after it |
| Common.ReplaceAllNone | exchange-addon-licensing.php:164-170 | text without an occurrence is left as it is |
| Common.Split | exchange-addon-licensing.php:150 | explode: at least one piece, and no piece holds the separator |
| Common.SplitWhole | exchange-addon-licensing.php:150 | text without the separator is one piece |
| Common.SplitFirst | assets/js/itelic-admin-releases-new.js:304 | text up to the first separator is the first piece, and the rest is split on |
| Common.JoinSplitReplaces | exchange-addon-licensing.php:150-152 | implode of the explode pieces with another separator replaces every separator |
| Common.JoinSplit | exchange-addon-licensing.php:150-152 | implode of the explode pieces with the same separator gives back the string |
| Common.Trim | lib/API/Dispatch.php:151 | trim: empty iff every character is one trim strips; otherwise it starts and ends with another character |
| Common.IntToString | lib/API/Dispatch.php:248 | %d: decimal digits, after a minus sign exactly when the number is negative |
| ActivationsTable.SchemaNames | lib/DB/Table/Activations.php:111-122 | the creation SQL's columns, in its order |
| ActivationsTable.ColumnsAgree | lib/DB/Table/Activations.php:32-42 | the formats, the defaults and the creation SQL have the same seven columns: id, lkey, location, status, activation, deactivation, release_id |
| ActivationsTable.SchemaConstraints | lib/DB/Table/Activations.php:112-121 | only deactivation and release_id may be null; id alone is auto-increment and is the primary key; the unique key is (lkey, location) |
| ActivationsTable.Empty | lib/DB/Table/Activations.php:94-96 | the empty store satisfies the primary-key and unique-key invariant |
| ActivationsTable.Insert | lib/DB/Table/Activations.php:51-60 | an insert succeeds iff no row, of any status, holds the same key at the same location; the new row takes the next id and the default status active when none is given; the invariant is kept |
| ActivationsTable.DeactivatedRowBlocksSlot | lib/DB/Table/Activations.php:121 | a deactivated row still refuses a second row for the same key and location |
| ActivationsTable.InsertDefaultsToActive | lib/DB/Table/Activations.php:56 | a row inserted without a status is active |
| ActivationsTable.ActiveCount | lib/Key.php:366-374 | the count never exceeds the number of rows |
| ActivationsTable.ActiveCountIsMatchingRows | lib/Key.php:366-374 | the count equals the number of positions whose row has this key and status active |
| ActivationsTable.ActiveCountAppend | lib/Key.php:366-374 | appending a row adds one to its own key's count when it is active, and nothing to any other key's count |
| ActivationsTable.DeleteKey | lib/Key.php:472-481 | every row of the key is gone, every other row stays, and the next id is unchanged |
| ActivationsTable.RowsWithoutKey | lib/Key.php:476-477 | the rows kept are exactly those of other keys |
| ActivationsTable.DeleteKeyCounts | lib/Key.php:472-481 | after the delete the key has no active rows, and every other key keeps its count |
| ActivationsTable.DeleteKeyKeepsValid | lib/Key.php:472-481 | deleting a key's rows keeps the primary and unique keys |
| LicenseKey.StatusesAreThree | lib/Key.php:355-361 | a status is known iff it is active, disabled or expired |
| LicenseKey.LabelIn | lib/Key.php:321-330 | the label of the first entry with that slug, or "Unknown" when there is none |
| LicenseKey.StatusLabel | lib/Key.php:321-330 | the labels are Active, Disabled and Expired, and "Unknown" for any other status |
| LicenseKey.Init | lib/Key.php:90-113 | loading succeeds iff the transaction, the product and the customer all exist; otherwise it fails with the first missing one's message |
| LicenseKey.SetStatusSpec | lib/Key.php:339-346 | a status outside the three is refused with the source's message; an accepted one changes the status and nothing else |
| LicenseKey.AbsInt | lib/Key.php:417-421 | the result is non-negative and is m or -m |
| LicenseKey.ExtendedExpiry | lib/Key.php:217-232 | no expiry stays none; otherwise the expiry moves strictly later |
| LicenseKey.ExtendNAdvances | lib/Key.php:217-232 | n extensions move an expiry by exactly n intervals and leave "never expires" alone |
| LicenseKey.RenewSpec | lib/Key.php:243-260 | renewal is refused iff the key never expires; otherwise one renewal row records the old expiry and the transaction's date and id (or none), and the expiry moves by one interval |
| LicenseKey.RenewManyAdvances | lib/Key.php:243-260 | renewing once per transaction never fails on an expiring key, advances the expiry by one interval per renewal and writes one renewal row per call, in order |
| LicenseKey.UpdateValue | lib/Key.php:493-501 | the same keys remain; every other key's row is unchanged and this key's row changes only in the column written |
| LicenseKey.RenewalsWithout | lib/Key.php:479-480 | the renewals kept are exactly those of other keys |
| LicenseKey.DeleteCascade | lib/Key.php:472-481 | the key row, its activations and its renewals are removed |
| LicenseKey.DeleteCascadeIsolates | lib/Key.php:472-481 | every other key keeps its row, its active count and its renewals |
| LicenseKey.DeleteCascadeKeepsTable | lib/Key.php:472-481 | the activation store's keys still hold after a delete |
| LicenseKey.NewKeyRow | lib/Key.php:151-153 | a status that PHP considers empty is stored as active; every other field is stored as given |
| LicenseKey.Store.constructor | lib/Key.php:149-169 | the stores start empty |
| LicenseKey.Key.constructor | lib/Key.php:81-113 | the key holds its row's fields and its loaded transaction |
| LicenseKey.Key.ActiveCount | lib/Key.php:366-374 | the key's activations whose status is active |
| LicenseKey.Key.IsValid | lib/Key.php:181-196 | valid iff the active count is below max, the transaction is cleared for delivery and the subscriber status is active; a max of 0 or less is never valid |
| LicenseKey.Key.SetStatus | lib/Key.php:339-346 | on an accepted status the field and the stored row change; on a refused one nothing changes |
| LicenseKey.Key.SetExpires | lib/Key.php:390-401 | the expiry field and the stored row take the new expiry, which may be none |
| LicenseKey.Key.SetMax | lib/Key.php:417-421 | the stored limit is the absolute value, so it is never negative |
| LicenseKey.Key.Extend | lib/Key.php:217-232 | a key that never expires returns none and nothing changes; otherwise the new expiry is returned and written back |
| LicenseKey.Key.Renew | lib/Key.php:243-260 | a refusal changes nothing; otherwise the renewal row is appended and the expiry advances |
| LicenseKey.Key.Delete | lib/Key.php:472-481 | the stores become the delete cascade of the old stores |
| LicenseKey.WithKey | lib/Key.php:122-132 | a missing row gives no key; otherwise the result follows Init |
| LicenseKey.Create | lib/Key.php:149-169 | a new key row is stored with the defaulted status; an existing key leaves the stores unchanged; the loaded key follows Init and is bound to this store and to the transaction Init found |
| ApiDispatch.Prepare | lib/API/Dispatch.php:336-366 | the result is ready for JSON; scalars and null are unchanged; arrays and plain objects keep their keys in order; a Serializable object becomes its get_api_data, prepared in turn; other values become null |
| ApiDispatch.PrepareKeepsWire | lib/API/Dispatch.php:336-366 | a value already ready for JSON is returned unchanged |
| ApiDispatch.PrepareIdempotent | lib/API/Dispatch.php:336-366 | preparing twice is preparing once |
| ApiDispatch.PrepareEntriesAt | lib/API/Dispatch.php:347-349 | element i of a prepared array is element i prepared |
| ApiDispatch.ErrorEnvelope | lib/API/Dispatch.php:66-75 | the envelope has success false and an error with the given code and message |
| ApiDispatch.NotFoundResponse | lib/API/Dispatch.php:66-75 | an unknown action gets status 404 with error code 404 |
| ApiDispatch.ResponseFromException | lib/API/Dispatch.php:241-258 | an API exception keeps its code and message; any other gets code 0 and a wrapped message |
| ApiDispatch.Collapse | lib/API/Dispatch.php:314 | the result is never longer than the value, and is empty iff the value is |
| ApiDispatch.CollapseNormal | lib/API/Dispatch.php:314 | every whitespace character left is a single space, no two are adjacent, the result starts with whitespace iff the value does, and the other characters are kept in order |
| ApiDispatch.CollapseRun | lib/API/Dispatch.php:314 | a non-empty whitespace run between text not ending and text not starting with whitespace becomes exactly one space, and each side is collapsed on its own |
| ApiDispatch.CollapseRunHead | lib/API/Dispatch.php:314 | a leading non-empty whitespace run before text not starting with whitespace becomes one space in front of the collapsed text |
| ApiDispatch.CollapseExample | lib/API/Dispatch.php:314 | "a", two tabs, "b" becomes "a b" |
| ApiDispatch.CollapseFixes | lib/API/Dispatch.php:309-316 | a value whose only whitespace is single spaces is unchanged |
| ApiDispatch.CollapseIdempotent | lib/API/Dispatch.php:309-316 | collapsing twice is collapsing once |
| ApiDispatch.HeaderLine | lib/API/Dispatch.php:309-316 | the line starts "name: " and its value has no whitespace runs and the same non-whitespace characters |
| ApiDispatch.HeaderLineRun | lib/API/Dispatch.php:309-316 | a whitespace run in a header value is sent as one space after "name: " |
| ApiDispatch.SendHeaders | lib/API/Dispatch.php:323-327 | one sanitised line per header, in order |
| ApiDispatch.SendResponse | lib/API/Dispatch.php:108-139 | the JSON content type comes first, then each header; the status is kept and the body is the prepared data |
| ApiDispatch.BlankUserMeans | lib/API/Dispatch.php:151-153 | a user is blank iff it is absent or consists only of characters that trim removes |
| ApiDispatch.ActivationFor | lib/API/Dispatch.php:164-168 | the activation is looked up iff a password that PHP does not consider empty was sent |
| ApiDispatch.ModeDecision | lib/API/Dispatch.php:173-195 | EXISTS passes; ACTIVE passes iff the key is active; VALID_ACTIVATION passes iff an active activation of the same key is given; any other mode fails |
| ApiDispatch.AuthDecision | lib/API/Dispatch.php:150-196 | a blank user, a thrown lookup or an unknown key fails; a found key is judged by the mode |
| ApiDispatch.ExistsVersusActive | tests/http-api/test-dispatch.php:178-248 | EXISTS passes for a found key of any status; ACTIVE passes only for an active one |
| ApiDispatch.NoPasswordNoActivation | lib/API/Dispatch.php:164-168 | without a usable password VALID_ACTIVATION always fails |
| ApiDispatch.AuthDecisionAsWritten | lib/API/Dispatch.php:157-177 | as written, a lookup that returns no key still reaches the mode switch |
| ApiDispatch.UnknownKeyAsWritten | lib/API/Dispatch.php:173-177 | as written, an unknown key passes EXISTS and is a fatal error under ACTIVE, where the corrected decision fails both |
| ApiDispatch.UnknownKeyExample | tests/http-api/test-dispatch.php:71-98 | for user "abcd-1234" with no such key, EXISTS passes as written |
| ApiDispatch.Endpoint.constructor | lib/API/Dispatch.php:170-171 | an endpoint starts with no key and no activation attached |
| ApiDispatch.AuthMissing | lib/API/Dispatch.php:207-230 | status 401 with the endpoint's code and message, and one WWW-Authenticate Basic header whose realm depends on the mode |
| ApiDispatch.EndpointResponse | lib/API/Dispatch.php:79-91 | serve runs iff the endpoint needs no authentication or it passed; otherwise the 401 challenge; a thrown exception becomes the error envelope |
| ApiDispatch.Dispatcher.constructor | lib/API/Dispatch.php:32 | no endpoint is registered |
| ApiDispatch.Dispatcher.RegisterEndpoint | lib/API/Dispatch.php:376-378 | the action names this endpoint and every other action keeps its own |
| ApiDispatch.Dispatcher.HandleAuth | lib/API/Dispatch.php:150-196 | the result is AuthDecision; a found key and its activation are attached before the mode is checked |
| ApiDispatch.Dispatcher.Dispatch | lib/API/Dispatch.php:55-97 | an empty action does nothing; an unknown one gets 404; a known one gets the endpoint's response, and serve runs iff authentication is not needed or passes; the lines sent are the JSON content type and then each of the response's headers; only the action's own endpoint may change: a key found by authentication is left attached to it with its activation, and otherwise its key and activation are kept |
| ApiDispatch.FailedAuthNeverServes | lib/API/Dispatch.php:79-85 | a failed authentication never runs serve and returns the 401 challenge |
| ApiDispatch.ChallengeSent | lib/API/Dispatch.php:79-85 | after a failed authentication exactly two header lines are sent: the content type, then the WWW-Authenticate Basic challenge with the mode's realm |
| Releases.StatusesExactly | lib/Release.php:437-444 | a status is known iff it is draft, active, partial or complete; archived and paused are not statuses |
| Releases.TypesExactly | lib/Release.php:453-461 | a type is known iff it is major, minor, security, pre-release or restricted |
| Releases.StartDateOf | lib/Release.php:135-137 | no start date iff the cell is null, empty or the zero date; otherwise the parsed date |
| Releases.FromRow | lib/Release.php:109-138 | loading succeeds iff the product exists and the status and type are known, with the first failing check's message otherwise |
| Releases.ChangelogAfter | lib/Release.php:369-378 | append mode concatenates, keeping the old text as a prefix; any other mode replaces |
| Releases.ChangelogHistory | lib/Release.php:369-378 | two appends concatenate both texts; a replace after an append keeps only the last text |
| Releases.UpdateValue | lib/Release.php:420-428 | the same ids remain; every other release's row is unchanged and this release's row changes only in the column written |
| Releases.StartCell | lib/Release.php:398-408 | no start date is stored as null; otherwise the formatted date |
| Releases.StartDateRoundTrip | lib/Release.php:398-408 | a stored start date reads back as the same date, and null reads back as none |
| Releases.ReleaseStore.constructor | lib/Release.php:149-159 | the store starts empty with every id in use below the next id |
| Releases.DownloadCheckAsWritten | lib/Release.php:261 | as written, get_post's value (a post object, or null) is loosely compared with the string it_exchange_download; an object equals no string and null equals only "", so every download is refused |
| Releases.DownloadCheck | lib/Release.php:259-263 | a download is accepted iff the post exists and is an it_exchange_download |
| Releases.DownloadCheckRefusesDownloads | lib/Release.php:261 | an existing download post is accepted by the corrected check and refused as written |
| Releases.Release.constructor | lib/Release.php:109-138 | the release holds the loaded fields |
| Releases.Release.SetDownload | lib/Release.php:259-268 | an accepted download is assigned and stored; a refused one changes nothing |
| Releases.Release.SetVersion | lib/Release.php:288-292 | any version string is assigned and stored |
| Releases.Release.SetStatus | lib/Release.php:312-320 | a known status is assigned and stored; an unknown one throws and changes nothing |
| Releases.Release.SetType | lib/Release.php:340-348 | a known type is assigned and stored; an unknown one throws and changes nothing |
| Releases.Release.SetChangelog | lib/Release.php:369-378 | the changelog becomes the append-or-replace of the old one, and is stored |
| Releases.Release.SetStartDate | lib/Release.php:398-408 | the start date is assigned and stored, none as null |
| Releases.CreateCheck | lib/Release.php:178-198 | an empty status means draft; creation is allowed iff the status and type are known and the product, download and licensing checks pass, with the first failing check's message otherwise |
| Releases.NewRow | lib/Release.php:206-211 | the start date is set to now iff the status is active; the changelog is filtered |
| Releases.CreatedReleaseLoads | lib/Release.php:213-216 | a created release loads back with the defaulted status, its type and version, and a start date iff it is active |
| Releases.WithId | lib/Release.php:149-159 | a missing row gives no release; otherwise the result follows FromRow |
| Releases.Create | lib/Release.php:178-217 | a refused creation changes nothing; an accepted one stores the new row under an id no row used, keeps the store invariant, and loads the release bound to this store |
| VersionCompare.DropJsSpaceSuffix | assets/js/itelic-admin-releases-new.js:305 | `parseInt` skips only a leading run of whitespace and keeps the rest of the piece unchanged |
| VersionCompare.ParseInt | assets/js/itelic-admin-releases-new.js:305 | a number iff a digit follows the skipped whitespace and an optional sign; NaN otherwise |
| VersionCompare.ParseIntSign | assets/js/itelic-admin-releases-new.js:305 | a number read after a leading minus is at most 0, and any other at least 0 |
| VersionCompare.ParseIntOfNat | assets/js/itelic-admin-releases-new.js:305 | parseInt reads back every natural number's decimal text |
| VersionCompare.Normalize | assets/js/itelic-admin-releases-new.js:303-307 | one entry per dot-separated piece, each that piece read with parseInt |
| VersionCompare.Seg | assets/js/itelic-admin-releases-new.js:292-293 | a missing segment is 0, and a present one reads 0 iff it is NaN or zero |
| VersionCompare.CompareSpecOf | assets/js/itelic-admin-releases-new.js:284-301 | for two different strings with a second version given, the result is the segment comparison of their normalized pieces |
| VersionCompare.CompareFrom | assets/js/itelic-admin-releases-new.js:291-301 | the result is -1, 0 or 1 |
| VersionCompare.ComparePieces | assets/js/itelic-admin-releases-new.js:289-301 | the result is -1, 0 or 1 |
| VersionCompare.CompareFromFirstDifference | assets/js/itelic-admin-releases-new.js:291-301 | 0 iff every segment agrees, a missing or unreadable segment counting as 0; 1 or -1 iff the first differing segment of the first version is larger or smaller |
| VersionCompare.CompareFromAntisymmetric | assets/js/itelic-admin-releases-new.js:299 | swapping the arguments swaps the sign |
| VersionCompare.CompareFromPast | assets/js/itelic-admin-releases-new.js:289-293 | comparing beyond the longer version changes nothing, since missing segments count as 0 |
| VersionCompare.CompareFromTransitive | assets/js/itelic-admin-releases-new.js:291-301 | "greater than" is transitive |
| VersionCompare.ComparePiecesOrder | assets/js/itelic-admin-releases-new.js:267-270 | the comparison is antisymmetric and transitive |
| VersionCompare.CompareFromSelf | assets/js/itelic-admin-releases-new.js:291-301 | a version compares equal to itself |
| VersionCompare.CompareSpec | assets/js/itelic-admin-releases-new.js:278-302 | no first argument is an error; otherwise the result is -1, 0 or 1 |
| VersionCompare.EqualStringsShortcut | assets/js/itelic-admin-releases-new.js:284-286 | the equal-strings shortcut agrees with the segment comparison |
| VersionCompare.Compare | assets/js/itelic-admin-releases-new.js:278-302 | the method's result is the specification's |
| VersionCompare.ComparePadded | assets/js/itelic-admin-releases-new.js:289-301 | the loop that overwrites missing segments with 0 in place returns the segment comparison |
| VersionCompare.ExampleShorterLower | assets/js/itelic-admin-releases-new.js:265 | "1.4" against "1.6.4" gives -1 |
| VersionCompare.ExampleNumericPieces | assets/js/itelic-admin-releases-new.js:292-293 | "1.10" against "1.9" gives 1 |
| VersionCompare.ExampleMissingIsZero | assets/js/itelic-admin-releases-new.js:289-293 | "1.4" against "1.4.0" gives 0 |
| VersionCompare.ExampleNaNIsZero | assets/js/itelic-admin-releases-new.js:303-307 | "1.beta" against "1.0" gives 0 |
| VersionCompare.SaveGate | assets/js/itelic-admin-releases-new.js:74-95 | with the previous version read as text: with no previous version nothing changes; otherwise saving is enabled iff the new version compares as 1 against the previous one |
| VersionCompare.SaveGateAsWritten | assets/js/itelic-admin-releases-new.js:58-95 | a previous version jQuery read as text behaves as in SaveGate; one read as a number never enables saving: it leaves the buttons alone when it is 0 or when the loose `==` fails (then `normalize` throws on the number), and disables them otherwise |
| VersionCompare.NumericPreviousBlocksUpgrade | assets/js/itelic-admin-releases-new.js:58-95 | with previous release 1.5, read as the number 1.5, the upgrade to "1.6" leaves saving as it was, while the same versions read as text enable it |
| VersionCompare.SameVersionDisables | assets/js/itelic-admin-releases-new.js:79-86 | re-entering the previous version, or one equal to it, disables saving |
| Product.ConstructorThrowsAsWritten | lib/Product.php:27-29 | as written, the constructor throws iff the product type is empty |
| Product.OtherTypeAcceptedAsWritten | lib/Product.php:27 | a physical product is accepted as written and refused by the corrected check |
| Product.ConstructorThrows | lib/Product.php:25-32 | the constructor throws iff the type is not the digital downloads type |
| Product.GetAsWritten | lib/Product.php:43-56 | as written, a product is returned iff it exists and its type is not empty |
| Product.Get | lib/Product.php:43-56 | a product is returned iff it exists and has the digital downloads type; otherwise null |
| Product.GetNarrowsAsWritten | lib/Product.php:43-56 | every product the corrected get returns is the product returned as written |
| Product.InsertDesc | lib/Product.php:123 | inserting into a descending list keeps it descending and adds exactly the one release |
| Product.SortDesc | lib/Product.php:123 | the result is in descending start-date order and is a permutation of the input |
| Product.Filter | lib/Product.php:116-125 | exactly the releases of the product, with one of the statuses when statuses are given |
| Product.Query | lib/Product.php:116-125 | at most the requested number of matching releases, in descending start-date order, each match at most as often as it occurs, and no match left out is newer than the last one taken |
| Product.PrefixKeepsNewest | lib/Product.php:123-124 | the first n of a newest-first ordering are taken from the list it orders, and none left out is newer than the last of them |
| Product.QueryPrefixSorted | lib/Product.php:123-124 | cutting a sorted list at the requested number keeps it sorted |
| Product.FirstIsNewest | lib/Product.php:160-168 | the query is empty iff nothing matches; otherwise its first release is at least as new as every match |
| Product.ByVersion | lib/Product.php:157-158 | a release of the product with that version, or none iff there is none |
| Product.LatestReleaseForActivation | lib/Product.php:152-181 | any track other than pre-release gets the release matching the configured version; pre-release gets the newest release of the key's product, none only when it has none |
| Product.TrackDecides | lib/Product.php:156 | the pre-release track ignores the configured version; every other track ignores the key's product and behaves as the empty track |
| Product.Entry | lib/Product.php:130 | an entry exists iff the release has a start date; it is the "v version – date" heading followed by the changelog |
| Product.ChangelogText | lib/Product.php:127-132 | the log exists iff every release has a start date |
| Product.ChangelogTextAppend | lib/Product.php:129-132 | the log of two lists is the first list's log followed by the second's |
| Product.OpensWithNewest | lib/Product.php:129-130 | the log opens with the heading of the first release |
| Product.BuildChangelog | lib/Product.php:127-132 | the loop that appends each release's heading and changelog gives ChangelogText |
| Product.ChangelogTextFails | lib/Product.php:130 | one release without a start date fails the whole log |
| Product.ChangelogStatuses | lib/Product.php:118-122 | the corrected status list is known release statuses and excludes draft |
| Product.ChangelogAsWritten | lib/Product.php:112-122 | as written, a cache hit returns the cached log and every miss is a fatal error |
| Product.MissIsFatalAsWritten | lib/Product.php:114-121 | no cached log, an empty one or "0" all end in the fatal error as written |
| Product.ArchivedUndefined | lib/Product.php:120 | STATUS_ARCHIVED is not a constant of the release class |
| Product.ReleaseConstant | lib/Product.php:118-122 | every constant the release class defines is a known status; STATUS_ACTIVE is active |
| Product.ChangelogCache.constructor | lib/Product.php:112 | the cache starts empty |
| Product.GetChangelog | lib/Product.php:110-138 | a cache hit returns the cached log and changes nothing; a miss builds the log of the newest releases up to the requested number and caches it |
| KeyCommand.LastThree | wp-cli/commands/Key.php:67 | the last three characters, or the whole of a shorter string |
| KeyCommand.Stem | wp-cli/commands/Key.php:68 | the stem followed by "..." is the argument |
| KeyCommand.PrefixMatches | wp-cli/commands/Key.php:74-76 | exactly the rows whose key starts with the stem |
| KeyCommand.Lookup | wp-cli/commands/Key.php:94 | a row with exactly that key, or none iff there is none |
| KeyCommand.Resolve | wp-cli/commands/Key.php:67-95 | an exact argument resolves iff its key exists; a stem shorter than 3 is an error; no match is an error; several matches are listed; a single match is that row |
| KeyCommand.PartialExamples | wp-cli/commands/Key.php:67-72 | "abc..." has stem "abc", "ab..." is too short and "abcd-1234" is exact |
| KeyCommand.ResolutionFailure | wp-cli/commands/Key.php:70-90 | each failed resolution gives its message, or the listing of matches |
| KeyCommand.ExpiredAt | wp-cli/commands/Key.php:349 | the corrected expire sets status expired and the expiry to the given date, keeping the limit |
| KeyCommand.RunOn | wp-cli/commands/Key.php:63-402 | get shows the key; extend fails iff there is no expiry, else adds one interval; renew fails on a missing transaction, fails with the cannot-renew message on a non-expiring key, and otherwise gives the renewal of the key with the looked-up transaction or none; expire fails iff the date does not parse; disable sets status disabled |
| KeyCommand.Run | wp-cli/commands/Key.php:63-95 | a resolved argument runs the command on its row; any other resolution gives its failure |
| KeyCommand.ResolutionGuardsEveryCommand | wp-cli/commands/Key.php:312-340 | a failed resolution ends every command the same way and updates no key |
| KeyCommand.PrefixDecides | wp-cli/commands/Key.php:74-92 | with a long enough stem, no match, several matches or one match decide the outcome |
| KeyCommand.ExtendAdvances | wp-cli/commands/Key.php:206-212 | extending an expiring key moves its expiry by exactly one interval |
| KeyCommand.RunOnAsWritten | wp-cli/commands/Key.php:342-350 | as written, expire with a parsable date is a fatal error; every other command is as corrected |
| KeyCommand.ExpireFatalAsWritten | wp-cli/commands/Key.php:349 | expiring any key at a parsable date is fatal as written |
| KeyCommand.CreateArgs | wp-cli/commands/Key.php:438-473 | an unknown or unlicensed product and a missing customer are errors; the status defaults to active and the amount paid to the base price; limit and expiry are passed only when given |
| KeyCommand.CreateDefaults | wp-cli/commands/Key.php:458-473 | with no flags the key is active, paid at the base price, with no limit and no expiry given |
| KeyCommand.ReleaseTypesForTrack | wp-cli/commands/Key.php:652-660 | major, minor and security always; pre-release only for the pre-release track; never restricted |
| KeyCommand.AvailableRows | wp-cli/commands/Key.php:662-673 | exactly the releases that started before the date with one of the types |
| KeyCommand.ReleaseForDate | wp-cli/commands/Key.php:650-676 | none iff no release of the product is available at the date; otherwise the newest available one |
| KeyCommand.GenerationLimit | wp-cli/commands/Key.php:573-584 | no activations for an expired or disabled key; otherwise the limit, with 0 read as 20 |
| Plugin.Dashed | exchange-addon-licensing.php:137-143 | lowercased, with every underscore turned into a dash |
| Plugin.OwnPieces | exchange-addon-licensing.php:147-152 | exploding the lowercased name after its prefix always yields at least one piece, so the last one can be popped |
| Plugin.SplitLast | exchange-addon-licensing.php:150-152 | splitting before a last piece without separators pops exactly that piece |
| Plugin.OwnLayout | exchange-addon-licensing.php:145-157 | an own name "a_n" lives in class.n.php of lib followed by a with underscores turned into slashes |
| Plugin.OwnExample | exchange-addon-licensing.php:145-157 | ITELIC_API_Key is looked for as lib/api/class.key.php |
| Plugin.FlatExample | exchange-addon-licensing.php:145-157 | ITELIC_Key is looked for as lib/class.key.php |
| Plugin.ThemeExample | exchange-addon-licensing.php:136-139 | IT_Theme_API_License is looked for as api/theme/class.license.php |
| Plugin.OtherExample | exchange-addon-licensing.php:140-144 | WP_Error is looked for as lib/classes/class.wp-error.php |
| Plugin.Candidates | exchange-addon-licensing.php:159-173 | the class. file is tried first |
| Plugin.CandidateNames | exchange-addon-licensing.php:157-173 | when class. occurs only as the file-name prefix, the second and third candidates are the same file named abstract. and interface. |
| Plugin.Probe | exchange-addon-licensing.php:159-173 | the first of the class., abstract. and interface. files that exists is required; none iff none exists |
| Plugin.Autoload | exchange-addon-licensing.php:134-174 | the path built by successive assignments and the probe give the specified file |
| Plugin.UpgradeStep | exchange-addon-licensing.php:54-69 | the hook fires iff the stored version, 0.1 when absent, differs from 1.0; then 1.0 is stored |
| Plugin.UpgradeOnce | exchange-addon-licensing.php:54-69 | a fresh install fires, and a second run never does |
| Plugin.Options.constructor | exchange-addon-licensing.php:55 | the stored version as given and no hook fired |
| Plugin.Options.Upgrade | exchange-addon-licensing.php:54-69 | the hook is fired with the new and the old version and the new version stored exactly when they differ |
| ReleasesAdmin.Registry.constructor | lib/Admin/Releases/Dispatch.php:28 | no view is registered |
| ReleasesAdmin.Registry.CurrentView | lib/Admin/Releases/Dispatch.php:44-51 | the requested view iff it is registered, otherwise list |
| ReleasesAdmin.Registry.RegisterView | lib/Admin/Releases/Dispatch.php:66-68 | the slug maps to the controller, replacing any earlier one, and every other slug keeps its controller |
| ReleasesAdmin.Registry.IsCurrentView | lib/Admin/Releases/Dispatch.php:79-90 | true iff the releases tab is current, the view is registered, and it was requested or it is list and no registered view was requested |
| ReleasesAdmin.Registry.OneCurrentView | lib/Admin/Releases/Dispatch.php:79-90 | at most one view is current for a request |
| ReleasesAdmin.Dispatcher.constructor | lib/Admin/Releases/Dispatch.php:33-35 | the view is fixed to the current view when the dispatcher is made |
| ReleasesAdmin.Dispatcher.Dispatch | lib/Admin/Releases/Dispatch.php:56-58 | the controller registered for that view is rendered, or nothing when none is |
| FromTag.Render | lib/db/Query/Tag/From.php:25-27 | the table name, followed by a single space and the alias exactly when an alias is given |
| FromTag.RenderAll | lib/db/Query/Tag/From.php:42-46 | each table's text, in order |
| FromTag.JoinSnoc | lib/db/Query/Tag/From.php:46 | joining one more piece appends the separator and the piece |
| FromTag.ListingSnoc | lib/db/Query/Tag/From.php:46 | listing one more table appends ", " and its text |
| FromTag.ListingOne | lib/db/Query/Tag/From.php:23-29 | a listing of one table is that table's text |
| FromTag.From.constructor | lib/db/Query/Tag/From.php:23-30 | the tag is FROM and the value is the table, aliased when an alias is given |
| FromTag.From.Also | lib/db/Query/Tag/From.php:40-47 | the old value is kept and ", table[ alias]" appended; the tag is unchanged |
| FromTag.ListingPrefix | lib/db/Query/Tag/From.php:46 | each earlier value is a prefix of every later one |
| FromTag.TwoTables | lib/db/Query/Tag/From.php:23-47 | a table and then an aliased table give "a, b c" |

## Left out

- Persistence is left out. SQL, `wpdb` and the query manager are in-memory maps and sequences. Ties in a `start_date` order are broken by store order, and SQL's order among equal dates is not modelled.
- HTTP emission is left out. `header()`, `status_header`, `echo`, `die()` and `json_encode` with its error fallback are modelled only as the header lines, the status and the prepared value. Rewrite rules and hook registration are WordPress wiring.
- DateTime and DateInterval arithmetic is left out. Dates are integers, and the billing interval is a positive integer handed in by the caller. Date text is parsed and formatted by functions handed in.
- Foreign calls become inputs and are not modelled: `it_exchange_*`, `get_post`, `get_post_meta`, `wp_cache_*`, `sanitize_text_field`, `wp_kses_post`, `make_date_time`. Endpoint `serve` is modelled as an outcome handed in. Filter hooks are the identity.
- The UI views, the license detail script and the DOM handlers of the release editor are left out: they are rendering.
- The CLI's random and Faker-driven generation is left out, being randomness: `generate`, `get_status`, `get_random_customer`, and the `limit/2 + 2` float arithmetic and `rand` in `create_activations_for_key`. WP_CLI output formatting, success messages and `list_` output are left out, being I/O.
- `lib/Upgrade.php`, `lib/db/Query/Tag/Where_Raw.php`, `lib/Activation.php` and the generated composer autoload file are not part of this model. Activation records appear only through their status and their key.
- The parent class of the `FROM` tag is not part of this model. It is taken to store the tag and the value as given.
- VersionCompare.SaveGate: it and VersionCompare.SameVersionDisables take the previous version as text, the corrected reading; what the handler does when jQuery's `.data` hands back a number is VersionCompare.SaveGateAsWritten (see Findings).
- VersionCompare.SaveGateAsWritten: whether the loose `==` between the new version's text and a numeric previous version holds is an input, `looselyEqual`, because JavaScript's string-to-number conversion is not modelled; likewise the caller decides which `data-version` texts jQuery turns into numbers. SaveGate and SameVersionDisables state the gate for a previous version read as text.
- The admin tab dispatcher is not part of this model. Whether the releases tab is current is a parameter.
- Loose `==` and `!=` between strings are modelled as exact equality. PHP would also equate numeric strings such as "1" and "01"; this affects view names, statuses and the plugin version.
- The stored plugin version is modelled as a number. A stored text that is not numeric is not modelled.
- `Activation::ACTIVE` is taken to be "active". Its class is not part of this model.
- `key_like` is taken to be a prefix match, `LIKE 'stem%'`. The store's query code is not part of this model.
- The `before` start-date filter is taken to be strict (`<`). The store's query code is not part of this model.
- Product.GetChangelog: `items_per_page` is a natural number. The store's behaviour for a negative count is not modelled.
- LicenseKey.Create: creating a key whose string already exists leaves the stores unchanged. The keys table's duplicate handling is not part of this model.
- KeyCommand.RunOn: the "An unknown error has occurred" path of `renew` is not modelled. In the model, renewal either succeeds or fails with its message.
- KeyCommand.RunOn: the CLI's "Invalid transaction with ID %d" message prints the failed lookup's `false` as 0, and is kept as written.
- Product.LatestReleaseForActivation: `itelic_get_release_by_version` is taken to return the first release of the product with that version.
- ApiDispatch.ResponseFromException: a response made without a status gets 200.
- ApiDispatch.Prepare: values are finite trees. A Serializable whose `get_api_data` returns itself, or an ancestor, makes `prepare_response` recurse without end in PHP; that case is not modelled.
- ApiDispatch.Response: headers are a sequence of name and value pairs. The source keeps them in a PHP array, where a name cannot repeat; the model does not require distinct names, and a repeated name would be sent once per entry.
- Integers are unbounded. No PHP or JavaScript integer width is modelled, and JavaScript's float precision in `parseInt` is not modelled either.

## Findings

| source | as written | input that shows it | evidently intended | confidence | as-written member | corrected member |
|---|---|---|---|---|---|---|
| assets/js/itelic-admin-releases-new.js:58 | `$selected.data('version')` hands back a Number for a version such as `1.5` or `2`, so the change handler either matches it loosely or throws in `normalize` (`split` on a number) and never enables saving | previous release 1.5, new version "1.6" | the previous version is read as text, for example with `.attr('data-version')`, and compared piece by piece | not executed | VersionCompare.NumericPreviousBlocksUpgrade | VersionCompare.SaveGate |
| lib/API/Dispatch.php:157-177 | `itelic_get_key` returning false for an unknown key is not caught: the mode switch runs on it, so EXISTS passes and ACTIVE calls a method on false (assuming `set_auth_license_key`, whose declaration is not part of this model, accepts false; with a key-typed parameter every mode would end in a type error instead) | user "abcd-1234", no such key, mode EXISTS | an unknown key fails authentication under every mode, as the tests expect | not executed | ApiDispatch.UnknownKeyAsWritten | ApiDispatch.AuthDecision |
| lib/Product.php:27-29 | `! $product->product_type == '...'` negates first and compares a bool with a non-empty string, so the guard fires only for an empty type | a product of type "physical-product-type" | only digital downloads products are accepted | not executed | Product.OtherTypeAcceptedAsWritten | Product.ConstructorThrows |
| lib/Product.php:118-122 | `Release::STATUS_ARCHIVED` and `Release::STATUS_PAUSED` are not defined, so every cache miss is a fatal error | any product with no cached changelog | the published statuses active, partial and complete | not executed | Product.MissIsFatalAsWritten | Product.GetChangelog |
| lib/Release.php:261 | `get_post($download)` returns a post object, or null, and never equals the string 'it_exchange_download', so every download is refused | a download post of type it_exchange_download | compare the post's type | not executed | Releases.DownloadCheckRefusesDownloads | Releases.Release.SetDownload |
| wp-cli/commands/Key.php:349 | the key class defines no `expire` method, so `wp itelic key expire` with a valid date is a fatal error | any key and the date "now" | mark the key expired at that date | not executed | KeyCommand.ExpireFatalAsWritten | KeyCommand.RunOn |
