# Ephemeral store and search parameters — a Dafny model

This project models two parts of the Zimbra mail server.

**The ephemeral store** (`EphemeralStore.java`) is the abstract interface for short-lived, possibly multi-valued, possibly expiring attributes. Each attribute is scoped to an owning entity: an account, a server, and so on. It also holds the static registry that picks the storage backend.
- The contracts every backend shares are written as a reference store. Its state is a map from (location, key) to the values that key holds, each value with an optional expiration. Pure functions (`AfterSet`, `AfterUpdate`, `AfterDelete`, `AfterPurge`) say what each operation leaves behind. The class `EphemeralStore` performs the operations in place and is proved against those functions.
- The registry is the class `Registry`. It holds the `factories` map from URL scheme to factory class name, with "ldap" registered from the start, and the memoised `factory` slot.
- Reflection (`Class.forName`, then `ExtensionUtil.findClass`, then `asSubclass`, then `newInstance`) is a lookup in two class tables.
- `Zimbra.halt` and the exceptions the code does not catch are failure outcomes.
- The configured backend URL is a parameter.

**Search parameters** (`SearchParams.java`) is the mutable parameter object of a mail search. The model covers the parts that normalise their input:
- offset and limit clamped to 10,000,000;
- the chunk-size limit;
- the default field that must end in ':';
- the sort-order fallback and the localized contact-sort rewrite;
- `parseLimit` and `parseOffset`;
- the `fetch` rule (`ExpandResults.valueOf`);
- `parseLocale`;
- the task-status attribute that `encodeParams` writes and `parse` reads back when a search is proxied to another server.

Java `int` and `long` are the newtypes `int32` and `int64`. The wrap-around of `int` addition and of `(int)` casts is written out.

Two behaviours of the code a reader might not expect, modelled as written:
- `getFactory(String)` does not swallow every failure. A registered class that is not a `Factory` makes `asSubclass` throw `ClassCastException`, and that exception propagates.
- `setFactory(Class)` reads `getDeclaringClass().getSimpleName()` for its debug line and for its halt message. For a top-level factory class that is a `NullPointerException`. On the success path it is thrown after the slot has already been assigned and started.

## Model

| member | source | states |
|---|---|---|
| `EphemeralStores.AfterSet` | src/java/com/zimbra/cs/ephemeral/EphemeralStore.java:40-49 | after `set` the key holds exactly the one new value with its expiration; every other (location, key) is unchanged; no empty key is created |
| `EphemeralStores.AfterUpdate` | src/java/com/zimbra/cs/ephemeral/EphemeralStore.java:51-61 | `update` adds the value to the key's values; an existing value keeps its place and gets the new expiration only when one is supplied (otherwise the store is unchanged); other values' expirations and other keys are unchanged |
| `EphemeralStores.AfterDelete` | src/java/com/zimbra/cs/ephemeral/EphemeralStore.java:63-73 | `delete` removes exactly that value; when the value is absent the store is unchanged; other keys, locations and expirations are untouched |
| `EphemeralStores.AfterPurge` | src/java/com/zimbra/cs/ephemeral/EphemeralStore.java:88-98 | `purgeExpired` keeps a value exactly when it has not expired, with its expiration; nothing outside that key changes |
| `EphemeralStores.UpdateOfAbsentIsSet` | src/java/com/zimbra/cs/ephemeral/EphemeralStore.java:51-53 | on a key that does not exist, `update` is `set` |
| `EphemeralStores.UpdateCount` | src/java/com/zimbra/cs/ephemeral/EphemeralStore.java:51-54 | a new value grows the value set by exactly one; an existing value leaves the value set as it was |
| `EphemeralStores.UpdateIdempotent` | src/java/com/zimbra/cs/ephemeral/EphemeralStore.java:51-61 | repeating an update creates no duplicate and changes nothing further |
| `EphemeralStores.SetOverwrites` | src/java/com/zimbra/cs/ephemeral/EphemeralStore.java:40-49 | after two `set`s of one key only the second value is held |
| `EphemeralStores.UpdatesAccumulate` | src/java/com/zimbra/cs/ephemeral/EphemeralStore.java:51-61 | after two `update`s of one key both values are held beside the earlier ones |
| `EphemeralStores.DeleteUndoesUpdate` | src/java/com/zimbra/cs/ephemeral/EphemeralStore.java:51-73 | deleting a value that an update just added restores the store exactly |
| `EphemeralStores.PurgeIdempotent` | src/java/com/zimbra/cs/ephemeral/EphemeralStore.java:88-98 | purging twice is purging once |
| `EphemeralStores.PurgeMeetsContract` | src/java/com/zimbra/cs/ephemeral/EphemeralStore.java:88-91 | both the reference purge and a no-op (native expiry) remove only expired values of that key; after the reference purge no expired value remains |
| `EphemeralStores.LoginCountSession` | src/java/com/zimbra/cs/ephemeral/EphemeralStore.java:40-73 | set "1", update "2", delete "1": the key holds {"1"}, then {"1","2"}, then {"2"} |
| `EphemeralStores.EphemeralStore.Get` | src/java/com/zimbra/cs/ephemeral/EphemeralStore.java:28-38 | `get` returns every value of the key at the location, and an empty result (not a failure) for a missing key |
| `EphemeralStores.EphemeralStore.Has` | src/java/com/zimbra/cs/ephemeral/EphemeralStore.java:76-86 | `has` is true exactly when `get` would return a non-empty result |
| `EphemeralStores.EphemeralStore.Set` | src/java/com/zimbra/cs/ephemeral/EphemeralStore.java:40-49 | the new state is `AfterSet` of the old; the store invariant is kept |
| `EphemeralStores.EphemeralStore.Update` | src/java/com/zimbra/cs/ephemeral/EphemeralStore.java:51-61 | the new state is `AfterUpdate` of the old; the store invariant is kept |
| `EphemeralStores.EphemeralStore.Delete` | src/java/com/zimbra/cs/ephemeral/EphemeralStore.java:63-73 | the new state is `AfterDelete` of the old; the store invariant is kept |
| `EphemeralStores.EphemeralStore.PurgeExpired` | src/java/com/zimbra/cs/ephemeral/EphemeralStore.java:88-98 | the new state is `AfterPurge` of the old at the given clock reading |
| `EphemeralStores.EphemeralStore.SetAttributeEncoder` | src/java/com/zimbra/cs/ephemeral/EphemeralStore.java:138-140 | the store is bound to the given encoder |
| `EphemeralStores.EphemeralStore.EncodeInputKey` | src/java/com/zimbra/cs/ephemeral/EphemeralStore.java:142-148 | encoding an input's key is encoding that key: the two `encodeKey` overloads agree |
| `EphemeralStores.EphemeralStore.EncodeKey` | src/java/com/zimbra/cs/ephemeral/EphemeralStore.java:146-148 | the key's attribute name is the one the bound encoder writes; under a lawful encoder, any value of the key stored under that name decodes back to the key and that value |
| `EphemeralStores.EphemeralStore.EncodeValue` | src/java/com/zimbra/cs/ephemeral/EphemeralStore.java:150-152 | the stored value is the one the bound encoder writes; under a lawful encoder, read back under the input's encoded key it decodes to the input's key and value |
| `EphemeralStores.EphemeralStore.Decode` | src/java/com/zimbra/cs/ephemeral/EphemeralStore.java:154-156 | the key and value are the ones the bound encoder reads; under a lawful encoder, a pair written for an input at any location is read as that input's key and value |
| `EphemeralStores.EphemeralStore.DecodeInvertsEncode` | src/java/com/zimbra/cs/ephemeral/EphemeralStore.java:142-156 | with a lawful encoder, `decode` of the encoded key and value gives back the input's key and value |
| `EphemeralRegistry.FindClass` | src/java/com/zimbra/cs/ephemeral/EphemeralStore.java:114-123 | a class on the class path is taken from there; otherwise the extension loader's entry is the result; it is missing exactly when neither has it |
| `EphemeralRegistry.SelectFactoryClass` | src/java/com/zimbra/cs/ephemeral/EphemeralStore.java:159-169 | without a URL the "ldap" registration is selected; a class selected from a URL is the one registered for the text before the URL's first ':'; whatever is selected is a registered class name |
| `EphemeralRegistry.SelectionByScheme` | src/java/com/zimbra/cs/ephemeral/EphemeralStore.java:161-166 | with a URL, the factory registered for the text before its first ':' is selected; a non-empty URL made only of colons yields no token and selects nothing |
| `JavaStrings.JavaSplitEmpty` | src/java/com/zimbra/cs/ephemeral/EphemeralStore.java:163-164 | `split(":")` yields no token exactly for a non-empty string of colons only |
| `JavaStrings.JavaSplitHead` | src/java/com/zimbra/cs/ephemeral/EphemeralStore.java:163-165 | when `split` yields a token, `tokens[0]` is the text before the first delimiter |
| `EphemeralRegistry.PlanActivation` | src/java/com/zimbra/cs/ephemeral/EphemeralStore.java:110-136 | a missing name halts with "no EphemeralStore specified", an unfindable class halts with "Unable to find EphemeralStore factory <name>", a class that is not a `Factory` escapes as a class-cast failure, one that cannot be instantiated halts with "Unable to initialize EphemeralStore factory <declaring class>" (a null pointer for a top-level class); a findable, instantiable `Factory` class is always instantiated, and nothing else is |
| `EphemeralRegistry.Registry.constructor` | src/java/com/zimbra/cs/ephemeral/EphemeralStore.java:21-26 | only "ldap" is registered, mapped to the LDAP factory class, and the slot is empty |
| `EphemeralRegistry.Registry.RegisterFactory` | src/java/com/zimbra/cs/ephemeral/EphemeralStore.java:100-108 | the prefix maps to the new class whether or not it was registered (last writer wins); every other prefix and the active slot are unchanged |
| `EphemeralRegistry.Registry.SetFactoryClass` | src/java/com/zimbra/cs/ephemeral/EphemeralStore.java:127-136 | an instantiable class puts a fresh factory, started once, in the slot (then fails with a null pointer if the class is top-level); otherwise the slot is kept and the call halts with "Unable to initialize EphemeralStore factory <declaring class>" or fails with a null pointer |
| `EphemeralRegistry.Registry.SetFactoryByName` | src/java/com/zimbra/cs/ephemeral/EphemeralStore.java:110-125 | the slot and the outcome are those `PlanActivation` prescribes for the name |
| `EphemeralRegistry.Registry.GetFactory` | src/java/com/zimbra/cs/ephemeral/EphemeralStore.java:158-173 | once the slot is filled it is returned unchanged, whatever the URL and the class tables; the first call activates what the URL selects; a halt or class-cast failure leaves the slot empty, while the null pointer from the debug line of a top-level class comes after the slot is filled and started; the registry map is unchanged |
| `EphemeralRegistry.Registry.GetFactoryByName` | src/java/com/zimbra/cs/ephemeral/EphemeralStore.java:175-198 | null for an unregistered name, a class not found, or one that cannot be instantiated; otherwise a fresh factory started once on every call; a class that is not a `Factory` escapes as a class-cast failure; the slot and the map are never changed |
| `EphemeralRegistry.DefaultActivation` | src/java/com/zimbra/cs/ephemeral/EphemeralStore.java:158-172 | a fresh registry without a configured URL activates the LDAP factory, started once, and a second call returns that same factory |
| `TaskStatuses.StatusOf` | src/java/com/zimbra/cs/index/SearchParams.java:519 | `valueOf` accepts a name only when it is exactly a status's name |
| `TaskStatuses.NameShape` | src/java/com/zimbra/cs/index/SearchParams.java:438-442 | every status name is non-empty upper-case letters without a comma, and `valueOf` maps it back to its status |
| `TaskStatuses.StatusesIn` | src/java/com/zimbra/cs/index/SearchParams.java:517-524 | a status is allowed exactly when some token, upper-cased, is its name; other tokens are skipped |
| `TaskStatuses.ParseTaskStatusList` | src/java/com/zimbra/cs/index/SearchParams.java:515-524 | a status is allowed exactly when some token of the comma split, upper-cased, is its name; an empty attribute allows nothing |
| `TaskStatuses.ParseJoinedNames` | src/java/com/zimbra/cs/index/SearchParams.java:511-526 | parsing the comma-join of the names of any list of statuses gives exactly the statuses listed, the empty list included |
| `TaskStatuses.ParseOfJoin` | src/java/com/zimbra/cs/index/SearchParams.java:515-524 | for comma-free tokens whose last one is non-empty, parsing their comma-join reads each token on its own |
| `TaskStatuses.ParseSkipsUnknown` | src/java/com/zimbra/cs/index/SearchParams.java:517-523 | "need,bogus,Comp" allows exactly NEED and COMP |
| `TaskStatuses.JoinStatusNames` | src/java/com/zimbra/cs/index/SearchParams.java:436-446 | the string lists every status of the set once, in some order, separated by commas; it is empty exactly for the empty set; parsing it gives back the set |
| `TaskStatuses.ParseTaskStatuses` | src/java/com/zimbra/cs/index/SearchParams.java:511-526 | the loop collects exactly the statuses `ParseTaskStatusList` describes |
| `SearchParameters.SearchParams.EncodeTaskStatusAttribute` | src/java/com/zimbra/cs/index/SearchParams.java:435-446 | the attribute is written exactly when a status restriction is set; it lists each allowed status once, and parsing it gives back the allowed set |
| `SearchParameters.SearchParams.ParseTaskStatusAttribute` | src/java/com/zimbra/cs/index/SearchParams.java:511-526 | an absent attribute leaves the restriction as it was; a present one becomes the parsed status set |
| `SearchParameters.ProxyTaskStatuses` | src/java/com/zimbra/cs/index/SearchParams.java:56-58 | encoding on one server and parsing on another keeps the allowed statuses, null ("allow all") included |
| `ExpandRules.ValueOf` | src/java/com/zimbra/cs/index/SearchParams.java:107-136 | null gives NONE; the seven words (after trimming and lower-casing) give a shared mode; any other text becomes a rule for one item, keeping the trimmed lower-case text and the id parsed from it, exactly when the item id parses, and otherwise fails with "invalid 'fetch' value: <text>" |
| `ExpandRules.ValueOfNormalized` | src/java/com/zimbra/cs/index/SearchParams.java:115-135 | on trimmed lower-case text: the seven words give a shared mode; any other text becomes a rule for one item exactly when its item id parses, and otherwise fails with "invalid 'fetch' value: <text>" |
| `ExpandRules.ExpandResults.ToString` | src/java/com/zimbra/cs/index/SearchParams.java:138-141 | a rule for one item is written as the text it was parsed from; a shared mode is written as one of the seven words `valueOf` reads |
| `ExpandRules.ValueOfIgnoresCaseAndBlanks` | src/java/com/zimbra/cs/index/SearchParams.java:114 | a value means what its trimmed lower-case form means |
| `ExpandRules.ValueOfModeName` | src/java/com/zimbra/cs/index/SearchParams.java:115-123 | "none", "first", "hits" and "all" select NONE, FIRST, HITS and ALL |
| `ExpandRules.ValueOfAlias` | src/java/com/zimbra/cs/index/SearchParams.java:115-117 | "0" and "false" select NONE, "1" selects FIRST |
| `ExpandRules.ItemRuleRoundTrip` | src/java/com/zimbra/cs/index/SearchParams.java:125-141 | a rule for one item, written as the text it was parsed from, reads back as the same rule with the same item id |
| `ExpandRules.FetchRoundTrip` | src/java/com/zimbra/cs/index/SearchParams.java:459-461 | the rule `encodeParams` writes (its `toString`) is read back by `valueOf` as the same rule |
| `LocaleParsing.ParseLocale` | src/java/com/zimbra/cs/index/SearchParams.java:631-667 | null or empty gives null; a locale results exactly when the text starts with two ASCII letters, which give the lower-cased language; a '-' or '_' followed by two letters after the language gives the upper-cased country, and a country is present only then; after a country, a further separator and a character that does not end the line give the variant, which is exactly the rest of that line, and a variant is present only then |
| `LocaleParsing.ParseIgnoresTrailingText` | src/java/com/zimbra/cs/index/SearchParams.java:637-638 | matching is prefix-only: text after a written locale that cannot extend the match is ignored |
| `LocaleParsing.LocaleRoundTrip` | src/java/com/zimbra/cs/index/SearchParams.java:474-476 | for the locales `parseLocale` produces, the text `encodeParams` writes (`toString`) is parsed back to the same locale |
| `LocaleParsing.ParsedIsWellFormed` | src/java/com/zimbra/cs/index/SearchParams.java:631-667 | every locale `parseLocale` yields has a two-letter lower-case language, an optional two-letter upper-case country, and a single-line variant only after a country, so the round trip covers all of them |
| `SearchParameters.ClampAbove` | src/java/com/zimbra/cs/index/SearchParams.java:252-258 | the stored value is the given one, or the maximum when the given one is larger; there is no lower bound |
| `SearchParameters.ChunkLimit` | src/java/com/zimbra/cs/index/SearchParams.java:305-307 | the limit never exceeds 10,000,000, and it is min(chunk + offset, 10,000,000) when the sum fits in an `int` |
| `SearchParameters.ChunkLimitWraps` | src/java/com/zimbra/cs/index/SearchParams.java:305-307 | the `int` sum wraps: chunk `Integer.MAX_VALUE` after offset 1 gives limit -2^31 |
| `SearchParameters.WithTrailingColon` | src/java/com/zimbra/cs/index/SearchParams.java:260-266 | the stored field ends with ':'; a field already ending with ':' is stored unchanged, any other gets one ':' appended |
| `SearchParameters.WithTrailingColonIdempotent` | src/java/com/zimbra/cs/index/SearchParams.java:260-266 | normalising an already normalised field changes nothing |
| `SearchParameters.ParseLimit` | src/java/com/zimbra/cs/index/SearchParams.java:669-678 | the limit is always in [1, 1000]: 30 when absent or when its `(int)` cast is non-positive, 1000 when the cast exceeds 1000, otherwise the cast |
| `SearchParameters.ParseLimitTruncates` | src/java/com/zimbra/cs/index/SearchParams.java:670 | the `(int)` cast keeps the low 32 bits: a limit of 2^32 + 5 reads as 5 |
| `SearchParameters.ParseOffset` | src/java/com/zimbra/cs/index/SearchParams.java:680-683 | the offset is 0 when absent and the given value when it fits in an `int` |
| `SearchParameters.SortByName` | src/java/com/zimbra/cs/index/SearchParams.java:356-362 | a known name selects its order; an unknown or missing name selects DATE_DESC |
| `SearchParameters.OnlyContacts` | src/java/com/zimbra/cs/index/SearchParams.java:334 | "one type and it is CONTACT" is the same as "exactly {CONTACT}" |
| `SearchParameters.LocalizedSort` | src/java/com/zimbra/cs/index/SearchParams.java:330-349 | the order changes only when the debug switch is on, the types are exactly {CONTACT} and a non-default locale is set; then NAME_ASC becomes NAME_LOCALIZED_ASC and NAME_DESC becomes NAME_LOCALIZED_DESC; other orders never change |
| `SearchParameters.LocalizedSortIdempotent` | src/java/com/zimbra/cs/index/SearchParams.java:330-349 | rewriting an already rewritten order changes nothing |
| `SearchParameters.SearchParams.constructor` | src/java/com/zimbra/cs/index/SearchParams.java:729-763 | a new object has offset 0, limit 0, default field "content:", no sort order, no types, no locale, no inlined headers and no status restriction |
| `SearchParameters.SearchParams.SetOffset` | src/java/com/zimbra/cs/index/SearchParams.java:252-254 | the offset becomes the given value capped at 10,000,000 |
| `SearchParameters.SearchParams.SetLimit` | src/java/com/zimbra/cs/index/SearchParams.java:256-258 | the limit becomes the given value capped at 10,000,000 |
| `SearchParameters.SearchParams.SetChunkSize` | src/java/com/zimbra/cs/index/SearchParams.java:305-307 | the limit becomes `ChunkLimit` of the chunk size and the current offset |
| `SearchParameters.SearchParams.SetDefaultField` | src/java/com/zimbra/cs/index/SearchParams.java:260-266 | an empty field fails with the out-of-bounds exception and stores nothing; any other field is stored ending in ':'; the invariant "ends with ':'" is kept from "content:" on |
| `SearchParameters.SearchParams.CheckForLocalizedContactSearch` | src/java/com/zimbra/cs/index/SearchParams.java:330-349 | the sort order becomes `LocalizedSort` of the old order, the types and the locale |
| `SearchParameters.SearchParams.SetTypes` | src/java/com/zimbra/cs/index/SearchParams.java:317-320 | the types are stored, then the localized rewrite is applied |
| `SearchParameters.SearchParams.SetSortBy` | src/java/com/zimbra/cs/index/SearchParams.java:351-354 | the order is stored, then the localized rewrite is applied |
| `SearchParameters.SearchParams.SetSortByName` | src/java/com/zimbra/cs/index/SearchParams.java:356-362 | the named order, or DATE_DESC for an unknown name, is stored through `setSortBy` |
| `SearchParameters.SearchParams.SetLocale` | src/java/com/zimbra/cs/index/SearchParams.java:399-402 | the locale is stored, then the localized rewrite is applied |
| `SearchParameters.SearchParams.AddInlinedHeader` | src/java/com/zimbra/cs/index/SearchParams.java:384-389 | the header set is created on first use and gains the name, keeping every earlier one |
| `SearchParameters.SearchParams.SetAllowableTaskStatuses` | src/java/com/zimbra/cs/index/SearchParams.java:272-274 | the status restriction is replaced by the given one |

## Left out

- Concrete backends, `LdapEphemeralStore` included, are not part of this model. The `Factory` methods `getStore`, `shutdown` and `test` have their implementations in the concrete backends. `startup()` is modelled only as a count of calls.
- The reference store is keyed by (location, key) directly, and backend I/O failures (`ServiceException`) are not modelled. The encoder is modelled as an opaque triple of functions with its round-trip law. The store's delegates `EncodeKey`, `EncodeValue` and `Decode` require a bound encoder, because the source dereferences a null encoder.
- `EphemeralResult` is modelled as a set of values. The order and the array form of the Java result are not modelled.
- `EphemeralStores.AfterPurge`: an entry counts as expired when its expiration instant is strictly before the clock reading. The source does not say whether an entry whose expiration equals the current instant is expired, so this is a modelling choice. The clock is a parameter.
- Logging (`ZimbraLog` warn, info, debug, error) is not modelled. The one exception is the null-pointer failure that evaluating the debug line's argument causes.
- `EphemeralRegistry.Registry.GetFactory`: the source takes no lock, so activation is sequential. Concurrent first calls are not modelled.
- `EphemeralRegistry.Registry.GetFactoryByName`: runtime exceptions thrown by `newInstance` other than `InstantiationException` and `IllegalAccessException` are not modelled, and neither are exceptions thrown by `startup()`. The same holds for `Registry.SetFactoryClass`.
- Registering a null prefix or a null class name (allowed by `HashMap`) is not modelled: names are non-null strings.
- Case mapping (`toLowerCase`, `toUpperCase`) is modelled for ASCII letters only. Locale-sensitive mappings such as the Turkish dotted i are not modelled.
- `java.util.Locale` is modelled with language, country and variant only. Script and extensions are not modelled. The conversion of old ISO codes (he/iw, yi/ji, id/in) is not modelled. The special variants ja_JP_JP and th_TH_TH are not modelled.
- Some collaborators are tables or parameters. `SortBy.of` is a name table, with a null name treated as unknown. Item-id parsing inside `ExpandResults.valueOf` is a function parameter. `DebugConfig.enableContactLocalizedSort` and `Locale.getDefault()` are constants of the object. `TaskHit.Status` (its constants are taken as NEED, INPR, WAITING, DEFERRED, COMP), `MailItem.Type` (CONTACT and the rest) and `SortBy` are not part of this model beyond those names.
- The rest of `encodeParams` and `parse` is SOAP `Element` plumbing and is not modelled: plain attribute copies, `ZimbraSoapContext`, `parseCursor`, `parseTimeZonePart`, `setTypes(String)`/`MailItem.Type.setOf` and `clone`. Attribute text that does not parse as a number is not modelled either: `parseLimit` and `parseOffset` receive the already parsed `long`.
- The plain getters and setters of `SearchParams` that only store their argument are not modelled, apart from `setAllowableTaskStatuses`.
- `ExpandResults.matches` is not modelled, because it depends on `ItemId` equality.
- The context files `InterceptingInputStream.java` (stream interception, temporary files, content-type detection, document rewriting) and `ContentType.java` (constants) are not part of this model.
