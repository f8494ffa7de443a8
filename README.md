# Dictionary cache and index decisions of the admin web app

This project models two small pieces of decision logic from the administrative web
application.

- **The dictionary cache (`DictUtils`).** One cache region holds the dictionaries. It maps a key
  to the ordered list of `(value, label)` entries of one dictionary type. The key is a
  fixed prefix (assumed to be `sys_dict:`) followed by the type. The model covers put, get (null when
  nothing is stored) and clear-all. It also covers the translation of a value to its label
  (`getDictLabel`) and of a label to its value (`getDictValue`).
  - A single item translates to the first entry in list order that matches it, or to the
    empty string when nothing matches.
  - A separator-joined multi-item string translates to the outputs of every entry whose
    value (or label) is among the split pieces. They come in dictionary-list order, each
    entry at most once. They are joined by the separator, and trailing separator
    characters are stripped.
- **The index/session controller (`SysIndexController`).**
  - The index view: a mobile agent defaults to `index` and a desktop agent to the
    configured `sys.index.menuStyle`. The first cookie named `nav-style` (compared
    ignoring case) overrides both. The view is `index-topnav` iff the resolved style is
    `topnav` ignoring case.
  - The screen-lock flag: `lockscreen` sets it. `unlockscreen` clears it only for a present
    user whose password matches.
  - `menuStyle`: writes the `nav-style` cookie.
  - Two password-policy checks: the initial-password reminder and password expiry.

Layout: `wrappers.dfy` (Option, standing for a nullable reference), `string_utils.dfy`
(the string helpers the code calls: `containsAny`, Java's `split`, `stripEnd`,
`equalsIgnoreCase`), `dict_utils.dfy` and `sys_index_controller.dfy`.

The cache region is a class `DictCache` with a `map` field. `setDictCache` and
`clearDictCache` reassign that field. The translation loops are methods proved against the
function `Translate`. `getDictLabel` and `getDictValue` share these loops through a `Field`
argument that says which field is matched. The properties are lemmas about `Translate`.
The cookie scan of `index` is a method proved against `ResolvedStyle` and `ViewFor`. The
lock flag is a class `Session` whose methods are tied to a one-step function `Step`. A
lemma over event sequences says when the screen is locked.

A single-value miss falls through to `stripEnd` on an empty builder
(DictUtils.java:96) and so returns the empty string, not null (`SingleItemMiss`).

Framework calls become parameters:
- whether the User-Agent is mobile: `isMobile`;
- configuration values: `Option<string>`, and `Option<int>` after `Convert.toInt`;
- `passwordService.matches`: `passwordMatches`;
- `DateUtils.differentDaysByMillisecond(now, pwdUpdateDate)`: `daysSinceUpdate`;
- the session user: `Option<SysUser>`.

`Constants.java` is not part of this model. The key prefix `sys_dict:` is an assumption, and
no proof depends on it beyond the prefix being fixed. The region's name is not modelled,
since the model holds the dictionary region alone.

## Model

| member | source | states |
|---|---|---|
| DictUtils.CacheKey | zen-web/src/main/java/io/github/rothschil/war/util/DictUtils.java:152-154 | the key is the dictionary prefix followed by the type: the prefix is a prefix of the key and the rest is the type |
| DictUtils.CacheKeyInjective | zen-web/src/main/java/io/github/rothschil/war/util/DictUtils.java:152-154 | distinct dictionary types give distinct cache keys |
| DictUtils.LookupAfterPut | zen-web/src/main/java/io/github/rothschil/war/util/DictUtils.java:28-44 | after a put of `L` under type `k`, `k` reads back `Some(L)` and every other type reads what it read before |
| DictUtils.LookupAfterClear | zen-web/src/main/java/io/github/rothschil/war/util/DictUtils.java:133-135 | an emptied region gives null for every type |
| DictUtils.Lookup | zen-web/src/main/java/io/github/rothschil/war/util/DictUtils.java:38-44 | the read is null exactly when nothing is stored under the type's key, and otherwise the list stored there |
| DictUtils.DictCache.SetDictCache | zen-web/src/main/java/io/github/rothschil/war/util/DictUtils.java:28-30 | the region gains the list under the type's key and nothing else changes; the type then reads back the list, every other type as before |
| DictUtils.DictCache.GetDictCache | zen-web/src/main/java/io/github/rothschil/war/util/DictUtils.java:38-44 | null exactly when nothing is stored under the type's key, else the stored list |
| DictUtils.DictCache.ClearDictCache | zen-web/src/main/java/io/github/rothschil/war/util/DictUtils.java:133-135 | the region is empty and every type reads null |
| DictUtils.DictCache.GetDictLabel | zen-web/src/main/java/io/github/rothschil/war/util/DictUtils.java:53-55 | the two-argument form is the three-argument form with the `,` separator |
| DictUtils.DictCache.GetDictValue | zen-web/src/main/java/io/github/rothschil/war/util/DictUtils.java:64-66 | the two-argument form is the three-argument form with the `,` separator |
| DictUtils.DictCache.GetDictLabelWith | zen-web/src/main/java/io/github/rothschil/war/util/DictUtils.java:76-97 | the result is `Translate` by value over the cached list of the type |
| DictUtils.DictCache.GetDictValueWith | zen-web/src/main/java/io/github/rothschil/war/util/DictUtils.java:107-128 | the result is `Translate` by label over the cached list of the type |
| DictUtils.Translate | zen-web/src/main/java/io/github/rothschil/war/util/DictUtils.java:80-96 | with the separator in the input and a non-empty list, the result never ends in the separator; otherwise it is the opposite field of an entry whose field equals the whole input, or the empty string when no entry's does |
| DictUtils.TranslateEntries | zen-web/src/main/java/io/github/rothschil/war/util/DictUtils.java:80-96 | the branch on `containsAny` and a non-empty list, the nested multi-item loops and the single-item loop with early return compute `Translate` |
| DictUtils.AppendMatches | zen-web/src/main/java/io/github/rothschil/war/util/DictUtils.java:80-88 | the string builder ends up holding each matched entry's output followed by the separator, in list order |
| DictUtils.FirstMatchFrom | zen-web/src/main/java/io/github/rothschil/war/util/DictUtils.java:89-95 | the index found matches and no earlier entry does; no index means no entry matches |
| DictUtils.MatchIndices | zen-web/src/main/java/io/github/rothschil/war/util/DictUtils.java:81-87 | the positions are strictly increasing, each one matches a piece, and every matching position is present |
| DictUtils.MatchedOutputsInListOrder | zen-web/src/main/java/io/github/rothschil/war/util/DictUtils.java:80-88 | the multi-item outputs are, one for one, the outputs of the matching positions in list order, so each entry contributes at most once |
| DictUtils.MatchedOutputsIgnoreDuplicates | zen-web/src/main/java/io/github/rothschil/war/util/DictUtils.java:81-87 | duplicated or reordered input pieces do not change the outputs; only which strings occur matters |
| DictUtils.SingleItemFirstMatch | zen-web/src/main/java/io/github/rothschil/war/util/DictUtils.java:89-95 | with no separator in the input, the result is the label of the first entry in list order whose value equals the input |
| DictUtils.SingleItemMiss | zen-web/src/main/java/io/github/rothschil/war/util/DictUtils.java:89-96 | with no separator in the input (or an empty list) and no matching entry, the result is the empty string, not null |
| DictUtils.MultiItemJoin | zen-web/src/main/java/io/github/rothschil/war/util/DictUtils.java:80-96 | the multi-item result is the matched outputs joined by the separator with trailing separators stripped |
| DictUtils.MultiItemExact | zen-web/src/main/java/io/github/rothschil/war/util/DictUtils.java:84-96 | when the last output is non-empty and does not end in the separator, the result is exactly that join |
| DictUtils.ValueLookupIsSwappedLabelLookup | zen-web/src/main/java/io/github/rothschil/war/util/DictUtils.java:107-128 | `getDictValue` equals `getDictLabel` over the entries with value and label exchanged, in both branches |
| DictUtils.SingleItemRoundTrip | zen-web/src/main/java/io/github/rothschil/war/util/DictUtils.java:76-128 | for a value some entry carries, label then value then label returns the same label, given unique values and separator-free entries |
| StringUtils.ContainsAny | zen-web/src/main/java/io/github/rothschil/war/util/DictUtils.java:80 | holds iff some character of the first string occurs in the second, so never for an empty string on either side |
| StringUtils.ContainsAnySingle | zen-web/src/main/java/io/github/rothschil/war/util/DictUtils.java:80 | `containsAny(separator, s)` with a one-character separator holds iff the separator occurs in `s` |
| StringUtils.StripEnd | zen-web/src/main/java/io/github/rothschil/war/util/DictUtils.java:96 | the result is a prefix of the input, does not end in the character, and only that character was removed |
| StringUtils.SplitAll | zen-web/src/main/java/io/github/rothschil/war/util/DictUtils.java:82 | at least one piece, and no piece holds the separator |
| StringUtils.JoinSplitAll | zen-web/src/main/java/io/github/rothschil/war/util/DictUtils.java:82 | joining the split pieces with the separator gives back the input |
| StringUtils.SplitAllJoin | zen-web/src/main/java/io/github/rothschil/war/util/DictUtils.java:82 | splitting a join of separator-free pieces gives back the pieces |
| StringUtils.DropTrailingEmpty | zen-web/src/main/java/io/github/rothschil/war/util/DictUtils.java:82 | the result is a prefix that does not end in an empty piece, and only empty pieces were dropped |
| StringUtils.Split | zen-web/src/main/java/io/github/rothschil/war/util/DictUtils.java:82 | Java's split: the whole input when the separator is absent, else a prefix of all pieces without trailing empties, none holding the separator |
| StringUtils.SplitRejoins | zen-web/src/main/java/io/github/rothschil/war/util/DictUtils.java:82 | the kept pieces, rejoined, are the input minus a run of trailing separators |
| StringUtils.EqualsIgnoreCase | zen-web/src/main/java/io/github/rothschil/war/web/controller/system/SysIndexController.java:81-86 | only strings of equal length are equal ignoring case, every string equals itself, and two strings without ASCII capitals are equal ignoring case iff equal |
| StringUtils.EqualsIgnoreCaseIffCaseVariants | zen-web/src/main/java/io/github/rothschil/war/web/controller/system/SysIndexController.java:81-86 | two strings are equal ignoring case iff they have the same length and each pair of characters is equal or an ASCII capital with its small letter, so `TopNav` equals `topnav` |
| StringUtils.EqualsIgnoreCaseSymmetric | zen-web/src/main/java/io/github/rothschil/war/web/controller/system/SysIndexController.java:81-86 | comparing ignoring case gives the same answer with the arguments swapped |
| SysIndexController.ResolvedStyle | zen-web/src/main/java/io/github/rothschil/war/web/controller/system/SysIndexController.java:76-85 | with no `nav-style` cookie the style is `index` for a mobile agent and the configured menu style otherwise; with one, it is the value of the first such cookie |
| SysIndexController.ViewFor | zen-web/src/main/java/io/github/rothschil/war/web/controller/system/SysIndexController.java:86 | the view is one of `index-topnav` and `index`; `index-topnav` iff the style is present and equals `topnav` ignoring case, so a null style gives `index` |
| SysIndexController.FirstNavStyleFrom | zen-web/src/main/java/io/github/rothschil/war/web/controller/system/SysIndexController.java:79-85 | the cookie found is a `nav-style` cookie and no earlier one is; none found means there is none |
| SysIndexController.Index | zen-web/src/main/java/io/github/rothschil/war/web/controller/system/SysIndexController.java:74-86 | the view is `index-topnav` iff the resolved style is present and equals `topnav` ignoring case, else `index` |
| SysIndexController.CookieOverrides | zen-web/src/main/java/io/github/rothschil/war/web/controller/system/SysIndexController.java:76-85 | the first `nav-style` cookie's value is the style, whatever the device and the configured menu style |
| SysIndexController.MobileWithoutCookie | zen-web/src/main/java/io/github/rothschil/war/web/controller/system/SysIndexController.java:74-86 | with no `nav-style` cookie a mobile agent gets the `index` view |
| SysIndexController.DesktopFollowsConfig | zen-web/src/main/java/io/github/rothschil/war/web/controller/system/SysIndexController.java:74-86 | with no `nav-style` cookie a desktop agent's view is the one of the configured menu style |
| SysIndexController.MenuStyleCookie | zen-web/src/main/java/io/github/rothschil/war/web/controller/system/SysIndexController.java:147-150 | the written cookie is a `nav-style` cookie holding the style |
| SysIndexController.MenuStyle | zen-web/src/main/java/io/github/rothschil/war/web/controller/system/SysIndexController.java:147-150 | the response's cookies gain that cookie and nothing else |
| SysIndexController.MenuStyleThenIndex | zen-web/src/main/java/io/github/rothschil/war/web/controller/system/SysIndexController.java:147-150 | a later request carrying that cookie first among `nav-style` cookies gets `index-topnav` iff the style equals `topnav` ignoring case |
| SysIndexController.Session.Lockscreen | zen-web/src/main/java/io/github/rothschil/war/web/controller/system/SysIndexController.java:97-102 | the lock flag is set and the lock view is returned |
| SysIndexController.Session.Unlockscreen | zen-web/src/main/java/io/github/rothschil/war/web/controller/system/SysIndexController.java:112-124 | a missing user gives the timeout error and a wrong password the password error, both leaving the flag as it was; a matching password clears it and succeeds |
| SysIndexController.Step | zen-web/src/main/java/io/github/rothschil/war/web/controller/system/SysIndexController.java:97-124 | a lock always leaves the screen locked, a successful unlock always leaves it unlocked, and a failed unlock (no user or wrong password) leaves it as it was |
| SysIndexController.RunLockedIff | zen-web/src/main/java/io/github/rothschil/war/web/controller/system/SysIndexController.java:97-124 | after any sequence of lock and unlock events, the screen is locked iff a lock has not been followed by a successful unlock, or it started locked and no unlock succeeded |
| SysIndexController.InitPasswordIsModify | zen-web/src/main/java/io/github/rothschil/war/web/controller/system/SysIndexController.java:174-177 | true iff the setting converts to exactly 1 and the password was never updated |
| SysIndexController.PasswordIsExpiration | zen-web/src/main/java/io/github/rothschil/war/web/controller/system/SysIndexController.java:187-198 | false when the validity days are missing or not positive; otherwise true for a never-updated password, else iff the day difference exceeds the validity days |
| SysIndexController.ExpirationMonotone | zen-web/src/main/java/io/github/rothschil/war/web/controller/system/SysIndexController.java:187-198 | an expired password stays expired as days pass, and under a shorter validity period |

## Left out

- DictUtils.DictCache.GetDictLabelWith: the separator is one character, and Java's `split` reads it as a regular expression. Multi-character separators and the regular-expression metacharacters `.$|()[{^?*+\` are excluded by a requires, because `split` behaves differently for them. So are characters above U+FFFF: Java holds them as two UTF-16 code units, and `containsAny` and `stripEnd` treat those units one at a time.
- DictUtils.DictCache.GetDictValueWith: the same separator restriction as `GetDictLabelWith`.
- DictUtils.DictCache.GetDictLabelWith: null strings are not modelled; strings are sequences, never null. In the source a null `dictValue` makes `containsAny` false, so the single-item branch runs: it throws a NullPointerException at line 91 for a non-empty list and returns the empty string for an empty one. An entry whose label is null is returned as null at line 92, and is appended as the text `null` followed by the separator at line 84. An entry whose value is null never matches (lines 83 and 91).
- DictUtils.DictCache.GetDictValueWith: null strings are not modelled, as for `GetDictLabelWith`. A null `dictLabel` throws at line 122 for a non-empty list and gives the empty string for an empty one; a null entry value is returned as null at line 123 and appended as `null` at line 115; a null entry label never matches (lines 114 and 122).
- Null cache list: the single-item branch of `getDictLabel` and `getDictValue` throws a NullPointerException when nothing is cached for the type. The methods require the type to be cached.
- Null cookie array: a request without cookies gives `getCookies()` null, and the scan at line 80 throws. The cookies are a sequence, so the model always has one.
- Null user in `index`: reading the user's password-update date would throw. `index` here models only the style decision.
- The model-map writes are left out: in `lockscreen`, the session user put under `user` (SysIndexController.java:99); in `index`, menus, user, side theme, skin name, footer flag, copyright year, demo flag and the two password booleans. These are reads of services that are not part of this model.
- `switchSkin` and `main` are left out: they only return a view name or copy a version string.
- SysIndexController.Index: `equalsIgnoreCase` is modelled with ASCII case folding. Java also folds non-ASCII characters such as U+017F and U+212A onto ASCII letters, and that is not captured.
- The unseen helpers are parameters: `CacheUtils` (a map in a class), `Convert.toInt`, `DateUtils.getNowDate` and `differentDaysByMillisecond`, `ServletUtils.checkAgentIsMobile`, `passwordService.matches`. So are `ShiroUtils`, `CookieUtils` and the HTTP session. Cookie attributes such as path and age are not modelled.
- Other regions of the shared cache are not modelled. Cross-request concurrency on the cache is not modelled either.
- Java `Integer` bounds on configuration values and day differences are not modelled; they only enter comparisons.
- `RedisConfig` is not modelled: it is serializer bean wiring with no behaviour of its own. `AbstractFactory` is not modelled: it only declares two abstract methods.
