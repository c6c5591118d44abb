# jeesite core logic in Dafny

This project models the self-contained logic inside the jeesite administration
platform and proves what that logic promises:

- **`FileUtils.path`** normalises a file path written with `\` or `/`. It
  collapses runs of separators to a single `/`, then puts back a leading and a
  trailing `/` by three rules that look at the original string's first and last
  characters (`file_utils.dfy`, module `FileUtils`).
- **The credential codec of `SystemService`**. `entryptPassword` stores
  hex(salt) followed by hex(SHA-1 iterated 1024 times over the unescaped
  password and the salt). `validatePassword` reads the salt back from the first
  16 hex characters and compares the recomputed string (`credentials.dfy`,
  module `Credentials`).
- **The stateful part of `SystemService`**, as a class whose fields are the
  DAO tables and the process-wide user cache (`system_service.dfy`, module
  `SysService`):
  - the cache-aside `findUserByOfficeId`;
  - `saveUser`: insert or update, replacement of the role links, cache
    invalidation;
  - `assignUserToRole` and `outUserInRole`, which change the user's role list
    in place and save;
  - the login-info shift of `updateUserLoginInfo`;
  - the link replacement of `saveRole`;
  - `saveMenu`, which computes a menu's materialised path (`parentIds`) and
    rewrites the path of every descendant.
- **`Global`**, the application configuration (`global.dfy`, module `Config`):
  - the memoising `getConfig` over the properties file;
  - the accessors derived from it;
  - the finite constant table behind `getConst`.

Shared pieces live in `wrappers.dfy` (Option, Result, Outcome) and
`strings.dfy`. The latter holds Java's `String.replace`, `startsWith` and
`endsWith`, commons-lang's `isBlank`, `startsWithAny` and `endsWithAny`, and
the substring test behind SQL `LIKE '%t%'`.

Java `null` returns are `Option.None`. Exceptions are `Result.Failure` or
`Outcome.Fail`, each naming the exception. Generated ids, the salt, the clock
and the request's address are parameters.

Three details of the code shape the model:
- `saveUser` picks insert or update by `isBlank(id)`
  (`SystemService.java:126`).
- It replaces the role links only when the id is not blank after the write
  (`SystemService.java:139`).
- A child menu's path is `parent.parentIds + parent.id + ","`
  (`SystemService.java:334`), so with a root path of `0,` the paths read
  `0,1,`, `0,1,2,` and so on.

## Model

All source paths are under `src/main/java/com/thinkgem/jeesite/`. They are
written out in full in the table.

| member | source | states |
|---|---|---|
| Strings.Replace | src/main/java/com/thinkgem/jeesite/modules/sys/service/SystemService.java:350 | Java `String.replace`: every non-overlapping occurrence, scanning left to right, with an empty target inserting the replacement around every character; its properties are stated by ReplaceBySelf, ReplaceAtStart, ReplaceWhenAbsent and ReplaceCharPointwise (the last also covers the `"\\"` to `"/"` replacement of FileUtils.java:413, where commons `StringUtils.replace` agrees because the target is not empty) |
| Strings.ReplaceBySelf | src/main/java/com/thinkgem/jeesite/modules/sys/service/SystemService.java:350 | replacing every occurrence of a string by itself leaves any string unchanged, for every target including the empty one |
| Strings.ReplaceAtStart | src/main/java/com/thinkgem/jeesite/modules/sys/service/SystemService.java:350 | an occurrence of a non-empty target at the front is replaced, and the scan goes on after it |
| Strings.ReplaceWhenAbsent | src/main/java/com/thinkgem/jeesite/modules/sys/service/SystemService.java:350 | a string holding no occurrence of a non-empty target is returned unchanged |
| Strings.ReplaceCharPointwise | src/main/java/com/thinkgem/jeesite/common/utils/FileUtils.java:413 | replacing one character by another keeps the length and maps the string position by position |
| FileUtils.Path | src/main/java/com/thinkgem/jeesite/common/utils/FileUtils.java:412-425 | `path` written step by step as in the source; what it computes is stated by PathShape, and its promises by PathHasNoBackslash, PathKeepsSegments, PathLeadingSlash, PathTrailingSlash, PathWithoutEdgeSeparators, PathIdempotent, PathOfSeparatorsOnly and PathTwiceOnSeparatorsOnly |
| FileUtils.Join | src/main/java/com/thinkgem/jeesite/common/utils/FileUtils.java:414 | commons `join` with a separator; JoinShape states that joined tokens start and end with a token character and hold only token characters and the separator, and SplitJoin that splitting undoes joining |
| FileUtils.Split | src/main/java/com/thinkgem/jeesite/common/utils/FileUtils.java:414 | commons `split` yields only non-empty segments holding no separator character |
| FileUtils.SegmentsOfReplaced | src/main/java/com/thinkgem/jeesite/common/utils/FileUtils.java:413-414 | turning `\` into `/` and splitting on `/` gives the segments of the input split on either separator, so `\` and `/` act as the same separator |
| FileUtils.PathShape | src/main/java/com/thinkgem/jeesite/common/utils/FileUtils.java:412-425 | every result is an optional leading `/` (input starts with `/`), then the segments joined by single `/`, then an optional trailing `/` (input starts or ends with either separator) |
| FileUtils.PathHasNoBackslash | src/main/java/com/thinkgem/jeesite/common/utils/FileUtils.java:413 | the result never contains `\` |
| FileUtils.PathKeepsSegments | src/main/java/com/thinkgem/jeesite/common/utils/FileUtils.java:413-414 | the result split on `/` equals, in order, the non-empty segments of the input split on either separator |
| FileUtils.PathLeadingSlash | src/main/java/com/thinkgem/jeesite/common/utils/FileUtils.java:415-423 | an input starting with `/` gives a result starting with `/`; an input starting with `\` that names something gives a result that does not |
| FileUtils.PathTrailingSlash | src/main/java/com/thinkgem/jeesite/common/utils/FileUtils.java:415-420 | the result ends with `/` if and only if the input starts or ends with a separator (the leading-separator rule appends) |
| FileUtils.PathWithoutEdgeSeparators | src/main/java/com/thinkgem/jeesite/common/utils/FileUtils.java:413-424 | an input with no separator at either end becomes exactly its segments joined by single `/`, with no `/` at either end |
| FileUtils.PathIdempotent | src/main/java/com/thinkgem/jeesite/common/utils/FileUtils.java:412-425 | for every input holding a non-separator character, normalising twice equals normalising once |
| FileUtils.PathOfSeparatorsOnly | src/main/java/com/thinkgem/jeesite/common/utils/FileUtils.java:412-425 | a non-empty input made only of separators becomes `/`, or `//` when it starts with `/` |
| FileUtils.PathTwiceOnSeparatorsOnly | src/main/java/com/thinkgem/jeesite/common/utils/FileUtils.java:412-425 | for such inputs a second pass always gives `//`; the two passes agree exactly when the input starts with `/` (so `\` gives `/` then `//`) |
| Credentials.Digest | src/main/java/com/thinkgem/jeesite/modules/sys/service/SystemService.java:202 | `Digests.sha1(unescapeHtml(plain).getBytes(), salt, 1024)` over the given primitives, the same expression at :202 and :215; EntryptedLayout states its 20-byte size under SHA-1, and ValidateEntrypted and ValidateAcceptsExactlyEntrypted rely on both sides computing it alike |
| Credentials.EncodeHex | src/main/java/com/thinkgem/jeesite/modules/sys/service/SystemService.java:203 | hex encoding gives two lower-case hex digits per byte |
| Credentials.DecodeHex | src/main/java/com/thinkgem/jeesite/modules/sys/service/SystemService.java:214 | a successful decode yields one byte per two characters, so an odd-length string always fails |
| Credentials.DecodeEncodeHex | src/main/java/com/thinkgem/jeesite/modules/sys/service/SystemService.java:203-214 | decoding inverts encoding for every byte sequence |
| Credentials.EntryptPassword | src/main/java/com/thinkgem/jeesite/modules/sys/service/SystemService.java:199-204 | the stored credential is all lower-case hex, starts with the hex of the salt and is two characters per salt and digest byte long |
| Credentials.ValidatePassword | src/main/java/com/thinkgem/jeesite/modules/sys/service/SystemService.java:212-217 | validation throws exactly when the stored value is shorter than 16 characters or its first 16 are not ASCII hex digits |
| Credentials.ValidateEntrypted | src/main/java/com/thinkgem/jeesite/modules/sys/service/SystemService.java:199-217 | round trip: a credential made from a password with any 8-byte salt validates as true for that password (16 = 2 × SALT_SIZE) |
| Credentials.EntryptedLayout | src/main/java/com/thinkgem/jeesite/modules/sys/service/SystemService.java:201-203 | with a 20-byte SHA-1 digest the credential is 56 lower-case hex characters, the first 16 being the salt |
| Credentials.ValidateAcceptsExactlyEntrypted | src/main/java/com/thinkgem/jeesite/modules/sys/service/SystemService.java:214-216 | validation is true if and only if the stored string is what `entryptPassword` yields for that password with some 8-byte salt |
| Credentials.ValidateRejectsAlteredHash | src/main/java/com/thinkgem/jeesite/modules/sys/service/SystemService.java:214-216 | keeping the salt and changing the hash part in any way makes validation false, not an exception |
| Config.ReadConfig | src/main/java/com/thinkgem/jeesite/common/config/Global.java:71-78 | one `getConfig` call on the memo map, as a value: its properties are stated by ReadConfigOnlyAdds, ReadConfigIsMemoised, MissingKeyReadsNullThenEmpty and ReadConfigAgreesWithLoader, and Config.Global.GetConfig is proved to perform it |
| Config.ReadConfigOnlyAdds | src/main/java/com/thinkgem/jeesite/common/config/Global.java:72-75 | a read adds its key to the memo and never overwrites an existing entry; a new entry is the loader's value or `""` |
| Config.ReadConfigIsMemoised | src/main/java/com/thinkgem/jeesite/common/config/Global.java:71-78 | after a first read, later reads of that key return the recorded value, leave the memo alone and do not depend on the loader |
| Config.MissingKeyReadsNullThenEmpty | src/main/java/com/thinkgem/jeesite/common/config/Global.java:74-77 | a key the properties lack reads as null the first time and `""` afterwards; MissingKeyScenario shows it with two calls on a fresh `Global` |
| Config.MissingKeyScenario | src/main/java/com/thinkgem/jeesite/common/config/Global.java:71-78 | two `getConfig` calls for a key the properties lack on a fresh `Global`: the first answers null and the second `""`, asserted in its body |
| Config.ReadConfigAgreesWithLoader | src/main/java/com/thinkgem/jeesite/common/config/Global.java:71-78 | reads keep the memo coherent with the properties; the answer is the configured value, and only a missing key depends on history |
| Config.FlagFollowsLoader | src/main/java/com/thinkgem/jeesite/common/config/Global.java:104-115 | a flag is on if and only if the properties set it to exactly `"true"` or `"1"` |
| Config.UserfilesBaseDir | src/main/java/com/thinkgem/jeesite/common/config/Global.java:134-142 | a null value throws; otherwise the result ends with `/` and differs from the value only by one appended `/` when the value lacks it |
| Config.UserfilesBaseDirFromLoader | src/main/java/com/thinkgem/jeesite/common/config/Global.java:134-142 | the base directory fails only on the first read of a missing key; a configured value is returned with a trailing `/` |
| Config.GetConst | src/main/java/com/thinkgem/jeesite/common/config/Global.java:121-128 | each of SHOW, HIDE, YES, NO, TRUE, FALSE and USERFILES_BASE_URL yields the value of its own constant (lines 40-58: "1", "0", "1", "0", "true", "false", "/userfiles/"), and any other name yields null |
| Config.Global.GetConfig | src/main/java/com/thinkgem/jeesite/common/config/Global.java:71-78 | the answer and the new memo are those of one memoised read, and the memo stays coherent with the properties |
| Config.Global.GetAdminPath | src/main/java/com/thinkgem/jeesite/common/config/Global.java:83-85 | the same as `getConfig("adminPath")` |
| Config.Global.GetFrontPath | src/main/java/com/thinkgem/jeesite/common/config/Global.java:90-92 | the same as `getConfig("frontPath")` |
| Config.Global.GetUrlSuffix | src/main/java/com/thinkgem/jeesite/common/config/Global.java:97-99 | the same as `getConfig("urlSuffix")` |
| Config.Global.IsDemoMode | src/main/java/com/thinkgem/jeesite/common/config/Global.java:104-107 | on if and only if the properties set `demoMode` to `"true"` or `"1"` |
| Config.Global.IsSynActivitiIndetity | src/main/java/com/thinkgem/jeesite/common/config/Global.java:112-115 | on if and only if the properties set `activiti.isSynActivitiIndetity` to `"true"` or `"1"` |
| Config.Global.GetUserfilesBaseDir | src/main/java/com/thinkgem/jeesite/common/config/Global.java:134-142 | ends with `/` when it succeeds, and fails exactly on the first read of a key the properties lack |
| SysService.ReplaceLinks | src/main/java/com/thinkgem/jeesite/modules/sys/service/SystemService.java:141-146 | delete then insert: the owner is linked to exactly the listed ids (and has no entry for an empty list); every other owner keeps its links |
| SysService.FirstRoleIndex | src/main/java/com/thinkgem/jeesite/modules/sys/service/SystemService.java:290-292 | the position of the first role with the id: it matches and no earlier role does |
| SysService.FindRole | src/main/java/com/thinkgem/jeesite/modules/sys/service/SystemService.java:290-297 | the scan finds a role exactly when one has the id, and stops at the first |
| SysService.FindUser | src/main/java/com/thinkgem/jeesite/modules/sys/service/SystemService.java:131 | null exactly when no row has the id, otherwise a stored row with that id |
| SysService.UsersInOffice | src/main/java/com/thinkgem/jeesite/modules/sys/service/SystemService.java:118 | the office query lists exactly the stored rows of that office |
| SysService.WriteError | src/main/java/com/thinkgem/jeesite/modules/sys/service/SystemService.java:126-138 | the write fails exactly when the generated id is taken (insert) or no row has the id (update) |
| SysService.UpdateUser | src/main/java/com/thinkgem/jeesite/modules/sys/service/SystemService.java:137 | `userDao.update`: the row with the argument's id takes the argument's values; UpdateKeepsUnique and UpdatedUserChangesOffice state its effect on the table |
| SysService.SetLoginInfo | src/main/java/com/thinkgem/jeesite/modules/sys/service/SystemService.java:193 | `userDao.updateLoginInfo`: only the login columns of the row with that id change; SetLoginInfoKeepsUnique states that ids stay unique, and UpdateUserLoginInfo is proved to perform it |
| SysService.SetLoginInfoKeepsUnique | src/main/java/com/thinkgem/jeesite/modules/sys/service/SystemService.java:193 | writing the login columns keeps user ids unique |
| SysService.AppendKeepsUnique | src/main/java/com/thinkgem/jeesite/modules/sys/service/SystemService.java:128 | inserting a row under a new id keeps user ids unique |
| SysService.UpdateKeepsUnique | src/main/java/com/thinkgem/jeesite/modules/sys/service/SystemService.java:137 | updating by id keeps user ids unique |
| SysService.SaveUserSpec | src/main/java/com/thinkgem/jeesite/modules/sys/service/SystemService.java:125-152 | `saveUser` on a snapshot of the user tables and caches: write (insert or update), then, for a non-blank id, role-link replacement, the empty-role failure and cache clearing; its properties are stated by SaveUserWritesRow, SaveUserReplacesRoleLinks and SaveUserDropsOfficeLists, and SaveUser, OutUserInRole and AssignUserToRole are proved to perform it |
| SysService.SaveUserWritesRow | src/main/java/com/thinkgem/jeesite/modules/sys/service/SystemService.java:126-138 | a failed write changes nothing; otherwise the row is stored under the saved id and ids stay unique |
| SysService.SaveUserReplacesRoleLinks | src/main/java/com/thinkgem/jeesite/modules/sys/service/SystemService.java:139-148 | the user's links become exactly its role ids, not merged with old ones; other users keep theirs; the save fails with the no-role error exactly when the list is empty; success drops the user's cache entries by id and by login name and the cached list of its office |
| SysService.SaveUserDropsOfficeLists | src/main/java/com/thinkgem/jeesite/modules/sys/service/SystemService.java:129-148 | updating a user with roles into another office succeeds and drops the cached lists of both the old and the new office |
| SysService.UpdatedUserChangesOffice | src/main/java/com/thinkgem/jeesite/modules/sys/service/SystemService.java:137 | after an update the user is listed under its new office and under no other |
| SysService.ChildPath | src/main/java/com/thinkgem/jeesite/modules/sys/service/SystemService.java:334 | the path of a child: the parent's path, the parent's id, a comma; SaveMenu's contract states the saved menu carries it |
| SysService.IsUnder | src/main/java/com/thinkgem/jeesite/modules/sys/service/SystemService.java:347-348 | the `LIKE '%,id,%'` selection of the menus to rewrite; CascadeFrame states that exactly these menus are rewritten |
| SysService.Cascade | src/main/java/com/thinkgem/jeesite/modules/sys/service/SystemService.java:346-352 | the menu table after the rewrite loop, as a value; its properties are stated by CascadeFrame, CascadeUnchangedPath and CascadeRebasesDescendant, and RebaseDescendants is proved to perform it |
| SysService.WriteMenu | src/main/java/com/thinkgem/jeesite/modules/sys/service/SystemService.java:337-343 | `menuDao.insert` of a menu with a blank id under the generated id, or `menuDao.update` of the stored menu with that id (no change when there is none); SaveMenu's contract states the cascade runs over the table it yields |
| SysService.CascadeFrame | src/main/java/com/thinkgem/jeesite/modules/sys/service/SystemService.java:346-352 | the cascade keeps every menu and changes only `parentIds`, only of the menus whose path contains `,id,`, replacing each occurrence of the old path by the new |
| SysService.CascadeUnchangedPath | src/main/java/com/thinkgem/jeesite/modules/sys/service/SystemService.java:331-352 | when the old and new path are equal the cascade changes no menu |
| SysService.CascadeRebasesDescendant | src/main/java/com/thinkgem/jeesite/modules/sys/service/SystemService.java:349-351 | a descendant whose path is the old path followed by a rest (holding it nowhere else) gets the new path followed by the same rest |
| SysService.SystemService.FindUserByOfficeId | src/main/java/com/thinkgem/jeesite/modules/sys/service/SystemService.java:113-122 | a hit returns the cached list with no query and no change; a miss queries once and caches the answer; afterwards the cache holds the returned list, so a repeat call (RepeatedOfficeLookup) returns the same list with no further query |
| SysService.RepeatedOfficeLookup | src/main/java/com/thinkgem/jeesite/modules/sys/service/SystemService.java:113-122 | two lookups of one office with no save between them: the second returns the same list and sends no query, asserted in its body |
| SysService.SystemService.ClearUserCache | src/main/java/com/thinkgem/jeesite/modules/sys/service/SystemService.java:148 | the user's by-id entry, by-login-name entry and office list are dropped, and nothing else |
| SysService.SystemService.WriteUserRow | src/main/java/com/thinkgem/jeesite/modules/sys/service/SystemService.java:126-138 | a blank id takes the generated id and inserts; otherwise the row with the id is updated after its old office's list is dropped; a failed write changes nothing |
| SysService.SystemService.LinkUserRoles | src/main/java/com/thinkgem/jeesite/modules/sys/service/SystemService.java:139-151 | links are replaced; an empty role list fails after the delete without touching the cache; success drops the user's cache entries by id and by login name and the cached list of its office |
| SysService.SystemService.SaveUser | src/main/java/com/thinkgem/jeesite/modules/sys/service/SystemService.java:125-152 | the user takes the saved id, and the tables, caches and outcome are those of `SaveUserSpec`, about which the three `SaveUser*` lemmas hold |
| SysService.SystemService.OutUserInRole | src/main/java/com/thinkgem/jeesite/modules/sys/service/SystemService.java:288-298 | without the role: false, with nothing changed; with it: only the first matching role is removed, the user is saved and the answer is true |
| SysService.SystemService.AssignUserToRole | src/main/java/com/thinkgem/jeesite/modules/sys/service/SystemService.java:301-312 | null and nothing changed for a null user or one holding the role id; otherwise exactly the role is appended, the user is saved and returned; in every case the user's login name, office and login fields are left as they were |
| SysService.SystemService.UpdateUserLoginInfo | src/main/java/com/thinkgem/jeesite/modules/sys/service/SystemService.java:186-194 | the current login becomes the previous one, the given address and time become current, and only the user's stored login columns change |
| SysService.SystemService.SaveRole | src/main/java/com/thinkgem/jeesite/modules/sys/service/SystemService.java:254-276 | the role gets its saved id and is inserted or updated; its menu links and office links become exactly its lists |
| SysService.SystemService.RebaseDescendants | src/main/java/com/thinkgem/jeesite/modules/sys/service/SystemService.java:346-352 | the loop leaves the menu table equal to the cascade over the old table |
| SysService.SystemService.SaveMenu | src/main/java/com/thinkgem/jeesite/modules/sys/service/SystemService.java:325-359 | fails on a missing parent; otherwise the new path is `parent.parentIds + parent.id + ","`, the menu is written and the cascade moves its descendants from the old path to the new |
| SysService.MoveUserBetweenOffices | src/main/java/com/thinkgem/jeesite/modules/sys/service/SystemService.java:113-152 | after saving a user into another office, the new office's lookup lists the user and the old office's lookup does not |

## Left out

- File I/O in `FileUtils` is not modelled: copying, deleting, creating and
  writing files depend on the real file system.
- `path` on a `null` argument is not modelled; strings are never null here.
- SHA-1, `Encodes.unescapeHtml` and `String.getBytes` are not modelled. They
  are function parameters (`Credentials.Primitives`), so every fact holds
  whatever those functions are.
- The one property of SHA-1 the layout lemma relies on is its 20-byte output.
  Credentials.EntryptedLayout takes it as a precondition.
- `Digests.generateSalt` is not modelled: the salt is a parameter.
- Collision resistance is not stated: that different passwords rarely give
  the same credential cannot be proved without a model of SHA-1.
- `Encodes` is not part of this model. Encoding gives lower-case digits, high
  nibble first, and decoding accepts either case.
- Credentials.HexValue: decoding is restricted to ASCII hex digits.
  `Character.digit(ch, 16)` in commons codec also accepts the other Unicode
  decimal digits (such as U+0660) and the full-width Latin letters. On a stored
  value whose salt part uses them, `validatePassword` decodes a salt and answers
  false, while Credentials.ValidatePassword fails with `SaltNotHex`. Values made
  by `entryptPassword` are always ASCII, so the round trip is unaffected.
- `Global.getProjectPath` and `printKeyLoadMessage` are not modelled (file
  system walk, console output). The properties file is a fixed map and its
  loading is not modelled.
- `PropertiesLoader` is not part of this model. Config.ReadConfig assumes
  `getProperty` returns the file's value for a key it defines and null for a key
  it lacks. Config.MissingKeyReadsNullThenEmpty and the other `getConfig` facts
  rest on this.
- `getConst` is a fixed table, not reflection. It returns the string value of
  each public constant.
- Transactions are not modelled. A `saveUser` that fails on an empty role list
  leaves the row written and the links deleted, as the code does before the
  exception. Rollback is not modelled.
- Caches other than the user cache are not modelled. These are the
  `UserUtils.removeCache` calls for the role and menu lists and the
  `CacheUtils.remove` of the menu-name cache; they touch only session and log
  caches.
- `UserUtils` is not part of this model. SysService.SystemService.ClearUserCache
  stands for `UserUtils.clearCache(user)` and is modelled as dropping the
  user's entry by id, its entry by login name and its office's list; any other
  effect of `clearCache` is not modelled.
- Audit fields set by `preInsert`/`preUpdate` (creator, dates) are not
  modelled. The id generation in `preInsert` is the `freshId` parameter, and a
  generated id that is already taken is the `DuplicateKey` error.
- Java `null` for a role list, a parent menu's `parentIds` or an office is
  not modelled beyond `Option`. An office is optional; a role list is a
  sequence, and "null or empty" is covered only as empty.
- SysService.UsersInOffice: the MyBatis mapper SQL is not part of this model.
  The query is taken to return whole rows in table order; which columns it
  fills and in what order it lists them are not modelled.
- SysService.UpdateUser: the mapper SQL of `userDao.update` is not part of this
  model. The update is taken to write every tracked column of the row from the
  argument, the login address and date included; SysService.MoveUserBetweenOffices
  relies on this when it finds `user.Row()` in the new office's list.
- SysService.SystemService.SaveMenu: the menu is a value. The saved menu
  (with its id and path) is returned, instead of the argument being updated in
  place.
- SysService.CascadeFrame: `LIKE '%,id,%'` is modelled as a plain substring
  test. An id holding `%` or `_` would be read as a wildcard by the database,
  and that is not modelled.
- `updateUserLoginInfo` does not read the request or the clock: the remote
  address and the current time are parameters.
- The other `SystemService` operations are not part of this model: user,
  role and menu lookups, deletes, `updateUserInfo`, `updatePasswordById`,
  active sessions, menu sorting and the Activiti identity sync.
- Concurrency is not modelled. Each operation is atomic, so races on cache
  population do not arise.
