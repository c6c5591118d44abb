/**
 * The stateful part of `SystemService`: saving users, roles and menus, the
 * role membership helpers, the login-info shift and the cache-aside lookup
 * of an office's users.
 *
 * The DAO tables and the process-wide user cache are fields of the service
 * object: `users` is the user table in row order, the other tables are maps
 * from an id to its row or to the set of linked ids, and the user cache is
 * split by its three key prefixes (by id, by login name, list by office).
 * Generated ids (`IdGen.uuid()` in `preInsert`), the request's remote
 * address and the clock are parameters.
 */
module SysService {
  import opened Wrappers
  import opened Strings

  // ---------------------------------------------------------------------
  // Entities
  // ---------------------------------------------------------------------

  /** A role as the service receives it, with the menus and offices it grants. */
  datatype Role = Role(id: string, name: string, enname: string, menuIds: seq<string>, officeIds: seq<string>)

  /** A row of the role table. */
  datatype RoleRow = RoleRow(id: string, name: string, enname: string)

  /** A menu: `parentIds` is the materialised path of its ancestors' ids,
      each followed by a comma (for example "0,1,2,"). */
  datatype Menu = Menu(id: string, parentId: string, parentIds: string, name: string)

  /** A row of the user table: the persisted columns the model tracks. */
  datatype UserRow = UserRow(id: string, loginName: string, officeId: Option<string>,
                             loginIp: Option<string>, loginDate: Option<int>)

  /** The exceptions the service operations throw. */
  datatype ServiceError =
    | NoRoleAssigned(loginName: string)  // ServiceException from saveUser
    | UserNotFound(id: string)           // NullPointerException: userDao.get returned null
    | MenuNotFound(id: string)           // NullPointerException: getMenu returned null
    | DuplicateKey(id: string)           // the insert hit an existing primary key

  /** The user object the service reads and updates in place. */
  class User {
    var id: string
    var loginName: string
    var officeId: Option<string>
    var roleList: seq<Role>
    var loginIp: Option<string>
    var loginDate: Option<int>
    var oldLoginIp: Option<string>
    var oldLoginDate: Option<int>

    constructor (id: string, loginName: string, officeId: Option<string>, roleList: seq<Role>)
      ensures this.id == id && this.loginName == loginName && this.officeId == officeId
      ensures this.roleList == roleList
      ensures loginIp == None && loginDate == None && oldLoginIp == None && oldLoginDate == None
    {
      this.id := id;
      this.loginName := loginName;
      this.officeId := officeId;
      this.roleList := roleList;
      loginIp, loginDate, oldLoginIp, oldLoginDate := None, None, None, None;
    }

    /** The columns of the user's row that the model tracks; `insert` and
        `update` are taken to write all of them from the argument. */
    function Row(): UserRow
      reads this`id, this`loginName, this`officeId, this`loginIp, this`loginDate
    {
      UserRow(id, loginName, officeId, loginIp, loginDate)
    }
  }

  // ---------------------------------------------------------------------
  // Rows and links
  // ---------------------------------------------------------------------

  /** `User.getRoleIdList`. */
  function RoleIds(roles: seq<Role>): seq<string> {
    seq(|roles|, k requires 0 <= k < |roles| => roles[k].id)
  }

  /** The ids a link table records for one owner: each listed id once. */
  function LinkSet(ids: seq<string>): (links: set<string>)
    ensures forall id :: id in links <==> id in ids
  {
    set id | id in ids
  }

  /** The delete of an owner's links followed, when the list is not empty, by
      the insert of the listed ids (`deleteUserRole`/`insertUserRole`,
      `deleteRoleMenu`/`insertRoleMenu`, `deleteRoleOffice`/`insertRoleOffice`):
      the owner ends up linked to exactly those ids, old links are not kept,
      and every other owner keeps its links. */
  function ReplaceLinks(links: map<string, set<string>>, owner: string, ids: seq<string>): (r: map<string, set<string>>)
    ensures owner in r <==> |ids| > 0
    ensures owner in r ==> forall id :: id in r[owner] <==> id in ids
    ensures forall o :: o != owner ==> (o in r <==> o in links) && (o in r ==> r[o] == links[o])
  {
    var deleted := links - {owner};
    if |ids| > 0 then deleted[owner := LinkSet(ids)] else deleted
  }

  predicate HasRole(roles: seq<Role>, id: string) {
    exists k :: 0 <= k < |roles| && roles[k].id == id
  }

  /** Position of the first role with the given id. */
  function FirstRoleIndex(roles: seq<Role>, id: string): (k: nat)
    requires HasRole(roles, id)
    ensures k < |roles| && roles[k].id == id
    ensures forall j :: 0 <= j < k ==> roles[j].id != id
    decreases |roles|
  {
    if roles[0].id == id then 0
    else
      assert HasRole(roles[1..], id) by {
        var k :| 0 <= k < |roles| && roles[k].id == id;
        assert roles[1..][k - 1].id == id;
      }
      1 + FirstRoleIndex(roles[1..], id)
  }

  /** The loop of `outUserInRole`: the first role whose id matches, if any. */
  method FindRole(roles: seq<Role>, id: string) returns (found: bool, index: nat)
    ensures found <==> HasRole(roles, id)
    ensures found ==> index == FirstRoleIndex(roles, id)
  {
    index := 0;
    while index < |roles|
      invariant index <= |roles|
      invariant forall j :: 0 <= j < index ==> roles[j].id != id
    {
      if roles[index].id == id {
        found := true;
        return;
      }
      index := index + 1;
    }
    found := false;
  }

  /** `userDao.get(id)`: the row with that id, or null. */
  function FindUser(rows: seq<UserRow>, id: string): (r: Option<UserRow>)
    ensures r.None? <==> forall k :: 0 <= k < |rows| ==> rows[k].id != id
    ensures r.Some? ==> r.value in rows && r.value.id == id
    decreases |rows|
  {
    if |rows| == 0 then None
    else if rows[0].id == id then Some(rows[0])
    else FindUser(rows[1..], id)
  }

  predicate UniqueIds(rows: seq<UserRow>) {
    forall i, j :: 0 <= i < j < |rows| ==> rows[i].id != rows[j].id
  }

  /** `userDao.update(user)`: the row with the same id takes the new values. */
  function UpdateUser(rows: seq<UserRow>, row: UserRow): seq<UserRow> {
    seq(|rows|, k requires 0 <= k < |rows| => if rows[k].id == row.id then row else rows[k])
  }

  /** Appending a row whose id is new keeps the ids unique. */
  lemma AppendKeepsUnique(rows: seq<UserRow>, row: UserRow)
    requires UniqueIds(rows) && FindUser(rows, row.id).None?
    ensures UniqueIds(rows + [row])
  {
  }

  /** Updating a row in place keeps the ids unique. */
  lemma UpdateKeepsUnique(rows: seq<UserRow>, row: UserRow)
    requires UniqueIds(rows)
    ensures UniqueIds(UpdateUser(rows, row))
  {
  }

  /** `userDao.updateLoginInfo(user)`: sets the login columns of the row with that id. */
  function SetLoginInfo(rows: seq<UserRow>, id: string, ip: Option<string>, date: Option<int>): seq<UserRow> {
    seq(|rows|, k requires 0 <= k < |rows| =>
      if rows[k].id == id then rows[k].(loginIp := ip, loginDate := date) else rows[k])
  }

  /** Writing the login columns keeps the ids unique. */
  lemma SetLoginInfoKeepsUnique(rows: seq<UserRow>, id: string, ip: Option<string>, date: Option<int>)
    requires UniqueIds(rows)
    ensures UniqueIds(SetLoginInfo(rows, id, ip, date))
  {
  }

  /** `userDao.findUserByOfficeId`: the users of an office, in table order. */
  function UsersInOffice(rows: seq<UserRow>, officeId: string): (r: seq<UserRow>)
    ensures forall u :: u in r <==> u in rows && u.officeId == Some(officeId)
    ensures |r| <= |rows|
    decreases |rows|
  {
    if |rows| == 0 then []
    else if rows[0].officeId == Some(officeId) then [rows[0]] + UsersInOffice(rows[1..], officeId)
    else UsersInOffice(rows[1..], officeId)
  }

  /** The id `saveUser` saves under: the generated one when the id is blank. */
  function SavedId(id: string, freshId: string): string {
    if IsBlank(id) then freshId else id
  }

  /** Why the write of `saveUser` fails, if it does: the generated id is
      taken, or the id to update names no row. */
  function WriteError(rows: seq<UserRow>, id: string, freshId: string): (error: Option<ServiceError>)
    ensures error.Some? <==>
              if IsBlank(id) then exists k :: 0 <= k < |rows| && rows[k].id == freshId
              else forall k :: 0 <= k < |rows| ==> rows[k].id != id
  {
    if IsBlank(id) then (if FindUser(rows, freshId).Some? then Some(DuplicateKey(freshId)) else None)
    else if FindUser(rows, id).None? then Some(UserNotFound(id))
    else None
  }

  /** The table after the write of `saveUser`: the row appended for an
      insert, or put in place of the row with its id for an update. */
  function WrittenRows(rows: seq<UserRow>, id: string, row: UserRow): seq<UserRow> {
    if IsBlank(id) then rows + [row] else UpdateUser(rows, row)
  }

  /** The cached office lists after the write of `saveUser`: an update drops
      the list of the office the stored row belonged to. */
  function OfficeListsAfterWrite(rows: seq<UserRow>, id: string, lists: map<string, seq<UserRow>>): map<string, seq<UserRow>> {
    var previous := FindUser(rows, id);
    if !IsBlank(id) && previous.Some? && previous.value.officeId.Some? then lists - {previous.value.officeId.value}
    else lists
  }

  /** The user table, the user-role links and the three parts of the user
      cache: the state `saveUser` changes. */
  datatype UserTables = UserTables(
    users: seq<UserRow>,
    userRoles: map<string, set<string>>,
    byId: map<string, UserRow>,
    byLoginName: map<string, UserRow>,
    byOffice: map<string, seq<UserRow>>)

  /** The tables after a save, and how the save ended. */
  datatype Saved = Saved(tables: UserTables, outcome: Outcome<ServiceError>)

  /**
   * `saveUser` on values. `user` is the user as passed in (its id may be
   * blank). A blank id inserts under the generated id, any other id updates
   * the stored row after dropping the cached list of its old office; then,
   * when the saved id is not blank, the user's role links are deleted and
   * the role list, which must not be empty, is linked; on success the
   * user's cache entries (by id, by login name, its office's list) go.
   */
  function SaveUserSpec(t: UserTables, user: UserRow, roleList: seq<Role>, freshId: string): Saved {
    var id := SavedId(user.id, freshId);
    var row := user.(id := id);
    var error := WriteError(t.users, user.id, freshId);
    if error.Some? then Saved(t, Fail(error.value))
    else
      var written := t.(users := WrittenRows(t.users, user.id, row),
                        byOffice := OfficeListsAfterWrite(t.users, user.id, t.byOffice));
      if IsBlank(id) then Saved(written, Pass)
      else
        var linked := written.(userRoles := ReplaceLinks(t.userRoles, id, RoleIds(roleList)));
        if |roleList| == 0 then Saved(linked, Fail(NoRoleAssigned(user.loginName)))
        else
          Saved(linked.(byId := linked.byId - {id},
                        byLoginName := linked.byLoginName - {row.loginName},
                        byOffice := if row.officeId.Some? then linked.byOffice - {row.officeId.value} else linked.byOffice),
                Pass)
  }

  /** A save that fails on its write changes nothing; one that gets past it
      has written the row under the saved id. */
  lemma SaveUserWritesRow(t: UserTables, user: UserRow, roleList: seq<Role>, freshId: string)
    ensures var r := SaveUserSpec(t, user, roleList, freshId);
            var row := user.(id := SavedId(user.id, freshId));
            && (WriteError(t.users, user.id, freshId).Some? ==> r.tables == t && r.outcome.Fail?)
            && (WriteError(t.users, user.id, freshId).None? ==>
                  row in r.tables.users && (UniqueIds(t.users) ==> UniqueIds(r.tables.users)))
  {
    var row := user.(id := SavedId(user.id, freshId));
    if WriteError(t.users, user.id, freshId).None? {
      if IsBlank(user.id) {
        assert (t.users + [row])[|t.users|] == row;
        if UniqueIds(t.users) {
          AppendKeepsUnique(t.users, row);
        }
      } else {
        var k :| 0 <= k < |t.users| && t.users[k].id == user.id;
        assert UpdateUser(t.users, row)[k] == row;
        if UniqueIds(t.users) {
          UpdateKeepsUnique(t.users, row);
        }
      }
    }
  }

  /** A save whose write succeeds with a non-blank id leaves the user linked
      to exactly the ids of its role list (old links are not merged in),
      leaves every other user's links alone, and fails precisely when the
      role list is empty; success clears the user's cache entries by id and
      by login name and the cached list of its office. */
  lemma SaveUserReplacesRoleLinks(t: UserTables, user: UserRow, roleList: seq<Role>, freshId: string)
    requires WriteError(t.users, user.id, freshId).None? && !IsBlank(SavedId(user.id, freshId))
    ensures var r := SaveUserSpec(t, user, roleList, freshId);
            var id := SavedId(user.id, freshId);
            && (r.outcome == Pass <==> |roleList| > 0)
            && (r.outcome.Fail? ==> r.outcome.error == NoRoleAssigned(user.loginName))
            && (|roleList| > 0 ==>
                  id in r.tables.userRoles
                  && (forall roleId :: roleId in r.tables.userRoles[id] <==> HasRole(roleList, roleId)))
            && (|roleList| == 0 ==> id !in r.tables.userRoles)
            && (forall other :: other != id && other in t.userRoles ==>
                  other in r.tables.userRoles && r.tables.userRoles[other] == t.userRoles[other])
            && (r.outcome == Pass ==> id !in r.tables.byId && user.loginName !in r.tables.byLoginName)
            && (r.outcome == Pass && user.officeId.Some? ==> user.officeId.value !in r.tables.byOffice)
  {
    var id := SavedId(user.id, freshId);
    var links := ReplaceLinks(t.userRoles, id, RoleIds(roleList));
    if |roleList| > 0 {
      forall roleId
        ensures roleId in links[id] <==> HasRole(roleList, roleId)
      {
        if HasRole(roleList, roleId) {
          var k :| 0 <= k < |roleList| && roleList[k].id == roleId;
          assert RoleIds(roleList)[k] == roleId;
        }
      }
    }
  }

  /** An update that moves a user to another office drops the cached lists
      of both offices, so neither can serve a stale list. */
  lemma SaveUserDropsOfficeLists(t: UserTables, user: UserRow, roleList: seq<Role>, freshId: string, from: string)
    requires !IsBlank(user.id) && |roleList| > 0 && user.officeId.Some?
    requires FindUser(t.users, user.id).Some? && FindUser(t.users, user.id).value.officeId == Some(from)
    ensures var r := SaveUserSpec(t, user, roleList, freshId);
            && r.outcome == Pass
            && r.tables.users == UpdateUser(t.users, user)
            && from !in r.tables.byOffice && user.officeId.value !in r.tables.byOffice
  {
  }

  // ---------------------------------------------------------------------
  // Menu paths
  // ---------------------------------------------------------------------

  /** The path `saveMenu` gives a child of `parent`. */
  function ChildPath(parent: Menu): string {
    parent.parentIds + parent.id + ","
  }

  /** The `LIKE '%,id,%'` test of `findByParentIdsLike`: `id` is on the path. */
  predicate IsUnder(m: Menu, id: string) {
    Contains(m.parentIds, "," + id + ",")
  }

  /** One descendant's rewrite: every occurrence of the old path replaced. */
  function Rebased(m: Menu, oldPath: string, newPath: string): Menu {
    m.(parentIds := Replace(m.parentIds, oldPath, newPath))
  }

  /** The table after the cascade of `saveMenu` for the menu `id`. */
  function Cascade(menus: map<string, Menu>, id: string, oldPath: string, newPath: string): map<string, Menu> {
    map k | k in menus :: if IsUnder(menus[k], id) then Rebased(menus[k], oldPath, newPath) else menus[k]
  }

  /** `menuDao.insert` or `menuDao.update` of the saved menu. */
  function WriteMenu(menus: map<string, Menu>, saved: Menu, insert: bool): map<string, Menu> {
    if insert || saved.id in menus then menus[saved.id := saved] else menus
  }

  /** The cascade keeps every menu and rewrites only the `parentIds` of the
      menus whose path names `id`; all other menus are unchanged. */
  lemma CascadeFrame(menus: map<string, Menu>, id: string, oldPath: string, newPath: string)
    ensures Cascade(menus, id, oldPath, newPath).Keys == menus.Keys
    ensures forall k :: k in menus && !IsUnder(menus[k], id) ==> Cascade(menus, id, oldPath, newPath)[k] == menus[k]
    ensures forall k :: k in menus ==>
              Cascade(menus, id, oldPath, newPath)[k] == menus[k].(parentIds := Cascade(menus, id, oldPath, newPath)[k].parentIds)
    ensures forall k :: k in menus && IsUnder(menus[k], id) ==>
              Cascade(menus, id, oldPath, newPath)[k].parentIds == Replace(menus[k].parentIds, oldPath, newPath)
  {
  }

  /** When the menu's path does not change, the cascade changes nothing. */
  lemma CascadeUnchangedPath(menus: map<string, Menu>, id: string, path: string)
    ensures Cascade(menus, id, path, path) == menus
  {
    forall k | k in menus
      ensures Cascade(menus, id, path, path)[k] == menus[k]
    {
      ReplaceBySelf(menus[k].parentIds, path);
    }
  }

  /** A descendant whose path starts with the old path (and holds it nowhere
      else) is moved under the new path, keeping the rest of its path. */
  lemma CascadeRebasesDescendant(menus: map<string, Menu>, id: string, oldPath: string, newPath: string, k: string, rest: string)
    requires k in menus && IsUnder(menus[k], id)
    requires |oldPath| > 0 && menus[k].parentIds == oldPath + rest
    requires !Contains(rest, oldPath)
    ensures Cascade(menus, id, oldPath, newPath)[k].parentIds == newPath + rest
  {
    ReplaceAtStart(oldPath, rest, newPath);
    ReplaceWhenAbsent(rest, oldPath, newPath);
  }

  /** Updating a row whose id is in the table: afterwards the user is listed
      under its new office, and no other office lists a row with its id. */
  lemma UpdatedUserChangesOffice(rows: seq<UserRow>, row: UserRow)
    requires FindUser(rows, row.id).Some?
    ensures row.officeId.Some? ==> row in UsersInOffice(UpdateUser(rows, row), row.officeId.value)
    ensures forall office, u :: Some(office) != row.officeId && u in UsersInOffice(UpdateUser(rows, row), office)
              ==> u.id != row.id
  {
    var updated := UpdateUser(rows, row);
    var k :| 0 <= k < |rows| && rows[k].id == row.id;
    assert updated[k] == row;
    forall office, u | Some(office) != row.officeId && u in UsersInOffice(updated, office)
      ensures u.id != row.id
    {
      assert u in updated && u.officeId == Some(office);
      var j :| 0 <= j < |updated| && updated[j] == u;
      assert u.id == row.id ==> u == row;
    }
  }

  // ---------------------------------------------------------------------
  // The service
  // ---------------------------------------------------------------------

  class SystemService {
    /** The user table, in row order. */
    var users: seq<UserRow>
    /** The user-role link table: user id to its role ids. */
    var userRoles: map<string, set<string>>
    /** The role table. */
    var roles: map<string, RoleRow>
    /** The role-menu link table. */
    var roleMenus: map<string, set<string>>
    /** The role-office link table. */
    var roleOffices: map<string, set<string>>
    /** The menu table. */
    var menus: map<string, Menu>
    /** User cache entries under the by-id prefix. */
    var cachedById: map<string, UserRow>
    /** User cache entries under the by-login-name prefix. */
    var cachedByLoginName: map<string, UserRow>
    /** User cache entries under the list-by-office prefix. */
    var cachedByOffice: map<string, seq<UserRow>>
    /** How many queries `findUserByOfficeId` has sent to the user DAO. */
    var officeQueries: nat

    /** Every table is keyed by the ids its rows carry. */
    ghost predicate Valid()
      reads this`users, this`roles, this`menus
    {
      UsersKeyed() && RolesKeyed() && MenusKeyed()
    }

    ghost predicate UsersKeyed()
      reads this`users
    {
      UniqueIds(users)
    }

    ghost predicate RolesKeyed()
      reads this`roles
    {
      forall id :: id in roles ==> roles[id].id == id
    }

    ghost predicate MenusKeyed()
      reads this`menus
    {
      forall id :: id in menus ==> menus[id].id == id
    }

    constructor ()
      ensures Valid()
      ensures users == [] && userRoles == map[] && roles == map[] && roleMenus == map[]
      ensures roleOffices == map[] && menus == map[]
      ensures cachedById == map[] && cachedByLoginName == map[] && cachedByOffice == map[]
      ensures officeQueries == 0
    {
      users, userRoles, roles, roleMenus, roleOffices, menus := [], map[], map[], map[], map[], map[];
      cachedById, cachedByLoginName, cachedByOffice := map[], map[], map[];
      officeQueries := 0;
    }

    /** `findUserByOfficeId(officeId)`: cache-aside. A cached list is returned
        without a query; on a miss the DAO is queried once and its answer is
        cached, so the next call is a hit returning the same list. */
    method FindUserByOfficeId(officeId: string) returns (list: seq<UserRow>)
      modifies this`cachedByOffice, this`officeQueries
      ensures officeId in old(cachedByOffice) ==>
                list == old(cachedByOffice)[officeId] && cachedByOffice == old(cachedByOffice)
                && officeQueries == old(officeQueries)
      ensures officeId !in old(cachedByOffice) ==>
                list == UsersInOffice(users, officeId) && cachedByOffice == old(cachedByOffice)[officeId := list]
                && officeQueries == old(officeQueries) + 1
      ensures officeId in cachedByOffice && cachedByOffice[officeId] == list
    {
      if officeId in cachedByOffice {
        list := cachedByOffice[officeId];
      } else {
        list := UsersInOffice(users, officeId);
        officeQueries := officeQueries + 1;
        cachedByOffice := cachedByOffice[officeId := list];
      }
    }

    /** `UserUtils.clearCache(user)`: drops the user's entries by id and by
        login name and the list of the user's office. */
    method ClearUserCache(row: UserRow)
      modifies this`cachedById, this`cachedByLoginName, this`cachedByOffice
      ensures cachedById == old(cachedById) - {row.id}
      ensures cachedByLoginName == old(cachedByLoginName) - {row.loginName}
      ensures cachedByOffice == if row.officeId.Some? then old(cachedByOffice) - {row.officeId.value} else old(cachedByOffice)
    {
      cachedById := cachedById - {row.id};
      cachedByLoginName := cachedByLoginName - {row.loginName};
      if row.officeId.Some? {
        cachedByOffice := cachedByOffice - {row.officeId.value};
      }
    }

    /** The user-side tables as one value. */
    function UserSide(): UserTables
      reads this`users, this`userRoles, this`cachedById, this`cachedByLoginName, this`cachedByOffice
    {
      UserTables(users, userRoles, cachedById, cachedByLoginName, cachedByOffice)
    }

    /** The write of `saveUser`: a blank id takes the generated id and the row
        is inserted; any other id must name an existing row, whose office's
        cached list is dropped before the row is updated. */
    method WriteUserRow(user: User, freshId: string) returns (error: Option<ServiceError>)
      requires Valid()
      modifies this`users, this`cachedByOffice, user`id
      ensures Valid()
      ensures user.id == SavedId(old(user.id), freshId)
      ensures error == WriteError(old(users), old(user.id), freshId)
      ensures users == if error.Some? then old(users) else WrittenRows(old(users), old(user.id), user.Row())
      ensures cachedByOffice == if error.Some? then old(cachedByOffice)
                                else OfficeListsAfterWrite(old(users), old(user.id), old(cachedByOffice))
    {
      if IsBlank(user.id) {
        user.id := freshId;
        if FindUser(users, user.id).Some? {
          return Some(DuplicateKey(user.id));
        }
        AppendKeepsUnique(users, user.Row());
        users := users + [user.Row()];
      } else {
        var oldUser := FindUser(users, user.id);
        if oldUser.None? {
          return Some(UserNotFound(user.id));
        }
        if oldUser.value.officeId.Some? {
          cachedByOffice := cachedByOffice - {oldUser.value.officeId.value};
        }
        UpdateKeepsUnique(users, user.Row());
        users := UpdateUser(users, user.Row());
      }
      error := None;
    }

    /** The second half of `saveUser`, for a user with a non-blank id: the
        role links are deleted, then replaced by the ids of the role list,
        which must not be empty; then the user's cache entries are cleared. */
    method LinkUserRoles(user: User) returns (outcome: Outcome<ServiceError>)
      requires Valid() && !IsBlank(user.id)
      modifies this`userRoles, this`cachedById, this`cachedByLoginName, this`cachedByOffice
      ensures Valid()
      ensures userRoles == ReplaceLinks(old(userRoles), user.id, RoleIds(user.roleList))
      ensures |user.roleList| == 0 ==>
                outcome == Fail(NoRoleAssigned(user.loginName))
                && cachedById == old(cachedById) && cachedByLoginName == old(cachedByLoginName)
                && cachedByOffice == old(cachedByOffice)
      ensures |user.roleList| > 0 ==>
                outcome == Pass
                && cachedById == old(cachedById) - {user.id}
                && cachedByLoginName == old(cachedByLoginName) - {user.loginName}
                && cachedByOffice == (if user.officeId.Some? then old(cachedByOffice) - {user.officeId.value}
                                      else old(cachedByOffice))
    {
      userRoles := userRoles - {user.id};
      if |user.roleList| > 0 {
        userRoles := userRoles[user.id := LinkSet(RoleIds(user.roleList))];
      } else {
        return Fail(NoRoleAssigned(user.loginName));
      }
      ClearUserCache(user.Row());
      outcome := Pass;
    }

    /** `saveUser(user)`: the user takes the saved id, and the tables and the
        outcome are those of SaveUserSpec. */
    method SaveUser(user: User, freshId: string) returns (outcome: Outcome<ServiceError>)
      requires Valid()
      modifies this`users, this`userRoles, this`cachedById, this`cachedByLoginName, this`cachedByOffice, user`id
      ensures Valid()
      ensures user.id == SavedId(old(user.id), freshId)
      ensures Saved(UserSide(), outcome) == SaveUserSpec(old(UserSide()), old(user.Row()), user.roleList, freshId)
    {
      var error := WriteUserRow(user, freshId);
      if error.Some? {
        outcome := Fail(error.value);
      } else if IsBlank(user.id) {
        outcome := Pass;
      } else {
        outcome := LinkUserRoles(user);
      }
    }

    /** `outUserInRole(role, user)`: removes the first role with the given id
        and saves the user (true), or leaves everything as it is (false). */
    method OutUserInRole(role: Role, user: User, freshId: string) returns (r: Result<bool, ServiceError>)
      requires Valid()
      modifies this`users, this`userRoles, this`cachedById, this`cachedByLoginName, this`cachedByOffice
      modifies user`id, user`roleList
      ensures Valid()
      ensures !HasRole(old(user.roleList), role.id) ==>
                r == Success(false) && user.roleList == old(user.roleList) && user.id == old(user.id)
                && UserSide() == old(UserSide())
      ensures HasRole(old(user.roleList), role.id) ==>
                var k := FirstRoleIndex(old(user.roleList), role.id);
                && user.roleList == old(user.roleList)[..k] + old(user.roleList)[k + 1..]
                && user.id == SavedId(old(user.id), freshId)
                && (r.Success? ==> r.value)
                && Saved(UserSide(), if r.Success? then Pass else Fail(r.error))
                   == SaveUserSpec(old(UserSide()), old(user.Row()), user.roleList, freshId)
    {
      var found, k := FindRole(user.roleList, role.id);
      if !found {
        return Success(false);
      }
      user.roleList := user.roleList[..k] + user.roleList[k + 1..];
      var outcome := SaveUser(user, freshId);
      r := if outcome.Pass? then Success(true) else Failure(outcome.error);
    }

    /** `assignUserToRole(role, user)`: null for a null user or one that already
        has the role id; otherwise appends the role, saves and returns the user. */
    method AssignUserToRole(role: Role, user: User?, freshId: string) returns (r: Result<Option<User>, ServiceError>)
      requires Valid()
      modifies this`users, this`userRoles, this`cachedById, this`cachedByLoginName, this`cachedByOffice
      modifies user
      ensures Valid()
      ensures user == null || role.id in old(RoleIds(user.roleList)) ==>
                r == Success(None) && UserSide() == old(UserSide())
      ensures user != null && role.id in old(RoleIds(user.roleList)) ==>
                user.roleList == old(user.roleList) && user.id == old(user.id)
      ensures user != null ==>
                user.loginName == old(user.loginName) && user.officeId == old(user.officeId)
                && user.loginIp == old(user.loginIp) && user.loginDate == old(user.loginDate)
                && user.oldLoginIp == old(user.oldLoginIp) && user.oldLoginDate == old(user.oldLoginDate)
      ensures user != null && role.id !in old(RoleIds(user.roleList)) ==>
                && user.roleList == old(user.roleList) + [role]
                && user.id == SavedId(old(user.id), freshId)
                && (r.Success? ==> r.value == Some(user))
                && Saved(UserSide(), if r.Success? then Pass else Fail(r.error))
                   == SaveUserSpec(old(UserSide()), old(user.Row()), user.roleList, freshId)
    {
      if user == null {
        return Success(None);
      }
      var roleIds := RoleIds(user.roleList);
      if role.id in roleIds {
        return Success(None);
      }
      user.roleList := user.roleList + [role];
      var outcome := SaveUser(user, freshId);
      r := if outcome.Pass? then Success(Some(user)) else Failure(outcome.error);
    }

    /** `updateUserLoginInfo(user)`: the current login becomes the previous one,
        the request's address and the current time become the current one, and
        the login columns of the user's row are written. */
    method UpdateUserLoginInfo(user: User, remoteAddr: string, now: int)
      requires Valid()
      modifies this`users, user
      ensures Valid()
      ensures user.oldLoginIp == old(user.loginIp) && user.oldLoginDate == old(user.loginDate)
      ensures user.loginIp == Some(remoteAddr) && user.loginDate == Some(now)
      ensures user.id == old(user.id) && user.loginName == old(user.loginName)
      ensures user.officeId == old(user.officeId) && user.roleList == old(user.roleList)
      ensures users == SetLoginInfo(old(users), user.id, Some(remoteAddr), Some(now))
    {
      user.oldLoginIp := user.loginIp;
      user.oldLoginDate := user.loginDate;
      user.loginIp := Some(remoteAddr);
      user.loginDate := Some(now);
      SetLoginInfoKeepsUnique(users, user.id, user.loginIp, user.loginDate);
      users := SetLoginInfo(users, user.id, user.loginIp, user.loginDate);
    }

    /** `saveRole(role)`: insert under a generated id or update, then replace
        the role's menu links and office links by the role's lists. Returns
        the role with its id set. */
    method SaveRole(role: Role, freshId: string) returns (r: Result<Role, ServiceError>)
      requires Valid()
      modifies this`roles, this`roleMenus, this`roleOffices
      ensures Valid()
      ensures IsBlank(role.id) && freshId in old(roles) ==>
                r == Failure(DuplicateKey(freshId))
                && roles == old(roles) && roleMenus == old(roleMenus) && roleOffices == old(roleOffices)
      ensures !(IsBlank(role.id) && freshId in old(roles)) ==>
                r == Success(role.(id := if IsBlank(role.id) then freshId else role.id))
      ensures r.Success? ==>
                roles == if IsBlank(role.id) || role.id in old(roles)
                         then old(roles)[r.value.id := RoleRow(r.value.id, role.name, role.enname)]
                         else old(roles)
      ensures r.Success? ==> roleMenus == ReplaceLinks(old(roleMenus), r.value.id, role.menuIds)
      ensures r.Success? ==> roleOffices == ReplaceLinks(old(roleOffices), r.value.id, role.officeIds)
    {
      var saved := role.(id := SavedId(role.id, freshId));
      if IsBlank(role.id) && saved.id in roles {
        r := Failure(DuplicateKey(saved.id));
      } else {
        if IsBlank(role.id) || saved.id in roles {
          roles := roles[saved.id := RoleRow(saved.id, saved.name, saved.enname)];
        }
        roleMenus := ReplaceLinks(roleMenus, saved.id, saved.menuIds);
        roleOffices := ReplaceLinks(roleOffices, saved.id, saved.officeIds);
        r := Success(saved);
      }
    }

    /** The loop of `saveMenu`: every menu whose path names `id` gets each
        occurrence of the old path replaced by the new one. */
    method RebaseDescendants(id: string, oldPath: string, newPath: string)
      modifies this`menus
      ensures menus == Cascade(old(menus), id, oldPath, newPath)
    {
      var matched := set k | k in menus && IsUnder(menus[k], id);
      var todo := matched;
      while todo != {}
        invariant todo <= matched
        invariant menus.Keys == old(menus).Keys
        invariant forall k :: k in old(menus) ==>
                    menus[k] == if k in matched && k !in todo then Rebased(old(menus)[k], oldPath, newPath)
                                else old(menus)[k]
        decreases todo
      {
        var k :| k in todo;
        menus := menus[k := Rebased(menus[k], oldPath, newPath)];
        todo := todo - {k};
      }
      assert menus == Cascade(old(menus), id, oldPath, newPath);
    }

    /**
     * `saveMenu(menu)`: looks the parent up, gives the menu the path
     * parent.parentIds + parent.id + ",", inserts or updates it, then
     * rewrites every menu whose path names the menu, replacing each
     * occurrence of the menu's previous path by the new one.
     */
    method SaveMenu(menu: Menu, freshId: string) returns (r: Result<Menu, ServiceError>)
      requires Valid()
      modifies this`menus
      ensures Valid()
      ensures menu.parentId !in old(menus) ==> r == Failure(MenuNotFound(menu.parentId)) && menus == old(menus)
      ensures menu.parentId in old(menus) && IsBlank(menu.id) && freshId in old(menus) ==>
                r == Failure(DuplicateKey(freshId)) && menus == old(menus)
      ensures menu.parentId in old(menus) && !(IsBlank(menu.id) && freshId in old(menus)) ==>
                r == Success(menu.(id := if IsBlank(menu.id) then freshId else menu.id,
                                   parentIds := ChildPath(old(menus)[menu.parentId])))
      ensures r.Success? ==> r.value.parentIds == old(menus)[menu.parentId].parentIds + menu.parentId + ","
      ensures r.Success? ==>
                menus == Cascade(WriteMenu(old(menus), r.value, IsBlank(menu.id)), r.value.id, menu.parentIds, r.value.parentIds)
    {
      if menu.parentId !in menus {
        return Failure(MenuNotFound(menu.parentId));
      }
      var parent := menus[menu.parentId];
      var oldParentIds := menu.parentIds;
      var saved := menu.(parentIds := parent.parentIds + parent.id + ",");
      if IsBlank(menu.id) {
        saved := saved.(id := freshId);
        if saved.id in menus {
          return Failure(DuplicateKey(saved.id));
        }
        menus := menus[saved.id := saved];
      } else if saved.id in menus {
        menus := menus[saved.id := saved];
      }
      ghost var written := menus;
      RebaseDescendants(saved.id, oldParentIds, saved.parentIds);
      CascadeFrame(written, saved.id, oldParentIds, saved.parentIds);
      r := Success(saved);
    }
  }

  /** Two lookups of the same office with no save in between: the second is
      answered from the cache with the same list and no further query. */
  method RepeatedOfficeLookup(service: SystemService, officeId: string)
    modifies service
  {
    var first := service.FindUserByOfficeId(officeId);
    var queries := service.officeQueries;
    var second := service.FindUserByOfficeId(officeId);
    assert second == first && service.officeQueries == queries;
  }

  /** An existing user saved with a new office: the next lookups list the
      user under the new office and no longer under the old one. */
  method MoveUserBetweenOffices(service: SystemService, user: User, freshId: string, from: string)
      returns (fromList: seq<UserRow>, toList: seq<UserRow>)
    requires service.Valid()
    requires !IsBlank(user.id) && |user.roleList| > 0
    requires FindUser(service.users, user.id).Some? && FindUser(service.users, user.id).value.officeId == Some(from)
    requires user.officeId.Some? && user.officeId.value != from
    modifies service, user
    ensures user.Row() in toList
    ensures forall u :: u in fromList ==> u.id != user.id
  {
    var outcome := service.SaveUser(user, freshId);
    SaveUserDropsOfficeLists(old(service.UserSide()), old(user.Row()), user.roleList, freshId, from);
    UpdatedUserChangesOffice(old(service.users), user.Row());
    fromList := service.FindUserByOfficeId(from);
    toList := service.FindUserByOfficeId(user.officeId.value);
  }
}
