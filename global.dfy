/**
 * `Global`: the application-wide configuration. `getConfig` reads a key
 * from the properties file once and memoises what it read (or "" when the
 * key is missing) in a static map; the accessors derive paths and flags from
 * it; `getConst` exposes the public string constants by name.
 *
 * The static state becomes one `Global` object; the properties file is the
 * fixed map `loader`.
 */
module Config {
  import opened Wrappers
  import opened Strings

  // The public constants of Global.
  const Show: string := "1"
  const Hide: string := "0"
  const Yes: string := "1"
  const No: string := "0"
  const True: string := "true"
  const False: string := "false"
  const UserfilesBaseUrl: string := "/userfiles/"

  /** What one `getConfig` call returns, and the memo map after it. */
  datatype ConfigRead = ConfigRead(value: Option<string>, memo: map<string, string>)

  /**
   * One `getConfig(key)` call on memo map `memo`: a key already in the map
   * is answered from it; otherwise the loader is read, the value (or ""
   * when the loader has none) is recorded, and what the loader gave is
   * returned, which is null for a missing key.
   */
  function ReadConfig(memo: map<string, string>, loader: map<string, string>, key: string): ConfigRead {
    if key in memo then ConfigRead(Some(memo[key]), memo)
    else if key in loader then ConfigRead(Some(loader[key]), memo[key := loader[key]])
    else ConfigRead(None, memo[key := ""])
  }

  /** Every memoised entry is what the loader holds for it, or "" for a key
      the loader does not have. */
  ghost predicate Coherent(memo: map<string, string>, loader: map<string, string>) {
    forall key :: key in memo ==> memo[key] == (if key in loader then loader[key] else "")
  }

  /** The memo only grows: the key is added and no existing entry changes. */
  lemma ReadConfigOnlyAdds(memo: map<string, string>, loader: map<string, string>, key: string)
    ensures ReadConfig(memo, loader, key).memo.Keys == memo.Keys + {key}
    ensures forall k :: k in memo ==> ReadConfig(memo, loader, key).memo[k] == memo[k]
    ensures key !in memo ==> ReadConfig(memo, loader, key).memo[key] == (if key in loader then loader[key] else "")
  {
  }

  /** After a first read, later reads of the same key are answered from the
      memo: they return the recorded value, leave the memo as it is and give
      the same answer whatever the loader holds. */
  lemma ReadConfigIsMemoised(memo: map<string, string>, loader: map<string, string>, other: map<string, string>, key: string)
    ensures var first := ReadConfig(memo, loader, key);
            && ReadConfig(first.memo, loader, key) == ConfigRead(Some(first.memo[key]), first.memo)
            && ReadConfig(first.memo, other, key) == ReadConfig(first.memo, loader, key)
            && (first.value.Some? ==> ReadConfig(first.memo, loader, key).value == first.value)
  {
  }

  /** A key the properties do not define reads as null the first time and as
      "" every time after. */
  lemma MissingKeyReadsNullThenEmpty(memo: map<string, string>, loader: map<string, string>, key: string)
    requires key !in memo && key !in loader
    ensures ReadConfig(memo, loader, key).value == None
    ensures ReadConfig(ReadConfig(memo, loader, key).memo, loader, key).value == Some("")
  {
  }

  /** Reading keeps the memo coherent with the loader, and under a coherent
      memo the answer is the loader's value; only a missing key depends on
      history (null before the first read, "" after). */
  lemma ReadConfigAgreesWithLoader(memo: map<string, string>, loader: map<string, string>, key: string)
    requires Coherent(memo, loader)
    ensures Coherent(ReadConfig(memo, loader, key).memo, loader)
    ensures ReadConfig(memo, loader, key).value ==
              if key in loader then Some(loader[key])
              else if key in memo then Some("")
              else None
  {
  }

  /** `"true".equals(v) || "1".equals(v)`, as `isDemoMode` and
      `isSynActivitiIndetity` test the configured value. */
  predicate IsTrueFlag(v: Option<string>) {
    v == Some(True) || v == Some(Yes)
  }

  /** Under a coherent memo, a flag is on exactly when the properties set it
      to "true" or "1"; the memo's history does not matter. */
  lemma FlagFollowsLoader(memo: map<string, string>, loader: map<string, string>, key: string)
    requires Coherent(memo, loader)
    ensures IsTrueFlag(ReadConfig(memo, loader, key).value)
        <==> key in loader && (loader[key] == "true" || loader[key] == "1")
  {
    ReadConfigAgreesWithLoader(memo, loader, key);
  }

  /** The exception `getUserfilesBaseDir` throws when getConfig returns null. */
  datatype ConfigError = NullConfigValue(key: string)

  const UserfilesBaseDirKey: string := "userfiles.basedir"

  /** `getUserfilesBaseDir` given what getConfig returned: a `/` is appended
      unless the value already ends with one. */
  function UserfilesBaseDir(dir: Option<string>): (r: Result<string, ConfigError>)
    ensures dir.None? <==> r.Failure?
    ensures r.Success? ==> EndsWith(r.value, "/")
    ensures r.Success? ==> (r.value == dir.value <==> EndsWith(dir.value, "/"))
    ensures r.Success? && r.value != dir.value ==> r.value == dir.value + "/"
  {
    match dir
    case None => Failure(NullConfigValue(UserfilesBaseDirKey))
    case Some(d) => Success(if EndsWith(d, "/") then d else d + "/")
  }

  /** Under a coherent memo the base directory is only unavailable on the
      first read of a key the properties lack; otherwise it is the configured
      value with a trailing `/`. */
  lemma UserfilesBaseDirFromLoader(memo: map<string, string>, loader: map<string, string>)
    requires Coherent(memo, loader)
    ensures var r := UserfilesBaseDir(ReadConfig(memo, loader, UserfilesBaseDirKey).value);
            && (r.Failure? <==> UserfilesBaseDirKey !in loader && UserfilesBaseDirKey !in memo)
            && (UserfilesBaseDirKey in loader ==>
                  r.Success? && EndsWith(r.value, "/") && StartsWith(r.value, loader[UserfilesBaseDirKey]))
  {
    ReadConfigAgreesWithLoader(memo, loader, UserfilesBaseDirKey);
    if UserfilesBaseDirKey in loader {
      var d := loader[UserfilesBaseDirKey];
      assert (d + "/")[..|d|] == d;
    }
  }

  /** The names `getConst` resolves: the public static fields of Global. */
  const ConstNames: set<string> := {"SHOW", "HIDE", "YES", "NO", "TRUE", "FALSE", "USERFILES_BASE_URL"}

  /** `getConst(field)`: the value of the public constant of that name, or
      null when reflection finds no such public field. */
  function GetConst(field: string): (r: Option<string>)
    ensures r.Some? <==> field in ConstNames
    ensures field == "SHOW" ==> r == Some(Show)
    ensures field == "HIDE" ==> r == Some(Hide)
    ensures field == "YES" ==> r == Some(Yes)
    ensures field == "NO" ==> r == Some(No)
    ensures field == "TRUE" ==> r == Some(True)
    ensures field == "FALSE" ==> r == Some(False)
    ensures field == "USERFILES_BASE_URL" ==> r == Some(UserfilesBaseUrl)
  {
    match field
    case "SHOW" => Some(Show)
    case "HIDE" => Some(Hide)
    case "YES" => Some(Yes)
    case "NO" => Some(No)
    case "TRUE" => Some(True)
    case "FALSE" => Some(False)
    case "USERFILES_BASE_URL" => Some(UserfilesBaseUrl)
    case _ => None
  }

  /** The static state of Global: the memo map and the loaded properties. */
  class Global {
    /** `Global.map`. */
    var memo: map<string, string>
    /** The contents of jeesite.properties. */
    const loader: map<string, string>

    ghost predicate Valid()
      reads this
    {
      Coherent(memo, loader)
    }

    constructor (properties: map<string, string>)
      ensures Valid()
      ensures memo == map[] && loader == properties
    {
      memo := map[];
      loader := properties;
    }

    /** `getConfig(key)`. */
    method GetConfig(key: string) returns (value: Option<string>)
      requires Valid()
      modifies this
      ensures Valid()
      ensures value == ReadConfig(old(memo), loader, key).value
      ensures memo == ReadConfig(old(memo), loader, key).memo
    {
      if key in memo {
        value := Some(memo[key]);
      } else {
        value := if key in loader then Some(loader[key]) else None;
        memo := memo[key := if value.Some? then value.value else ""];
      }
      ReadConfigAgreesWithLoader(old(memo), loader, key);
    }

    /** `getAdminPath()`. */
    method GetAdminPath() returns (value: Option<string>)
      requires Valid()
      modifies this
      ensures Valid()
      ensures value == ReadConfig(old(memo), loader, "adminPath").value
      ensures memo == ReadConfig(old(memo), loader, "adminPath").memo
    {
      value := GetConfig("adminPath");
    }

    /** `getFrontPath()`. */
    method GetFrontPath() returns (value: Option<string>)
      requires Valid()
      modifies this
      ensures Valid()
      ensures value == ReadConfig(old(memo), loader, "frontPath").value
      ensures memo == ReadConfig(old(memo), loader, "frontPath").memo
    {
      value := GetConfig("frontPath");
    }

    /** `getUrlSuffix()`. */
    method GetUrlSuffix() returns (value: Option<string>)
      requires Valid()
      modifies this
      ensures Valid()
      ensures value == ReadConfig(old(memo), loader, "urlSuffix").value
      ensures memo == ReadConfig(old(memo), loader, "urlSuffix").memo
    {
      value := GetConfig("urlSuffix");
    }

    /** `isDemoMode()`: on exactly when the properties set demoMode to "true" or "1". */
    method IsDemoMode() returns (on: bool)
      requires Valid()
      modifies this
      ensures Valid()
      ensures memo == ReadConfig(old(memo), loader, "demoMode").memo
      ensures on <==> "demoMode" in loader && (loader["demoMode"] == "true" || loader["demoMode"] == "1")
    {
      var dm := GetConfig("demoMode");
      on := IsTrueFlag(dm);
      FlagFollowsLoader(old(memo), loader, "demoMode");
    }

    /** `isSynActivitiIndetity()`, the same test on another key. */
    method IsSynActivitiIndetity() returns (on: bool)
      requires Valid()
      modifies this
      ensures Valid()
      ensures memo == ReadConfig(old(memo), loader, "activiti.isSynActivitiIndetity").memo
      ensures on <==> "activiti.isSynActivitiIndetity" in loader
                      && (loader["activiti.isSynActivitiIndetity"] == "true"
                          || loader["activiti.isSynActivitiIndetity"] == "1")
    {
      var dm := GetConfig("activiti.isSynActivitiIndetity");
      on := IsTrueFlag(dm);
      FlagFollowsLoader(old(memo), loader, "activiti.isSynActivitiIndetity");
    }

    /** `getUserfilesBaseDir()`. */
    method GetUserfilesBaseDir() returns (dir: Result<string, ConfigError>)
      requires Valid()
      modifies this
      ensures Valid()
      ensures memo == ReadConfig(old(memo), loader, UserfilesBaseDirKey).memo
      ensures dir == UserfilesBaseDir(ReadConfig(old(memo), loader, UserfilesBaseDirKey).value)
      ensures dir.Failure? <==> UserfilesBaseDirKey !in loader && UserfilesBaseDirKey !in old(memo)
      ensures dir.Success? ==> EndsWith(dir.value, "/")
    {
      var value := GetConfig(UserfilesBaseDirKey);
      dir := UserfilesBaseDir(value);
      UserfilesBaseDirFromLoader(old(memo), loader);
    }
  }

  /** Two consecutive reads of a key the properties lack: null, then "". */
  method MissingKeyScenario(key: string)
  {
    var g := new Global(map[]);
    var first := g.GetConfig(key);
    var second := g.GetConfig(key);
    assert first == None && second == Some("");
  }
}
