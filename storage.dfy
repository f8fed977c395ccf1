/**
 * The per-user key-value store. Keys are built by `getUserStorageKey`; values
 * are the three kinds of JSON document the planner writes (a task list, a
 * timeline, a settings object), kept here as typed values.
 */
module Storage {
  import opened Wrappers
  import opened Tasks

  /** A settings value: the theme name or a flag such as `notificationBannerDismissed`. */
  datatype SettingValue = Text(text: string) | Flag(flag: bool)

  datatype Stored =
    | TaskList(tasks: seq<Task>)
    | Log(entries: seq<TimelineEntry>)
    | Settings(values: map<string, SettingValue>)

  type Store = map<string, Stored>

  const Prefix: string := "studyPlanner_"

  /** The id part of a key: the signed-in user's id, or "guest" without one. */
  function UserPart(userId: Option<string>): string {
    userId.GetOr("guest")
  }

  /** `getUserStorageKey(key)`: `studyPlanner_<id>_<key>`. */
  function StorageKey(userId: Option<string>, key: string): string {
    Prefix + UserPart(userId) + "_" + key
  }

  /** The key strings `clearAllData` spells out itself; they are the keys of the three documents. */
  function ClearedKeys(userId: Option<string>): (r: seq<string>)
    ensures r == [StorageKey(userId, "tasks"), StorageKey(userId, "timeline"), StorageKey(userId, "settings")]
  {
    var id := if userId.Some? then userId.value else "guest";
    var r := ["studyPlanner_" + id + "_tasks", "studyPlanner_" + id + "_timeline", "studyPlanner_" + id + "_settings"];
    assert id == UserPart(userId);
    assert r[0] == StorageKey(userId, "tasks") by { SpellOut(id, "tasks"); }
    assert r[1] == StorageKey(userId, "timeline") by { SpellOut(id, "timeline"); }
    assert r[2] == StorageKey(userId, "settings") by { SpellOut(id, "settings"); }
    r
  }

  lemma SpellOut(id: string, key: string)
    ensures "studyPlanner_" + id + ("_" + key) == Prefix + id + "_" + key
  {
    var a := "studyPlanner_" + id + ("_" + key);
    var b := Prefix + id + "_" + key;
    assert |a| == |b|;
    forall i | 0 <= i < |a| ensures a[i] == b[i] {
      if i < |Prefix| + |id| {} else if i == |Prefix| + |id| {} else {}
    }
  }

  /** For one user, different logical keys give different storage keys. */
  lemma SameUserKeysDistinct(userId: Option<string>, k1: string, k2: string)
    requires k1 != k2
    ensures StorageKey(userId, k1) != StorageKey(userId, k2)
  {
    var n := |Prefix + UserPart(userId) + "_"|;
    assert StorageKey(userId, k1)[n..] == k1;
    assert StorageKey(userId, k2)[n..] == k2;
  }

  /** In `x + "_" + k` with no underscore in `x`, the first underscore is at `|x|`. */
  lemma FirstUnderscore(x: string, k: string, t: string)
    requires '_' !in x && t == x + "_" + k
    ensures |x| < |t| && t[|x|] == '_'
    ensures forall i | 0 <= i < |x| :: t[i] != '_'
  {
    forall i | 0 <= i < |x| ensures t[i] != '_' {
      assert t[i] == x[i];
    }
  }

  /**
   * Ids without an underscore (the source's ids are decimal timestamps, and
   * "guest") keep users apart: equal storage keys mean the same user and key.
   */
  lemma KeysSeparateUsers(u1: Option<string>, k1: string, u2: Option<string>, k2: string)
    requires '_' !in UserPart(u1) && '_' !in UserPart(u2)
    requires StorageKey(u1, k1) == StorageKey(u2, k2)
    ensures UserPart(u1) == UserPart(u2) && k1 == k2
  {
    var a, b := UserPart(u1), UserPart(u2);
    var s := StorageKey(u1, k1);
    var n := |Prefix|;
    assert s[n..] == a + "_" + k1;
    assert s[n..] == b + "_" + k2;
    var t := s[n..];
    FirstUnderscore(a, k1, t);
    FirstUnderscore(b, k2, t);
    assert t[..|a|] == a;
    assert t[..|b|] == b;
    assert t[|a| + 1..] == k1;
    assert t[|b| + 1..] == k2;
  }

  /** `JSON.parse(localStorage.getItem(userKey) || '{}')` for the settings document. */
  function ReadSettings(store: Store, userKey: string): map<string, SettingValue> {
    if userKey in store && store[userKey].Settings? then store[userKey].values else map[]
  }

  /** `settings[key]` of `loadUserSetting`: absent when the document or the key is missing. */
  function LoadSetting(store: Store, userKey: string, key: string): (r: Option<SettingValue>)
    ensures r.Some? <==> key in ReadSettings(store, userKey)
  {
    var settings := ReadSettings(store, userKey);
    if key in settings then Some(settings[key]) else None
  }

  /**
   * `saveUserSetting`: read the settings document, set one key, write it back.
   * The key now reads back as `value`, every other setting reads as before,
   * and every other document of the store is untouched.
   */
  function SaveSetting(store: Store, userKey: string, key: string, value: SettingValue): (r: Store)
    ensures LoadSetting(r, userKey, key) == Some(value)
    ensures forall k | k != key :: LoadSetting(r, userKey, k) == LoadSetting(store, userKey, k)
    ensures r.Keys == store.Keys + {userKey}
    ensures forall k | k in store && k != userKey :: r[k] == store[k]
  {
    store[userKey := Settings(ReadSettings(store, userKey)[key := value])]
  }

  /** The task list stored under `key` (`JSON.parse(... || '[]')`), empty when there is none. */
  function TasksAt(store: Store, key: string): seq<Task> {
    if key in store && store[key].TaskList? then store[key].tasks else []
  }

  function TimelineAt(store: Store, key: string): seq<TimelineEntry> {
    if key in store && store[key].Log? then store[key].entries else []
  }
}
