/** Lookups in JSON values (tinyjson.h:165-191).  Absent values stand for C null pointers. */
module JsonAccess {
  import opened Wrappers
  import opened Json

  /** cJSON_GetObjectItem: the first member with that key. */
  function GetItem(v: Option<Value>, key: string): Option<Value> {
    if v.Some? && v.value.Obj? then FirstWith(v.value.members, key) else None
  }

  function FirstWith(members: seq<Member>, key: string): (r: Option<Value>)
    ensures r.Some? ==> exists i :: 0 <= i < |members| && members[i] == Member(key, r.value)
  {
    if members == [] then None
    else if members[0].key == key then
      assert members[0] == Member(key, members[0].value);
      Some(members[0].value)
    else
      var r := FirstWith(members[1..], key);
      assert r.Some? ==> forall i | 0 <= i < |members[1..]| :: members[1..][i] == members[i + 1];
      r
  }

  /** cJSON_GetStringValue. */
  function StringOf(v: Option<Value>): Option<string> {
    if v.Some? && v.value.Str? then Some(v.value.s) else None
  }

  function StringAt(v: Option<Value>, key: string): Option<string> { StringOf(GetItem(v, key)) }

  /** cJSON_GetArraySize: children of arrays and of objects. */
  function Size(v: Option<Value>): nat {
    if v.None? then 0
    else
      match v.value
      case Arr(items) => |items|
      case Obj(members) => |members|
      case _ => 0
  }

  /** Does this value have the given string under the key? */
  predicate Says(v: Value, key: string, s: string) { StringAt(Some(v), key) == Some(s) }
}
