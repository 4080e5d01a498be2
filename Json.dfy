/**
 * Decoded JSON values (serde_json's `Value`).  An object is the sequence of
 * its members in decoded order; numbers are kept as their literal text and
 * never interpreted.
 */
module Json {
  import opened Wrappers

  datatype Json =
    | JNull
    | JBool(b: bool)
    | JNumber(literal: string)
    | JString(str: string)
    | JArray(items: seq<Json>)
    | JObject(fields: seq<(string, Json)>)

  /** Some member of the object is named `key`. */
  ghost predicate HasKey(fields: seq<(string, Json)>, key: string)
  {
    exists i :: 0 <= i < |fields| && fields[i].0 == key
  }

  /** `i` is the position of the member named `key`: the first one of that name. */
  ghost predicate KeyAt(fields: seq<(string, Json)>, key: string, i: nat)
  {
    i < |fields| && fields[i].0 == key && forall j :: 0 <= j < i ==> fields[j].0 != key
  }

  lemma {:induction false} KeyAtUnique(fields: seq<(string, Json)>, key: string, i: nat, j: nat)
    requires KeyAt(fields, key, i) && KeyAt(fields, key, j)
    ensures i == j
  {
  }

  /** The position of the member named `key`, as `Map::get` finds it. */
  function Lookup(fields: seq<(string, Json)>, key: string): (r: Option<nat>)
    ensures r.None? <==> !HasKey(fields, key)
    ensures r.Some? ==> KeyAt(fields, key, r.value)
  {
    if fields == [] then None
    else if fields[0].0 == key then Some(0)
    else match Lookup(fields[1..], key)
      case None => None
      case Some(i) => Some(i + 1)
  }

  /** The member named `key` exists and holds a string. */
  ghost predicate StringField(fields: seq<(string, Json)>, key: string)
  {
    exists i: nat :: KeyAt(fields, key, i) && fields[i].1.JString?
  }
}
