/**
 Decoded JSON, with object members kept in document order as encoding/json meets them.
 */
module Json {
  import opened Sequences

  datatype Json =
    | JNull
    | JBool(b: bool)
    | JNumber(text: string)
    | JString(s: string)
    | JArray(items: seq<Json>)
    | JObject(members: seq<Member>)

  datatype Member = Member(key: string, value: Json)

  /** Decoding members into a map: of repeated keys the last one stays. */
  function AsMap(members: seq<Member>): map<string, Json> {
    if members == [] then map[]
    else AsMap(members[..|members| - 1])[members[|members| - 1].key := members[|members| - 1].value]
  }

  /** Unmarshalling into map[string]json.RawMessage: an object gives its members, null gives a nil
      map and no error, anything else is an error. */
  datatype Fields = Members(m: map<string, Json>) | NilMap | NotAnObject

  function FieldsOf(v: Json): Fields {
    match v
    case JObject(members) => Members(AsMap(members))
    case JNull => NilMap
    case _ => NotAnObject
  }

  /** Reading a key of that map; a nil map has none. */
  function Lookup(f: Fields, key: string): Option<Json> {
    if f.Members? && key in f.m then Some(f.m[key]) else None
  }

  /** The value found by following keys through objects. */
  function At(v: Json, path: seq<string>): Option<Json>
    decreases |path|
  {
    if path == [] then Some(v)
    else
      match Lookup(FieldsOf(v), path[0])
      case None => None
      case Some(inner) => At(inner, path[1..])
  }

  /** The last of the members with its key. */
  ghost predicate IsLast(members: seq<Member>, i: nat) {
    i < |members| && forall k :: i < k < |members| ==> members[k].key != members[i].key
  }

  /** An object has under a key what the last of its members with that key holds. */
  lemma {:induction false} LastMemberStays(members: seq<Member>, key: string, v: Json)
    ensures At(JObject(members), [key]) == Some(v) <==>
      exists i: nat :: IsLast(members, i) && members[i] == Member(key, v)
  {
    assert [key][1..] == [];
    if members != [] {
      var front, last := members[..|members| - 1], members[|members| - 1];
      LastMemberStays(front, key, v);
      assert IsLast(members, |front|);
      if last.key != key {
        forall i: nat | i < |front| && members[i].key == key
          ensures IsLast(members, i) <==> IsLast(front, i)
        {
          assert members[i] == front[i];
        }
      }
    }
  }
}
