/**
 What `showmeshctl config set` sends for a given input (cmd/showmeshctl/cmd_config.go).
 */
module ConfigSet {
  import opened Sequences
  import opened Json

  datatype Endpoint = Endpoint(id: string, url: string)

  /** A decoded input, or none when the bytes are not JSON. */
  type Input = Option<Json>

  datatype Unwrapped = Raw(input: Input) | Ambiguous | NullPayload

  function Unwrap(raw: Input): Unwrapped {
    if raw.None? || FieldsOf(raw.value).NotAnObject? then Raw(raw)
    else
      var top := FieldsOf(raw.value);
      match Lookup(top, "payload")
      case None => Raw(raw)
      case Some(payload) =>
        if Lookup(top, "kind").None? || Lookup(top, "revision").None? then Ambiguous
        else if payload == JNull then NullPayload
        else Raw(Some(payload))
  }

  method UnwrapConfigGetResponse(raw: Input) returns (r: Unwrapped)
    ensures r == Unwrap(raw)
    ensures raw.None? || At(raw.value, ["payload"]).None? ==> r == Raw(raw)
    ensures forall payload :: raw.Some? && At(raw.value, ["payload"]) == Some(payload) ==>
      r == if !IsGetResponse(raw.value, payload) then Ambiguous
           else if payload == JNull then NullPayload else Raw(Some(payload))
  {
    assert ["payload"][1..] == [] && ["kind"][1..] == [] && ["revision"][1..] == [];
    if raw.None? {
      return Raw(raw);
    }
    var top := FieldsOf(raw.value);
    if top.NotAnObject? {
      return Raw(raw);
    }
    var payload := Lookup(top, "payload");
    if payload.None? {
      return Raw(raw);
    }
    var kind, revision := Lookup(top, "kind"), Lookup(top, "revision");
    if kind.None? || revision.None? {
      return Ambiguous;
    }
    if payload.value == JNull {
      return NullPayload;
    }
    r := Raw(payload);
  }

  /** encoding/json matches struct fields without regard to case. */
  function Lower(c: char): char {
    if 'A' <= c <= 'Z' then (c as int + 32) as char else c
  }

  predicate MatchesField(key: string, field: string) {
    |key| == |field| && forall i :: 0 <= i < |key| ==> Lower(key[i]) == field[i]
  }

  /** A member assigned to a string field: null leaves it alone, any other non-string fails. */
  function Assigned(before: string, v: Json): Option<string> {
    match v
    case JString(s) => Some(s)
    case JNull => Some(before)
    case _ => None
  }

  function DecodeMembers(members: seq<Member>): Option<Endpoint> {
    if members == [] then Some(Endpoint("", ""))
    else
      var m := members[|members| - 1];
      match DecodeMembers(members[..|members| - 1])
      case None => None
      case Some(e) =>
        if MatchesField(m.key, "id") then
          match Assigned(e.id, m.value) { case None => None case Some(s) => Some(e.(id := s)) }
        else if MatchesField(m.key, "url") then
          match Assigned(e.url, m.value) { case None => None case Some(s) => Some(e.(url := s)) }
        else Some(e)
  }

  function DecodeEndpoint(v: Json): Option<Endpoint> {
    match v
    case JObject(members) => DecodeMembers(members)
    case JNull => Some(Endpoint("", ""))
    case _ => None
  }

  function DecodeItems(items: seq<Json>): (r: Option<seq<Endpoint>>)
    ensures r.Some? ==> |r.value| == |items|
    ensures r.Some? ==> forall i :: 0 <= i < |items| ==> DecodeEndpoint(items[i]) == Some(r.value[i])
  {
    if items == [] then Some([])
    else
      var front := DecodeItems(items[..|items| - 1]);
      var last := DecodeEndpoint(items[|items| - 1]);
      if front.None? || last.None? then None else Some(front.value + [last.value])
  }

  // ---------------------------------------------------------------------------------------------
  // What is decoded
  // ---------------------------------------------------------------------------------------------

  predicate IsIdKey(key: string) {
    |key| == 2 && key[0] in {'i', 'I'} && key[1] in {'d', 'D'}
  }

  predicate IsUrlKey(key: string) {
    |key| == 3 && key[0] in {'u', 'U'} && key[1] in {'r', 'R'} && key[2] in {'l', 'L'}
  }

  /** `s` is the string of the last of these members that is not null, or empty when there is none. */
  ghost predicate IsLastString(members: seq<Member>, isKey: string -> bool, s: string) {
    || (s == "" && forall k :: 0 <= k < |members| && isKey(members[k].key) ==> members[k].value == JNull)
    || exists i: nat :: StandsLast(members, isKey, s, i)
  }

  ghost predicate StandsLast(members: seq<Member>, isKey: string -> bool, s: string, i: nat) {
    && i < |members| && isKey(members[i].key) && members[i].value == JString(s)
    && forall k :: i < k < |members| && isKey(members[k].key) ==> members[k].value == JNull
  }

  ghost predicate IsEndpoint(v: Json, e: Endpoint) {
    match v
    case JNull => e.id == "" && e.url == ""
    case JObject(members) =>
      && (forall m :: m in members && (IsIdKey(m.key) || IsUrlKey(m.key)) ==> m.value.JString? || m.value.JNull?)
      && IsLastString(members, IsIdKey, e.id) && IsLastString(members, IsUrlKey, e.url)
    case _ => false
  }

  lemma KeysExactly(key: string)
    ensures MatchesField(key, "id") <==> IsIdKey(key)
    ensures MatchesField(key, "url") <==> IsUrlKey(key)
  {
  }

  lemma LastStringStep(members: seq<Member>, m: Member, isKey: string -> bool, before: string)
    requires IsLastString(members, isKey, before)
    ensures !isKey(m.key) || m.value == JNull ==> IsLastString(members + [m], isKey, before)
    ensures isKey(m.key) && m.value.JString? ==> IsLastString(members + [m], isKey, m.value.s)
  {
    var longer := members + [m];
    if isKey(m.key) && m.value.JString? {
      assert StandsLast(longer, isKey, m.value.s, |members|);
    } else if i: nat :| StandsLast(members, isKey, before, i) {
      assert StandsLast(longer, isKey, before, i) || (isKey(m.key) && m.value != JNull);
    }
  }

  lemma LastStringUnique(members: seq<Member>, isKey: string -> bool, s: string, t: string)
    requires IsLastString(members, isKey, s) && IsLastString(members, isKey, t)
    ensures s == t
  {
  }

  lemma {:induction false} DecodeMembersExactly(members: seq<Member>)
    ensures var r := DecodeMembers(members);
      && (r.Some? ==> IsEndpoint(JObject(members), r.value))
      && (r.None? ==> exists m :: m in members && (IsIdKey(m.key) || IsUrlKey(m.key)) && !m.value.JString? && !m.value.JNull?)
  {
    if members != [] {
      var front, m := members[..|members| - 1], members[|members| - 1];
      DecodeMembersExactly(front);
      assert members == front + [m];
      KeysExactly(m.key);
      var before := DecodeMembers(front);
      if before.Some? {
        LastStringStep(front, m, IsIdKey, before.value.id);
        LastStringStep(front, m, IsUrlKey, before.value.url);
      }
    }
  }

  /** An item decodes to the last strings of its "id" and "url" members, whatever the case of their
      keys, and not at all when one of them is neither a string nor null. */
  lemma EndpointExactly(v: Json, e: Endpoint)
    ensures DecodeEndpoint(v) == Some(e) <==> IsEndpoint(v, e)
  {
    if v.JObject? {
      DecodeMembersExactly(v.members);
      var r := DecodeMembers(v.members);
      if r.Some? && IsEndpoint(v, e) {
        LastStringUnique(v.members, IsIdKey, r.value.id, e.id);
        LastStringUnique(v.members, IsUrlKey, r.value.url, e.url);
      }
    }
  }

  /** `list` is `items`, item for item. */
  ghost predicate Lists(items: seq<Json>, list: seq<Endpoint>) {
    |list| == |items| && forall i :: 0 <= i < |items| ==> IsEndpoint(items[i], list[i])
  }

  lemma {:induction false} ListExactly(items: seq<Json>, list: seq<Endpoint>)
    ensures DecodeItems(items) == Some(list) <==> Lists(items, list)
  {
    forall i | 0 <= i < |items| && |list| == |items|
      ensures DecodeEndpoint(items[i]) == Some(list[i]) <==> IsEndpoint(items[i], list[i])
    {
      EndpointExactly(items[i], list[i]);
    }
    if Lists(items, list) {
      DecodesEach(items, list);
    }
  }

  lemma {:induction false} DecodesEach(items: seq<Json>, list: seq<Endpoint>)
    requires |list| == |items| && forall i :: 0 <= i < |items| ==> DecodeEndpoint(items[i]) == Some(list[i])
    ensures DecodeItems(items) == Some(list)
  {
    if items != [] {
      var n := |items| - 1;
      DecodesEach(items[..n], list[..n]);
      assert list == list[..n] + [list[n]];
    }
  }

  datatype SetError = NotJsonObject | NoEndpoints | PayloadNotObject | PayloadNoEndpoints | NullEndpoints | BadEndpoints
                    | UnwrapRefused

  datatype SetResult = Send(endpoints: seq<Endpoint>) | Fail(error: SetError)

  method ParseConfigSetPayload(raw: Input) returns (r: SetResult)
    ensures r == Parsed(raw)
  {
    if raw.None? {
      return Fail(NotJsonObject);
    }
    var top := FieldsOf(raw.value);
    if top.NotAnObject? {
      return Fail(NotJsonObject);
    }
    var endpoints := Lookup(top, "endpoints");
    if endpoints.None? {
      var payload := Lookup(top, "payload");
      if payload.None? {
        return Fail(NoEndpoints);
      }
      var payloadFields := FieldsOf(payload.value);
      if payloadFields.NotAnObject? {
        return Fail(PayloadNotObject);
      }
      endpoints := Lookup(payloadFields, "endpoints");
      if endpoints.None? {
        return Fail(PayloadNoEndpoints);
      }
    }
    if endpoints.value == JNull {
      return Fail(NullEndpoints);
    }
    if !endpoints.value.JArray? {
      return Fail(BadEndpoints);
    }
    var decoded := DecodeItems(endpoints.value.items);
    r := if decoded.None? then Fail(BadEndpoints) else Send(decoded.value);
  }

  function FromEndpoints(v: Json): SetResult {
    match v
    case JNull => Fail(NullEndpoints)
    case JArray(items) =>
      (match DecodeItems(items)
       case None => Fail(BadEndpoints)
       case Some(list) => Send(list))
    case _ => Fail(BadEndpoints)
  }

  function Parsed(raw: Input): SetResult {
    if raw.None? || FieldsOf(raw.value).NotAnObject? then Fail(NotJsonObject)
    else
      match (At(raw.value, ["endpoints"]), Lookup(FieldsOf(raw.value), "payload"))
      case (Some(v), _) => FromEndpoints(v)
      case (None, None) => Fail(NoEndpoints)
      case (None, Some(payload)) =>
        if FieldsOf(payload).NotAnObject? then Fail(PayloadNotObject)
        else
          match Lookup(FieldsOf(payload), "endpoints")
          case None => Fail(PayloadNoEndpoints)
          case Some(v) => FromEndpoints(v)
  }

  function Pipeline(raw: Input): SetResult {
    match Unwrap(raw)
    case Raw(input) => Parsed(input)
    case _ => Fail(UnwrapRefused)
  }

  // ---------------------------------------------------------------------------------------------
  // Round trip and safety
  // ---------------------------------------------------------------------------------------------

  /** Any object that carries `payload` as a get response does, whatever else it carries. */
  predicate IsGetResponse(v: Json, payload: Json) {
    && v.JObject?
    && At(v, ["kind"]).Some? && At(v, ["revision"]).Some?
    && At(v, ["payload"]) == Some(payload)
  }

  /** Piping a get response back in sends what the bare payload holds. */
  lemma GetThenSet(response: Json, payload: Json)
    requires IsGetResponse(response, payload) && payload != JNull
    ensures Pipeline(Some(response)) == Parsed(Some(payload))
    ensures Pipeline(Some(response)) != Fail(UnwrapRefused)
  {
    assert ["payload"][1..] == [] && ["kind"][1..] == [] && ["revision"][1..] == [];
  }

  /** Unwrapping once more makes no difference, told by what stands at "endpoints". If the payload has
      some of its own, the first found in the inner payload must come to the same; if only the inner
      payload has some, they serve both times; and if neither has, a third payload inside must be
      there and want them as well, so that both parses stop for the same reason. */
  predicate InnerAgrees(payload: Json, inner: Json) {
    match (At(payload, ["endpoints"]), At(inner, ["endpoints"]))
    case (Some(own), Some(first)) => FromEndpoints(first) == FromEndpoints(own)
    case (Some(own), None) =>
      var deep := At(inner, ["payload", "endpoints"]);
      deep.Some? && FromEndpoints(deep.value) == FromEndpoints(own)
    case (None, Some(_)) => true
    case (None, None) =>
      var deep := At(inner, ["payload"]);
      deep.Some? && !FieldsOf(deep.value).NotAnObject? && At(deep.value, ["endpoints"]).None?
  }

  lemma InnerAgreesExactly(payload: Json, inner: Json)
    requires At(payload, ["payload"]) == Some(inner) && inner != JNull
    ensures InnerAgrees(payload, inner) <==> Parsed(Some(inner)) == Parsed(Some(payload))
  {
    assert ["payload"][1..] == [] && ["endpoints"][1..] == [] && ["payload", "endpoints"][1..] == ["endpoints"];
  }

  /** Passing the payload bare does the same if and only if it has no member called "payload" of its
      own, or is itself taken for a get response, and unwrapped once more, and that makes no
      difference. */
  lemma BareAgreesExactly(response: Json, payload: Json)
    requires IsGetResponse(response, payload) && payload != JNull
    ensures var inner := At(payload, ["payload"]);
      Pipeline(Some(payload)) == Pipeline(Some(response)) <==>
        || inner.None?
        || (IsGetResponse(payload, inner.value) && inner.value != JNull && InnerAgrees(payload, inner.value))
  {
    GetThenSet(response, payload);
    assert ["payload"][1..] == [] && ["kind"][1..] == [] && ["revision"][1..] == [];
    if At(payload, ["payload"]).Some? && At(payload, ["payload"]) != Some(JNull) {
      InnerAgreesExactly(payload, At(payload, ["payload"]).value);
    }
  }

  /** When a list is sent: with no "endpoints" of its own the payload sends its inner payload's list
      either way round, so only a payload holding both can come to two different lists. */
  lemma BareSendsTheSame(response: Json, payload: Json)
    requires IsGetResponse(response, payload) && payload != JNull
    requires Pipeline(Some(response)).Send? && Pipeline(Some(payload)).Send?
    requires At(payload, ["payload"]).None? || At(payload, ["endpoints"]).None?
    ensures Pipeline(Some(payload)) == Pipeline(Some(response))
  {
    GetThenSet(response, payload);
    assert ["payload"][1..] == [] && ["endpoints"][1..] == [] && ["kind"][1..] == [] && ["revision"][1..] == [];
  }

  /** A payload that looks like a get response and holds a list of its own beside its inner one. */
  ghost predicate HoldsTwoLists(payload: Json, own: seq<Json>, inner: Json, innerItems: seq<Json>) {
    && IsGetResponse(payload, inner)
    && At(payload, ["endpoints"]) == Some(JArray(own)) && DecodeItems(own).Some?
    && At(inner, ["endpoints"]) == Some(JArray(innerItems)) && DecodeItems(innerItems).Some?
  }

  /** It sends its own list inside a response and the inner one when it is passed bare. */
  lemma TwoListsDisagree(response: Json, payload: Json, own: seq<Json>, inner: Json, innerItems: seq<Json>)
    requires IsGetResponse(response, payload) && HoldsTwoLists(payload, own, inner, innerItems)
    ensures Pipeline(Some(response)) == Send(DecodeItems(own).value)
    ensures Pipeline(Some(payload)) == Send(DecodeItems(innerItems).value)
  {
    assert ["payload"][1..] == [] && ["endpoints"][1..] == [] && ["kind"][1..] == [] && ["revision"][1..] == [];
  }

  lemma MembersInOrder(a: Member, b: Member, c: Member, d: Member)
    ensures AsMap([a, b, c, d]) == map[a.key := a.value][b.key := b.value][c.key := c.value][d.key := d.value]
  {
    assert [a][..0] == [] && [a, b][..1] == [a] && [a, b, c][..2] == [a, b] && [a, b, c, d][..3] == [a, b, c];
    assert AsMap([a]) == map[a.key := a.value];
    assert AsMap([a, b]) == AsMap([a])[b.key := b.value];
    assert AsMap([a, b, c]) == AsMap([a, b])[c.key := c.value];
  }

  /** There are such payloads for any two lists. */
  lemma TwoListsExist(own: seq<Json>, innerItems: seq<Json>) returns (payload: Json, inner: Json)
    requires DecodeItems(own).Some? && DecodeItems(innerItems).Some?
    ensures HoldsTwoLists(payload, own, inner, innerItems)
  {
    inner := JObject([Member("endpoints", JArray(innerItems))]);
    var kind, revision := Member("kind", JNull), Member("revision", JNull);
    var endpoints, held := Member("endpoints", JArray(own)), Member("payload", inner);
    payload := JObject([kind, revision, endpoints, held]);
    MembersInOrder(kind, revision, endpoints, held);
    assert inner.members[..0] == [];
    assert ["payload"][1..] == [] && ["endpoints"][1..] == [] && ["kind"][1..] == [] && ["revision"][1..] == [];
  }

  /** The places in an input where the list that is sent can stand. */
  const PLACES: seq<seq<string>> := [["endpoints"], ["payload", "endpoints"], ["payload", "payload", "endpoints"]]

  /** `list` is the decoded array `items` that stands at `place`. */
  ghost predicate SentFrom(raw: Json, place: seq<string>, items: seq<Json>, list: seq<Endpoint>) {
    && place in PLACES
    && At(raw, place) == Some(JArray(items))
    && Lists(items, list)
  }

  predicate ReadsAsObject(v: Json) {
    v.JObject? || v.JNull?
  }

  /** Each outcome of the parser, by what stands at "endpoints", or in its absence inside the payload. */
  lemma ParsedExactly(v: Json, list: seq<Endpoint>)
    ensures Parsed(None) == Fail(NotJsonObject)
    ensures var own, payload, inner := At(v, ["endpoints"]), At(v, ["payload"]), At(v, ["payload", "endpoints"]);
      var found := if own.Some? then own else inner;
      && (Parsed(Some(v)) == Fail(NotJsonObject) <==> !ReadsAsObject(v))
      && (Parsed(Some(v)) == Fail(NoEndpoints) <==> ReadsAsObject(v) && own.None? && payload.None?)
      && (Parsed(Some(v)) == Fail(PayloadNotObject) <==> own.None? && payload.Some? && !ReadsAsObject(payload.value))
      && (Parsed(Some(v)) == Fail(PayloadNoEndpoints) <==>
            own.None? && payload.Some? && ReadsAsObject(payload.value) && inner.None?)
      && (Parsed(Some(v)) == Fail(NullEndpoints) <==> found == Some(JNull))
      && (Parsed(Some(v)) == Send(list) <==> found.Some? && found.value.JArray? && Lists(found.value.items, list))
  {
    assert ["endpoints"][1..] == [] && ["payload"][1..] == [] && ["payload", "endpoints"][1..] == ["endpoints"];
    var own, inner := At(v, ["endpoints"]), At(v, ["payload", "endpoints"]);
    var found := if own.Some? then own else inner;
    if found.Some? && found.value.JArray? {
      ListExactly(found.value.items, list);
    }
  }

  /** Whatever is sent was an array present in the input, element for element: never an absent key,
      never a null. */
  lemma NeverAWipe(raw: Json)
    requires Pipeline(Some(raw)).Send?
    ensures exists place, items :: SentFrom(raw, place, items, Pipeline(Some(raw)).endpoints)
  {
    var inner := Unwrap(Some(raw)).input.value;
    assert ["endpoints"][1..] == [] && ["payload", "endpoints"][1..] == ["endpoints"];
    assert ["payload", "payload", "endpoints"][1..] == ["payload", "endpoints"];
    var place := if At(inner, ["endpoints"]).Some? then ["endpoints"] else ["payload", "endpoints"];
    assert At(inner, place).Some? && At(inner, place).value.JArray?;
    var items := At(inner, place).value.items;
    ListExactly(items, Pipeline(Some(raw)).endpoints);
    if inner == raw {
      assert place == PLACES[0];
      assert SentFrom(raw, place, items, Pipeline(Some(raw)).endpoints);
    } else {
      assert At(raw, ["payload"] + place) == At(inner, place) by {
        assert (["payload"] + place)[1..] == place;
      }
      assert ["payload"] + place in PLACES by {
        assert ["payload"] + ["endpoints"] == ["payload", "endpoints"];
        assert ["payload"] + ["payload", "endpoints"] == ["payload", "payload", "endpoints"];
        assert PLACES[1] == ["payload", "endpoints"] && PLACES[2] == ["payload", "payload", "endpoints"];
      }
      assert SentFrom(raw, ["payload"] + place, items, Pipeline(Some(raw)).endpoints);
    }
  }

  /** The list that cmdConfigSet would PUT: if there is one, it stood in the input as an array. */
  method ConfigSetList(raw: Input) returns (r: SetResult)
    ensures r == Pipeline(raw)
    ensures r.Send? ==> raw.Some? && exists place, items :: SentFrom(raw.value, place, items, r.endpoints)
    ensures r == Fail(UnwrapRefused) <==>
      && raw.Some? && At(raw.value, ["payload"]).Some?
      && !(IsGetResponse(raw.value, At(raw.value, ["payload"]).value) && At(raw.value, ["payload"]) != Some(JNull))
  {
    assert ["payload"][1..] == [] && ["kind"][1..] == [] && ["revision"][1..] == [];
    var unwrapped := UnwrapConfigGetResponse(raw);
    if !unwrapped.Raw? {
      return Fail(UnwrapRefused);
    }
    r := ParseConfigSetPayload(unwrapped.input);
    if r.Send? {
      NeverAWipe(raw.value);
    }
  }
}
