/**
 Merging --scheduled-at-ns into the session parameters as an exact integer
 (cmd/showmeshctl/cmd_audio_session.go).
 */
module ScheduledAt {
  import opened Sequences
  import opened Decimal
  import opened Json

  const PARAM_SCHEDULED_AT_NS := "scheduledAtNs"

  /** `Panics` is Go's "assignment to entry in nil map". */
  datatype Merge = Merged(fields: map<string, Json>) | RefusedText | RefusedParams | RefusedTwice | Panics

  /** strconv.ParseInt(raw, 10, 64) on text the digits expression has let through. */
  predicate FitsInt64(raw: string)
    requires Canonical(raw)
  {
    ValueOf(raw) <= MAX_INT
  }

  /** `params` is absent, or any JSON value: the caller has checked that it is valid JSON. */
  method WithScheduledAtNs(params: Option<Json>, raw: string) returns (r: Merge)
    ensures r == MergedWith(params, raw)
  {
    if !Canonical(raw) {
      return RefusedText;
    }
    if !FitsInt64(raw) {
      return RefusedText;
    }
    var fields := Members(map[]);
    if params.Some? {
      fields := FieldsOf(params.value);
      if fields.NotAnObject? {
        return RefusedParams;
      }
    }
    if Lookup(fields, PARAM_SCHEDULED_AT_NS).Some? {
      return RefusedTwice;
    }
    if fields.NilMap? {
      return Panics;
    }
    fields := Members(fields.m[PARAM_SCHEDULED_AT_NS := JNumber(raw)]);
    r := Merged(fields.m);
  }

  function MergedWith(params: Option<Json>, raw: string): Merge {
    if !Canonical(raw) || !FitsInt64(raw) then RefusedText
    else
      match (if params.None? then Members(map[]) else FieldsOf(params.value))
      case NotAnObject => RefusedParams
      case NilMap => Panics
      case Members(m) =>
        if PARAM_SCHEDULED_AT_NS in m then RefusedTwice else Merged(m[PARAM_SCHEDULED_AT_NS := JNumber(raw)])
  }

  /** The merge can go ahead: nothing to merge into, or an object without the key. */
  predicate Mergeable(params: Option<Json>) {
    params.None? || (params.value.JObject? && "scheduledAtNs" !in AsMap(params.value.members))
  }

  /** It succeeds exactly for the one decimal text of some n in [0, 2^63), and then adds that number
      literally and keeps every other key's value. */
  lemma SucceedsExactly(params: Option<Json>, raw: string)
    ensures MergedWith(params, raw).Merged? <==>
      Mergeable(params) && exists n: nat :: n <= 9_223_372_036_854_775_807 && raw == Print(n)
    ensures MergedWith(params, raw).Merged? ==>
      var before := if params.None? then map[] else AsMap(params.value.members);
      var after := MergedWith(params, raw).fields;
      && Atoi(raw).Some? && raw == Print(Atoi(raw).value)
      && "scheduledAtNs" in after && after["scheduledAtNs"] == JNumber(raw)
      && after - {"scheduledAtNs"} == before
  {
    if Canonical(raw) {
      PrintsWhatItReads(raw);
      if FitsInt64(raw) {
        AtoiPrint(ValueOf(raw));
      }
    }
    forall n: nat | n <= MAX_INT && raw == Print(n)
      ensures Canonical(raw) && FitsInt64(raw)
    {
      ReadsWhatItPrints(n);
    }
  }

  /** Applying the flag to its own result is refused, however the object is written out. */
  lemma SecondIsRefused(params: Option<Json>, raw: string, members: seq<Member>, again: string)
    requires MergedWith(params, raw).Merged? && AsMap(members) == MergedWith(params, raw).fields
    ensures MergedWith(Some(JObject(members)), again) in {RefusedTwice, RefusedText}
  {
  }

  /** Parameters of `null` are not refused like other non-objects: exactly they crash the command,
      because decoding them replaces the map that the key is then written to. */
  lemma NullPanicsExactly(params: Option<Json>, raw: string)
    ensures MergedWith(params, raw).Panics? <==>
      params == Some(JNull) && exists n: nat :: n <= MAX_INT && raw == Print(n)
  {
    if Canonical(raw) {
      PrintsWhatItReads(raw);
      assert raw == Print(ValueOf(raw));
    }
    forall n: nat | n <= MAX_INT && raw == Print(n)
      ensures Canonical(raw) && FitsInt64(raw)
    {
      ReadsWhatItPrints(n);
    }
  }
}
