/**
 The parts of Go's strings package that the parsers use, on sequences of code points.
 */
module Text {

  /** unicode.IsSpace. */
  predicate IsSpace(c: char) {
    || '\t' <= c <= '\r'
    || c == ' ' || c == '\U{0085}' || c == '\U{00A0}' || c == '\U{1680}'
    || '\U{2000}' <= c <= '\U{200A}'
    || c == '\U{2028}' || c == '\U{2029}' || c == '\U{202F}' || c == '\U{205F}' || c == '\U{3000}'
  }

  function TrimLeft(s: string): string {
    if s != "" && IsSpace(s[0]) then TrimLeft(s[1..]) else s
  }

  function TrimRight(s: string): string {
    if s != "" && IsSpace(s[|s| - 1]) then TrimRight(s[..|s| - 1]) else s
  }

  function TrimSpace(s: string): string {
    TrimRight(TrimLeft(s))
  }

  /** Where `c` first occurs. */
  function IndexOf(s: string, c: char): (i: nat)
    requires c in s
    ensures i < |s| && s[i] == c
    ensures forall k :: 0 <= k < i ==> s[k] != c
  {
    if s[0] == c then 0 else 1 + IndexOf(s[1..], c)
  }

  function Split(s: string, c: char): (parts: seq<string>)
    ensures parts != []
  {
    if c in s then [s[..IndexOf(s, c)]] + Split(s[IndexOf(s, c) + 1..], c) else [s]
  }

  function Join(parts: seq<string>, sep: string): string {
    if parts == [] then ""
    else if |parts| == 1 then parts[0]
    else parts[0] + sep + Join(parts[1..], sep)
  }

  /** strings.Cut: the text before and after the first `c`. */
  function Cut(s: string, c: char): (string, string, bool) {
    if c in s then (s[..IndexOf(s, c)], s[IndexOf(s, c) + 1..], true) else (s, "", false)
  }

  /** No space at either end. */
  predicate Tight(s: string) {
    s != "" && !IsSpace(s[0]) && !IsSpace(s[|s| - 1])
  }

  lemma TrimTight(s: string)
    requires Tight(s)
    ensures TrimSpace(s) == s && TrimSpace(" " + s) == s
  {
    assert (" " + s)[1..] == s;
  }

  lemma CutFirst(a: string, c: char, b: string)
    requires c !in a
    ensures Cut(a + [c] + b, c) == (a, b, true)
    ensures Split(a + [c] + b, c) == [a] + Split(b, c)
  {
    var s := a + [c] + b;
    assert s[|a|] == c && forall k :: 0 <= k < |a| ==> s[k] == a[k];
    assert IndexOf(s, c) == |a|;
    assert s[..|a|] == a && s[|a| + 1..] == b;
  }

  lemma JoinFirst(lead: string, parts: seq<string>)
    requires |parts| > 1
    ensures lead + Join(parts, ", ") == (lead + parts[0]) + [','] + (" " + Join(parts[1..], ", "))
  {
  }

  /** What splitting at the commas gives for parts joined with ", " after some leading text: the
      parts, the first behind the lead and each other behind the joining space. */
  ghost predicate SplitsInto(s: string, lead: string, parts: seq<string>) {
    var split := Split(s, ',');
    && parts != [] && |split| == |parts|
    && split[0] == lead + parts[0]
    && forall i :: 0 < i < |parts| ==> split[i] == " " + parts[i]
  }

  lemma SplitMore(lead: string, parts: seq<string>, rest: string)
    requires |parts| > 1 && ',' !in lead + parts[0] && SplitsInto(rest, " ", parts[1..])
    ensures SplitsInto((lead + parts[0]) + [','] + rest, lead, parts)
  {
    CutFirst(lead + parts[0], ',', rest);
    var split := [lead + parts[0]] + Split(rest, ',');
    forall i | 0 < i < |parts|
      ensures split[i] == " " + parts[i]
    {
      assert split[i] == Split(rest, ',')[i - 1] && parts[1..][i - 1] == parts[i];
    }
  }

  lemma {:induction false} SplitJoin(lead: string, parts: seq<string>)
    requires parts != [] && ',' !in lead
    requires forall i :: 0 <= i < |parts| ==> ',' !in parts[i]
    ensures SplitsInto(lead + Join(parts, ", "), lead, parts)
    decreases |parts|
  {
    assert ',' !in lead + parts[0];
    if |parts| > 1 {
      SplitJoin(" ", parts[1..]);
      JoinFirst(lead, parts);
      SplitMore(lead, parts, " " + Join(parts[1..], ", "));
    }
  }

  predicate AllSpace(s: string) {
    forall i :: 0 <= i < |s| ==> IsSpace(s[i])
  }

  lemma {:induction false} TrimLeftExactly(s: string) returns (lead: string)
    ensures AllSpace(lead) && s == lead + TrimLeft(s)
    ensures TrimLeft(s) != "" ==> !IsSpace(TrimLeft(s)[0])
  {
    lead := "";
    if s != "" && IsSpace(s[0]) {
      lead := TrimLeftExactly(s[1..]);
      lead := [s[0]] + lead;
    }
  }

  lemma {:induction false} TrimRightExactly(s: string) returns (trail: string)
    ensures AllSpace(trail) && s == TrimRight(s) + trail
    ensures TrimRight(s) != "" ==> !IsSpace(TrimRight(s)[|TrimRight(s)| - 1])
  {
    trail := "";
    if s != "" && IsSpace(s[|s| - 1]) {
      trail := TrimRightExactly(s[..|s| - 1]);
      trail := trail + [s[|s| - 1]];
    }
  }

  /** Trimming takes spaces off both ends and leaves none there. */
  lemma TrimExactly(s: string) returns (lead: string, trail: string)
    ensures AllSpace(lead) && AllSpace(trail) && s == lead + TrimSpace(s) + trail
    ensures TrimSpace(s) == "" || Tight(TrimSpace(s))
  {
    lead := TrimLeftExactly(s);
    trail := TrimRightExactly(TrimLeft(s));
    if TrimSpace(s) != "" {
      assert TrimSpace(s)[0] == TrimLeft(s)[0];
    }
  }

  /** Splitting leaves no separator in any part, and the parts make up the text again. */
  lemma {:induction false} SplitExactly(s: string, c: char)
    ensures Join(Split(s, c), [c]) == s
    ensures forall i :: 0 <= i < |Split(s, c)| ==> c !in Split(s, c)[i]
  {
    if c in s {
      var k := IndexOf(s, c);
      SplitExactly(s[k + 1..], c);
      assert s == s[..k] + [c] + s[k + 1..];
      assert Split(s, c)[1..] == Split(s[k + 1..], c);
    }
  }
}
