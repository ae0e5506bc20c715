/**
 The brightness excluded-ranges list: its parser and its printer
 (cmd/showmeshctl/cmd_fpp_set_brightness_excluded_ranges.go).
 */
module ChannelRanges {
  import opened Sequences
  import opened Decimal
  import opened Text

  datatype ChannelRange = ChannelRange(startChannel: int, channelCount: int)

  /** The values read, or the part that was refused. */
  datatype Parse<+T> = Ranges(ranges: seq<T>) | Refusal(part: string)

  /** Reads the trimmed parts in order, up to the first that is refused. */
  function ReadAll<T>(parts: seq<string>, read: string -> Option<T>): Parse<T> {
    if parts == [] then Ranges([])
    else
      match ReadAll(parts[..|parts| - 1], read)
      case Refusal(part) => Refusal(part)
      case Ranges(rs) =>
        var part := TrimSpace(parts[|parts| - 1]);
        match read(part)
        case None => Refusal(part)
        case Some(r) => Ranges(rs + [r])
  }

  /** What a part can stand for: both numbers positive and within an int. */
  predicate Valid(r: ChannelRange) {
    1 <= r.startChannel <= MAX_INT && 1 <= r.channelCount <= MAX_INT
  }

  ghost predicate AllValid(rs: seq<ChannelRange>) {
    forall i :: 0 <= i < |rs| ==> Valid(rs[i])
  }

  /** strings.EqualFold with "none", whose letters have no other case variants. */
  predicate IsNone(s: string) {
    && |s| == 4
    && s[0] in {'n', 'N'} && s[1] in {'o', 'O'} && s[2] in {'n', 'N'} && s[3] in {'e', 'E'}
  }

  function ParsedPart(part: string): Option<ChannelRange> {
    var (startText, countText, found) := Cut(part, '-');
    var start, count := Atoi(TrimSpace(startText)), Atoi(TrimSpace(countText));
    if !found || start.None? || count.None? || start.value < 1 || count.value < 1 then None
    else Some(ChannelRange(start.value, count.value))
  }

  function PartReader(): string -> Option<ChannelRange> {
    (part: string) => ParsedPart(part)
  }

  function Parsed(text: string): Parse<ChannelRange> {
    var trimmed := TrimSpace(text);
    if trimmed == "" || IsNone(trimmed) then Ranges([]) else ReadAll(Split(trimmed, ','), PartReader())
  }

  method ParseChannelRanges(text: string) returns (r: Parse<ChannelRange>)
    ensures r == Parsed(text)
  {
    var ranges := [];
    var trimmed := TrimSpace(text);
    if trimmed == "" || IsNone(trimmed) {
      return Ranges(ranges);
    }
    var parts := Split(trimmed, ',');
    var i := 0;
    while i < |parts|
      invariant 0 <= i <= |parts|
      invariant ReadAll(parts[..i], PartReader()) == Ranges(ranges)
    {
      assert parts[..i + 1][..i] == parts[..i];
      var part := TrimSpace(parts[i]);
      i := i + 1;
      var (startText, countText, found) := Cut(part, '-');
      var start := Atoi(TrimSpace(startText));
      var count := Atoi(TrimSpace(countText));
      if !found || start.None? || count.None? || start.value < 1 || count.value < 1 {
        RefusalStays(parts, i, PartReader());
        return Refusal(part);
      }
      ranges := ranges + [ChannelRange(start.value, count.value)];
    }
    assert parts[..i] == parts;
    r := Ranges(ranges);
  }

  lemma {:induction false} RefusalStays<T>(parts: seq<string>, i: nat, read: string -> Option<T>)
    requires i <= |parts| && ReadAll(parts[..i], read).Refusal?
    ensures ReadAll(parts, read) == ReadAll(parts[..i], read)
  {
    if i == |parts| {
      assert parts[..i] == parts;
    } else {
      assert parts[..|parts| - 1][..i] == parts[..i];
      RefusalStays(parts[..|parts| - 1], i, read);
    }
  }

  function PartText(r: ChannelRange): string {
    Print(r.startChannel) + "-" + Print(r.channelCount)
  }

  function PartTexts(rs: seq<ChannelRange>): seq<string> {
    seq(|rs|, i requires 0 <= i < |rs| => PartText(rs[i]))
  }

  function Formatted(rs: seq<ChannelRange>): string {
    if rs == [] then "none" else Join(PartTexts(rs), ", ")
  }

  method FormatChannelRanges(ranges: seq<ChannelRange>) returns (text: string)
    ensures text == Formatted(ranges)
  {
    if |ranges| == 0 {
      return "none";
    }
    var parts := [];
    for i := 0 to |ranges|
      invariant parts == PartTexts(ranges[..i])
    {
      assert PartTexts(ranges[..i + 1]) == PartTexts(ranges[..i]) + [PartText(ranges[i])];
      parts := parts + [PartText(ranges[i])];
    }
    assert ranges[..|ranges|] == ranges;
    text := Join(parts, ", ");
  }

  // ---------------------------------------------------------------------------------------------
  // Round trip
  // ---------------------------------------------------------------------------------------------

  lemma PlainDigits(n: nat)
    ensures Tight(Digits(n)) && ',' !in Digits(n) && '-' !in Digits(n)
  {
  }

  lemma PartRoundTrip(r: ChannelRange)
    requires Valid(r)
    ensures ParsedPart(PartText(r)) == Some(r)
    ensures Tight(PartText(r)) && ',' !in PartText(r) && IsDigit(PartText(r)[0])
  {
    var a, b := Digits(r.startChannel), Digits(r.channelCount);
    PlainDigits(r.startChannel);
    PlainDigits(r.channelCount);
    CutFirst(a, '-', b);
    TrimTight(a);
    TrimTight(b);
    AtoiPrint(r.startChannel);
    AtoiPrint(r.channelCount);
  }

  /** Parts that each read as their value make up the list of those values. */
  lemma {:induction false} PartsParse<T>(parts: seq<string>, rs: seq<T>, read: string -> Option<T>)
    requires |parts| == |rs|
    requires forall i :: 0 <= i < |rs| ==> read(TrimSpace(parts[i])) == Some(rs[i])
    ensures ReadAll(parts, read) == Ranges(rs)
  {
    if parts != [] {
      PartsParse(parts[..|parts| - 1], rs[..|rs| - 1], read);
      assert rs == rs[..|rs| - 1] + [rs[|rs| - 1]];
    }
  }

  lemma {:induction false} JoinEnds(parts: seq<string>, sep: string)
    requires parts != [] && forall i :: 0 <= i < |parts| ==> Tight(parts[i])
    ensures var s := Join(parts, sep); Tight(s) && Tight(parts[0]) && s[0] == parts[0][0]
  {
    if |parts| > 1 {
      JoinEnds(parts[1..], sep);
      var rest := Join(parts[1..], sep);
      assert Join(parts, sep)[|Join(parts, sep)| - 1] == rest[|rest| - 1];
    }
  }

  /** The parts of the printed list, split and trimmed again, are the parts that were printed. */
  lemma PartsComeBack(parts: seq<string>)
    requires parts != []
    requires forall i :: 0 <= i < |parts| ==> Tight(parts[i]) && ',' !in parts[i]
    ensures var split := Split(Join(parts, ", "), ',');
      |split| == |parts| && forall i :: 0 <= i < |parts| ==> TrimSpace(split[i]) == parts[i]
  {
    SplitJoin("", parts);
    assert "" + Join(parts, ", ") == Join(parts, ", ") && "" + parts[0] == parts[0];
    forall i | 0 <= i < |parts|
      ensures TrimSpace(parts[i]) == parts[i] && TrimSpace(" " + parts[i]) == parts[i]
    {
      TrimTight(parts[i]);
    }
  }

  lemma PartTextsRead(rs: seq<ChannelRange>)
    requires AllValid(rs)
    ensures forall i :: 0 <= i < |rs| ==>
      && PartReader()(PartTexts(rs)[i]) == Some(rs[i])
      && Tight(PartTexts(rs)[i]) && ',' !in PartTexts(rs)[i] && IsDigit(PartTexts(rs)[i][0])
  {
    forall i | 0 <= i < |rs|
      ensures PartReader()(PartText(rs[i])) == Some(rs[i])
      ensures Tight(PartText(rs[i])) && ',' !in PartText(rs[i]) && IsDigit(PartText(rs[i])[0])
    {
      PartRoundTrip(rs[i]);
    }
  }

  lemma ValidRoundTrip(rs: seq<ChannelRange>)
    requires AllValid(rs)
    ensures Parsed(Formatted(rs)) == Ranges(rs)
  {
    if rs == [] {
      TrimTight("none");
    } else {
      var text := Join(PartTexts(rs), ", ");
      PartTextsRead(rs);
      JoinEnds(PartTexts(rs), ", ");
      TrimTight(text);
      PartsComeBack(PartTexts(rs));
      PartsParse(Split(text, ','), rs, PartReader());
    }
  }

  lemma {:induction false} PartsAreValid(parts: seq<string>)
    ensures ReadAll(parts, PartReader()).Ranges? ==> AllValid(ReadAll(parts, PartReader()).ranges)
  {
    if parts != [] {
      PartsAreValid(parts[..|parts| - 1]);
      ReadPartsAreValid(TrimSpace(parts[|parts| - 1]));
    }
  }

  lemma ReadPartsAreValid(part: string)
    ensures PartReader()(part).Some? ==> Valid(PartReader()(part).value)
  {
  }

  /** Reading back what was printed gives the list again, exactly when every range in it has a start
      and a count of at least one within an int. */
  lemma RoundTrip(rs: seq<ChannelRange>)
    ensures Parsed(Formatted(rs)) == Ranges(rs) <==> AllValid(rs)
  {
    if AllValid(rs) {
      ValidRoundTrip(rs);
    } else {
      PartsAreValid(Split(TrimSpace(Formatted(rs)), ','));
    }
  }

  /** Any text that is accepted has one printed form: printing and reading it changes nothing. */
  lemma Normalizes(text: string)
    requires Parsed(text).Ranges?
    ensures Parsed(Formatted(Parsed(text).ranges)) == Parsed(text)
  {
    PartsAreValid(Split(TrimSpace(text), ','));
    ValidRoundTrip(Parsed(text).ranges);
  }

  // ---------------------------------------------------------------------------------------------
  // What is read and what is printed
  // ---------------------------------------------------------------------------------------------

  /** A part is read as the two numbers around its first dash, whatever space stands around them. */
  ghost predicate ReadsAs(part: string, start: string, count: string, r: ChannelRange) {
    && part == start + "-" + count && '-' !in start
    && Atoi(TrimSpace(start)) == Some(r.startChannel) && Atoi(TrimSpace(count)) == Some(r.channelCount)
    && r.startChannel >= 1 && r.channelCount >= 1
  }

  lemma PartExactly(part: string, r: ChannelRange)
    ensures ParsedPart(part) == Some(r) <==> exists start, count :: ReadsAs(part, start, count, r)
  {
    if ParsedPart(part) == Some(r) {
      var k := IndexOf(part, '-');
      assert part == part[..k] + "-" + part[k + 1..];
      assert ReadsAs(part, part[..k], part[k + 1..], r);
    }
    if start, count :| ReadsAs(part, start, count, r) {
      CutFirst(start, '-', count);
    }
  }

  /** The parts are read in order, each trimmed, and the first that cannot be read is the refusal. */
  lemma {:induction false} ReadAllExactly<T>(parts: seq<string>, read: string -> Option<T>)
    ensures ReadAll(parts, read).Ranges? ==> EachReads(parts, read, ReadAll(parts, read).ranges)
    ensures ReadAll(parts, read).Refusal? ==> exists k :: RefusedAt(parts, read, k, ReadAll(parts, read).part)
  {
    if parts != [] {
      var n := |parts| - 1;
      var front := parts[..n];
      ReadAllExactly(front, read);
      if ReadAll(front, read).Refusal? {
        var k :| RefusedAt(front, read, k, ReadAll(front, read).part);
        assert RefusedAt(parts, read, k, ReadAll(parts, read).part);
      } else {
        assert EachReads(front, read, ReadAll(front, read).ranges);
        assert forall i :: 0 <= i < n ==> front[i] == parts[i];
        assert read(TrimSpace(parts[n])).None? ==> RefusedAt(parts, read, n, ReadAll(parts, read).part);
      }
    }
  }

  ghost predicate EachReads<T>(parts: seq<string>, read: string -> Option<T>, rs: seq<T>) {
    |rs| == |parts| && forall i :: 0 <= i < |rs| ==> read(TrimSpace(parts[i])) == Some(rs[i])
  }

  ghost predicate RefusedAt<T>(parts: seq<string>, read: string -> Option<T>, k: nat, part: string) {
    && k < |parts| && part == TrimSpace(parts[k]) && read(part).None?
    && forall i :: 0 <= i < k ==> read(TrimSpace(parts[i])).Some?
  }

  /** The empty list is what blank text and "none" in any case stand for, and nothing else. */
  lemma EmptyExactly(text: string)
    ensures Parsed(text) == Ranges([]) <==> TrimSpace(text) == "" || IsNone(TrimSpace(text))
  {
    ReadAllExactly(Split(TrimSpace(text), ','), PartReader());
  }

  /** The printed list, range by range. */
  lemma PrintedExactly(r: ChannelRange, more: seq<ChannelRange>)
    ensures Formatted([]) == "none"
    ensures Formatted([r] + more) ==
      Print(r.startChannel) + "-" + Print(r.channelCount) + if more == [] then "" else ", " + Formatted(more)
  {
    assert PartTexts([r] + more)[1..] == PartTexts(more);
  }
}
