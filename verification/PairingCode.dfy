/**
 The one written form of a pairing code (cmd/showmeshctl/cmd_fpp_pair.go).
 */
module PairingCode {
  import opened Sequences

  const PAIRING_CODE_ALPHABET := "0123456789ABCDEFGHJKMNPQRSTVWXYZ"
  const CODE_LENGTH := 8

  /** unicode.ToUpper as far as it matters here: a-z, and the only two other letters whose upper case
      is a Latin capital. Every other letter's upper case is outside the alphabet, as it is itself. */
  function Upper(c: char): char {
    if 'a' <= c <= 'z' then (c as int - 32) as char
    else if c == '\U{0131}' then 'I'
    else if c == '\U{017F}' then 'S'
    else c
  }

  predicate IsSeparator(c: char) {
    c == '-' || c == ' ' || c == '\t'
  }

  predicate InAlphabet(c: char) {
    '0' <= c <= '9' || ('A' <= c <= 'Z' && c !in {'I', 'L', 'O', 'U'})
  }

  lemma AlphabetText(c: char)
    ensures InAlphabet(c) <==> c in PAIRING_CODE_ALPHABET
  {
    assert forall i :: 0 <= i < 32 ==> InAlphabet(PAIRING_CODE_ALPHABET[i]);
    if InAlphabet(c) {
      var k := c as int;
      var i := if c <= '9' then k - 48
               else if c < 'I' then k - 55
               else if c < 'L' then k - 56
               else if c < 'O' then k - 57
               else if c < 'U' then k - 58 else k - 59;
      assert PAIRING_CODE_ALPHABET[i] == c;
    }
  }

  /** The code upper-cased and with its separators taken out. */
  function Stripped(code: string): string {
    if code == "" then ""
    else
      var c := Upper(code[|code| - 1]);
      Stripped(code[..|code| - 1]) + if IsSeparator(c) then "" else [c]
  }

  predicate Readable(s: string) {
    forall i :: 0 <= i < |s| ==> InAlphabet(s[i])
  }

  /** A code is accepted when what is left is eight characters of the alphabet. */
  function Normalized(code: string): Option<string> {
    var body := Stripped(code);
    if Readable(body) && |body| == CODE_LENGTH then Some(body[..4] + "-" + body[4..]) else None
  }

  method NormalizePairingCode(code: string) returns (out: string, ok: bool)
    ensures ok <==> Normalized(code).Some?
    ensures out == if ok then Normalized(code).value else ""
  {
    var body := "";
    var i := 0;
    while i < |code|
      invariant 0 <= i <= |code|
      invariant body == Stripped(code[..i]) && Readable(body)
    {
      assert code[..i + 1][..i] == code[..i];
      var r := Upper(code[i]);
      i := i + 1;
      if IsSeparator(r) {
        continue;
      }
      if !InAlphabet(r) {
        assert Stripped(code[..i])[|body|] == r;
        UnreadableStays(code, i);
        return "", false;
      }
      body := body + [r];
    }
    assert code[..i] == code;
    if |body| != CODE_LENGTH {
      return "", false;
    }
    return body[..4] + "-" + body[4..], true;
  }

  lemma {:induction false} UnreadableStays(code: string, i: nat)
    requires i <= |code| && !Readable(Stripped(code[..i]))
    ensures !Readable(Stripped(code))
  {
    if i == |code| {
      assert code[..i] == code;
    } else {
      var front := code[..|code| - 1];
      assert front[..i] == code[..i];
      UnreadableStays(front, i);
      var k :| 0 <= k < |Stripped(front)| && !InAlphabet(Stripped(front)[k]);
      assert Stripped(code)[k] == Stripped(front)[k];
    }
  }

  lemma {:induction false} StrippedConcat(a: string, b: string)
    ensures Stripped(a + b) == Stripped(a) + Stripped(b)
  {
    if b == "" {
      assert a + b == a;
    } else {
      assert (a + b)[..|a + b| - 1] == a + b[..|b| - 1];
      StrippedConcat(a, b[..|b| - 1]);
    }
  }

  lemma {:induction false} StrippedReadable(s: string)
    requires Readable(s)
    ensures Stripped(s) == s
  {
    if s != "" {
      var front, c := s[..|s| - 1], s[|s| - 1];
      StrippedReadable(front);
      assert InAlphabet(c) && Upper(c) == c && !IsSeparator(c);
      assert Stripped(s) == front + [c];
    }
  }

  /** The written form is its own written form. */
  lemma Idempotent(code: string)
    requires Normalized(code).Some?
    ensures Normalized(Normalized(code).value) == Normalized(code)
  {
    var body := Stripped(code);
    StrippedReadable(body[..4]);
    StrippedReadable(body[4..]);
    StrippedConcat(body[..4], "-");
    StrippedConcat(body[..4] + "-", body[4..]);
    assert Stripped("-") == "" by { assert "-"[..0] == ""; }
    assert body[..4] + body[4..] == body;
    assert Stripped(Normalized(code).value) == body;
  }

  /** The written form: two groups of four characters of the alphabet with a dash between. */
  lemma WrittenForm(code: string)
    requires Normalized(code).Some?
    ensures var out := Normalized(code).value;
      && |out| == 9 && out[4] == '-'
      && forall i :: 0 <= i < 9 && i != 4 ==> out[i] in "0123456789ABCDEFGHJKMNPQRSTVWXYZ"
  {
    var body, out := Stripped(code), Normalized(code).value;
    forall i | 0 <= i < 9 && i != 4
      ensures out[i] in PAIRING_CODE_ALPHABET
    {
      AlphabetText(out[i]);
      assert out[i] == body[if i < 4 then i else i - 1];
    }
  }

  /** Eight characters of the alphabet are written as they are. */
  lemma TakesPlainText(code: string)
    requires |code| == 8 && Readable(code)
    ensures Normalized(code) == Some(code[..4] + "-" + code[4..])
  {
    StrippedReadable(code);
  }

  /** A separator makes no difference wherever it stands, */
  lemma SeparatorsAreFree(a: string, c: char, b: string)
    requires c in {'-', ' ', '\t'}
    ensures Normalized(a + [c] + b) == Normalized(a + b)
  {
    Around(a, c, b);
    StrippedConcat(a, b);
    assert Stripped(a) + "" + Stripped(b) == Stripped(a + b);
  }

  /** and neither does the case of a letter: the long s is a small s as well. */
  lemma CaseIsFree(a: string, c: char, b: string)
    requires 'a' <= c <= 'z' || c == '\U{017F}'
    ensures var capital := if c == '\U{017F}' then 'S' else (c as int - 32) as char;
      Normalized(a + [c] + b) == Normalized(a + [capital] + b)
  {
    var capital := if c == '\U{017F}' then 'S' else (c as int - 32) as char;
    Around(a, c, b);
    Around(a, capital, b);
    assert 'A' <= capital <= 'Z' && Upper(c) == capital == Upper(capital);
  }

  lemma Around(a: string, c: char, b: string)
    ensures Stripped(a + [c] + b) == Stripped(a) + (if IsSeparator(Upper(c)) then "" else [Upper(c)]) + Stripped(b)
  {
    StrippedConcat(a, [c]);
    StrippedConcat(a + [c], b);
    assert [c][..0] == "";
  }

  function IsText(): char -> bool {
    (c: char) => c !in {'-', ' ', '\t'}
  }

  /** A character that can be read: of the alphabet, a small letter for a capital of it, or the long s,
      whose capital is S. */
  predicate IsReadable(c: char) {
    InAlphabet(c) || ('a' <= c <= 'z' && c !in {'i', 'l', 'o', 'u'}) || c == '\U{017F}'
  }

  lemma {:induction false} StrippedIsText(code: string)
    ensures |Stripped(code)| == |Indices(code, IsText())|
    ensures Readable(Stripped(code)) <==> forall k :: 0 <= k < |code| && IsText()(code[k]) ==> IsReadable(code[k])
  {
    if code != "" {
      var front, c := code[..|code| - 1], code[|code| - 1];
      StrippedIsText(front);
      assert code == front + [c];
      if IsText()(c) {
        assert Stripped(code) == Stripped(front) + [Upper(c)];
        ReadableStep(Stripped(front), Upper(c));
        assert InAlphabet(Upper(c)) <==> IsReadable(c);
      } else {
        assert Stripped(code) == Stripped(front);
      }
    }
  }

  lemma ReadableStep(s: string, c: char)
    ensures Readable(s + [c]) <==> Readable(s) && InAlphabet(c)
  {
    assert (s + [c])[|s|] == c;
    assert forall i :: 0 <= i < |s| ==> (s + [c])[i] == s[i];
  }

  /** An input is accepted exactly when, separators aside, it is eight characters that can be read. */
  lemma AcceptedExactly(code: string)
    ensures Normalized(code).Some? <==>
      && |Indices(code, IsText())| == 8
      && forall k :: 0 <= k < |code| && code[k] !in {'-', ' ', '\t'} ==> IsReadable(code[k])
  {
    StrippedIsText(code);
  }

  /** Two accepted inputs, in any characters, are the same code exactly when they differ only in
      case and separators. */
  lemma AgreeExactly(a: string, b: string)
    requires Normalized(a).Some? && Normalized(b).Some?
    ensures Normalized(a) == Normalized(b) <==> Stripped(a) == Stripped(b)
  {
    var x, y := Stripped(a), Stripped(b);
    if Normalized(a) == Normalized(b) {
      var out := Normalized(a).value;
      assert out[..4] == x[..4] == y[..4] && out[5..] == x[4..] == y[4..];
      assert x == x[..4] + x[4..] && y == y[..4] + y[4..];
    }
  }
}
