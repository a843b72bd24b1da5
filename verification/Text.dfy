/** The text rules several parts share. */
module Text {

  /** White space, as Unicode lists it. */
  predicate IsWhitespace(c: char) {
    var n := c as int;
    || 0x09 <= n <= 0x0D || n == 0x20 || n == 0x85 || n == 0xA0 || n == 0x1680
    || 0x2000 <= n <= 0x200A || n == 0x2028 || n == 0x2029 || n == 0x202F || n == 0x205F || n == 0x3000
  }

  function TrimStart(s: string): string {
    if s != "" && IsWhitespace(s[0]) then TrimStart(s[1..]) else s
  }

  function TrimEnd(s: string): string {
    if s != "" && IsWhitespace(s[|s| - 1]) then TrimEnd(s[..|s| - 1]) else s
  }

  function Trim(s: string): string {
    TrimEnd(TrimStart(s))
  }

  /** No white space at either end. */
  predicate IsTrimmed(s: string) {
    s == "" || (!IsWhitespace(s[0]) && !IsWhitespace(s[|s| - 1]))
  }

  lemma {:induction false} TrimEndKeepsStart(s: string)
    requires s != "" ==> !IsWhitespace(s[0])
    ensures IsTrimmed(TrimEnd(s))
  {
    if s != "" && IsWhitespace(s[|s| - 1]) {
      TrimEndKeepsStart(s[..|s| - 1]);
    }
  }

  lemma {:induction false} TrimStartStarts(s: string)
    ensures TrimStart(s) != "" ==> !IsWhitespace(TrimStart(s)[0])
  {
    if s != "" && IsWhitespace(s[0]) {
      TrimStartStarts(s[1..]);
    }
  }

  lemma TrimTrims(s: string)
    ensures IsTrimmed(Trim(s))
  {
    TrimStartStarts(s);
    TrimEndKeepsStart(TrimStart(s));
  }

  lemma TrimmedIsFixed(s: string)
    requires IsTrimmed(s)
    ensures Trim(s) == s
  {
  }

  predicate IsBlank(s: string) {
    forall c | c in s :: IsWhitespace(c)
  }

  lemma {:induction false} TrimStartDrops(blank: string, s: string)
    requires IsBlank(blank)
    ensures TrimStart(blank + s) == TrimStart(s)
  {
    if blank == "" {
      assert blank + s == s;
    } else {
      assert blank[0] in blank && (blank + s)[1..] == blank[1..] + s;
      TrimStartDrops(blank[1..], s);
    }
  }

  lemma {:induction false} TrimEndDrops(s: string, blank: string)
    requires IsBlank(blank)
    ensures TrimEnd(s + blank) == TrimEnd(s)
  {
    var n := |blank| - 1;
    if blank == "" {
      assert s + blank == s;
    } else {
      assert blank[n] in blank && (s + blank)[..|s| + n] == s + blank[..n];
      TrimEndDrops(s, blank[..n]);
    }
  }

  /** Trimming takes away the white space at the two ends, and nothing else. */
  lemma TrimTakesOffBlanks(before: string, s: string, after: string)
    requires IsBlank(before) && IsBlank(after) && IsTrimmed(s)
    ensures Trim(before + s + after) == s
  {
    assert before + s + after == before + (s + after);
    TrimStartDrops(before, s + after);
    if s == "" {
      assert s + after == after && after + "" == after;
      TrimStartDrops(after, "");
    } else {
      assert (s + after)[0] == s[0];
      TrimEndDrops(s, after);
    }
  }

  lemma {:induction false} TrimStartLeaves(s: string) returns (before: string)
    ensures IsBlank(before) && s == before + TrimStart(s)
  {
    before := "";
    if s != "" && IsWhitespace(s[0]) {
      var rest := TrimStartLeaves(s[1..]);
      before := [s[0]] + rest;
      assert s == [s[0]] + s[1..];
    }
  }

  lemma {:induction false} TrimEndLeaves(s: string) returns (after: string)
    ensures IsBlank(after) && s == TrimEnd(s) + after
  {
    after := "";
    if s != "" && IsWhitespace(s[|s| - 1]) {
      var rest := TrimEndLeaves(s[..|s| - 1]);
      after := rest + [s[|s| - 1]];
      assert s == s[..|s| - 1] + [s[|s| - 1]];
    }
  }

  /** Every string is of that form. */
  lemma TrimLeavesBlanks(s: string) returns (before: string, after: string)
    ensures IsBlank(before) && IsBlank(after) && IsTrimmed(Trim(s)) && s == before + Trim(s) + after
  {
    TrimTrims(s);
    before := TrimStartLeaves(s);
    after := TrimEndLeaves(TrimStart(s));
    assert s == before + (Trim(s) + after);
  }

  function UpperChar(c: char): char {
    if 'a' <= c <= 'z' then (c as int - 32) as char else c
  }

  /** The small letters become their capitals, and no other character changes. */
  lemma UpperCharIs(c: char, i: nat)
    requires i < 26
    ensures var small, large := "abcdefghijklmnopqrstuvwxyz", "ABCDEFGHIJKLMNOPQRSTUVWXYZ";
            && (c == small[i] ==> UpperChar(c) == large[i])
            && (c < 'a' || 'z' < c ==> UpperChar(c) == c)
  {
    var small, large := "abcdefghijklmnopqrstuvwxyz", "ABCDEFGHIJKLMNOPQRSTUVWXYZ";
    assert small[i] as int == 97 + i && large[i] as int == 65 + i;
  }

  function UpperAscii(s: string): (r: string)
    ensures |r| == |s|
    ensures forall i | 0 <= i < |s| :: r[i] == UpperChar(s[i])
  {
    seq(|s|, i requires 0 <= i < |s| => UpperChar(s[i]))
  }

  /** `s` trimmed, its ASCII letters in upper case. */
  function NormalizeDeviceId(s: string): string {
    UpperAscii(Trim(s))
  }

  /** It is idempotent. */
  lemma NormalizeDeviceIdTwice(s: string)
    ensures NormalizeDeviceId(NormalizeDeviceId(s)) == NormalizeDeviceId(s)
  {
    TrimTrims(s);
    TrimmedIsFixed(NormalizeDeviceId(s));
  }
}
