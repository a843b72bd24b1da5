/** Licence codes: two base64url texts around a dot, in lines of 60, through a chat and back. */
module LicenseCode {
  import opened Basics
  import opened Text

  const LINE_WIDTH: nat := 60
  const MAX_PAYLOAD_BYTES: nat := 4096
  const SIGNATURE_BYTES: nat := 64

  type Sextet = v: nat | v < 64

  // ----- base64url without padding (RFC 4648 sections 5 and 3.2)

  function CharOf(v: Sextet): char {
    if v < 26 then (v + 65) as char
    else if v < 52 then (v + 71) as char
    else if v < 62 then (v - 4) as char
    else if v == 62 then '-'
    else '_'
  }

  function SextetOf(c: char): Option<Sextet> {
    var n := c as int;
    if 65 <= n <= 90 then Some(n - 65)
    else if 97 <= n <= 122 then Some(n - 71)
    else if 48 <= n <= 57 then Some(n + 4)
    else if c == '-' then Some(62)
    else if c == '_' then Some(63)
    else None
  }

  lemma CharOfSextet(v: Sextet)
    ensures SextetOf(CharOf(v)) == Some(v)
  {
  }

  lemma SextetOfChar(c: char)
    ensures SextetOf(c).Some? ==> CharOf(SextetOf(c).value) == c
  {
  }

  function EncodeBytes(bytes: seq<Byte>): string {
    if |bytes| == 0 then ""
    else if |bytes| == 1 then
      [CharOf(bytes[0] / 4), CharOf(bytes[0] % 4 * 16)]
    else if |bytes| == 2 then
      [CharOf(bytes[0] / 4), CharOf(bytes[0] % 4 * 16 + bytes[1] / 16), CharOf(bytes[1] % 16 * 4)]
    else
      [CharOf(bytes[0] / 4), CharOf(bytes[0] % 4 * 16 + bytes[1] / 16),
       CharOf(bytes[1] % 16 * 4 + bytes[2] / 64), CharOf(bytes[2] % 64)]
      + EncodeBytes(bytes[3..])
  }

  /** Strict: no other symbol, no padding, no lone last symbol, and no stray bits in the last one. */
  function DecodeText(text: string): Option<seq<Byte>> {
    if |text| == 0 then Some([])
    else if |text| == 1 then None
    else
      match (SextetOf(text[0]), SextetOf(text[1]))
      case (Some(a), Some(b)) =>
        var first: Byte := a * 4 + b / 16;
        if |text| == 2 then (if b % 16 == 0 then Some([first]) else None)
        else
          (match SextetOf(text[2])
           case None => None
           case Some(c) =>
             var second: Byte := b % 16 * 16 + c / 4;
             if |text| == 3 then (if c % 4 == 0 then Some([first, second]) else None)
             else
               (match (SextetOf(text[3]), DecodeText(text[4..]))
                case (Some(d), Some(rest)) =>
                  var third: Byte := c % 4 * 64 + d;
                  Some([first, second, third] + rest)
                case _ => None))
      case _ => None
  }

  /** Three bytes cut into four sextets and joined again; the missing ones of a short end count as 0. */
  lemma CutAndJoin(x: Byte, y: Byte, z: Byte)
    ensures var a, b, c, d := x / 4, x % 4 * 16 + y / 16, y % 16 * 4 + z / 64, z % 64;
            && a < 64 && b < 64 && c < 64 && d < 64
            && a * 4 + b / 16 == x && b % 16 * 16 + c / 4 == y && c % 4 * 64 + d == z
            && (y == 0 ==> b % 16 == 0) && (z == 0 ==> c % 4 == 0)
  {
  }

  lemma JoinAndCut(a: Sextet, b: Sextet, c: Sextet, d: Sextet)
    ensures var x, y, z := a * 4 + b / 16, b % 16 * 16 + c / 4, c % 4 * 64 + d;
            && x < 256 && y < 256 && z < 256
            && x / 4 == a && x % 4 * 16 + y / 16 == b && y % 16 * 4 + z / 64 == c && z % 64 == d
            && (b % 16 == 0 ==> x % 4 * 16 == b) && (c % 4 == 0 ==> y % 16 * 4 == c)
  {
  }

  lemma DecodeTwo(a: Sextet, b: Sextet)
    requires b % 16 == 0
    ensures DecodeText([CharOf(a), CharOf(b)]) == Some([a * 4 + b / 16])
  {
    CharOfSextet(a);
    CharOfSextet(b);
  }

  lemma DecodeThree(a: Sextet, b: Sextet, c: Sextet)
    requires c % 4 == 0
    ensures DecodeText([CharOf(a), CharOf(b), CharOf(c)]) == Some([a * 4 + b / 16, b % 16 * 16 + c / 4])
  {
    CharOfSextet(a);
    CharOfSextet(b);
    CharOfSextet(c);
  }

  lemma DecodeShort(x: Byte, y: Byte)
    ensures DecodeText(EncodeBytes([x])) == Some([x])
    ensures DecodeText(EncodeBytes([x, y])) == Some([x, y])
  {
    CutAndJoin(x, 0, 0);
    DecodeTwo(x / 4, x % 4 * 16);
    assert EncodeBytes([x]) == [CharOf(x / 4), CharOf(x % 4 * 16)];
    CutAndJoin(x, y, 0);
    DecodeThree(x / 4, x % 4 * 16 + y / 16, y % 16 * 4);
    assert EncodeBytes([x, y]) == [CharOf(x / 4), CharOf(x % 4 * 16 + y / 16), CharOf(y % 16 * 4)];
  }

  lemma {:induction false} DecodeEncodes(bytes: seq<Byte>)
    ensures DecodeText(EncodeBytes(bytes)) == Some(bytes)
  {
    if |bytes| == 1 {
      DecodeShort(bytes[0], 0);
      assert bytes == [bytes[0]];
    } else if |bytes| == 2 {
      DecodeShort(bytes[0], bytes[1]);
      assert bytes == [bytes[0], bytes[1]];
    } else if |bytes| > 2 {
      var x, y, z, rest := bytes[0], bytes[1], bytes[2], bytes[3..];
      DecodeEncodes(rest);
      DecodeWhole(x, y, z, rest);
      assert bytes == [x, y, z] + rest;
    }
  }

  lemma DecodeWhole(x: Byte, y: Byte, z: Byte, rest: seq<Byte>)
    requires DecodeText(EncodeBytes(rest)) == Some(rest)
    ensures DecodeText(EncodeBytes([x, y, z] + rest)) == Some([x, y, z] + rest)
  {
    CutAndJoin(x, y, z);
    EncodeBlock(x, y, z, rest);
    DecodeBlock(x / 4, x % 4 * 16 + y / 16, y % 16 * 4 + z / 64, z % 64, x, y, z, EncodeBytes(rest), rest);
  }

  lemma DecodeBlock(a: Sextet, b: Sextet, c: Sextet, d: Sextet, x: Byte, y: Byte, z: Byte, text: string, bytes: seq<Byte>)
    requires x == a * 4 + b / 16 && y == b % 16 * 16 + c / 4 && z == c % 4 * 64 + d
    requires DecodeText(text) == Some(bytes)
    ensures DecodeText([CharOf(a), CharOf(b), CharOf(c), CharOf(d)] + text) == Some([x, y, z] + bytes)
  {
    CharOfSextet(a);
    CharOfSextet(b);
    CharOfSextet(c);
    CharOfSextet(d);
    assert ([CharOf(a), CharOf(b), CharOf(c), CharOf(d)] + text)[4..] == text;
  }

  lemma EncodeBlock(x: Byte, y: Byte, z: Byte, rest: seq<Byte>)
    ensures EncodeBytes([x, y, z] + rest)
         == [CharOf(x / 4), CharOf(x % 4 * 16 + y / 16), CharOf(y % 16 * 4 + z / 64), CharOf(z % 64)] + EncodeBytes(rest)
  {
    assert ([x, y, z] + rest)[3..] == rest;
  }

  /** A decoded text of four symbols or more starts with the code of three bytes. */
  lemma DecodedBlock(text: string) returns (x: Byte, y: Byte, z: Byte, rest: seq<Byte>)
    requires |text| >= 4 && DecodeText(text).Some?
    ensures text[..4] == [CharOf(x / 4), CharOf(x % 4 * 16 + y / 16), CharOf(y % 16 * 4 + z / 64), CharOf(z % 64)]
    ensures DecodeText(text[4..]) == Some(rest)
    ensures DecodeText(text).value == [x, y, z] + rest
  {
    var a: nat, b: nat := SextetOf(text[0]).value, SextetOf(text[1]).value;
    var c: nat, d: nat := SextetOf(text[2]).value, SextetOf(text[3]).value;
    rest := DecodeText(text[4..]).value;
    x, y, z := a * 4 + b / 16, b % 16 * 16 + c / 4, c % 4 * 64 + d;
    JoinAndCut(a, b, c, d);
    SextetOfChar(text[0]);
    SextetOfChar(text[1]);
    SextetOfChar(text[2]);
    SextetOfChar(text[3]);
  }

  lemma EncodeTwo(text: string)
    requires |text| == 2 && DecodeText(text).Some?
    ensures EncodeBytes(DecodeText(text).value) == text
  {
    var a: nat, b: nat := SextetOf(text[0]).value, SextetOf(text[1]).value;
    JoinAndCut(a, b, 0, 0);
    SextetOfChar(text[0]);
    SextetOfChar(text[1]);
    assert DecodeText(text).value == [a * 4 + b / 16];
  }

  lemma EncodeTwoBytes(a: Sextet, b: Sextet, c: Sextet, x: Byte, y: Byte)
    requires c % 4 == 0 && x == a * 4 + b / 16 && y == b % 16 * 16 + c / 4
    ensures EncodeBytes([x, y]) == [CharOf(a), CharOf(b), CharOf(c)]
  {
    JoinAndCut(a, b, c, 0);
  }

  lemma DecodedThree(text: string) returns (a: Sextet, b: Sextet, c: Sextet, x: Byte, y: Byte)
    requires |text| == 3 && DecodeText(text).Some?
    ensures text == [CharOf(a), CharOf(b), CharOf(c)] && DecodeText(text) == Some([x, y])
    ensures c % 4 == 0 && x == a * 4 + b / 16 && y == b % 16 * 16 + c / 4
  {
    a, b, c := SextetOf(text[0]).value, SextetOf(text[1]).value, SextetOf(text[2]).value;
    x, y := a * 4 + b / 16, b % 16 * 16 + c / 4;
    SextetOfChar(text[0]);
    SextetOfChar(text[1]);
    SextetOfChar(text[2]);
  }

  lemma EncodeThree(text: string)
    requires |text| == 3 && DecodeText(text).Some?
    ensures EncodeBytes(DecodeText(text).value) == text
  {
    var a, b, c, x, y := DecodedThree(text);
    EncodeTwoBytes(a, b, c, x, y);
  }

  lemma {:induction false} EncodeDecodes(text: string)
    requires DecodeText(text).Some?
    ensures EncodeBytes(DecodeText(text).value) == text
  {
    if |text| >= 4 {
      var x, y, z, rest := DecodedBlock(text);
      EncodeBlock(x, y, z, rest);
      EncodeDecodes(text[4..]);
      assert text == text[..4] + text[4..];
    } else if |text| == 3 {
      EncodeThree(text);
    } else if |text| == 2 {
      EncodeTwo(text);
    }
  }

  predicate IsCodeChar(c: char) {
    SextetOf(c).Some?
  }

  lemma {:induction false} EncodeUsesAlphabet(bytes: seq<Byte>)
    ensures forall c | c in EncodeBytes(bytes) :: IsCodeChar(c)
  {
    forall v: Sextet
      ensures IsCodeChar(CharOf(v))
    {
      CharOfSextet(v);
    }
    if |bytes| > 2 {
      EncodeUsesAlphabet(bytes[3..]);
    }
  }

  // ----- what the symbols mean: the bits of the bytes, six to a symbol

  /** The alphabet is table 2 of RFC 4648. */
  lemma AlphabetIs(v: Sextet)
    ensures v < 26 ==> CharOf(v) == "ABCDEFGHIJKLMNOPQRSTUVWXYZ"[v]
    ensures 26 <= v < 52 ==> CharOf(v) == "abcdefghijklmnopqrstuvwxyz"[v - 26]
    ensures 52 <= v ==> CharOf(v) == "0123456789-_"[v - 52]
  {
  }

  /** The number the bytes write in base 256, after `before`. */
  function NumberOfBytes(before: nat, bytes: seq<Byte>): nat
    decreases |bytes|
  {
    if bytes == [] then before else NumberOfBytes(before * 256 + bytes[0], bytes[1..])
  }

  /** The number the symbols write in base 64, after `before`. */
  function NumberOfText(before: nat, text: string): nat
    requires forall c | c in text :: IsCodeChar(c)
    decreases |text|
  {
    if text == "" then before
    else
      assert text[0] in text && IsCodeChar(text[0]) && forall c | c in text[1..] :: c in text;
      NumberOfText(before * 64 + SextetOf(text[0]).value, text[1..])
  }

  lemma NumberOfOneMore(before: nat, v: Sextet, text: string)
    requires forall c | c in text :: IsCodeChar(c)
    ensures forall c | c in [CharOf(v)] + text :: IsCodeChar(c)
    ensures NumberOfText(before, [CharOf(v)] + text) == NumberOfText(before * 64 + v, text)
  {
    CharOfSextet(v);
    assert ([CharOf(v)] + text)[1..] == text;
  }

  lemma NumberOfTwoMore(before: nat, a: Sextet, b: Sextet, text: string, number: nat)
    requires (forall c | c in text :: IsCodeChar(c)) && number == before * 4096 + a * 64 + b
    ensures forall c | c in [CharOf(a), CharOf(b)] + text :: IsCodeChar(c)
    ensures NumberOfText(before, [CharOf(a), CharOf(b)] + text) == NumberOfText(number, text)
  {
    NumberOfOneMore(before * 64 + a, b, text);
    NumberOfOneMore(before, a, [CharOf(b)] + text);
    assert [CharOf(a), CharOf(b)] + text == [CharOf(a)] + ([CharOf(b)] + text);
  }

  lemma NumberOfFourMore(before: nat, a: Sextet, b: Sextet, c: Sextet, d: Sextet, text: string, number: nat)
    requires (forall c | c in text :: IsCodeChar(c)) && number == before * 16777216 + a * 262144 + b * 4096 + c * 64 + d
    ensures forall e | e in [CharOf(a), CharOf(b), CharOf(c), CharOf(d)] + text :: IsCodeChar(e)
    ensures NumberOfText(before, [CharOf(a), CharOf(b), CharOf(c), CharOf(d)] + text) == NumberOfText(number, text)
  {
    NumberOfTwoMore(before * 4096 + a * 64 + b, c, d, text, number);
    NumberOfTwoMore(before, a, b, [CharOf(c), CharOf(d)] + text, before * 4096 + a * 64 + b);
    assert [CharOf(a), CharOf(b), CharOf(c), CharOf(d)] + text == [CharOf(a), CharOf(b)] + ([CharOf(c), CharOf(d)] + text);
  }

  lemma NumberOfOneByte(before: nat, x: Byte, rest: seq<Byte>)
    ensures NumberOfBytes(before, [x] + rest) == NumberOfBytes(before * 256 + x, rest)
  {
    assert ([x] + rest)[1..] == rest;
  }

  lemma NumberOfThreeBytes(before: nat, x: Byte, y: Byte, z: Byte, rest: seq<Byte>, number: nat)
    requires number == before * 16777216 + x * 65536 + y * 256 + z
    ensures NumberOfBytes(before, [x, y, z] + rest) == NumberOfBytes(number, rest)
  {
    NumberOfOneByte(before, x, [y, z] + rest);
    NumberOfOneByte(before * 256 + x, y, [z] + rest);
    NumberOfOneByte(before * 65536 + x * 256 + y, z, rest);
    assert [x, y, z] + rest == [x] + ([y, z] + rest) && [y, z] + rest == [y] + ([z] + rest);
  }

  /** The number, with zero bits after it that fill up the last symbol of `n` bytes. */
  function Filled(number: nat, n: nat): nat {
    if n % 3 == 0 then number else if n % 3 == 1 then 16 * number else 4 * number
  }

  /** `text` writes, in base 64, the number `bytes` write in base 256, filled up to whole symbols. */
  predicate WritesNumber(before: nat, bytes: seq<Byte>, text: string) {
    && (forall c | c in text :: IsCodeChar(c))
    && NumberOfText(before, text) == Filled(NumberOfBytes(before, bytes), |bytes|)
  }

  lemma {:induction false} CodeWritesTheNumber(before: nat, bytes: seq<Byte>)
    ensures WritesNumber(before, bytes, EncodeBytes(bytes))
    decreases |bytes|
  {
    if |bytes| == 1 {
      WritesOne(before, bytes[0], bytes);
    } else if |bytes| == 2 {
      WritesTwo(before, bytes[0], bytes[1], bytes);
    } else if |bytes| > 2 {
      var number := NumberAfter(before, bytes[0], bytes[1], bytes[2]);
      CodeWritesTheNumber(number, bytes[3..]);
      WritesThree(before, bytes[0], bytes[1], bytes[2], bytes[3..], bytes, number);
    }
  }

  /** n bytes take as many symbols as hold their 8n bits. */
  lemma {:induction false} LengthOfCode(bytes: seq<Byte>)
    ensures |EncodeBytes(bytes)| == (8 * |bytes| + 5) / 6
  {
    if |bytes| > 2 {
      LengthOfCode(bytes[3..]);
    }
  }

  function NumberAfter(before: nat, x: nat, y: nat, z: nat): nat {
    before * 16777216 + x * 65536 + y * 256 + z
  }

  lemma TextOfThree(before: nat, x: Byte, y: Byte, z: Byte, rest: seq<Byte>, bytes: seq<Byte>, number: nat)
    requires bytes == [x, y, z] + rest && number == NumberAfter(before, x, y, z)
    requires forall c | c in EncodeBytes(rest) :: IsCodeChar(c)
    ensures forall c | c in EncodeBytes(bytes) :: IsCodeChar(c)
    ensures NumberOfText(before, EncodeBytes(bytes)) == NumberOfText(number, EncodeBytes(rest))
  {
    CutAndJoin(x, y, z);
    NumberOfFourMore(before, x / 4, x % 4 * 16 + y / 16, y % 16 * 4 + z / 64, z % 64, EncodeBytes(rest), number);
    assert bytes[3..] == rest;
  }

  lemma WritesMore(before: nat, bytes: seq<Byte>, text: string, number: nat, rest: seq<Byte>, restText: string)
    requires forall c | c in text :: IsCodeChar(c)
    requires WritesNumber(number, rest, restText) && |bytes| == |rest| + 3
    requires NumberOfBytes(before, bytes) == NumberOfBytes(number, rest) && NumberOfText(before, text) == NumberOfText(number, restText)
    ensures WritesNumber(before, bytes, text)
  {
    assert |bytes| % 3 == |rest| % 3;
  }

  lemma WritesThree(before: nat, x: Byte, y: Byte, z: Byte, rest: seq<Byte>, bytes: seq<Byte>, number: nat)
    requires bytes == [x, y, z] + rest && number == NumberAfter(before, x, y, z)
    requires WritesNumber(number, rest, EncodeBytes(rest))
    ensures WritesNumber(before, bytes, EncodeBytes(bytes))
  {
    TextOfThree(before, x, y, z, rest, bytes, number);
    NumberOfThreeBytes(before, x, y, z, rest, number);
    WritesMore(before, bytes, EncodeBytes(bytes), number, rest, EncodeBytes(rest));
  }

  lemma WritesOne(before: nat, x: Byte, bytes: seq<Byte>)
    requires bytes == [x]
    ensures WritesNumber(before, bytes, EncodeBytes(bytes))
  {
    CutAndJoin(x, 0, 0);
    var number: nat := (before * 256 + x) * 16;
    NumberOfTwoMore(before, x / 4, x % 4 * 16, "", number);
    assert EncodeBytes(bytes) == [CharOf(x / 4), CharOf(x % 4 * 16)] + "";
    NumberOfOneByte(before, x, []);
    assert [x] + [] == bytes;
  }

  lemma WritesTwo(before: nat, x: Byte, y: Byte, bytes: seq<Byte>)
    requires bytes == [x, y]
    ensures WritesNumber(before, bytes, EncodeBytes(bytes))
  {
    CutAndJoin(x, y, 0);
    var a: int, b: int, c: int := x / 4, x % 4 * 16 + y / 16, y % 16 * 4;
    var number := before * 4096 + a * 64 + b;
    NumberOfOneMore(number, c, "");
    NumberOfTwoMore(before, a, b, [CharOf(c)], number);
    assert [CharOf(c)] + "" == [CharOf(c)] && [CharOf(a), CharOf(b)] + [CharOf(c)] == EncodeBytes([x, y]);
    NumberOfOneByte(before, x, [y]);
    NumberOfOneByte(before * 256 + x, y, []);
    assert [x] + [y] == [x, y] && [y] + [] == [y];
    assert number * 64 + c == ((before * 256 + x) * 256 + y) * 4;
  }

  // ----- the code

  datatype Parts = Parts(payload: seq<Byte>, signature: seq<Byte>)

  function Encode(payload: seq<Byte>, signature: seq<Byte>): string {
    EncodeBytes(payload) + "." + EncodeBytes(signature)
  }

  function IndexOf(text: string, c: char): (i: nat)
    ensures i <= |text| && c !in text[..i]
    ensures i < |text| ==> text[i] == c
    ensures i == |text| ==> c !in text
  {
    if text == "" || text[0] == c then 0
    else
      assert forall i | 0 <= i <= |text[1..]| :: text[..i + 1] == [text[0]] + text[1..][..i];
      IndexOf(text[1..], c) + 1
  }

  function TrimPadding(text: string): string {
    if text != "" && text[|text| - 1] == '=' then TrimPadding(text[..|text| - 1]) else text
  }

  /** The two halves around the only dot, each without its padding, if both decode to licence sizes. */
  function Decode(normalized: string): Option<Parts> {
    var dot := IndexOf(normalized, '.');
    if dot == |normalized| then None
    else
      var payloadPart, signaturePart := normalized[..dot], normalized[dot + 1..];
      if payloadPart == "" || signaturePart == "" || '.' in signaturePart then None
      else
        match (DecodeText(TrimPadding(payloadPart)), DecodeText(TrimPadding(signaturePart)))
        case (Some(payload), Some(signature)) =>
          if payload == [] || |payload| > MAX_PAYLOAD_BYTES || |signature| != SIGNATURE_BYTES then None
          else Some(Parts(payload, signature))
        case _ => None
  }

  function Padding(n: nat): (r: string)
    ensures |r| == n && forall c | c in r :: c == '='
  {
    seq(n, _ => '=')
  }

  lemma {:induction false} TrimOfPadded(text: string, n: nat)
    requires '=' !in text
    ensures TrimPadding(text + Padding(n)) == text
  {
    if n == 0 {
      assert text + Padding(0) == text;
      assert text != "" ==> text[|text| - 1] in text;
    } else {
      assert (text + Padding(n))[..|text| + n - 1] == text + Padding(n - 1);
      TrimOfPadded(text, n - 1);
    }
  }

  lemma {:induction false} TrimLeavesPadding(text: string)
    ensures |TrimPadding(text)| <= |text|
    ensures text == TrimPadding(text) + Padding(|text| - |TrimPadding(text)|)
  {
    if text != "" && text[|text| - 1] == '=' {
      TrimLeavesPadding(text[..|text| - 1]);
    }
  }

  predicate IsLicense(p: Parts) {
    1 <= |p.payload| <= 4096 && |p.signature| == 64
  }

  function PaddedHalf(bytes: seq<Byte>, n: nat): string {
    EncodeBytes(bytes) + Padding(n)
  }

  /** The code of `p`, each half with some padding after it. */
  function Padded(p: Parts, m: nat, n: nat): string {
    PaddedHalf(p.payload, m) + "." + PaddedHalf(p.signature, n)
  }

  lemma {:induction false} IndexOfIs(text: string, c: char, i: nat)
    requires i < |text| && text[i] == c && c !in text[..i]
    ensures IndexOf(text, c) == i
  {
    if i > 0 {
      assert text[0] == text[..i][0];
      assert text[..i][1..] == text[1..][..i - 1];
      IndexOfIs(text[1..], c, i - 1);
    }
  }

  lemma SplitAtDot(before: string, after: string)
    requires '.' !in before
    ensures IndexOf(before + "." + after, '.') == |before|
    ensures (before + "." + after)[..|before|] == before && (before + "." + after)[|before| + 1..] == after
  {
    IndexOfIs(before + "." + after, '.', |before|);
  }

  lemma EncodedIsClean(bytes: seq<Byte>)
    ensures '.' !in EncodeBytes(bytes) && '=' !in EncodeBytes(bytes)
    ensures bytes != [] ==> EncodeBytes(bytes) != ""
  {
    EncodeUsesAlphabet(bytes);
  }

  lemma PaddedDecodes(p: Parts, m: nat, n: nat)
    requires IsLicense(p)
    ensures Decode(Padded(p, m, n)) == Some(p)
  {
    EncodedIsClean(p.payload);
    EncodedIsClean(p.signature);
    var a, b := PaddedHalf(p.payload, m), PaddedHalf(p.signature, n);
    SplitAtDot(a, b);
    TrimOfPadded(EncodeBytes(p.payload), m);
    TrimOfPadded(EncodeBytes(p.signature), n);
    DecodeEncodes(p.payload);
    DecodeEncodes(p.signature);
  }

  lemma HalfIsPadded(part: string)
    requires DecodeText(TrimPadding(part)).Some?
    ensures |TrimPadding(part)| <= |part|
    ensures part == PaddedHalf(DecodeText(TrimPadding(part)).value, |part| - |TrimPadding(part)|)
  {
    TrimLeavesPadding(part);
    EncodeDecodes(TrimPadding(part));
  }

  lemma DecodedHalves(text: string) returns (a: string, b: string)
    requires Decode(text).Some?
    ensures text == a + "." + b
    ensures DecodeText(TrimPadding(a)) == Some(Decode(text).value.payload)
    ensures DecodeText(TrimPadding(b)) == Some(Decode(text).value.signature)
    ensures IsLicense(Decode(text).value)
  {
    var dot := IndexOf(text, '.');
    a, b := text[..dot], text[dot + 1..];
  }

  lemma DecodedIsPadded(text: string) returns (m: nat, n: nat)
    requires Decode(text).Some?
    ensures IsLicense(Decode(text).value)
    ensures text == Padded(Decode(text).value, m, n)
  {
    var a, b := DecodedHalves(text);
    HalfIsPadded(a);
    HalfIsPadded(b);
    m, n := |a| - |TrimPadding(a)|, |b| - |TrimPadding(b)|;
  }

  /** A text is a code of `p` exactly when it is `p` encoded, up to padding after either half. */
  lemma DecodesExactlyItsCode(text: string, p: Parts)
    ensures Decode(text) == Some(p) <==> IsLicense(p) && exists m: nat, n: nat :: text == Padded(p, m, n)
  {
    if Decode(text) == Some(p) {
      var m, n := DecodedIsPadded(text);
    }
    if IsLicense(p) && exists m: nat, n: nat :: text == Padded(p, m, n) {
      var m: nat, n: nat :| text == Padded(p, m, n);
      PaddedDecodes(p, m, n);
    }
  }

  // ----- through a chat and back

  predicate IsInvisibleMark(c: char) {
    var n := c as int;
    0x200B <= n <= 0x200F || 0x202A <= n <= 0x202E || 0x2060 <= n <= 0x2069 || n == 0xFEFF
  }

  predicate IsIgnored(c: char) {
    IsWhitespace(c) || IsInvisibleMark(c)
  }

  function Normalize(input: string): string {
    if input == "" then ""
    else (if IsIgnored(input[0]) then "" else [input[0]]) + Normalize(input[1..])
  }

  /** A line break after every 60 characters but at the end. */
  function Wrap(code: string): string {
    if |code| <= LINE_WIDTH then code else code[..LINE_WIDTH] + "\n" + Wrap(code[LINE_WIDTH..])
  }

  /** `text` is `sent` with white space and invisible marks put in anywhere. */
  ghost predicate Spaced(text: string, sent: string) {
    if text == "" then sent == ""
    else
      || (IsIgnored(text[0]) && Spaced(text[1..], sent))
      || (sent != "" && text[0] == sent[0] && Spaced(text[1..], sent[1..]))
  }

  lemma {:induction false} SpacedNormalizes(text: string, sent: string)
    requires Spaced(text, sent)
    ensures Normalize(text) == Normalize(sent)
  {
    if text != "" {
      if IsIgnored(text[0]) && Spaced(text[1..], sent) {
        SpacedNormalizes(text[1..], sent);
      } else {
        SpacedNormalizes(text[1..], sent[1..]);
      }
    }
  }

  lemma NormalizeOneMore(c: char, rest: string)
    ensures Normalize([c] + rest) == (if IsIgnored(c) then "" else [c]) + Normalize(rest)
  {
    assert ([c] + rest)[1..] == rest;
  }

  lemma {:induction false} NormalizeConcat(a: string, b: string)
    ensures Normalize(a + b) == Normalize(a) + Normalize(b)
  {
    if a == "" {
      assert a + b == b;
    } else {
      var c, rest := a[0], a[1..];
      NormalizeConcat(rest, b);
      NormalizeOneMore(c, rest);
      NormalizeOneMore(c, rest + b);
      assert a == [c] + rest && a + b == [c] + (rest + b);
    }
  }

  lemma {:induction false} WrapNormalizes(code: string)
    ensures Normalize(Wrap(code)) == Normalize(code)
  {
    if |code| > LINE_WIDTH {
      var line, rest := code[..LINE_WIDTH], code[LINE_WIDTH..];
      WrapNormalizes(rest);
      NormalizeConcat(line + "\n", Wrap(rest));
      NormalizeConcat(line, "\n");
      NormalizeConcat(line, rest);
      assert line + rest == code;
      assert Normalize("\n") == "";
    }
  }

  /** Every line that is sent is at most 60 characters long. */
  predicate LinesFit(text: string, width: nat) {
    var end := IndexOf(text, '\n');
    end <= width && (end < |text| ==> LinesFit(text[end + 1..], width))
  }

  lemma {:induction false} WrappedLinesFit(code: string)
    requires '\n' !in code
    ensures LinesFit(Wrap(code), 60)
  {
    if |code| > LINE_WIDTH {
      var line, rest := code[..LINE_WIDTH], code[LINE_WIDTH..];
      WrappedLinesFit(rest);
      var text := Wrap(code);
      assert text[..LINE_WIDTH] == line;
      IndexOfIs(text, '\n', LINE_WIDTH);
      assert text[LINE_WIDTH + 1..] == Wrap(rest);
    }
  }

  /** A break stands in every sixty-first place, and the code is in the others, in order. */
  lemma {:induction false} WrapIs(code: string, i: nat)
    requires i < |Wrap(code)|
    ensures |Wrap(code)| == if code == "" then 0 else |code| + (|code| - 1) / 60
    ensures i - i / 61 < |code|
    ensures Wrap(code)[i] == if i % 61 == 60 then '\n' else code[i - i / 61]
  {
    if |code| > LINE_WIDTH {
      WrapIs(code[LINE_WIDTH..], if i >= 61 then i - 61 else 0);
    }
  }

  /**
   * What normalizing takes away, by its code points: white space, zero-width and direction marks,
   * isolates and the byte-order mark.
   */
  lemma IgnoredAre(c: char)
    ensures IsIgnored(c)
       <==> c as int in {9, 10, 11, 12, 13, 32, 133, 160, 5760,
                         8192, 8193, 8194, 8195, 8196, 8197, 8198, 8199, 8200, 8201, 8202, 8203, 8204, 8205, 8206, 8207,
                         8232, 8233, 8234, 8235, 8236, 8237, 8238, 8239, 8287,
                         8288, 8289, 8290, 8291, 8292, 8293, 8294, 8295, 8296, 8297, 12288, 65279}
  {
  }

  predicate IsKept(c: char) {
    !IsIgnored(c)
  }

  lemma CodeCharIsKept(c: char)
    requires IsCodeChar(c) || c == '.'
    ensures IsKept(c)
  {
  }

  lemma {:induction false} NormalizeKeeps(text: string)
    requires forall c | c in text :: IsKept(c)
    ensures Normalize(text) == text
  {
    if text != "" {
      var c, rest := text[0], text[1..];
      assert c in text && text == [c] + rest;
      NormalizeKeeps(rest);
    }
  }

  lemma NormalizeKeepsCodes(code: string)
    requires forall c | c in code :: IsCodeChar(c) || c == '.'
    ensures Normalize(code) == code
  {
    forall c | c in code
      ensures IsKept(c)
    {
      CodeCharIsKept(c);
    }
    NormalizeKeeps(code);
  }

  lemma NoPadding(p: Parts)
    ensures Padded(p, 0, 0) == Encode(p.payload, p.signature)
  {
    assert EncodeBytes(p.payload) + Padding(0) == EncodeBytes(p.payload);
    assert EncodeBytes(p.signature) + Padding(0) == EncodeBytes(p.signature);
  }

  /**
   * A code wrapped, sent, and pasted with any white space and invisible marks added on the
   * way gives back the payload and the signature.
   */
  lemma PastedCodeDecodes(p: Parts, text: string)
    requires IsLicense(p)
    requires Spaced(text, Wrap(Encode(p.payload, p.signature)))
    ensures Normalize(text) == Encode(p.payload, p.signature)
    ensures Decode(Normalize(text)) == Some(p)
  {
    var code := Encode(p.payload, p.signature);
    SpacedNormalizes(text, Wrap(code));
    WrapNormalizes(code);
    EncodeUsesAlphabet(p.payload);
    EncodeUsesAlphabet(p.signature);
    NormalizeKeepsCodes(code);
    PaddedDecodes(p, 0, 0);
    NoPadding(p);
  }
}
