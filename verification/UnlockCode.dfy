/** An emergency unlock code as text: printed in three groups, read back however it is typed. */
module UnlockCode {
  import opened Basics
  import opened UnlockNumeral

  datatype UnlockError = Malformed | Typo | NotValid | Expired(validUntil: int)

  // ----- typing a code

  /** The symbol a typed character stands for; separators and everything else stand for none. */
  function Keep(c: char): Option<char> {
    var n := c as int;
    if 0x660 <= n <= 0x669 then Some((n - 0x660 + 48) as char)
    else if 0x6F0 <= n <= 0x6F9 then Some((n - 0x6F0 + 48) as char)
    else if '0' <= c <= '9' || 'A' <= c <= 'Z' then Some(c)
    else if 'a' <= c <= 'z' then Some((n - 32) as char)
    else None
  }

  function Normalize(text: string): string {
    if text == "" then ""
    else match Keep(text[0])
      case None => Normalize(text[1..])
      case Some(c) => [c] + Normalize(text[1..])
  }

  predicate IsSymbol(c: char) {
    '0' <= c <= '9' || 'A' <= c <= 'Z'
  }

  /** `c` is a way of typing `symbol`: as it is, in lower case, or as an Arabic-Indic digit. */
  predicate Types(c: char, symbol: char) {
    var n, s := c as int, symbol as int;
    || c == symbol
    || ('A' <= symbol <= 'Z' && n == s + 32)
    || ('0' <= symbol <= '9' && (n == s - 48 + 0x660 || n == s - 48 + 0x6F0))
  }

  predicate IsSeparator(c: char) {
    forall symbol | IsSymbol(symbol) :: !Types(c, symbol)
  }

  /** `text` is a way of typing `symbols`, with any separators between them. */
  ghost predicate Spells(text: string, symbols: string) {
    if text == "" then symbols == ""
    else
      || (IsSeparator(text[0]) && Spells(text[1..], symbols))
      || (symbols != "" && Types(text[0], symbols[0]) && Spells(text[1..], symbols[1..]))
  }

  lemma KeepIsTypes(c: char, symbol: char)
    requires IsSymbol(symbol)
    ensures Types(c, symbol) <==> Keep(c) == Some(symbol)
  {
  }

  lemma KeepOrSeparator(c: char)
    ensures Keep(c).Some? ==> IsSymbol(Keep(c).value)
    ensures IsSeparator(c) <==> Keep(c) == None
  {
    forall symbol | IsSymbol(symbol)
      ensures Types(c, symbol) <==> Keep(c) == Some(symbol)
    {
      KeepIsTypes(c, symbol);
    }
    if Keep(c).Some? {
      assert Types(c, Keep(c).value);
    }
  }

  lemma {:induction false} SpellsIsNormalize(text: string, symbols: string)
    requires forall c | c in symbols :: IsSymbol(c)
    ensures Spells(text, symbols) <==> Normalize(text) == symbols
  {
    if text != "" {
      KeepOrSeparator(text[0]);
      match Keep(text[0])
      case None =>
        SpellsIsNormalize(text[1..], symbols);
        if symbols != "" {
          KeepIsTypes(text[0], symbols[0]);
        }
      case Some(c) =>
        if symbols != "" {
          KeepIsTypes(text[0], symbols[0]);
          SpellsIsNormalize(text[1..], symbols[1..]);
          assert symbols == [symbols[0]] + symbols[1..];
        }
    }
  }

  // ----- encoding and decoding

  function SymbolsOf(ds: seq<Digit>): (symbols: string)
    ensures |symbols| == |ds|
    ensures forall i | 0 <= i < |ds| :: symbols[i] == ALPHABET[ds[i]]
  {
    seq(|ds|, i requires 0 <= i < |ds| => ALPHABET[ds[i]])
  }

  function DigitsOf(symbols: string): (r: Option<seq<Digit>>)
    ensures r.Some? ==> SymbolsOf(r.value) == symbols
  {
    if symbols == "" then Some([])
    else
      var rest := DigitsOf(symbols[1..]);
      match Position(symbols[0])
      case None => None
      case Some(d) => if rest.None? then None else Some([d] + rest.value)
  }

  lemma {:induction false} DigitsOfSymbols(ds: seq<Digit>)
    ensures DigitsOf(SymbolsOf(ds)) == Some(ds)
  {
    if ds != [] {
      assert SymbolsOf(ds)[1..] == SymbolsOf(ds[1..]);
      DigitsOfSymbols(ds[1..]);
      SymbolsAreDistinct(ds[0]);
      assert ds == [ds[0]] + ds[1..];
    }
  }

  function CodeDigits(x: Word): (ds: seq<Digit>)
    ensures |ds| == CODE_SYMBOLS
  {
    Digits(x, VALUE_SYMBOLS) + [CheckSymbol(Digits(x, VALUE_SYMBOLS))]
  }

  /** The fifteen symbols of the code for `x`. */
  function CodeSymbols(x: Word): (symbols: string)
    ensures |symbols| == CODE_SYMBOLS
  {
    SymbolsOf(CodeDigits(x))
  }

  /** `XXXXX-XXXXX-XXXXX`. */
  function Encode(x: Word): string {
    var symbols := CodeSymbols(x);
    symbols[..5] + "-" + symbols[5..10] + "-" + symbols[10..]
  }

  method EncodeCode(x: Word) returns (code: string)
    ensures code == Encode(x)
  {
    var digits := FillDigits(x);
    var check := ComputeCheckSymbol(digits[..]);
    var symbols := SymbolsOf(digits[..] + [check]);
    code := symbols[..5] + "-" + symbols[5..10] + "-" + symbols[10..];
  }

  function Decode(text: string): Result<Word, UnlockError> {
    var symbols := Normalize(text);
    if |symbols| != CODE_SYMBOLS then Err(Malformed)
    else match DigitsOf(symbols)
      case None => Err(Malformed)
      case Some(ds) =>
        if !Checks(ds) then Err(Typo)
        else if Value(ds[..VALUE_SYMBOLS]) < WORDS then Ok(Value(ds[..VALUE_SYMBOLS]))
        else Err(Malformed)
  }

  lemma AlphabetIsSymbols(ds: seq<Digit>)
    ensures forall c | c in SymbolsOf(ds) :: IsSymbol(c)
  {
    forall d: Digit
      ensures IsSymbol(ALPHABET[d])
    {
      RankOfSymbol(d);
    }
  }

  /** A text decodes to `x` exactly when it is a way of typing the code for `x`. */
  lemma DecodesExactlyItsCode(text: string, x: Word)
    ensures Decode(text) == Ok(x) <==> Spells(text, CodeSymbols(x))
  {
    var ds := Digits(x, VALUE_SYMBOLS);
    AlphabetIsSymbols(CodeDigits(x));
    SpellsIsNormalize(text, CodeSymbols(x));
    WordsFit();
    ValueOfDigits(x, VALUE_SYMBOLS);
    DigitsOfSymbols(CodeDigits(x));
    assert CodeDigits(x)[..VALUE_SYMBOLS] == ds;
    if Decode(text) == Ok(x) {
      var typed := DigitsOf(Normalize(text)).value;
      DigitsOfValue(typed[..VALUE_SYMBOLS]);
      assert typed == typed[..VALUE_SYMBOLS] + [typed[VALUE_SYMBOLS]];
      assert typed == CodeDigits(x);
    }
  }

  lemma {:induction false} NormalizeConcat(a: string, b: string)
    ensures Normalize(a + b) == Normalize(a) + Normalize(b)
  {
    if a == "" {
      assert a + b == b;
    } else {
      var rest := a[1..];
      NormalizeConcat(rest, b);
      assert (a + b)[0] == a[0] && (a + b)[1..] == rest + b;
      if Keep(a[0]).Some? {
        var c := Keep(a[0]).value;
        assert [c] + (Normalize(rest) + Normalize(b)) == [c] + Normalize(rest) + Normalize(b);
      }
    }
  }

  lemma {:induction false} NormalizeKeeps(symbols: string)
    requires forall c | c in symbols :: IsSymbol(c)
    ensures Normalize(symbols) == symbols
  {
    if symbols != "" {
      NormalizeKeeps(symbols[1..]);
      assert symbols[0] in symbols;
      assert symbols == [symbols[0]] + symbols[1..];
    }
  }

  /** What the issuer prints is one of the ways of typing it. */
  lemma PrintedCodeDecodes(x: Word)
    ensures |Encode(x)| == 17 && Normalize(Encode(x)) == CodeSymbols(x)
    ensures Decode(Encode(x)) == Ok(x)
  {
    var s := CodeSymbols(x);
    AlphabetIsSymbols(CodeDigits(x));
    NormalizeKeeps(s[..5]);
    NormalizeKeeps(s[5..10]);
    NormalizeKeeps(s[10..]);
    NormalizeConcat(s[..5] + "-" + s[5..10] + "-", s[10..]);
    NormalizeConcat(s[..5] + "-" + s[5..10], "-");
    NormalizeConcat(s[..5] + "-", s[5..10]);
    NormalizeConcat(s[..5], "-");
    assert s[..5] + s[5..10] + s[10..] == s;
    SpellsIsNormalize(Encode(x), s);
    DecodesExactlyItsCode(Encode(x), x);
  }

  // ----- what the check symbol catches

  lemma DigitsAfterChange(ds: seq<Digit>, i: nat, d: Digit)
    requires i < |ds|
    ensures DigitsOf(SymbolsOf(ds)[i := ALPHABET[d]]) == Some(ds[i := d])
  {
    assert SymbolsOf(ds)[i := ALPHABET[d]] == SymbolsOf(ds[i := d]);
    DigitsOfSymbols(ds[i := d]);
  }

  /** Any one symbol of a valid code, misheard as another symbol, is reported as a typo. */
  lemma MisheardSymbolIsTypo(code: string, typed: string, i: nat, d: Digit)
    requires Decode(code).Ok?
    requires i < CODE_SYMBOLS && ALPHABET[d] != Normalize(code)[i]
    requires Normalize(typed) == Normalize(code)[i := ALPHABET[d]]
    ensures Decode(typed) == Err(Typo)
  {
    var ds := DigitsOf(Normalize(code)).value;
    DigitsAfterChange(ds, i, d);
    ChangeIsCaught(ds, i, d);
  }

  lemma DigitsAfterSwap(ds: seq<Digit>, i: nat)
    requires i + 1 < |ds|
    ensures DigitsOf(Swapped(SymbolsOf(ds), i)) == Some(Swapped(ds, i))
  {
    assert Swapped(SymbolsOf(ds), i) == SymbolsOf(Swapped(ds, i));
    DigitsOfSymbols(Swapped(ds, i));
  }

  lemma SymbolsAreEqual(d: Digit, e: Digit)
    ensures ALPHABET[d] == ALPHABET[e] <==> d == e
  {
    SymbolsAreDistinct(d);
    SymbolsAreDistinct(e);
  }

  /** Two different neighbours read in the wrong order pass the check only as '2' and 'Z'. */
  lemma SwappedSymbolsAreTypoUnless(code: string, typed: string, i: nat)
    requires Decode(code).Ok?
    requires i + 1 < CODE_SYMBOLS && Normalize(code)[i] != Normalize(code)[i + 1]
    requires Normalize(typed) == Swapped(Normalize(code), i)
    ensures Decode(typed) != Err(Typo) <==>
            var a, b := Normalize(code)[i], Normalize(code)[i + 1];
            (a == '2' && b == 'Z') || (a == 'Z' && b == '2')
  {
    var ds := DigitsOf(Normalize(code)).value;
    DigitsAfterSwap(ds, i);
    SwapIsCaughtUnless(ds, i);
    SymbolsAreEqual(ds[i], 0);
    SymbolsAreEqual(ds[i], 29);
    SymbolsAreEqual(ds[i + 1], 0);
    SymbolsAreEqual(ds[i + 1], 29);
  }
}
