/** Code 128 subset C: the barcode on a printed customer card. */
module Code128 {
  import opened Basics

  const START_C: nat := 105
  const QUIET_ZONE_MODULES: nat := 10

  /** A symbol value other than STOP. */
  type SymbolValue = v: nat | v <= START_C

  // ----- the pattern table

  /** The widths of bar, space, bar, space, bar and space, in modules. */
  datatype Pattern = P(b1: nat, s1: nat, b2: nat, s2: nat, b3: nat, s3: nat) {
    function Widths(): (ws: seq<nat>)
      ensures |ws| == 6
    {
      [b1, s1, b2, s2, b3, s3]
    }

    /** Six elements, none empty, that add up to eleven modules. */
    predicate IsElevenModules() {
      && b1 > 0 && s1 > 0 && b2 > 0 && s2 > 0 && b3 > 0 && s3 > 0
      && b1 + s1 + b2 + s2 + b3 + s3 == 11
    }
  }

  /** The patterns by symbol value, ten to a row. */
  function PatternOf(v: SymbolValue): Pattern {
    match v / 10 {
      case 0 =>
        (match v % 10 {
          case 0 => P(2, 1, 2, 2, 2, 2) case 1 => P(2, 2, 2, 1, 2, 2) case 2 => P(2, 2, 2, 2, 2, 1) case 3 => P(1, 2, 1, 2, 2, 3)
          case 4 => P(1, 2, 1, 3, 2, 2) case 5 => P(1, 3, 1, 2, 2, 2) case 6 => P(1, 2, 2, 2, 1, 3) case 7 => P(1, 2, 2, 3, 1, 2)
          case 8 => P(1, 3, 2, 2, 1, 2) case _ => P(2, 2, 1, 2, 1, 3)
        })
      case 1 =>
        (match v % 10 {
          case 0 => P(2, 2, 1, 3, 1, 2) case 1 => P(2, 3, 1, 2, 1, 2) case 2 => P(1, 1, 2, 2, 3, 2) case 3 => P(1, 2, 2, 1, 3, 2)
          case 4 => P(1, 2, 2, 2, 3, 1) case 5 => P(1, 1, 3, 2, 2, 2) case 6 => P(1, 2, 3, 1, 2, 2) case 7 => P(1, 2, 3, 2, 2, 1)
          case 8 => P(2, 2, 3, 2, 1, 1) case _ => P(2, 2, 1, 1, 3, 2)
        })
      case 2 =>
        (match v % 10 {
          case 0 => P(2, 2, 1, 2, 3, 1) case 1 => P(2, 1, 3, 2, 1, 2) case 2 => P(2, 2, 3, 1, 1, 2) case 3 => P(3, 1, 2, 1, 3, 1)
          case 4 => P(3, 1, 1, 2, 2, 2) case 5 => P(3, 2, 1, 1, 2, 2) case 6 => P(3, 2, 1, 2, 2, 1) case 7 => P(3, 1, 2, 2, 1, 2)
          case 8 => P(3, 2, 2, 1, 1, 2) case _ => P(3, 2, 2, 2, 1, 1)
        })
      case 3 =>
        (match v % 10 {
          case 0 => P(2, 1, 2, 1, 2, 3) case 1 => P(2, 1, 2, 3, 2, 1) case 2 => P(2, 3, 2, 1, 2, 1) case 3 => P(1, 1, 1, 3, 2, 3)
          case 4 => P(1, 3, 1, 1, 2, 3) case 5 => P(1, 3, 1, 3, 2, 1) case 6 => P(1, 1, 2, 3, 1, 3) case 7 => P(1, 3, 2, 1, 1, 3)
          case 8 => P(1, 3, 2, 3, 1, 1) case _ => P(2, 1, 1, 3, 1, 3)
        })
      case 4 =>
        (match v % 10 {
          case 0 => P(2, 3, 1, 1, 1, 3) case 1 => P(2, 3, 1, 3, 1, 1) case 2 => P(1, 1, 2, 1, 3, 3) case 3 => P(1, 1, 2, 3, 3, 1)
          case 4 => P(1, 3, 2, 1, 3, 1) case 5 => P(1, 1, 3, 1, 2, 3) case 6 => P(1, 1, 3, 3, 2, 1) case 7 => P(1, 3, 3, 1, 2, 1)
          case 8 => P(3, 1, 3, 1, 2, 1) case _ => P(2, 1, 1, 3, 3, 1)
        })
      case 5 =>
        (match v % 10 {
          case 0 => P(2, 3, 1, 1, 3, 1) case 1 => P(2, 1, 3, 1, 1, 3) case 2 => P(2, 1, 3, 3, 1, 1) case 3 => P(2, 1, 3, 1, 3, 1)
          case 4 => P(3, 1, 1, 1, 2, 3) case 5 => P(3, 1, 1, 3, 2, 1) case 6 => P(3, 3, 1, 1, 2, 1) case 7 => P(3, 1, 2, 1, 1, 3)
          case 8 => P(3, 1, 2, 3, 1, 1) case _ => P(3, 3, 2, 1, 1, 1)
        })
      case 6 =>
        (match v % 10 {
          case 0 => P(3, 1, 4, 1, 1, 1) case 1 => P(2, 2, 1, 4, 1, 1) case 2 => P(4, 3, 1, 1, 1, 1) case 3 => P(1, 1, 1, 2, 2, 4)
          case 4 => P(1, 1, 1, 4, 2, 2) case 5 => P(1, 2, 1, 1, 2, 4) case 6 => P(1, 2, 1, 4, 2, 1) case 7 => P(1, 4, 1, 1, 2, 2)
          case 8 => P(1, 4, 1, 2, 2, 1) case _ => P(1, 1, 2, 2, 1, 4)
        })
      case 7 =>
        (match v % 10 {
          case 0 => P(1, 1, 2, 4, 1, 2) case 1 => P(1, 2, 2, 1, 1, 4) case 2 => P(1, 2, 2, 4, 1, 1) case 3 => P(1, 4, 2, 1, 1, 2)
          case 4 => P(1, 4, 2, 2, 1, 1) case 5 => P(2, 4, 1, 2, 1, 1) case 6 => P(2, 2, 1, 1, 1, 4) case 7 => P(4, 1, 3, 1, 1, 1)
          case 8 => P(2, 4, 1, 1, 1, 2) case _ => P(1, 3, 4, 1, 1, 1)
        })
      case 8 =>
        (match v % 10 {
          case 0 => P(1, 1, 1, 2, 4, 2) case 1 => P(1, 2, 1, 1, 4, 2) case 2 => P(1, 2, 1, 2, 4, 1) case 3 => P(1, 1, 4, 2, 1, 2)
          case 4 => P(1, 2, 4, 1, 1, 2) case 5 => P(1, 2, 4, 2, 1, 1) case 6 => P(4, 1, 1, 2, 1, 2) case 7 => P(4, 2, 1, 1, 1, 2)
          case 8 => P(4, 2, 1, 2, 1, 1) case _ => P(2, 1, 2, 1, 4, 1)
        })
      case 9 =>
        (match v % 10 {
          case 0 => P(2, 1, 4, 1, 2, 1) case 1 => P(4, 1, 2, 1, 2, 1) case 2 => P(1, 1, 1, 1, 4, 3) case 3 => P(1, 1, 1, 3, 4, 1)
          case 4 => P(1, 3, 1, 1, 4, 1) case 5 => P(1, 1, 4, 1, 1, 3) case 6 => P(1, 1, 4, 3, 1, 1) case 7 => P(4, 1, 1, 1, 1, 3)
          case 8 => P(4, 1, 1, 3, 1, 1) case _ => P(1, 1, 3, 1, 4, 1)
        })
      case _ =>
        (match v % 10 {
          case 0 => P(1, 1, 4, 1, 3, 1) case 1 => P(3, 1, 1, 1, 4, 1) case 2 => P(4, 1, 1, 1, 3, 1) case 3 => P(2, 1, 1, 4, 1, 2)
          case 4 => P(2, 1, 1, 2, 1, 4) case _ => P(2, 1, 1, 2, 3, 2)
        })
    }
  }

  const STOP_WIDTHS: seq<nat> := [2, 3, 3, 1, 1, 1, 2]

  /** The symbol with this pattern, looked up by its first two widths and then by the other four. */
  function ValueOf(p: Pattern): Option<SymbolValue> {
    match p.b1 * 10 + p.s1 {
      case 11 =>
        (match p.b2 * 1000 + p.s2 * 100 + p.b3 * 10 + p.s3 {
          case 1143 => Some(92) case 1224 => Some(63) case 1242 => Some(80) case 1323 => Some(33) case 1341 => Some(93)
          case 1422 => Some(64) case 2133 => Some(42) case 2214 => Some(69) case 2232 => Some(12) case 2313 => Some(36)
          case 2331 => Some(43) case 2412 => Some(70) case 3123 => Some(45) case 3141 => Some(99) case 3222 => Some(15)
          case 3321 => Some(46) case 4113 => Some(95) case 4131 => Some(100) case 4212 => Some(83) case 4311 => Some(96)
          case _ => None
        })
      case 12 =>
        (match p.b2 * 1000 + p.s2 * 100 + p.b3 * 10 + p.s3 {
          case 1124 => Some(65) case 1142 => Some(81) case 1223 => Some(3) case 1241 => Some(82) case 1322 => Some(4)
          case 1421 => Some(66) case 2114 => Some(71) case 2132 => Some(13) case 2213 => Some(6) case 2231 => Some(14)
          case 2312 => Some(7) case 2411 => Some(72) case 3122 => Some(16) case 3221 => Some(17) case 4112 => Some(84)
          case 4211 => Some(85) case _ => None
        })
      case 13 =>
        (match p.b2 * 1000 + p.s2 * 100 + p.b3 * 10 + p.s3 {
          case 1123 => Some(34) case 1141 => Some(94) case 1222 => Some(5) case 1321 => Some(35) case 2113 => Some(37)
          case 2131 => Some(44) case 2212 => Some(8) case 2311 => Some(38) case 3121 => Some(47) case 4111 => Some(79)
          case _ => None
        })
      case 14 =>
        (match p.b2 * 1000 + p.s2 * 100 + p.b3 * 10 + p.s3 {
          case 1122 => Some(67) case 1221 => Some(68) case 2112 => Some(73) case 2211 => Some(74) case _ => None
        })
      case 21 =>
        (match p.b2 * 1000 + p.s2 * 100 + p.b3 * 10 + p.s3 {
          case 1214 => Some(104) case 1232 => Some(105) case 1313 => Some(39) case 1331 => Some(49) case 1412 => Some(103)
          case 2123 => Some(30) case 2141 => Some(89) case 2222 => Some(0) case 2321 => Some(31) case 3113 => Some(51)
          case 3131 => Some(53) case 3212 => Some(21) case 3311 => Some(52) case 4121 => Some(90) case _ => None
        })
      case 22 =>
        (match p.b2 * 1000 + p.s2 * 100 + p.b3 * 10 + p.s3 {
          case 1114 => Some(76) case 1132 => Some(19) case 1213 => Some(9) case 1231 => Some(20) case 1312 => Some(10)
          case 1411 => Some(61) case 2122 => Some(1) case 2221 => Some(2) case 3112 => Some(22) case 3211 => Some(18)
          case _ => None
        })
      case 23 =>
        (match p.b2 * 1000 + p.s2 * 100 + p.b3 * 10 + p.s3 {
          case 1113 => Some(40) case 1131 => Some(50) case 1212 => Some(11) case 1311 => Some(41) case 2121 => Some(32)
          case _ => None
        })
      case 24 =>
        (match p.b2 * 1000 + p.s2 * 100 + p.b3 * 10 + p.s3 {
          case 1112 => Some(78) case 1211 => Some(75) case _ => None
        })
      case 31 =>
        (match p.b2 * 1000 + p.s2 * 100 + p.b3 * 10 + p.s3 {
          case 1123 => Some(54) case 1141 => Some(101) case 1222 => Some(24) case 1321 => Some(55) case 2113 => Some(57)
          case 2131 => Some(23) case 2212 => Some(27) case 2311 => Some(58) case 3121 => Some(48) case 4111 => Some(60)
          case _ => None
        })
      case 32 =>
        (match p.b2 * 1000 + p.s2 * 100 + p.b3 * 10 + p.s3 {
          case 1122 => Some(25) case 1221 => Some(26) case 2112 => Some(28) case 2211 => Some(29) case _ => None
        })
      case 33 =>
        (match p.b2 * 1000 + p.s2 * 100 + p.b3 * 10 + p.s3 {
          case 1121 => Some(56) case 2111 => Some(59) case _ => None
        })
      case 41 =>
        (match p.b2 * 1000 + p.s2 * 100 + p.b3 * 10 + p.s3 {
          case 1113 => Some(97) case 1131 => Some(102) case 1212 => Some(86) case 1311 => Some(98) case 2121 => Some(91)
          case 3111 => Some(77) case _ => None
        })
      case 42 =>
        (match p.b2 * 1000 + p.s2 * 100 + p.b3 * 10 + p.s3 {
          case 1112 => Some(87) case 1211 => Some(88) case _ => None
        })
      case 43 =>
        (match p.b2 * 1000 + p.s2 * 100 + p.b3 * 10 + p.s3 {
          case 1111 => Some(62) case _ => None
        })
      case _ => None
    }
  }

  /** The pattern is well formed, and can be read back. */
  predicate IsSound(v: SymbolValue) {
    PatternOf(v).IsElevenModules() && ValueOf(PatternOf(v)) == Some(v)
  }

  lemma Row0IsSound(v: SymbolValue)
    requires v / 10 == 0
    ensures IsSound(v)
  {
    assert v == v % 10;
  }

  lemma Row1IsSound(v: SymbolValue)
    requires v / 10 == 1
    ensures IsSound(v)
  {
    assert v == 10 + v % 10;
  }

  lemma Row2IsSound(v: SymbolValue)
    requires v / 10 == 2
    ensures IsSound(v)
  {
    assert v == 20 + v % 10;
  }

  lemma Row3IsSound(v: SymbolValue)
    requires v / 10 == 3
    ensures IsSound(v)
  {
    assert v == 30 + v % 10;
  }

  lemma Row4IsSound(v: SymbolValue)
    requires v / 10 == 4
    ensures IsSound(v)
  {
    assert v == 40 + v % 10;
  }

  lemma Row5IsSound(v: SymbolValue)
    requires v / 10 == 5
    ensures IsSound(v)
  {
    assert v == 50 + v % 10;
  }

  lemma Row6IsSound(v: SymbolValue)
    requires v / 10 == 6
    ensures IsSound(v)
  {
    assert v == 60 + v % 10;
  }

  lemma Row7IsSound(v: SymbolValue)
    requires v / 10 == 7
    ensures IsSound(v)
  {
    assert v == 70 + v % 10;
  }

  lemma Row8IsSound(v: SymbolValue)
    requires v / 10 == 8
    ensures IsSound(v)
  {
    assert v == 80 + v % 10;
  }

  lemma Row9IsSound(v: SymbolValue)
    requires v / 10 == 9
    ensures IsSound(v)
  {
    assert v == 90 + v % 10;
  }

  lemma Row10IsSound(v: SymbolValue)
    requires v / 10 == 10
    ensures IsSound(v)
  {
    assert v == 100 + v % 10;
  }

  /** Every pattern is eleven modules wide, and no two symbols share one. */
  lemma PatternsAreSound(v: SymbolValue)
    ensures IsSound(v)
  {
    match v / 10
    case 0 => Row0IsSound(v);
    case 1 => Row1IsSound(v);
    case 2 => Row2IsSound(v);
    case 3 => Row3IsSound(v);
    case 4 => Row4IsSound(v);
    case 5 => Row5IsSound(v);
    case 6 => Row6IsSound(v);
    case 7 => Row7IsSound(v);
    case 8 => Row8IsSound(v);
    case 9 => Row9IsSound(v);
    case _ => Row10IsSound(v);
  }

  // ----- encoding

  datatype Code128Symbol = Code128Symbol(widths: seq<nat>, totalModules: nat, checksum: nat)

  datatype Code128Error = NotDigits | OddLength

  predicate IsDigit(c: char) {
    '0' <= c <= '9'
  }

  predicate AllDigits(digits: string) {
    forall c | c in digits :: IsDigit(c)
  }

  function PairValue(a: char, b: char): (v: SymbolValue)
    requires IsDigit(a) && IsDigit(b)
    ensures v < 100
  {
    (a as int - 48) * 10 + (b as int - 48)
  }

  /** The digit pairs as symbol values. */
  function Pairs(digits: string): (vs: seq<SymbolValue>)
    requires |digits| % 2 == 0 && AllDigits(digits)
    ensures |vs| == |digits| / 2 && forall v | v in vs :: v < 100
  {
    seq(|digits| / 2, i requires 0 <= i < |digits| / 2 => PairValue(digits[2 * i], digits[2 * i + 1]))
  }

  /** 105 for the start symbol, and each of `vs` times its place, the first being 1. */
  function WeightedSum(vs: seq<SymbolValue>): nat {
    if vs == [] then START_C else WeightedSum(vs[..|vs| - 1]) + vs[|vs| - 1] * |vs|
  }

  function Checksum(vs: seq<SymbolValue>): SymbolValue {
    WeightedSum(vs) % 103
  }

  function WidthsOf(vs: seq<SymbolValue>): seq<nat> {
    if vs == [] then [] else WidthsOf(vs[..|vs| - 1]) + PatternOf(vs[|vs| - 1]).Widths()
  }

  /** The first `n` of `ws`, added up. */
  function SumTo(ws: seq<nat>, n: nat): nat
    requires n <= |ws|
  {
    if n == 0 then 0 else SumTo(ws, n - 1) + ws[n - 1]
  }

  function Sum(ws: seq<nat>): nat {
    SumTo(ws, |ws|)
  }

  /** The symbols before STOP: the start, the data and the check. */
  function Body(vs: seq<SymbolValue>): seq<SymbolValue> {
    [START_C] + vs + [Checksum(vs)]
  }

  function SymbolOf(vs: seq<SymbolValue>): Code128Symbol {
    var widths := WidthsOf(Body(vs)) + STOP_WIDTHS;
    Code128Symbol(widths, Sum(widths) + 2 * QUIET_ZONE_MODULES, Checksum(vs))
  }

  function EncodeCode128C(digits: string): Result<Code128Symbol, Code128Error> {
    if digits == "" || !AllDigits(digits) then Err(NotDigits)
    else if |digits| % 2 != 0 then Err(OddLength)
    else Ok(SymbolOf(Pairs(digits)))
  }

  /** Encoded is every even number of digits but none; what is refused is told apart by whether it has any other character. */
  lemma EncodesExactly(digits: string)
    ensures var r := EncodeCode128C(digits);
            var number := digits != "" && forall c | c in digits :: c in {'0', '1', '2', '3', '4', '5', '6', '7', '8', '9'};
            && (r.Ok? <==> number && |digits| % 2 == 0)
            && (r == Err(NotDigits) <==> !number)
            && (r == Err(OddLength) <==> number && |digits| % 2 == 1)
  {
  }

  method PairUp(digits: string) returns (data: seq<SymbolValue>)
    requires |digits| % 2 == 0 && AllDigits(digits)
    ensures data == Pairs(digits)
  {
    data := [];
    var i := 0;
    while i < |digits|
      invariant 0 <= i <= |digits| && i % 2 == 0
      invariant data == Pairs(digits)[..i / 2]
    {
      data := data + [PairValue(digits[i], digits[i + 1])];
      i := i + 2;
    }
  }

  method ComputeChecksum(data: seq<SymbolValue>) returns (checksum: SymbolValue)
    ensures checksum == Checksum(data)
  {
    var values: seq<SymbolValue>, sum: nat := [START_C] + data, START_C;
    for i := 1 to |values|
      invariant sum == WeightedSum(data[..i - 1])
    {
      assert data[..i][..i - 1] == data[..i - 1];
      sum := sum + values[i] * i;
    }
    assert data[..|data|] == data;
    checksum := sum % 103;
  }

  method ComputeWidths(values: seq<SymbolValue>) returns (widths: seq<nat>)
    ensures widths == WidthsOf(values)
  {
    widths := [];
    for i := 0 to |values|
      invariant widths == WidthsOf(values[..i])
    {
      assert values[..i + 1][..i] == values[..i];
      widths := widths + PatternOf(values[i]).Widths();
    }
    assert values[..|values|] == values;
  }

  method ComputeSum(widths: seq<nat>) returns (total: nat)
    ensures total == Sum(widths)
  {
    total := 0;
    for i := 0 to |widths|
      invariant total == SumTo(widths, i)
    {
      total := total + widths[i];
    }
  }

  method Encode(digits: string) returns (r: Result<Code128Symbol, Code128Error>)
    ensures r == EncodeCode128C(digits)
  {
    if digits == "" || !AllDigits(digits) {
      return Err(NotDigits);
    }
    if |digits| % 2 != 0 {
      return Err(OddLength);
    }
    var data := PairUp(digits);
    var checksum := ComputeChecksum(data);
    var widths := ComputeWidths([START_C] + data + [checksum]);
    var total := ComputeSum(widths + STOP_WIDTHS);
    r := Ok(Code128Symbol(widths + STOP_WIDTHS, total + 2 * QUIET_ZONE_MODULES, checksum));
  }

  datatype Bar = Bar(x: nat, width: nat)

  /** Every other element is a bar, drawn where the elements before it end. */
  function Bars(widths: seq<nat>): (bars: seq<Bar>)
    ensures |bars| == (|widths| + 1) / 2
  {
    seq((|widths| + 1) / 2, k requires 0 <= k < (|widths| + 1) / 2 =>
      Bar(QUIET_ZONE_MODULES + SumTo(widths, 2 * k), widths[2 * k]))
  }

  method Code128Bars(symbol: Code128Symbol) returns (bars: seq<Bar>)
    ensures bars == Bars(symbol.widths)
  {
    bars := [];
    var x := QUIET_ZONE_MODULES;
    for i := 0 to |symbol.widths|
      invariant bars == Bars(symbol.widths)[..(i + 1) / 2]
      invariant x == QUIET_ZONE_MODULES + SumTo(symbol.widths, i)
    {
      if i % 2 == 0 {
        bars := bars + [Bar(x, symbol.widths[i])];
      }
      x := x + symbol.widths[i];
    }
  }

  function LargestModuleWidth(symbol: Code128Symbol, printableDots: int): int
    requires symbol.totalModules > 0
  {
    printableDots / symbol.totalModules
  }

  // ----- reading it back

  /** Six elements at a time, back into symbols. */
  function ReadWidths(widths: seq<nat>): Option<seq<SymbolValue>> {
    if |widths| < 6 then (if widths == [] then Some([]) else None)
    else
      var n := |widths| - 6;
      var w := widths[n..];
      var p := P(w[0], w[1], w[2], w[3], w[4], w[5]);
      if !p.IsElevenModules() then None
      else
        match (ReadWidths(widths[..n]), ValueOf(p))
        case (Some(front), Some(v)) => Some(front + [v])
        case _ => None
  }

  /** A scanner's sum as the symbols come in: each times the weight it comes with. */
  function RunningSum(data: seq<SymbolValue>, weight: nat, sum: nat): nat {
    if data == [] then sum else RunningSum(data[1..], weight + 1, sum + data[0] * weight)
  }

  lemma {:induction false} RunningSumIs(vs: seq<SymbolValue>, n: nat)
    requires n <= |vs|
    ensures RunningSum(vs[n..], n + 1, WeightedSum(vs[..n])) == WeightedSum(vs)
    decreases |vs| - n
  {
    if n < |vs| {
      assert vs[..n + 1][..n] == vs[..n] && vs[n..][1..] == vs[n + 1..];
      RunningSumIs(vs, n + 1);
    } else {
      assert vs[..n] == vs;
    }
  }

  /** The data symbols of a barcode that starts, checks and stops as it should. */
  function Scan(widths: seq<nat>): Option<seq<SymbolValue>> {
    var n := |widths| - 7;
    if n < 0 || widths[n..] != [2, 3, 3, 1, 1, 1, 2] then None
    else
      match ReadWidths(widths[..n])
      case None => None
      case Some(all) =>
        if |all| < 2 || all[0] != 105 then None
        else
          var data := all[1..|all| - 1];
          if RunningSum(data, 1, 105) % 103 == all[|all| - 1] then Some(data) else None
  }

  lemma ReadsOneMore(front: seq<nat>, p: Pattern)
    requires p.IsElevenModules() && ValueOf(p).Some? && ReadWidths(front).Some?
    ensures ReadWidths(front + p.Widths()) == Some(ReadWidths(front).value + [ValueOf(p).value])
  {
    var widths := front + p.Widths();
    var n := |widths| - 6;
    assert widths[..n] == front;
    assert widths[n..] == p.Widths();
  }

  lemma ReadsOneMoreSymbol(front: seq<nat>, v: SymbolValue)
    requires ReadWidths(front).Some?
    ensures ReadWidths(front + PatternOf(v).Widths()) == Some(ReadWidths(front).value + [v])
  {
    PatternsAreSound(v);
    ReadsOneMore(front, PatternOf(v));
  }

  lemma WidthsOfMore(front: seq<SymbolValue>, v: SymbolValue)
    ensures WidthsOf(front + [v]) == WidthsOf(front) + PatternOf(v).Widths()
  {
    assert (front + [v])[..|front|] == front;
  }

  lemma {:induction false} ReadsBack(vs: seq<SymbolValue>)
    ensures ReadWidths(WidthsOf(vs)) == Some(vs)
  {
    if vs != [] {
      var front, v := vs[..|vs| - 1], vs[|vs| - 1];
      ReadsBack(front);
      ReadsOneMoreSymbol(WidthsOf(front), v);
      WidthsOfMore(front, v);
      assert vs == front + [v];
    }
  }

  /** The two digits of each symbol. */
  function DigitsOf(vs: seq<SymbolValue>): string {
    seq(2 * |vs|, j requires 0 <= j < 2 * |vs| =>
      (if j % 2 == 0 then vs[j / 2] / 10 + 48 else vs[j / 2] % 10 + 48) as char)
  }

  /** The digits a scanner reports. */
  function ScanDigits(widths: seq<nat>): Option<string> {
    match Scan(widths)
    case None => None
    case Some(vs) => Some(DigitsOf(vs))
  }

  lemma PairSplits(a: char, b: char)
    requires IsDigit(a) && IsDigit(b)
    ensures (PairValue(a, b) / 10 + 48) as char == a && (PairValue(a, b) % 10 + 48) as char == b
  {
  }

  lemma DigitsOfPairs(digits: string)
    requires |digits| % 2 == 0 && AllDigits(digits)
    ensures DigitsOf(Pairs(digits)) == digits
  {
    forall j | 0 <= j < |digits|
      ensures DigitsOf(Pairs(digits))[j] == digits[j]
    {
      var i := j / 2;
      var a, b := digits[2 * i], digits[2 * i + 1];
      assert IsDigit(a) && IsDigit(b) && Pairs(digits)[i] == PairValue(a, b);
      PairSplits(a, b);
    }
  }

  /** A scanner recovers the card number from its barcode. */
  lemma BarcodeScansBack(digits: string)
    requires EncodeCode128C(digits).Ok?
    ensures ScanDigits(EncodeCode128C(digits).value.widths) == Some(digits)
  {
    ScansBack(Pairs(digits));
    DigitsOfPairs(digits);
  }

  lemma ScansBack(vs: seq<SymbolValue>)
    ensures Scan(SymbolOf(vs).widths) == Some(vs)
  {
    var body := WidthsOf(Body(vs));
    ReadsBack(Body(vs));
    assert (body + STOP_WIDTHS)[..|body|] == body && (body + STOP_WIDTHS)[|body|..] == STOP_WIDTHS;
    assert Body(vs)[1..|vs| + 1] == vs;
    RunningSumIs(vs, 0);
    assert vs[0..] == vs && WeightedSum(vs[..0]) == 105;
  }

  // ----- how wide it is

  lemma {:induction false} SumOfFirst(a: seq<nat>, b: seq<nat>, n: nat)
    requires n <= |a|
    ensures SumTo(a + b, n) == SumTo(a, n)
  {
    if n > 0 {
      SumOfFirst(a, b, n - 1);
    }
  }

  lemma {:induction false} SumOfBoth(a: seq<nat>, b: seq<nat>, n: nat)
    requires n <= |b|
    ensures SumTo(a + b, |a| + n) == Sum(a) + SumTo(b, n)
  {
    if n == 0 {
      SumOfFirst(a, b, |a|);
    } else {
      SumOfBoth(a, b, n - 1);
      assert (a + b)[|a| + n - 1] == b[n - 1];
    }
  }

  lemma SumConcat(a: seq<nat>, b: seq<nat>)
    ensures Sum(a + b) == Sum(a) + Sum(b)
  {
    SumOfBoth(a, b, |b|);
  }

  lemma SumOfPattern(v: SymbolValue)
    ensures Sum(PatternOf(v).Widths()) == 11
  {
    PatternsAreSound(v);
    SumOfSix(PatternOf(v));
  }

  lemma SumOfSix(p: Pattern)
    ensures Sum(p.Widths()) == p.b1 + p.s1 + p.b2 + p.s2 + p.b3 + p.s3
  {
    var w := p.Widths();
    assert w[0] == p.b1 && w[1] == p.s1 && w[2] == p.b2 && w[3] == p.s2 && w[4] == p.b3 && w[5] == p.s3;
    assert SumTo(w, 1) == p.b1;
    assert SumTo(w, 2) == p.b1 + p.s1;
    assert SumTo(w, 3) == p.b1 + p.s1 + p.b2;
    assert SumTo(w, 4) == p.b1 + p.s1 + p.b2 + p.s2;
    assert SumTo(w, 5) == p.b1 + p.s1 + p.b2 + p.s2 + p.b3;
    assert SumTo(w, 6) == p.b1 + p.s1 + p.b2 + p.s2 + p.b3 + p.s3;
  }

  lemma {:induction false} WidthsAddUp(vs: seq<SymbolValue>)
    ensures |WidthsOf(vs)| == 6 * |vs| && Sum(WidthsOf(vs)) == 11 * |vs|
    ensures forall w | w in WidthsOf(vs) :: w > 0
  {
    if vs != [] {
      var n := |vs| - 1;
      WidthsAddUp(vs[..n]);
      SumOfPattern(vs[n]);
      PatternsAreSound(vs[n]);
      SumConcat(WidthsOf(vs[..n]), PatternOf(vs[n]).Widths());
    }
  }

  /** A card number of `2k` digits prints 11k + 55 modules wide, both quiet zones counted. */
  lemma BarcodeWidth(digits: string)
    requires EncodeCode128C(digits).Ok?
    ensures EncodeCode128C(digits).value.totalModules == 11 * (|digits| / 2) + 55
  {
    var vs := Pairs(digits);
    WidthsAddUp(Body(vs));
    SumConcat(WidthsOf(Body(vs)), STOP_WIDTHS);
    SumOfStop();
  }

  lemma SumOfStop()
    ensures Sum(STOP_WIDTHS) == 13
  {
    var w := STOP_WIDTHS;
    assert w[0] == 2 && w[1] == 3 && w[2] == 3 && w[3] == 1 && w[4] == 1 && w[5] == 1 && w[6] == 2;
    assert SumTo(w, 2) == 5;
    assert SumTo(w, 4) == 9;
    assert SumTo(w, 6) == 11;
  }

  /** The bars stand apart, in order, inside the width `end`. */
  ghost predicate InOrder(bars: seq<Bar>, end: nat) {
    && (forall i | 0 <= i < |bars| :: QUIET_ZONE_MODULES <= bars[i].x && bars[i].width > 0 && bars[i].x + bars[i].width <= end)
    && (forall i | 0 <= i < |bars| - 1 :: bars[i].x + bars[i].width < bars[i + 1].x)
  }

  lemma {:induction false} SumToRises(ws: seq<nat>, m: nat, n: nat)
    requires m <= n <= |ws|
    ensures SumTo(ws, m) <= SumTo(ws, n)
  {
    if m < n {
      SumToRises(ws, m, n - 1);
    }
  }

  lemma BarsAreInOrder(widths: seq<nat>)
    requires forall i | 0 <= i < |widths| :: widths[i] > 0
    ensures InOrder(Bars(widths), QUIET_ZONE_MODULES + Sum(widths))
  {
    var bars := Bars(widths);
    forall k | 0 <= k < |bars|
      ensures bars[k].x + bars[k].width <= QUIET_ZONE_MODULES + Sum(widths)
      ensures k < |bars| - 1 ==> bars[k].x + bars[k].width < bars[k + 1].x
    {
      assert bars[k].x + bars[k].width == QUIET_ZONE_MODULES + SumTo(widths, 2 * k + 1);
      SumToRises(widths, 2 * k + 1, |widths|);
    }
  }

  /** The bars drawn stand apart in order between the quiet zones, and the last one reaches the right quiet zone. */
  lemma BarsFillTheSymbol(digits: string)
    requires EncodeCode128C(digits).Ok?
    ensures var symbol := EncodeCode128C(digits).value;
            var bars := Bars(symbol.widths);
            && InOrder(bars, symbol.totalModules - 10)
            && bars != [] && bars[0].x == 10
            && bars[|bars| - 1].x + bars[|bars| - 1].width == symbol.totalModules - 10
  {
    var widths := EncodeCode128C(digits).value.widths;
    WidthsAddUp(Body(Pairs(digits)));
    forall i | 0 <= i < |widths|
      ensures widths[i] > 0
    {
      assert widths[i] in WidthsOf(Body(Pairs(digits))) || widths[i] in STOP_WIDTHS;
    }
    BarsAreInOrder(widths);
  }

  /** The module width chosen is the largest whole number of dots that fits the paper. */
  lemma LargestModuleWidthIsLargest(symbol: Code128Symbol, printableDots: nat, dots: nat)
    requires symbol.totalModules > 0
    ensures dots * symbol.totalModules <= printableDots <==> dots <= LargestModuleWidth(symbol, printableDots)
  {
    var m, q := symbol.totalModules, printableDots / symbol.totalModules;
    assert printableDots == m * q + printableDots % m;
    if dots <= q {
      assert dots * m <= q * m;
    } else {
      assert dots * m >= (q + 1) * m;
    }
  }

  // ----- what the check symbol catches

  lemma {:induction false} SumAfterChange(vs: seq<SymbolValue>, i: nat, v: SymbolValue)
    requires i < |vs|
    ensures WeightedSum(vs[i := v]) == WeightedSum(vs) + (v - vs[i]) * (i + 1)
  {
    var n := |vs| - 1;
    if i == n {
      assert vs[i := v][..n] == vs[..n];
    } else {
      SumAfterChange(vs[..n], i, v);
      assert vs[i := v][..n] == vs[..n][i := v];
    }
  }

  lemma NoFactors(q: nat, d: nat)
    requires 1 < d < 103
    ensures q * d != 103
  {
    if d <= 10 {
      assert d in {2, 3, 4, 5, 6, 7, 8, 9, 10};
    } else if q <= 10 {
      assert q in {0, 1, 2, 3, 4, 5, 6, 7, 8, 9, 10};
    } else {
      assert q * d >= 11 * d;
    }
  }

  /** 103 has no divisor between 1 and itself. */
  lemma NoDivisor(d: nat)
    requires 1 < d < 103
    ensures 103 % d != 0
  {
    NoFactors(103 / d, d);
    assert 103 == 103 / d * d + 103 % d;
  }

  /** A multiple of 103 by `r` is one by the remainder of 103 by `r` too. */
  lemma SmallerFactor(r: nat, d: nat)
    requires r > 0
    ensures r * d % 103 == 0 ==> 103 % r * d % 103 == 0
  {
    var q, s := 103 / r, 103 % r;
    if r * d % 103 == 0 {
      var k := r * d / 103;
      assert s * d == 103 * (d - q * k) by {
        assert q * (r * d) == (q * r) * d;
        assert q * (103 * k) == 103 * (q * k);
      }
      MultipleOf103(d - q * k);
    }
  }

  /** A product of two numbers below 103 is a multiple of 103 only if one is 0. */
  lemma {:induction false} NoZeroProduct(r: nat, d: nat)
    requires 0 < r < 103 && 0 < d < 103
    ensures r * d % 103 != 0
    decreases r
  {
    if r > 1 {
      NoDivisor(r);
      NoZeroProduct(103 % r, d);
      SmallerFactor(r, d);
    }
  }

  lemma MultipleOf103(k: int)
    ensures 103 * k % 103 == 0
  {
  }

  lemma WeightModulo103(weight: nat, d: int)
    ensures d * weight % 103 == 0 <==> d * (weight % 103) % 103 == 0
  {
    var r, k := weight % 103, weight / 103;
    assert d * weight == 103 * (d * k) + d * r by {
      assert d * (103 * k + r) == d * (103 * k) + d * r;
    }
    SameRemainder(d * r, d * k);
  }

  lemma SameRemainder(x: int, k: int)
    ensures (103 * k + x) % 103 == x % 103
  {
  }

  lemma SignDoesNotMatter(x: int)
    ensures x % 103 == 0 <==> -x % 103 == 0
  {
  }

  /** The same, for any weight and a difference of two data symbols of either sign. */
  lemma ProductVanishesOnlyWhen(weight: nat, d: int)
    requires 0 < weight && -103 < d < 103 && d != 0
    ensures d * weight % 103 == 0 <==> weight % 103 == 0
  {
    var r := weight % 103;
    WeightModulo103(weight, d);
    if r > 0 {
      if d > 0 {
        NoZeroProduct(r, d);
        assert r * d == d * r;
      } else {
        NoZeroProduct(r, -d);
        SignDoesNotMatter(r * -d);
        assert -(r * -d) == d * r;
      }
    }
  }

  lemma SameChecksum(a: nat, b: nat)
    ensures a % 103 == b % 103 <==> (b - a) % 103 == 0
  {
  }

  /** One wrong data symbol leaves the check unchanged exactly at the places that are multiples of 103. */
  lemma ChangeIsCaughtUnless(vs: seq<SymbolValue>, i: nat, v: SymbolValue)
    requires i < |vs| && v != vs[i] && v < 100 && vs[i] < 100
    ensures Checksum(vs[i := v]) == Checksum(vs) <==> (i + 1) % 103 == 0
  {
    SumAfterChange(vs, i, v);
    SameChecksum(WeightedSum(vs), WeightedSum(vs[i := v]));
    ProductVanishesOnlyWhen(i + 1, v - vs[i]);
  }

  function Zeros(n: nat): (digits: string)
    ensures |digits| == n && AllDigits(digits)
  {
    seq(n, _ => '0')
  }

  /** It does happen: 206 zeros, and the same with a last digit of 1, have one check symbol. */
  lemma LongNumbersCanShareACheck()
    ensures var a, b := Zeros(206), Zeros(205) + "1";
            && EncodeCode128C(a).Ok? && EncodeCode128C(b).Ok? && a != b
            && EncodeCode128C(a).value.checksum == EncodeCode128C(b).value.checksum
  {
    var a, b := Zeros(206), Zeros(205) + "1";
    assert a[205] != b[205];
    assert AllDigits(b);
    assert Pairs(b) == Pairs(a)[102 := 1];
    ChangeIsCaughtUnless(Pairs(a), 102, 1);
  }

  /** Two different neighbours swapped always change the check. */
  lemma SwapIsCaught(vs: seq<SymbolValue>, i: nat)
    requires i + 1 < |vs| && vs[i] != vs[i + 1] && vs[i] < 100 && vs[i + 1] < 100
    ensures Checksum(vs[i := vs[i + 1]][i + 1 := vs[i]]) != Checksum(vs)
  {
    var a: int, b: int := vs[i], vs[i + 1];
    SumAfterChange(vs, i, vs[i + 1]);
    SumAfterChange(vs[i := vs[i + 1]], i + 1, vs[i]);
    var swapped := vs[i := vs[i + 1]][i + 1 := vs[i]];
    assert (b - a) * (i + 1) + (a - b) * (i + 2) == a - b;
    SameChecksum(WeightedSum(vs), WeightedSum(swapped));
    ProductVanishesOnlyWhen(1, a - b);
  }
}
