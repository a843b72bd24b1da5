/** A scanner that jumps over printer commands by lengths read from their headers, and keeps what is between them. */
module EscPos {
  import opened Basics

  const ESC: Byte := 0x1B
  const GS: Byte := 0x1D
  const FS: Byte := 0x1C
  const DLE: Byte := 0x10
  const INT_MAX: int := 0x7FFF_FFFF

  /** What 32-bit arithmetic makes of `x`. */
  function Wrap32(x: int): int {
    (x + 0x8000_0000) % 0x1_0000_0000 - 0x8000_0000
  }

  // ----- how far a command reaches

  function Word16(low: Byte, high: Byte): nat {
    low + 256 * high
  }

  /** The place after the first NUL at or after `from`, or the end if there is none. */
  function AfterNul(rest: seq<Byte>, from: nat): (next: nat)
    requires from <= |rest|
    ensures from <= next <= |rest| && (from < |rest| ==> from < next)
    decreases |rest| - from
  {
    if from == |rest| then from
    else if rest[from] == 0 then from + 1
    else AfterNul(rest, from + 1)
  }

  /** Operands of an ESC command whose count is fixed; an unlisted command has none. */
  function EscOperands(command: Byte): nat {
    if command in {0x24, 0x5C} then 2
    else if command == 0x70 then 3
    else if command in {0x43, 0x21, 0x2D, 0x33, 0x45, 0x47, 0x4A, 0x4D, 0x52, 0x56, 0x57, 0x61, 0x63, 0x64, 0x66, 0x7B} then 1
    else 0
  }

  /** A bit image: one byte a column, or three in the 24-dot modes. */
  function ColumnBytes(mode: Byte, columns: nat): nat {
    if mode in {32, 33} then 3 * columns else columns
  }

  /** Bytes taken by the ESC command that `rest` starts with. */
  function EscLength(rest: seq<Byte>): (n: nat)
    requires rest != [] && rest[0] == ESC
    ensures n > 0
  {
    if |rest| == 1 then 1
    else if rest[1] == 0x74 && |rest| > 2 then 3
    else if rest[1] == 0x2A && |rest| > 4 then
      5 + ColumnBytes(rest[2], Word16(rest[3], rest[4]))
    else if rest[1] == 0x44 then AfterNul(rest, 2)
    else 2 + EscOperands(rest[1])
  }

  function GsOperands(command: Byte): nat {
    if command in {0x4C, 0x57} then 2
    else if command in {0x21, 0x42, 0x48, 0x56, 0x66, 0x68, 0x72, 0x77} then 1
    else 0
  }

  /** Bytes taken by the GS command that `rest` starts with, as plain numbers. */
  function GsLength(rest: seq<Byte>): (n: nat)
    requires rest != [] && rest[0] == GS
    ensures n > 0
  {
    if |rest| == 1 then 1
    else if rest[1] == 0x6B && |rest| > 2 then
      if rest[2] < 65 then AfterNul(rest, 3)
      else if |rest| == 3 then 3
      else var length: nat := rest[3]; 4 + length
    else if rest[1] == 0x76 && |rest| > 7 && rest[2] == 0x30 then
      8 + Word16(rest[4], rest[5]) * Word16(rest[6], rest[7])
    else if rest[1] == 0x28 && |rest| > 4 then 5 + Word16(rest[3], rest[4])
    else 2 + GsOperands(rest[1])
  }

  /** Bytes taken by whatever `rest` starts with; it may reach past the end. */
  function Length(rest: seq<Byte>): (n: nat)
    requires rest != []
    ensures n > 0
  {
    if rest[0] == ESC then EscLength(rest)
    else if rest[0] == GS then GsLength(rest)
    else if rest[0] == FS then 2
    else if rest[0] == DLE then 3
    else 1
  }

  /** The bytes of a text: what prints, and the controls that end or divide a line. */
  predicate Kept(b: Byte) {
    b >= 0x20 || b in {0x0A, 0x0D, 0x09}
  }

  function CodepageAfter(rest: seq<Byte>, codepage: Option<Byte>): Option<Byte>
    requires rest != []
  {
    if rest[0] == ESC && |rest| > 2 && rest[1] == 0x74 then Some(rest[2]) else codepage
  }

  function Drop(rest: seq<Byte>, n: nat): (r: seq<Byte>)
    ensures n <= |rest| ==> r == rest[n..]
  {
    if n <= |rest| then rest[n..] else []
  }

  // ----- the scan

  /** The text and the codepage asked for; or the place of a command whose 32-bit jump does not go forward. */
  datatype Outcome = Stripped(text: seq<Byte>, codepage: Option<Byte>) | JumpLost(at: nat)

  function Prepend(text: seq<Byte>, o: Outcome): Outcome {
    match o
    case Stripped(rest, codepage) => Stripped(text + rest, codepage)
    case JumpLost(at) => o
  }

  /** The scan of `rest`, which starts at index `at` of the job. */
  function Scan(rest: seq<Byte>, at: nat, codepage: Option<Byte>): Outcome
    decreases |rest|
  {
    if rest == [] then Stripped([], codepage)
    else
      var n := Length(rest);
      if at + n > INT_MAX then JumpLost(at)
      else
        Prepend(if Kept(rest[0]) then [rest[0]] else [],
                Scan(Drop(rest, n), at + n, CodepageAfter(rest, codepage)))
  }

  method SkipUntilNul(data: seq<Byte>, start: nat) returns (next: nat)
    requires start <= |data|
    ensures next == AfterNul(data, start)
  {
    var i := start;
    while i < |data| && data[i] != 0
      invariant start <= i <= |data|
      invariant AfterNul(data, start) == AfterNul(data, i)
    {
      i := i + 1;
    }
    next := if i + 1 <= |data| then i + 1 else |data|;
  }

  lemma {:induction false} AfterNulShifts(data: seq<Byte>, i: nat, from: nat)
    requires i + from <= |data|
    ensures AfterNul(data, i + from) == i + AfterNul(data[i..], from)
    decreases |data| - from
  {
    if i + from < |data| && data[i + from] != 0 {
      AfterNulShifts(data, i, from + 1);
    }
  }

  /** `next` is `i` plus `EscLength`, wrapped to 32 bits. */
  method SkipEsc(data: seq<Byte>, i: nat, codepage0: Option<Byte>) returns (next: int, codepage: Option<Byte>)
    requires |data| <= INT_MAX && i < |data| && data[i] == ESC
    ensures next == Wrap32(i + EscLength(data[i..]))
    ensures codepage == CodepageAfter(data[i..], codepage0)
  {
    codepage := codepage0;
    if i + 1 >= |data| {
      return |data|, codepage;
    }
    var command := data[i + 1];
    if command == 0x74 && i + 2 < |data| {
      codepage := Some(data[i + 2]);
      return Wrap32(i + 3), codepage;
    }
    if command == 0x2A && i + 4 < |data| {
      var columns := Word16(data[i + 3], data[i + 4]);
      var bytesPerColumn := if data[i + 2] in {32, 33} then 3 else 1;
      return Wrap32(i + 5 + columns * bytesPerColumn), codepage;
    }
    if command == 0x44 {
      AfterNulShifts(data, i, 2);
      next := SkipUntilNul(data, i + 2);
      return next, codepage;
    }
    next := Wrap32(i + 2 + EscOperands(command));
  }

  /** `next` is `i` plus `GsLength`, wrapped to 32 bits. */
  method SkipGs(data: seq<Byte>, i: nat) returns (next: int)
    requires |data| <= INT_MAX && i < |data| && data[i] == GS
    ensures next == Wrap32(i + GsLength(data[i..]))
  {
    ghost var rest := data[i..];
    if i + 1 >= |data| {
      return |data|;
    }
    var command := data[i + 1];
    assert rest[1] == command;
    if command == 0x6B && i + 2 < |data| {
      assert rest[2] == data[i + 2];
      if data[i + 2] >= 65 {
        if i + 3 >= |data| {
          return |data|;
        }
        assert rest[3] == data[i + 3];
        return Wrap32(i + 4 + data[i + 3]);
      }
      AfterNulShifts(data, i, 3);
      next := SkipUntilNul(data, i + 3);
      return;
    }
    if command == 0x76 && i + 7 < |data| && data[i + 2] == 0x30 {
      next := SkipRaster(data, i);
      return;
    }
    if command == 0x28 && i + 4 < |data| {
      assert rest[3] == data[i + 3] && rest[4] == data[i + 4];
      return Wrap32(i + 5 + Word16(data[i + 3], data[i + 4]));
    }
    next := Wrap32(i + 2 + GsOperands(command));
  }

  /** The raster image: a 32-bit product added to a 32-bit index. */
  method SkipRaster(data: seq<Byte>, i: nat) returns (next: int)
    requires i + 7 < |data| && data[i] == GS && data[i + 1] == 0x76 && data[i + 2] == 0x30
    ensures next == Wrap32(i + GsLength(data[i..]))
  {
    ghost var rest := data[i..];
    var widthBytes := Word16(data[i + 4], data[i + 5]);
    var height := Word16(data[i + 6], data[i + 7]);
    assert GsLength(rest) == 8 + widthBytes * height;
    WrapOfSum(widthBytes * height, i + 8);
    next := Wrap32(i + 8 + Wrap32(widthBytes * height));
  }

  lemma WrapOfSum(x: int, y: int)
    ensures Wrap32(y + Wrap32(x)) == Wrap32(y + x)
  {
    var k := (x + 0x8000_0000) / 0x1_0000_0000;
    assert Wrap32(x) == x - k * 0x1_0000_0000;
    ModShift(y + x + 0x8000_0000, k);
  }

  lemma ModShift(x: int, k: int)
    ensures (x - k * 0x1_0000_0000) % 0x1_0000_0000 == x % 0x1_0000_0000
  {
  }

  lemma {:induction false} TimesRises(a: nat, b: nat, h: nat)
    requires a <= b
    ensures a * h <= b * h
  {
    if h > 0 {
      TimesRises(a, b, h - 1);
      assert a * h == a * (h - 1) + a && b * h == b * (h - 1) + b;
    }
  }

  lemma ImageIsBelow(w: nat, h: nat)
    requires w <= 65535 && h <= 65535
    ensures w * h <= 65535 * 65535
  {
    TimesRises(w, 65535, h);
  }

  lemma EscLengthIsBelow(rest: seq<Byte>)
    requires rest != [] && rest[0] == ESC && |rest| <= INT_MAX
    ensures EscLength(rest) < 0x1_0000_0000
  {
  }

  lemma GsLengthIsBelow(rest: seq<Byte>)
    requires rest != [] && rest[0] == GS && |rest| <= INT_MAX
    ensures GsLength(rest) < 0x1_0000_0000
  {
    if |rest| > 7 {
      ImageIsBelow(Word16(rest[4], rest[5]), Word16(rest[6], rest[7]));
    }
  }

  /** No command is longer than a raster image of the largest size. */
  lemma LengthIsBelowTwoTo32(rest: seq<Byte>)
    requires rest != [] && |rest| <= INT_MAX
    ensures Length(rest) < 0x1_0000_0000
  {
    if rest[0] == ESC {
      EscLengthIsBelow(rest);
    } else if rest[0] == GS {
      GsLengthIsBelow(rest);
    }
  }

  /** A jump goes forward exactly when the index it should reach fits in 32 bits; if not, it lands at or before its start. */
  lemma JumpAdvancesExactlyWhenItFits(rest: seq<Byte>, at: nat)
    requires rest != [] && at + |rest| <= INT_MAX
    ensures Wrap32(at + Length(rest)) > at <==> at + Length(rest) <= INT_MAX
    ensures at + Length(rest) <= INT_MAX ==> Wrap32(at + Length(rest)) == at + Length(rest)
  {
    LengthIsBelowTwoTo32(rest);
  }

  lemma PrependTwice(a: seq<Byte>, b: seq<Byte>, o: Outcome)
    ensures Prepend(a, Prepend(b, o)) == Prepend(a + b, o)
  {
    if o.Stripped? {
      assert a + (b + o.text) == a + b + o.text;
    }
  }

  lemma ScanUnrolls(rest: seq<Byte>, at: nat, codepage: Option<Byte>, n: nat, tail: seq<Byte>)
    requires rest != [] && n == Length(rest) && tail == Drop(rest, n) && at + n <= INT_MAX
    ensures Scan(rest, at, codepage)
         == Prepend(if Kept(rest[0]) then [rest[0]] else [], Scan(tail, at + n, CodepageAfter(rest, codepage)))
  {
  }

  lemma ScanIsLost(rest: seq<Byte>, at: nat, codepage: Option<Byte>)
    requires rest != [] && at + Length(rest) > INT_MAX
    ensures Scan(rest, at, codepage) == JumpLost(at)
  {
  }

  lemma ScanUnrollsTo(
    rest: seq<Byte>, at: nat, codepage: Option<Byte>, n: nat, next: nat, tail: seq<Byte>, kept: seq<Byte>, codepage': Option<Byte>
  )
    requires rest != [] && n == Length(rest) && tail == Drop(rest, n) && next == at + n <= INT_MAX
    requires kept == (if Kept(rest[0]) then [rest[0]] else []) && codepage' == CodepageAfter(rest, codepage)
    ensures Scan(rest, at, codepage) == Prepend(kept, Scan(tail, next, codepage'))
  {
  }

  lemma ScanGoesOn(
    data: seq<Byte>, i: nat, output: seq<Byte>, codepage: Option<Byte>, n: nat, next: nat, kept: seq<Byte>, codepage': Option<Byte>
  )
    requires i < |data| && n == Length(data[i..]) && next == i + n <= INT_MAX
    requires kept == (if Kept(data[i]) then [data[i]] else []) && codepage' == CodepageAfter(data[i..], codepage)
    ensures Prepend(output, Scan(Drop(data, i), i, codepage)) == Prepend(output + kept, Scan(Drop(data, next), next, codepage'))
  {
    var rest, tail := data[i..], Drop(data, next);
    assert Drop(rest, n) == tail;
    ScanUnrollsTo(rest, i, codepage, n, next, tail, kept, codepage');
    PrependTwice(output, kept, Scan(tail, next, codepage'));
  }

  /** One turn of the scan, from index `i` of the job to index `next`: it goes on, or is lost where that is backwards. */
  lemma ScanTurn(data: seq<Byte>, i: nat, output: seq<Byte>, codepage: Option<Byte>, next: int, kept: seq<Byte>, codepage': Option<Byte>)
    requires i < |data| <= INT_MAX
    requires next == Wrap32(i + Length(data[i..]))
    requires kept == (if Kept(data[i]) then [data[i]] else []) && codepage' == CodepageAfter(data[i..], codepage)
    ensures next <= i ==> Prepend(output, Scan(Drop(data, i), i, codepage)) == JumpLost(i)
    ensures next > i ==>
              && next <= INT_MAX
              && Prepend(output, Scan(Drop(data, i), i, codepage))
              == Prepend(output + kept, Scan(Drop(data, next), next, codepage'))
  {
    var rest, n := data[i..], Length(data[i..]);
    JumpAdvancesExactlyWhenItFits(rest, i);
    if next > i {
      ScanGoesOn(data, i, output, codepage, n, next, kept, codepage');
    } else {
      ScanIsLost(rest, i, codepage);
    }
  }

  /** One turn of the loop: where it goes next, what it keeps, and the codepage asked for so far. */
  method Turn(data: seq<Byte>, i: nat, codepage0: Option<Byte>)
    returns (next: int, kept: seq<Byte>, codepage: Option<Byte>)
    requires i < |data| <= INT_MAX
    ensures next == Wrap32(i + Length(data[i..]))
    ensures kept == if Kept(data[i]) then [data[i]] else []
    ensures codepage == CodepageAfter(data[i..], codepage0)
  {
    var b := data[i];
    kept, codepage := [], codepage0;
    if b == ESC {
      next, codepage := SkipEsc(data, i, codepage0);
    } else if b == GS {
      next := SkipGs(data, i);
    } else if b == FS {
      next := Wrap32(i + 2);
    } else if b == DLE {
      next := Wrap32(i + 3);
    } else {
      if b >= 0x20 || b in {0x0A, 0x0D, 0x09} {
        kept := [b];
      }
      next := Wrap32(i + 1);
    }
  }

  /** Removes control sequences; stops where a jump does not go forward. */
  method Strip(data: seq<Byte>) returns (r: Outcome)
    requires |data| <= INT_MAX
    ensures r == Scan(data, 0, None)
  {
    var output: seq<Byte> := [];
    var codepage: Option<Byte> := None;
    var i: int := 0;
    while i < |data|
      invariant 0 <= i <= INT_MAX
      invariant Scan(data, 0, None) == Prepend(output, Scan(Drop(data, i), i, codepage))
      decreases |data| - i
    {
      var next, kept;
      ghost var before := codepage;
      next, kept, codepage := Turn(data, i, codepage);
      ScanTurn(data, i, output, before, next, kept, codepage);
      if next <= i {
        // The source has no check here: it reads before the array, or scans the same bytes again.
        return JumpLost(i);
      }
      output := output + kept;
      i := next;
    }
    r := Stripped(output, codepage);
  }

  // ----- a job, as what it was printed from

  /** An ESC command whose operands are fixed, by what it does. */
  datatype EscCommand =
    | PrintMode(n: Byte) | Underline(n: Byte) | LineSpacing(n: Byte) | Emphasis(n: Byte) | DoubleStrike(n: Byte)
    | FeedDots(n: Byte) | Font(n: Byte) | CharacterSet(n: Byte) | Rotate(n: Byte) | PrintArea(n: Byte)
    | Justify(n: Byte) | PaperSensor(n: Byte) | FeedLines(n: Byte) | Feed(n: Byte) | UpsideDown(n: Byte)
    | PageLength(n: Byte)
    | AbsolutePosition(low: Byte, high: Byte) | RelativePosition(low: Byte, high: Byte)
    | Pulse(m: Byte, t1: Byte, t2: Byte)
    | Initialize | DefaultLineSpacing | StandardMode | PartialCut | PartialCutAtThree
    | UnknownEsc(command: Byte)
  {
    /** What follows the ESC on the wire. */
    function Bytes(): seq<Byte> {
      match this
      case PrintMode(n) => [0x21, n]
      case Underline(n) => [0x2D, n]
      case LineSpacing(n) => [0x33, n]
      case Emphasis(n) => [0x45, n]
      case DoubleStrike(n) => [0x47, n]
      case FeedDots(n) => [0x4A, n]
      case Font(n) => [0x4D, n]
      case CharacterSet(n) => [0x52, n]
      case Rotate(n) => [0x56, n]
      case PrintArea(n) => [0x57, n]
      case Justify(n) => [0x61, n]
      case PaperSensor(n) => [0x63, n]
      case FeedLines(n) => [0x64, n]
      case Feed(n) => [0x66, n]
      case UpsideDown(n) => [0x7B, n]
      case PageLength(n) => [0x43, n]
      case AbsolutePosition(low, high) => [0x24, low, high]
      case RelativePosition(low, high) => [0x5C, low, high]
      case Pulse(m, t1, t2) => [0x70, m, t1, t2]
      case Initialize => [0x40]
      case DefaultLineSpacing => [0x32]
      case StandardMode => [0x53]
      case PartialCut => [0x69]
      case PartialCutAtThree => [0x6D]
      case UnknownEsc(command) => [command]
    }

    /** Unknown is only what none of the others is, nor any command whose length is computed. */
    predicate IsCommand() {
      UnknownEsc? ==>
        command !in {0x21, 0x24, 0x2A, 0x2D, 0x32, 0x33, 0x40, 0x43, 0x44, 0x45, 0x47, 0x4A, 0x4D, 0x52, 0x53, 0x56, 0x57,
                     0x5C, 0x61, 0x63, 0x64, 0x66, 0x69, 0x6D, 0x70, 0x74, 0x7B}
    }
  }

  /** A GS command whose operands are fixed. */
  datatype GsCommand =
    | CharacterSize(n: Byte) | Reverse(n: Byte) | HriPosition(n: Byte) | Cut(m: Byte) | HriFont(n: Byte)
    | BarcodeHeight(n: Byte) | SendStatus(n: Byte) | BarcodeWidth(n: Byte)
    | LeftMargin(low: Byte, high: Byte) | PrintAreaWidth(low: Byte, high: Byte)
    | UnknownGs(command: Byte)
  {
    /** What follows the GS on the wire. */
    function Bytes(): seq<Byte> {
      match this
      case CharacterSize(n) => [0x21, n]
      case Reverse(n) => [0x42, n]
      case HriPosition(n) => [0x48, n]
      case Cut(m) => [0x56, m]
      case HriFont(n) => [0x66, n]
      case BarcodeHeight(n) => [0x68, n]
      case SendStatus(n) => [0x72, n]
      case BarcodeWidth(n) => [0x77, n]
      case LeftMargin(low, high) => [0x4C, low, high]
      case PrintAreaWidth(low, high) => [0x57, low, high]
      case UnknownGs(command) => [command]
    }

    predicate IsCommand() {
      UnknownGs? ==> command !in {0x21, 0x28, 0x42, 0x48, 0x4C, 0x56, 0x57, 0x66, 0x68, 0x6B, 0x72, 0x76, 0x77}
    }
  }

  datatype Item =
    | Text(bytes: seq<Byte>)
    | Control(b: Byte)
    | SelectCodepage(n: Byte)
    | BitImage(mode: Byte, columns: nat, image: seq<Byte>)
    | Tabs(stops: seq<Byte>)
    | Esc(esc: EscCommand)
    | BarcodeToNul(symbology: Byte, digits: seq<Byte>)
    | BarcodeCounted(symbology: Byte, digits: seq<Byte>)
    | Raster(mode: Byte, width: nat, height: nat, image: seq<Byte>)
    | Extended(family: Byte, parameters: seq<Byte>)
    | Gs(gs: GsCommand)
    | FsCommand(command: Byte)
    | DleCommand(command: Byte, n: Byte)

  /** What a receipt can say: printable characters, the high half of any codepage included, and line feed, return and tab. */
  predicate IsTextByte(b: Byte) {
    0x20 <= b <= 0xFF || b == 0x0A || b == 0x0D || b == 0x09
  }

  predicate IsItem(item: Item) {
    match item
    case Text(bytes) => forall b | b in bytes :: IsTextByte(b)
    case Control(b) => !IsTextByte(b) && b !in {0x1B, 0x1D, 0x1C, 0x10}
    case SelectCodepage(_) => true
    case BitImage(mode, columns, image) =>
      columns < 0x1_0000 && |image| == if mode == 32 || mode == 33 then columns + columns + columns else columns
    case Tabs(stops) => 0 !in stops
    case Esc(esc) => esc.IsCommand()
    case BarcodeToNul(symbology, digits) => symbology < 65 && 0 !in digits
    case BarcodeCounted(symbology, digits) => symbology >= 65 && |digits| < 256
    case Raster(_, width, height, image) => width < 0x1_0000 && height < 0x1_0000 && |image| == width * height
    case Extended(_, parameters) => |parameters| < 0x1_0000
    case Gs(gs) => gs.IsCommand()
    case FsCommand(_) => true
    case DleCommand(_, _) => true
  }

  function Low(n: nat): Byte {
    n % 256
  }

  function High(n: nat): Byte
    requires n < 0x1_0000
  {
    n / 256
  }

  function Serialized(item: Item): seq<Byte>
    requires IsItem(item)
  {
    match item
    case Text(bytes) => bytes
    case Control(b) => [b]
    case SelectCodepage(n) => [0x1B, 0x74, n]
    case BitImage(mode, columns, image) => [0x1B, 0x2A, mode, Low(columns), High(columns)] + image
    case Tabs(stops) => [0x1B, 0x44] + stops + [0]
    case Esc(esc) => [0x1B] + esc.Bytes()
    case BarcodeToNul(symbology, digits) => [0x1D, 0x6B, symbology] + digits + [0]
    case BarcodeCounted(symbology, digits) => [0x1D, 0x6B, symbology, |digits|] + digits
    case Raster(mode, width, height, image) =>
      [0x1D, 0x76, 0x30, mode, Low(width), High(width), Low(height), High(height)] + image
    case Extended(family, parameters) =>
      [0x1D, 0x28, family, Low(|parameters|), High(|parameters|)] + parameters
    case Gs(gs) => [0x1D] + gs.Bytes()
    case FsCommand(command) => [0x1C, command]
    case DleCommand(command, n) => [0x10, command, n]
  }

  function Job(items: seq<Item>): seq<Byte>
    requires forall item | item in items :: IsItem(item)
  {
    if items == [] then [] else Serialized(items[0]) + Job(items[1..])
  }

  function TextOf(items: seq<Item>): seq<Byte> {
    if items == [] then []
    else ItemText(items[0]) + TextOf(items[1..])
  }

  function ItemText(item: Item): seq<Byte> {
    if item.Text? then item.bytes else []
  }

  function CodepageOf(item: Item, before: Option<Byte>): Option<Byte> {
    if item.SelectCodepage? then Some(item.n) else before
  }

  /** The last codepage selected, if any. */
  function LastCodepage(items: seq<Item>, before: Option<Byte>): Option<Byte> {
    if items == [] then before
    else LastCodepage(items[1..], CodepageOf(items[0], before))
  }

  lemma WordOfBytes(n: nat)
    requires n < 0x1_0000
    ensures Word16(Low(n), High(n)) == n
  {
  }

  lemma {:induction false} NulAfter(before: seq<Byte>, digits: seq<Byte>, post: seq<Byte>)
    requires 0 !in digits
    ensures AfterNul(before + (digits + [0]) + post, |before|) == |before| + |digits| + 1
    decreases |digits|
  {
    var whole := before + (digits + [0]) + post;
    if digits == [] {
      assert whole[|before|] == 0;
    } else {
      assert whole[|before|] == digits[0] && digits[0] in digits;
      NulAfter(before + [digits[0]], digits[1..], post);
      assert whole == before + [digits[0]] + (digits[1..] + [0]) + post;
    }
  }

  /** The table of operands agrees with each command's own. */
  lemma LengthOfEscCommand(esc: EscCommand, post: seq<Byte>)
    requires esc.IsCommand()
    ensures Length([ESC] + (esc.Bytes() + post)) == 1 + |esc.Bytes()|
    ensures CodepageAfter([ESC] + (esc.Bytes() + post), None) == None
  {
    var rest := [ESC] + (esc.Bytes() + post);
    assert rest[1] == esc.Bytes()[0];
    assert 2 + EscOperands(esc.Bytes()[0]) == 1 + |esc.Bytes()|;
  }

  lemma LengthOfGsCommand(gs: GsCommand, post: seq<Byte>)
    requires gs.IsCommand()
    ensures Length([GS] + (gs.Bytes() + post)) == 1 + |gs.Bytes()|
  {
    var rest := [GS] + (gs.Bytes() + post);
    assert rest[1] == gs.Bytes()[0];
    assert 2 + GsOperands(gs.Bytes()[0]) == 1 + |gs.Bytes()|;
  }

  lemma KeptIsText(b: Byte)
    ensures Kept(b) <==> IsTextByte(b)
  {
  }

  lemma LengthOfBitImage(item: Item, post: seq<Byte>)
    requires item.BitImage? && IsItem(item)
    ensures Length(Serialized(item) + post) == |Serialized(item)|
    ensures CodepageAfter(Serialized(item) + post, None) == None
  {
    var rest, columns := Serialized(item) + post, item.columns;
    WordOfBytes(columns);
    assert rest[1] == 0x2A && rest[2] == item.mode && rest[3] == Low(columns) && rest[4] == High(columns);
  }

  lemma LengthOfTabs(item: Item, post: seq<Byte>)
    requires item.Tabs? && IsItem(item)
    ensures Length(Serialized(item) + post) == |Serialized(item)|
    ensures CodepageAfter(Serialized(item) + post, None) == None
  {
    NulAfter([ESC, 0x44], item.stops, post);
    assert Serialized(item) + post == [ESC, 0x44] + (item.stops + [0]) + post;
  }

  /** A command takes exactly its own bytes, whatever follows it. */
  lemma LengthOfEsc(item: Item, post: seq<Byte>)
    requires IsItem(item)
    requires item.SelectCodepage? || item.BitImage? || item.Tabs? || item.Esc?
    ensures Length(Serialized(item) + post) == |Serialized(item)|
    ensures CodepageAfter(Serialized(item) + post, None) == if item.SelectCodepage? then Some(item.n) else None
  {
    var rest := Serialized(item) + post;
    match item
    case SelectCodepage(n) =>
      assert rest[1] == 0x74 && rest[2] == n;
    case BitImage(_, _, _) => LengthOfBitImage(item, post);
    case Tabs(_) => LengthOfTabs(item, post);
    case Esc(esc) =>
      LengthOfEscCommand(esc, post);
      assert rest == [ESC] + (esc.Bytes() + post);
  }

  lemma LengthOfRaster(item: Item, post: seq<Byte>)
    requires item.Raster? && IsItem(item)
    ensures Length(Serialized(item) + post) == |Serialized(item)|
  {
    var rest, width, height := Serialized(item) + post, item.width, item.height;
    WordOfBytes(width);
    WordOfBytes(height);
    assert rest[1] == 0x76 && rest[2] == 0x30;
    assert rest[4] == Low(width) && rest[5] == High(width) && rest[6] == Low(height) && rest[7] == High(height);
  }

  lemma LengthOfGs(item: Item, post: seq<Byte>)
    requires IsItem(item)
    requires item.BarcodeToNul? || item.BarcodeCounted? || item.Raster? || item.Extended? || item.Gs?
    ensures Length(Serialized(item) + post) == |Serialized(item)|
  {
    var rest := Serialized(item) + post;
    match item
    case BarcodeToNul(symbology, digits) =>
      NulAfter([GS, 0x6B, symbology], digits, post);
      assert rest == [GS, 0x6B, symbology] + (digits + [0]) + post;
    case BarcodeCounted(symbology, digits) =>
      assert rest[1] == 0x6B && rest[2] == symbology && rest[3] == |digits|;
    case Raster(_, _, _, _) => LengthOfRaster(item, post);
    case Extended(family, parameters) =>
      WordOfBytes(|parameters|);
      assert rest[1] == 0x28 && rest[3] == Low(|parameters|) && rest[4] == High(|parameters|);
    case Gs(gs) =>
      LengthOfGsCommand(gs, post);
      assert rest == [GS] + (gs.Bytes() + post);
  }

  lemma ScanOfOne(b: Byte, rest: seq<Byte>, at: nat, codepage: Option<Byte>)
    requires Kept(b) && at + 1 <= INT_MAX
    ensures Scan([b] + rest, at, codepage) == Prepend([b], Scan(rest, at + 1, codepage))
  {
    assert Drop([b] + rest, 1) == rest;
    ScanUnrolls([b] + rest, at, codepage, 1, rest);
  }

  /** Any scan that keeps one byte at a time keeps a text; `scan` may start anywhere. */
  lemma {:induction false} KeepsText(scan: (seq<Byte>, nat) -> Outcome, bytes: seq<Byte>, post: seq<Byte>, at: nat)
    requires forall b, rest, i: nat | Kept(b) && i < INT_MAX :: scan([b] + rest, i) == Prepend([b], scan(rest, i + 1))
    requires (forall b | b in bytes :: Kept(b)) && at + |bytes| <= INT_MAX
    ensures scan(bytes + post, at) == Prepend(bytes, scan(post, at + |bytes|))
    decreases |bytes|
  {
    if bytes == [] {
      assert bytes + post == post;
      PrependNothing(scan(post, at));
    } else {
      var first, more := bytes[0], bytes[1..];
      assert first in bytes && bytes == [first] + more;
      KeepsText(scan, more, post, at + 1);
      assert bytes + post == [first] + (more + post);
      PrependTwice([first], more, scan(post, at + |bytes|));
    }
  }

  lemma ScanOfText(bytes: seq<Byte>, post: seq<Byte>, at: nat, codepage: Option<Byte>)
    requires (forall b | b in bytes :: Kept(b)) && at + |bytes| <= INT_MAX
    ensures Scan(bytes + post, at, codepage) == Prepend(bytes, Scan(post, at + |bytes|, codepage))
  {
    var scan := (rest: seq<Byte>, i: nat) => Scan(rest, i, codepage);
    forall b, rest, i: nat | Kept(b) && i < INT_MAX
      ensures scan([b] + rest, i) == Prepend([b], scan(rest, i + 1))
    {
      ScanOfOne(b, rest, i, codepage);
    }
    KeepsText(scan, bytes, post, at);
  }

  lemma PrependNothing(o: Outcome)
    ensures Prepend([], o) == o
  {
    if o.Stripped? {
      assert [] + o.text == o.text;
    }
  }

  lemma LengthOfCommand(item: Item, post: seq<Byte>, codepage: Option<Byte>)
    requires IsItem(item) && !item.Text?
    ensures var whole := Serialized(item) + post;
            && Length(whole) == |Serialized(item)|
            && !Kept(whole[0])
            && CodepageAfter(whole, codepage) == CodepageOf(item, codepage)
  {
    if item.SelectCodepage? || item.BitImage? || item.Tabs? || item.Esc? {
      LengthOfEsc(item, post);
    } else if item.BarcodeToNul? || item.BarcodeCounted? || item.Raster? || item.Extended? || item.Gs? {
      LengthOfGs(item, post);
    }
  }

  lemma ScanGoesPast(command: seq<Byte>, post: seq<Byte>, at: nat, codepage: Option<Byte>, next: nat, after: Option<Byte>)
    requires command != [] && Length(command + post) == |command| && !Kept(command[0])
    requires next == at + |command| <= INT_MAX && after == CodepageAfter(command + post, codepage)
    ensures Scan(command + post, at, codepage) == Scan(post, next, after)
  {
    assert Drop(command + post, |command|) == post;
    ScanUnrollsTo(command + post, at, codepage, |command|, next, post, [], after);
    PrependNothing(Scan(post, next, after));
  }

  lemma ScanOfCommand(item: Item, post: seq<Byte>, at: nat, codepage: Option<Byte>)
    requires IsItem(item) && !item.Text? && at + |Serialized(item)| + |post| <= INT_MAX
    ensures Scan(Serialized(item) + post, at, codepage)
         == Scan(post, at + |Serialized(item)|, CodepageOf(item, codepage))
  {
    LengthOfCommand(item, post, codepage);
    ScanGoesPast(Serialized(item), post, at, codepage, at + |Serialized(item)|, CodepageOf(item, codepage));
  }

  lemma ScanOfItem(item: Item, post: seq<Byte>, at: nat, codepage: Option<Byte>)
    requires IsItem(item) && at + |Serialized(item)| + |post| <= INT_MAX
    ensures Scan(Serialized(item) + post, at, codepage)
         == Prepend(ItemText(item), Scan(post, at + |Serialized(item)|, CodepageOf(item, codepage)))
  {
    if item.Text? {
      ScanOfText(item.bytes, post, at, codepage);
    } else {
      ScanOfCommand(item, post, at, codepage);
      PrependNothing(Scan(post, at + |Serialized(item)|, CodepageOf(item, codepage)));
    }
  }

  /** What one item puts on the wire, and what a scan makes of it. */
  datatype Piece = Piece(bytes: seq<Byte>, text: seq<Byte>, selects: Option<Byte>)

  function Selected(selects: Option<Byte>, before: Option<Byte>): Option<Byte> {
    if selects.Some? then selects else before
  }

  function PieceOf(item: Item): Piece
    requires IsItem(item)
  {
    Piece(Serialized(item), ItemText(item), CodepageOf(item, None))
  }

  type Scanner = (seq<Byte>, nat, Option<Byte>) -> Outcome

  predicate TakesAt(scan: Scanner, p: Piece, post: seq<Byte>, at: nat, codepage: Option<Byte>) {
    at + |p.bytes| + |post| <= INT_MAX ==>
      scan(p.bytes + post, at, codepage) == Prepend(p.text, scan(post, at + |p.bytes|, Selected(p.selects, codepage)))
  }

  ghost predicate ScansAs(scan: Scanner, p: Piece) {
    forall post, at, codepage :: TakesAt(scan, p, post, at, codepage)
  }

  predicate IsPieceOf(p: Piece, item: Item) {
    IsItem(item) && p == PieceOf(item)
  }

  lemma ScanOfPiece(item: Item, p: Piece, post: seq<Byte>, at: nat, codepage: Option<Byte>)
    requires IsPieceOf(p, item)
    ensures TakesAt(Scan, p, post, at, codepage)
  {
    if at + |p.bytes| + |post| <= INT_MAX {
      ScanOfItem(item, post, at, codepage);
      assert Selected(p.selects, codepage) == CodepageOf(item, codepage);
    }
  }

  lemma PieceScansAs(item: Item, p: Piece)
    requires IsPieceOf(p, item)
    ensures ScansAs(Scan, p)
  {
    forall post, at, codepage
      ensures TakesAt(Scan, p, post, at, codepage)
    {
      ScanOfPiece(item, p, post, at, codepage);
    }
  }

  function BytesOf(pieces: seq<Piece>): seq<Byte> {
    if pieces == [] then [] else pieces[0].bytes + BytesOf(pieces[1..])
  }

  function TextOfPieces(pieces: seq<Piece>): seq<Byte> {
    if pieces == [] then [] else pieces[0].text + TextOfPieces(pieces[1..])
  }

  function LastSelected(pieces: seq<Piece>, before: Option<Byte>): Option<Byte> {
    if pieces == [] then before else LastSelected(pieces[1..], Selected(pieces[0].selects, before))
  }

  /** Any scan that takes pieces one by one takes them all. */
  lemma {:induction false} ScanOfPieces(scan: Scanner, pieces: seq<Piece>, post: seq<Byte>, at: nat, codepage: Option<Byte>)
    requires forall p | p in pieces :: ScansAs(scan, p)
    requires at + |BytesOf(pieces)| + |post| <= INT_MAX
    ensures scan(BytesOf(pieces) + post, at, codepage)
         == Prepend(TextOfPieces(pieces), scan(post, at + |BytesOf(pieces)|, LastSelected(pieces, codepage)))
    decreases |pieces|
  {
    if pieces == [] {
      assert BytesOf(pieces) + post == post;
      PrependNothing(scan(post, at, codepage));
    } else {
      var p, rest := pieces[0], pieces[1..];
      var job, between := BytesOf(rest), Selected(p.selects, codepage);
      assert p in pieces && ScansAs(scan, p);
      ScanOfPieces(scan, rest, post, at + |p.bytes|, between);
      Append3(p.bytes, job, post);
      assert TakesAt(scan, p, job + post, at, codepage);
      PrependTwice(p.text, TextOfPieces(rest), scan(post, at + |p.bytes| + |job|, LastSelected(rest, between)));
    }
  }

  function PiecesOf(items: seq<Item>): (pieces: seq<Piece>)
    requires forall item | item in items :: IsItem(item)
    ensures |pieces| == |items|
  {
    if items == [] then [] else [PieceOf(items[0])] + PiecesOf(items[1..])
  }

  lemma {:induction false} JobIsPieces(items: seq<Item>, before: Option<Byte>)
    requires forall item | item in items :: IsItem(item)
    ensures Job(items) == BytesOf(PiecesOf(items)) && TextOf(items) == TextOfPieces(PiecesOf(items))
    ensures LastCodepage(items, before) == LastSelected(PiecesOf(items), before)
    decreases |items|
  {
    if items != [] {
      JobIsPieces(items[1..], CodepageOf(items[0], before));
      assert PiecesOf(items)[1..] == PiecesOf(items[1..]);
    }
  }

  lemma {:induction false} PiecesScanAs(items: seq<Item>)
    requires forall item | item in items :: IsItem(item)
    ensures forall p | p in PiecesOf(items) :: ScansAs(Scan, p)
    decreases |items|
  {
    if items != [] {
      PieceScansAs(items[0], PieceOf(items[0]));
      PiecesScanAs(items[1..]);
      assert forall p :: p in PiecesOf(items) <==> p == PieceOf(items[0]) || p in PiecesOf(items[1..]);
    }
  }

  lemma PiecesScanAsJob(scan: Scanner, items: seq<Item>, post: seq<Byte>, at: nat, codepage: Option<Byte>)
    requires forall item | item in items :: IsItem(item)
    requires forall p | p in PiecesOf(items) :: ScansAs(scan, p)
    requires at + |Job(items)| + |post| <= INT_MAX
    ensures scan(Job(items) + post, at, codepage)
         == Prepend(TextOf(items), scan(post, at + |Job(items)|, LastCodepage(items, codepage)))
  {
    JobIsPieces(items, codepage);
    ScanOfPieces(scan, PiecesOf(items), post, at, codepage);
  }

  lemma ScanOfJob(items: seq<Item>, post: seq<Byte>, at: nat, codepage: Option<Byte>)
    requires forall item | item in items :: IsItem(item)
    requires at + |Job(items)| + |post| <= INT_MAX
    ensures Scan(Job(items) + post, at, codepage)
         == Prepend(TextOf(items), Scan(post, at + |Job(items)|, LastCodepage(items, codepage)))
  {
    PiecesScanAs(items);
    PiecesScanAsJob(Scan, items, post, at, codepage);
  }

  lemma Append3(a: seq<Byte>, b: seq<Byte>, c: seq<Byte>)
    ensures a + b + c == a + (b + c)
  {
  }

  /** A job strips to exactly the text it was printed from, and to the last codepage it selected. */
  lemma JobStripsToItsText(items: seq<Item>)
    requires forall item | item in items :: IsItem(item)
    requires |Job(items)| <= INT_MAX
    ensures Scan(Job(items), 0, None) == Stripped(TextOf(items), LastCodepage(items, None))
  {
    ScanOfJob(items, [], 0, None);
    assert Job(items) + [] == Job(items) && TextOf(items) + [] == TextOf(items);
  }

  // ----- a job cut off in the middle of a command

  /** What is left of the command ends inside the header that gives its length. */
  predicate HeaderIsCut(item: Item, k: nat) {
    || (item.BitImage? && 2 < k < 5)
    || (item.Extended? && 2 < k < 5)
    || (item.Raster? && 2 < k < 8)
  }

  lemma {:induction false} NoNulAfter(rest: seq<Byte>, from: nat)
    requires from <= |rest| && forall i | from <= i < |rest| :: rest[i] != 0
    ensures AfterNul(rest, from) == |rest|
    decreases |rest| - from
  {
    if from < |rest| {
      NoNulAfter(rest, from + 1);
    }
  }

  predicate IsCut(rest: seq<Byte>, item: Item, k: nat) {
    IsItem(item) && !item.Text? && 0 < k < |Serialized(item)| && rest == Serialized(item)[..k]
  }

  predicate LengthIsCut(rest: seq<Byte>, item: Item, k: nat)
    requires IsCut(rest, item, k)
  {
    && (if HeaderIsCut(item, k) then Length(rest) == 2 else k <= Length(rest) <= |Serialized(item)|)
    && CodepageAfter(rest, None) == None
  }

  lemma LengthOfCutEsc(rest: seq<Byte>, item: Item, k: nat)
    requires IsCut(rest, item, k) && (item.SelectCodepage? || item.BitImage? || item.Tabs? || item.Esc?)
    ensures LengthIsCut(rest, item, k)
  {
    assert Serialized(item) + [] == Serialized(item);
    LengthOfEsc(item, []);
    match item
    case Tabs(stops) =>
      if k > 2 {
        forall i | 2 <= i < k
          ensures rest[i] != 0
        {
          assert rest[i] == stops[i - 2] && stops[i - 2] in stops;
        }
        NoNulAfter(rest, 2);
      }
    case Esc(esc) =>
      assert k == 1 || rest[1] == esc.Bytes()[0];
      assert [ESC] + (esc.Bytes() + []) == Serialized(item);
      LengthOfEscCommand(esc, []);
    case _ =>
  }

  lemma LengthOfCutGs(rest: seq<Byte>, item: Item, k: nat)
    requires IsCut(rest, item, k)
    requires item.BarcodeToNul? || item.BarcodeCounted? || item.Raster? || item.Extended? || item.Gs?
    ensures LengthIsCut(rest, item, k)
  {
    assert Serialized(item) + [] == Serialized(item);
    LengthOfGs(item, []);
    match item
    case BarcodeToNul(symbology, digits) =>
      if k > 3 {
        forall i | 3 <= i < k
          ensures rest[i] != 0
        {
          assert rest[i] == digits[i - 3] && digits[i - 3] in digits;
        }
        NoNulAfter(rest, 3);
      }
    case Gs(gs) =>
      assert k == 1 || rest[1] == gs.Bytes()[0];
      assert [GS] + (gs.Bytes() + []) == Serialized(item);
      LengthOfGsCommand(gs, []);
    case _ =>
  }

  lemma LengthOfCut(rest: seq<Byte>, item: Item, k: nat)
    requires IsCut(rest, item, k)
    ensures LengthIsCut(rest, item, k)
  {
    match item
    case Control(b) =>
    case FsCommand(_) =>
    case DleCommand(_, _) =>
    case SelectCodepage(_) => LengthOfCutEsc(rest, item, k);
    case BitImage(_, _, _) => LengthOfCutEsc(rest, item, k);
    case Tabs(_) => LengthOfCutEsc(rest, item, k);
    case Esc(_) => LengthOfCutEsc(rest, item, k);
    case _ => LengthOfCutGs(rest, item, k);
  }

  /**
   * A command cut off leaves nothing, but for one cut in the header of its length: the rest of that
   * header is scanned for what it is.
   */
  lemma ScanOfCutCommand(rest: seq<Byte>, n: nat, at: nat, codepage: Option<Byte>, tail: seq<Byte>)
    requires rest != [] && n == Length(rest) && !Kept(rest[0]) && at + n <= INT_MAX && tail == Drop(rest, n)
    requires CodepageAfter(rest, codepage) == codepage
    ensures Scan(rest, at, codepage) == Scan(tail, at + n, codepage)
  {
    var next := at + n;
    ScanUnrollsTo(rest, at, codepage, n, next, tail, [], codepage);
    PrependNothing(Scan(tail, next, codepage));
  }

  lemma ScanOfCut(item: Item, k: nat, at: nat, codepage: Option<Byte>)
    requires IsItem(item) && !item.Text? && 0 < k < |Serialized(item)| && at + |Serialized(item)| <= INT_MAX
    ensures var rest := Serialized(item)[..k];
            Scan(rest, at, codepage) == if HeaderIsCut(item, k) then Scan(rest[2..], at + 2, codepage) else Stripped([], codepage)
  {
    var rest := Serialized(item)[..k];
    LengthOfCut(rest, item, k);
    ScanOfCutCommand(rest, Length(rest), at, codepage, if HeaderIsCut(item, k) then rest[2..] else []);
  }

  /** So the text of a job cut off in a command is the text before it, unless the cut is in such a header. */
  lemma CutJobStripsToItsText(items: seq<Item>, item: Item, k: nat)
    requires (forall i | i in items :: IsItem(i)) && IsItem(item) && !item.Text?
    requires 0 < k < |Serialized(item)| && |Job(items)| + |Serialized(item)| <= INT_MAX
    ensures var cut := Serialized(item)[..k];
            var before := |Job(items)|;
            Scan(Job(items) + cut, 0, None)
            == if HeaderIsCut(item, k) then Prepend(TextOf(items), Scan(cut[2..], before + 2, LastCodepage(items, None)))
               else Stripped(TextOf(items), LastCodepage(items, None))
  {
    ScanOfJob(items, Serialized(item)[..k], 0, None);
    ScanOfCut(item, k, |Job(items)|, LastCodepage(items, None));
    assert TextOf(items) + [] == TextOf(items);
  }

  // ----- any bytes at all

  ghost predicate IsSubsequence(a: seq<Byte>, b: seq<Byte>) {
    if a == [] then true
    else if b == [] then false
    else (a[0] == b[0] && IsSubsequence(a[1..], b[1..])) || IsSubsequence(a, b[1..])
  }

  lemma {:induction false} SubsequenceOfDrop(a: seq<Byte>, b: seq<Byte>, n: nat)
    requires n <= |b| && IsSubsequence(a, b[n..])
    ensures IsSubsequence(a, b)
    decreases n
  {
    if n > 0 {
      assert b[1..][n - 1..] == b[n..];
      SubsequenceOfDrop(a, b[1..], n - 1);
    } else {
      assert b[0..] == b;
    }
  }

  /** Whatever comes in, what comes out is some of its bytes in their order, all of them text. */
  lemma {:induction false} StrippedIsSomeOfTheText(rest: seq<Byte>, at: nat, codepage: Option<Byte>)
    requires Scan(rest, at, codepage).Stripped?
    ensures var text := Scan(rest, at, codepage).text;
            IsSubsequence(text, rest) && forall b | b in text :: IsTextByte(b)
    decreases |rest|
  {
    if rest != [] {
      var n := Length(rest);
      var tail := Drop(rest, n);
      ScanUnrolls(rest, at, codepage, n, tail);
      StrippedIsSomeOfTheText(tail, at + n, CodepageAfter(rest, codepage));
      var text := Scan(tail, at + n, CodepageAfter(rest, codepage)).text;
      if Kept(rest[0]) {
        assert n == 1 && tail == rest[1..];
        assert ([rest[0]] + text)[1..] == text;
      } else {
        assert [] + text == text;
        if n <= |rest| {
          SubsequenceOfDrop(text, rest, n);
        } else {
          assert text == [];
        }
      }
    }
  }

  /** Stripping what is already stripped changes nothing. */
  lemma StripTwice(data: seq<Byte>)
    requires |data| <= INT_MAX && Scan(data, 0, None).Stripped?
    ensures var text := Scan(data, 0, None).text;
            |text| <= |data| && Scan(text, 0, None) == Stripped(text, None)
  {
    var text := Scan(data, 0, None).text;
    StrippedIsSomeOfTheText(data, 0, None);
    SubsequenceIsShorter(text, data);
    ScanOfText(text, [], 0, None);
    assert text + [] == text;
  }

  lemma {:induction false} SubsequenceIsShorter(a: seq<Byte>, b: seq<Byte>)
    requires IsSubsequence(a, b)
    ensures |a| <= |b|
    decreases |b|
  {
    if a != [] {
      if a[0] == b[0] && IsSubsequence(a[1..], b[1..]) {
        SubsequenceIsShorter(a[1..], b[1..]);
      } else {
        SubsequenceIsShorter(a, b[1..]);
      }
    }
  }

  /**
   * Where the commands and text bytes of a job end, laid one after the other in plain numbers; the
   * last may reach past its bytes.
   */
  function EndOf(rest: seq<Byte>, at: nat): nat
    decreases |rest|
  {
    if rest == [] then at else EndOf(Drop(rest, Length(rest)), at + Length(rest))
  }

  lemma EndUnrolls(rest: seq<Byte>, at: nat, n: nat, tail: seq<Byte>)
    requires rest != [] && n == Length(rest) && tail == Drop(rest, n)
    ensures EndOf(rest, at) == EndOf(tail, at + n) && n + |tail| >= |rest|
  {
  }

  lemma {:induction false} EndIsAhead(rest: seq<Byte>, at: nat)
    ensures EndOf(rest, at) >= at + |rest|
    decreases |rest|
  {
    if rest != [] {
      var n := Length(rest);
      var tail := Drop(rest, n);
      EndUnrolls(rest, at, n, tail);
      EndIsAhead(tail, at + n);
    }
  }

  lemma ScanStripsWhen(rest: seq<Byte>, at: nat, codepage: Option<Byte>, n: nat, tail: seq<Byte>)
    requires rest != [] && n == Length(rest) && tail == Drop(rest, n)
    ensures Scan(rest, at, codepage).Stripped?
       <==> at + n <= INT_MAX && Scan(tail, at + n, CodepageAfter(rest, codepage)).Stripped?
  {
  }

  /**
   * The scan runs to the end exactly where each command it reaches ends within 32 bits, which
   * is where the last of them does; the bytes inside a command do not matter.
   */
  lemma {:induction false} StripsExactlyWhenCommandsFit(rest: seq<Byte>, at: nat, codepage: Option<Byte>)
    requires at <= INT_MAX
    ensures Scan(rest, at, codepage).Stripped? <==> EndOf(rest, at) <= INT_MAX
    decreases |rest|
  {
    if rest != [] {
      var n := Length(rest);
      var tail := Drop(rest, n);
      EndUnrolls(rest, at, n, tail);
      EndIsAhead(tail, at + n);
      ScanStripsWhen(rest, at, codepage, n, tail);
      if at + n <= INT_MAX {
        StripsExactlyWhenCommandsFit(tail, at + n, CodepageAfter(rest, codepage));
      }
    }
  }

  /** No place in the job, taken as the start of a command, asks for an image that ends beyond 32 bits. */
  predicate ImagesFit(rest: seq<Byte>, at: nat) {
    forall i | 0 <= i < |rest| :: at + i + Length(rest[i..]) <= INT_MAX
  }

  lemma ImagesFitAfter(rest: seq<Byte>, at: nat, n: nat)
    requires ImagesFit(rest, at)
    ensures ImagesFit(Drop(rest, n), at + n)
  {
    var tail := Drop(rest, n);
    forall i | 0 <= i < |tail|
      ensures at + n + i + Length(tail[i..]) <= INT_MAX
    {
      assert tail[i..] == rest[n + i..];
    }
  }

  /** A simpler condition that is enough. */
  lemma {:induction false} StripsWhereImagesFit(rest: seq<Byte>, at: nat, codepage: Option<Byte>)
    requires ImagesFit(rest, at)
    ensures Scan(rest, at, codepage).Stripped?
    decreases |rest|
  {
    if rest != [] {
      var n := Length(rest);
      assert rest[0..] == rest;
      ImagesFitAfter(rest, at, n);
      StripsWhereImagesFit(Drop(rest, n), at + n, CodepageAfter(rest, codepage));
      ScanStripsWhen(rest, at, codepage, n, Drop(rest, n));
    }
  }

  /** A header of the largest image, and nothing after it: the 32-bit product is negative and the scan is lost at once. */
  lemma LargestImageIsLost()
    ensures var data := [GS, 0x76, 0x30, 0, 255, 255, 255, 255];
            Length(data) == 4294836233 && Wrap32(Length(data)) == -131063 && Scan(data, 0, None) == JumpLost(0)
  {
    var data: seq<Byte> := [GS, 0x76, 0x30, 0, 255, 255, 255, 255];
    assert Word16(255, 255) == 65535;
    assert Length(data) == 8 + 65535 * 65535;
  }

  // ----- a scan that never ends

  /**
   * The loop's index after `k` turns, as the source computes it; where it is outside the job, the
   * source reads there and fails.
   */
  function IndexAfter(data: seq<Byte>, k: nat): int {
    if k == 0 then 0
    else
      var i := IndexAfter(data, k - 1);
      if 0 <= i < |data| then Wrap32(i + Length(data[i..])) else i
  }

  /** The bytes kept in those turns. */
  function OutputAfter(data: seq<Byte>, k: nat): seq<Byte> {
    if k == 0 then []
    else
      var i := IndexAfter(data, k - 1);
      OutputAfter(data, k - 1) + (if 0 <= i < |data| && Kept(data[i]) then [data[i]] else [])
  }

  const HEADER_AT: nat := 131063

  /** 131063 NULs, and then the header of the largest image. */
  predicate IsEndless(data: seq<Byte>) {
    && |data| == HEADER_AT + 8
    && (forall i | 0 <= i < HEADER_AT :: data[i] == 0)
    && data[HEADER_AT..] == [GS, 0x76, 0x30, 0, 255, 255, 255, 255]
  }

  lemma EndlessJobs()
    ensures IsEndless(seq(HEADER_AT, _ => 0) + [GS, 0x76, 0x30, 0, 255, 255, 255, 255])
  {
  }

  lemma NulIsOneByte(data: seq<Byte>, i: nat)
    requires i < |data| && i < INT_MAX && data[i] == 0
    ensures Wrap32(i + Length(data[i..])) == i + 1
  {
    assert data[i..][0] == 0;
  }

  lemma HeaderGoesBack(data: seq<Byte>)
    requires IsEndless(data)
    ensures Wrap32(HEADER_AT + Length(data[HEADER_AT..])) == 0
    ensures data[HEADER_AT] == GS
  {
    LargestImageIsLost();
    assert data[HEADER_AT..][0] == GS;
  }

  /**
   * The image's jump lands on the first byte of the job: the index goes round for ever, never
   * leaves the job, and nothing is kept on the way, so that not even the memory runs out.
   */
  lemma {:induction false} EndlessJobNeverEnds(data: seq<Byte>, k: nat)
    requires IsEndless(data)
    ensures IndexAfter(data, k) == k % (HEADER_AT + 1) < |data|
    ensures OutputAfter(data, k) == []
  {
    if k > 0 {
      EndlessJobNeverEnds(data, k - 1);
      NextRound(k);
      EndlessStep(data, k, (k - 1) % (HEADER_AT + 1));
    }
  }

  lemma EndlessStep(data: seq<Byte>, k: nat, i: nat)
    requires IsEndless(data) && k > 0 && IndexAfter(data, k - 1) == i <= HEADER_AT
    ensures IndexAfter(data, k) == if i < HEADER_AT then i + 1 else 0
    ensures OutputAfter(data, k) == OutputAfter(data, k - 1)
  {
    TurnStep(data, k, i);
    if i < HEADER_AT {
      NulIsOneByte(data, i);
    } else {
      HeaderGoesBack(data);
    }
  }

  lemma TurnStep(data: seq<Byte>, k: nat, i: nat)
    requires k > 0 && IndexAfter(data, k - 1) == i < |data|
    ensures IndexAfter(data, k) == Wrap32(i + Length(data[i..]))
    ensures OutputAfter(data, k) == OutputAfter(data, k - 1) + (if Kept(data[i]) then [data[i]] else [])
  {
  }

  lemma NextRound(k: nat)
    requires k > 0
    ensures var i := (k - 1) % (HEADER_AT + 1);
            k % (HEADER_AT + 1) == if i < HEADER_AT then i + 1 else 0
  {
  }
}
