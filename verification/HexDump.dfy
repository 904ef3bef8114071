/** The hex dump of bin/utils.c and a reader that gets the bytes back out of it. */
module HexDump {
  import opened Wrappers

  type Byte = b: int | 0 <= b < 256

  /** DUMP_PREFIX_NONE and DUMP_PREFIX_OFFSET. */
  datatype PrefixType = NoPrefix | Offset

  // ---------------------------------------------------------------- numbers in hex

  const DIGITS := "0123456789abcdef"

  function Digit(d: int): char
    requires 0 <= d < 16
  {
    DIGITS[d]
  }

  function DigitValue(c: char): int {
    if '0' <= c <= '9' then c as int - '0' as int
    else if 'a' <= c <= 'f' then c as int - 'a' as int + 10
    else 0
  }

  lemma DigitRoundTrip(d: int)
    requires 0 <= d < 16
    ensures DigitValue(Digit(d)) == d && Digit(d) != ' '
  {}

  /** The last `width` hex digits of `n`. */
  function Low(n: nat, width: nat): (s: string)
    ensures |s| == width
  {
    if width == 0 then [] else Low(n / 16, width - 1) + [Digit(n % 16)]
  }

  /** How many hex digits `n` needs. */
  function Needed(n: nat): nat {
    if n < 16 then 1 else 1 + Needed(n / 16)
  }

  /** `%.8zx` */
  function Hex8(n: nat): string {
    Low(n, if Needed(n) > 8 then Needed(n) else 8)
  }

  function Value(s: string): int {
    if s == [] then 0 else Value(s[..|s| - 1]) * 16 + DigitValue(s[|s| - 1])
  }

  lemma ValueSnoc(front: string, n: nat)
    ensures Value(front + [Digit(n % 16)]) == Value(front) * 16 + n % 16
  {
    hide DigitValue, Digit;
    var s := front + [Digit(n % 16)];
    assert s[..|s| - 1] == front && s[|s| - 1] == Digit(n % 16);
    DigitRoundTrip(n % 16);
  }

  lemma ValueNil()
    ensures Value([]) == 0
  {}

  lemma NeededTail(n: nat)
    ensures Needed(n) > 0 && Needed(n / 16) > 0
    ensures Needed(n / 16) == if n < 16 then 1 else Needed(n) - 1
  {}

  lemma {:induction false} ValueOfLow(n: nat, width: nat)
    requires width >= Needed(n)
    ensures Value(Low(n, width)) == n
    decreases width
  {
    hide Value, Needed, Digit;
    NeededTail(n);
    if width == 1 {
      assert Low(n, 1) == Low(n / 16, 0) + [Digit(n % 16)] == [] + [Digit(n % 16)];
      ValueSnoc([], n);
      ValueNil();
    } else {
      ValueOfLow(n / 16, width - 1);
      ValueSnoc(Low(n / 16, width - 1), n);
    }
  }

  lemma EightDigits(n: nat)
    requires n < 0x1_0000_0000
    ensures Needed(n) <= 8 && |Hex8(n)| == 8 && Value(Hex8(n)) == n
  {
    NeededAtMost(n, 8, 0x1000_0000);
    ValueOfLow(n, 8);
  }

  /** `top` is 16 to the power `k - 1`. */
  lemma {:induction false} NeededAtMost(n: nat, k: nat, top: nat)
    requires k in {1, 2, 3, 4, 5, 6, 7, 8} && n < 16 * top
    requires top == match k case 1 => 1 case 2 => 0x10 case 3 => 0x100 case 4 => 0x1000 case 5 => 0x1_0000
                            case 6 => 0x10_0000 case 7 => 0x100_0000 case 8 => 0x1000_0000 case _ => 0
    ensures Needed(n) <= k
    decreases k
  {
    if n >= 16 {
      NeededAtMost(n / 16, k - 1, top / 16);
    }
  }

  // ---------------------------------------------------------------- the printed text

  /** `%02x` */
  function Hex2(b: Byte): string {
    [Digit(b / 16), Digit(b % 16)]
  }

  function Cell(buf: seq<Byte>, k: nat): string {
    if k < |buf| then Hex2(buf[k]) else "  "
  }

  function Separator(i: nat): string {
    if i > 0 then " " else ""
  }

  /** The hex columns `i` to `n` of the row at offset `j`; columns past the end are blank. */
  function Columns(buf: seq<Byte>, j: nat, i: nat, n: nat): string
    decreases n - i
  {
    if i >= n then [] else Separator(i) + (Cell(buf, j + i) + Columns(buf, j, i + 1, n))
  }

  /** One character of the text part; `printable` is the locale's isprint. */
  function Letter(buf: seq<Byte>, printable: set<int>, k: nat): char {
    if k >= |buf| then ' ' else if buf[k] in printable then buf[k] as char else '.'
  }

  function Text(buf: seq<Byte>, printable: set<int>, j: nat, i: nat, n: nat): string
    decreases n - i
  {
    if i >= n then [] else [Letter(buf, printable, j + i)] + Text(buf, printable, j, i + 1, n)
  }

  function Head(prefix: string, kind: PrefixType, j: nat): string {
    match kind
    case NoPrefix => prefix
    case Offset => prefix + Hex8(j) + ": "
  }

  function Row(prefix: string, kind: PrefixType, rowsize: nat, buf: seq<Byte>, printable: set<int>, j: nat): string {
    Head(prefix, kind, j) + (Columns(buf, j, 0, rowsize) + (" | " + (Text(buf, printable, j, 0, rowsize) + " |\n")))
  }

  function Dump(prefix: string, kind: PrefixType, rowsize: nat, buf: seq<Byte>, printable: set<int>, j: nat): string
    requires rowsize > 0
    decreases |buf| - j
  {
    if j >= |buf| then []
    else Row(prefix, kind, rowsize, buf, printable, j) + Dump(prefix, kind, rowsize, buf, printable, j + rowsize)
  }

  /** One printed piece moves from the text still to come to the text so far. */
  lemma Printed(out: string, piece: string, rest: string)
    ensures out + (piece + rest) == out + piece + rest
  {}

  /** The first inner loop of print_hex_dump. */
  method PrintColumns(buf: seq<Byte>, j: nat, rowsize: nat) returns (out: string)
    ensures out == Columns(buf, j, 0, rowsize)
  {
    hide Columns;
    out := [];
    ColumnsUnfold(buf, j, rowsize, rowsize);
    for i := 0 to rowsize
      invariant out + Columns(buf, j, i, rowsize) == Columns(buf, j, 0, rowsize)
    {
      ColumnsUnfold(buf, j, i, rowsize);
      var cell := PrintCell(buf, j, i);
      Printed(out, cell, Columns(buf, j, i + 1, rowsize));
      out := out + cell;
    }
  }

  lemma ColumnsUnfold(buf: seq<Byte>, j: nat, i: nat, n: nat)
    requires i <= n
    ensures Columns(buf, j, i, n)
         == if i == n then [] else (Separator(i) + Cell(buf, j + i)) + Columns(buf, j, i + 1, n)
  {
    if i < n {
      Printed(Separator(i), Cell(buf, j + i), Columns(buf, j, i + 1, n));
    }
  }

  method PrintCell(buf: seq<Byte>, j: nat, i: nat) returns (s: string)
    ensures s == Separator(i) + Cell(buf, j + i)
  {
    s := if i > 0 then " " else "";
    if j + i < |buf| {
      s := s + Hex2(buf[j + i]);
    } else {
      s := s + "  ";
    }
  }

  /** The second inner loop of print_hex_dump. */
  method PrintText(buf: seq<Byte>, printable: set<int>, j: nat, rowsize: nat) returns (out: string)
    ensures out == Text(buf, printable, j, 0, rowsize)
  {
    out := [];
    for i := 0 to rowsize
      invariant out + Text(buf, printable, j, i, rowsize) == Text(buf, printable, j, 0, rowsize)
    {
      ghost var rest := Text(buf, printable, j, i + 1, rowsize);
      var c := '.';
      if j + i < |buf| {
        if buf[j + i] in printable {
          c := buf[j + i] as char;
        }
      } else {
        c := ' ';
      }
      assert out + ([c] + rest) == out + [c] + rest;
      out := out + [c];
    }
  }

  /** The grouping and the ascii flag are ignored by the code. */
  method PrintHexDump(prefix: string, kind: PrefixType, rowsize: int, groupsize: int, buf: seq<Byte>,
                      printable: set<int>, ascii: bool) returns (out: string)
    requires rowsize > 0
    ensures out == Dump(prefix, kind, rowsize, buf, printable, 0)
  {
    hide Dump, Row, Columns, Text, Head;
    out := [];
    var len := |buf|;
    var j: nat := 0;
    while j < len
      invariant out + Dump(prefix, kind, rowsize, buf, printable, j) == Dump(prefix, kind, rowsize, buf, printable, 0)
      decreases len - j
    {
      var row := PrintRow(prefix, kind, rowsize, buf, printable, j);
      DumpUnfold(prefix, kind, rowsize, buf, printable, j);
      Printed(out, row, Dump(prefix, kind, rowsize, buf, printable, j + rowsize));
      out := out + row;
      j := j + rowsize;
    }
    DumpUnfold(prefix, kind, rowsize, buf, printable, j);
  }

  /** The body of the outer loop of print_hex_dump. */
  method PrintRow(prefix: string, kind: PrefixType, rowsize: nat, buf: seq<Byte>, printable: set<int>, j: nat)
    returns (out: string)
    ensures out == Row(prefix, kind, rowsize, buf, printable, j)
  {
    hide Columns, Text, Hex8;
    out := match kind case Offset => prefix + Hex8(j) + ": " case NoPrefix => prefix;
    var columns := PrintColumns(buf, j, rowsize);
    out := out + columns;
    out := out + " | ";
    var text := PrintText(buf, printable, j, rowsize);
    out := out + text;
    out := out + " |\n";
    Printed(Head(prefix, kind, j) + columns, " | ", text + " |\n");
    Printed(Head(prefix, kind, j), columns, " | " + (text + " |\n"));
    Printed(Head(prefix, kind, j) + columns + " | ", text, " |\n");
  }

  lemma DumpUnfold(prefix: string, kind: PrefixType, rowsize: nat, buf: seq<Byte>, printable: set<int>, j: nat)
    requires rowsize > 0
    ensures Dump(prefix, kind, rowsize, buf, printable, j)
         == if j >= |buf| then []
            else Row(prefix, kind, rowsize, buf, printable, j) + Dump(prefix, kind, rowsize, buf, printable, j + rowsize)
  {}

  // ---------------------------------------------------------------- reading it back

  function HeadWidth(prefix: string, kind: PrefixType): nat {
    |prefix| + if kind == Offset then 10 else 0
  }

  function RowWidth(prefix: string, kind: PrefixType, rowsize: nat): nat
    requires rowsize > 0
  {
    HeadWidth(prefix, kind) + (3 * rowsize - 1) + 3 + rowsize + 3
  }

  lemma {:induction false} ColumnsWidth(buf: seq<Byte>, j: nat, i: nat, n: nat)
    requires i <= n
    ensures |Columns(buf, j, i, n)| == 3 * (n - i) - if i == 0 < n then 1 else 0
    decreases n - i
  {
    if i < n {
      ColumnsWidth(buf, j, i + 1, n);
    }
  }

  /** `s` starts with the row's bytes as text: a printable one as itself, a dot for any other, and
      a blank past the end. */
  ghost predicate ShowsText(s: string, rowsize: nat, buf: seq<Byte>, printable: set<int>, j: nat) {
    rowsize <= |s| && forall k :: 0 <= k < rowsize ==>
      if j + k >= |buf| then s[k] == ' '
      else if buf[j + k] in printable then s[k] as int == buf[j + k]
      else s[k] == '.'
  }

  lemma {:induction false} TextColumns(buf: seq<Byte>, printable: set<int>, j: nat, i: nat, n: nat)
    requires i <= n
    ensures |Text(buf, printable, j, i, n)| == n - i
    ensures ShowsText(Text(buf, printable, j, i, n), n - i, buf, printable, j + i)
    decreases n - i
  {
    if i < n {
      TextColumns(buf, printable, j, i + 1, n);
    }
  }

  lemma HeadHasWidth(prefix: string, kind: PrefixType, j: nat)
    requires j < 0x1_0000_0000
    ensures |Head(prefix, kind, j)| == HeadWidth(prefix, kind)
    ensures kind == Offset ==> Head(prefix, kind, j)[|prefix|..|prefix| + 8] == Hex8(j)
  {
    EightDigits(j);
    hide Hex8;
    if kind == Offset {
      assert (prefix + Hex8(j) + ": ")[|prefix|..|prefix| + 8] == Hex8(j);
    }
  }

  /** The bytes in the hex columns `i` to `n` that `s` starts with, up to the first blank one. */
  function ReadColumns(s: string, i: nat, n: nat): seq<int>
    decreases n - i
  {
    var t := if i > 0 && s != [] then s[1..] else s;
    if i >= n || |t| < 2 || t[0] == ' ' then []
    else [DigitValue(t[0]) * 16 + DigitValue(t[1])] + ReadColumns(t[2..], i + 1, n)
  }

  lemma CellValue(b: Byte)
    ensures DigitValue(Hex2(b)[0]) * 16 + DigitValue(Hex2(b)[1]) == b && Hex2(b)[0] != ' '
  {
    DigitRoundTrip(b / 16);
    DigitRoundTrip(b % 16);
  }

  /** Reading one column takes off its separator and its cell. */
  lemma ReadCell(buf: seq<Byte>, j: nat, i: nat, n: nat, tail: string)
    requires i < n
    ensures ReadColumns(Separator(i) + (Cell(buf, j + i) + tail), i, n)
         == if j + i < |buf| then [buf[j + i]] + ReadColumns(tail, i + 1, n) else []
  {
    hide Hex2, DigitValue;
    var cell := Cell(buf, j + i);
    var s := Separator(i) + (cell + tail);
    CellWidth(buf, j + i);
    var t := if i > 0 && s != [] then s[1..] else s;
    assert t == cell + tail;
    assert t[2..] == tail && t[0] == cell[0] && t[1] == cell[1];
    if j + i < |buf| {
      CellValue(buf[j + i]);
    }
  }

  lemma {:induction false} ColumnsReadBack(buf: seq<Byte>, j: nat, i: nat, n: nat, rest: string)
    requires i <= n && j + i <= |buf|
    ensures ReadColumns(Columns(buf, j, i, n) + rest, i, n) == buf[j + i..Min(j + n, |buf|)]
    decreases n - i
  {
    hide ReadColumns, Columns;
    if i == n {
      NoColumns(buf, j, n, rest);
    } else {
      ColumnsStep(buf, j, i, n, rest);
      if j + i < |buf| {
        ColumnsReadBack(buf, j, i + 1, n, rest);
        assert buf[j + i..Min(j + n, |buf|)] == [buf[j + i]] + buf[j + i + 1..Min(j + n, |buf|)];
      }
    }
  }

  lemma NoColumns(buf: seq<Byte>, j: nat, n: nat, rest: string)
    ensures ReadColumns(Columns(buf, j, n, n) + rest, n, n) == []
  {}

  lemma ColumnsStep(buf: seq<Byte>, j: nat, i: nat, n: nat, rest: string)
    requires i < n
    ensures ReadColumns(Columns(buf, j, i, n) + rest, i, n)
         == if j + i < |buf| then [buf[j + i]] + ReadColumns(Columns(buf, j, i + 1, n) + rest, i + 1, n) else []
  {
    hide ReadColumns, Cell, Separator;
    var tail := Columns(buf, j, i + 1, n) + rest;
    ReadCell(buf, j, i, n, tail);
    assert Columns(buf, j, i, n) + rest == Separator(i) + (Cell(buf, j + i) + tail);
  }

  lemma CellWidth(buf: seq<Byte>, k: nat)
    ensures |Cell(buf, k)| == 2
  {}

  lemma TextReadsBack(buf: seq<Byte>, printable: set<int>, j: nat, rowsize: nat)
    ensures var text := Text(buf, printable, j, 0, rowsize);
            |text| == rowsize && ShowsText(text + " |\n", rowsize, buf, printable, j)
  {
    TextColumns(buf, printable, j, 0, rowsize);
  }

  /** What surrounds the bytes of a row: the prefix, a colon after the offset, bars around the
      text, blanks between the columns and in the columns past the end. */
  ghost predicate LaidOut(prefix: string, kind: PrefixType, rowsize: nat, len: nat, j: nat, row: string)
    requires rowsize > 0 && |row| == RowWidth(prefix, kind, rowsize)
  {
    var h := HeadWidth(prefix, kind);
    && row[..|prefix|] == prefix
    && (kind == Offset ==> row[h - 2..h] == ": ")
    && BlanksIn(row[h..h + 3 * rowsize - 1], 0, rowsize, len, j)
    && row[h + 3 * rowsize - 1..h + 3 * rowsize + 2] == " | "
    && row[|row| - 3..] == " |\n"
  }

  /** The blanks of the hex columns `i` to `n`. */
  ghost predicate BlanksIn(s: string, i: nat, n: nat, len: nat, j: nat)
    decreases n - i
  {
    if i >= n then s == []
    else
      var t := if i == 0 || s == [] then s else s[1..];
      && |t| >= 2 && (i > 0 ==> s[0] == ' ')
      && (j + i >= len ==> t[..2] == "  ")
      && BlanksIn(t[2..], i + 1, n, len, j)
  }

  lemma {:induction false} ColumnsBlanks(buf: seq<Byte>, j: nat, i: nat, n: nat)
    ensures BlanksIn(Columns(buf, j, i, n), i, n, |buf|, j)
    decreases n - i
  {
    hide Hex2;
    if i < n {
      ColumnsBlanks(buf, j, i + 1, n);
      var cell, tail := Cell(buf, j + i), Columns(buf, j, i + 1, n);
      CellWidth(buf, j + i);
      var s := Separator(i) + (cell + tail);
      var t := if i == 0 || s == [] then s else s[1..];
      assert t == cell + tail;
      assert t[2..] == tail && t[..2] == cell;
    }
  }

  lemma HeadLayout(prefix: string, kind: PrefixType, j: nat)
    requires j < 0x1_0000_0000
    ensures var head, h := Head(prefix, kind, j), HeadWidth(prefix, kind);
            && |head| == h && head[..|prefix|] == prefix
            && (kind == Offset ==> head[h - 2..h] == ": ")
  {
    EightDigits(j);
    hide Hex8;
  }

  lemma RowIsLaidOut(prefix: string, kind: PrefixType, rowsize: nat, len: nat, j: nat,
                     head: string, columns: string, text: string)
    requires rowsize > 0 && |columns| == 3 * rowsize - 1 && |text| == rowsize
    requires var h := HeadWidth(prefix, kind);
             && |head| == h && head[..|prefix|] == prefix
             && (kind == Offset ==> head[h - 2..h] == ": ")
    requires BlanksIn(columns, 0, rowsize, len, j)
    ensures var row := head + (columns + (" | " + (text + " |\n")));
            |row| == RowWidth(prefix, kind, rowsize) && LaidOut(prefix, kind, rowsize, len, j, row)
  {
    hide BlanksIn;
    var h := |head|;
    var end := " | " + (text + " |\n");
    var row := head + (columns + end);
    assert row[..|prefix|] == head[..|prefix|];
    assert row[h..h + |columns|] == columns;
    assert row[h + |columns|..h + |columns| + 3] == " | ";
    assert row[|row| - 3..] == " |\n";
    if kind == Offset {
      assert row[h - 2..h] == head[h - 2..h];
    }
  }

  /** Where the parts of a row lie. */
  lemma RowParts(head: string, columns: string, text: string)
    ensures var rest := " | " + (text + " |\n"); var row := head + (columns + rest);
            && row[..|head|] == head
            && row[|head|..] == columns + rest
            && row[|head| + |columns| + 3..] == text + " |\n"
            && |row| == |head| + |columns| + |text| + 6
  {
    assert (" | " + (text + " |\n"))[3..] == text + " |\n";
  }

  /** The offset in a row that starts with its head. */
  lemma OffsetReadsBack(prefix: string, row: string, j: nat)
    requires j < 0x1_0000_0000
    requires var head := Head(prefix, Offset, j); |head| <= |row| && row[..|head|] == head
    ensures |prefix| + 8 <= |row| && Value(row[|prefix|..|prefix| + 8]) == j
  {
    hide Head, Value, Hex8;
    var head := Head(prefix, Offset, j);
    HeadHasWidth(prefix, Offset, j);
    EightDigits(j);
    assert row[|prefix|..|prefix| + 8] == head[|prefix|..|prefix| + 8];
  }

  /** All rows are equally wide and laid out alike, and each gives back its bytes, its offset and
      its text. */
  lemma RowReadsBack(prefix: string, kind: PrefixType, rowsize: nat, buf: seq<Byte>, printable: set<int>, j: nat)
    requires rowsize > 0 && j < |buf| <= 0x1_0000_0000
    ensures var row := Row(prefix, kind, rowsize, buf, printable, j); var h := HeadWidth(prefix, kind);
            && |row| == RowWidth(prefix, kind, rowsize)
            && ReadColumns(row[h..], 0, rowsize) == buf[j..Min(j + rowsize, |buf|)]
            && (kind == Offset ==> Value(row[|prefix|..|prefix| + 8]) == j)
            && ShowsText(row[h + 3 * rowsize + 2..], rowsize, buf, printable, j)
            && LaidOut(prefix, kind, rowsize, |buf|, j, row)
  {
    hide Columns, Text, Head, ReadColumns, Value, ShowsText, LaidOut, BlanksIn;
    var row := Row(prefix, kind, rowsize, buf, printable, j);
    var columns, text := Columns(buf, j, 0, rowsize), Text(buf, printable, j, 0, rowsize);
    HeadHasWidth(prefix, kind, j);
    ColumnsWidth(buf, j, 0, rowsize);
    TextReadsBack(buf, printable, j, rowsize);
    RowParts(Head(prefix, kind, j), columns, text);
    ColumnsReadBack(buf, j, 0, rowsize, " | " + (text + " |\n"));
    HeadLayout(prefix, kind, j);
    ColumnsBlanks(buf, j, 0, rowsize);
    RowIsLaidOut(prefix, kind, rowsize, |buf|, j, Head(prefix, kind, j), columns, text);
    if kind == Offset {
      OffsetReadsBack(prefix, row, j);
    }
  }

  /** A row of the dump as a reader sees it. */
  datatype Line = Line(offset: int, bytes: seq<int>)

  function ReadLine(prefix: string, rowsize: nat, row: string): Line
    requires rowsize > 0 && |row| == RowWidth(prefix, Offset, rowsize)
  {
    Line(Value(row[|prefix|..|prefix| + 8]), ReadColumns(row[HeadWidth(prefix, Offset)..], 0, rowsize))
  }

  /** The reader: it cuts the text into rows by width alone. */
  function Decode(prefix: string, rowsize: nat, out: string): seq<Line>
    requires rowsize > 0
    decreases |out|
  {
    var w := RowWidth(prefix, Offset, rowsize);
    if |out| < w then [] else [ReadLine(prefix, rowsize, out[..w])] + Decode(prefix, rowsize, out[w..])
  }

  function AllBytes(lines: seq<Line>): seq<int> {
    if lines == [] then [] else lines[0].bytes + AllBytes(lines[1..])
  }

  /** What reading the dump from offset `j` on gives: the remaining bytes, the rows numbered by
      their offsets, and no more rows than it takes. */
  ghost predicate Undone(lines: seq<Line>, buf: seq<Byte>, rowsize: nat, j: nat)
    requires j <= |buf|
  {
    && AllBytes(lines) == buf[j..]
    && (forall r :: 0 <= r < |lines| ==> lines[r].offset == j + r * rowsize)
    && (if j == |buf| then lines == []
        else lines != [] && (|lines| - 1) * rowsize < |buf| - j <= |lines| * rowsize)
  }

  lemma UndoneCons(lines: seq<Line>, buf: seq<Byte>, rowsize: nat, j: nat)
    requires rowsize > 0 && j < |buf|
    requires var next := Min(j + rowsize, |buf|);
             Undone(lines, buf, rowsize, next)
    ensures Undone([Line(j, buf[j..Min(j + rowsize, |buf|)])] + lines, buf, rowsize, j)
  {
    var next := Min(j + rowsize, |buf|);
    var all := [Line(j, buf[j..next])] + lines;
    assert all[1..] == lines;
    assert buf[j..] == buf[j..next] + buf[next..];
    assert |all| * rowsize == |lines| * rowsize + rowsize;
    assert (|all| - 1) * rowsize == |lines| * rowsize;
    if lines != [] {
      assert (|lines| - 1) * rowsize == |lines| * rowsize - rowsize;
    }
    forall r | 0 <= r < |all| ensures all[r].offset == j + r * rowsize {
      if r > 0 {
        assert all[r] == lines[r - 1];
        assert next + (r - 1) * rowsize == j + r * rowsize;
      }
    }
  }

  /** The hex dump is undone by the reader, for every buffer shorter than 2^32 bytes: the bytes
      come back, in ceil(len / rowsize) rows, row r carrying offset r * rowsize. */
  lemma {:induction false} DumpIsUndone(prefix: string, rowsize: nat, buf: seq<Byte>, printable: set<int>, j: nat)
    requires rowsize > 0 && j <= |buf| < 0x1_0000_0000
    ensures Undone(Decode(prefix, rowsize, Dump(prefix, Offset, rowsize, buf, printable, j)), buf, rowsize, j)
    decreases |buf| - j
  {
    hide Row, ReadColumns, Value, Undone;
    var out := Dump(prefix, Offset, rowsize, buf, printable, j);
    if j == |buf| {
      NothingLeft(buf, rowsize);
    } else {
      var row, w := Row(prefix, Offset, rowsize, buf, printable, j), RowWidth(prefix, Offset, rowsize);
      var next := Min(j + rowsize, |buf|);
      var rest := Dump(prefix, Offset, rowsize, buf, printable, next);
      DumpUnfold(prefix, Offset, rowsize, buf, printable, j);
      DumpUnfold(prefix, Offset, rowsize, buf, printable, j + rowsize);
      DumpUnfold(prefix, Offset, rowsize, buf, printable, next);
      assert out == row + rest;
      RowReadsBack(prefix, Offset, rowsize, buf, printable, j);
      assert out[w..] == rest && out[..w] == row;
      DumpIsUndone(prefix, rowsize, buf, printable, next);
      UndoneCons(Decode(prefix, rowsize, rest), buf, rowsize, j);
    }
  }

  lemma NothingLeft(buf: seq<Byte>, rowsize: nat)
    ensures Undone([], buf, rowsize, |buf|)
  {}
}
