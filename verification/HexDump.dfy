/** The wireshark-style hex dump, its reader, and the NGAP packet it can be wrapped in. */
module HexDump {
  import opened Octets

  const WIDTH: nat := 8
  const ADDRESS_SIZE: nat := 5

  function HexDigit(n: nat): (c: char)
    requires n < 16
    ensures c != ' ' && c != '\n' && HexValue(c) == n
    ensures c == if n < 10 then '0' + n as char else 'a' + (n - 10) as char
  {
    "0123456789abcdef"[n]
  }

  /** The value of a lower-case hex digit. Other characters do not matter. */
  function HexValue(c: char): (n: nat)
    ensures n < 16
  {
    if '0' <= c <= '9' then (c - '0') as nat
    else if 'a' <= c <= 'f' then (c - 'a') as nat + 10
    else 0
  }

  /** `std::hex` without padding. */
  function Hex(n: nat): (s: string)
    ensures s != [] && ' ' !in s
  {
    if n < 16 then [HexDigit(n)] else Hex(n / 16) + [HexDigit(n % 16)]
  }

  /** `std::setfill('0') << std::setw(width)`. */
  function Zeros(n: nat): (s: string)
    ensures |s| == n && ' ' !in s
  {
    seq(n, _ => '0')
  }

  function Padded(n: nat, width: nat): (s: string)
    ensures ' ' !in s
  {
    var digits := Hex(n);
    (if |digits| < width then Zeros(width - |digits|) else []) + digits
  }

  lemma TwoDigits(b: byte)
    ensures Padded(b, 2) == [HexDigit(b / 16), HexDigit(b % 16)]
  {
    if b < 16 {
      assert Hex(b) == [HexDigit(b)];
      assert Zeros(1) == ['0'];
    } else {
      assert Hex(b) == Hex(b / 16) + [HexDigit(b % 16)];
      assert Hex(b / 16) == [HexDigit(b / 16)];
    }
  }

  /** One hex column: two digits and a space. */
  function Cell(b: byte): (s: string)
    ensures |s| == 3 && s[0] == HexDigit(b / 16) && s[1] == HexDigit(b % 16)
  {
    TwoDigits(b);
    Padded(b, 2) + " "
  }

  function Columns(row: seq<byte>): (s: string)
    ensures |s| == 3 * |row|
  {
    if row == [] then "" else Cell(row[0]) + Columns(row[1..])
  }

  function Blanks(n: nat): (s: string)
    ensures |s| == 3 * n
    ensures n > 0 ==> s[0] == ' '
  {
    if n == 0 then "" else "   " + Blanks(n - 1)
  }

  function Printable(b: byte): char {
    if 32 <= b < 127 then b as char else '.'
  }

  function Ascii(row: seq<byte>): (s: string)
    ensures |s| == |row|
  {
    if row == [] then "" else [Printable(row[0])] + Ascii(row[1..])
  }

  /** What follows the address in a row. */
  function Cells(row: seq<byte>): (s: string)
    requires |row| <= WIDTH
    ensures |s| == 3 * WIDTH + |row| + 1
  {
    Columns(row) + (Blanks(WIDTH - |row|) + (Ascii(row) + "\n"))
  }

  function Row(offset: nat, row: seq<byte>): string
    requires |row| <= WIDTH
  {
    Padded(offset, ADDRESS_SIZE) + " " + Cells(row)
  }

  function RowLength(data: seq<byte>, offset: nat): nat
    requires offset <= |data|
  {
    if offset + WIDTH >= |data| then |data| - offset else WIDTH
  }

  function Dump(data: seq<byte>, offset: nat): string
    requires offset <= |data|
    decreases |data| - offset
  {
    if offset == |data| then ""
    else
      var n := RowLength(data, offset);
      Row(offset, data[offset..offset + n]) + Dump(data, offset + n)
  }

  // Reading a dump back.

  /** The columns of hex pairs up to the first blank one. */
  function ReadColumns(text: string, n: nat): (row: seq<byte>)
    ensures |row| <= n
    decreases n
  {
    if n == 0 || |text| < 3 || text[0] == ' ' then []
    else [HexValue(text[0]) * 16 + HexValue(text[1])] + ReadColumns(text[3..], n - 1)
  }

  /** Where the address ends. */
  function AddressEnd(text: string): (n: nat)
    ensures n <= |text|
  {
    if text == [] || text[0] == ' ' then 0 else 1 + AddressEnd(text[1..])
  }

  /** The bytes a dump shows, read from its hex columns alone: the rows are told apart by their lengths, so nothing in
      the text column can mislead it. */
  function Undump(text: string): seq<byte>
    decreases |text|
  {
    if AddressEnd(text) == |text| then [] else RowShown(text) + Undump(BehindRow(text))
  }

  function RowShown(text: string): seq<byte>
    requires AddressEnd(text) < |text|
  {
    ReadColumns(text[AddressEnd(text) + 1..], WIDTH)
  }

  function BehindRow(text: string): (rest: string)
    requires AddressEnd(text) < |text|
    ensures |rest| < |text|
  {
    var next := AddressEnd(text) + 1 + 3 * WIDTH + |RowShown(text)| + 1;
    if next > |text| then "" else text[next..]
  }

  lemma {:induction false} AddressEnds(address: string, rest: string)
    requires ' ' !in address
    ensures AddressEnd(address + " " + rest) == |address|
  {
    var text := address + " " + rest;
    if address == [] {
      assert text[0] == ' ';
    } else {
      assert text[1..] == address[1..] + " " + rest;
      assert forall c :: c in address[1..] ==> c in address;
      AddressEnds(address[1..], rest);
    }
  }

  /** The hex columns read back as the row, provided a full row or a blank follows. */
  lemma {:induction false} ColumnsRead(row: seq<byte>, n: nat, rest: string)
    requires |row| <= n
    requires |row| == n || (rest != [] && rest[0] == ' ')
    ensures ReadColumns(Columns(row) + rest, n) == row
    decreases n
  {
    var text := Columns(row) + rest;
    if row == [] {
      assert text == rest;
    } else {
      var b, more := row[0], Columns(row[1..]) + rest;
      FirstCell(row, rest);
      CellRead(b, more, n);
      ColumnsRead(row[1..], n - 1, rest);
    }
  }

  lemma FirstCell(row: seq<byte>, rest: string)
    requires row != []
    ensures Columns(row) + rest == Cell(row[0]) + (Columns(row[1..]) + rest)
    ensures [row[0]] + row[1..] == row
  {
  }

  lemma CellRead(b: byte, more: string, n: nat)
    requires n > 0
    ensures ReadColumns(Cell(b) + more, n) == [b] + ReadColumns(more, n - 1)
  {
    var text := Cell(b) + more;
    assert text[0] == HexDigit(b / 16) && text[1] == HexDigit(b % 16) && text[3..] == more;
  }

  /** One row and whatever follows it. */
  lemma {:induction false} RowRead(offset: nat, row: seq<byte>, rest: string)
    requires |row| <= WIDTH
    ensures Undump(Row(offset, row) + rest) == row + Undump(rest)
  {
    RowEnds(offset, row, rest);
  }

  lemma {:induction false} RowEnds(offset: nat, row: seq<byte>, rest: string)
    requires |row| <= WIDTH
    ensures var text := Row(offset, row) + rest;
            && AddressEnd(text) == |Padded(offset, ADDRESS_SIZE)| < |text|
            && RowShown(text) == row && BehindRow(text) == rest
  {
    var address := Padded(offset, ADDRESS_SIZE);
    var text := Row(offset, row) + rest;
    var cells := Cells(row) + rest;
    assert text == address + " " + cells;
    assert AddressEnd(text) == |address| by { AddressEnds(address, cells); }
    assert text[|address| + 1..] == cells && text[|address| + 1 + |Cells(row)|..] == rest;
    CellsRead(row, rest);
  }

  lemma CellsRead(row: seq<byte>, rest: string)
    requires |row| <= WIDTH
    ensures ReadColumns(Cells(row) + rest, WIDTH) == row
  {
    var tail := Blanks(WIDTH - |row|) + (Ascii(row) + "\n") + rest;
    assert Cells(row) + rest == Columns(row) + tail;
    ColumnsRead(row, WIDTH, tail);
  }

  lemma FirstRow(data: seq<byte>, offset: nat)
    requires offset < |data|
    ensures var n := RowLength(data, offset);
            Dump(data, offset) == Row(offset, data[offset..offset + n]) + Dump(data, offset + n)
  {
  }

  /** The dump is invertible: its hex columns read back as the buffer, for every buffer. */
  lemma {:induction false} DumpReadsBack(data: seq<byte>, offset: nat)
    requires offset <= |data|
    ensures Undump(Dump(data, offset)) == data[offset..]
    decreases |data| - offset
  {
    if offset < |data| {
      var n := RowLength(data, offset);
      var row, rest := data[offset..offset + n], Dump(data, offset + n);
      calc {
        Undump(Dump(data, offset));
        { FirstRow(data, offset); }
        Undump(Row(offset, row) + rest);
        { RowRead(offset, row, rest); }
        row + Undump(rest);
        { DumpReadsBack(data, offset + n); }
        row + data[offset + n..];
        { SplitBehind(data, offset, offset + n); }
        data[offset..];
      }
    }
  }

  /** So distinct buffers have distinct dumps. */
  lemma DumpInjective(a: seq<byte>, b: seq<byte>)
    requires Dump(a, 0) == Dump(b, 0)
    ensures a == b
  {
    DumpReadsBack(a, 0);
    DumpReadsBack(b, 0);
    assert a[0..] == a && b[0..] == b;
  }

  // Reading it back line by line.

  /** What a hex numeral stands for. */
  function HexNumber(s: string): nat {
    if s == "" then 0 else HexNumber(s[..|s| - 1]) * 16 + HexValue(s[|s| - 1])
  }

  function LineEnd(text: string): (n: nat)
    ensures n <= |text|
  {
    if text == "" || text[0] == '\n' then 0 else 1 + LineEnd(text[1..])
  }

  function Lines(text: string): seq<string>
    decreases |text|
  {
    if text == "" then []
    else
      var n := LineEnd(text);
      [text[..n]] + if n < |text| then Lines(text[n + 1..]) else []
  }

  /** A row without the end of its line. */
  function Line(offset: nat, row: seq<byte>): string
    requires |row| <= WIDTH
  {
    Padded(offset, ADDRESS_SIZE) + " " + Columns(row) + Blanks(WIDTH - |row|) + Ascii(row)
  }

  lemma RowIsLine(offset: nat, row: seq<byte>)
    requires |row| <= WIDTH
    ensures Row(offset, row) == Line(offset, row) + "\n"
  {
    var address, n := Padded(offset, ADDRESS_SIZE) + " ", WIDTH - |row|;
    Concatenate(address, Columns(row), Blanks(n) + (Ascii(row) + "\n"));
    Concatenate(address + Columns(row), Blanks(n), Ascii(row) + "\n");
    Concatenate(address + Columns(row) + Blanks(n), Ascii(row), "\n");
  }

  lemma {:induction false} HexReads(n: nat)
    ensures HexNumber(Hex(n)) == n && '\n' !in Hex(n)
    ensures n > 0 ==> Hex(n)[0] != '0'
  {
    if n < 16 {
      assert HexNumber([HexDigit(n)]) == HexNumber("") * 16 + HexValue(HexDigit(n));
    } else {
      HexReads(n / 16);
      var s := Hex(n);
      assert s[..|s| - 1] == Hex(n / 16) && s[|s| - 1] == HexDigit(n % 16);
    }
  }

  lemma {:induction false} ZerosRead(k: nat, s: string)
    requires s != ""
    ensures HexNumber(Zeros(k) + s) == HexNumber(s)
    decreases |s|
  {
    var t := Zeros(k) + s;
    assert t[..|t| - 1] == Zeros(k) + s[..|s| - 1] && t[|t| - 1] == s[|s| - 1];
    if |s| == 1 {
      assert Zeros(k) + s[..0] == Zeros(k);
      OnlyZeros(k);
    } else {
      ZerosRead(k, s[..|s| - 1]);
    }
  }

  lemma {:induction false} OnlyZeros(k: nat)
    ensures HexNumber(Zeros(k)) == 0
  {
    if k > 0 {
      assert Zeros(k)[..k - 1] == Zeros(k - 1);
      OnlyZeros(k - 1);
    }
  }

  /** The address column: at least five digits, the value, and no leading zero beyond the fifth digit. */
  lemma AddressReads(offset: nat)
    ensures var s := Padded(offset, ADDRESS_SIZE);
            |s| >= 5 && HexNumber(s) == offset && (|s| > 5 ==> s[0] != '0') && '\n' !in s
  {
    var digits := Hex(offset);
    HexReads(offset);
    if |digits| < ADDRESS_SIZE {
      ZerosRead(ADDRESS_SIZE - |digits|, digits);
    } else {
      NothingAdded(digits);
    }
  }

  lemma {:induction false} ColumnAt(row: seq<byte>, k: nat)
    requires k < |row|
    ensures Columns(row)[3 * k + 2] == ' '
  {
    if k == 0 {
      TwoDigits(row[0]);
      assert Columns(row)[2] == Cell(row[0])[2];
    } else {
      ColumnAt(row[1..], k - 1);
      assert Columns(row)[3 * k + 2] == Columns(row[1..])[3 * (k - 1) + 2];
    }
  }

  lemma {:induction false} BlankAt(n: nat, k: nat)
    requires k < 3 * n
    ensures Blanks(n)[k] == ' '
  {
    if k >= 3 {
      BlankAt(n - 1, k - 3);
    }
  }

  lemma {:induction false} AsciiAt(row: seq<byte>, k: nat)
    requires k < |row|
    ensures Ascii(row)[k] == if 32 <= row[k] <= 126 then row[k] as char else '.'
  {
    if k > 0 {
      AsciiAt(row[1..], k - 1);
    }
  }

  lemma {:induction false} OneLine(row: seq<byte>, n: nat)
    ensures '\n' !in Columns(row) && '\n' !in Ascii(row) && '\n' !in Blanks(n)
  {
    forall k | 0 <= k < |Columns(row)|
      ensures Columns(row)[k] != '\n'
    {
      ColumnCharacter(row, k);
    }
    forall k | 0 <= k < |row|
      ensures Ascii(row)[k] != '\n'
    {
      AsciiAt(row, k);
    }
    forall k | 0 <= k < 3 * n
      ensures Blanks(n)[k] != '\n'
    {
      BlankAt(n, k);
    }
  }

  lemma {:induction false} ColumnCharacter(row: seq<byte>, k: nat)
    requires k < 3 * |row|
    ensures Columns(row)[k] != '\n'
  {
    if k < 3 {
      TwoDigits(row[0]);
      assert Columns(row)[k] == Cell(row[0])[k];
    } else {
      ColumnCharacter(row[1..], k - 3);
      assert Columns(row)[k] == Columns(row[1..])[k - 3];
    }
  }

  lemma {:induction false} LineEnds(line: string, rest: string)
    requires '\n' !in line
    ensures LineEnd(line + "\n" + rest) == |line|
  {
    var text := line + "\n" + rest;
    if line == "" {
      assert text[0] == '\n';
    } else {
      assert text[1..] == line[1..] + "\n" + rest;
      assert forall c :: c in line[1..] ==> c in line;
      LineEnds(line[1..], rest);
    }
  }

  lemma LineIsOne(offset: nat, row: seq<byte>)
    requires |row| <= WIDTH
    ensures '\n' !in Line(offset, row)
  {
    AddressReads(offset);
    OneLine(row, WIDTH - |row|);
  }

  lemma FirstLine(line: string, rest: string)
    requires '\n' !in line
    ensures Lines(line + "\n" + rest) == [line] + Lines(rest)
  {
    var text := line + "\n" + rest;
    LineEnds(line, rest);
    assert text[..|line|] == line && text[|line| + 1..] == rest;
  }

  /** Where the parts of a line stand. */
  lemma LineParts(line: string, address: string, columns: string, blanks: string, ascii: string)
    requires line == address + " " + columns + blanks + ascii && |columns| + |blanks| == 24
    ensures var a := |address|;
            && |line| == a + 25 + |ascii| && line[..a] == address && line[a] == ' '
            && (forall j :: 0 <= j < |columns| ==> line[a + 1 + j] == columns[j])
            && (forall j :: 0 <= j < |blanks| ==> line[a + 1 + |columns| + j] == blanks[j])
            && (forall j :: 0 <= j < |ascii| ==> line[a + 25 + j] == ascii[j])
            && line == address + " " + (columns + blanks + ascii)
  {
  }

  lemma LineAddress(offset: nat, row: seq<byte>)
    requires |row| <= WIDTH
    ensures var line, a := Line(offset, row), |Padded(offset, ADDRESS_SIZE)|;
            && AddressEnd(line) == a && a >= 5 && |line| == a + 25 + |row| && line[a] == ' '
            && HexNumber(line[..a]) == offset && (a > 5 ==> line[0] != '0')
  {
    var line, address := Line(offset, row), Padded(offset, ADDRESS_SIZE);
    var columns, blanks := Columns(row), Blanks(WIDTH - |row|);
    AddressReads(offset);
    LineParts(line, address, columns, blanks, Ascii(row));
    AddressEnds(address, columns + blanks + Ascii(row));
    assert line[0] == line[..|address|][0];
  }

  lemma LineColumn(offset: nat, row: seq<byte>, k: nat)
    requires k < |row| <= WIDTH
    ensures var line, at := Line(offset, row), |Padded(offset, ADDRESS_SIZE)| + 3 * k + 3;
            at < |line| && line[at] == ' '
  {
    var line, address := Line(offset, row), Padded(offset, ADDRESS_SIZE);
    LineParts(line, address, Columns(row), Blanks(WIDTH - |row|), Ascii(row));
    ColumnAt(row, k);
    assert line[|address| + 1 + (3 * k + 2)] == Columns(row)[3 * k + 2];
  }

  lemma LineBlank(offset: nat, row: seq<byte>, k: nat)
    requires |row| <= WIDTH
    requires var a := |Padded(offset, ADDRESS_SIZE)|;
             a + 1 + 3 * |row| <= k < a + 25
    ensures k < |Line(offset, row)| && Line(offset, row)[k] == ' '
  {
    var line, address := Line(offset, row), Padded(offset, ADDRESS_SIZE);
    LineParts(line, address, Columns(row), Blanks(WIDTH - |row|), Ascii(row));
    var j := k - (|address| + 1 + 3 * |row|);
    BlankAt(WIDTH - |row|, j);
    assert line[|address| + 1 + |Columns(row)| + j] == ' ';
  }

  /** How a line is laid out: at least five address digits and none too many, then a blank behind the address and
      behind each octet, blanks where the row has ended, and one character for each octet. */
  lemma LineLayout(at: nat, row: seq<byte>)
    requires |row| <= WIDTH
    ensures var line := Line(at, row);
            var a := AddressEnd(line);
            && a >= 5 && HexNumber(line[..a]) == at && (a > 5 ==> line[0] != '0')
            && |line| == a + 25 + |row| && line[a] == ' '
            && (forall k :: 0 <= k < |row| ==> line[a + 3 * k + 3] == ' ')
            && forall k :: a + 3 * |row| < k < a + 25 ==> line[k] == ' '
  {
    var line, a := Line(at, row), |Padded(at, ADDRESS_SIZE)|;
    LineAddress(at, row);
    forall k | 0 <= k < |row|
      ensures line[a + 3 * k + 3] == ' '
    {
      LineColumn(at, row, k);
    }
    forall k | a + 3 * |row| < k < a + 25
      ensures line[k] == ' '
    {
      LineBlank(at, row, k);
    }
  }

  lemma LinesStep(data: seq<byte>, offset: nat)
    requires offset < |data|
    ensures var n := RowLength(data, offset);
            Lines(Dump(data, offset)) == [Line(offset, data[offset..offset + n])] + Lines(Dump(data, offset + n))
  {
    var row, rest := DumpStarts(data, offset);
    LineIsOne(offset, row);
    FirstLine(Line(offset, row), rest);
  }

  lemma DumpStarts(data: seq<byte>, offset: nat) returns (row: seq<byte>, rest: string)
    requires offset < |data|
    ensures var n := RowLength(data, offset);
            row == data[offset..offset + n] && rest == Dump(data, offset + n)
    ensures Dump(data, offset) == Line(offset, row) + "\n" + rest
  {
    var n := RowLength(data, offset);
    row, rest := data[offset..offset + n], Dump(data, offset + n);
    FirstRow(data, offset);
    RowIsLine(offset, row);
  }

  /** The rows of the data. */
  function Rows(data: seq<byte>, offset: nat): seq<seq<byte>>
    requires offset <= |data|
    decreases |data| - offset
  {
    if offset == |data| then []
    else
      var n := RowLength(data, offset);
      [data[offset..offset + n]] + Rows(data, offset + n)
  }

  lemma {:induction false} RowsCount(data: seq<byte>, offset: nat)
    requires offset <= |data|
    ensures |Rows(data, offset)| == (|data| - offset + 7) / 8
    decreases |data| - offset
  {
    if offset < |data| {
      RowsCount(data, offset + RowLength(data, offset));
    }
  }

  /** The lines printed for rows, the first of them at `offset`. */
  function LinesOf(rows: seq<seq<byte>>, offset: nat): seq<string>
    requires forall row :: row in rows ==> |row| <= WIDTH
  {
    if rows == [] then [] else [Line(offset, rows[0])] + LinesOf(rows[1..], offset + 8)
  }

  lemma {:induction false} DumpLines(data: seq<byte>, offset: nat)
    requires offset <= |data|
    ensures forall row :: row in Rows(data, offset) ==> |row| <= WIDTH
    ensures Lines(Dump(data, offset)) == LinesOf(Rows(data, offset), offset)
    decreases |data| - offset
  {
    if offset < |data| {
      var n := RowLength(data, offset);
      LinesStep(data, offset);
      DumpLines(data, offset + n);
      assert Rows(data, offset)[1..] == Rows(data, offset + n);
    }
  }

  lemma {:induction false} LinesCount(rows: seq<seq<byte>>, offset: nat)
    requires forall row :: row in rows ==> |row| <= WIDTH
    ensures |LinesOf(rows, offset)| == |rows|
    decreases |rows|
  {
    if rows != [] {
      LinesCount(rows[1..], offset + 8);
    }
  }

  // The address and text columns, read back row by row.

  /** What each row's text up to its first blank stands for. */
  function Addresses(text: string): seq<nat>
    decreases |text|
  {
    if AddressEnd(text) == |text| then []
    else [HexNumber(text[..AddressEnd(text)])] + Addresses(BehindRow(text))
  }

  /** The characters behind each row's hex columns. */
  function Characters(text: string): string
    decreases |text|
  {
    if AddressEnd(text) == |text| then "" else RowCharacters(text) + Characters(BehindRow(text))
  }

  function RowCharacters(text: string): string
    requires AddressEnd(text) < |text|
  {
    var from := AddressEnd(text) + 1 + 3 * WIDTH;
    if from + |RowShown(text)| <= |text| then text[from..from + |RowShown(text)|] else ""
  }

  lemma {:induction false} RowReadsBack(offset: nat, row: seq<byte>, rest: string)
    requires |row| <= WIDTH
    ensures Addresses(Row(offset, row) + rest) == [offset] + Addresses(rest)
    ensures Characters(Row(offset, row) + rest) == Ascii(row) + Characters(rest)
  {
    RowEnds(offset, row, rest);
    RowAddress(offset, row, rest);
    RowText(offset, row, rest);
  }

  lemma {:induction false} RowAddress(offset: nat, row: seq<byte>, rest: string)
    requires |row| <= WIDTH
    ensures var text, a := Row(offset, row) + rest, |Padded(offset, ADDRESS_SIZE)|;
            a <= |text| && HexNumber(text[..a]) == offset
  {
    var address := Padded(offset, ADDRESS_SIZE);
    AddressReads(offset);
    assert (Row(offset, row) + rest)[..|address|] == address;
  }

  lemma {:induction false} RowText(offset: nat, row: seq<byte>, rest: string)
    requires |row| <= WIDTH
    ensures var text := Row(offset, row) + rest;
            AddressEnd(text) < |text| && RowCharacters(text) == Ascii(row)
  {
    RowEnds(offset, row, rest);
    CharactersAt(Padded(offset, ADDRESS_SIZE), Columns(row), Blanks(WIDTH - |row|), Ascii(row), rest);
  }

  lemma CharactersAt(address: string, columns: string, blanks: string, ascii: string, rest: string)
    ensures var text := address + " " + (columns + (blanks + (ascii + "\n"))) + rest;
            var from := |address| + 1 + |columns| + |blanks|;
            from + |ascii| <= |text| && text[from..from + |ascii|] == ascii
  {
  }

  lemma ColumnsStep(data: seq<byte>, offset: nat)
    requires offset < |data|
    ensures var n, text := RowLength(data, offset), Dump(data, offset);
            && Addresses(text) == [offset] + Addresses(Dump(data, offset + n))
            && Characters(text) == Ascii(data[offset..offset + n]) + Characters(Dump(data, offset + n))
  {
    var n := RowLength(data, offset);
    FirstRow(data, offset);
    RowReadsBack(offset, data[offset..offset + n], Dump(data, offset + n));
  }

  /** Where the rows begin. */
  function Offsets(data: seq<byte>, offset: nat): seq<nat>
    requires offset <= |data|
    decreases |data| - offset
  {
    if offset == |data| then [] else [offset] + Offsets(data, offset + RowLength(data, offset))
  }

  lemma {:induction false} OffsetsAt(data: seq<byte>, offset: nat, r: nat)
    requires offset <= |data|
    ensures |Offsets(data, offset)| == (|data| - offset + 7) / 8
    ensures r < |Offsets(data, offset)| ==> Offsets(data, offset)[r] == offset + 8 * r
    decreases |data| - offset
  {
    if offset < |data| {
      OffsetsAt(data, offset + RowLength(data, offset), if r == 0 then 0 else r - 1);
    }
  }

  lemma {:induction false} ShownAddresses(data: seq<byte>, offset: nat)
    requires offset <= |data|
    ensures Addresses(Dump(data, offset)) == Offsets(data, offset)
    decreases |data| - offset
  {
    if offset < |data| {
      ColumnsStep(data, offset);
      ShownAddresses(data, offset + RowLength(data, offset));
    }
  }

  /** The text columns of the rows. */
  function Texts(data: seq<byte>, offset: nat): string
    requires offset <= |data|
    decreases |data| - offset
  {
    if offset == |data| then ""
    else Ascii(data[offset..offset + RowLength(data, offset)]) + Texts(data, offset + RowLength(data, offset))
  }

  lemma {:induction false} TextsJoin(data: seq<byte>, offset: nat)
    requires offset <= |data|
    ensures Texts(data, offset) == Ascii(data[offset..])
    decreases |data| - offset
  {
    if offset < |data| {
      TextsJoin(data, offset + RowLength(data, offset));
      AsciiSplit(data, offset, offset + RowLength(data, offset));
    }
  }

  lemma {:induction false} ShownCharacters(data: seq<byte>, offset: nat)
    requires offset <= |data|
    ensures Characters(Dump(data, offset)) == Texts(data, offset)
    decreases |data| - offset
  {
    if offset < |data| {
      ColumnsStep(data, offset);
      ShownCharacters(data, offset + RowLength(data, offset));
    }
  }

  lemma AsciiSplit(data: seq<byte>, i: nat, j: nat)
    requires i <= j <= |data|
    ensures Ascii(data[i..]) == Ascii(data[i..j]) + Ascii(data[j..])
  {
    SplitBehind(data, i, j);
    AsciiAppend(data[i..j], data[j..]);
  }

  lemma {:induction false} AsciiAppend(a: seq<byte>, b: seq<byte>)
    ensures Ascii(a + b) == Ascii(a) + Ascii(b)
  {
    if a == [] {
      assert a + b == b;
    } else {
      assert (a + b)[1..] == a[1..] + b;
      AsciiAppend(a[1..], b);
    }
  }

  /** The printer. Read back from its hex columns alone the text is the data; its addresses are the offsets of the rows;
      its characters are the data's printable octets, and dots. */
  method DumpWireshark(data: seq<byte>) returns (result: string)
    ensures result == Dump(data, 0)
    ensures Undump(result) == data
    ensures |Lines(result)| == |Addresses(result)| == (|data| + 7) / 8
    ensures forall r :: 0 <= r < |Addresses(result)| ==> Addresses(result)[r] == 8 * r
    ensures |Characters(result)| == |data|
    ensures forall k :: 0 <= k < |data| ==>
      Characters(result)[k] == if 32 <= data[k] <= 126 then data[k] as char else '.'
  {
    result := DumpRows(data);
    DumpReadsBack(data, 0);
    assert data[0..] == data;
    ShowsColumns(data);
  }

  lemma ShowsColumns(data: seq<byte>)
    ensures var text := Dump(data, 0);
            && |Lines(text)| == |Addresses(text)| == (|data| + 7) / 8
            && (forall r :: 0 <= r < |Addresses(text)| ==> Addresses(text)[r] == 8 * r)
            && |Characters(text)| == |data|
            && forall k :: 0 <= k < |data| ==>
                 Characters(text)[k] == if 32 <= data[k] <= 126 then data[k] as char else '.'
  {
    DumpLines(data, 0);
    RowsCount(data, 0);
    LinesCount(Rows(data, 0), 0);
    ShownAddresses(data, 0);
    ShownCharacters(data, 0);
    TextsJoin(data, 0);
    assert data[0..] == data;
    OffsetsAt(data, 0, 0);
    forall r | 0 <= r < |Offsets(data, 0)| {
      OffsetsAt(data, 0, r);
    }
    forall k | 0 <= k < |data| {
      AsciiAt(data, k);
    }
  }

  method DumpRows(data: seq<byte>) returns (ss: string)
    ensures ss == Dump(data, 0)
  {
    ss := "";
    var offset := 0;
    ghost var whole := Dump(data, 0);
    NoRowYet(data);
    while offset < |data|
      invariant whole == ss + DumpFrom(data, offset)
      decreases |data| - offset
    {
      var end := if offset + WIDTH >= |data| then |data| else offset + WIDTH;
      var line := DumpRow(offset, data[offset..end]);
      RowPrinted(data, offset, end, ss, line, whole);
      ss := ss + line;
      offset := offset + WIDTH;
    }
    NoRowLeft(data, offset, ss);
  }

  lemma NoRowYet(data: seq<byte>)
    ensures Dump(data, 0) == "" + DumpFrom(data, 0)
  {
  }

  lemma NoRowLeft(data: seq<byte>, offset: nat, ss: string)
    requires offset >= |data|
    ensures ss + DumpFrom(data, offset) == ss
  {
  }

  lemma RowPrinted(data: seq<byte>, offset: nat, end: nat, ss: string, line: string, whole: string)
    requires offset < |data| && whole == ss + DumpFrom(data, offset)
    requires end == offset + RowLength(data, offset) && line == Row(offset, data[offset..end])
    ensures whole == ss + line + DumpFrom(data, offset + WIDTH)
  {
    DumpFromRow(data, offset);
    Concatenate(ss, line, DumpFrom(data, offset + WIDTH));
  }

  /** The rows from an offset that may lie beyond the data. */
  ghost function DumpFrom(data: seq<byte>, offset: nat): string {
    if offset >= |data| then "" else Dump(data, offset)
  }

  lemma DumpFromRow(data: seq<byte>, offset: nat)
    requires offset < |data|
    ensures DumpFrom(data, offset) == Row(offset, data[offset..offset + RowLength(data, offset)])
                                      + DumpFrom(data, offset + WIDTH)
  {
    var n := RowLength(data, offset);
    FirstRow(data, offset);
    assert Dump(data, |data|) == "";
  }

  lemma Concatenate(a: string, b: string, c: string)
    ensures a + (b + c) == a + b + c
  {
  }

  method DumpRow(offset: nat, row: seq<byte>) returns (line: string)
    requires |row| <= WIDTH
    ensures line == Row(offset, row)
  {
    line := Padded(offset, ADDRESS_SIZE) + " ";
    line := AppendColumns(line, row);
    line := AppendBlanks(line, WIDTH - |row|);
    line := AppendAscii(line, row);
    line := line + "\n";
    var address := Padded(offset, ADDRESS_SIZE) + " ";
    Concatenate(address + Columns(row) + Blanks(WIDTH - |row|), Ascii(row), "\n");
    Concatenate(address + Columns(row), Blanks(WIDTH - |row|), Ascii(row) + "\n");
    Concatenate(address, Columns(row), Blanks(WIDTH - |row|) + (Ascii(row) + "\n"));
  }

  method AppendColumns(line: string, row: seq<byte>) returns (longer: string)
    ensures longer == line + Columns(row)
  {
    longer := line;
    for i := 0 to |row|
      invariant line + Columns(row) == longer + Columns(row[i..])
    {
      Concatenate(longer, Cell(row[i]), Columns(row[i..][1..]));
      assert row[i..][1..] == row[i + 1..];
      longer := longer + (Padded(row[i], 2) + " ");
    }
    assert longer + "" == longer;
  }

  method AppendBlanks(line: string, n: nat) returns (longer: string)
    ensures longer == line + Blanks(n)
  {
    longer := line;
    for i := 0 to n
      invariant line + Blanks(n) == longer + Blanks(n - i)
    {
      Concatenate(longer, "   ", Blanks(n - i - 1));
      longer := longer + "   ";
    }
    assert longer + "" == longer;
  }

  method AppendAscii(line: string, row: seq<byte>) returns (longer: string)
    ensures longer == line + Ascii(row)
  {
    longer := line;
    for i := 0 to |row|
      invariant line + Ascii(row) == longer + Ascii(row[i..])
    {
      Concatenate(longer, [Printable(row[i])], Ascii(row[i..][1..]));
      assert row[i..][1..] == row[i + 1..];
      longer := longer + [Printable(row[i])];
    }
    assert longer + "" == longer;
  }

  // The NGAP wrapping.

  const PROLOGUE: seq<byte> :=
    [0x00, 0x00, 0x00, 0x00, 0x00, 0x00, 0x00, 0x00, 0x00, 0x00, 0x00, 0x00, 0x08, 0x00,
     0x45, 0x02, 0x00, 0x50, 0x00, 0x01, 0x40, 0x00, 0x40, 0x84, 0x3c, 0x25, 0x7f, 0x00, 0x00, 0x01,
     0x7f, 0x00, 0x00, 0x01, 0xdf, 0xb0, 0x96, 0x0c, 0xea, 0x4c, 0xf5, 0x4b, 0x00, 0x00, 0x00, 0x00,
     0x00, 0x03, 0x00, 0x30, 0x20, 0xbc, 0xec, 0x86, 0x00, 0x00, 0x00, 0x00, 0x00, 0x00, 0x00, 0x00,
     0x00, 0x0f, 0x40, 0x1c, 0x00, 0x00, 0x01, 0x00, 0x26, 0x00, 0x15, 0x14]

  /** The octet at `at` holds the number of bytes from `from` to the end of the packet. */
  predicate Counts(packet: seq<byte>, at: nat, from: nat)
    requires at < |packet|
  {
    packet[at] == |packet| - from
  }

  /** Every patched length counts its own layer: IPv4 total length, SCTP chunk length, and the three lengths inside the
      NGAP message. */
  predicate LengthsCount(packet: seq<byte>) {
    && |packet| >= 74
    && Counts(packet, 17, 14) && Counts(packet, 49, 46)
    && Counts(packet, 65, 66) && Counts(packet, 72, 73) && Counts(packet, 73, 74)
  }

  /** The prologue with its five length octets patched, and then the message. */
  ghost predicate Wrapped(packet: seq<byte>, data: seq<byte>) {
    && |packet| == 74 + |data| && packet[74..] == data
    && (forall i :: 0 <= i < 74 && i !in {17, 49, 65, 72, 73} ==> packet[i] == PROLOGUE[i])
    && packet[17] == (60 + |data|) % 256 && packet[49] == (28 + |data|) % 256
    && packet[65] == (|data| % 256 + 8) % 256
    && packet[72] == (|data| % 256 + 1) % 256 && packet[73] == |data| % 256
  }

  method Wrap(data: seq<byte>) returns (packet: array<byte>)
    ensures fresh(packet) && Wrapped(packet[..], data)
  {
    var n := |data|;
    packet := new byte[74 + n](i requires 0 <= i < 74 + n => if i < 74 then PROLOGUE[i] else data[i - 74]);
    var nasSize: byte := n % 256;
    packet[17] := (packet.Length - 14) % 256;
    packet[49] := (packet.Length - 14 - 20 - 12) % 256;
    packet[72] := (nasSize as int + 1) % 256;
    packet[73] := nasSize;
    packet[65] := (nasSize as int + 8) % 256;
    assert packet[..][74..] == data;
  }

  /** The dump of the wrapped message reads back as the packet, which ends in the message. The five lengths are right
      exactly when the message has at most 195 bytes. */
  method DumpWithNgap(data: seq<byte>) returns (result: string)
    ensures Wrapped(Undump(result), data)
    ensures LengthsCount(Undump(result)) <==> |data| <= 195
  {
    var packet := Wrap(data);
    LengthsExact(packet[..], data);
    result := DumpWireshark(packet[..]);
  }

  lemma LengthsExact(packet: seq<byte>, data: seq<byte>)
    requires Wrapped(packet, data)
    ensures LengthsCount(packet) <==> |data| <= 195
  {
    var n := |data|;
    if n <= 195 {
      assert n % 256 == n && (n + 1) % 256 == n + 1 && (n + 8) % 256 == n + 8;
    }
  }
}
