/** A terminal row: printable characters, backspace, carriage return, line feed, and the cursor
    controls CUF and CUB (sections 8.3.20 and 8.3.18 of ECMA-48). Rows have no right edge. */
module Terminal {
  import opened Digits

  const ESC: char := '\U{1B}'
  const BS: char := '\U{8}'
  const DEL: char := '\U{7F}'

  datatype Mode = Plain | Escape | Control(digits: string)

  datatype Screen = Screen(row: string, col: nat, mode: Mode)

  const BLANK := Screen("", 0, Plain)

  predicate Printable(c: char) {
    ' ' <= c <= '~'
  }

  predicate AllPrintable(s: string) {
    forall i :: 0 <= i < |s| ==> Printable(s[i])
  }

  /** What a column of the row shows. */
  function Cell(row: string, i: nat): char {
    if i < |row| then row[i] else ' '
  }

  function Blanks(n: nat): (s: string)
    ensures |s| == n && forall i :: 0 <= i < n ==> s[i] == ' '
  {
    seq(n, _ => ' ')
  }

  function PutAt(row: string, col: nat, c: char): string {
    if col < |row| then row[col := c] else row + Blanks(col - |row|) + [c]
  }

  lemma PutCell(row: string, col: nat, c: char, i: nat)
    ensures Cell(PutAt(row, col, c), i) == if i == col then c else Cell(row, i)
  {
  }

  /** A missing or zero parameter counts as one. */
  function Count(digits: string): nat
    requires AllHex(digits)
  {
    if Value(digits, Ten) == 0 then 1 else Value(digits, Ten)
  }

  function Show(s: Screen, c: char): Screen {
    match s.mode
    case Plain =>
      if c == ESC then s.(mode := Escape)
      else if c == BS then s.(col := if s.col == 0 then 0 else s.col - 1)
      else if c == '\r' then s.(col := 0)
      else if c == '\n' then s.(row := "")
      else if Printable(c) then s.(row := PutAt(s.row, s.col, c), col := s.col + 1)
      else s
    case Escape => s.(mode := if c == '[' then Control("") else Plain)
    case Control(digits) =>
      if IsDecimal(c) then s.(mode := Control(digits + [c]))
      else if !AllHex(digits) then s.(mode := Plain)
      else if c == 'C' then s.(mode := Plain, col := s.col + Count(digits))
      else if c == 'D' then s.(mode := Plain, col := if s.col < Count(digits) then 0 else s.col - Count(digits))
      else s.(mode := Plain)
  }

  function ShowAll(s: Screen, text: string): Screen
    decreases |text|
  {
    if text == "" then s else ShowAll(Show(s, text[0]), text[1..])
  }

  lemma {:induction false} ShowAppend(s: Screen, a: string, b: string)
    ensures ShowAll(s, a + b) == ShowAll(ShowAll(s, a), b)
    decreases |a|
  {
    hide Show;
    if a == "" {
      assert a + b == b;
    } else {
      assert (a + b)[0] == a[0] && (a + b)[1..] == a[1..] + b;
      ShowAppend(Show(s, a[0]), a[1..], b);
    }
  }

  lemma ShowOne(s: Screen, c: char)
    ensures ShowAll(s, [c]) == Show(s, c)
  {
    assert [c][1..] == "";
  }

  /** Printable text overwrites the cells under it. */
  lemma {:induction false} ShowText(s: Screen, text: string)
    requires s.mode == Plain && AllPrintable(text)
    ensures var t := ShowAll(s, text);
      && t.mode == Plain && t.col == s.col + |text|
      && forall i: nat :: Cell(t.row, i) == if s.col <= i < s.col + |text| then text[i - s.col] else Cell(s.row, i)
    decreases |text|
  {
    if text != "" {
      ShowText(Show(s, text[0]), text[1..]);
      forall i: nat ensures Cell(Show(s, text[0]).row, i) == if i == s.col then text[0] else Cell(s.row, i) {
        PutCell(s.row, s.col, text[0], i);
      }
    }
  }

  /** Text without ESC opens no control sequence. */
  lemma {:induction false} TextStaysPlain(s: Screen, text: string)
    requires s.mode == Plain && ESC !in text
    ensures ShowAll(s, text).mode == Plain
    decreases |text|
  {
    if text != "" { TextStaysPlain(Show(s, text[0]), text[1..]); }
  }

  /** Nothing that is sent puts anything but printable characters on a row. */
  lemma {:induction false} RowStaysPrintable(s: Screen, text: string)
    requires AllPrintable(s.row)
    ensures AllPrintable(ShowAll(s, text).row)
    decreases |text|
  {
    if text != "" { RowStaysPrintable(Show(s, text[0]), text[1..]); }
  }

  /** The bytes of a cursor movement. */
  function Movement(n: nat, final: char): string {
    [ESC, '['] + (Decimal(n) + [final])
  }

  lemma MovementIs()
    ensures forall n: nat, final: char {:trigger Movement(n, final)} ::
      Movement(n, final) == ['\U{1B}', '['] + Decimal(n) + [final]
  {
    forall n: nat, final: char {:trigger Movement(n, final)}
      ensures Movement(n, final) == ['\U{1B}', '['] + Decimal(n) + [final]
    {
      assert [ESC, '['] + (Decimal(n) + [final]) == ['\U{1B}', '['] + Decimal(n) + [final];
    }
  }

  lemma {:induction false} ShowDigits(s: Screen, digits: string, more: string)
    requires s.mode == Control(digits) && AllDecimal(more)
    ensures ShowAll(s, more) == s.(mode := Control(digits + more))
    decreases |more|
  {
    if more == "" {
      assert digits + more == digits;
    } else {
      ShowDigits(Show(s, more[0]), digits + [more[0]], more[1..]);
      assert digits + [more[0]] + more[1..] == digits + more;
    }
  }

  /** A movement by n moves by n, to the left only as far as there is room. */
  lemma ShowMovement(s: Screen, n: nat, final: char)
    requires s.mode == Plain && n > 0 && (final == 'C' || final == 'D')
    ensures ShowAll(s, Movement(n, final)) == s.(col := if final == 'C' then s.col + n else if n <= s.col
      then s.col - n else 0)
  {
    hide Value, Decimal;
    var digits := Decimal(n);
    DecimalRoundTrip(n);
    ShowAppend(s, [ESC, '['], digits + [final]);
    assert [ESC, '['] == [ESC] + ['['];
    ShowAppend(s, [ESC], ['[']);
    ShowOne(s, ESC);
    var csi := s.(mode := Control(""));
    ShowOne(s.(mode := Escape), '[');
    ShowAppend(csi, digits, [final]);
    ShowDigits(csi, "", digits);
    assert "" + digits == digits;
    ShowOne(s.(mode := Control(digits)), final);
  }
}
