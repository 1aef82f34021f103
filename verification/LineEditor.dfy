/** The console's line editor, key by key, and the editor it stands for: the text left and right
    of a cursor. */
module LineEditor {
  import opened Digits
  import opened Options
  import opened Terminal

  // ---------- what the code does with one key ----------

  datatype Editor = Editor(buffer: string, cursor: nat, esc: bool, escBuffer: string)

  predicate InRange(e: Editor) {
    e.cursor <= |e.buffer|
  }

  predicate EndsLine(c: char) {
    c == '\r' || c == '\n'
  }

  /** move_cursor: clipped to the buffer; nothing is sent for a distance of zero. */
  function Moved(e: Editor, offset: int): (r: (Editor, string))
    requires InRange(e)
    ensures InRange(r.0)
  {
    if offset < 0 then
      var n := if -offset < e.cursor then -offset else e.cursor;
      if n == 0 then (e, "") else (e.(cursor := e.cursor - n), Movement(n, 'D'))
    else
      var n := (if e.cursor + offset < |e.buffer| then e.cursor + offset else |e.buffer|) - e.cursor;
      if n == 0 then (e, "") else (e.(cursor := e.cursor + n), Movement(n, 'C'))
  }

  function Insert(e: Editor, c: char): (r: (Editor, string))
    requires InRange(e)
    ensures InRange(r.0)
  {
    var tail := e.buffer[e.cursor..];
    if e.cursor == |e.buffer| then (e.(buffer := e.buffer + [c], cursor := e.cursor + 1), [c])
    else (e.(buffer := e.buffer[..e.cursor] + [c] + tail, cursor := e.cursor + 1), [c] + tail + Movement(|tail|, 'D'))
  }

  function Erase(e: Editor): (r: (Editor, string))
    requires InRange(e)
    ensures InRange(r.0)
  {
    var tail := e.buffer[e.cursor..];
    if e.cursor == 0 then (e, "")
    else if e.cursor < |e.buffer| then
      (e.(buffer := e.buffer[..e.cursor - 1] + tail, cursor := e.cursor - 1), [BS] + tail + [' ']
        + Movement(|tail| + 1, 'D'))
    else (e.(buffer := e.buffer[..|e.buffer| - 1], cursor := e.cursor - 1), [BS, ' ', BS])
  }

  function EscapeDone(e: Editor): Editor {
    e.(esc := false, escBuffer := "")
  }

  /** The parameter of a complete sequence: what stands between its two first bytes and its last. */
  function Parameter(escBuffer: string): string
    requires |escBuffer| >= 3
  {
    escBuffer[2..|escBuffer| - 1]
  }

  predicate StartsSequence(escBuffer: string) {
    |escBuffer| >= 2 && escBuffer[0] == ESC && escBuffer[1] == '['
  }

  function EscapeKey(e: Editor, c: char): (r: (Editor, string))
    requires InRange(e)
    ensures InRange(r.0)
  {
    var escBuffer := e.escBuffer + [c];
    if !StartsSequence(escBuffer) then (EscapeDone(e), "")
    else if |escBuffer| == 2 || IsDecimal(c) then (e.(escBuffer := escBuffer), "")
    else
      var digits := Parameter(escBuffer);
      var n := if digits == "" then 1 else if AllHex(digits) then Value(digits, Ten) else 0;
      var moved := if c == 'C' then Moved(e, n) else if c == 'D' then Moved(e, -n) else (e, "");
      (EscapeDone(moved.0), moved.1)
  }

  /** One round of cooked_read's loop: the new state, and the bytes sent to the terminal. */
  function Key(e: Editor, c: char): (r: (Editor, string))
    requires InRange(e)
    ensures InRange(r.0)
  {
    if e.esc then EscapeKey(e, c)
    else if c == ESC then (e.(esc := true, escBuffer := [ESC]), "")
    else if c == BS || c == DEL then Erase(e)
    else if EndsLine(c) then (e.(buffer := e.buffer + "\n", cursor := 0), "\r\n")
    else Insert(e, c)
  }

  // ---------- the editor it stands for ----------

  /** Text around a cursor, and the bytes of an escape sequence that is still open. */
  datatype Zipper = Zipper(left: string, right: string, pending: Option<string>)

  const EMPTY := Zipper("", "", None)

  function Steps(n: nat, room: nat): (k: nat)
    ensures k <= room
  {
    if n < room then n else room
  }

  function GoLeft(z: Zipper, n: nat): Zipper {
    var k := |z.left| - Steps(n, |z.left|);
    Zipper(z.left[..k], z.left[k..] + z.right, None)
  }

  function GoRight(z: Zipper, n: nat): Zipper {
    var k := Steps(n, |z.right|);
    Zipper(z.left + z.right[..k], z.right[k..], None)
  }

  /** A key in an open sequence: ESC, '[', digits, and a final byte. */
  function PendingKey(z: Zipper, sequence: string, c: char): Zipper {
    if sequence == "" then z.(pending := if c == '[' then Some("[") else None)
    else if IsDecimal(c) then z.(pending := Some(sequence + [c]))
    else
      var digits := sequence[1..];
      var n := if digits == "" then 1 else if AllHex(digits) then Value(digits, Ten) else 0;
      if c == 'C' then GoRight(z, n) else if c == 'D' then GoLeft(z, n) else z.(pending := None)
  }

  /** What a key does to the text: it types, erases to the left, moves, or ends the line. */
  function ZipperKey(z: Zipper, c: char): Zipper {
    if z.pending.Some? then PendingKey(z, z.pending.value, c)
    else if c == ESC then z.(pending := Some(""))
    else if c == BS || c == DEL then (if z.left == "" then z else z.(left := z.left[..|z.left| - 1]))
    else if EndsLine(c) then EMPTY
    else z.(left := z.left + [c])
  }

  /** The lines that were completed, and the text that is still open, after some keys. */
  function Run(keys: string): (string, Zipper)
    decreases |keys|
  {
    if keys == "" then ("", EMPTY)
    else
      var (lines, z) := Run(keys[..|keys| - 1]);
      var c := keys[|keys| - 1];
      (if z.pending.None? && EndsLine(c) then lines + z.left + z.right + "\n" else lines, ZipperKey(z, c))
  }

  lemma RunMore(keys: string, c: char)
    ensures var (lines, z) := Run(keys);
      Run(keys + [c]) ==
        (if z.pending.None? && EndsLine(c) then lines + z.left + z.right + "\n" else lines, ZipperKey(z, c))
  {
    assert (keys + [c])[..|keys|] == keys;
  }

  /** What one byte does outside of an escape sequence. */
  lemma KeyLaws(keys: string, c: char)
    ensures var (lines, z) := Run(keys);
      z.pending.None? ==>
        && (c !in {'\U{1B}', '\U{8}', '\U{7F}', '\r', '\n'} ==>
          Run(keys + [c]) == (lines, Zipper(z.left + [c], z.right, None)))
        && (c in {'\U{8}', '\U{7F}'} ==>
          Run(keys + [c]) == (lines, Zipper(if z.left == "" then "" else z.left[..|z.left| - 1], z.right, None)))
        && (c in {'\r', '\n'} ==>
          Run(keys + [c]) == (lines + z.left + z.right + "\n", Zipper("", "", None)))
  {
    RunMore(keys, c);
  }

  /** What the bytes of an escape sequence do together: the sequences that end in C and D move the
      cursor by their number, or by one without a number, inside the text; others do nothing. */
  lemma SequenceLaws(keys: string, digits: string, c: char)
    requires Run(keys).1.pending.None? && AllDecimal(digits) && !IsDecimal(c)
    ensures AllHex(digits)
    ensures var (lines, z) := Run(keys);
      var after := Run(keys + ['\U{1B}', '['] + digits + [c]);
      var n := if digits == "" then 1 else Value(digits, Ten);
      && after.0 == lines
      && after.1.left + after.1.right == z.left + z.right && after.1.pending == None
      && (c == 'D' ==> |after.1.left| == if n <= |z.left| then |z.left| - n else 0)
      && (c == 'C' ==> |after.1.left| == if n <= |z.right| then |z.left| + n else |z.left| + |z.right|)
      && (c !in {'C', 'D'} ==> after.1 == z)
  {
    hide Run, Value, PendingKey, AllHex, AllDecimal;
    var z := Run(keys).1;
    SequenceOpens(keys);
    SequenceDigits(keys + ['\U{1B}', '['], "[", digits);
    RunMore(keys + ['\U{1B}', '['] + digits, c);
    FinalByte(z, digits, c);
  }

  lemma FinalByte(z: Zipper, digits: string, c: char)
    requires AllDecimal(digits) && !IsDecimal(c)
    ensures AllHex(digits)
    ensures var after := PendingKey(z.(pending := Some("[" + digits)), "[" + digits, c);
      var n := if digits == "" then 1 else Value(digits, Ten);
      && after.left + after.right == z.left + z.right && after.pending == None
      && (c == 'D' ==> |after.left| == if n <= |z.left| then |z.left| - n else 0)
      && (c == 'C' ==> |after.left| == if n <= |z.right| then |z.left| + n else |z.left| + |z.right|)
      && (c !in {'C', 'D'} ==> after == z.(pending := None))
  {
    hide Value, GoLeft, GoRight, AllHex, AllDecimal;
    DecimalIsHex(digits);
    assert ("[" + digits)[1..] == digits;
    var n := if digits == "" then 1 else Value(digits, Ten);
    GoneLeft(z.(pending := Some("[" + digits)), n);
    GoneRight(z.(pending := Some("[" + digits)), n);
  }

  lemma DecimalIsHex(digits: string)
    requires AllDecimal(digits)
    ensures AllHex(digits)
  {
  }

  lemma GoneLeft(z: Zipper, n: nat)
    ensures var after := GoLeft(z, n);
      && after.left + after.right == z.left + z.right && after.pending == None
      && |after.left| == if n <= |z.left| then |z.left| - n else 0
  {
    var l := |z.left| - Steps(n, |z.left|);
    assert z.left[..l] + (z.left[l..] + z.right) == z.left + z.right;
  }

  lemma GoneRight(z: Zipper, n: nat)
    ensures var after := GoRight(z, n);
      && after.left + after.right == z.left + z.right && after.pending == None
      && |after.left| == if n <= |z.right| then |z.left| + n else |z.left| + |z.right|
  {
    var k := Steps(n, |z.right|);
    assert z.left + z.right[..k] + z.right[k..] == z.left + z.right;
  }

  /** ESC and a byte other than '[' do nothing. */
  lemma LoneEscape(keys: string, c: char)
    requires Run(keys).1.pending.None? && c != '['
    ensures Run(keys + ['\U{1B}', c]) == Run(keys)
  {
    RunMore(keys, '\U{1B}');
    RunMore(keys + ['\U{1B}'], c);
    assert keys + ['\U{1B}'] + [c] == keys + ['\U{1B}', c];
  }

  lemma SequenceOpens(keys: string)
    requires Run(keys).1.pending.None?
    ensures Run(keys + ['\U{1B}', '[']) == (Run(keys).0, Run(keys).1.(pending := Some("[")))
  {
    RunMore(keys, '\U{1B}');
    RunMore(keys + ['\U{1B}'], '[');
    assert keys + ['\U{1B}'] + ['['] == keys + ['\U{1B}', '['];
  }

  lemma {:induction false} SequenceDigits(keys: string, sequence: string, digits: string)
    requires Run(keys).1.pending == Some(sequence) && sequence != "" && AllDecimal(digits)
    ensures AllHex(digits)
    ensures Run(keys + digits) == (Run(keys).0, Run(keys).1.(pending := Some(sequence + digits)))
    decreases |digits|
  {
    hide Run;
    if digits == "" {
      assert keys + digits == keys && sequence + digits == sequence;
    } else {
      var front, c := digits[..|digits| - 1], digits[|digits| - 1];
      SequenceDigits(keys, sequence, front);
      RunMore(keys + front, c);
      assert keys + front + [c] == keys + digits && sequence + front + [c] == sequence + digits;
    }
  }

  /** No line ends inside an escape sequence. */
  ghost predicate Orderly(keys: string) {
    forall i {:trigger OrderlyKey(keys, i)} :: 0 <= i < |keys| ==> OrderlyKey(keys, i)
  }

  ghost predicate OrderlyKey(keys: string, i: nat)
    requires i < |keys|
  {
    Run(keys[..i]).1.pending.Some? ==> !EndsLine(keys[i])
  }

  /** What a terminal shows in one cell, and the keys that are not typed into the text. */
  predicate Visible(c: char) {
    Printable(c) || c in {ESC, BS, DEL}
  }

  /** Since the last line end only visible keys were hit outside of escape sequences. */
  predicate VisibleLine(keys: string)
    decreases |keys|
  {
    if keys == "" then true
    else
      var before, c := keys[..|keys| - 1], keys[|keys| - 1];
      var z := Run(before).1;
      (z.pending.None? && EndsLine(c)) || (VisibleLine(before) && (z.pending.Some? || Visible(c)))
  }

  // ---------- the code keeps both in step ----------

  /** The buffer is the text, the cursor its place, and the open sequence is the same. */
  ghost predicate Stands(e: Editor, z: Zipper) {
    && e.buffer == z.left + z.right && e.cursor == |z.left|
    && (e.esc <==> z.pending.Some?)
    && (e.esc ==> e.escBuffer == [ESC] + z.pending.value && SequenceOk(z.pending.value))
    && ESC !in e.buffer
  }

  predicate SequenceOk(sequence: string) {
    sequence == "" || (sequence[0] == '[' && AllDecimal(sequence[1..]))
  }

  /** The row shows the buffer and blanks, and the columns agree. */
  ghost predicate Shown(e: Editor, s: Screen) {
    && s.mode == Plain && s.col == e.cursor
    && forall i: nat :: Cell(s.row, i) == Cell(e.buffer, i)
  }

  lemma MovedIsShown(e: Editor, offset: int, s: Screen)
    requires InRange(e) && Shown(e, s)
    ensures Shown(Moved(e, offset).0, ShowAll(s, Moved(e, offset).1))
    ensures Moved(e, offset).0 == e.(cursor := Moved(e, offset).0.cursor)
    ensures Moved(e, offset).0.cursor == if offset < 0 then e.cursor - Steps(-offset, e.cursor)
      else e.cursor + Steps(offset, |e.buffer| - e.cursor)
  {
    hide Movement;
    var k := Moved(e, offset).0.cursor;
    if k < e.cursor { ShowMovement(s, e.cursor - k, 'D'); }
    if k > e.cursor { ShowMovement(s, k - e.cursor, 'C'); }
  }

  /** What a row shows is printable, so a shown buffer is. */
  lemma ShownIsPrintable(e: Editor, s: Screen)
    requires Shown(e, s) && AllPrintable(s.row)
    ensures AllPrintable(e.buffer)
  {
    forall i | 0 <= i < |e.buffer| ensures Printable(e.buffer[i]) {
      assert Cell(s.row, i) == Cell(e.buffer, i);
    }
  }

  /** A typed byte shows exactly when it is printable: the terminal does not move for any other. */
  lemma InsertIsShownIff(e: Editor, c: char, s: Screen)
    requires InRange(e) && Shown(e, s) && AllPrintable(s.row) && c !in {ESC, BS, DEL} && !EndsLine(c)
    ensures Shown(Insert(e, c).0, ShowAll(s, Insert(e, c).1)) <==> Printable(c)
  {
    ShownIsPrintable(e, s);
    if Printable(c) { InsertIsShown(e, c, s); } else { InsertIsLost(e, c, s); }
  }

  lemma InsertIsShown(e: Editor, c: char, s: Screen)
    requires InRange(e) && Shown(e, s) && Printable(c) && AllPrintable(e.buffer)
    ensures Shown(Insert(e, c).0, ShowAll(s, Insert(e, c).1))
  {
    hide Movement, Show;
    var tail := e.buffer[e.cursor..];
    ShowText(s, [c] + tail);
    if tail == "" {
      assert [c] + tail == [c];
    } else {
      ShowAppend(s, [c] + tail, Movement(|tail|, 'D'));
      ShowMovement(ShowAll(s, [c] + tail), |tail|, 'D');
    }
    InsertCells(e, c);
  }

  lemma InsertIsLost(e: Editor, c: char, s: Screen)
    requires InRange(e) && Shown(e, s) && AllPrintable(e.buffer) && !Printable(c) && c !in {ESC, BS, DEL}
      && !EndsLine(c)
    ensures !Shown(Insert(e, c).0, ShowAll(s, Insert(e, c).1))
  {
    hide Movement;
    var tail := e.buffer[e.cursor..];
    ShowOne(s, c);
    if tail != "" {
      hide Show;
      ShowText(s, tail);
      ShowAppend(s, [c], tail);
      ShowAppend(s, [c] + tail, Movement(|tail|, 'D'));
      ShowMovement(ShowAll(s, tail), |tail|, 'D');
    }
  }

  /** A tabulator typed into an empty line: the cursor of the buffer moves, the column stays. */
  lemma TabIsNotShown()
    ensures Key(NO_KEYS, '\t').0 == Editor("\t", 1, false, "") && ShowAll(BLANK, Key(NO_KEYS, '\t').1) == BLANK
    ensures !Shown(Key(NO_KEYS, '\t').0, BLANK)
  {
    ShowOne(BLANK, '\t');
  }

  lemma InsertCells(e: Editor, c: char)
    requires InRange(e)
    ensures var after, tail := Insert(e, c).0.buffer, e.buffer[e.cursor..];
      forall i: nat :: Cell(after, i) ==
        if e.cursor <= i < e.cursor + 1 + |tail| then ([c] + tail)[i - e.cursor] else Cell(e.buffer, i)
  {
  }

  lemma EraseIsShown(e: Editor, s: Screen)
    requires InRange(e) && Shown(e, s) && AllPrintable(s.row)
    ensures Shown(Erase(e).0, ShowAll(s, Erase(e).1))
  {
    hide Movement, Show, AllPrintable;
    ShownIsPrintable(e, s);
    var tail := e.buffer[e.cursor..];
    if 0 < e.cursor {
      var back := s.(col := s.col - 1);
      ShowBack(s);
      TailIsPrintable(e);
      var text := tail + [' '];
      ShowText(back, text);
      ShowAppend(s, [BS], text);
      var after := ShowAll(s, [BS] + text);
      EraseCells(e);
      if tail == "" {
        assert [BS, ' ', BS] == [BS] + text + [BS];
        ShowAppend(s, [BS] + text, [BS]);
        ShowBack(after);
      } else {
        assert [BS] + tail + [' '] == [BS] + text;
        ShowAppend(s, [BS] + text, Movement(|tail| + 1, 'D'));
        ShowMovement(after, |tail| + 1, 'D');
      }
    }
  }

  lemma ShowBack(s: Screen)
    requires s.mode == Plain && s.col > 0
    ensures ShowAll(s, [BS]) == s.(col := s.col - 1)
  {
    ShowOne(s, BS);
  }

  lemma TailIsPrintable(e: Editor)
    requires InRange(e) && AllPrintable(e.buffer)
    ensures AllPrintable(e.buffer[e.cursor..] + [' '])
  {
  }

  lemma EraseCells(e: Editor)
    requires InRange(e) && e.cursor > 0
    ensures var after, text := Erase(e).0.buffer, e.buffer[e.cursor..] + [' '];
      forall i: nat :: Cell(after, i) ==
        if e.cursor - 1 <= i < e.cursor - 1 + |text| then text[i - (e.cursor - 1)] else Cell(e.buffer, i)
  {
  }

  /** Any key, unless it ends the line, does to the buffer what it does to the text. */
  lemma KeyInStep(e: Editor, z: Zipper, c: char)
    requires InRange(e) && Stands(e, z) && !EndsLine(c)
    ensures Stands(Key(e, c).0, ZipperKey(z, c))
  {
    if e.esc {
      EscapeInStep(e, z, c);
    } else if c == ESC {
    } else if c == BS || c == DEL {
      EraseStands(e, z);
    } else {
      InsertStands(e, z, c);
    }
  }

  /** The terminal goes on showing the buffer exactly when the key is visible or belongs to an
      escape sequence. */
  lemma KeyIsShownIff(e: Editor, z: Zipper, s: Screen, c: char)
    requires InRange(e) && Stands(e, z) && Shown(e, s) && AllPrintable(s.row) && !EndsLine(c)
    ensures Shown(Key(e, c).0, ShowAll(s, Key(e, c).1)) <==> z.pending.Some? || Visible(c)
  {
    hide EscapeKey, Insert, Erase;
    if e.esc {
      EscapeIsShown(e, z, s, c);
    } else if c == ESC {
      StillShown(e, Key(e, c).0, s);
    } else if c == BS || c == DEL {
      EraseIsShown(e, s);
    } else {
      InsertIsShownIff(e, c, s);
    }
  }

  /** Whatever is typed, the terminal ends up outside of control sequences. */
  lemma KeyStaysPlain(e: Editor, z: Zipper, s: Screen, c: char)
    requires InRange(e) && Stands(e, z) && s.mode == Plain
    ensures ShowAll(s, Key(e, c).1).mode == Plain
  {
    hide Movement, Show, Value, AllHex;
    var text, tail := Key(e, c).1, e.buffer[e.cursor..];
    if !e.esc && (c == BS || c == DEL) && 0 < e.cursor < |e.buffer| {
      SentStaysPlain(s, [BS] + tail + [' '], |tail| + 1, 'D');
    } else if !e.esc && ESC != c && !EndsLine(c) && c != BS && c != DEL && tail != "" {
      SentStaysPlain(s, [c] + tail, |tail|, 'D');
    } else if e.esc {
      var n := if c == 'C' then Key(e, c).0.cursor - e.cursor else e.cursor - Key(e, c).0.cursor;
      assert text == "" || (n > 0 && (c == 'C' || c == 'D') && text == "" + Movement(n, c));
      if text != "" { SentStaysPlain(s, "", n, c); }
    } else {
      TextStaysPlain(s, text);
    }
  }

  lemma SentStaysPlain(s: Screen, text: string, n: nat, final: char)
    requires s.mode == Plain && ESC !in text && n > 0 && (final == 'C' || final == 'D')
    ensures ShowAll(s, text + Movement(n, final)).mode == Plain
  {
    hide Movement, Show;
    TextStaysPlain(s, text);
    ShowAppend(s, text, Movement(n, final));
    ShowMovement(ShowAll(s, text), n, final);
  }

  lemma InsertStands(e: Editor, z: Zipper, c: char)
    requires InRange(e) && Stands(e, z) && !e.esc && c != ESC
    ensures Stands(Insert(e, c).0, z.(left := z.left + [c]))
  {
    hide Movement;
    assert e.buffer[e.cursor..] == z.right && e.buffer[..e.cursor] == z.left;
    if z.right == "" { assert z.left + [c] + z.right == z.left + z.right + [c]; }
  }

  lemma EraseStands(e: Editor, z: Zipper)
    requires InRange(e) && Stands(e, z) && !e.esc
    ensures Stands(Erase(e).0, if z.left == "" then z else z.(left := z.left[..|z.left| - 1]))
  {
    hide Movement;
    assert e.buffer[e.cursor..] == z.right;
    if z.left != "" {
      assert e.buffer[..e.cursor - 1] == z.left[..|z.left| - 1];
      if z.right == "" { assert z.left[..|z.left| - 1] + z.right == e.buffer[..|e.buffer| - 1]; }
    }
  }

  lemma EscapeInStep(e: Editor, z: Zipper, c: char)
    requires InRange(e) && Stands(e, z) && e.esc
    ensures Stands(EscapeKey(e, c).0, PendingKey(z, z.pending.value, c))
  {
    hide Movement, Moved, Value;
    var sequence, escBuffer := z.pending.value, e.escBuffer + [c];
    if sequence == "" {
      assert escBuffer == [ESC, c];
    } else if IsDecimal(c) {
      assert StartsSequence(escBuffer);
      assert (sequence + [c])[1..] == sequence[1..] + [c];
    } else {
      SequenceEnds(e, z, c);
      FinalInStep(e, z, SequenceCount(z));
    }
  }

  /** The distance an open sequence asks for. */
  function SequenceCount(z: Zipper): nat
    requires z.pending.Some? && z.pending.value != ""
  {
    var digits := z.pending.value[1..];
    if digits == "" then 1 else if AllHex(digits) then Value(digits, Ten) else 0
  }

  lemma SequenceEnds(e: Editor, z: Zipper, c: char)
    requires InRange(e) && Stands(e, z) && e.esc && z.pending.value != "" && !IsDecimal(c)
    ensures var n := SequenceCount(z);
      var moved := if c == 'C' then Moved(e, n) else if c == 'D' then Moved(e, -(n as int)) else (e, "");
      EscapeKey(e, c) == (EscapeDone(moved.0), moved.1)
  {
    hide Movement, Moved, Value;
    var sequence, escBuffer := z.pending.value, e.escBuffer + [c];
    assert escBuffer[2..|escBuffer| - 1] == sequence[1..];
  }

  lemma EscapeIsShown(e: Editor, z: Zipper, s: Screen, c: char)
    requires InRange(e) && Stands(e, z) && Shown(e, s) && e.esc
    ensures Shown(EscapeKey(e, c).0, ShowAll(s, EscapeKey(e, c).1))
  {
    hide Movement, Moved, Value, Shown;
    var sequence, escBuffer := z.pending.value, e.escBuffer + [c];
    if sequence == "" {
      assert escBuffer == [ESC, c];
      StillShown(e, EscapeKey(e, c).0, s);
    } else if IsDecimal(c) {
      assert StartsSequence(escBuffer);
      StillShown(e, EscapeKey(e, c).0, s);
    } else {
      SequenceEnds(e, z, c);
      var n := SequenceCount(z);
      MovedIsShown(e, n, s);
      MovedIsShown(e, -(n as int), s);
      StillShown(e, EscapeDone(e), s);
      StillShown(Moved(e, n).0, EscapeDone(Moved(e, n).0), ShowAll(s, Moved(e, n).1));
      StillShown(Moved(e, -(n as int)).0, EscapeDone(Moved(e, -(n as int)).0), ShowAll(s, Moved(e, -(n as int)).1));
    }
  }

  lemma StillShown(e: Editor, after: Editor, s: Screen)
    requires Shown(e, s) && after.buffer == e.buffer && after.cursor == e.cursor
    ensures Shown(after, ShowAll(s, "")) && Shown(after, s)
  {
  }

  /** The two movements, as the code and as the abstract editor make them. */
  lemma FinalInStep(e: Editor, z: Zipper, n: nat)
    requires InRange(e) && Stands(e, z)
    ensures Stands(EscapeDone(Moved(e, n).0), GoRight(z, n))
      && Stands(EscapeDone(Moved(e, -(n as int)).0), GoLeft(z, n))
    ensures Stands(EscapeDone(e), z.(pending := None))
  {
    hide Movement;
    var k, l := Steps(n, |z.right|), |z.left| - Steps(n, |z.left|);
    assert z.left + z.right[..k] + z.right[k..] == z.left + z.right;
    assert z.left[..l] + (z.left[l..] + z.right) == z.left + z.right;
  }

  /** The key that ends a line: the row is fresh, and the line is the text with a newline. */
  lemma EndInStep(e: Editor, z: Zipper, s: Screen, c: char)
    requires InRange(e) && Stands(e, z) && s.mode == Plain && EndsLine(c) && !e.esc
    ensures Key(e, c).0 == Editor(z.left + z.right + "\n", 0, false, e.escBuffer)
    ensures ShowAll(s, Key(e, c).1) == BLANK
  {
    ShowAppend(s, "\r", "\n");
    assert "\r" + "\n" == "\r\n";
    ShowOne(s, '\r');
    ShowOne(s.(col := 0), '\n');
  }

  // ---------- a line end inside an escape sequence ----------

  predicate AllBlank(text: string) {
    forall i :: 0 <= i < |text| ==> text[i] == ' '
  }

  /** A line end inside an open sequence is dropped, yet the loop stops there and the line is
      handed out as it stands. Afterwards cursor and row fit the empty buffer exactly when the
      cursor stood at 0 and nothing but blanks had been typed. */
  lemma EndInsideEscape(e: Editor, s: Screen, c: char)
    requires InRange(e) && Shown(e, s) && e.esc && e.escBuffer != "" && EndsLine(c)
    ensures Key(e, c) == (EscapeDone(e), "")
    ensures var after := Key(e, c).0.(buffer := "");
      InRange(after) && Shown(after, ShowAll(s, Key(e, c).1)) <==> e.cursor == 0 && AllBlank(e.buffer)
  {
    var escBuffer := e.escBuffer + [c];
    if StartsSequence(escBuffer) && |escBuffer| > 2 {
      assert escBuffer[|escBuffer| - 1] == c;
    }
    forall i | 0 <= i < |e.buffer| ensures Cell(s.row, i) == e.buffer[i] {
      assert Cell(s.row, i) == Cell(e.buffer, i);
    }
  }

  const NO_KEYS := Editor("", 0, false, "")

  /** Editor and terminal after some keys. */
  function Typed(e: Editor, s: Screen, keys: string): (Editor, Screen)
    requires InRange(e)
    decreases |keys|
  {
    if keys == "" then (e, s) else Typed(Key(e, keys[0]).0, ShowAll(s, Key(e, keys[0]).1), keys[1..])
  }

  lemma {:induction false} TypedAppend(e: Editor, s: Screen, a: string, b: string)
    requires InRange(e)
    ensures InRange(Typed(e, s, a).0)
    ensures Typed(e, s, a + b) == Typed(Typed(e, s, a).0, Typed(e, s, a).1, b)
    decreases |a|
  {
    hide Key, Show;
    if a == "" {
      assert a + b == b;
    } else {
      assert (a + b)[0] == a[0] && (a + b)[1..] == a[1..] + b;
      TypedAppend(Key(e, a[0]).0, ShowAll(s, Key(e, a[0]).1), a[1..], b);
    }
  }

  lemma TypedOne(e: Editor, s: Screen, c: char, keys: string)
    requires InRange(e)
    ensures Typed(e, s, [c] + keys) == Typed(Key(e, c).0, ShowAll(s, Key(e, c).1), keys)
  {
    assert ([c] + keys)[1..] == keys;
  }

  lemma LettersTyped()
    ensures Typed(NO_KEYS, BLANK, "abc") == (Editor("abc", 3, false, ""), Screen("abc", 3, Plain))
  {
    hide EscapeKey, Movement, Show, Key;
    assert "abc" == ['a'] + (['b'] + (['c'] + ""));
    LetterTyped("", 'a', ['b'] + (['c'] + ""));
    LetterTyped("" + ['a'], 'b', ['c'] + "");
    LetterTyped("" + ['a'] + ['b'], 'c', "");
    assert "" + ['a'] + ['b'] + ['c'] == "abc";
  }

  lemma LetterTyped(text: string, c: char, keys: string)
    requires Printable(c)
    ensures Typed(Editor(text, |text|, false, ""), Screen(text, |text|, Plain), [c] + keys)
         == Typed(Editor(text + [c], |text| + 1, false, ""), Screen(text + [c], |text| + 1, Plain), keys)
  {
    var e, s := Editor(text, |text|, false, ""), Screen(text, |text|, Plain);
    TypedOne(e, s, c, keys);
    ShowOne(s, c);
    assert text + Blanks(0) + [c] == text + [c];
  }

  lemma MovedHome()
    ensures Typed(Editor("abc", 3, false, ""), Screen("abc", 3, Plain), [ESC, '[', '3', 'D'])
      == (Editor("abc", 0, false, ""), Screen("abc", 0, Plain))
  {
    hide Movement, Show;
    var row := Screen("abc", 3, Plain);
    assert [ESC, '[', '3', 'D'] == [ESC] + (['['] + (['3'] + (['D'] + "")));
    TypedOne(Editor("abc", 3, false, ""), row, ESC, ['['] + (['3'] + (['D'] + "")));
    TypedOne(Editor("abc", 3, true, [ESC]), row, '[', ['3'] + (['D'] + ""));
    TypedOne(Editor("abc", 3, true, [ESC, '[']), row, '3', ['D'] + "");
    var e := Editor("abc", 3, true, [ESC, '[', '3']);
    TypedOne(e, row, 'D', "");
    assert (e.escBuffer + ['D'])[2..3] == "3";
    assert Value("3", Ten) == 3;
    assert Key(e, 'D') == (Editor("abc", 0, false, ""), Movement(3, 'D'));
    ShowMovement(row, 3, 'D');
  }

  lemma RowIsNotBlank(e: Editor, s: Screen)
    requires e.buffer == "" && s.row != "" && s.row[0] != ' '
    ensures !Shown(e, s)
  {
    assert Cell(s.row, 0) != Cell(e.buffer, 0);
  }

  lemma EndedInSequence()
    ensures Typed(Editor("abc", 0, false, ""), Screen("abc", 0, Plain), [ESC, '[', '\r'])
      == (Editor("abc", 0, false, ""), Screen("abc", 0, Plain))
  {
    hide Movement, Show;
    var row := Screen("abc", 0, Plain);
    assert [ESC, '[', '\r'] == [ESC] + (['['] + (['\r'] + ""));
    TypedOne(Editor("abc", 0, false, ""), row, ESC, ['['] + (['\r'] + ""));
    TypedOne(Editor("abc", 0, true, [ESC]), row, '[', ['\r'] + "");
    TypedOne(Editor("abc", 0, true, [ESC, '[']), row, '\r', "");
  }

  /** Three letters, the cursor back to 0, and a line end in an open sequence: "abc" is handed
      out, the buffer is empty, and the row still shows "abc". */
  lemma EndAfterMovingHome()
    ensures var (e, s) := Typed(NO_KEYS, BLANK, ['a', 'b', 'c', ESC, '[', '3', 'D', ESC, '[', '\r']);
      && e == Editor("abc", 0, false, "") && s == Screen("abc", 0, Plain)
      && InRange(e.(buffer := "")) && !Shown(e.(buffer := ""), s)
  {
    hide Movement, Show, Shown, EscapeKey, Key, Typed;
    LettersTyped();
    MovedHome();
    TypedAppend(NO_KEYS, BLANK, "abc", [ESC, '[', '3', 'D']);
    TypedAppend(NO_KEYS, BLANK, "abc" + [ESC, '[', '3', 'D'], [ESC, '[', '\r']);
    assert ['a', 'b', 'c', ESC, '[', '3', 'D', ESC, '[', '\r'] == "abc" + [ESC, '[', '3', 'D'] + [ESC, '[', '\r'];
    EndedInSequence();
    RowIsNotBlank(Editor("", 0, false, ""), Screen("abc", 0, Plain));
  }
}
