/** The console: keys in, characters out to a terminal, and finished lines to its readers. */
module Consoles {
  import Digits
  import opened LineEditor
  import opened Options
  import opened Terminal

  class Console {
    var buffer: string
    var cursorPos: nat
    var esc: bool
    var escBuffer: string
    /** Keys that have been typed and not yet read. */
    var keys: string
    /** The terminal, as the bytes sent to it leave it. */
    ghost var screen: Screen
    /** Keys read so far, and all bytes handed to readers. */
    ghost var consumed: string
    ghost var handed: string

    constructor (keys: string)
      requires Orderly(keys)
      ensures Idle() && this.keys == keys && consumed == "" && handed == ""
    {
      buffer, cursorPos, esc, escBuffer := "", 0, false, "";
      this.keys := keys;
      screen, consumed, handed := BLANK, "", "";
      new;
      assert consumed + this.keys == keys && handed + buffer == "";
    }

    function State(): Editor
      reads this
    {
      Editor(buffer, cursorPos, esc, escBuffer)
    }

    /** While a line is edited: buffer and abstract editor agree, and the terminal shows the
        buffer as long as the line holds visible keys only. */
    ghost predicate Editing()
      reads this
    {
      && Orderly(consumed + keys)
      && Stands(State(), Run(consumed).1) && Run(consumed).0 == handed
      && screen.mode == Plain && AllPrintable(screen.row)
      && (VisibleLine(consumed) ==> Shown(State(), screen))
    }

    /** Between two reads: what was handed out and what the buffer still holds are exactly the
        lines that were completed. */
    ghost predicate Idle()
      reads this
    {
      && Orderly(consumed + keys)
      && Run(consumed) == (handed + buffer, EMPTY)
      && (buffer != "" ==> buffer[|buffer| - 1] == '\n')
      && cursorPos == 0 && !esc && screen == BLANK
    }

    // ---------- output ----------

    method Putc(c: char)
      modifies this`screen
      ensures screen == ShowAll(old(screen), [c])
    {
      ShowOne(screen, c);
      screen := Show(screen, c);
    }

    method Puts(text: string)
      modifies this`screen
      ensures screen == ShowAll(old(screen), text)
    {
      assert text[..0] == "";
      for i := 0 to |text|
        invariant screen == ShowAll(old(screen), text[..i])
      {
        assert text[..i] + [text[i]] == text[..i + 1];
        ShowAppend(old(screen), text[..i], [text[i]]);
        Putc(text[i]);
      }
      assert text[..|text|] == text;
    }

    method MoveCursor(offset: int)
      requires InRange(State())
      modifies this`screen, this`cursorPos
      ensures State() == Moved(old(State()), offset).0
      ensures screen == ShowAll(old(screen), Moved(old(State()), offset).1)
      ensures buffer == old(buffer)
        && cursorPos == (if old(cursorPos) + offset < 0 then 0
          else if old(cursorPos) + offset > |buffer| then |buffer| else old(cursorPos) + offset)
      ensures var back, on := old(cursorPos) - cursorPos, cursorPos - old(cursorPos);
        screen == if back > 0 then ShowAll(old(screen), ['\U{1B}', '['] + Digits.Decimal(back) + ['D'])
          else if on > 0 then ShowAll(old(screen), ['\U{1B}', '['] + Digits.Decimal(on) + ['C'])
          else old(screen)
    {
      hide ShowAll, Digits.Decimal;
      NothingShown(screen);
      MovementIs();
      if offset < 0 {
        var n := if -offset < cursorPos then -offset else cursorPos;
        if n == 0 { return; }
        Puts(Movement(n, 'D'));
        cursorPos := cursorPos - n;
      } else if offset > 0 {
        var n := (if cursorPos + offset < |buffer| then cursorPos + offset else |buffer|) - cursorPos;
        if n == 0 { return; }
        Puts(Movement(n, 'C'));
        cursorPos := cursorPos + n;
      }
    }

    // ---------- one key ----------

    method EraseKey()
      requires InRange(State())
      modifies this`screen, this`cursorPos, this`buffer
      ensures State() == Erase(old(State())).0 && screen == ShowAll(old(screen), Erase(old(State())).1)
    {
      hide Movement, ShowAll;
      if cursorPos == 0 {
        NothingShown(screen);
      } else if cursorPos < |buffer| {
        var tail := buffer[cursorPos..];
        Puts([BS]);
        Puts(tail);
        Puts([' ']);
        Puts(Movement(|buffer| - cursorPos + 1, 'D'));
        ShowAppend(old(screen), [BS], tail);
        ShowAppend(old(screen), [BS] + tail, [' ']);
        ShowAppend(old(screen), [BS] + tail + [' '], Movement(|tail| + 1, 'D'));
        buffer := buffer[..cursorPos - 1] + tail;
        cursorPos := cursorPos - 1;
      } else {
        Puts([BS, ' ', BS]);
        buffer := buffer[..|buffer| - 1];
        cursorPos := cursorPos - 1;
      }
    }

    method InsertKey(c: char)
      requires InRange(State())
      modifies this`screen, this`cursorPos, this`buffer
      ensures State() == Insert(old(State()), c).0 && screen == ShowAll(old(screen), Insert(old(State()), c).1)
    {
      hide Movement, ShowAll;
      if cursorPos == |buffer| {
        buffer := buffer + [c];
        Putc(c);
        cursorPos := cursorPos + 1;
      } else {
        var tail := buffer[cursorPos..];
        Putc(c);
        Puts(tail);
        Puts(Movement(|buffer| - cursorPos, 'D'));
        ShowAppend(old(screen), [c], tail);
        ShowAppend(old(screen), [c] + tail, Movement(|tail|, 'D'));
        buffer := buffer[..cursorPos] + [c] + tail;
        cursorPos := cursorPos + 1;
      }
    }

    method SequenceKey(c: char)
      requires InRange(State()) && esc
      modifies this`screen, this`cursorPos, this`esc, this`escBuffer
      ensures State() == EscapeKey(old(State()), c).0 && screen == ShowAll(old(screen), EscapeKey(old(State()), c).1)
    {
      hide ShowAll, Moved;
      NothingShown(screen);
      escBuffer := escBuffer + [c];
      if !StartsSequence(escBuffer) {
        esc, escBuffer := false, "";
        return;
      }
      if |escBuffer| == 2 || Digits.IsDecimal(c) { return; }
      if c == 'C' || c == 'D' {
        var n: int := ParameterValue(escBuffer);
        MovedIgnoresEscape(State(), old(State()), if c == 'C' then n else -n);
        MoveCursor(if c == 'C' then n else -n);
      }
      esc, escBuffer := false, "";
    }

    method HandleKey(c: char)
      requires InRange(State())
      modifies this`screen, this`cursorPos, this`buffer, this`esc, this`escBuffer
      ensures State() == Key(old(State()), c).0 && screen == ShowAll(old(screen), Key(old(State()), c).1)
    {
      hide ShowAll, EscapeKey, Insert, Erase;
      NothingShown(screen);
      if esc {
        SequenceKey(c);
      } else if c == ESC {
        esc, escBuffer := true, [ESC];
      } else if c == BS || c == DEL {
        EraseKey();
      } else if EndsLine(c) {
        Puts("\r\n");
        buffer, cursorPos := buffer + "\n", 0;
      } else {
        InsertKey(c);
      }
    }

    // ---------- reading ----------

    /** getc and one round of the loop. */
    method NextKey() returns (c: char)
      requires Editing() && keys != ""
      modifies this`screen, this`cursorPos, this`buffer, this`esc, this`escBuffer, this`keys, this`consumed
      ensures c == old(keys)[0] && keys == old(keys)[1..] && consumed == old(consumed) + [c]
      ensures EndsLine(c) ==> Idle() && |buffer| > 0 && buffer == old(buffer) + "\n"
      ensures !EndsLine(c) ==> Editing()
    {
      hide Key, Orderly, ShowAll, Shown, Run, PendingKey, VisibleLine, Visible, AllPrintable;
      c := keys[0];
      ghost var z, e, s := Run(consumed).1, State(), screen;
      KeysMove(consumed, keys);
      if EndsLine(c) {
        EndInStep(e, z, s, c);
      } else {
        KeyInStep(e, z, c);
        KeyStaysPlain(e, z, s, c);
        RowStaysPrintable(s, Key(e, c).1);
        if Shown(e, s) { KeyIsShownIff(e, z, s, c); }
      }
      HandleKey(c);
      keys := keys[1..];
      consumed := consumed + [c];
      if EndsLine(c) { assert handed + (z.left + z.right + "\n") == handed + z.left + z.right + "\n"; }
    }

    /** cooked_read; None while it waits for more keys. */
    method CookedRead(maxSize: nat) returns (r: Option<string>)
      requires Idle()
      modifies this
      ensures consumed + keys == old(consumed + keys) && old(consumed) <= consumed
      ensures r.Some? ==> Idle() && handed == old(handed) + r.value && |r.value| <= maxSize
      ensures r.Some? && |r.value| < maxSize ==> buffer == "" && r.value != "" && r.value[|r.value| - 1] == '\n'
      ensures r.None? ==> keys == "" && Editing() && handed == old(handed) && old(buffer) == ""
      ensures old(buffer) != "" ==> consumed == old(consumed)
    {
      hide Orderly, Run, Stands, Shown, VisibleLine, AllPrintable, Console.Editing;
      if buffer == "" {
        IdleIsEditing();
        var c := ' ';
        while !EndsLine(c)
          invariant handed == old(handed) && consumed + keys == old(consumed + keys) && old(consumed) <= consumed
          invariant if EndsLine(c) then Idle() && |buffer| > 0 && buffer[|buffer| - 1] == '\n' else Editing()
          decreases |keys|, if EndsLine(c) then 0 else 1
        {
          if keys == "" { return None; }
          c := NextKey();
        }
      }
      var n := if maxSize < |buffer| then maxSize else |buffer|;
      r := Some(buffer[..n]);
      assert handed + buffer == handed + buffer[..n] + buffer[n..];
      handed := handed + buffer[..n];
      buffer := buffer[n..];
    }

    lemma IdleIsEditing()
      requires Idle() && buffer == ""
      ensures Editing()
    {
      assert handed + buffer == handed;
    }
  }

  function ParameterValue(escBuffer: string): nat
    requires |escBuffer| >= 3
  {
    var digits := Parameter(escBuffer);
    if digits == "" then 1 else if Digits.AllHex(digits) then Digits.Value(digits, Digits.Ten) else 0
  }

  lemma NothingShown(s: Screen)
    ensures ShowAll(s, "") == s
  {
  }

  lemma MovedIgnoresEscape(a: Editor, b: Editor, offset: int)
    requires a == b.(esc := a.esc, escBuffer := a.escBuffer) && InRange(b)
    ensures Moved(a, offset).1 == Moved(b, offset).1
    ensures Moved(a, offset).0 == Moved(b, offset).0.(esc := a.esc, escBuffer := a.escBuffer)
  {
    hide Movement;
  }

  /** Moving the first key from the input to what has been read. */
  lemma KeysMove(consumed: string, keys: string)
    requires Orderly(consumed + keys) && keys != ""
    ensures consumed + [keys[0]] + keys[1..] == consumed + keys
    ensures Run(consumed).1.pending.Some? ==> !EndsLine(keys[0])
    ensures VisibleLine(consumed + [keys[0]]) && !EndsLine(keys[0]) ==>
      VisibleLine(consumed) && (Run(consumed).1.pending.Some? || Visible(keys[0]))
    ensures Run(consumed + [keys[0]]) ==
      (if Run(consumed).1.pending.None? && EndsLine(keys[0])
        then Run(consumed).0 + Run(consumed).1.left + Run(consumed).1.right + "\n"
       else Run(consumed).0, ZipperKey(Run(consumed).1, keys[0]))
  {
    var all := consumed + keys;
    assert all[|consumed|] == keys[0] && all[..|consumed|] == consumed;
    assert OrderlyKey(all, |consumed|);
    var after := consumed + [keys[0]];
    assert after[..|after| - 1] == consumed;
  }
}
