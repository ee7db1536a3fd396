/** The shell's command history: ten slots, a count, a cursor, and the line being edited. */
module CommandHistory {
  import opened Bits

  const MAX_HISTORY: nat := 10

  // A line is a C string without its NUL.
  type Line = seq<u8>

  datatype Slot = Empty | Holds(line: Line)

  /** All commands entered so far, the cursor into the last ten of them, and the line shown. */
  datatype Shell = Shell(log: seq<Line>, cursor: nat, line: Line)

  function Count(log: seq<Line>): nat { if |log| < MAX_HISTORY then |log| else MAX_HISTORY }

  /** The commands that are still remembered, oldest first. */
  function Remembered(log: seq<Line>): (h: seq<Line>)
    ensures |h| == Count(log)
  {
    log[|log| - Count(log)..]
  }

  predicate Inv(s: Shell) { s.cursor <= Count(s.log) }

  /** The line the cursor stands on: empty behind the newest command. */
  function LineAt(log: seq<Line>, cursor: nat): Line {
    if cursor < Count(log) then Remembered(log)[cursor] else []
  }

  /** push_instruction_history */
  function Push(s: Shell): Shell {
    var log := s.log + [s.line];
    s.(log := log, cursor := if |log| < MAX_HISTORY then |log| else MAX_HISTORY)
  }

  /** user_shell_enter around the command's execution: an empty line is not remembered. */
  function Enter(s: Shell): Shell {
    (if s.line == [] then s else Push(s)).(line := [])
  }

  /** user_shell_up_or_down(UP); nullLine is what can be read through a null slot. */
  function Up(s: Shell, nullLine: Line): Shell {
    var cursor := if s.cursor == 0 then 0 else s.cursor - 1;
    s.(cursor := cursor, line := if s.log == [] then nullLine else LineAt(s.log, cursor))
  }

  /** user_shell_up_or_down(DOWN) */
  function Down(s: Shell): Shell {
    if s.cursor < Count(s.log) then s.(cursor := s.cursor + 1, line := LineAt(s.log, s.cursor + 1)) else s
  }

  /** What the slot array must look like for a history: the lines in order, then null slots. */
  predicate Stored(slots: seq<Slot>, h: seq<Line>) {
    && |slots| == MAX_HISTORY && |h| <= MAX_HISTORY
    && (forall i :: 0 <= i < |h| ==> slots[i] == Holds(h[i]))
    && (forall i :: |h| <= i < MAX_HISTORY ==> slots[i] == Empty)
  }

  lemma NothingStored(slots: seq<Slot>)
    requires |slots| == MAX_HISTORY && forall i :: 0 <= i < MAX_HISTORY ==> slots[i] == Empty
    ensures Stored(slots, Remembered([]))
  {
  }

  /** The line read through a slot. */
  function Read(slot: Slot, nullLine: Line): Line { match slot case Empty => nullLine case Holds(l) => l }

  /** A stored slot reads as the line of the history; a slot behind the newest line is null. */
  lemma SlotReads(slots: seq<Slot>, log: seq<Line>, i: nat, nullLine: Line)
    requires Stored(slots, Remembered(log)) && i < MAX_HISTORY
    ensures Read(slots[i], nullLine) == if i < Count(log) then LineAt(log, i) else nullLine
  {
    hide Remembered;
  }

  lemma LineBehind(log: seq<Line>)
    ensures LineAt(log, Count(log)) == []
  {
  }

  /** Pushing onto a full history forgets the oldest line; otherwise it forgets nothing. */
  lemma PushRemembers(log: seq<Line>, line: Line)
    ensures Remembered(log + [line]) ==
      (if Count(log) < MAX_HISTORY then Remembered(log) else Remembered(log)[1..]) + [line]
  {
  }

  class History {
    // instruction_history_buffer, index_for_ and current_index_for_instruction_history_buffer, buffer.
    const slots: array<Slot>
    var count: nat
    var cursor: nat
    var line: Line

    ghost var log: seq<Line>

    ghost function Model(): Shell
      reads this
    {
      Shell(log, cursor, line)
    }

    /** The slots hold the last commands in order and nothing else. */
    ghost predicate Valid()
      reads this, slots
    {
      && slots.Length == MAX_HISTORY
      && Inv(Model()) && count == Count(log)
      && Stored(slots[..], Remembered(log))
    }

    constructor ()
      ensures Valid() && fresh(slots) && Model() == Shell([], 0, [])
    {
      hide Stored, Remembered;
      slots := new Slot[MAX_HISTORY](_ => Empty);
      count, cursor, line, log := 0, 0, [], [];
      new;
      NothingStored(slots[..]);
    }

    /** pop_instruction_history; behindEnd is what lies behind the last slot, where the loop reads once. */
    method PopHistory(behindEnd: Slot)
      requires slots.Length == MAX_HISTORY
      modifies slots
      ensures forall i :: 0 <= i < MAX_HISTORY - 1 ==> slots[i] == old(slots[i + 1])
      ensures slots[MAX_HISTORY - 1] == behindEnd
    {
      slots[0] := Empty;
      var i := 1;
      while i < MAX_HISTORY
        invariant 1 <= i <= MAX_HISTORY
        invariant forall j :: 0 <= j < i - 1 ==> slots[j] == old(slots[j + 1])
        invariant i > 1 ==> slots[i - 1] == if i < MAX_HISTORY then old(slots[i]) else behindEnd
        invariant forall j :: i <= j < MAX_HISTORY ==> slots[j] == old(slots[j])
      {
        slots[i - 1] := slots[i];
        slots[i] := Empty;
        slots[i] := if i + 1 < MAX_HISTORY then slots[i + 1] else behindEnd;
        i := i + 1;
      }
    }

    /** push_instruction_history */
    method PushHistory(behindEnd: Slot)
      requires Valid()
      modifies this, slots
      ensures Valid() && Model() == Push(old(Model()))
    {
      PushRemembers(log, line);
      hide Remembered;
      if count >= MAX_HISTORY {
        PopHistory(behindEnd);
        slots[MAX_HISTORY - 1] := Holds(line);
        cursor := 10;
      } else {
        slots[count] := Holds(line);
        count := count + 1;
        cursor := count;
      }
      log := log + [line];
    }

    /** user_shell_enter, without running the command */
    method EnterLine(behindEnd: Slot)
      requires Valid()
      modifies this, slots
      ensures Valid() && Model() == Enter(old(Model()))
    {
      hide Remembered, Stored;
      if line != [] {
        PushHistory(behindEnd);
      }
      line := [];
    }

    /** user_shell_up_or_down */
    method UpOrDown(up: bool, nullLine: Line)
      requires Valid()
      modifies this`cursor, this`line
      ensures Valid() && Model() == if up then Up(old(Model()), nullLine) else Down(old(Model()))
    {
      hide Remembered, Stored, LineAt, Read;
      if up && count >= cursor {
        if cursor != 0 { cursor := cursor - 1; }
        SlotReads(slots[..], log, cursor, nullLine);
        line := Read(slots[cursor], nullLine);
      } else if !up && count >= cursor + 1 && cursor <= MAX_HISTORY - 1 {
        if count != cursor {
          cursor := cursor + 1;
        }
        if count == cursor {
          line := [];
          LineBehind(log);
        } else {
          SlotReads(slots[..], log, cursor, nullLine);
          line := Read(slots[cursor], nullLine);
        }
      }
    }
  }

  // ----- runs ------------------------------------------------------------------------------

  /** A key that ends a command, moves through the history, or edits the line. */
  datatype Key = KeyEnter | KeyUp | KeyDown | KeyEdit(line: Line)

  function Press(s: Shell, k: Key, nullLine: Line): Shell {
    match k
    case KeyEnter => Enter(s)
    case KeyUp => Up(s, nullLine)
    case KeyDown => Down(s)
    case KeyEdit(l) => s.(line := l)
  }

  function PressAll(s: Shell, ks: seq<Key>, nullLine: Line): Shell
    decreases |ks|
  {
    if ks == [] then s else Press(PressAll(s, ks[..|ks| - 1], nullLine), ks[|ks| - 1], nullLine)
  }

  function NonEmpty(line: Line): seq<Line> { if line == [] then [] else [line] }

  /** The lines entered in a run, in order; an empty line counts for nothing. */
  function Entered(s: Shell, ks: seq<Key>, nullLine: Line): seq<Line>
    decreases |ks|
  {
    if ks == [] then []
    else
      var front := ks[..|ks| - 1];
      Entered(s, front, nullLine)
        + if ks[|ks| - 1] == KeyEnter then NonEmpty(PressAll(s, front, nullLine).line) else []
  }

  lemma PressExtends(s: Shell, k: Key, nullLine: Line)
    requires Inv(s)
    ensures Inv(Press(s, k, nullLine))
    ensures Press(s, k, nullLine).log == s.log + if k == KeyEnter then NonEmpty(s.line) else []
  {
  }

  lemma RunRemembers(log: seq<Line>)
    ensures Remembered(log) == if |log| <= MAX_HISTORY then log else log[|log| - MAX_HISTORY..]
  {
  }

  /** After any run the cursor is in range and the slots hold the last ten of the lines entered. */
  lemma {:induction false} RunKeepsHistory(s: Shell, ks: seq<Key>, nullLine: Line)
    requires Inv(s)
    ensures var t, all := PressAll(s, ks, nullLine), s.log + Entered(s, ks, nullLine);
      && Inv(t) && t.log == all
      && Remembered(t.log) == if |all| <= 10 then all else all[|all| - 10..]
    decreases |ks|
  {
    hide Press, Inv, Remembered, Count;
    if ks != [] {
      var front, k := ks[..|ks| - 1], ks[|ks| - 1];
      RunKeepsHistory(s, front, nullLine);
      PressExtends(PressAll(s, front, nullLine), k, nullLine);
      assert PressAll(s, ks, nullLine) == Press(PressAll(s, front, nullLine), k, nullLine);
    }
    RunRemembers(PressAll(s, ks, nullLine).log);
  }

  function Ups(s: Shell, k: nat, nullLine: Line): Shell {
    if k == 0 then s else Up(Ups(s, k - 1, nullLine), nullLine)
  }

  function Downs(s: Shell, k: nat): Shell {
    if k == 0 then s else Down(Downs(s, k - 1))
  }

  /** k presses of UP move the cursor k entries back, and no further than the oldest. */
  lemma {:induction false} UpsMove(s: Shell, k: nat, nullLine: Line)
    requires Inv(s)
    ensures var t := Ups(s, k, nullLine);
      && t.log == s.log && Inv(t)
      && t.cursor == (if k <= s.cursor then s.cursor - k else 0)
      && (0 < k && s.log != [] ==> t.line == LineAt(s.log, t.cursor))
  {
    if k > 0 { UpsMove(s, k - 1, nullLine); }
  }

  lemma {:induction false} DownsMove(s: Shell, k: nat)
    requires Inv(s)
    ensures var t := Downs(s, k);
      && t.log == s.log && Inv(t)
      && t.cursor == (if s.cursor + k <= Count(s.log) then s.cursor + k else Count(s.log))
      && (s.cursor < t.cursor ==> t.line == LineAt(s.log, t.cursor))
  {
    hide Count, LineAt;
    if k > 0 { DownsMove(s, k - 1); }
  }

  /** k presses of DOWN undo k presses of UP iff the cursor can go back that far or stood at the end. */
  lemma DownsUndoUps(s: Shell, k: nat, nullLine: Line)
    requires Inv(s) && 0 < k
    ensures var t := Downs(Ups(s, k, nullLine), k);
      && t.log == s.log
      && (t.cursor == s.cursor <==> k <= s.cursor || s.cursor == Count(s.log))
      && (t.cursor == s.cursor && s.log != [] ==> t.line == LineAt(s.log, s.cursor))
  {
    UpsMove(s, k, nullLine);
    DownsMove(Ups(s, k, nullLine), k);
  }

  /** UP shows the entry at the cursor for every history but the empty one, where it reads a null slot. */
  lemma UpShowsEntry(s: Shell)
    requires Inv(s)
    ensures (forall nullLine: Line :: Up(s, nullLine).line == LineAt(s.log, Up(s, nullLine).cursor)) <==> s.log != []
  {
    if s.log == [] {
      assert Up(s, [1]).line != LineAt(s.log, Up(s, [1]).cursor);
    }
  }

  /** DOWN behind the newest command leaves the line that is being edited alone; onto that place, it clears it. */
  lemma DownAtEnd(s: Shell)
    requires Inv(s)
    ensures s.cursor == Count(s.log) ==> Down(s) == s
    ensures s.cursor + 1 == Count(s.log) ==> Down(s).line == [] && Down(s).cursor == Count(s.log)
  {
  }

  /** Entering a line puts the cursor behind the newest command and starts a new line; an empty line does nothing. */
  lemma EnterMovesToEnd(s: Shell)
    ensures var t := Enter(s);
      && t.line == []
      && (s.line == [] ==> t.log == s.log && t.cursor == s.cursor)
      && (s.line != [] ==> t.log == s.log + [s.line] && t.cursor == if |s.log| + 1 < 10 then |s.log| + 1 else 10)
  {
  }

  /** k steps in front of the end of the history stands the k-th last line. */
  lemma LineFromEnd(log: seq<Line>, k: nat)
    requires 1 <= k <= Count(log)
    ensures LineAt(log, Count(log) - k) == log[|log| - k]
  {
  }

  /** UP right after a command shows that command. */
  lemma UpAfterEnter(s: Shell, nullLine: Line)
    requires s.line != []
    ensures Up(Enter(s), nullLine).line == s.line
  {
    EnterMovesToEnd(s);
    LineFromEnd(Enter(s).log, 1);
  }

  /** After any run that ends in entering a command, k presses of UP show the k-th last line entered. */
  lemma UpsRecall(s: Shell, ks: seq<Key>, nullLine: Line, k: nat)
    requires Inv(s) && ks != [] && ks[|ks| - 1] == KeyEnter && PressAll(s, ks[..|ks| - 1], nullLine).line != []
    requires 1 <= k <= 10 && k <= |s.log + Entered(s, ks, nullLine)|
    ensures var all := s.log + Entered(s, ks, nullLine);
      Ups(PressAll(s, ks, nullLine), k, nullLine).line == all[|all| - k]
  {
    hide LineAt, Up, Enter, Ups, Remembered;
    var t := PressAll(s, ks, nullLine);
    RunKeepsHistory(s, ks, nullLine);
    EnterMovesToEnd(PressAll(s, ks[..|ks| - 1], nullLine));
    UpsMove(t, k, nullLine);
    LineFromEnd(t.log, k);
  }
}
