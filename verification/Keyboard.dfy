/** The keyboard driver: scan codes become characters in a ring buffer, filled by the interrupt
    and emptied by the main loop, which can be interrupted between any two statements. */
module Keyboard {

  const INPUT_BUFFER_SIZE := 256
  const KEY_RELEASED := 0x80
  const KEY_ENTER := 0x1C
  const KEY_BACKSPACE := 0x0E
  const KEY_ESC := 0x01
  const KEY_TAB := 0x0F
  const KEY_CAPS_LOCK := 0x3A
  const KEY_LSHIFT := 0x2A
  const KEY_RSHIFT := 0x36
  const KEY_LCTRL := 0x1D
  const KEY_LALT := 0x38

  // ---------------------------------------------------------------- scan codes

  const LETTERS_1 := "qwertyuiop"
  const LETTERS_2 := "asdfghjkl"
  const LETTERS_3 := "zxcvbnm"
  const SHIFTED_1 := "QWERTYUIOP"
  const SHIFTED_2 := "ASDFGHJKL"
  const SHIFTED_3 := "ZXCVBNM"

  /** One of the tables: a row of characters for each run of codes that has any. */
  function TableAt(code: int, digits: string, row1: string, end1: string, row2: string, end2: string,
                   row3: string, end3: string): char
  {
    if 0x02 <= code < 0x02 + |digits| then digits[code - 0x02]
    else if 0x10 <= code < 0x10 + |row1| then row1[code - 0x10]
    else if 0x1A <= code < 0x1A + |end1| then end1[code - 0x1A]
    else if 0x1E <= code < 0x1E + |row2| then row2[code - 0x1E]
    else if 0x27 <= code < 0x27 + |end2| then end2[code - 0x27]
    else if 0x2C <= code < 0x2C + |row3| then row3[code - 0x2C]
    else if 0x33 <= code < 0x33 + |end3| then end3[code - 0x33]
    else if code == 0x39 then ' '
    else '\0'
  }

  /** scancode_map */
  function Unshifted(code: int): char
  {
    TableAt(code, "1234567890-=", LETTERS_1, "[]", LETTERS_2, ";'", LETTERS_3, ",./")
  }

  /** shift_map */
  function Shifted(code: int): char
  {
    TableAt(code, "!@#$%^&*()_+", SHIFTED_1, "{}", SHIFTED_2, ":\"", SHIFTED_3, "<>?")
  }

  predicate IsSpecialKey(code: int)
  {
    code in {KEY_ESC, KEY_TAB, KEY_CAPS_LOCK, KEY_LSHIFT, KEY_RSHIFT, KEY_LCTRL, KEY_LALT}
  }

  predicate IsLower(c: char) { 'a' <= c <= 'z' }
  predicate IsUpper(c: char) { 'A' <= c <= 'Z' }

  /** Upper case to lower case and back. */
  function SwapCase(c: char): char
  {
    if IsLower(c) then c - 'a' + 'A' else if IsUpper(c) then c - 'A' + 'a' else c
  }

  function ScancodeToChar(code: int, shift: bool, caps: bool): char
    requires 0 <= code < 256
  {
    if code >= 128 || IsSpecialKey(code) then '\0'
    else
      var c := if shift then Shifted(code) else Unshifted(code);
      if caps then SwapCase(c) else c
  }

  /** The codes of the letter keys. */
  predicate IsLetterKey(code: int)
  {
    0x10 <= code < 0x1A || 0x1E <= code < 0x27 || 0x2C <= code < 0x33
  }

  lemma Row1(i: int)
    requires 0 <= i < 10
    ensures |LETTERS_1| == |SHIFTED_1| == 10 && IsLower(LETTERS_1[i]) && SHIFTED_1[i] == SwapCase(LETTERS_1[i])
  {
  }

  lemma Row2(i: int)
    requires 0 <= i < 9
    ensures |LETTERS_2| == |SHIFTED_2| == 9 && IsLower(LETTERS_2[i]) && SHIFTED_2[i] == SwapCase(LETTERS_2[i])
  {
  }

  lemma Row3(i: int)
    requires 0 <= i < 7
    ensures |LETTERS_3| == |SHIFTED_3| == 7 && IsLower(LETTERS_3[i]) && SHIFTED_3[i] == SwapCase(LETTERS_3[i])
  {
  }

  /** Shift and caps lock each change the case of a letter, and together leave it alone. */
  lemma ShiftAndCapsCancel(code: int, shift: bool, caps: bool)
    requires IsLetterKey(code)
    ensures var lower := Unshifted(code);
            IsLower(lower) && ScancodeToChar(code, shift, caps) == if shift != caps then SwapCase(lower) else lower
  {
    LetterRows(code);
    hide Unshifted, Shifted;
  }

  lemma LetterRows(code: int)
    requires IsLetterKey(code)
    ensures IsLower(Unshifted(code)) && Shifted(code) == SwapCase(Unshifted(code))
  {
    if code < 0x1A {
      Row1(code - 0x10);
    } else if code < 0x27 {
      Row2(code - 0x1E);
    } else {
      Row3(code - 0x2C);
    }
  }

  datatype Flags = Flags(shift: bool, ctrl: bool, alt: bool, caps: bool)

  function NewFlags(f: Flags, code: int, released: bool): Flags
  {
    if code == KEY_LSHIFT || code == KEY_RSHIFT then f.(shift := !released)
    else if code == KEY_LCTRL then f.(ctrl := !released)
    else if code == KEY_LALT then f.(alt := !released)
    else if code == KEY_CAPS_LOCK && !released then f.(caps := !f.caps)
    else f
  }

  /** The character a scan code stands for, or 0. */
  function Typed(f: Flags, scancode: int): char
    requires 0 <= scancode < 256
  {
    var code := scancode % KEY_RELEASED;
    if scancode >= KEY_RELEASED then '\0'
    else if code == KEY_ENTER then '\n'
    else if code == KEY_BACKSPACE then 8 as char
    else if code in {KEY_LSHIFT, KEY_RSHIFT, KEY_LCTRL, KEY_LALT, KEY_CAPS_LOCK} then '\0'
    else ScancodeToChar(code, f.shift, f.caps)
  }

  // ---------------------------------------------------------------- modifiers and characters from the codes alone

  /** The last code in the sequence that is one of the keys, or -1. */
  ghost function LastOf(codes: seq<int>, keys: set<int>): int
  {
    if codes == [] then -1
    else if codes[|codes| - 1] in keys then codes[|codes| - 1]
    else LastOf(codes[..|codes| - 1], keys)
  }

  lemma {:induction false} LastOfIs(codes: seq<int>, keys: set<int>)
    requires -1 !in keys
    ensures var c := LastOf(codes, keys);
            if c == -1 then forall i | 0 <= i < |codes| :: codes[i] !in keys
            else exists i :: 0 <= i < |codes| && codes[i] == c && c in keys &&
                             forall j | i < j < |codes| :: codes[j] !in keys
  {
    if codes != [] {
      var n := |codes| - 1;
      LastOfIs(codes[..n], keys);
      if codes[n] !in keys && LastOf(codes, keys) != -1 {
        var i :| 0 <= i < n && codes[..n][i] == LastOf(codes, keys) && forall j | i < j < n :: codes[..n][j] !in keys;
        assert forall j | i < j < n :: codes[..n][j] == codes[j];
        assert codes[i] == LastOf(codes, keys);
      } else if LastOf(codes, keys) == -1 {
        assert forall i | 0 <= i < n :: codes[..n][i] == codes[i];
      }
    }
  }

  /** The modifiers after the codes, from start-up. */
  function FlagsAfter(codes: seq<int>): Flags
  {
    if codes == [] then Flags(false, false, false, false)
    else
      var c := codes[|codes| - 1];
      NewFlags(FlagsAfter(codes[..|codes| - 1]), c % KEY_RELEASED, c >= KEY_RELEASED)
  }

  ghost predicate AreCodes(codes: seq<int>)
  {
    forall i | 0 <= i < |codes| :: 0 <= codes[i] < 256
  }

  /** A modifier is on exactly if the last code about it was a press; caps lock is on exactly if it was
      pressed an odd number of times. */
  lemma {:induction false} FlagsFromCodes(codes: seq<int>)
    requires AreCodes(codes)
    ensures var f := FlagsAfter(codes);
            && (f.shift <==> 0 <= LastOf(codes, {0x2A, 0x36, 0xAA, 0xB6}) < 0x80)
            && (f.ctrl <==> 0 <= LastOf(codes, {0x1D, 0x9D}) < 0x80)
            && (f.alt <==> 0 <= LastOf(codes, {0x38, 0xB8}) < 0x80)
            && (f.caps <==> multiset(codes)[0x3A] % 2 == 1)
  {
    hide NewFlags, LastOf, FlagsAfter;
    if codes == [] {
      NoCodes();
    } else {
      var before, c := codes[..|codes| - 1], codes[|codes| - 1];
      FlagsFromCodes(before);
      assert codes == before + [c];
      assert multiset(codes) == multiset(before) + multiset{c};
      NewFlagsIs(FlagsAfter(before), c);
      LastOfMore(codes, {0x2A, 0x36, 0xAA, 0xB6});
      LastOfMore(codes, {0x1D, 0x9D});
      LastOfMore(codes, {0x38, 0xB8});
      FlagsAfterMore(codes);
    }
  }

  lemma NoCodes()
    ensures FlagsAfter([]) == Flags(false, false, false, false)
    ensures forall keys: set<int> :: LastOf([], keys) == -1
  {
  }

  lemma LastOfMore(codes: seq<int>, keys: set<int>)
    requires codes != []
    ensures var c := codes[|codes| - 1];
            LastOf(codes, keys) == if c in keys then c else LastOf(codes[..|codes| - 1], keys)
  {
  }

  lemma FlagsAfterMore(codes: seq<int>)
    requires codes != []
    ensures var c := codes[|codes| - 1];
            FlagsAfter(codes) == NewFlags(FlagsAfter(codes[..|codes| - 1]), c % KEY_RELEASED, c >= KEY_RELEASED)
  {
  }

  /** What one code does to the modifiers. */
  lemma NewFlagsIs(f: Flags, c: int)
    requires 0 <= c < 256
    ensures NewFlags(f, c % KEY_RELEASED, c >= KEY_RELEASED) ==
            Flags(if c in {0x2A, 0x36, 0xAA, 0xB6} then c < 0x80 else f.shift,
                  if c in {0x1D, 0x9D} then c < 0x80 else f.ctrl,
                  if c in {0x38, 0xB8} then c < 0x80 else f.alt,
                  if c == 0x3A then !f.caps else f.caps)
  {
  }

  /** The letter keys, in the order of their codes. */
  function LetterOf(code: int): char
    requires IsLetterKey(code)
  {
    if code < 0x1A then "qwertyuiop"[code - 0x10]
    else if code < 0x27 then "asdfghjkl"[code - 0x1E]
    else "zxcvbnm"[code - 0x2C]
  }

  /** What a letter key types after any codes: a capital exactly if one of shift and caps lock is on. */
  lemma LetterTyped(codes: seq<int>, code: int)
    requires AreCodes(codes) && IsLetterKey(code)
    ensures var shift := 0 <= LastOf(codes, {0x2A, 0x36, 0xAA, 0xB6}) < 0x80;
            var caps := multiset(codes)[0x3A] % 2 == 1;
            var letter := LetterOf(code);
            && 'a' <= letter <= 'z'
            && Typed(FlagsAfter(codes), code) == if shift != caps then letter - 'a' + 'A' else letter
  {
    hide FlagsAfter, LastOf, ScancodeToChar, Unshifted, LetterOf, Typed;
    var f := FlagsAfter(codes);
    FlagsFromCodes(codes);
    ShiftAndCapsCancel(code, f.shift, f.caps);
    LetterIs(code);
    LetterNotSpecial(f, code);
  }

  lemma LetterNotSpecial(f: Flags, code: int)
    requires IsLetterKey(code)
    ensures Typed(f, code) == ScancodeToChar(code, f.shift, f.caps)
  {
    hide ScancodeToChar;
  }

  lemma LetterIs(code: int)
    requires IsLetterKey(code)
    ensures Unshifted(code) == LetterOf(code)
  {
  }

  const NUMBER_ROW := "1234567890-="
  const NUMBER_ROW_SHIFTED := "!@#$%^&*()_+"

  /** What the keys other than letters type: caps lock does not matter to them. */
  lemma OtherTyped(f: Flags, code: int)
    requires 0 <= code < 0x80 && !IsLetterKey(code)
    ensures Typed(f, code) ==
            if code == 0x1C then '\n'
            else if code == 0x0E then 8 as char
            else if 0x02 <= code <= 0x0D then (if f.shift then NUMBER_ROW_SHIFTED else NUMBER_ROW)[code - 0x02]
            else if code == 0x1A then (if f.shift then '{' else '[')
            else if code == 0x1B then (if f.shift then '}' else ']')
            else if code == 0x27 then (if f.shift then ':' else ';')
            else if code == 0x28 then (if f.shift then '"' else '\'')
            else if code == 0x33 then (if f.shift then '<' else ',')
            else if code == 0x34 then (if f.shift then '>' else '.')
            else if code == 0x35 then (if f.shift then '?' else '/')
            else if code == 0x39 then ' '
            else '\0'
  {
  }

  /** A release types nothing. */
  lemma ReleaseTypesNothing(f: Flags, code: int)
    requires 0x80 <= code < 256
    ensures Typed(f, code) == '\0'
  {
  }

  /** The text the codes type, from start-up. */
  ghost function TextOf(codes: seq<int>): seq<char>
    requires AreCodes(codes)
  {
    if codes == [] then []
    else
      var before := codes[..|codes| - 1];
      var c := Typed(FlagsAfter(before), codes[|codes| - 1]);
      if c == '\0' then TextOf(before) else TextOf(before) + [c]
  }

  // ---------------------------------------------------------------- the two programs

  /** Where keyboard_get_char is: before its first statement, after the test, after reading the
      character, after advancing the head, and, if the decrement of the count is made of a load
      and a store, in between. */
  datatype Pc = Idle | Tested | Read(ch: char) | Advanced(ch: char) | Loaded(ch: char, n: int)

  /** accepted and returned record the characters put into the buffer and handed to the caller. */
  datatype State = State(buffer: seq<char>, head: int, tail: int, count: int, flags: Flags, pc: Pc,
                         accepted: seq<char>, returned: seq<char>)

  /** process_scancode, as one interrupt. */
  function Interrupt(s: State, scancode: int): State
    requires 0 <= scancode < 256 && 0 <= s.tail < |s.buffer|
  {
    var c := Typed(s.flags, scancode);
    var flags := NewFlags(s.flags, scancode % KEY_RELEASED, scancode >= KEY_RELEASED);
    if c == '\0' || s.count >= INPUT_BUFFER_SIZE then s.(flags := flags)
    else s.(flags := flags, buffer := s.buffer[s.tail := c], tail := (s.tail + 1) % INPUT_BUFFER_SIZE,
            count := s.count + 1, accepted := s.accepted + [c])
  }

  /** The next statement of keyboard_get_char, the decrement being one step. */
  function Statement(s: State): State
    requires 0 <= s.head < |s.buffer|
  {
    match s.pc
    case Idle => if s.count == 0 then s else s.(pc := Tested)
    case Tested => s.(pc := Read(s.buffer[s.head]))
    case Read(c) => s.(pc := Advanced(c), head := (s.head + 1) % INPUT_BUFFER_SIZE)
    case Advanced(c) => s.(pc := Idle, count := s.count - 1, returned := s.returned + [c])
    case Loaded(c, n) => s.(pc := Idle, count := n - 1, returned := s.returned + [c])
  }

  /** The load of a decrement made of two steps. */
  function Load(s: State): State
    requires s.pc.Advanced?
  {
    s.(pc := Loaded(s.pc.ch, s.count))
  }

  // ---------------------------------------------------------------- the invariant

  /** One character has left the ring but is still counted. */
  function InHand(s: State): int
  {
    if s.pc.Advanced? || s.pc.Loaded? then 1 else 0
  }

  function Unread(s: State): int
  {
    s.count - InHand(s)
  }

  /** Position of the i-th unread character. */
  function Slot(head: int, i: int): (r: int)
    ensures 0 <= r < INPUT_BUFFER_SIZE
  {
    (head + i) % INPUT_BUFFER_SIZE
  }

  /** The ring holds, in order, exactly the accepted characters that have not been taken out;
      those returned, and the one in hand, come before them. */
  ghost predicate Ok(s: State)
  {
    && |s.buffer| == INPUT_BUFFER_SIZE
    && 0 <= s.head < INPUT_BUFFER_SIZE
    && s.count <= INPUT_BUFFER_SIZE && 0 <= Unread(s)
    && s.tail == Slot(s.head, Unread(s))
    && |s.accepted| == |s.returned| + InHand(s) + Unread(s)
    && s.returned <= s.accepted
    && (forall i | 0 <= i < Unread(s) :: s.buffer[Slot(s.head, i)] == s.accepted[|s.returned| + InHand(s) + i])
    && (s.pc.Tested? || s.pc.Read? ==> Unread(s) > 0)
    && (s.pc.Read? || s.pc.Advanced? || s.pc.Loaded? ==> s.pc.ch == s.accepted[|s.returned|])
    && (s.pc.Loaded? ==> s.pc.n <= s.count)
    && (forall i | 0 <= i < |s.accepted| :: s.accepted[i] != '\0')
  }

  lemma SlotsDiffer(head: int, i: int, j: int)
    requires 0 <= head < INPUT_BUFFER_SIZE && 0 <= i < j < INPUT_BUFFER_SIZE
    ensures Slot(head, i) != Slot(head, j)
  {
  }

  /** An interrupt at any moment keeps the invariant; it writes no slot that holds an unread
      character; and it drops a character only when the count is 256. */
  lemma InterruptKeepsOk(s: State, scancode: int)
    requires Ok(s) && 0 <= scancode < 256
    ensures 0 <= s.tail < |s.buffer| && Ok(Interrupt(s, scancode))
    ensures var c := Typed(s.flags, scancode); var t := Interrupt(s, scancode);
            && t.returned == s.returned
            && t.accepted == (if c == '\0' || s.count == INPUT_BUFFER_SIZE then s.accepted else s.accepted + [c])
            && (forall i | 0 <= i < Unread(s) :: t.buffer[Slot(s.head, i)] == s.buffer[Slot(s.head, i)])
  {
    hide Typed, NewFlags, Slot;
    var t, u := Interrupt(s, scancode), Unread(s);
    SlotNext(s.head, u);
    if t.accepted != s.accepted {
      forall i | 0 <= i < u
        ensures Slot(s.head, i) != s.tail
      {
        SlotsDiffer(s.head, i, u);
      }
    }
  }

  lemma SlotNext(head: int, i: int)
    requires 0 <= head < INPUT_BUFFER_SIZE && 0 <= i
    ensures Slot(head, i + 1) == (Slot(head, i) + 1) % INPUT_BUFFER_SIZE
  {
  }

  /** Every statement of keyboard_get_char keeps the invariant, if the decrement is one step. */
  lemma StatementKeepsOk(s: State)
    requires Ok(s) && !s.pc.Loaded?
    ensures Ok(Statement(s)) && Statement(s).accepted == s.accepted
  {
    var t := Statement(s);
    match s.pc
    case Idle =>
    case Tested =>
      assert Slot(s.head, 0) == s.head;
    case Read(c) => AdvanceKeepsOk(s);
    case Advanced(c) =>
  }

  lemma AdvanceKeepsOk(s: State)
    requires Ok(s) && s.pc.Read?
    ensures Ok(Statement(s))
  {
    hide Slot;
    var t := Statement(s);
    SlotShift(s.head, Unread(t));
    forall i | 0 <= i < Unread(t)
      ensures t.buffer[Slot(t.head, i)] == t.accepted[|t.returned| + InHand(t) + i]
    {
      SlotShift(s.head, i);
      assert s.buffer[Slot(s.head, i + 1)] == s.accepted[|s.returned| + (i + 1)];
    }
  }

  lemma SlotShift(head: int, i: int)
    requires 0 <= head < INPUT_BUFFER_SIZE && 0 <= i
    ensures Slot((head + 1) % INPUT_BUFFER_SIZE, i) == Slot(head, i + 1)
  {
  }

  /** The character returned is the next one accepted and not yet returned. */
  lemma ReturnsNext(s: State)
    requires Ok(s) && (s.pc.Advanced? || s.pc.Loaded?)
    ensures |s.returned| < |s.accepted| && Statement(s).returned == s.returned + [s.accepted[|s.returned|]]
  {
  }

  // ---------------------------------------------------------------- runs

  datatype Event = Key(scancode: int) | Next

  ghost predicate IsEvent(e: Event)
  {
    e.Key? ==> 0 <= e.scancode < 256
  }

  ghost predicate Moves(s: State, e: Event, t: State)
  {
    && 0 <= s.head < |s.buffer| && 0 <= s.tail < |s.buffer| && IsEvent(e)
    && t == if e.Key? then Interrupt(s, e.scancode) else Statement(s)
  }

  /** keyboard_init */
  function Initial(): State
  {
    State(seq(INPUT_BUFFER_SIZE, _ => '\0'), 0, 0, 0, Flags(false, false, false, false), Idle, [], [])
  }

  lemma EmptyOk(s: State)
    requires |s.buffer| == INPUT_BUFFER_SIZE && s.head == s.tail == s.count == 0 && s.pc == Idle
    requires s.accepted == s.returned == []
    ensures Ok(s)
  {
  }

  ghost predicate IsRun(states: seq<State>, events: seq<Event>)
  {
    && |states| == |events| + 1
    && states[0] == Initial()
    && forall i | 0 <= i < |events| :: Moves(states[i], events[i], states[i + 1])
  }

  /** However interrupts fall between the statements, what has been returned is a prefix of what
      has been accepted, in order, with nothing lost, doubled or overwritten. */
  lemma {:induction false} RunOk(states: seq<State>, events: seq<Event>, i: nat)
    requires IsRun(states, events) && i < |states|
    ensures Ok(states[i]) && !states[i].pc.Loaded? && states[i].returned <= states[i].accepted
  {
    hide Interrupt;
    if i > 0 {
      RunOk(states, events, i - 1);
      assert Moves(states[i - 1], events[i - 1], states[i]);
      if events[i - 1].Key? {
        InterruptKeepsOk(states[i - 1], events[i - 1].scancode);
        InterruptKeepsPc(states[i - 1], events[i - 1].scancode);
      } else {
        StatementKeepsOk(states[i - 1]);
      }
    }
  }

  /** The scan codes among the events. */
  ghost function CodesOf(events: seq<Event>): (codes: seq<int>)
    ensures (forall i | 0 <= i < |events| :: IsEvent(events[i])) ==> AreCodes(codes)
  {
    if events == [] then []
    else
      var before, e := CodesOf(events[..|events| - 1]), events[|events| - 1];
      if e.Key? then before + [e.scancode] else before
  }

  lemma CodesOfMore(events: seq<Event>, i: nat)
    requires 0 < i <= |events|
    ensures var e, before := events[i - 1], CodesOf(events[..i - 1]);
            CodesOf(events[..i]) == if e.Key? then before + [e.scancode] else before
  {
    assert events[..i][..i - 1] == events[..i - 1];
  }

  /** The codes alone decide the modifiers at every moment. */
  lemma {:induction false} RunFlags(states: seq<State>, events: seq<Event>, i: nat)
    requires IsRun(states, events) && i < |states|
    ensures AreCodes(CodesOf(events[..i])) && states[i].flags == FlagsAfter(CodesOf(events[..i]))
  {
    hide Typed, NewFlags, CodesOf, FlagsAfter;
    if i == 0 {
      NoCodes();
      NoEvents(events);
    } else {
      RunFlags(states, events, i - 1);
      var e, s := events[i - 1], states[i - 1];
      assert Moves(s, e, states[i]);
      CodesOfMore(events, i);
      if e.Key? {
        var codes := CodesOf(events[..i]);
        assert codes[..|codes| - 1] == CodesOf(events[..i - 1]);
        FlagsAfterMore(codes);
      } else {
        StatementKeepsFlags(s);
      }
    }
  }

  lemma NoEvents(events: seq<Event>)
    ensures CodesOf(events[..0]) == []
  {
  }

  /** As long as the buffer never was full they also decide the characters accepted. */
  lemma {:induction false} RunTypes(states: seq<State>, events: seq<Event>, i: nat)
    requires IsRun(states, events) && i < |states| && forall j | 0 <= j < i :: states[j].count < INPUT_BUFFER_SIZE
    ensures AreCodes(CodesOf(events[..i])) && states[i].accepted == TextOf(CodesOf(events[..i]))
  {
    hide Typed, NewFlags, CodesOf, FlagsAfter, Ok;
    RunFlags(states, events, i);
    if i == 0 {
      NoEvents(events);
    } else {
      RunTypes(states, events, i - 1);
      RunFlags(states, events, i - 1);
      var e, s := events[i - 1], states[i - 1];
      assert Moves(s, e, states[i]);
      CodesOfMore(events, i);
      if e.Key? {
        var codes := CodesOf(events[..i]);
        assert codes[..|codes| - 1] == CodesOf(events[..i - 1]);
      } else {
        StatementKeepsFlags(s);
      }
    }
  }

  lemma StatementKeepsFlags(s: State)
    requires 0 <= s.head < |s.buffer|
    ensures Statement(s).flags == s.flags && Statement(s).accepted == s.accepted
  {
  }

  lemma InterruptKeepsPc(s: State, scancode: int)
    requires 0 <= scancode < 256 && 0 <= s.tail < |s.buffer|
    ensures Interrupt(s, scancode).pc == s.pc
  {
  }

  /** A typed character is lost exactly when 256 characters have been accepted and not yet returned. */
  lemma DroppedWhen(s: State, scancode: int)
    requires Ok(s) && 0 <= scancode < 256 && Typed(s.flags, scancode) != '\0'
    ensures 0 <= s.tail < |s.buffer|
    ensures Interrupt(s, scancode).accepted == s.accepted <==> |s.accepted| - |s.returned| == INPUT_BUFFER_SIZE
  {
    hide Typed, NewFlags;
  }

  // ---------------------------------------------------------------- a decrement that is not one step

  /** Interrupts one after the other. */
  ghost function Interrupts(s: State, codes: seq<int>): (t: State)
    requires Ok(s) && AreCodes(codes)
    ensures Ok(t) && t.pc == s.pc
    decreases |codes|
  {
    if codes == [] then s else
      InterruptKeepsOk(s, codes[0]);
      InterruptKeepsPc(s, codes[0]);
      Interrupts(Interrupt(s, codes[0]), codes[1..])
  }

  /** No code in the sequence stands for a character, given the modifiers before it. */
  predicate TypesNothing(f: Flags, codes: seq<int>)
    requires forall i | 0 <= i < |codes| :: 0 <= codes[i] < 256
    decreases |codes|
  {
    codes == [] ||
    (Typed(f, codes[0]) == '\0' &&
     TypesNothing(NewFlags(f, codes[0] % KEY_RELEASED, codes[0] >= KEY_RELEASED), codes[1..]))
  }

  lemma LoadKeepsOk(s: State)
    requires Ok(s) && s.pc.Advanced?
    ensures Ok(Load(s))
  {
  }

  /** The count grows by the characters accepted, and none is accepted exactly if the buffer is
      full or none is typed. */
  lemma {:induction false} InterruptsCount(s: State, codes: seq<int>)
    requires Ok(s) && AreCodes(codes)
    ensures var t := Interrupts(s, codes);
            && t.count - s.count == |t.accepted| - |s.accepted| >= 0 && t.returned == s.returned
            && (t.accepted == s.accepted <==> s.count == INPUT_BUFFER_SIZE || TypesNothing(s.flags, codes))
            && s.accepted <= t.accepted
    decreases |codes|
  {
    hide Typed, NewFlags;
    if codes != [] {
      InterruptKeepsOk(s, codes[0]);
      InterruptsCount(Interrupt(s, codes[0]), codes[1..]);
    }
  }

  /** If the decrement is a load and a store with any interrupts between them, the state stays
      consistent exactly when the buffer was full or nothing was typed; otherwise as many
      characters as were accepted meanwhile are missing from the count. */
  lemma SplitDecrementIff(s: State, codes: seq<int>)
    requires Ok(s) && s.pc.Advanced? && AreCodes(codes)
    ensures Ok(Load(s))
    ensures var t := Statement(Interrupts(Load(s), codes));
            && (Ok(t) <==> s.count == INPUT_BUFFER_SIZE || TypesNothing(s.flags, codes))
            && |t.accepted| - |t.returned| - t.count == |t.accepted| - |s.accepted|
  {
    hide Typed, NewFlags, TypesNothing, Interrupts;
    LoadKeepsOk(s);
    InterruptsCount(Load(s), codes);
    StoreKeepsOkIff(Interrupts(Load(s), codes));
  }

  lemma StoreKeepsOkIff(s: State)
    requires Ok(s) && s.pc.Loaded?
    ensures Ok(Statement(s)) <==> s.count == s.pc.n
  {
  }

  /** One key typed between load and store breaks it whenever the buffer has room. */
  lemma SplitDecrementFails(s: State, scancode: int)
    requires Ok(s) && s.pc.Advanced? && s.count < INPUT_BUFFER_SIZE
    requires 0 <= scancode < 256 && Typed(s.flags, scancode) != '\0'
    ensures 0 <= s.tail < |s.buffer| && !Ok(Statement(Interrupt(Load(s), scancode)))
  {
    hide Typed, NewFlags;
    SplitDecrementIff(s, [scancode]);
    assert Interrupts(Load(s), [scancode]) == Interrupt(Load(s), scancode);
  }

  /** So after two keys the reader, interrupted so by the second, leaves one character in the
      buffer that has_input does not report. */
  lemma LostKey(first: int, second: int)
    requires 0 <= first < 128 && 0 <= second < 128
    requires Typed(Initial().flags, first) != '\0' && Typed(Initial().flags, second) != '\0'
    ensures var s := Statement(Statement(Statement(Interrupt(Initial(), first))));
            && s.pc.Advanced? && 0 <= s.tail < |s.buffer|
            && var t := Statement(Interrupt(Load(s), second));
               t.count == 0 && |t.accepted| == 2 && |t.returned| == 1
  {
    CharacterKeepsFlags(Initial().flags, first);
    hide Typed, NewFlags;
  }

  lemma CharacterKeepsFlags(f: Flags, scancode: int)
    requires 0 <= scancode < 256 && Typed(f, scancode) != '\0'
    ensures scancode < KEY_RELEASED && NewFlags(f, scancode, false) == f
  {
    hide ScancodeToChar;
  }

  // ---------------------------------------------------------------- the driver

  class Driver {
    const inputBuffer: array<char>
    var bufferHead: int
    var bufferTail: int
    var bufferCount: int
    var flags: Flags
    ghost var accepted: seq<char>
    ghost var returned: seq<char>

    /** The driver between calls. */
    ghost function Now(): State
      reads this, inputBuffer
    {
      State(inputBuffer[..], bufferHead, bufferTail, bufferCount, flags, Idle, accepted, returned)
    }

    ghost predicate Valid()
      reads this, inputBuffer
    {
      Ok(Now())
    }

    constructor ()
      ensures Valid() && Now() == Initial() && fresh(inputBuffer)
    {
      hide Ok;
      inputBuffer := new char[INPUT_BUFFER_SIZE](_ => '\0');
      bufferHead, bufferTail, bufferCount := 0, 0, 0;
      flags := Flags(false, false, false, false);
      accepted, returned := [], [];
      new;
      assert inputBuffer[..] == Initial().buffer;
      EmptyOk(Now());
    }

    /** The character goes into the buffer if there is room. */
    method Put(c: char)
      requires 0 <= bufferTail < inputBuffer.Length == INPUT_BUFFER_SIZE
      modifies this`bufferTail, this`bufferCount, this`accepted, inputBuffer
      ensures var s := old(Now());
              Now() == if s.count >= INPUT_BUFFER_SIZE then s
                       else s.(buffer := s.buffer[s.tail := c], tail := (s.tail + 1) % INPUT_BUFFER_SIZE,
                               count := s.count + 1, accepted := s.accepted + [c])
    {
      if bufferCount < INPUT_BUFFER_SIZE {
        inputBuffer[bufferTail] := c;
        bufferTail := (bufferTail + 1) % INPUT_BUFFER_SIZE;
        bufferCount := bufferCount + 1;
        accepted := accepted + [c];
      }
    }

    method ProcessScancode(scancode: int)
      requires Valid() && 0 <= scancode < 256
      modifies this, inputBuffer
      ensures Valid() && 0 <= old(bufferTail) < inputBuffer.Length && Now() == Interrupt(old(Now()), scancode)
    {
      hide Ok, ScancodeToChar;
      InterruptKeepsOk(Now(), scancode);
      TailInBuffer(Now());
      var released := scancode >= KEY_RELEASED;
      var code := scancode % KEY_RELEASED;
      if code == KEY_LSHIFT || code == KEY_RSHIFT {
        flags := flags.(shift := !released);
      } else if code == KEY_LCTRL {
        flags := flags.(ctrl := !released);
      } else if code == KEY_LALT {
        flags := flags.(alt := !released);
      } else if code == KEY_CAPS_LOCK {
        if !released {
          flags := flags.(caps := !flags.caps);
        }
      } else if code == KEY_ENTER {
        if !released {
          Put('\n');
        }
      } else if code == KEY_BACKSPACE {
        if !released {
          Put(8 as char);
        }
      } else if !released {
        var c := ScancodeToChar(code, flags.shift, flags.caps);
        if c != '\0' {
          Put(c);
        }
      }
    }

    /** keyboard_get_char, not interrupted: the four statements one after the other. */
    method GetChar() returns (c: char)
      requires Valid()
      modifies this`bufferHead, this`bufferCount, this`returned
      ensures Valid() && accepted == old(accepted)
      ensures if old(returned == accepted) then c == '\0' && Now() == old(Now())
              else && |old(returned)| < |accepted| && c == accepted[|old(returned)|] && c != '\0'
                   && returned == old(returned) + [c]
    {
      ghost var s := Now();
      if bufferCount == 0 {
        assert accepted == returned;
        return '\0';
      }
      ghost var s1 := Statement(s);
      StatementKeepsOk(s);
      ghost var s2 := Statement(s1);
      StatementKeepsOk(s1);
      ghost var s3 := Statement(s2);
      StatementKeepsOk(s2);
      StatementKeepsOk(s3);
      c := inputBuffer[bufferHead];
      bufferHead := (bufferHead + 1) % INPUT_BUFFER_SIZE;
      bufferCount := bufferCount - 1;
      returned := returned + [c];
      assert Now() == Statement(s3);
    }

    method HasInput() returns (b: bool)
      requires Valid()
      ensures b <==> returned != accepted
    {
      b := bufferCount > 0;
      assert bufferCount == |accepted| - |returned|;
    }
  }

  lemma TailInBuffer(s: State)
    requires Ok(s)
    ensures 0 <= s.tail < |s.buffer| == INPUT_BUFFER_SIZE
  {
  }
}
