/**
  The console: a line editor whose keystrokes interleave with background
  output, against a small terminal of rows, a cursor, carriage return,
  backspace and newline.
*/
module Consoles {
  import opened Common

  const BS: Byte := 8
  const LF: Byte := 10
  const CR: Byte := 13
  const BLANK: Byte := 32

  // ---------------------------------------------------------------------
  // The terminal

  datatype Screen = Screen(above: seq<Str>, row: Str, col: nat)

  /** One byte of output; everything but BS, LF and CR is a glyph of width one that overwrites. */
  function Emit(t: Screen, b: Byte): Screen {
    if b == LF then Screen(t.above + [t.row], [], 0)
    else if b == CR then t.(col := 0)
    else if b == BS then t.(col := if t.col == 0 then 0 else t.col - 1)
    else Screen(t.above, if t.col < |t.row| then t.row[t.col := b] else t.row + [b], t.col + 1)
  }

  function EmitAll(t: Screen, s: Str): Screen
    decreases |s|
  {
    if s == [] then t else Emit(EmitAll(t, s[..|s| - 1]), s[|s| - 1])
  }

  lemma {:induction false} EmitConcat(t: Screen, a: Str, b: Str)
    ensures EmitAll(t, a + b) == EmitAll(EmitAll(t, a), b)
    decreases |b|
  {
    if b == [] {
      assert a + b == a;
    } else {
      assert (a + b)[..|a + b| - 1] == a + b[..|b| - 1];
      EmitConcat(t, a, b[..|b| - 1]);
    }
  }

  // ---------------------------------------------------------------------
  // What the screen should show

  predicate IsGlyph(b: Byte) {
    b != BS && b != LF && b != CR
  }

  predicate Glyphs(s: Str) {
    forall i :: 0 <= i < |s| ==> IsGlyph(s[i])
  }

  /** Text to write: glyphs and newlines. */
  predicate IsText(s: Str) {
    forall i :: 0 <= i < |s| ==> s[i] != BS && s[i] != CR
  }

  ghost predicate UpToBlanks(row: Str, text: Str) {
    text <= row && forall i :: |text| <= i < |row| ==> row[i] == BLANK
  }

  /**
    The rows above are the finished lines and the last row is the current
    line, up to trailing blanks, with the cursor at the current line's end.
  */
  ghost predicate Shows(t: Screen, lines: seq<Str>, current: Str) {
    && |t.above| == |lines|
    && (forall i :: 0 <= i < |lines| ==> UpToBlanks(t.above[i], lines[i]))
    && UpToBlanks(t.row, current)
    && t.col == |current|
  }

  datatype Lines = Lines(finished: seq<Str>, current: Str)

  /** Text appended to what is on display. */
  function Append(l: Lines, s: Str): Lines
    decreases |s|
  {
    if s == [] then l else
    var l' := Append(l, s[..|s| - 1]);
    var b := s[|s| - 1];
    if b == LF then Lines(l'.finished + [l'.current], []) else Lines(l'.finished, l'.current + [b])
  }

  lemma {:induction false} AppendGlyphs(l: Lines, s: Str)
    requires Glyphs(s)
    ensures Append(l, s) == Lines(l.finished, l.current + s)
    decreases |s|
  {
    if s == [] {
      assert l.current + s == l.current;
    } else {
      AppendGlyphs(l, s[..|s| - 1]);
      assert l.current + s == (l.current + s[..|s| - 1]) + [s[|s| - 1]];
    }
  }

  /** Emitting text shows the text. */
  lemma {:induction false} EmitText(t: Screen, l: Lines, s: Str)
    requires Shows(t, l.finished, l.current) && IsText(s)
    ensures Shows(EmitAll(t, s), Append(l, s).finished, Append(l, s).current)
    decreases |s|
  {
    if s != [] {
      EmitText(t, l, s[..|s| - 1]);
    }
  }

  /** A control byte among the output leaves the cursor short of where the text would end. */
  lemma {:induction false} EmitColumn(t: Screen, s: Str)
    ensures EmitAll(t, s).col <= t.col + |s|
    ensures EmitAll(t, s).col == t.col + |s| ==> Glyphs(s)
    decreases |s|
  {
    if s != [] {
      EmitColumn(t, s[..|s| - 1]);
    }
  }

  function Blanks(n: nat): (s: Str)
    ensures |s| == n && forall i :: 0 <= i < n ==> s[i] == BLANK
  {
    seq(n, _ => BLANK)
  }

  // ---------------------------------------------------------------------
  // The editor

  const DELETE := 0x7F
  const NEW_LINE := 0x0A

  /** What `getchar` returns: a byte, or -1 at the end of the input. */
  type Key = k: int | -1 <= k < 256

  /** The conversion of an `int` to `char`. */
  function CharOf(k: Key): (c: Byte)
    ensures c == if k == -1 then 0xFF else k
  {
    k % 256
  }

  datatype State = State(prompt: Str, input: Str, screen: Screen)

  function StartRead(st: State, prompt: Str): State {
    State(prompt, st.input, EmitAll(st.screen, prompt))
  }

  /** One keystroke; the second component is the line once it is complete. */
  function Press(st: State, k: Key): (State, Option<Str>) {
    if k == DELETE then
      if st.input == [] then (st, None) else
      (State(st.prompt, st.input[..|st.input| - 1], EmitAll(st.screen, [BS, BLANK, BS])), None)
    else if k == NEW_LINE then
      (State([], [], EmitAll(st.screen, [LF])), Some(st.input))
    else
      (State(st.prompt, st.input + [CharOf(k)], EmitAll(st.screen, [CharOf(k)])), None)
  }

  function WriteBytes(prompt: Str, input: Str, s: Str): Str {
    if |prompt| + |input| == 0 then s + [LF] else
    Erase(|prompt| + |input|) + Reprint(prompt, input, s)
  }

  /** The text on a line of its own, then the prompt and the input again. */
  function Reprint(prompt: Str, input: Str, s: Str): Str {
    s + [LF] + prompt + input
  }

  /** Back to the margin, blanks over the line, back to the margin. */
  function Erase(n: nat): Str {
    [CR] + Blanks(n) + [CR]
  }

  function Written(st: State, s: Str): State {
    st.(screen := EmitAll(st.screen, WriteBytes(st.prompt, st.input, s)))
  }

  /** A keystroke of the reader, or a background write that gets the lock in between. */
  datatype Event = Typing(k: Key) | Output(s: Str)

  function Handle(st: State, e: Event): (State, Option<Str>) {
    match e
    case Typing(k) => Press(st, k)
    case Output(s) => (Written(st, s), None)
  }

  /** The events of one `read`, up to the newline that ends it. */
  function ReadLoop(st: State, es: seq<Event>): (State, Option<Str>)
    decreases |es|
  {
    if es == [] then (st, None) else
    var (st', line) := Handle(st, es[0]);
    if line.Some? then (st', line) else ReadLoop(st', es[1..])
  }

  // ---------------------------------------------------------------------
  // The line that is read

  function Keys(es: seq<Event>): seq<Key> {
    if es == [] then [] else
    (if es[0].Typing? then [es[0].k] else []) + Keys(es[1..])
  }

  /** The typed line: characters are pushed, delete pops if there is something to pop, newline ends. */
  function Typed(sofar: Str, keys: seq<Key>): Option<Str>
    decreases |keys|
  {
    if keys == [] then None else
    var k := keys[0];
    if k == NEW_LINE then Some(sofar) else
    Typed(if k != DELETE then sofar + [CharOf(k)] else if sofar == [] then [] else sofar[..|sofar| - 1], keys[1..])
  }

  /** The result of `read` depends on its own keystrokes alone, however many writes come in between. */
  lemma {:induction false} LineIgnoresWrites(st: State, es: seq<Event>)
    ensures ReadLoop(st, es).1 == Typed(st.input, Keys(es))
    decreases |es|
  {
    if es != [] {
      var (st', line) := Handle(st, es[0]);
      if es[0].Typing? {
        assert Keys(es)[1..] == Keys(es[1..]);
      } else {
        assert Keys(es) == Keys(es[1..]);
      }
      if line.None? {
        LineIgnoresWrites(st', es[1..]);
      }
    }
  }

  /** What is typed without newline and delete is the line, byte for byte, and the newline ends it. */
  lemma {:induction false} TypedVerbatim(sofar: Str, text: Str, rest: seq<Key>)
    requires forall i :: 0 <= i < |text| ==> text[i] != 0x0A && text[i] != 0x7F
    ensures Typed(sofar, text + [0x0A] + rest) == Some(sofar + text)
    decreases |text|
  {
    var keys: seq<Key> := text + [0x0A] + rest;
    if text == [] {
      assert keys[0] == 0x0A && sofar + text == sofar;
    } else {
      assert keys[0] == text[0] && keys[1..] == text[1..] + [0x0A] + rest;
      TypedVerbatim(sofar + [text[0]], text[1..], rest);
      assert sofar + [text[0]] + text[1..] == sofar + text;
    }
  }

  /** Wherever a key other than newline and delete is followed by delete, the two leave no trace. */
  lemma {:induction false} DeleteCancels(sofar: Str, before: seq<Key>, k: Key, after: seq<Key>)
    requires k != 0x0A && k != 0x7F
    ensures Typed(sofar, before + [k, 0x7F] + after) == Typed(sofar, before + after)
    decreases |before|
  {
    var keys: seq<Key> := before + [k, 0x7F] + after;
    if before == [] {
      assert keys[0] == k && keys[1] == 0x7F && keys[2..] == after == before + after;
      assert keys[1..][0] == 0x7F && keys[1..][1..] == keys[2..];
      assert (sofar + [CharOf(k)])[..|sofar|] == sofar;
    } else {
      var shorter: seq<Key> := before + after;
      assert keys[0] == shorter[0] == before[0];
      assert keys[1..] == before[1..] + [k, 0x7F] + after && shorter[1..] == before[1..] + after;
      if before[0] != NEW_LINE {
        DeleteCancels(
          if before[0] != DELETE then sofar + [CharOf(before[0])] else if sofar == [] then [] else sofar[..|sofar| - 1],
          before[1..], k, after);
      }
    }
  }

  /** With nothing typed, delete does nothing; the end of the input enters byte 0xFF. */
  lemma FirstKey(rest: seq<Key>)
    ensures Typed([], [0x7F] + rest) == Typed([], rest)
    ensures Typed([], [-1] + rest) == Typed([0xFF], rest)
  {
    assert ([0x7F] + rest)[1..] == rest;
    var keys: seq<Key> := [-1] + rest;
    assert keys[1..] == rest;
    assert [] + [CharOf(-1)] == [0xFF];
  }

  // ---------------------------------------------------------------------
  // The screen

  /** The state's screen shows these finished lines above the prompt and what was typed. */
  ghost predicate InOrder(st: State, finished: seq<Str>) {
    && Glyphs(st.prompt) && Glyphs(st.input)
    && Shows(st.screen, finished, st.prompt + st.input)
  }

  /** A prompt is displayed as the current line exactly if it has no BS, LF or CR. */
  lemma StartReadExactly(st: State, finished: seq<Str>, prompt: Str)
    requires InOrder(st, finished) && st.prompt == st.input == []
    ensures Shows(StartRead(st, prompt).screen, finished, prompt) <==> Glyphs(prompt)
  {
    if Glyphs(prompt) {
      EmitText(st.screen, Lines(finished, []), prompt);
      AppendGlyphs(Lines(finished, []), prompt);
      assert [] + prompt == prompt;
    } else {
      EmitColumn(st.screen, prompt);
    }
  }

  /** The finished lines after a keystroke. */
  function FinishedAfter(st: State, finished: seq<Str>, k: Key): seq<Str> {
    if k == NEW_LINE then finished + [st.prompt + st.input] else finished
  }

  lemma DeleteShows(t: Screen, finished: seq<Str>, current: Str)
    requires Shows(t, finished, current) && |current| > 0
    ensures Shows(EmitAll(t, [BS, BLANK, BS]), finished, current[..|current| - 1])
  {
    var t1 := Emit(t, BS);
    var t2 := Emit(t1, BLANK);
    var t3 := Emit(t2, BS);
    EmitThree(t, BS, BLANK, BS);
    assert t.row[..|current|] == current;
    assert t3.row == t.row[|current| - 1 := BLANK];
    assert t3.row[..|current| - 1] == current[..|current| - 1];
  }

  lemma EmitThree(t: Screen, a: Byte, b: Byte, c: Byte)
    ensures EmitAll(t, [a, b, c]) == Emit(Emit(Emit(t, a), b), c)
  {
    assert [a, b, c] == [a] + [b] + [c];
    EmitConcat(t, [a] + [b], [c]);
    EmitConcat(t, [a], [b]);
    EmitOne(t, a);
    EmitOne(Emit(t, a), b);
    EmitOne(Emit(Emit(t, a), b), c);
  }

  lemma EmitOne(t: Screen, a: Byte)
    ensures EmitAll(t, [a]) == Emit(t, a)
  {
    assert [a][..0] == [];
  }

  /** A keystroke keeps the display in order exactly if it is not a typed BS or CR. */
  lemma PressExactly(st: State, finished: seq<Str>, k: Key)
    requires InOrder(st, finished)
    ensures var st' := Press(st, k).0;
      Shows(st'.screen, FinishedAfter(st, finished, k), st'.prompt + st'.input) <==> (CharOf(k) != BS && CharOf(k) != CR)
  {
    var current := st.prompt + st.input;
    var st' := Press(st, k).0;
    if k == DELETE {
      if st.input != [] {
        DeleteShows(st.screen, finished, current);
        assert current[..|current| - 1] == st'.prompt + st'.input;
      }
    } else if k == NEW_LINE {
      EmitOne(st.screen, LF);
    } else {
      EmitOne(st.screen, CharOf(k));
      assert st'.prompt + st'.input == current + [CharOf(k)];
      if CharOf(k) == BS || CharOf(k) == CR {
        assert st'.screen.col <= |current|;
      }
    }
  }

  /** Returning to the left margin, overwriting with blanks and returning again leaves an empty line. */
  lemma EraseShows(t: Screen, finished: seq<Str>, current: Str)
    requires Shows(t, finished, current)
    ensures Shows(EmitAll(t, Erase(|current|)), finished, [])
  {
    var n := |current|;
    EmitConcat(t, [CR] + Blanks(n), [CR]);
    EmitConcat(t, [CR], Blanks(n));
    EmitOne(t, CR);
    OverwriteBlanks(t.(col := 0), n);
    EmitOne(EmitAll(t, [CR] + Blanks(n)), CR);
  }

  lemma {:induction false} OverwriteBlanks(t: Screen, n: nat)
    requires t.col == 0 && n <= |t.row|
    ensures var t' := EmitAll(t, Blanks(n));
      && t'.above == t.above && t'.col == n && |t'.row| == |t.row|
      && (forall i :: 0 <= i < n ==> t'.row[i] == BLANK)
      && (forall i :: n <= i < |t.row| ==> t'.row[i] == t.row[i])
  {
    if n > 0 {
      OverwriteBlanks(t, n - 1);
      assert Blanks(n)[..n - 1] == Blanks(n - 1);
    }
  }

  lemma ReprintShows(t: Screen, finished: seq<Str>, prompt: Str, input: Str, s: Str)
    requires Shows(t, finished, []) && IsText(s) && Glyphs(prompt + input)
    ensures Shows(EmitAll(t, Reprint(prompt, input, s)), Append(Lines(finished, []), s + [LF]).finished, prompt + input)
  {
    var line, current := s + [LF], prompt + input;
    var l' := Append(Lines(finished, []), line);
    assert line[..|s|] == s;
    assert Reprint(prompt, input, s) == line + current;
    EmitConcat(t, line, current);
    EmitText(t, Lines(finished, []), line);
    EmitText(EmitAll(t, line), l', current);
    AppendGlyphs(l', current);
    assert [] + current == current;
  }

  lemma TextShows(st: State, finished: seq<Str>, s: Str)
    requires InOrder(st, finished) && IsText(s)
    ensures InOrder(Written(st, s), Append(Lines(finished, []), s + [LF]).finished)
  {
    hide Erase, Reprint, EmitAll, Append;
    var current := st.prompt + st.input;
    if |current| == 0 {
      assert current == [] && (s + [LF])[..|s|] == s;
      LineEndsEmpty(finished, s);
      EmitText(st.screen, Lines(finished, []), s + [LF]);
    } else {
      EraseShows(st.screen, finished, current);
      EmitConcat(st.screen, Erase(|current|), Reprint(st.prompt, st.input, s));
      ReprintShows(EmitAll(st.screen, Erase(|current|)), finished, st.prompt, st.input, s);
    }
  }

  /** BS and CR never stay on the screen. */
  ghost predicate RowsAreText(t: Screen, n: nat) {
    IsText(t.row) && forall i :: n <= i < |t.above| ==> IsText(t.above[i])
  }

  lemma {:induction false} EmitLeavesText(t: Screen, s: Str, n: nat)
    requires RowsAreText(t, n)
    ensures RowsAreText(EmitAll(t, s), n)
    decreases |s|
  {
    if s != [] {
      EmitLeavesText(t, s[..|s| - 1], n);
    }
  }

  /** But they stay in the lines that should be shown. */
  lemma {:induction false} AppendKeepsControl(l: Lines, s: Str)
    requires !IsText(s)
    ensures var l' := Append(l, s);
      !IsText(l'.current) || exists i :: |l.finished| <= i < |l'.finished| && !IsText(l'.finished[i])
    decreases |s|
  {
    var init, b := s[..|s| - 1], s[|s| - 1];
    var l0, l' := Append(l, init), Append(l, s);
    AppendGrows(l, init);
    if IsText(init) {
      assert b == BS || b == CR;
      assert l'.current[|l0.current|] == b;
    } else {
      AppendKeepsControl(l, init);
      if !IsText(l0.current) {
        var i :| 0 <= i < |l0.current| && (l0.current[i] == BS || l0.current[i] == CR);
        if b == LF {
          assert l'.finished[|l0.finished|] == l0.current;
        } else {
          assert l'.current[i] == l0.current[i];
        }
      } else {
        var i :| |l.finished| <= i < |l0.finished| && !IsText(l0.finished[i]);
        assert l'.finished[i] == l0.finished[i];
      }
    }
  }

  lemma {:induction false} AppendGrows(l: Lines, s: Str)
    ensures l.finished <= Append(l, s).finished
    decreases |s|
  {
    if s != [] {
      AppendGrows(l, s[..|s| - 1]);
    }
  }

  lemma ControlMisshows(st: State, finished: seq<Str>, s: Str)
    requires InOrder(st, finished) && !IsText(s)
    ensures !Shows(Written(st, s).screen, Append(Lines(finished, []), s + [LF]).finished, st.prompt + st.input)
  {
    hide EmitAll, Append, WriteBytes;
    var line, n := s + [LF], |finished|;
    var t, lines := Written(st, s).screen, Append(Lines(finished, []), line).finished;
    EmitLeavesText(st.screen, WriteBytes(st.prompt, st.input, s), n);
    var k :| 0 <= k < |s| && (s[k] == BS || s[k] == CR);
    assert line[k] == s[k];
    AppendKeepsControl(Lines(finished, []), line);
    LineEndsEmpty(finished, s);
    var i :| n <= i < |lines| && !IsText(lines[i]);
    if i < |t.above| {
      assert IsText(t.above[i]);
    }
  }

  /** A background write puts its lines above and restores prompt and input exactly if it has no BS or CR. */
  lemma WriteExactly(st: State, finished: seq<Str>, s: Str)
    requires InOrder(st, finished)
    ensures Shows(Written(st, s).screen, Append(Lines(finished, []), s + [LF]).finished, st.prompt + st.input)
      <==> IsText(s)
  {
    if IsText(s) {
      TextShows(st, finished, s);
    } else {
      ControlMisshows(st, finished, s);
    }
  }

  lemma LineEndsEmpty(finished: seq<Str>, s: Str)
    ensures Append(Lines(finished, []), s + [LF]).current == []
  {
  }

  // ---------------------------------------------------------------------
  // Runs of the whole console: reads one after the other, writes at any time

  datatype Action = Start(prompt: Str) | Do(e: Event)

  /** One reader: a read starts only when none is going on, and keys are consumed only by a read. */
  datatype Session = Session(st: State, reading: bool)

  function Act(x: Session, a: Action): Session {
    match a
    case Start(prompt) => Session(StartRead(x.st, prompt), true)
    case Do(e) => var (st', line) := Handle(x.st, e); Session(st', x.reading && line.None?)
  }

  predicate Disciplined(x: Session, a: Action) {
    match a
    case Start(_) => !x.reading
    case Do(Typing(_)) => x.reading
    case Do(Output(_)) => true
  }

  predicate AllDisciplined(x: Session, acts: seq<Action>)
    decreases |acts|
  {
    acts == [] || (Disciplined(x, acts[0]) && AllDisciplined(Act(x, acts[0]), acts[1..]))
  }

  /** Nothing but glyphs in prompts and keystrokes, and glyphs and newlines in writes. */
  predicate Printable(a: Action) {
    match a
    case Start(prompt) => Glyphs(prompt)
    case Do(Typing(k)) => CharOf(k) != BS && CharOf(k) != CR
    case Do(Output(s)) => IsText(s)
  }

  predicate AllPrintable(acts: seq<Action>) {
    acts == [] || (Printable(acts[0]) && AllPrintable(acts[1..]))
  }

  /** The lines that should stand above after one more action: written text and finished input lines, in order. */
  function LinesAfter(x: Session, finished: seq<Str>, a: Action): seq<Str> {
    match a
    case Start(_) => finished
    case Do(Typing(k)) => FinishedAfter(x.st, finished, k)
    case Do(Output(s)) => Append(Lines(finished, []), s + [LF]).finished
  }

  /** At this and every later moment the screen shows what it should. */
  ghost predicate AlwaysShown(x: Session, finished: seq<Str>, acts: seq<Action>)
    decreases |acts|
  {
    && Shows(x.st.screen, finished, x.st.prompt + x.st.input)
    && (acts != [] ==> AlwaysShown(Act(x, acts[0]), LinesAfter(x, finished, acts[0]), acts[1..]))
  }

  ghost predicate Proper(x: Session, finished: seq<Str>) {
    InOrder(x.st, finished) && (!x.reading ==> x.st.prompt == x.st.input == [])
  }

  /** One action shows properly exactly if it is printable, and then leaves everything in order. */
  lemma ActExactly(x: Session, finished: seq<Str>, a: Action)
    requires Proper(x, finished) && Disciplined(x, a)
    ensures var x' := Act(x, a);
      Shows(x'.st.screen, LinesAfter(x, finished, a), x'.st.prompt + x'.st.input) <==> Printable(a)
    ensures Printable(a) ==> Proper(Act(x, a), LinesAfter(x, finished, a))
  {
    match a {
      case Start(prompt) =>
        StartReadExactly(x.st, finished, prompt);
        assert prompt + [] == prompt;
      case Do(Typing(k)) =>
        PressExactly(x.st, finished, k);
      case Do(Output(s)) =>
        WriteExactly(x.st, finished, s);
    }
    hide Shows, Append, EmitAll;
  }

  /**
    The promise of the console: under any interleaving of reads, keystrokes and
    writes, the last row always is the prompt and what was typed so far, with the
    cursor behind it, and everything else stands above it in order, if and only
    if nothing but printable text is prompted, typed and written.
  */
  lemma {:induction false} ScreenTheorem(x: Session, finished: seq<Str>, acts: seq<Action>)
    requires Proper(x, finished) && AllDisciplined(x, acts)
    ensures AlwaysShown(x, finished, acts) <==> AllPrintable(acts)
    decreases |acts|
  {
    hide Act, LinesAfter, Shows, Disciplined, Printable;
    if acts != [] {
      ActExactly(x, finished, acts[0]);
      if Printable(acts[0]) {
        ScreenTheorem(Act(x, acts[0]), LinesAfter(x, finished, acts[0]), acts[1..]);
      }
    }
  }

  // ---------------------------------------------------------------------
  // One whole read

  /** The session after the actions. */
  function ActAll(x: Session, acts: seq<Action>): Session
    decreases |acts|
  {
    if acts == [] then x else Act(ActAll(x, acts[..|acts| - 1]), acts[|acts| - 1])
  }

  /** A read and the events that happen during it. */
  function ReadActions(prompt: Str, es: seq<Event>): seq<Action> {
    [Start(prompt)] + seq(|es|, i requires 0 <= i < |es| => Do(es[i]))
  }

  lemma ReadActionsStart(x: Session, prompt: Str)
    ensures ActAll(x, ReadActions(prompt, [])) == Session(StartRead(x.st, prompt), true)
  {
    assert ReadActions(prompt, []) == [Start(prompt)];
    assert [Start(prompt)][..0] == [];
  }

  lemma ReadActionsStep(x: Session, prompt: Str, es: seq<Event>, e: Event)
    ensures ActAll(x, ReadActions(prompt, es + [e])) == Act(ActAll(x, ReadActions(prompt, es)), Do(e))
  {
    var acts := ReadActions(prompt, es + [e]);
    assert acts[..|acts| - 1] == ReadActions(prompt, es);
  }

  /** What the writes among the events put on lines of their own. */
  function OutputLines(finished: seq<Str>, es: seq<Event>): seq<Str>
    decreases |es|
  {
    if es == [] then finished else
    var sofar, last := OutputLines(finished, es[..|es| - 1]), es[|es| - 1];
    if last.Output? then Append(Lines(sofar, []), last.s + [LF]).finished else sofar
  }

  predicate Unfinished(es: seq<Event>) {
    forall i :: 0 <= i < |es| ==> es[i] != Typing(0x0A)
  }

  predicate PrintableEvents(es: seq<Event>) {
    forall i :: 0 <= i < |es| ==> Printable(Do(es[i]))
  }

  /** Until the newline comes, the prompt and the input stand below everything written so far. */
  lemma {:induction false} ReadUnderWay(st: State, finished: seq<Str>, prompt: Str, es: seq<Event>)
    requires InOrder(st, finished) && st.prompt == st.input == []
    requires Glyphs(prompt) && PrintableEvents(es) && Unfinished(es)
    ensures var x := ActAll(Session(st, false), ReadActions(prompt, es));
      InOrder(x.st, OutputLines(finished, es)) && x.st.prompt == prompt && x.reading
    decreases |es|
  {
    hide Shows, Append, EmitAll, Reprint, Erase;
    var x0 := Session(st, false);
    if es == [] {
      ReadActionsStart(x0, prompt);
      StartReadExactly(st, finished, prompt);
      assert prompt + [] == prompt;
    } else {
      var init, e := es[..|es| - 1], es[|es| - 1];
      ReadUnderWay(st, finished, prompt, init);
      ReadActionsStep(x0, prompt, init, e);
      assert init + [e] == es;
      var x := ActAll(x0, ReadActions(prompt, init));
      EventInOrder(x, OutputLines(finished, init), e);
    }
  }

  lemma EventInOrder(x: Session, finished: seq<Str>, e: Event)
    requires InOrder(x.st, finished) && x.reading && e != Typing(0x0A) && Printable(Do(e))
    ensures var x' := Act(x, Do(e));
      && InOrder(x'.st, if e.Output? then Append(Lines(finished, []), e.s + [LF]).finished else finished)
      && x'.st.prompt == x.st.prompt && x'.reading
  {
    hide Shows, Append, EmitAll, Reprint, Erase;
    match e
    case Typing(k) => PressExactly(x.st, finished, k);
    case Output(s) => WriteExactly(x.st, finished, s);
  }

  /** After the newline the line stands above, below everything written meanwhile, and a new row begins. */
  lemma ReadShows(st: State, finished: seq<Str>, prompt: Str, es: seq<Event>)
    requires st.prompt == st.input == [] && Shows(st.screen, finished, [])
    requires Glyphs(prompt) && PrintableEvents(es) && Unfinished(es)
    ensures var x := ActAll(Session(st, false), ReadActions(prompt, es));
      Shows(Press(x.st, 0x0A).0.screen, OutputLines(finished, es) + [prompt + x.st.input], [])
  {
    hide Shows, EmitAll;
    assert [] + [] == st.prompt;
    ReadUnderWay(st, finished, prompt, es);
    var x := ActAll(Session(st, false), ReadActions(prompt, es));
    PressExactly(x.st, OutputLines(finished, es), 0x0A);
  }

  /** The same for all the events of a read, the last of which is its newline. */
  lemma FinishedShows(st: State, prompt: Str, es: seq<Event>, line: Str)
    requires es != [] && es[|es| - 1] == Typing(0x0A) && Unfinished(es[..|es| - 1])
    requires line == ActAll(Session(st, false), ReadActions(prompt, es[..|es| - 1])).st.input
    ensures forall finished ::
      Shows(st.screen, finished, []) && st.prompt == st.input == [] && Glyphs(prompt) && PrintableEvents(es) ==>
        Shows(ActAll(Session(st, false), ReadActions(prompt, es)).st.screen,
          OutputLines(finished, es) + [prompt + line], [])
  {
    hide Shows, EmitAll, Printable, ActAll, ReadActions;
    var init := es[..|es| - 1];
    assert es == init + [Typing(0x0A)];
    ReadActionsStep(Session(st, false), prompt, init, Typing(0x0A));
    forall finished | Shows(st.screen, finished, []) && st.prompt == st.input == [] && Glyphs(prompt) && PrintableEvents(es)
      ensures Shows(ActAll(Session(st, false), ReadActions(prompt, es)).st.screen,
        OutputLines(finished, es) + [prompt + line], [])
    {
      ReadShows(st, finished, prompt, init);
    }
  }

  // ---------------------------------------------------------------------
  // The console object

  class Console {
    var mPrompt: Str
    var mUserInput: Str
    var screen: Screen

    function Value(): State
      reads this
    {
      State(mPrompt, mUserInput, screen)
    }

    constructor ()
      ensures Value() == State([], [], Screen([], [], 0))
    {
      mPrompt, mUserInput, screen := [], [], Screen([], [], 0);
    }

    /** `std::cout << s`. */
    method Print(s: Str)
      modifies this`screen
      ensures screen == EmitAll(old(screen), s)
    {
      screen := EmitAll(screen, s);
    }

    /**
      Reads one line. The events are the keystrokes `getchar` returns and the
      writes of other threads that get the lock between two of them; `used`
      says how many happened before the line was complete.
    */
    method Read(prompt: Str, events: seq<Event>) returns (line: Str, used: nat)
      requires Typed(mUserInput, Keys(events)).Some?
      modifies this
      ensures used <= |events|
      ensures (Value(), Some(line)) == ReadLoop(StartRead(old(Value()), prompt), events)
      ensures Some(line) == Typed(old(mUserInput), Keys(events))
      ensures 0 < used && events[used - 1] == Typing(0x0A) && Unfinished(events[..used - 1])
      ensures Session(Value(), false) == ActAll(Session(old(Value()), false), ReadActions(prompt, events[..used]))
      ensures mPrompt == mUserInput == []
      ensures forall finished ::
        && Shows(old(screen), finished, []) && old(mPrompt) == old(mUserInput) == []
        && Glyphs(prompt) && PrintableEvents(events[..used])
        ==> Shows(screen, OutputLines(finished, events[..used]) + [prompt + line], [])
    {
      ghost var idle := Session(Value(), false);
      mPrompt := prompt;
      Print(mPrompt);
      ghost var start := Value();
      LineIgnoresWrites(start, events);
      hide EmitAll, Written, Typed, Keys, ReadActions, ActAll, Shows, Printable, OutputLines;
      used := 0;
      ReadActionsStart(idle, prompt);
      while true
        invariant used <= |events| && Unfinished(events[..used])
        invariant Session(Value(), true) == ActAll(idle, ReadActions(prompt, events[..used]))
        invariant ReadLoop(Value(), events[used..]) == ReadLoop(start, events)
        decreases |events| - used
      {
        assert used < |events|;
        assert events[used..][1..] == events[used + 1..];
        var e := events[used];
        assert events[..used + 1] == events[..used] + [e];
        ReadActionsStep(idle, prompt, events[..used], e);
        used := used + 1;
        if e.Output? {
          WriteLine(e.s);
          continue;
        }
        var input := mUserInput;
        var userDoneTyping := HandleKey(e.k);
        if userDoneTyping {
          FinishedShows(idle.st, prompt, events[..used], input);
          return input, used;
        }
      }
    }

    /** One keystroke: the switch of the loop, and what follows the newline. */
    method HandleKey(nextChar: Key) returns (userDoneTyping: bool)
      modifies this
      ensures (Value(), if userDoneTyping then Some(old(mUserInput)) else None) == Press(old(Value()), nextChar)
    {
      if nextChar == DELETE {
        if |mUserInput| > 0 {
          mUserInput := mUserInput[..|mUserInput| - 1];
          Print([BS, BLANK, BS]);
        }
      } else if nextChar == NEW_LINE {
        Print([LF]);
        mUserInput := [];
        mPrompt := [];
        return true;
      } else {
        mUserInput := mUserInput + [CharOf(nextChar)];
        Print([CharOf(nextChar)]);
      }
      return false;
    }

    /** `Console::write`. */
    method WriteLine(s: Str)
      modifies this`screen
      ensures Value() == Written(old(Value()), s)
    {
      hide Erase, Reprint, EmitAll;
      var currentInputSize := |mPrompt| + |mUserInput|;
      if currentInputSize == 0 {
        Print(s + [LF]);
        return;
      }
      ghost var t := screen;
      Print(Erase(currentInputSize));
      Print(Reprint(mPrompt, mUserInput, s));
      EmitConcat(t, Erase(currentInputSize), Reprint(mPrompt, mUserInput, s));
    }
  }
}
