/** The canonical line discipline of fs/tty.c: a buffer of marked characters, edited at its end and read from its front. */
module Tty {
  import opened Bytes

  const TTY_BUF_SIZE: nat := 4096

  datatype Cell = Cell(ch: byte, flag: bool)

  // The termios settings that matter for canonical input.
  datatype Termios = Termios(inlcr: bool, igncr: bool, icrnl: bool, verase: byte, vkill: byte, veof: byte, veol: byte)

  const NL: byte := 10
  const CR: byte := 13
  const NUL: byte := 0

  // ------------------------------------------------- what the buffer means

  predicate Unflagged(cs: seq<Cell>) { forall j | 0 <= j < |cs| :: !cs[j].flag }

  // Position of the first flag, or the number of cells.
  function FlagAt(cs: seq<Cell>): (k: nat)
    ensures k <= |cs| && (k < |cs| ==> cs[k].flag)
  {
    if cs == [] || cs[0].flag then 0 else 1 + FlagAt(cs[1..])
  }

  function Chars(cs: seq<Cell>): (b: seq<byte>)
    ensures |b| == |cs|
  {
    seq(|cs|, i requires 0 <= i < |cs| => cs[i].ch)
  }

  // The length of the first line, flagged at k. A flagged NUL is an end of file, not data.
  function LineSize(cs: seq<Cell>, k: nat): (n: nat)
    requires k < |cs|
    ensures k <= n <= k + 1
  {
    if cs[k].ch == NUL then k else k + 1
  }

  function Terminator(ch: byte): seq<byte> { if ch == NUL then [] else [ch] }

  predicate HasLine(cs: seq<Cell>) { FlagAt(cs) < |cs| }

  // The first line's data, and the cells after the line.
  function FirstOf(cs: seq<Cell>): seq<byte>
    requires HasLine(cs)
  {
    Chars(cs[..LineSize(cs, FlagAt(cs))])
  }

  function AfterFirst(cs: seq<Cell>): (rest: seq<Cell>)
    requires HasLine(cs)
    ensures |rest| < |cs|
  {
    cs[FlagAt(cs) + 1..]
  }

  /** The committed lines, oldest first, each with its end-of-line character if it has one. */
  function Lines(cs: seq<Cell>): seq<seq<byte>>
    decreases |cs|
  {
    if HasLine(cs) then [FirstOf(cs)] + Lines(AfterFirst(cs)) else []
  }

  /** The line still being typed. */
  function Pending(cs: seq<Cell>): seq<Cell>
    decreases |cs|
  {
    if HasLine(cs) then Pending(AfterFirst(cs)) else cs
  }

  // --------------------------------------------------------------- the code

  function Push(cs: seq<Cell>, ch: byte, flag: bool): seq<Cell> {
    if |cs| >= TTY_BUF_SIZE then cs else cs + [Cell(ch, flag)]
  }

  // Newline and carriage return translation; None for an ignored character.
  function Translated(t: Termios, ch: byte): Option<byte> {
    var c := if t.inlcr && ch == NL then CR else if t.icrnl && ch == CR then NL else ch;
    if t.igncr && c == CR then None else Some(c)
  }

  // Up to n unflagged cells taken off the end.
  function Erased(cs: seq<Cell>, n: nat): seq<Cell> {
    if n == 0 || cs == [] || cs[|cs| - 1].flag then cs else Erased(cs[..|cs| - 1], n - 1)
  }

  /** One character through the canonical branch of tty_input. */
  function Typed(cs: seq<Cell>, t: Termios, input: byte): seq<Cell> {
    var c := Translated(t, input);
    if c.None? then cs
    else if c.value == t.verase || c.value == t.vkill then Erased(cs, if c.value == t.verase && |cs| > 0 then 1 else |cs|)
    else if c.value == t.veof then Push(cs, NUL, true)
    else Push(cs, c.value, c.value == NL || c.value == t.veol)
  }

  // The number of bytes tty_read returns once there is a line.
  function ReadSize(cs: seq<Cell>, n: nat): nat
    requires HasLine(cs)
  {
    var size := LineSize(cs, FlagAt(cs));
    if n > size then size else n
  }

  /** tty_read of n > 0 bytes once there is a line: what is left, and the bytes. */
  function Read(cs: seq<Cell>, n: nat): (seq<Cell>, seq<byte>)
    requires HasLine(cs) && n > 0
  {
    var m := ReadSize(cs, n);
    var rest := cs[m..];
    (if rest != [] && rest[0] == Cell(NUL, true) then rest[1..] else rest, Chars(cs[..m]))
  }

  // ------------------------------------------------------- the line editor

  lemma {:induction false} FlagAtIff(cs: seq<Cell>, k: nat)
    requires k <= |cs| && (k < |cs| ==> cs[k].flag)
    ensures FlagAt(cs) == k <==> Unflagged(cs[..k])
  {
    if cs != [] && k > 0 {
      assert cs[..k][1..] == cs[1..][..k - 1];
      if !cs[0].flag {
        FlagAtIff(cs[1..], k - 1);
        assert cs[..k] == [cs[0]] + cs[1..][..k - 1];
      } else {
        assert cs[..k][0].flag;
      }
    }
  }

  // The first flag of a buffer with more cells behind it.
  lemma FlagAtMore(cs: seq<Cell>, c: Cell)
    ensures FlagAt(cs + [c]) == if FlagAt(cs) == |cs| && !c.flag then |cs| + 1 else FlagAt(cs)
  {
    var k := FlagAt(cs);
    var d := cs + [c];
    FlagAtIff(cs, k);
    hide FlagAt;
    if k == |cs| && !c.flag {
      FlagAtIff(d, k + 1);
      assert cs[..k] == cs && d[..k + 1] == d;
    } else {
      FlagAtIff(d, k);
      assert d[..k] == cs[..k];
    }
  }

  // The first flag after m unflagged cells are gone.
  lemma FlagAtLess(cs: seq<Cell>, m: nat)
    requires m <= FlagAt(cs)
    ensures FlagAt(cs[m..]) == FlagAt(cs) - m
  {
    var k := FlagAt(cs);
    FlagAtIff(cs, k);
    FlagAtIff(cs[m..], k - m);
    hide FlagAt;
    assert cs[m..][..k - m] == cs[..k][m..];
  }

  // One more cell behind the first line does not touch it.
  lemma FirstKept(cs: seq<Cell>, c: Cell)
    requires HasLine(cs)
    ensures var d := cs + [c];
            HasLine(d) && FirstOf(d) == FirstOf(cs) && AfterFirst(d) == AfterFirst(cs) + [c]
  {
    hide Chars, FlagAt;
    FlagAtMore(cs, c);
    var k := FlagAt(cs);
    assert (cs + [c])[..LineSize(cs, k)] == cs[..LineSize(cs, k)];
    assert (cs + [c])[k + 1..] == cs[k + 1..] + [c];
  }

  lemma {:induction false} PlainCell(cs: seq<Cell>, c: Cell)
    requires !c.flag
    ensures Lines(cs + [c]) == Lines(cs) && Pending(cs + [c]) == Pending(cs) + [c]
    decreases |cs|
  {
    hide FirstOf, AfterFirst, HasLine;
    if HasLine(cs) {
      FirstKept(cs, c);
      PlainCell(AfterFirst(cs), c);
    } else {
      StillNone(cs, c);
    }
  }

  lemma StillNone(cs: seq<Cell>, c: Cell)
    requires !HasLine(cs) && !c.flag
    ensures !HasLine(cs + [c])
  {
    FlagAtMore(cs, c);
    hide FlagAt;
  }

  // A flag ends the line being typed.
  lemma NowFirst(cs: seq<Cell>, c: Cell)
    requires !HasLine(cs) && c.flag
    ensures var d := cs + [c];
            HasLine(d) && FirstOf(d) == Chars(cs) + Terminator(c.ch) && AfterFirst(d) == []
  {
    hide FlagAt;
    FlagAtMore(cs, c);
    assert (cs + [c])[..|cs|] == cs && (cs + [c])[..|cs| + 1] == cs + [c];
  }

  lemma {:induction false} FlaggedCell(cs: seq<Cell>, c: Cell)
    requires c.flag
    ensures Lines(cs + [c]) == Lines(cs) + [Chars(Pending(cs)) + Terminator(c.ch)] && Pending(cs + [c]) == []
    decreases |cs|
  {
    hide Chars, Terminator, FirstOf, AfterFirst, HasLine;
    if HasLine(cs) {
      FirstKept(cs, c);
      FlaggedCell(AfterFirst(cs), c);
    } else {
      NowFirst(cs, c);
      NothingThere();
    }
  }

  lemma NothingThere()
    ensures Lines([]) == [] && Pending([]) == []
  {
  }

  lemma LastCell(cs: seq<Cell>)
    requires cs != []
    ensures var c, front := cs[|cs| - 1], cs[..|cs| - 1];
            if c.flag then Pending(cs) == []
            else Lines(front) == Lines(cs) && Pending(cs) == Pending(front) + [c]
  {
    var c, front := cs[|cs| - 1], cs[..|cs| - 1];
    assert cs == front + [c];
    if c.flag { FlaggedCell(front, c); } else { PlainCell(front, c); }
  }

  // Erasing takes from the line being typed and stops at its start.
  lemma {:induction false} ErasedLine(cs: seq<Cell>, n: nat)
    ensures var e := Erased(cs, n);
            var p := Pending(cs);
            Lines(e) == Lines(cs) && Pending(e) == p[..if n > |p| then 0 else |p| - n]
    decreases n
  {
    hide Lines, Pending;
    if cs != [] { LastCell(cs); } else { NothingThere(); }
    if n != 0 && cs != [] && !cs[|cs| - 1].flag {
      ErasedLine(cs[..|cs| - 1], n - 1);
    }
  }

  lemma {:induction false} PendingFits(cs: seq<Cell>)
    ensures |Pending(cs)| <= |cs|
    decreases |cs|
  {
    if HasLine(cs) { PendingFits(AfterFirst(cs)); }
  }

  /** A line editor: committed lines, and the line being typed. */
  datatype Editor = Editor(lines: seq<seq<byte>>, line: seq<byte>)

  function EditorOf(cs: seq<Cell>): Editor { Editor(Lines(cs), Chars(Pending(cs))) }

  // A control character set to 0 is disabled.
  predicate Is(c: byte, control: byte) { control != 0 && c == control }

  /** Section 11.1.6 of IEEE Std 1003.1-2017: erase and kill work on the line being typed; end of line and end of file commit
      it; a full queue takes nothing more. */
  function EditorType(e: Editor, t: Termios, input: byte, full: bool): Editor {
    var c := Translated(t, input);
    if c.None? then e
    else if Is(c.value, t.verase) then e.(line := if e.line == [] then [] else e.line[..|e.line| - 1])
    else if Is(c.value, t.vkill) then e.(line := [])
    else if full then e
    else if Is(c.value, t.veof) then Editor(e.lines + [e.line], [])
    else if c.value == NL || Is(c.value, t.veol) then Editor(e.lines + [e.line + [c.value]], [])
    else e.(line := e.line + [c.value])
  }

  // The same with a control character of 0 like any other, and a line ended by NUL losing it.
  function CodeType(e: Editor, t: Termios, input: byte, full: bool): Editor {
    var c := Translated(t, input);
    if c.None? then e
    else if c.value == t.verase then e.(line := if e.line == [] then [] else e.line[..|e.line| - 1])
    else if c.value == t.vkill then e.(line := [])
    else if full then e
    else if c.value == t.veof then Editor(e.lines + [e.line], [])
    else if c.value == NL || c.value == t.veol then Editor(e.lines + [e.line + Terminator(c.value)], [])
    else e.(line := e.line + [c.value])
  }

  lemma TypedCode(cs: seq<Cell>, t: Termios, input: byte)
    ensures EditorOf(Typed(cs, t, input)) == CodeType(EditorOf(cs), t, input, |cs| >= TTY_BUF_SIZE)
  {
    hide Lines, Pending;
    var c := Translated(t, input);
    if c.Some? {
      if c.value == t.verase || c.value == t.vkill {
        ErasedLine(cs, if c.value == t.verase && |cs| > 0 then 1 else |cs|);
        PendingFits(cs);
        CharsPrefix(Pending(cs), if c.value == t.verase && Pending(cs) != [] then |Pending(cs)| - 1 else 0);
      } else {
        var flag := c.value == t.veof || c.value == NL || c.value == t.veol;
        var cell := Cell(if c.value == t.veof then NUL else c.value, flag);
        if flag { FlaggedCell(cs, cell); } else { PlainCell(cs, cell); }
        assert Chars(Pending(cs)) + [] == Chars(Pending(cs));
        assert Chars(Pending(cs) + [cell]) == Chars(Pending(cs)) + [cell.ch];
      }
    }
  }

  // c is none of the control characters.
  predicate Plain(t: Termios, c: byte) { c != t.verase && c != t.vkill && c != t.veof && c != t.veol }

  // A line feed (10) is typed and ends the line; or character c is typed and joins it.
  ghost predicate Commits(cs: seq<Cell>, t: Termios, input: byte) {
    var e, u := EditorOf(cs), EditorOf(Typed(cs, t, input));
    u.lines == e.lines + [e.line + [10]] && u.line == []
  }
  ghost predicate Joins(cs: seq<Cell>, t: Termios, input: byte, c: byte) {
    var e, u := EditorOf(cs), EditorOf(Typed(cs, t, input));
    u.lines == e.lines && u.line == e.line + [c]
  }

  /** ICRNL, INLCR and IGNCR, in a buffer with room and where line feed (10) and carriage return (13) are no control characters. A
      carriage return ends the line under ICRNL, is dropped under IGNCR without it, and is a character otherwise. A line feed
      ends the line, but under INLCR it is a carriage return, which IGNCR drops; other characters are not translated. */
  lemma NewlineModes(cs: seq<Cell>, t: Termios, input: byte)
    requires |cs| < TTY_BUF_SIZE && Plain(t, 10) && Plain(t, 13) && Plain(t, input)
    ensures t.icrnl ==> Commits(cs, t, 13)
    ensures !t.icrnl && t.igncr ==> Typed(cs, t, 13) == cs
    ensures !t.icrnl && !t.igncr ==> Joins(cs, t, 13, 13)
    ensures !t.inlcr ==> Commits(cs, t, 10)
    ensures t.inlcr && t.igncr ==> Typed(cs, t, 10) == cs
    ensures t.inlcr && !t.igncr ==> Joins(cs, t, 10, 13)
    ensures input != 10 && input != 13 ==> Joins(cs, t, input, input)
  {
    TypedCode(cs, t, 13);
    TypedCode(cs, t, 10);
    TypedCode(cs, t, input);
    hide Lines, Pending, Push, Erased;
  }

  // NUL is no control character of these settings.
  predicate NulIsData(t: Termios) { t.verase != NUL && t.vkill != NUL && t.veof != NUL && t.veol != NUL }

  // Nothing to erase and no room, or no room and nothing that erases.
  predicate NulIgnored(cs: seq<Cell>, t: Termios) {
    |cs| >= TTY_BUF_SIZE && (Pending(cs) == [] || (t.verase != NUL && t.vkill != NUL))
  }

  /** Typing does to the buffer what it does to the editor, exactly unless the character is a NUL and some control character
      is 0, that is disabled; a full buffer, which takes no NUL either, hides the difference. */
  lemma TypedEditsIff(cs: seq<Cell>, t: Termios, input: byte)
    ensures EditorOf(Typed(cs, t, input)) == EditorType(EditorOf(cs), t, input, |cs| >= TTY_BUF_SIZE)
            <==> Translated(t, input) != Some(NUL) || NulIsData(t) || NulIgnored(cs, t)
  {
    TypedCode(cs, t, input);
    hide Typed, Lines, Pending;
    LineLonger(Lines(cs), Chars(Pending(cs)), NUL);
  }

  lemma LineLonger(lines: seq<seq<byte>>, line: seq<byte>, b: byte)
    ensures |lines + [line]| == |lines| + 1 && |line + [b]| == |line| + 1
  {
  }

  /** The input: on a terminal without a VEOL character, a NUL typed after an a ends the file instead of joining the line. */
  lemma NulEndsFile()
    ensures var t := Termios(false, false, false, 127, 21, 4, 0);
            var cs := [Cell(97, false)];
            && EditorOf(Typed(cs, t, NUL)) == Editor([[97]], [])
            && EditorType(EditorOf(cs), t, NUL, false) == Editor([], [97, NUL])
  {
    var t := Termios(false, false, false, 127, 21, 4, 0);
    var cs := [Cell(97, false)];
    TypedCode(cs, t, NUL);
    PlainCell([], Cell(97, false));
    NothingThere();
    assert [] + [Cell(97, false)] == cs;
    assert Chars(cs) == [97] && [97] + [] == [97];
    hide Typed, Lines, Pending;
  }

  lemma CharsPrefix(cs: seq<Cell>, n: nat)
    requires n <= |cs|
    ensures Chars(cs[..n]) == Chars(cs)[..n]
  {
  }

  // ------------------------------------------------------------- reading

  /** A read of n bytes from committed lines: the first line, or its beginning if it is longer. */
  function EditorRead(e: Editor, n: nat): (Editor, seq<byte>)
    requires e.lines != []
  {
    if |e.lines[0]| <= n then (e.(lines := e.lines[1..]), e.lines[0])
    else (e.(lines := [e.lines[0][n..]] + e.lines[1..]), e.lines[0][..n])
  }

  // The read finishes a line that ended with a character, and an end of file comes right after it.
  predicate TakesEof(cs: seq<Cell>, n: nat)
    requires HasLine(cs)
  {
    var k := FlagAt(cs);
    cs[k].ch != NUL && n >= k + 1 && k + 1 < |cs| && cs[k + 1] == Cell(NUL, true)
  }

  lemma EofLine(cs: seq<Cell>)
    requires cs != [] && cs[0] == Cell(NUL, true)
    ensures HasLine(cs) && FirstOf(cs) == [] && AfterFirst(cs) == cs[1..]
  {
    assert FlagAt(cs) == 0;
    assert Chars(cs[..0]) == [];
  }

  lemma CharsSlice(cs: seq<Cell>, m: nat, n: nat)
    requires m <= n <= |cs|
    ensures Chars(cs[m..][..n - m]) == Chars(cs[..n])[m..] && Chars(cs[..m]) == Chars(cs[..n])[..m]
  {
  }

  lemma Shifted(cs: seq<Cell>, m: nat, k: nat)
    requires m <= k < |cs|
    ensures var d := cs[m..];
            |d| == |cs| - m && LineSize(d, k - m) == LineSize(cs, k) - m && d[k - m + 1..] == cs[k + 1..]
  {
    var d := cs[m..];
    assert d[k - m] == cs[k];
    assert d[k - m + 1..] == cs[k + 1..];
  }

  // The first line with m of its unflagged cells gone.
  lemma PartOfLine(cs: seq<Cell>, m: nat)
    requires HasLine(cs) && m <= FlagAt(cs)
    ensures |FirstOf(cs)| == LineSize(cs, FlagAt(cs)) >= m
    ensures HasLine(cs[m..]) && FirstOf(cs[m..]) == FirstOf(cs)[m..] && AfterFirst(cs[m..]) == AfterFirst(cs)
  {
    hide FlagAt, FirstOf, AfterFirst;
    FlagAtLess(cs, m);
    PartFirst(cs, m);
    PartAfter(cs, m);
  }

  lemma PartFirst(cs: seq<Cell>, m: nat)
    requires HasLine(cs) && m <= FlagAt(cs) && HasLine(cs[m..]) && FlagAt(cs[m..]) == FlagAt(cs) - m
    ensures |FirstOf(cs)| == LineSize(cs, FlagAt(cs)) >= m && FirstOf(cs[m..]) == FirstOf(cs)[m..]
  {
    hide FlagAt, LineSize, Chars;
    Shifted(cs, m, FlagAt(cs));
    CharsSlice(cs, m, LineSize(cs, FlagAt(cs)));
  }

  lemma PartAfter(cs: seq<Cell>, m: nat)
    requires HasLine(cs) && m <= FlagAt(cs) && HasLine(cs[m..]) && FlagAt(cs[m..]) == FlagAt(cs) - m
    ensures AfterFirst(cs[m..]) == AfterFirst(cs)
  {
    hide FlagAt;
    Shifted(cs, m, FlagAt(cs));
  }

  /** A read returns what the reference read returns, never crossing a line; it leaves what the reference leaves, but for
      an end of file that it swallows with the line before. */
  lemma ReadRefines(cs: seq<Cell>, n: nat)
    requires HasLine(cs) && n > 0
    ensures var (rest, b) := Read(cs, n);
            var (e, r) := EditorRead(EditorOf(cs), n);
            && b == r
            && (TakesEof(cs, n) ==> e.lines != [] && e.lines[0] == [])
            && EditorOf(rest) == if TakesEof(cs, n) then e.(lines := e.lines[1..]) else e
  {
    hide Lines, FirstOf, AfterFirst, Pending, FlagAt, Chars, Read, TakesEof;
    LinesFront(cs);
    ReadBytes(cs, n);
    if n < LineSize(cs, FlagAt(cs)) {
      ReadPart(cs, n);
    } else {
      ReadLine(cs, n);
    }
  }

  lemma LinesFront(cs: seq<Cell>)
    requires HasLine(cs)
    ensures Lines(cs) == [FirstOf(cs)] + Lines(AfterFirst(cs)) && Pending(cs) == Pending(AfterFirst(cs))
    ensures Lines(cs)[0] == FirstOf(cs) && Lines(cs)[1..] == Lines(AfterFirst(cs)) && |FirstOf(cs)| == LineSize(cs, FlagAt(cs))
  {
    hide Chars, AfterFirst, FlagAt;
  }

  // The bytes a read returns.
  lemma ReadBytes(cs: seq<Cell>, n: nat)
    requires HasLine(cs) && n > 0
    ensures Read(cs, n).1 == if |FirstOf(cs)| <= n then FirstOf(cs) else FirstOf(cs)[..n]
  {
    CharsSlice(cs, ReadSize(cs, n), LineSize(cs, FlagAt(cs)));
    hide Chars, FlagAt;
  }

  lemma ReadPart(cs: seq<Cell>, n: nat)
    requires HasLine(cs) && 0 < n < LineSize(cs, FlagAt(cs))
    ensures EditorOf(Read(cs, n).0) == EditorRead(EditorOf(cs), n).0 && !TakesEof(cs, n)
  {
    ReadPartRest(cs, n);
    hide Chars, Lines, Pending, FlagAt, FirstOf, AfterFirst, Read, HasLine;
    LinesFront(cs);
    PartOfLine(cs, n);
    LinesFront(cs[n..]);
  }

  lemma ReadPartRest(cs: seq<Cell>, n: nat)
    requires HasLine(cs) && 0 < n < LineSize(cs, FlagAt(cs))
    ensures Read(cs, n).0 == cs[n..] && !TakesEof(cs, n) && n <= FlagAt(cs)
  {
    hide Chars;
    var k := FlagAt(cs);
    FlagAtIff(cs, k);
    assert cs[n..][0] == cs[n];
    assert n == k ==> cs[n].ch != NUL;
    assert n < k ==> cs[..k][n] == cs[n];
  }

  lemma ReadLine(cs: seq<Cell>, n: nat)
    requires HasLine(cs) && n > 0 && n >= LineSize(cs, FlagAt(cs))
    ensures var rest := Read(cs, n).0;
            var e := EditorRead(EditorOf(cs), n).0;
            && (TakesEof(cs, n) ==> e.lines != [] && e.lines[0] == [])
            && EditorOf(rest) == if TakesEof(cs, n) then e.(lines := e.lines[1..]) else e
  {
    ReadLineRest(cs, n);
    hide Chars, Lines, Pending, FlagAt, FirstOf, AfterFirst, Read, HasLine;
    LinesFront(cs);
    if TakesEof(cs, n) {
      EofLine(AfterFirst(cs));
      LinesFront(AfterFirst(cs));
    }
  }

  // A read to the end of the line leaves what is after it, less an end of file it swallows.
  lemma ReadLineRest(cs: seq<Cell>, n: nat)
    requires HasLine(cs) && n > 0 && n >= LineSize(cs, FlagAt(cs))
    ensures var rest := AfterFirst(cs);
            && Read(cs, n).0 == (if TakesEof(cs, n) then rest[1..] else rest)
            && (TakesEof(cs, n) ==> rest != [] && rest[0] == Cell(NUL, true))
  {
    hide Chars;
    var k := FlagAt(cs);
    if cs[k].ch == NUL {
      assert cs[k..][1..] == cs[k + 1..];
    }
  }

  /** So reading is faithful, end-of-file conditions included, exactly if it does not swallow one. */
  lemma ReadFaithfulIff(cs: seq<Cell>, n: nat)
    requires HasLine(cs) && n > 0
    ensures (EditorOf(Read(cs, n).0), Read(cs, n).1) == EditorRead(EditorOf(cs), n) <==> !TakesEof(cs, n)
  {
    ReadRefines(cs, n);
    hide Read, EditorOf;
  }

  /** An end of file typed right after a line is lost to a reader that comes later. */
  lemma LostEof()
    ensures var cs := [Cell(97, false), Cell(NL, true), Cell(NUL, true)];
            && EditorOf(cs) == Editor([[97, NL], []], [])
            && EditorOf(Read(cs, 10).0) == Editor([], []) && Read(cs, 10).1 == [97, NL]
  {
    var cs := [Cell(97, false), Cell(NL, true), Cell(NUL, true)];
    assert cs[1..][0] == Cell(NL, true);
    assert FlagAt(cs) == 1;
    assert cs[2..] == [Cell(NUL, true)];
    EofLine(cs[2..]);
    assert cs[2..][1..] == [];
    assert Chars(cs[..2]) == [97, NL];
    assert FirstOf(cs) == [97, NL] && AfterFirst(cs) == cs[2..];
    LinesFront(cs);
    LinesFront(cs[2..]);
    NothingThere();
    assert Chars([]) == [];
  }

  // ----------------------------------------------------------------- runs

  // What the holders of the tty's lock do, in the order they get it. A reader acts once it finds a line.
  datatype Event = Type(t: Termios, input: byte) | Get(n: nat)

  function Step(cs: seq<Cell>, e: Event): (seq<Cell>, seq<byte>) {
    match e
    case Type(t, input) => (Typed(cs, t, input), [])
    case Get(n) => if n == 0 || FlagAt(cs) == |cs| then (cs, []) else Read(cs, n)
  }

  function Run(cs: seq<Cell>, es: seq<Event>): (seq<Cell>, seq<byte>)
    decreases |es|
  {
    if es == [] then (cs, []) else
      var (next, b) := Step(cs, es[0]);
      var (last, bs) := Run(next, es[1..]);
      (last, b + bs)
  }

  function Flat(lines: seq<seq<byte>>): seq<byte> { if lines == [] then [] else lines[0] + Flat(lines[1..]) }

  // The bytes that join the committed lines during the run.
  function Committed(cs: seq<Cell>, es: seq<Event>): seq<byte>
    decreases |es|
  {
    if es == [] then [] else CommittedBy(cs, es[0]) + Committed(Step(cs, es[0]).0, es[1..])
  }

  function CommittedBy(cs: seq<Cell>, e: Event): seq<byte> {
    if e.Get? then [] else
      var before, after := Lines(cs), Lines(Typed(cs, e.t, e.input));
      if |after| > |before| then after[|before|] else []
  }

  /** Where NUL is data, these are the bytes that the line editor commits. */
  lemma CommittedAsTyped(cs: seq<Cell>, t: Termios, input: byte)
    requires Translated(t, input) != Some(NUL) || NulIsData(t)
    ensures var e := EditorOf(cs);
            var lines := EditorType(e, t, input, |cs| >= TTY_BUF_SIZE).lines;
            lines == if |lines| > |e.lines| then e.lines + [CommittedBy(cs, Type(t, input))] else e.lines
  {
    TypedEditsIff(cs, t, input);
    hide Typed, Lines, Pending;
  }

  lemma {:induction false} FlatMore(lines: seq<seq<byte>>, l: seq<byte>)
    ensures Flat(lines + [l]) == Flat(lines) + l
    decreases |lines|
  {
    if lines == [] {
      assert lines + [l] == [l];
      assert l + [] == l;
    } else {
      assert (lines + [l])[1..] == lines[1..] + [l];
      FlatMore(lines[1..], l);
      assert lines[0] + (Flat(lines[1..]) + l) == lines[0] + Flat(lines[1..]) + l;
    }
  }

  lemma StepFifo(cs: seq<Cell>, e: Event)
    ensures var (next, b) := Step(cs, e);
            b + Flat(Lines(next)) == Flat(Lines(cs)) + CommittedBy(cs, e)
  {
    match e {
      case Type(t, input) => TypeFifo(cs, t, input);
      case Get(n) =>
        assert Flat(Lines(cs)) + [] == Flat(Lines(cs));
        assert [] + Flat(Lines(cs)) == Flat(Lines(cs));
        if n != 0 && FlagAt(cs) < |cs| { GetFifo(cs, n); }
    }
  }

  lemma TypeFifo(cs: seq<Cell>, t: Termios, input: byte)
    ensures Flat(Lines(Typed(cs, t, input))) == Flat(Lines(cs)) + CommittedBy(cs, Type(t, input))
  {
    hide Typed, Lines;
    TypedCode(cs, t, input);
    var before := EditorOf(cs);
    var after := CodeType(before, t, input, |cs| >= TTY_BUF_SIZE);
    assert Flat(before.lines) + [] == Flat(before.lines);
    if |after.lines| > |before.lines| {
      FlatMore(before.lines, after.lines[|before.lines|]);
    }
  }

  lemma GetFifo(cs: seq<Cell>, n: nat)
    requires n > 0 && HasLine(cs)
    ensures Read(cs, n).1 + Flat(Lines(Read(cs, n).0)) == Flat(Lines(cs))
  {
    hide Read, Lines, Pending, Chars, FlagAt, TakesEof, Flat, EditorRead;
    ReadRefines(cs, n);
    LinesFront(cs);
    FlatRead(EditorOf(cs), n);
    FlatEmpty(EditorRead(EditorOf(cs), n).0.lines);
  }

  lemma FlatRead(e: Editor, n: nat)
    requires e.lines != []
    ensures EditorRead(e, n).1 + Flat(EditorRead(e, n).0.lines) == Flat(e.lines)
  {
    var l, rest := e.lines[0], e.lines[1..];
    if |l| > n {
      assert ([l[n..]] + rest)[1..] == rest;
      Associate(l[..n], l[n..], Flat(rest));
      assert l[..n] + l[n..] == l;
    }
  }

  lemma FlatEmpty(lines: seq<seq<byte>>)
    ensures lines != [] && lines[0] == [] ==> Flat(lines) == Flat(lines[1..])
  {
    if lines != [] { assert [] + Flat(lines[1..]) == Flat(lines[1..]); }
  }

  /** First in, first out, over every interleaving of typing and reading: the bytes of all reads, then those of the lines
      not read yet, are the committed bytes in order. */
  lemma {:induction false} RunFifo(cs: seq<Cell>, es: seq<Event>)
    ensures var (last, b) := Run(cs, es);
            b + Flat(Lines(last)) == Flat(Lines(cs)) + Committed(cs, es)
    decreases |es|
  {
    hide Step, Lines, Flat, CommittedBy;
    if es == [] {
      assert [] + Flat(Lines(cs)) == Flat(Lines(cs)) + [];
    } else {
      var (next, b) := Step(cs, es[0]);
      var (last, bs) := Run(next, es[1..]);
      StepFifo(cs, es[0]);
      RunFifo(next, es[1..]);
      Chain(b, bs, Flat(Lines(last)), Flat(Lines(next)), Committed(next, es[1..]), Flat(Lines(cs)), CommittedBy(cs, es[0]));
    }
  }

  lemma Chain(b: seq<byte>, bs: seq<byte>, last: seq<byte>, next: seq<byte>, later: seq<byte>, first: seq<byte>, now: seq<byte>)
    requires bs + last == next + later && b + next == first + now
    ensures b + bs + last == first + (now + later)
  {
    assert b + bs + last == b + (bs + last);
    assert b + (next + later) == b + next + later;
    assert first + now + later == first + (now + later);
  }
}
