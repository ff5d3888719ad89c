/** A terminal's input buffer updated in place, as fs/tty.c does, proved against the functions of Tty. */
module TtyDevice {
  import opened Bytes
  import opened Tty

  // The cells of two arrays side by side.
  function Zip(buf: seq<byte>, flags: seq<bool>): (cs: seq<Cell>)
    requires |buf| == |flags|
    ensures |cs| == |buf|
  {
    seq(|buf|, i requires 0 <= i < |buf| => Cell(buf[i], flags[i]))
  }

  // memmove(a, a + n, count)
  method MoveDown<T>(a: array<T>, n: nat, count: nat)
    requires n + count <= a.Length
    modifies a
    ensures a[..count] == old(a[n..n + count])
  {
    for i := 0 to count
      invariant forall k | 0 <= k < i :: a[k] == old(a[k + n])
      invariant forall k | i <= k < a.Length :: a[k] == old(a[k])
    {
      a[i] := a[i + n];
    }
  }

  class Terminal {
    const buf: array<byte>
    const bufFlag: array<bool>
    var bufsize: nat
    var termios: Termios

    constructor (termios: Termios)
      ensures Valid() && fresh(buf) && fresh(bufFlag) && Contents() == [] && this.termios == termios
    {
      buf := new byte[TTY_BUF_SIZE](_ => 0);
      bufFlag := new bool[TTY_BUF_SIZE](_ => false);
      bufsize := 0;
      this.termios := termios;
    }

    ghost predicate Valid()
      reads this
    {
      buf.Length == TTY_BUF_SIZE && bufFlag.Length == TTY_BUF_SIZE && bufsize <= TTY_BUF_SIZE
    }

    ghost function Contents(): (cs: seq<Cell>)
      requires Valid()
      reads this, buf, bufFlag
      ensures |cs| == bufsize
    {
      Zip(buf[..bufsize], bufFlag[..bufsize])
    }

    /** tty_push_char. */
    method PushChar(ch: byte, flag: bool)
      requires Valid()
      modifies this`bufsize, buf, bufFlag
      ensures Valid() && Contents() == Push(old(Contents()), ch, flag)
    {
      if bufsize >= buf.Length {
        return;
      }
      buf[bufsize] := ch;
      bufFlag[bufsize] := flag;
      bufsize := bufsize + 1;
      assert Contents() == old(Contents()) + [Cell(ch, flag)];
    }

    // The erase and kill loop: not past a flag.
    method Erase(count: nat)
      requires Valid() && (count == 0 || count == 1 || count == bufsize) && (bufsize == 0 ==> count == 0)
      modifies this`bufsize
      ensures Valid() && Contents() == Erased(old(Contents()), count)
    {
      hide Erased;
      for i := 0 to count
        invariant Valid() && bufsize == old(bufsize) - i
        invariant Erased(old(Contents()), count) == Erased(Contents(), count - i)
      {
        ghost var cs := Contents();
        ErasedStep(cs, count - i);
        if bufFlag[bufsize - 1] {
          break;
        }
        bufsize := bufsize - 1;
        assert Contents() == cs[..|cs| - 1];
      }
      ErasedStep(Contents(), 0);
    }

    /** One character of tty_input's canonical branch, up to where the lock is dropped to wake readers; true if it is. */
    method InputChar(input: byte) returns (wake: bool)
      requires Valid()
      modifies this`bufsize, buf, bufFlag
      ensures Valid() && Contents() == Typed(old(Contents()), termios, input)
      ensures |Lines(Contents())| > |Lines(old(Contents()))| ==> wake
      ensures wake <==> var c := Translated(termios, input);
                        c.Some? && c.value !in {termios.verase, termios.vkill} && c.value in {termios.veof, NL, termios.veol}
    {
      hide Erased, Lines, Pending;
      ghost var cs := Contents();
      TypedCode(cs, termios, input);
      var ch := input;
      if termios.inlcr && ch == NL {
        ch := CR;
      } else if termios.icrnl && ch == CR {
        ch := NL;
      }
      if termios.igncr && ch == CR {
        return false;
      }
      if ch == termios.verase || ch == termios.vkill {
        var count := bufsize;
        if ch == termios.verase && bufsize > 0 {
          count := 1;
        }
        Erase(count);
        wake := false;
      } else if ch == termios.veof {
        PushChar(NUL, true);
        wake := true;
      } else if ch == NL || ch == termios.veol {
        PushChar(ch, true);
        wake := true;
      } else {
        PushChar(ch, false);
        wake := false;
      }
    }

    /** tty_canon_size. */
    method CanonSize() returns (n: int)
      requires Valid()
      ensures n == if FlagAt(Contents()) == bufsize then -1 else FlagAt(Contents()) + 1
    {
      var i := 0;
      ghost var cs := Contents();
      while i < bufsize && !bufFlag[i]
        invariant 0 <= i <= bufsize && FlagAt(cs) == i + FlagAt(cs[i..])
      {
        assert cs[i..][1..] == cs[i + 1..];
        i := i + 1;
      }
      n := if i == bufsize then -1 else i + 1;
    }

    /** tty_read_into_buf. */
    method ReadIntoBuf(n: nat) returns (data: seq<byte>)
      requires Valid() && n <= bufsize
      modifies this`bufsize, buf, bufFlag
      ensures Valid() && Contents() == old(Contents())[n..] && data == Chars(old(Contents())[..n])
    {
      data := buf[..n];
      bufsize := bufsize - n;
      MoveDown(buf, n, bufsize);
      MoveDown(bufFlag, n, bufsize);
    }

    /** tty_read in canonical mode, between two waits: None if there is no line yet. */
    method ReadCanonical(n: nat) returns (data: Option<seq<byte>>)
      requires Valid() && n > 0
      modifies this`bufsize, buf, bufFlag
      ensures Valid() && (data.None? <==> FlagAt(old(Contents())) == |old(Contents())|)
      ensures data.None? ==> Contents() == old(Contents())
      ensures data.Some? ==> (Contents(), data.value) == Read(old(Contents()), n)
    {
      hide Chars, FlagAt;
      ghost var cs := Contents();
      var size := CanonSize();
      if size == -1 {
        return None;
      }
      // null byte means eof was typed
      if buf[size - 1] == NUL {
        size := size - 1;
      }
      var m := if n > size then size else n;
      assert m == ReadSize(cs, n);
      if m > bufsize {
        m := bufsize;
      }
      var b := ReadIntoBuf(m);
      assert Contents() == cs[m..];
      if bufsize > 0 && buf[0] == NUL && bufFlag[0] {
        // remove the eof so the next read can succeed
        var _ := ReadIntoBuf(1);
      }
      data := Some(b);
    }
  }

  lemma ErasedStep(cs: seq<Cell>, n: nat)
    ensures Erased(cs, n) == if n == 0 || cs == [] || cs[|cs| - 1].flag then cs else Erased(cs[..|cs| - 1], n - 1)
  {
  }
}
