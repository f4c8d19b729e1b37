/** `in_string` of kernel/tty.c: a line of keys edited into a buffer that doubles when it is full. */
module LineInput {
  import opened Words

  const BACKSPACE: Byte := 8
  const NEWLINE: Byte := 10

  /** What one key does to the line: it appends, or as a backspace drops the last character. */
  function Keyed(line: seq<Byte>, key: Byte): seq<Byte> {
    if key == 0 then line
    else if key == BACKSPACE then (if line == [] then [] else line[..|line| - 1])
    else line + [key]
  }

  /** The line that the keys leave. */
  function Edited(keys: seq<Byte>): seq<Byte> {
    if keys == [] then [] else Keyed(Edited(keys[..|keys| - 1]), keys[|keys| - 1])
  }

  /** The buffer holds the line in its first `position` bytes, with room for the terminator. */
  ghost predicate Holds(buffer: array<Byte>, position: nat, line: seq<Byte>)
    reads buffer
  {
    position < buffer.Length && buffer[..position] == line
  }

  /** A buffer of twice the size with the same line. */
  method Doubled(buffer: array<Byte>, ghost line: seq<Byte>) returns (twice: array<Byte>)
    requires 0 < buffer.Length && Holds(buffer, buffer.Length - 1, line)
    ensures fresh(twice) && twice.Length == 2 * buffer.Length && Holds(twice, buffer.Length - 1, line)
  {
    twice := new Byte[2 * buffer.Length];
    forall k | 0 <= k < buffer.Length {
      twice[k] := buffer[k];
    }
    assert twice[..buffer.Length - 1] == buffer[..buffer.Length - 1];
  }

  /** `in_string` on a stream of keys with a newline in it; every `kmalloc` succeeds. */
  method InString(keys: seq<Byte>) returns (buffer: array<Byte>, position: nat, ghost n: nat)
    requires NEWLINE in keys
    ensures n < |keys| && keys[n] == 10 && 10 !in keys[..n]
    ensures position < buffer.Length && buffer[..position] == Edited(keys[..n]) && buffer[position] == 0
    ensures 0 !in keys[..n] && 8 !in keys[..n] ==> buffer[..position] == keys[..n]
  {
    hide Edited;
    NoKeys();
    position := 0;
    buffer := new Byte[16];
    var i := 0;
    while keys[i] != NEWLINE
      invariant 0 <= i < |keys| && NEWLINE in keys[i..] && NEWLINE !in keys[..i]
      invariant 16 <= buffer.Length && Holds(buffer, position, Edited(keys[..i])) && fresh(buffer)
      decreases |keys| - i
    {
      var chr := keys[i];
      OneMore(keys[..i], chr);
      assert keys[..i + 1] == keys[..i] + [chr];
      if chr == 0 {
      } else if chr == BACKSPACE {
        if position > 0 {
          position := position - 1;
        }
      } else {
        if position == buffer.Length - 1 {
          buffer := Doubled(buffer, Edited(keys[..i]));
        }
        buffer[position] := chr;
        position := position + 1;
      }
      i := i + 1;
    }
    buffer[position] := 0;
    n := i;
    PlainLine(keys[..n]);
  }

  /** Keys that do not edit stand in the line as they are, behind what was typed before. */
  lemma {:induction false} PlainKeys(keys: seq<Byte>, typed: seq<Byte>)
    requires 0 !in typed && 8 !in typed
    ensures Edited(keys + typed) == Edited(keys) + typed
    decreases |typed|
  {
    hide Edited;
    if typed == [] {
      assert keys + typed == keys;
    } else {
      var n := |typed| - 1;
      PlainKeys(keys, typed[..n]);
      OneMore(keys + typed[..n], typed[n]);
      assert keys + typed == keys + typed[..n] + [typed[n]];
    }
  }

  /** A key of 0 does nothing. */
  lemma NoKey(keys: seq<Byte>)
    ensures Edited(keys + [0]) == Edited(keys)
  {
    OneMore(keys, 0);
  }

  lemma NoKeys()
    ensures Edited([]) == []
  {}

  lemma PlainLine(keys: seq<Byte>)
    ensures 0 !in keys && 8 !in keys ==> Edited(keys) == keys
  {
    if 0 !in keys && 8 !in keys {
      PlainKeys([], keys);
      assert [] + keys == keys;
    }
  }

  lemma OneMore(keys: seq<Byte>, key: Byte)
    ensures Edited(keys + [key]) == Keyed(Edited(keys), key)
  {
    assert (keys + [key])[..|keys|] == keys;
  }

  /** What is typed next acts on the line alone, not on how it came about. */
  lemma {:induction false} SameLineGoesOn(a: seq<Byte>, b: seq<Byte>, more: seq<Byte>)
    requires Edited(a) == Edited(b)
    ensures Edited(a + more) == Edited(b + more)
    decreases |more|
  {
    hide Edited, Keyed;
    if more == [] {
      assert a + more == a && b + more == b;
    } else {
      var n := |more| - 1;
      SameLineGoesOn(a, b, more[..n]);
      OneMore(a + more[..n], more[n]);
      OneMore(b + more[..n], more[n]);
      assert a + more == a + more[..n] + [more[n]] && b + more == b + more[..n] + [more[n]];
    }
  }

  lemma BackspaceUndoes(keys: seq<Byte>, key: Byte)
    requires key != 0 && key != BACKSPACE
    ensures Edited(keys + [key] + [BACKSPACE]) == Edited(keys)
  {
    OneMore(keys, key);
    OneMore(keys + [key], BACKSPACE);
  }

  /** As many backspaces as characters undo them all, whatever was typed before. */
  lemma {:induction false} BackspacesUndo(keys: seq<Byte>, typed: seq<Byte>, backspaces: seq<Byte>)
    requires 0 !in typed && 8 !in typed
    requires |backspaces| == |typed| && forall i | 0 <= i < |backspaces| :: backspaces[i] == 8
    ensures Edited(keys + typed + backspaces) == Edited(keys)
    decreases |typed|
  {
    hide Edited;
    if typed == [] {
      assert keys + typed + backspaces == keys;
    } else {
      var n := |typed| - 1;
      var before := keys + typed[..n];
      BackspaceUndoes(before, typed[n]);
      SameLineGoesOn(before + [typed[n]] + [BACKSPACE], before, backspaces[1..]);
      assert keys + typed + backspaces == before + [typed[n]] + [BACKSPACE] + backspaces[1..];
      BackspacesUndo(keys, typed[..n], backspaces[1..]);
    }
  }

  /** No key that edits gets into the line, and a backspace at its start does nothing. */
  lemma {:induction false} LineIsPlain(keys: seq<Byte>)
    ensures 0 !in Edited(keys) && 8 !in Edited(keys)
    ensures Edited(keys) == [] ==> Edited(keys + [8]) == []
    decreases |keys|
  {
    OneMore(keys, BACKSPACE);
    if keys != [] { LineIsPlain(keys[..|keys| - 1]); }
  }
}
