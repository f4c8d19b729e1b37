/** `pars_input` of kernel/shell.c: the command, and the arguments packed into one block whose size
    a first pass over the line works out. */
module Tokenizer {
  import opened Words
  import opened Stdlib

  const NUL: Byte := 0
  const SPACE: Byte := 32

  // ----- tokens of a line

  /** The first position from `i` that is not a space. */
  function SkipSpaces(s: seq<Byte>, i: nat): (j: nat)
    requires i <= |s|
    ensures i <= j <= |s| && (j < |s| ==> s[j] != SPACE) && forall k | i <= k < j :: s[k] == SPACE
    decreases |s| - i
  {
    if i < |s| && s[i] == SPACE then SkipSpaces(s, i + 1) else i
  }

  /** The first position from `i` that is a space or the end. */
  function TokenEnd(s: seq<Byte>, i: nat): (j: nat)
    requires i <= |s|
    ensures i <= j <= |s| && (j < |s| ==> s[j] == SPACE) && forall k | i <= k < j :: s[k] != SPACE
    decreases |s| - i
  {
    if i < |s| && s[i] != SPACE then TokenEnd(s, i + 1) else i
  }

  /** The maximal space-free pieces of the line from position `i` on. */
  function Tokens(s: seq<Byte>, i: nat): seq<seq<Byte>>
    requires i <= |s|
    decreases |s| - i
  {
    var j := SkipSpaces(s, i);
    if j == |s| then []
    else
      var e := TokenEnd(s, j);
      [s[j..e]] + Tokens(s, e)
  }

  function TotalLength(tokens: seq<seq<Byte>>): nat {
    if tokens == [] then 0 else |tokens[0]| + TotalLength(tokens[1..])
  }

  lemma {:induction false} TotalSplit(tokens: seq<seq<Byte>>, c: nat)
    requires c < |tokens|
    ensures TotalLength(tokens[..c + 1]) == TotalLength(tokens[..c]) + |tokens[c]|
    ensures TotalLength(tokens[..c + 1]) <= TotalLength(tokens)
  {
    if c == 0 {
      assert tokens[..1][1..] == [];
    } else {
      TotalSplit(tokens[1..], c - 1);
      assert tokens[..c][1..] == tokens[1..][..c - 1] && tokens[..c + 1][1..] == tokens[1..][..c];
    }
  }

  /** Tokens from `i` are the ones already passed and the tokens from where the pass stands. */
  ghost predicate Passed(s: seq<Byte>, from: nat, i: nat, c: nat) {
    from <= |s| && i <= |s| && c <= |Tokens(s, from)| && Tokens(s, i) == Tokens(s, from)[c..]
  }

  lemma PassOne(s: seq<Byte>, from: nat, i: nat, c: nat)
    requires Passed(s, from, i, c)
    ensures var j := SkipSpaces(s, i);
            if j == |s| then c == |Tokens(s, from)|
            else
              && c < |Tokens(s, from)| && Tokens(s, from)[c] == s[j..TokenEnd(s, j)]
              && Passed(s, from, TokenEnd(s, j), c + 1)
  {
    var j := SkipSpaces(s, i);
    if j < |s| {
      var e := TokenEnd(s, j);
      assert Tokens(s, i)[1..] == Tokens(s, e);
    }
  }

  // ----- the loops over the input, which ends in NUL

  ghost predicate Line(input: seq<Byte>, s: seq<Byte>) {
    input == s + [0] && 0 !in s
  }

  lemma AtEnd(input: seq<Byte>, s: seq<Byte>, i: nat)
    requires Line(input, s) && i <= |s|
    ensures input[i] == NUL <==> i == |s|
  {
    assert i < |s| ==> s[i] in s;
  }

  method Skip(input: seq<Byte>, i: nat, ghost s: seq<Byte>) returns (j: nat)
    requires Line(input, s) && i <= |s|
    ensures j == SkipSpaces(s, i)
  {
    j := i;
    while input[j] == SPACE
      invariant j <= |s| && SkipSpaces(s, j) == SkipSpaces(s, i)
      decreases |s| - j
    {
      j := j + 1;
    }
  }

  method Advance(input: seq<Byte>, i: nat, ghost s: seq<Byte>) returns (j: nat)
    requires Line(input, s) && i <= |s|
    ensures j == TokenEnd(s, i)
  {
    j := i;
    while input[j] != SPACE && input[j] != NUL
      invariant j <= |s| && TokenEnd(s, j) == TokenEnd(s, i)
      decreases |s| - j
    {
      assert input[j] == s[j];
      j := j + 1;
    }
  }

  /** The counting pass: how many tokens, and how many characters in all of them. */
  method CountTokens(input: seq<Byte>, from: nat, ghost s: seq<Byte>) returns (count: nat, total: nat)
    requires Line(input, s) && from <= |s|
    ensures count == |Tokens(s, from)| && total == TotalLength(Tokens(s, from))
  {
    count, total := 0, 0;
    var i := from;
    while input[i] != NUL
      invariant Passed(s, from, i, count) && total == TotalLength(Tokens(s, from)[..count])
      decreases |s| - i
    {
      PassOne(s, from, i, count);
      i := Skip(input, i, s);
      if input[i] == NUL {
        assert Tokens(s, from)[..count] == Tokens(s, from);
        return;
      }
      var j := i;
      i := Advance(input, i, s);
      TotalSplit(Tokens(s, from), count);
      count, total := count + 1, total + (i - j);
    }
    AtEnd(input, s, i);
    assert Tokens(s, from)[..count] == Tokens(s, from);
  }

  // ----- the packed argument block

  /** Where string `c` starts: behind the pointers and the strings before it, each with its NUL. */
  ghost function Offset(tokens: seq<seq<Byte>>, c: nat): nat
    requires c <= |tokens|
  {
    WORD_SIZE * |tokens| + TotalLength(tokens[..c]) + c
  }

  ghost predicate StringAt(b: seq<Byte>, at: nat, str: seq<Byte>) {
    at + |str| < |b| && b[at..at + |str|] == str && b[at + |str|] == 0
  }

  /** Pointer `d` names token `d`, stored with its terminator. */
  ghost predicate PackedAt(b: seq<Byte>, tokens: seq<seq<Byte>>, d: nat, base: Word)
    requires d < |tokens| && WORD_SIZE * |tokens| <= |b|
  {
    StringAt(b, Offset(tokens, d), tokens[d]) && WordAt(b, WORD_SIZE * d) == base + Offset(tokens, d)
  }

  /** The first `c` tokens are packed into the memory `b`, which begins at address `base`. */
  ghost predicate Packed(b: seq<Byte>, tokens: seq<seq<Byte>>, c: nat, base: Word) {
    && c <= |tokens| && |b| >= Offset(tokens, |tokens|) && base + |b| < WORD_LIMIT
    && forall d | 0 <= d < c :: PackedAt(b, tokens, d, base)
  }

  lemma NextOffset(tokens: seq<seq<Byte>>, c: nat)
    requires c < |tokens|
    ensures Offset(tokens, c + 1) == Offset(tokens, c) + |tokens[c]| + 1 <= Offset(tokens, |tokens|)
  {
    TotalSplit(tokens, c);
    assert tokens[..|tokens|] == tokens;
  }

  lemma BlockSize(tokens: seq<seq<Byte>>)
    ensures WORD_SIZE * |tokens| <= Offset(tokens, |tokens|)
    ensures forall c | 0 <= c <= |tokens| :: WORD_SIZE * |tokens| <= Offset(tokens, c)
  {}

  /** The strings do not overlap: each ends before the next begins. */
  lemma {:induction false} StringsApart(tokens: seq<seq<Byte>>, c: nat, d: nat)
    requires c < d < |tokens|
    ensures WORD_SIZE * |tokens| <= Offset(tokens, c)
    ensures Offset(tokens, c) + |tokens[c]| < Offset(tokens, d)
  {
    NextOffset(tokens, d - 1);
    if c < d - 1 { StringsApart(tokens, c, d - 1); }
  }

  /** `b'` differs from `b` at most in pointer `c` and behind the first `c` strings. */
  ghost predicate KeepsEarlier(b: seq<Byte>, b': seq<Byte>, tokens: seq<seq<Byte>>, c: nat)
    requires c <= |tokens|
  {
    && |b| == |b'| && WORD_SIZE * |tokens| <= |b|
    && forall k | 0 <= k < |b| && (k < WORD_SIZE * c || WORD_SIZE * |tokens| <= k < Offset(tokens, c)) :: b'[k] == b[k]
  }

  /** Nothing of token `d` lies in what a later turn writes. */
  lemma KeepsPacked(b: seq<Byte>, b': seq<Byte>, tokens: seq<seq<Byte>>, d: nat, c: nat, base: Word)
    requires d < c < |tokens| && KeepsEarlier(b, b', tokens, c) && PackedAt(b, tokens, d, base)
    ensures PackedAt(b', tokens, d, base)
  {
    StringsApart(tokens, d, c);
    hide Offset, WordOf;
    var at := Offset(tokens, d);
    assert b'[at..at + |tokens[d]|] == b[at..at + |tokens[d]|];
  }

  /** Writing pointer `c` and the string behind the others leaves what is there in place. */
  lemma PackOne(b: seq<Byte>, b': seq<Byte>, tokens: seq<seq<Byte>>, c: nat, base: Word)
    requires Packed(b, tokens, c, base) && c < |tokens| && KeepsEarlier(b, b', tokens, c)
    requires PackedAt(b', tokens, c, base)
    ensures Packed(b', tokens, c + 1, base)
  {
    hide PackedAt, Offset;
    forall d | 0 <= d < c ensures PackedAt(b', tokens, d, base) {
      KeepsPacked(b, b', tokens, d, c, base);
    }
  }

  /** `memcpy` between two separate buffers. */
  method CopyIn(block: array<Byte>, at: nat, str: seq<Byte>)
    requires at + |str| <= block.Length
    modifies block
    ensures block[..] == old(block[..at]) + str + old(block[at + |str|..])
  {
    forall k | 0 <= k < |str| {
      block[at + k] := str[k];
    }
  }

  /** One turn of the copying pass. */
  method PackToken(
    block: array<Byte>, base: Word, c: nat, offset: nat, str: seq<Byte>, ghost tokens: seq<seq<Byte>>)
    requires Packed(block[..], tokens, c, base) && c < |tokens| && tokens[c] == str && offset == Offset(tokens, c)
    modifies block
    ensures Packed(block[..], tokens, c + 1, base)
    ensures forall k | Offset(tokens, c + 1) <= k < block.Length :: block[k] == old(block[k])
  {
    hide WordOf, ByteOf, Offset;
    NextOffset(tokens, c);
    BlockSize(tokens);
    ghost var was := block[..];
    StoreWord(block, WORD_SIZE * c, base + offset);
    ghost var pointed := block[..];
    CopyIn(block, offset, str);
    block[offset + |str|] := NUL;
    assert WordAt(block[..], WORD_SIZE * c) == WordAt(pointed, WORD_SIZE * c);
    PackOne(was, block[..], tokens, c, base);
  }

  /** The copying pass over the first `argc` tokens. `block` is the memory from the block's address
      on, as far as the pass may write. */
  method CopyTokens(input: seq<Byte>, from: nat, argc: nat, block: array<Byte>, base: Word, ghost s: seq<Byte>)
    returns (offset: nat)
    requires Line(input, s) && from <= |s| && argc <= |Tokens(s, from)|
    requires Offset(Tokens(s, from)[..argc], argc) <= block.Length && base + block.Length < WORD_LIMIT
    modifies block
    ensures Packed(block[..], Tokens(s, from)[..argc], argc, base) && offset == Offset(Tokens(s, from)[..argc], argc)
    ensures forall k | offset <= k < block.Length :: block[k] == old(block[k])
  {
    hide Packed, Offset;
    ghost var tokens := Tokens(s, from)[..argc];
    PackedNone(block[..], tokens, base);
    offset := WORD_SIZE * argc;
    var i := from;
    for c := 0 to argc
      invariant Passed(s, from, i, c) && Packed(block[..], tokens, c, base) && offset == Offset(tokens, c)
      invariant forall k | offset <= k < block.Length :: block[k] == old(block[k])
    {
      PassOne(s, from, i, c);
      i := Skip(input, i, s);
      if input[i] == NUL {
        // Fewer tokens than were counted: not on any line.
        assert false;
      }
      var j := i;
      i := Advance(input, i, s);
      NextOffset(tokens, c);
      assert input[j..i] == tokens[c];
      PackToken(block, base, c, offset, input[j..i], tokens);
      offset := offset + (i - j) + 1;
    }
  }

  lemma PackedNone(b: seq<Byte>, tokens: seq<seq<Byte>>, base: Word)
    requires Offset(tokens, |tokens|) <= |b| && base + |b| < WORD_LIMIT
    ensures Packed(b, tokens, 0, base) && Offset(tokens, 0) == WORD_SIZE * |tokens|
  {}

  lemma BlockLength(tokens: seq<seq<Byte>>)
    ensures Offset(tokens, |tokens|) == WORD_SIZE * |tokens| + TotalLength(tokens) + |tokens|
  {
    assert tokens[..|tokens|] == tokens;
  }

  // ----- the whole function

  ghost function CommandStart(s: seq<Byte>): (k: nat)
    ensures k <= |s|
  {
    SkipSpaces(s, 0)
  }

  ghost function CommandEnd(s: seq<Byte>): (e: nat)
    ensures CommandStart(s) <= e <= |s|
  {
    TokenEnd(s, CommandStart(s))
  }

  ghost function Arguments(s: seq<Byte>): seq<seq<Byte>> { Tokens(s, CommandEnd(s)) }

  /** As many of the last characters of the command as there are spaces before it. */
  ghost function CommandTail(s: seq<Byte>): seq<Byte> {
    var k, e := CommandStart(s), CommandEnd(s);
    s[if e - k < k then k else e - k..e]
  }

  /** The copying pass starts at the length of the command instead of its end. After leading spaces
      it therefore meets the tail of the command first. */
  lemma CopyStart(s: seq<Byte>)
    requires CommandEnd(s) < |s|
    ensures Tokens(s, CommandEnd(s) - CommandStart(s)) ==
            if CommandStart(s) == 0 then Arguments(s) else [CommandTail(s)] + Arguments(s)
  {
    hide SkipSpaces, TokenEnd, Tokens;
    if CommandStart(s) > 0 { CopyPoint(s); }
  }

  lemma CommandShape(s: seq<Byte>)
    requires CommandEnd(s) < |s|
    ensures CommandStart(s) < CommandEnd(s) && s[CommandEnd(s)] == SPACE
    ensures (forall i | 0 <= i < CommandStart(s) :: s[i] == SPACE)
    ensures (forall i | CommandStart(s) <= i < CommandEnd(s) :: s[i] != SPACE)
  {}

  lemma CopyPoint(s: seq<Byte>)
    requires 0 < CommandStart(s) && CommandEnd(s) < |s|
    ensures var k, e := CommandStart(s), CommandEnd(s);
            Tokens(s, e - k) == [CommandTail(s)] + Tokens(s, e)
  {
    hide CommandStart, CommandEnd, Tokens;
    CommandShape(s);
    var k, e := CommandStart(s), CommandEnd(s);
    OneToken(s, e - k, if e - k < k then k else e - k, e);
  }

  lemma OneToken(s: seq<Byte>, i: nat, from: nat, e: nat)
    requires i <= from < e <= |s| && (e < |s| ==> s[e] == SPACE)
    requires (forall k | i <= k < from :: s[k] == SPACE) && (forall k | from <= k < e :: s[k] != SPACE)
    ensures Tokens(s, i) == [s[from..e]] + Tokens(s, e)
  {
    Lands(s, i, from, e);
  }

  lemma Lands(s: seq<Byte>, i: nat, from: nat, e: nat)
    requires i <= from < e <= |s| && (e < |s| ==> s[e] == SPACE)
    requires (forall k | i <= k < from :: s[k] == SPACE) && (forall k | from <= k < e :: s[k] != SPACE)
    ensures SkipSpaces(s, i) == from && TokenEnd(s, from) == e
  {
    hide SkipSpaces, TokenEnd;
    var j := SkipSpaces(s, i);
    assert (j < |s| ==> s[j] != SPACE) && s[from] != SPACE;
    var e' := TokenEnd(s, from);
    assert (e' < |s| ==> s[e'] == SPACE) && (e < |s| ==> s[e] == SPACE);
  }

  // ----- what a line is written from

  ghost function Spaces(n: nat): (r: seq<Byte>)
    ensures |r| == n && forall k | 0 <= k < n :: r[k] == 32
  {
    seq(n, _ => 32)
  }

  /** The words with `gaps[i]` spaces before word `i`, and the last gap behind them all. */
  ghost function Spaced(words: seq<seq<Byte>>, gaps: seq<nat>): seq<Byte>
    requires |gaps| == |words| + 1
  {
    if words == [] then Spaces(gaps[0]) else Spaces(gaps[0]) + words[0] + Spaced(words[1..], gaps[1..])
  }

  /** No word is empty or has a space in it, and words are apart. */
  ghost predicate WellSpaced(words: seq<seq<Byte>>, gaps: seq<nat>) {
    && |gaps| == |words| + 1
    && (forall w | w in words :: w != [] && 32 !in w)
    && (forall i | 0 < i < |words| :: 0 < gaps[i])
  }

  /** The tokens of a line are the words it was written from, whatever spaces are between them. */
  lemma {:induction false} TokensAreWords(before: seq<Byte>, words: seq<seq<Byte>>, gaps: seq<nat>)
    requires WellSpaced(words, gaps)
    ensures Tokens(before + Spaced(words, gaps), |before|) == words
    decreases |words|
  {
    hide SkipSpaces, TokenEnd, Tokens;
    var s := before + Spaced(words, gaps);
    if words == [] {
      NoTokens(s, |before|);
    } else {
      var w, next := words[0], before + Spaces(gaps[0]) + words[0];
      assert s == next + Spaced(words[1..], gaps[1..]);
      WordThenSpace(next, words[1..], gaps[1..]);
      assert w in words;
      var from := |before| + gaps[0];
      assert s[from..|next|] == w;
      forall k | from <= k < |next| ensures s[k] != SPACE { assert s[k] == w[k - from]; }
      OneToken(s, |before|, from, |next|);
      assert forall x | x in words[1..] :: x in words;
      TokensAreWords(next, words[1..], gaps[1..]);
    }
  }

  /** Behind a word comes a space or the end of the line. */
  lemma WordThenSpace(next: seq<Byte>, rest: seq<seq<Byte>>, gaps: seq<nat>)
    requires |gaps| == |rest| + 1 && (rest != [] ==> 0 < gaps[0])
    ensures var s := next + Spaced(rest, gaps);
            |next| < |s| ==> s[|next|] == SPACE
  {}

  lemma NoTokens(s: seq<Byte>, i: nat)
    requires i <= |s| && forall k | i <= k < |s| :: s[k] == SPACE
    ensures Tokens(s, i) == []
  {
    assert SkipSpaces(s, i) == |s|;
  }

  lemma WordInFront(w: seq<Byte>, words: seq<seq<Byte>>, gap: nat, gaps: seq<nat>)
    requires WellSpaced(words, gaps) && w != [] && 32 !in w && (words != [] ==> 0 < gaps[0])
    ensures WellSpaced([w] + words, [gap] + gaps)
    ensures Spaced([w] + words, [gap] + gaps) == Spaces(gap) + w + Spaced(words, gaps)
  {
    assert ([w] + words)[1..] == words && ([gap] + gaps)[1..] == gaps;
  }

  /** From `i` on come spaces up to `j`, and then the end of the line or the token up to `e`. */
  lemma NextPiece(s: seq<Byte>, i: nat) returns (j: nat, e: nat)
    requires i <= |s|
    ensures i <= j <= e <= |s| && s[i..j] == Spaces(j - i) && (i < j <==> i < |s| && s[i] == 32)
    ensures j == |s| ==> Tokens(s, i) == []
    ensures j < |s| ==> j < e && 32 !in s[j..e] && Tokens(s, i) == [s[j..e]] + Tokens(s, e)
    ensures e < |s| ==> s[e] == 32
  {
    j := SkipSpaces(s, i);
    e := TokenEnd(s, j);
  }

  lemma NoWords(gap: nat)
    ensures WellSpaced([], [gap]) && Spaced([], [gap]) == Spaces(gap)
  {}

  /** Every line is written from its tokens, with some spaces between them. */
  lemma {:induction false} WordsOf(s: seq<Byte>, i: nat) returns (gaps: seq<nat>)
    requires i <= |s|
    ensures WellSpaced(Tokens(s, i), gaps) && s[i..] == Spaced(Tokens(s, i), gaps)
    ensures Tokens(s, i) != [] && s[i] == SPACE ==> 0 < gaps[0]
    decreases |s| - i
  {
    hide Tokens, WellSpaced, Spaced, Spaces;
    var j, e := NextPiece(s, i);
    if j == |s| {
      gaps := [j - i];
      NoWords(j - i);
      assert s[i..] == s[i..j];
    } else {
      TokensLeft(s, e);
      var rest := WordsOf(s, e);
      gaps := [j - i] + rest;
      WordInFront(s[j..e], Tokens(s, e), j - i, rest);
      Cut(s, i, j, e);
    }
  }

  lemma Cut(s: seq<Byte>, i: nat, j: nat, e: nat)
    requires i <= j <= e <= |s|
    ensures s[i..] == s[i..j] + s[j..e] + s[e..]
  {}

  lemma TokensLeft(s: seq<Byte>, i: nat)
    requires i <= |s|
    ensures Tokens(s, i) != [] ==> i < |s|
  {}

  /** The command and the arguments of a line are the words it was written from. */
  lemma LineIsRead(command: seq<Byte>, args: seq<seq<Byte>>, gaps: seq<nat>)
    requires WellSpaced([command] + args, gaps)
    ensures var s := Spaced([command] + args, gaps);
            && CommandStart(s) == gaps[0] && s[CommandStart(s)..CommandEnd(s)] == command
            && Arguments(s) == args
  {
    hide SkipSpaces, TokenEnd, Tokens;
    var words := [command] + args;
    var s := Spaced(words, gaps);
    assert words[0] == command && words[1..] == args && command in words;
    var next := Spaces(gaps[0]) + command;
    assert s == next + Spaced(args, gaps[1..]);
    WordThenSpace(next, args, gaps[1..]);
    forall k | gaps[0] <= k < |next| ensures s[k] != SPACE { assert s[k] == command[k - gaps[0]]; }
    Lands(s, 0, gaps[0], |next|);
    assert forall x | x in args :: x in words;
    TokensAreWords(next, args, gaps[1..]);
  }

  /** What the copying pass stores: as many tokens as there are arguments. */
  ghost function Stored(s: seq<Byte>): (stored: seq<seq<Byte>>)
    requires CommandEnd(s) < |s|
    ensures |stored| == |Arguments(s)|
  {
    CopyStart(s);
    Tokens(s, CommandEnd(s) - CommandStart(s))[..|Arguments(s)|]
  }

  /** `pars_input`. `kmalloc` gives the arguments `size` bytes at address `base`; `memory` is what
      lies there and behind, as far as the pass writes, which ends at `end`. With nothing after the
      command the arguments are left as they were. */
  method ParsInput(input: seq<Byte>, memory: array<Byte>, base: Word, ghost s: seq<Byte>)
    returns (command: array<Byte>, hasArgs: bool, argc: nat, size: nat, end: nat)
    requires Line(input, s) && base + memory.Length < WORD_LIMIT
    requires CommandEnd(s) < |s| ==> Offset(Stored(s), |Stored(s)|) <= memory.Length
    modifies memory
    ensures fresh(command) && command[..] == s[CommandStart(s)..CommandEnd(s)] + [0]
    ensures hasArgs <==> CommandEnd(s) < |s|
    ensures !hasArgs ==> argc == 0 && size == 0 && end == 0
    ensures hasArgs ==>
              && argc == |Arguments(s)| && size == Offset(Arguments(s), argc)
              && Packed(memory[..], Stored(s), argc, base) && end == Offset(Stored(s), argc)
    ensures forall k | end <= k < memory.Length :: memory[k] == old(memory[k])
  {
    hide Packed, Offset, Tokens, TokenEnd, SkipSpaces, TotalLength;
    var start := Skip(input, 0, s);
    var i := Advance(input, start, s);
    var length := i - start;
    command := new Byte[length + 1];
    CopyIn(command, 0, input[start..i]);
    command[length] := NUL;
    argc, size, end := 0, 0, 0;
    assert input[start..i] == s[start..i];
    if input[i] == NUL {
      AtEnd(input, s, i);
      return command, false, argc, size, end;
    }
    var total: nat;
    argc, total := CountTokens(input, i, s);
    BlockLength(Tokens(s, i));
    size := WORD_SIZE * argc + total + argc;
    CopyStart(s);
    end := CopyTokens(input, length, argc, memory, base, s);
    hasArgs := true;
  }

  // ----- what the caller reads

  /** The string that pointer `d` names is token `d`. */
  ghost predicate ReadsAs(b: seq<Byte>, tokens: seq<seq<Byte>>, d: nat, base: Word)
    requires d < |tokens|
  {
    && WORD_SIZE * (d + 1) <= |b|
    && var at := WordAt(b, WORD_SIZE * d) - base;
      0 <= at && StringAt(b, at, tokens[d])
  }

  /** Only one string without NUL ends at the first NUL from a place on. */
  lemma OneString(b: seq<Byte>, at: nat, x: seq<Byte>, y: seq<Byte>)
    requires StringAt(b, at, x) && StringAt(b, at, y) && NUL !in x && NUL !in y
    ensures x == y
  {
    LongerHasNul(b, at, x, y);
    LongerHasNul(b, at, y, x);
    assert x == b[at..at + |x|] && y == b[at..at + |y|];
  }

  lemma LongerHasNul(b: seq<Byte>, at: nat, x: seq<Byte>, y: seq<Byte>)
    requires StringAt(b, at, x) && StringAt(b, at, y)
    ensures |x| < |y| ==> NUL in y
  {
    if |x| < |y| {
      assert b[at..at + |y|][|x|] == NUL;
    }
  }

  lemma {:induction false} NoNul(s: seq<Byte>, i: nat, d: nat)
    requires i <= |s| && NUL !in s && d < |Tokens(s, i)|
    ensures NUL !in Tokens(s, i)[d]
    decreases d
  {
    if d > 0 { NoNul(s, TokenEnd(s, SkipSpaces(s, i)), d - 1); }
  }

  lemma {:induction false} ShiftConstant(x: seq<Byte>, a: seq<seq<Byte>>, c: nat)
    requires ([x] + a)[..|a|] == a && c < |a|
    ensures a[c] == x
  {
    if c > 0 {
      ShiftConstant(x, a, c - 1);
      assert a[c] == ([x] + a)[..|a|][c] == a[c - 1];
    } else {
      assert a[0] == ([x] + a)[..|a|][0];
    }
  }

  /** The tokens stored are the arguments exactly when no space leads, or every argument happens to
      be the tail of the command. */
  lemma StoredRight(s: seq<Byte>)
    requires CommandEnd(s) < |s|
    ensures Stored(s) == Arguments(s) <==>
            CommandStart(s) == 0 || forall c | 0 <= c < |Arguments(s)| :: Arguments(s)[c] == CommandTail(s)
  {
    hide Tokens, Arguments, CommandEnd, CommandStart, CommandTail;
    CopyStart(s);
    var part, args := CommandTail(s), Arguments(s);
    if CommandStart(s) > 0 && Stored(s) == args {
      forall c | 0 <= c < |args| ensures args[c] == part { ShiftConstant(part, args, c); }
    }
  }

  /** After `ParsInput` every pointer names the right argument exactly when no space leads, or every
      argument happens to be the tail of the command. */
  lemma ArgumentsRight(s: seq<Byte>, b: seq<Byte>, base: Word)
    requires CommandEnd(s) < |s| && NUL !in s && Packed(b, Stored(s), |Stored(s)|, base)
    ensures (forall d | 0 <= d < |Arguments(s)| :: ReadsAs(b, Arguments(s), d, base)) <==>
            CommandStart(s) == 0 || forall c | 0 <= c < |Arguments(s)| :: Arguments(s)[c] == CommandTail(s)
  {
    hide Tokens, CommandEnd, CommandStart, CommandTail, Offset, WordOf;
    var args, stored := Arguments(s), Stored(s);
    forall d | 0 <= d < |args| ensures ReadsAs(b, args, d, base) <==> args[d] == stored[d] {
      StoredAt(s, b, base, d);
    }
    assert (forall d | 0 <= d < |args| :: args[d] == stored[d]) <==> args == stored;
    StoredRight(s);
  }

  lemma StoredAt(s: seq<Byte>, b: seq<Byte>, base: Word, d: nat)
    requires CommandEnd(s) < |s| && NUL !in s && Packed(b, Stored(s), |Stored(s)|, base) && d < |Stored(s)|
    ensures ReadsAs(b, Arguments(s), d, base) <==> Arguments(s)[d] == Stored(s)[d]
  {
    hide Tokens, CommandEnd, CommandStart, Offset, WordOf, StringAt;
    BlockSize(Stored(s));
    assert PackedAt(b, Stored(s), d, base);
    CopyStart(s);
    NoNul(s, CommandEnd(s), d);
    NoNul(s, CommandEnd(s) - CommandStart(s), d);
    if ReadsAs(b, Arguments(s), d, base) {
      OneString(b, Offset(Stored(s), d), Arguments(s)[d], Stored(s)[d]);
    }
  }

  /** After leading spaces the pass ends as far behind the block, or before its end, as the tail of
      the command is longer, or shorter, than the last argument. */
  lemma BlockOverrun(s: seq<Byte>)
    requires CommandEnd(s) < |s| && Arguments(s) != []
    ensures var n, args := |Arguments(s)|, Arguments(s);
            && Offset(Stored(s), n) - Offset(args, n) ==
               (if CommandStart(s) == 0 then 0 else |CommandTail(s)| - |args[n - 1]|)
            && (Offset(Stored(s), n) > Offset(args, n) <==>
                CommandStart(s) > 0 && |CommandTail(s)| > |args[n - 1]|)
  {
    hide Tokens, CommandEnd, CommandTail;
    CopyStart(s);
    var n, args := |Arguments(s)|, Arguments(s);
    if CommandStart(s) > 0 {
      var all := [CommandTail(s)] + args;
      TotalSplit(all, n);
      assert all[..n + 1] == all && all[1..] == args && args[..n] == args && Stored(s)[..n] == all[..n];
    } else {
      assert Stored(s) == args;
    }
  }

  /** The line `     help a`: one argument in a block of 6 bytes, and the pass writes 9. */
  lemma OverrunExample()
    ensures var s: seq<Byte> := [32, 32, 32, 32, 32, 104, 101, 108, 112, 32, 97];
            && CommandEnd(s) == 9 && Arguments(s) == [[97]] && Stored(s) == [[104, 101, 108, 112]]
            && Offset(Arguments(s), 1) == 6 && Offset(Stored(s), 1) == 9
  {
    var s: seq<Byte> := [32, 32, 32, 32, 32, 104, 101, 108, 112, 32, 97];
    assert SkipSpaces(s, 0) == 5;
    assert TokenEnd(s, 5) == 9;
    assert Tokens(s, 9) == [s[10..11]] + Tokens(s, 11);
    assert s[10..11] == [97] && s[5..9] == [104, 101, 108, 112];
    CopyStart(s);
    assert Stored(s) == [CommandTail(s)];
    TotalOne([97]);
    TotalOne([104, 101, 108, 112]);
  }

  lemma TotalOne(token: seq<Byte>)
    ensures Offset([token], 1) == WORD_SIZE + |token| + 1
  {
    assert [token][..1] == [token] && [token][1..] == [];
    assert TotalLength([]) == 0;
  }
}
