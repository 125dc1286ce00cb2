/**
 * drivers/keyboard.cpp: the line editor that the keyboard interrupt fills and the main loop empties,
 * without a lock between them.
 */
module Keyboard {

  const CAPACITY := 256
  const ENTER := '\n'
  const BACKSPACE := 8 as char
  const NUL := '\0'

  /** The first 58 entries of scancode_to_ascii: scancode set 1, US layout. */
  const LAYOUT: string :=
    [NUL, 27 as char] + "1234567890-=" + [BACKSPACE]
    + "\tqwertyuiop[]\n" + [NUL]
    + "asdfghjkl;'`" + [NUL]
    + "\\zxcvbnm,./" + [NUL]
    + "*" + [NUL] + " "

  /** scancode_to_ascii; every other entry but the keypad's '-' and '+' is 0. */
  function Ascii(scancode: nat): char
    requires scancode < 128
  {
    if scancode < |LAYOUT| then LAYOUT[scancode]
    else if scancode == 74 then '-'
    else if scancode == 78 then '+'
    else NUL
  }

  /** The keys row by row, by scancode; no other key has a character. */
  lemma ScancodeTable(c: nat)
    requires c < 128
    ensures Ascii(c) ==
            if c == 1 then 27 as char
            else if 2 <= c < 14 then "1234567890-="[c - 2]
            else if c == 14 then 8 as char
            else if c == 15 then '\t'
            else if 16 <= c < 28 then "qwertyuiop[]"[c - 16]
            else if c == 28 then '\n'
            else if 30 <= c < 42 then "asdfghjkl;'`"[c - 30]
            else if 43 <= c < 54 then "\\zxcvbnm,./"[c - 43]
            else if c == 55 then '*'
            else if c == 57 then ' '
            else if c == 74 then '-'
            else if c == 78 then '+'
            else '\0'
  {
  }

  // ---------------------------------------------------------------- the edit-fold

  /** One key of a line that is not finished. */
  function Edit(line: seq<char>, key: char): seq<char> {
    if key == BACKSPACE then
      if line == [] then line else line[..|line| - 1]
    else if key == NUL || key == ENTER || |line| >= CAPACITY - 1 then
      line
    else
      line + [key]
  }

  function Fold(keys: seq<char>): seq<char> {
    if keys == [] then [] else Edit(Fold(keys[..|keys| - 1]), keys[|keys| - 1])
  }

  function BeforeEnter(keys: seq<char>): seq<char> {
    if keys == [] || keys[0] == ENTER then [] else [keys[0]] + BeforeEnter(keys[1..])
  }

  function AfterEnter(keys: seq<char>): seq<char> {
    if keys == [] then [] else if keys[0] == ENTER then keys[1..] else AfterEnter(keys[1..])
  }

  /** What the keys say up to the first Enter. */
  function Line(keys: seq<char>): seq<char> {
    Fold(BeforeEnter(keys))
  }

  lemma {:induction false} OneKeyMore(keys: seq<char>, key: char)
    ensures BeforeEnter(keys + [key])
            == if ENTER in keys || key == ENTER then BeforeEnter(keys) else BeforeEnter(keys) + [key]
    ensures AfterEnter(keys + [key]) == if ENTER in keys then AfterEnter(keys) + [key] else []
  {
    if keys == [] {
      assert (keys + [key])[1..] == [];
    } else {
      assert (keys + [key])[1..] == keys[1..] + [key];
      if keys[0] != ENTER {
        OneKeyMore(keys[1..], key);
      }
    }
  }

  /** The line as it grows; after Enter it is settled. */
  lemma LineGrows(keys: seq<char>, key: char)
    ensures Line(keys + [key]) == if ENTER in keys || key == ENTER then Line(keys) else Edit(Line(keys), key)
  {
    OneKeyMore(keys, key);
    var before := BeforeEnter(keys);
    assert (before + [key])[..|before|] == before;
  }

  /**
   * One key more, case by case: Enter settles the line, a backspace takes the last character away, a key
   * without a character does nothing, any other key adds its character while there are fewer than 255.
   */
  lemma LineAfterKey(keys: seq<char>, key: char)
    ensures Line([]) == []
    ensures ENTER in keys || key == '\n' || key == '\0' ==> Line(keys + [key]) == Line(keys)
    ensures ENTER !in keys && key == 8 as char ==>
              Line(keys + [key]) == Line(keys)[..if |Line(keys)| > 0 then |Line(keys)| - 1 else 0]
    ensures ENTER !in keys && key != '\n' && key != '\0' && key != 8 as char ==>
              Line(keys + [key]) == if |Line(keys)| < 255 then Line(keys) + [key] else Line(keys)
  {
    LineGrows(keys, key);
  }

  /** Exactly which keys leave the line as it is. */
  lemma LineUnchangedIff(keys: seq<char>, key: char)
    ensures Line(keys + [key]) == Line(keys) <==>
            || '\n' in keys || key == '\n' || key == '\0'
            || (key == 8 as char && Line(keys) == [])
            || (key != 8 as char && |Line(keys)| >= 255)
  {
    LineGrows(keys, key);
  }

  /** The keys that have a character */
  function Characters(keys: seq<char>): seq<char> {
    if keys == [] then [] else (if keys[0] == NUL then [] else [keys[0]]) + Characters(keys[1..])
  }

  lemma {:induction false} CharactersAppend(a: seq<char>, b: seq<char>)
    ensures Characters(a + b) == Characters(a) + Characters(b)
  {
    if a == [] {
      assert a + b == b;
    } else {
      assert (a + b)[1..] == a[1..] + b;
      CharactersAppend(a[1..], b);
    }
  }

  lemma {:induction false} FoldOfCharacters(keys: seq<char>)
    ensures Fold(Characters(keys)) == Fold(keys)
  {
    if keys != [] {
      var front, key := keys[..|keys| - 1], keys[|keys| - 1];
      FoldOfCharacters(front);
      assert keys == front + [key];
      CharactersAppend(front, [key]);
      assert [key][1..] == [];
      if key != NUL {
        assert Characters(keys) == Characters(front) + [key];
        assert (Characters(front) + [key])[..|Characters(front)|] == Characters(front);
      } else {
        assert Characters(keys) == Characters(front);
      }
    }
  }

  /** The keys up to the first Enter, and behind it */
  lemma {:induction false} SplitAtEnter(keys: seq<char>)
    ensures ENTER !in BeforeEnter(keys)
    ensures if ENTER in keys then keys == BeforeEnter(keys) + [ENTER] + AfterEnter(keys)
            else BeforeEnter(keys) == keys && AfterEnter(keys) == []
  {
    if keys == [] {
    } else {
      assert keys == [keys[0]] + keys[1..];
      if keys[0] != ENTER {
        var rest := keys[1..];
        SplitAtEnter(rest);
        assert BeforeEnter(keys) == [keys[0]] + BeforeEnter(rest) && AfterEnter(keys) == AfterEnter(rest);
        hide BeforeEnter, AfterEnter;
        assert ENTER in keys <==> ENTER in rest;
      }
    }
  }

  lemma {:induction false} EnterOfCharacters(keys: seq<char>)
    ensures BeforeEnter(Characters(keys)) == Characters(BeforeEnter(keys))
    ensures AfterEnter(Characters(keys)) == Characters(AfterEnter(keys))
  {
    if keys != [] {
      var rest := keys[1..];
      EnterOfCharacters(rest);
      assert keys[0] != NUL ==> Characters(keys) == [keys[0]] + Characters(rest) && Characters(keys)[1..] == Characters(rest);
      assert keys[0] == NUL ==> Characters(keys) == Characters(rest);
      if keys[0] != ENTER {
        var before := [keys[0]] + BeforeEnter(rest);
        assert BeforeEnter(keys) == before && before[1..] == BeforeEnter(rest);
        assert Characters(before) == (if keys[0] == NUL then [] else [keys[0]]) + Characters(BeforeEnter(rest));
      }
    }
  }

  /** Keys without a character, such as Shift, might as well not have been pressed. */
  lemma SilentKeys(keys: seq<char>)
    ensures Line(Characters(keys)) == Line(keys) && Left(Characters(keys)) == Left(keys)
  {
    EnterOfCharacters(keys);
    FoldOfCharacters(BeforeEnter(keys));
    BackspacesOfCharacters(AfterEnter(keys));
  }

  /** A line fits the buffer with its terminator, and holds no NUL, Enter or backspace. */
  lemma {:induction false} LineIsText(keys: seq<char>)
    ensures |Fold(keys)| < 256
    ensures NUL !in Fold(keys) && ENTER !in Fold(keys) && BACKSPACE !in Fold(keys)
  {
    if keys != [] {
      LineIsText(keys[..|keys| - 1]);
    }
  }

  predicate Printable(key: char) {
    key != NUL && key != ENTER && key != BACKSPACE
  }

  /** Plain typing is taken as it is, up to 255 characters; the rest is dropped. */
  lemma {:induction false} TypedTextIsKept(keys: seq<char>)
    requires forall key <- keys :: Printable(key)
    ensures Fold(keys) == keys[..if |keys| < 256 then |keys| else 255]
  {
    if keys != [] {
      assert keys[|keys| - 1] in keys;
      TypedTextIsKept(keys[..|keys| - 1]);
    }
  }

  /** A backspace undoes a character exactly when there was room for it. */
  lemma BackspaceUndoesIff(keys: seq<char>, key: char)
    requires Printable(key)
    ensures Fold(keys + [key, BACKSPACE]) == Fold(keys) <==> |Fold(keys)| < 255
  {
    hide Fold;
    LineIsText(keys);
    FoldAppend(keys, key);
    FoldAppend(keys + [key], BACKSPACE);
    assert keys + [key] + [BACKSPACE] == keys + [key, BACKSPACE];
    var line := Fold(keys);
    assert (line + [key])[..|line|] == line;
  }

  lemma FoldAppend(keys: seq<char>, key: char)
    ensures Fold(keys + [key]) == Edit(Fold(keys), key)
  {
    assert (keys + [key])[..|keys|] == keys;
  }

  lemma NothingTyped()
    ensures Line([]) == []
  {
  }

  // ---------------------------------------------------------------- the line after Enter

  function Backspaces(keys: seq<char>): nat {
    if keys == [] then 0 else Backspaces(keys[..|keys| - 1]) + if keys[|keys| - 1] == BACKSPACE then 1 else 0
  }

  /** Each backspace counts once. */
  lemma {:induction false} BackspacesCount(keys: seq<char>)
    ensures Backspaces(keys) == multiset(keys)[8 as char]
  {
    if keys != [] {
      BackspacesCount(keys[..|keys| - 1]);
      assert keys == keys[..|keys| - 1] + [keys[|keys| - 1]];
    }
  }

  lemma {:induction false} BackspacesOfCharacters(keys: seq<char>)
    ensures Backspaces(Characters(keys)) == Backspaces(keys)
  {
    if keys != [] {
      var front, key := keys[..|keys| - 1], keys[|keys| - 1];
      BackspacesOfCharacters(front);
      assert keys == front + [key];
      CharactersAppend(front, [key]);
      assert [key][1..] == [];
      if key != NUL {
        assert (Characters(front) + [key])[..|Characters(front)|] == Characters(front);
      } else {
        assert Characters(keys) == Characters(front);
      }
    }
  }

  /** How much of the line a consumer would find: every backspace after Enter still takes a character away. */
  function Left(keys: seq<char>): nat {
    var n, b := |Line(keys)|, Backspaces(AfterEnter(keys));
    if n > b then n - b else 0
  }

  /** How many of n characters fit a buffer of `size`, with the terminator. */
  function Fitting(n: nat, size: int): nat {
    if n < size then n else if size > 0 then size - 1 else 0
  }

  /** As many characters as possible, with a terminator behind them */
  lemma FittingIsMost(n: nat, size: int, k: nat)
    ensures Fitting(n, size) <= n && (Fitting(n, size) < size || Fitting(n, size) == 0)
    ensures k <= n && k < size ==> k <= Fitting(n, size)
  {
  }

  /** One key more takes a character away exactly if it is a backspace and Enter was pressed before. */
  lemma LeftAfterKey(keys: seq<char>, key: char)
    ensures ENTER in keys ==> Left(keys + [key]) == if key == BACKSPACE && Left(keys) > 0 then Left(keys) - 1 else Left(keys)
    ensures ENTER !in keys ==> Left(keys + [key]) == |Line(keys + [key])|
  {
    OneKeyMore(keys, key);
    LineGrows(keys, key);
    var after := AfterEnter(keys);
    assert (after + [key])[..|after|] == after;
  }

  lemma {:induction false} NoBackspaces(keys: seq<char>)
    ensures Backspaces(keys) == 0 <==> BACKSPACE !in keys
  {
    if keys != [] {
      NoBackspaces(keys[..|keys| - 1]);
      assert keys == keys[..|keys| - 1] + [keys[|keys| - 1]];
    }
  }

  /** The whole line is there exactly if it is empty or no backspace followed Enter. */
  lemma WholeLineIff(keys: seq<char>)
    ensures Left(keys) == |Line(keys)| <==> Line(keys) == [] || BACKSPACE !in AfterEnter(keys)
  {
    NoBackspaces(AfterEnter(keys));
  }

  // ---------------------------------------------------------------- driver state

  class LineEditor {
    const keyBuffer: array<char>
    var bufferPos: nat
    var lineReady: bool
    /** The keys pressed since the last line was delivered. */
    ghost var keys: seq<char>

    ghost predicate Valid()
      reads this, keyBuffer
    {
      var line := Line(keys);
      && keyBuffer.Length == CAPACITY && |line| < CAPACITY
      && keyBuffer[..|line|] == line
      && bufferPos <= |line|
      && lineReady == (ENTER in keys)
      && (!lineReady ==> bufferPos == |line|)
    }

    /** A line that waits to be read is as long as the keys say. */
    ghost predicate Exact()
      reads this
    {
      lineReady ==> bufferPos == Left(keys)
    }

    /** init_keyboard */
    constructor ()
      ensures Valid() && Exact() && keys == [] && fresh(keyBuffer)
    {
      keyBuffer := new char[CAPACITY];
      bufferPos := 0;
      lineReady := false;
      keys := [];
    }

    /** keyboard_handler; only a press, a scancode below 128, is a key. */
    method Handler(scancode: nat)
      requires Valid() && scancode < 0x100
      modifies this`bufferPos, this`lineReady, this`keys, keyBuffer
      ensures Valid() && (old(Exact()) ==> Exact())
      ensures keys == if scancode < 128 then old(keys) + [Ascii(scancode)] else old(keys)
      ensures old(lineReady) ==> lineReady && keyBuffer[..] == old(keyBuffer[..]) && bufferPos <= old(bufferPos)
    {
      if scancode < 128 {
        var ascii := Ascii(scancode);
        OneKeyMore(keys, ascii);
        LineGrows(keys, ascii);
        LeftAfterKey(keys, ascii);
        keys := keys + [ascii];
        if ascii == ENTER {
          lineReady := true;
        } else if ascii == BACKSPACE {
          if bufferPos > 0 {
            bufferPos := bufferPos - 1;
          }
        } else if ascii != NUL {
          if bufferPos < CAPACITY - 1 && !lineReady {
            keyBuffer[bufferPos] := ascii;
            bufferPos := bufferPos + 1;
          }
        }
      }
    }

    /** Any number of keyboard interrupts, with any scancodes. */
    method Interrupts()
      requires Valid()
      modifies this`bufferPos, this`lineReady, this`keys, keyBuffer
      ensures Valid() && (old(Exact()) ==> Exact())
      ensures old(keys) <= keys
      ensures old(lineReady) ==>
                && lineReady && Line(keys) == old(Line(keys)) && AfterEnter(old(keys)) <= AfterEnter(keys)
                && keyBuffer[..] == old(keyBuffer[..]) && bufferPos <= old(bufferPos)
    {
      var n: nat :| true;
      for i := 0 to n
        invariant Valid() && (old(Exact()) ==> Exact())
        invariant old(keys) <= keys
        invariant old(lineReady) ==>
                    && lineReady && Line(keys) == old(Line(keys)) && AfterEnter(old(keys)) <= AfterEnter(keys)
                    && keyBuffer[..] == old(keyBuffer[..]) && bufferPos <= old(bufferPos)
      {
        var scancode: nat :| scancode < 0x100;
        if scancode < 128 {
          LineGrows(keys, Ascii(scancode));
          OneKeyMore(keys, Ascii(scancode));
        }
        Handler(scancode);
      }
    }

    /**
     * get_input_buffer, with interrupts between all of its steps. The keys up to the check of line_ready
     * are `before`, those up to the end of the copy `after`, those up to the end of the call `seen`; `length`
     * is the length of what is delivered. It lies between what was left of the line at the two times: without
     * a backspace between them it is exactly that.
     */
    method GetInputBuffer(buffer: array<char>, maxSize: int)
      returns (ready: bool, ghost before: seq<char>, ghost after: seq<char>, ghost seen: seq<char>, ghost length: nat)
      requires Valid() && Exact() && buffer != keyBuffer && buffer.Length > 0 && maxSize <= buffer.Length
      modifies this`bufferPos, this`lineReady, this`keys, keyBuffer, buffer
      ensures Valid() && Exact()
      ensures old(keys) <= before <= after <= seen && ready == (ENTER in seen) == (ENTER in before)
      ensures !ready ==> buffer[..] == old(buffer[..]) && keys == seen
      ensures ready ==>
                && Line(before) == Line(seen) && AfterEnter(before) <= AfterEnter(after) <= AfterEnter(seen)
                && Fitting(Left(after), maxSize) <= length <= Fitting(Left(before), maxSize)
                && length <= |Line(seen)| && length < buffer.Length
                && buffer[..length] == Line(seen)[..length] && buffer[length] == NUL
                && buffer[length + 1..] == old(buffer[..])[length + 1..]
      ensures ready ==> keys == [] && bufferPos == 0 && !lineReady
      ensures old(lineReady) ==> Line(before) == old(Line(keys)) && Left(before) <= old(Left(keys))
    {
      hide Line, AfterEnter, Left;
      NothingTyped();
      Interrupts();
      ready, before := lineReady, keys;
      if !ready {
        return false, keys, keys, keys, 0;
      }
      var i := CopyLine(buffer, maxSize);
      after := keys;
      buffer[i] := NUL;
      length := i;
      Interrupts();
      // From here on a backspace finds nothing to remove, and any other key finds the line ready.
      bufferPos := 0;
      Interrupts();
      lineReady := false;
      seen := keys;
      keys := [];
    }

    /** The copy loop of get_input_buffer: the buffer is fixed by now, but the line may still get shorter. */
    method CopyLine(buffer: array<char>, maxSize: int) returns (i: nat)
      requires Valid() && Exact() && lineReady && buffer != keyBuffer && buffer.Length > 0 && maxSize <= buffer.Length
      modifies this`bufferPos, this`lineReady, this`keys, keyBuffer, buffer
      ensures Valid() && Exact() && lineReady && Line(keys) == old(Line(keys))
      ensures old(keys) <= keys && AfterEnter(old(keys)) <= AfterEnter(keys)
      ensures Fitting(Left(keys), maxSize) <= i <= Fitting(old(Left(keys)), maxSize)
      ensures i <= |Line(keys)| && i < buffer.Length
      ensures buffer[..i] == Line(keys)[..i] && buffer[i..] == old(buffer[i..])
    {
      hide Line, AfterEnter, Left;
      i := 0;
      Interrupts();
      while i < bufferPos && i < maxSize - 1
        invariant Valid() && Exact() && lineReady && Line(keys) == old(Line(keys))
        invariant old(keys) <= keys && AfterEnter(old(keys)) <= AfterEnter(keys)
        invariant i <= |Line(keys)| && bufferPos <= old(Left(keys)) && i <= Fitting(old(Left(keys)), maxSize)
        invariant buffer[..i] == Line(keys)[..i]
        invariant forall k :: i <= k < buffer.Length ==> buffer[k] == old(buffer[k])
        decreases |Line(keys)| - i
      {
        var key := keyBuffer[i];
        assert key == Line(keys)[i];
        Interrupts();
        buffer[i] := key;
        i := i + 1;
        Interrupts();
      }
    }
  }

  lemma LineOfTwo(a: char, b: char)
    requires Printable(a) && Printable(b)
    ensures Line([a, b, ENTER, BACKSPACE]) == [a, b] && ENTER in [a, b, ENTER, BACKSPACE]
    ensures Left([a, b, ENTER, BACKSPACE]) == 1
  {
    var keys := [a, b];
    assert [] + [a] == [a] && [a] + [b] == keys && keys + [ENTER] == [a, b, ENTER];
    assert [a, b, ENTER] + [BACKSPACE] == [a, b, ENTER, BACKSPACE];
    NothingTyped();
    LineGrows([], a);
    LineGrows([a], b);
    LineGrows(keys, ENTER);
    LineGrows([a, b, ENTER], BACKSPACE);
    LeftAfterKey(keys, ENTER);
    LeftAfterKey([a, b, ENTER], BACKSPACE);
  }

  lemma FourScancodes()
    ensures Ascii(30) == 'a' && Ascii(48) == 'b' && Ascii(28) == ENTER && Ascii(14) == BACKSPACE
  {
  }

  /**
   * A run in which less than the line is delivered, whatever other keys come in between: two letters, Enter,
   * and a backspace before the line is read. The line says "ab".
   */
  method ShortenedLine(buffer: array<char>) returns (ghost line: seq<char>, ghost length: nat)
    requires buffer.Length == CAPACITY
    modifies buffer
    ensures line == "ab" && length <= 1
    ensures buffer[..length] == line[..length] && buffer[length] == NUL
  {
    hide Line, Left, AfterEnter, Ascii;
    var editor := new LineEditor();
    FourScancodes();
    editor.Handler(30);
    editor.Handler(48);
    editor.Handler(28);
    editor.Handler(14);
    assert editor.keys == ['a', 'b', ENTER, BACKSPACE];
    LineOfTwo('a', 'b');
    var ready;
    ghost var before, after, seen;
    ready, before, after, seen, length := editor.GetInputBuffer(buffer, CAPACITY);
    line := Line(seen);
  }
}
