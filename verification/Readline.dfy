// The line editor (src/lib/readline.c) on the text console: what is on the screen is what was typed.
module Readline {
  import opened Words
  import opened Strings
  import opened Console
  import Printf
  import PrintParse

  const BUFLEN: nat := 1024

  // ----- the line

  // A key that is neither an error nor the end of the line: erase, append, or ignore.
  function Edit(line: seq<byte>, c: byte): (r: seq<byte>)
    ensures |line| < BUFLEN ==> |r| < BUFLEN
  {
    if (c == 8 || c == 127) && line != [] then line[..|line| - 1]
    else if c >= 32 && |line| < BUFLEN - 1 then line + [c]
    else line
  }

  // getchar returns a byte, or something negative for an error.
  type Key = k: int | k < 256

  predicate EndsLine(k: Key) {
    k == 10 || k == 13
  }

  datatype Outcome = Line(text: seq<byte>) | ReadError(code: int) | Waiting(soFar: seq<byte>)

  // What comes of the keys typed after line: the first end of line or error decides.
  function Typed(line: seq<byte>, keys: seq<Key>): Outcome
    decreases |keys|
  {
    if keys == [] then Waiting(line)
    else if keys[0] < 0 then ReadError(keys[0])
    else if EndsLine(keys[0]) then Line(line)
    else Typed(Edit(line, keys[0]), keys[1..])
  }

  // The line when the keys run out, the line ends or an error comes.
  function Edited(line: seq<byte>, keys: seq<Key>): seq<byte>
    decreases |keys|
  {
    if keys == [] || keys[0] < 0 || EndsLine(keys[0]) then line else Edited(Edit(line, keys[0]), keys[1..])
  }

  // ----- the echo

  function ErrorText(code: int): seq<Word> {
    Printf.Literal("read error: ") + Printf.Codes(Printf.SignedText(code, -1, ' ')) + Printf.Literal("\n")
  }

  // That is what cprintf makes of its format.
  lemma ErrorFormat(code: int, args: Printf.Args)
    requires Printf.GetInt(args(0), 0) == code
    ensures Terminated("read error: %d\n\0") && Printf.Format("read error: %d\n\0", 0, args, 0) == ErrorText(code)
  {
    hide Printf.SignedText;
    PrintParse.SingleConversion("read error: %d\n\0", "read error: ", 'd', "\n", args);
  }

  // What is sent to the console for one key.
  function Echo(line: seq<byte>, k: Key): seq<Word> {
    if k < 0 then ErrorText(k)
    else if (k == 8 || k == 127) && line != [] then [8]
    else if k >= 32 && |line| < BUFLEN - 1 then [k]
    else if EndsLine(k) then [10]
    else []
  }

  // The tape after the echo of all keys up to the end of the line.
  function Echoed(t: Tape, line: seq<byte>, keys: seq<Key>): Tape
    decreases |keys|
  {
    if keys == [] then t
    else
      var u := Feed(t, Echo(line, keys[0]));
      if keys[0] < 0 || EndsLine(keys[0]) then u else Echoed(u, Edit(line, keys[0]), keys[1..])
  }

  lemma NextKey(t: Tape, line: seq<byte>, keys: seq<Key>, n: nat)
    requires n < |keys|
    ensures var k, u := keys[n], Feed(t, Echo(line, keys[n]));
            if k < 0 then
              Typed(line, keys[n..]) == ReadError(k) && Echoed(t, line, keys[n..]) == u
            else if EndsLine(k) then
              Typed(line, keys[n..]) == Line(line) && Echoed(t, line, keys[n..]) == u
            else
              && Typed(line, keys[n..]) == Typed(Edit(line, k), keys[n + 1..])
              && Echoed(t, line, keys[n..]) == Echoed(u, Edit(line, k), keys[n + 1..])
  {
    hide Feed, Edit, Echo;
    assert keys[n..][1..] == keys[n + 1..];
  }

  lemma NoKeys(t: Tape, line: seq<byte>)
    ensures Feed(t, []) == t && Typed(line, []) == Waiting(line) && Echoed(t, line, []) == t
  {
  }

  // readline, on the console con and with the static buffer buf; the keys are those that getchar
  // will deliver.
  method ReadLine(con: Console, buf: array<byte>, prompt: Printf.Option<Printf.CString>, keys: seq<Key>) returns (r: Outcome)
    requires con.Valid() && buf.Length == BUFLEN
    modifies con`pos, con`tape, con.buffer, buf
    ensures r == Typed([], keys)
    ensures con.Valid() && con.tape == Echoed(Prompted(old(con.tape), prompt), [], keys)
    ensures match r
            case Line(text) => |text| < BUFLEN && buf[..|text|] == text && buf[|text|] == 0
            case Waiting(line) => |line| < BUFLEN && buf[..|line|] == line
            case ReadError(_) => true
  {
    hide Feed, Put, Window, OnScreen, Typed, Echoed, ErrorText, At;
    if prompt.Some? {
      con.PutText(Printf.Codes(prompt.value));
    }
    var i, n := 0, 0;
    assert buf[..i] == [] && keys[n..] == keys;
    while n < |keys|
      invariant i < BUFLEN && n <= |keys|
      invariant con.Valid()
      invariant Echoed(con.tape, buf[..i], keys[n..]) == Echoed(Prompted(old(con.tape), prompt), [], keys)
      invariant Typed(buf[..i], keys[n..]) == Typed([], keys)
    {
      var c := keys[n];
      ghost var line := buf[..i];
      NextKey(con.tape, line, keys, n);
      n := n + 1;
      if c < 0 {
        con.PutText(ErrorText(c));
        return ReadError(c);
      } else if (c == 8 || c == 127) && i > 0 {
        con.PutText([8]);
        i := i - 1;
      } else if c >= 32 && i < BUFLEN - 1 {
        con.PutText([c]);
        buf[i] := c;
        i := i + 1;
      } else if EndsLine(c) {
        con.PutText([10]);
        buf[i] := 0;
        return Line(buf[..i]);
      } else {
        NoKeys(con.tape, line);
      }
      assert buf[..i] == Edit(line, c);
    }
    assert keys[n..] == [];
    NoKeys(con.tape, buf[..i]);
    return Waiting(buf[..i]);
  }

  function Prompted(t: Tape, prompt: Printf.Option<Printf.CString>): Tape {
    match prompt case None => t case Some(text) => Feed(t, Printf.Codes(text))
  }

  // ----- what you see is what you typed

  // On t, which comes after base, the line stands where the cursor of base was, all of it on the
  // screen and the cursor right after it; nothing before it has changed, and what is after it was
  // there or has been erased.
  ghost predicate Shows(base: Tape, t: Tape, line: seq<byte>) {
    && OnScreen(t) && FirstCell(t) <= base.cursor && |line| < BUFLEN
    && t.cursor == base.cursor + |line|
    && Stands(base, t, line)
  }

  ghost predicate Stands(base: Tape, t: Tape, line: seq<byte>) {
    && (forall i :: 0 <= i < |line| ==> At(t, base.cursor + i) == Attributed(line[i]))
    && (forall k: nat :: k < base.cursor ==> At(t, k) == At(base, k))
    && (forall k: nat :: k >= base.cursor + |line| ==> At(t, k) == At(base, k) || At(t, k) == BLANK)
  }

  lemma OneKey(t: Tape, c: Word)
    ensures Feed(t, [c]) == Put(t, c)
  {
    hide Put;
    assert [c][..0] == [];
  }

  lemma GlyphCell(c: byte)
    ensures Attributed(c) % TWO16 == Attributed(c)
  {
  }

  lemma AppendShows(base: Tape, t: Tape, line: seq<byte>, c: byte)
    requires Shows(base, t, line) && |line| < BUFLEN - 1 && c >= 32
    ensures Shows(base, Feed(t, [c]), line + [c])
  {
    hide Put, At, Window, Follow, Attributed;
    OneKey(t, c);
    GlyphLands(t, c);
    GlyphCell(c);
  }

  lemma EraseShows(base: Tape, t: Tape, line: seq<byte>)
    requires Shows(base, t, line) && line != []
    ensures Shows(base, Feed(t, [8]), line[..|line| - 1])
  {
    hide Put, At, Window, Follow;
    OneKey(t, 8);
    BackspaceLands(t);
  }

  // The whole line stays on the screen, so that it can be erased: one that has scrolled leaves the
  // cursor 1920 cells or more from the top, and it is shorter than that.
  lemma EditShows(base: Tape, t: Tape, line: seq<byte>, c: byte)
    requires Shows(base, t, line) && !EndsLine(c)
    ensures Shows(base, Feed(t, Echo(line, c)), Edit(line, c))
  {
    hide Shows, Feed;
    if (c == 8 || c == 127) && line != [] {
      EraseShows(base, t, line);
    } else if c >= 32 && |line| < BUFLEN - 1 {
      AppendShows(base, t, line, c);
    } else {
      NoKeys(t, line);
    }
  }

  lemma NewlineStands(base: Tape, t: Tape, line: seq<byte>)
    requires Shows(base, t, line)
    ensures var u := Feed(t, [10]);
            && OnScreen(u) && Stands(base, u, line)
            && u.cursor == (base.cursor + |line|) / CRT_COLS * CRT_COLS + CRT_COLS
  {
    hide OnScreen, At, Window, Follow, Step;
    OneKey(t, 10);
    PutExtends(t, 10);
    NewlineMoves(t);
    SameCells(base, t, Put(t, 10), line);
  }

  lemma NewlineMoves(t: Tape)
    ensures Put(t, 10).cells == t.cells && Put(t, 10).cursor == t.cursor / CRT_COLS * CRT_COLS + CRT_COLS
  {
    hide Follow, Write;
    var v := t.(cursor := (t.cursor / CRT_COLS + 1) * CRT_COLS);
    assert Put(t, 10) == Follow(v);
    FollowCells(v);
  }

  lemma FollowCells(t: Tape)
    ensures Follow(t).cells == t.cells && Follow(t).cursor == t.cursor
  {
  }

  lemma SameCells(base: Tape, t: Tape, u: Tape, line: seq<byte>)
    requires Stands(base, t, line) && u.cells == t.cells
    ensures Stands(base, u, line)
  {
    assert forall k: nat :: At(u, k) == At(t, k);
  }

  // The message of a read error is put where a line is shown.
  ghost predicate FailsAfter(base: Tape, u: Tape, line: seq<byte>, code: int) {
    exists v :: Shows(base, v, line) && u == Feed(v, ErrorText(code))
  }

  // Through every sequence of keys the screen shows exactly the line as edited so far; when it ends,
  // it still stands there and the cursor is at the start of the row below; an error is reported right
  // after it.
  lemma {:induction false} WhatYouSee(base: Tape, t: Tape, line: seq<byte>, keys: seq<Key>)
    requires Shows(base, t, line)
    ensures var u := Echoed(t, line, keys);
            match Typed(line, keys)
            case Waiting(now) => Shows(base, u, now)
            case Line(text) =>
              && OnScreen(u) && Stands(base, u, text)
              && u.cursor == (base.cursor + |text|) / CRT_COLS * CRT_COLS + CRT_COLS
            case ReadError(code) => FailsAfter(base, u, Edited(line, keys), code)
    decreases |keys|
  {
    hide Shows, Stands, Feed, Edit, ErrorText;
    if keys != [] {
      var k := keys[0];
      if EndsLine(k) {
        NewlineStands(base, t, line);
        EndEcho(line, k);
      } else if k >= 0 {
        EditShows(base, t, line, k);
        WhatYouSee(base, Feed(t, Echo(line, k)), Edit(line, k), keys[1..]);
      }
    }
  }

  lemma EndEcho(line: seq<byte>, k: Key)
    requires EndsLine(k)
    ensures Echo(line, k) == [10]
  {
  }

  // The prompt is put through the format interpreter, as a plain %s.
  lemma PromptFormat(t: Tape, text: Printf.CString, args: Printf.Args)
    requires args(0).str == Printf.Some(text)
    ensures Terminated("%s\0") && Prompted(t, Printf.Some(text)) == Feed(t, Printf.Format("%s\0", 0, args, 0))
  {
    PrintParse.StringConversion(text, args);
  }

  // From the prompt on.
  lemma FromThePrompt(t: Tape, prompt: Printf.Option<Printf.CString>, keys: seq<Key>)
    requires OnScreen(t)
    ensures var base := Prompted(t, prompt);
            var u := Echoed(base, [], keys);
            match Typed([], keys)
            case Waiting(now) => Shows(base, u, now)
            case Line(text) =>
              && OnScreen(u) && Stands(base, u, text)
              && u.cursor == (base.cursor + |text|) / CRT_COLS * CRT_COLS + CRT_COLS
            case ReadError(code) => FailsAfter(base, u, Edited([], keys), code)
  {
    var base := Prompted(t, prompt);
    if prompt.Some? {
      FeedOnScreen(t, Printf.Codes(prompt.value));
    }
    hide Feed, At, Echoed, Typed;
    assert Shows(base, base, []);
    WhatYouSee(base, base, [], keys);
  }

  // ----- the line as a fold

  // A backspace takes back the key before it exactly when that key was taken: there was room, and it
  // was not itself an erasure. DEL is one unless the line is empty, where it is a character.
  lemma BackspaceUndoesIff(line: seq<byte>, c: byte)
    requires |line| < BUFLEN && c >= 32
    ensures Edit(Edit(line, c), 8) == line <==> |line| < BUFLEN - 1 && (c != 127 || line == [])
  {
    if |line| < BUFLEN - 1 && (c != 127 || line == []) {
      assert (line + [c])[..|line|] == line;
    } else {
      assert |Edit(Edit(line, c), 8)| <= |line|;
      assert line != [];
    }
  }

  // Plain keys are added, as far as 1023 characters, and the keys after them are read on.
  lemma {:induction false} PlainThen(line: seq<byte>, keys: seq<Key>, rest: seq<Key>)
    requires |line| < 1024 && forall i :: 0 <= i < |keys| ==> keys[i] >= 32 && keys[i] != 127
    ensures Typed(line, keys + rest) == Typed(Added(line, keys), rest)
    decreases |keys|
  {
    if keys == [] {
      assert keys + rest == rest && Added(line, keys) == line;
    } else {
      assert (keys + rest)[1..] == keys[1..] + rest && (keys + rest)[0] == keys[0];
      PlainThen(Edit(line, keys[0]), keys[1..], rest);
      AddedStep(line, keys);
    }
  }

  function Added(line: seq<byte>, keys: seq<Key>): (r: seq<byte>)
    requires |line| < 1024 && forall i :: 0 <= i < |keys| ==> keys[i] >= 32
    ensures |r| < 1024
  {
    var room := 1023 - |line|;
    line + if |keys| < room then keys else keys[..room]
  }

  lemma AddedStep(line: seq<byte>, keys: seq<Key>)
    requires |line| < 1024 && keys != [] && forall i :: 0 <= i < |keys| ==> keys[i] >= 32 && keys[i] != 127
    ensures Added(Edit(line, keys[0]), keys[1..]) == Added(line, keys)
  {
    if |line| < 1023 {
      var room := 1023 - |line|;
      if |keys| < room {
        assert line + keys == line + [keys[0]] + keys[1..];
      } else {
        assert line + keys[..room] == line + [keys[0]] + keys[1..][..room - 1];
      }
    }
  }

  // Without editing keys, the line is what was typed, cut at BUFLEN - 1 characters.
  lemma PlainKeys(line: seq<byte>, keys: seq<Key>)
    requires |line| < BUFLEN && forall i :: 0 <= i < |keys| ==> keys[i] >= 32 && keys[i] != 127
    ensures var room := BUFLEN - 1 - |line|;
            Typed(line, keys) == Waiting(line + if |keys| < room then keys else keys[..room])
  {
    hide Edit;
    PlainThen(line, keys, []);
    assert keys + [] == keys;
  }

  // Enter, as a newline or a carriage return, ends the line with what was typed, and whatever comes
  // after it is not read.
  lemma EnterEnds(line: seq<byte>, keys: seq<Key>, k: Key, rest: seq<Key>)
    requires |line| < 1024 && forall i :: 0 <= i < |keys| ==> keys[i] >= 32 && keys[i] != 127
    requires k == 10 || k == 13
    ensures Typed(line, keys + [k] + rest) == Line(Added(line, keys))
    ensures |line| + |keys| < 1024 ==> Typed(line, keys + [k] + rest) == Line(line + keys)
  {
    hide Added, Edit;
    PlainThen(line, keys, [k] + rest);
    assert keys + [k] + rest == keys + ([k] + rest);
    AddedAll(line, keys);
  }

  lemma AddedAll(line: seq<byte>, keys: seq<Key>)
    requires |line| < 1024 && forall i :: 0 <= i < |keys| ==> keys[i] >= 32
    ensures |line| + |keys| < 1024 ==> Added(line, keys) == line + keys
  {
    assert |line| + |keys| == 1023 ==> keys[..|keys|] == keys;
  }

  // An error of getchar ends it without a line.
  lemma ErrorEnds(line: seq<byte>, keys: seq<Key>, k: Key, rest: seq<Key>)
    requires |line| < 1024 && forall i :: 0 <= i < |keys| ==> keys[i] >= 32 && keys[i] != 127
    requires k < 0
    ensures Typed(line, keys + [k] + rest) == ReadError(k)
  {
    hide Added, Edit;
    PlainThen(line, keys, [k] + rest);
    assert keys + [k] + rest == keys + ([k] + rest);
  }

  // Backspace and DEL erase the last character; on an empty line backspace does nothing and DEL is
  // taken as a character; the other control keys change nothing.
  lemma ControlKeys(line: seq<byte>, k: Key, rest: seq<Key>)
    requires |line| < 1024 && (0 <= k < 32 || k == 127) && k != 10 && k != 13
    ensures Typed(line, [k] + rest) ==
            if (k == 8 || k == 127) && line != [] then Typed(line[..|line| - 1], rest)
            else if k == 127 then Typed([127], rest)
            else Typed(line, rest)
  {
    assert ([k] + rest)[1..] == rest;
    if line == [] && k == 127 {
      assert Edit(line, k) == [127];
    }
  }

  // The line never holds a control character, so its text is a C string of its whole length.
  lemma {:induction false} LineIsText(line: seq<byte>, keys: seq<Key>)
    requires |line| < BUFLEN && forall i :: 0 <= i < |line| ==> line[i] >= 32
    ensures var r := Typed(line, keys);
            !r.ReadError? ==>
              var text := if r.Line? then r.text else r.soFar;
              |text| < BUFLEN && forall i :: 0 <= i < |text| ==> text[i] >= 32
    decreases |keys|
  {
    if keys != [] && keys[0] >= 0 && !EndsLine(keys[0]) {
      LineIsText(Edit(line, keys[0]), keys[1..]);
    }
  }
}
