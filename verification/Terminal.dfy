/** The telnet line editor: bytes arrive in chunks, and edit a line with a cursor in it. */
module Terminal {

  type Byte = b: int | 0 <= b < 256

  const CR: Byte := 13
  const ESC: Byte := 27
  const IAC: Byte := 255
  const ERSC: Byte := 247
  const ERSL: Byte := 248

  /** ESC [ D, space, ESC [ D. */
  const ERASE: seq<Byte> := [27, 91, 68, 32, 27, 91, 68]

  /** CR, ESC [ K. */
  const CLEAR: seq<Byte> := [13, 27, 91, 75]

  // ----- the editor as two lists --------------------------------------------------

  /** The line, split at the cursor; what the last bytes announced; and what was written back. */
  datatype Edit = Edit(before: seq<Byte>, after: seq<Byte>, mode: nat, out: seq<Byte>)

  datatype Outcome = Editing(e: Edit) | Returned(line: seq<Byte>, out: seq<Byte>, rest: seq<Byte>)

  function ToStart(e: Edit, prompt: seq<Byte>): Edit {
    e.(before := [], after := e.before + e.after, out := e.out + CLEAR + prompt)
  }

  function ToEnd(e: Edit): Edit {
    e.(before := e.before + e.after, after := [], out := e.out + e.after)
  }

  function Right(e: Edit): Edit {
    if e.after == [] then e
    else e.(before := e.before + e.after[..1], after := e.after[1..], out := e.out + e.after[..1])
  }

  function Left(e: Edit): Edit {
    if e.before == [] then e
    else
      var n := |e.before| - 1;
      e.(before := e.before[..n], after := e.before[n..] + e.after, out := e.out + ERASE)
  }

  function Delete(e: Edit): Edit {
    if e.before == [] then e
    else e.(before := e.before[..|e.before| - 1], out := e.out + ERASE)
  }

  function Insert(e: Edit, b: Byte): Edit {
    e.(before := e.before + [b], out := e.out + [b])
  }

  /** A byte that is part of an escape or telnet sequence, or edits the line; not CR at rest. */
  function Step(e: Edit, b: Byte, prompt: seq<Byte>): Edit {
    match e.mode
    case 1 => e.(mode := if b == 91 then 2 else 0)
    case 2 =>
      (match b
       case 65 => ToStart(e, prompt)
       case 66 => ToEnd(e)
       case 67 => Right(e)
       case 68 => Left(e)
       case _ => e).(mode := 0)
    case 255 =>
      if b == ERSC then Left(e).(mode := 0)
      else if b == ERSL then ToStart(e, prompt).(mode := 0)
      else e.(mode := if 251 <= b <= 254 then 254 else 0)
    case 254 => e.(mode := 0)
    case _ =>
      if b == 8 || b == 127 then Delete(e)
      else if b == ESC then e.(mode := 1)
      else if b == IAC then e.(mode := 255)
      else if b >= 32 then Insert(e, b)
      else e
  }

  predicate Sequence(mode: nat) {
    mode == 1 || mode == 2 || mode == 255 || mode == 254
  }

  /** All that the bytes do: up to the CR that returns the part of the line before the cursor. */
  function Process(e: Edit, bytes: seq<Byte>, prompt: seq<Byte>): Outcome
    decreases |bytes|
  {
    if bytes == [] then Editing(e)
    else if bytes[0] == CR && !Sequence(e.mode) then Returned(e.before, e.out + [13, 10], bytes[1..])
    else Process(Step(e, bytes[0], prompt), bytes[1..], prompt)
  }

  lemma ProcessNone(e: Edit, prompt: seq<Byte>)
    ensures Process(e, [], prompt) == Editing(e)
  {
  }

  function Concat(chunks: seq<seq<Byte>>): seq<Byte> {
    if chunks == [] then [] else chunks[0] + Concat(chunks[1..])
  }

  /** What was read before a line ended does not depend on what comes after. */
  lemma {:induction false} ProcessConcat(e: Edit, first: seq<Byte>, second: seq<Byte>, prompt: seq<Byte>)
    ensures Process(e, first + second, prompt)
            == match Process(e, first, prompt)
               case Editing(e') => Process(e', second, prompt)
               case Returned(line, out, rest) => Returned(line, out, rest + second)
    decreases |first|
  {
    var all := first + second;
    if first == [] {
      assert all == second;
    } else {
      assert all[0] == first[0] && all[1..] == first[1..] + second;
      if first[0] != CR || Sequence(e.mode) {
        ProcessConcat(Step(e, first[0], prompt), first[1..], second, prompt);
      }
    }
  }

  // ----- the keys behind the bytes ---------------------------------------------------

  datatype Key =
    | Type(b: Byte)
    | Backspace(b: Byte)
    | Arrow(b: Byte)
    | EraseCharacter
    | EraseLine
    | Negotiate(verb: Byte, option: Byte)
    | Unknown(b: Byte)

  predicate Meant(k: Key) {
    match k
    case Type(b) => 32 <= b && b != 127 && b != IAC
    case Backspace(b) => b == 8 || b == 127
    case Arrow(b) => 65 <= b <= 68
    case Negotiate(verb, _) => 251 <= verb <= 254
    case Unknown(b) => b < 32 && b != 8 && b != CR && b != ESC
    case _ => true
  }

  function Sent(k: Key): seq<Byte> {
    match k
    case Type(b) => [b]
    case Backspace(b) => [b]
    case Arrow(b) => [ESC, 91, b]
    case EraseCharacter => [IAC, ERSC]
    case EraseLine => [IAC, ERSL]
    case Negotiate(verb, option) => [IAC, verb, option]
    case Unknown(b) => [b]
  }

  function Pressed(e: Edit, k: Key, prompt: seq<Byte>): Edit {
    match k
    case Type(b) => Insert(e, b)
    case Backspace(_) => Delete(e)
    case Arrow(b) =>
      if b == 65 then ToStart(e, prompt) else if b == 66 then ToEnd(e) else if b == 67 then Right(e) else Left(e)
    case EraseCharacter => Left(e)
    case EraseLine => ToStart(e, prompt)
    case _ => e
  }

  function AllSent(keys: seq<Key>): seq<Byte> {
    if keys == [] then [] else Sent(keys[0]) + AllSent(keys[1..])
  }

  function AllPressed(e: Edit, keys: seq<Key>, prompt: seq<Byte>): Edit
    decreases |keys|
  {
    if keys == [] then e else AllPressed(Pressed(e, keys[0], prompt), keys[1..], prompt)
  }

  /** The mode machine reads one key back from its bytes. */
  lemma KeyRead(e: Edit, k: Key, prompt: seq<Byte>)
    requires e.mode == 0 && Meant(k)
    ensures Process(e, Sent(k), prompt) == Editing(Pressed(e, k, prompt))
    ensures Pressed(e, k, prompt).mode == 0
  {
    var s := Sent(k);
    var e1 := Step(e, s[0], prompt);
    if |s| == 1 {
      assert s[1..] == [];
      assert Process(e1, [], prompt) == Editing(e1);
    } else {
      var e2 := Step(e1, s[1], prompt);
      assert Process(e, s, prompt) == Process(e1, s[1..], prompt);
      assert s[1..][0] == s[1] && s[1..][1..] == s[2..];
      assert Process(e1, s[1..], prompt) == Process(e2, s[2..], prompt);
      if |s| == 3 {
        assert s[2..] == [s[2]] && s[2..][1..] == [];
        var e3 := Step(e2, s[2], prompt);
        assert Process(e2, s[2..], prompt) == Process(e3, [], prompt);
      }
    }
  }

  /**
   * A line typed with any keys comes back as the two lists have it: the text before the
   * cursor, and the bytes after the CR untouched.
   */
  lemma {:induction false} KeysRead(e: Edit, keys: seq<Key>, rest: seq<Byte>, prompt: seq<Byte>)
    requires e.mode == 0 && forall k :: k in keys ==> Meant(k)
    ensures var end := AllPressed(e, keys, prompt);
            Process(e, AllSent(keys) + [CR] + rest, prompt) == Returned(end.before, end.out + [13, 10], rest)
    decreases |keys|
  {
    var bytes := AllSent(keys) + [CR] + rest;
    if keys == [] {
      assert bytes == [CR] + rest;
      assert bytes[1..] == rest;
    } else {
      var tail := AllSent(keys[1..]) + [CR] + rest;
      assert bytes == Sent(keys[0]) + tail;
      KeyRead(e, keys[0], prompt);
      ProcessConcat(e, Sent(keys[0]), tail, prompt);
      KeysRead(Pressed(e, keys[0], prompt), keys[1..], rest, prompt);
    }
  }

  // ----- what the keys do, byte by byte ----------------------------------------------

  /** A byte that is typed as it stands. */
  predicate Printable(b: Byte) {
    32 <= b && b != 127 && b != 255
  }

  /** `pending` is printable bytes, a CR, and the rest. */
  ghost predicate Typed(pending: seq<Byte>, bytes: seq<Byte>, rest: seq<Byte>) {
    pending == bytes + [13] + rest && forall i :: 0 <= i < |bytes| ==> Printable(bytes[i])
  }

  /** Bytes that are typed come back in the order they came in, behind what was before the cursor, and
      are echoed as they are. */
  lemma {:induction false} TypedReturned(e: Edit, bytes: seq<Byte>, rest: seq<Byte>, prompt: seq<Byte>)
    requires e.mode == 0 && forall i :: 0 <= i < |bytes| ==> Printable(bytes[i])
    ensures Process(e, bytes + [13] + rest, prompt) == Returned(e.before + bytes, e.out + bytes + [13, 10], rest)
    decreases |bytes|
  {
    var all := bytes + [13] + rest;
    if bytes == [] {
      assert all[0] == 13 && all[1..] == rest;
      assert e.before + bytes == e.before && e.out + bytes == e.out;
    } else {
      var b, tail := bytes[0], bytes[1..];
      assert all[0] == b && all[1..] == tail + [13] + rest;
      var next := Step(e, b, prompt);
      TypedReturned(next, tail, rest, prompt);
      assert [b] + tail == bytes;
      assert next.before + tail == e.before + bytes && next.out + tail == e.out + bytes;
    }
  }

  lemma TypedIs(e: Edit, pending: seq<Byte>, bytes: seq<Byte>, rest: seq<Byte>, prompt: seq<Byte>)
    requires e.mode == 0 && e.before == [] && Typed(pending, bytes, rest)
    ensures Process(e, pending, prompt) == Returned(bytes, e.out + bytes + [13, 10], rest)
  {
    TypedReturned(e, bytes, rest, prompt);
    assert [] + bytes == bytes;
  }

  /** A byte typed goes in front of the cursor; a backspace takes out the byte in front of it, if any. */
  lemma TypingKeys(e: Edit, b: Byte, del: Byte, prompt: seq<Byte>)
    requires e.mode == 0 && Printable(b) && (del == 8 || del == 127)
    ensures Process(e, [b], prompt) == Editing(Edit(e.before + [b], e.after, 0, e.out + [b]))
    ensures Process(e, [del], prompt) == Editing(
              if e.before == [] then e
              else Edit(e.before[..|e.before| - 1], e.after, 0, e.out + [27, 91, 68, 32, 27, 91, 68]))
  {
    KeyRead(e, Type(b), prompt);
    KeyRead(e, Backspace(del), prompt);
  }

  /** A backspace after a byte that is typed restores the text on both sides of the cursor. */
  lemma BackspaceUndoes(e: Edit, b: Byte, del: Byte, prompt: seq<Byte>)
    requires e.mode == 0 && Printable(b) && (del == 8 || del == 127)
    ensures Process(e, [b, del], prompt) ==
            Editing(Edit(e.before, e.after, 0, e.out + [b] + [27, 91, 68, 32, 27, 91, 68]))
  {
    hide Process;
    var typed := Edit(e.before + [b], e.after, 0, e.out + [b]);
    TypingKeys(e, b, del, prompt);
    TypingKeys(typed, b, del, prompt);
    assert [b] + [del] == [b, del];
    ProcessConcat(e, [b], [del], prompt);
    assert typed.before[..|typed.before| - 1] == e.before;
  }

  /** Right and left, and the telnet erase-character command, move the cursor over exactly one byte,
      and not past the ends of the line. */
  lemma OneByteMoves(e: Edit, prompt: seq<Byte>)
    requires e.mode == 0
    ensures Process(e, [27, 91, 67], prompt) == Editing(
              if e.after == [] then e
              else Edit(e.before + [e.after[0]], e.after[1..], 0, e.out + [e.after[0]]))
    ensures var n := |e.before| - 1;
            var left := if e.before == [] then e
                        else Edit(e.before[..n], [e.before[n]] + e.after, 0, e.out + [27, 91, 68, 32, 27, 91, 68]);
            Process(e, [27, 91, 68], prompt) == Editing(left) == Process(e, [255, 247], prompt)
  {
    KeyRead(e, Arrow(67), prompt);
    KeyRead(e, Arrow(68), prompt);
    KeyRead(e, EraseCharacter, prompt);
    if e.after != [] {
      assert e.after[..1] == [e.after[0]];
    }
    if e.before != [] {
      assert e.before[|e.before| - 1..] == [e.before[|e.before| - 1]];
    }
  }

  /** Up, and the telnet erase-line command, go to the start of the line and write the prompt again;
      down goes to its end and writes the rest of it. */
  lemma EndMoves(e: Edit, prompt: seq<Byte>)
    requires e.mode == 0
    ensures var start := Edit([], e.before + e.after, 0, e.out + [13, 27, 91, 75] + prompt);
            Process(e, [27, 91, 65], prompt) == Editing(start) == Process(e, [255, 248], prompt)
    ensures Process(e, [27, 91, 66], prompt) == Editing(Edit(e.before + e.after, [], 0, e.out + e.after))
  {
    KeyRead(e, Arrow(65), prompt);
    KeyRead(e, Arrow(66), prompt);
    KeyRead(e, EraseLine, prompt);
  }

  /** A telnet negotiation and other control bytes do nothing. */
  lemma NothingDone(e: Edit, b: Byte, verb: Byte, option: Byte, prompt: seq<Byte>)
    requires e.mode == 0 && b < 32 && b != 8 && b != 13 && b != 27 && 251 <= verb <= 254
    ensures Process(e, [b], prompt) == Editing(e) == Process(e, [255, verb, option], prompt)
  {
    KeyRead(e, Unknown(b), prompt);
    KeyRead(e, Negotiate(verb, option), prompt);
  }

  predicate Edits(k: Key) {
    k.Type? || k.Backspace?
  }

  lemma MoveKeepsLine(e: Edit, k: Key, prompt: seq<Byte>)
    requires !Edits(k)
    ensures var end := Pressed(e, k, prompt); end.before + end.after == e.before + e.after
  {
    assert [] + (e.before + e.after) == e.before + e.after == (e.before + e.after) + [];
    if e.after != [] {
      assert (e.before + e.after[..1]) + e.after[1..] == e.before + e.after;
    }
    if e.before != [] {
      var n := |e.before| - 1;
      assert e.before[..n] + (e.before[n..] + e.after) == e.before + e.after;
    }
  }

  /** Only typing and backspace change the line: everything else moves the cursor in it. */
  lemma {:induction false} MovesKeepLine(e: Edit, keys: seq<Key>, prompt: seq<Byte>)
    requires forall k :: k in keys ==> !Edits(k)
    ensures var end := AllPressed(e, keys, prompt); end.before + end.after == e.before + e.after
    decreases |keys|
  {
    if keys != [] {
      MoveKeepsLine(e, keys[0], prompt);
      MovesKeepLine(Pressed(e, keys[0], prompt), keys[1..], prompt);
    }
  }

  /** The telnet erase-character command leaves the line as it was, so it does what backspace does to
      the line exactly when there is nothing to erase. */
  lemma EraseOnlyMoves(e: Edit)
    ensures Left(e).before + Left(e).after == e.before + e.after
    ensures Left(e).before + Left(e).after == Delete(e).before + Delete(e).after <==> e.before == []
  {
    if e.before != [] {
      var n := |e.before| - 1;
      assert e.before[..n] + (e.before[n..] + e.after) == e.before + e.after;
      assert |e.before[..n] + e.after| == |e.before + e.after| - 1;
    }
  }

  /** A line comes back whole exactly when CR is sent with the cursor at its end. */
  lemma ReturnedWhole(e: Edit, keys: seq<Key>, rest: seq<Byte>, prompt: seq<Byte>)
    requires e.mode == 0 && forall k :: k in keys ==> Meant(k)
    ensures var end := AllPressed(e, keys, prompt);
            var r := Process(e, AllSent(keys) + [CR] + rest, prompt);
            r.Returned? && (r.line == end.before + end.after <==> end.after == [])
  {
    KeysRead(e, keys, rest, prompt);
    var end := AllPressed(e, keys, prompt);
    if end.after != [] {
      assert |end.before| != |end.before + end.after|;
    } else {
      assert end.before + end.after == end.before;
    }
  }

  // ----- the editor as it runs -----------------------------------------------------

  class Editor {
    var str: array<Byte>
    var strLen: nat
    var buff: array<Byte>
    var buffFill: nat
    var out: seq<Byte>             // everything written to the client
    var input: seq<seq<Byte>>      // what each further Read will give, then an error

    ghost predicate Valid()
      reads this
    {
      str != buff && strLen <= str.Length && buff.Length == 64 && buffFill <= 64
      && forall k :: 0 <= k < |input| ==> |input[k]| <= 64
    }

    /** The array holds the line of `e`, `oldLen` bytes long, with the cursor at `strLen`. */
    ghost predicate Holds(e: Edit, oldLen: nat)
      reads this`str, this`strLen, this`out, str
    {
      && strLen == |e.before| && oldLen == |e.before| + |e.after| && oldLen <= str.Length
      && str[..oldLen] == e.before + e.after && out == e.out
    }

    constructor (input: seq<seq<Byte>>)
      requires forall k :: 0 <= k < |input| ==> |input[k]| <= 64
      ensures Valid() && fresh(str) && fresh(buff)
      ensures strLen == 0 && Pending() == Concat(input) && out == []
    {
      str, strLen := new Byte[0], 0;
      buff, buffFill := new Byte[64](_ => 0), 0;
      out := [];
      this.input := input;
    }

    /** NEED: grow the array by 32 bytes at a time. */
    method Need(l: nat)
      requires Valid() && strLen <= l
      modifies this`str
      ensures Valid() && strLen + l <= str.Length
      ensures str == old(str) || fresh(str)
      ensures str.Length >= old(str.Length) && str[..old(str.Length)] == old(str[..])
    {
      while strLen + l > str.Length
        invariant Valid() && (str == old(str) || fresh(str))
        invariant str.Length >= old(str.Length) && str[..old(str.Length)] == old(str[..])
        decreases strLen + l - str.Length
      {
        var bigger := new Byte[str.Length + 32];
        forall k | 0 <= k < str.Length {
          bigger[k] := str[k];
        }
        assert bigger[..str.Length] == str[..];
        str := bigger;
      }
    }

    /** memmove within the line. */
    method MoveBytes(to: nat, from: nat, n: nat)
      requires to + n <= str.Length && from + n <= str.Length
      modifies str
      ensures forall k :: to <= k < to + n ==> str[k] == old(str[..])[from + k - to]
      ensures forall k :: 0 <= k < str.Length && !(to <= k < to + n) ==> str[k] == old(str[k])
    {
      forall k | to <= k < to + n {
        str[k] := str[from + k - to];
      }
    }

    /** The bytes after `at` moved up by one, and `b` stored there, is the line with `b` inserted. */
    static lemma InsertedAt(was: seq<Byte>, now: seq<Byte>, at: nat, len: nat,
                            before: seq<Byte>, after: seq<Byte>, b: Byte)
      requires at <= len < |was| == |now| && at == |before| && was[..len] == before + after
      requires forall k :: 0 <= k < at ==> now[k] == was[k]
      requires now[at] == b && forall k :: at < k <= len ==> now[k] == was[k - 1]
      ensures now[..len + 1] == (before + [b]) + after
    {
      var want := (before + [b]) + after;
      forall k: nat | k < len + 1 ensures now[k] == want[k] {
        if k < at {
          assert was[..len][k] == before[k];
        } else if at < k {
          assert was[..len][k - 1] == after[k - 1 - at];
        }
      }
    }

    static lemma InsertedBetween(was: seq<Byte>, now: seq<Byte>, at: nat, len: nat, b: Byte)
      requires at <= len < |was| == |now|
      requires forall k :: 0 <= k < at ==> now[k] == was[k]
      requires now[at] == b && forall k :: at < k <= len ==> now[k] == was[k - 1]
      ensures now[..len + 1] == was[..at] + [b] + was[at..len]
    {
    }

    /** The bytes after `at` moved down by one is the line without the byte at `at`. */
    static lemma DeletedAt(was: seq<Byte>, now: seq<Byte>, at: nat, len: nat, before: seq<Byte>, after: seq<Byte>)
      requires at <= len < |was| == |now| && at + 1 == |before| && was[..len + 1] == before + after
      requires forall k :: 0 <= k < at ==> now[k] == was[k]
      requires forall k :: at <= k < len ==> now[k] == was[k + 1]
      ensures now[..len] == before[..at] + after
    {
      var want := before[..at] + after;
      forall k: nat | k < len ensures now[k] == want[k] {
        if k < at {
          assert was[..len + 1][k] == before[k];
        } else {
          assert was[..len + 1][k + 1] == after[k - at];
        }
      }
    }

    /** Shift the rest of the line to the right and store the byte at the cursor. */
    method StoreByte(b: Byte, oldLen: nat, ghost e: Edit)
      requires Valid() && Holds(e, oldLen) && oldLen < str.Length
      modifies this`strLen, this`out, str
      ensures Valid() && Holds(Insert(e, b), oldLen + 1)
      ensures strLen == old(strLen) + 1 && out == old(out) + [b]
      ensures str[..oldLen + 1] == old(str[..strLen]) + [b] + old(str[strLen..oldLen])
    {
      ghost var was := str[..];
      MoveBytes(strLen + 1, strLen, oldLen - strLen);
      str[strLen] := b;
      InsertedAt(was, str[..], strLen, oldLen, e.before, e.after, b);
      InsertedBetween(was, str[..], strLen, oldLen, b);
      strLen := strLen + 1;
      out := out + [b];
    }

    /** Insert a byte at the cursor. */
    method InsertByte(b: Byte, oldLen: nat, ghost e: Edit)
      requires Valid() && Holds(e, oldLen)
      modifies this`str, this`strLen, this`out, str
      ensures Valid() && Holds(Insert(e, b), oldLen + 1)
      ensures strLen == old(strLen) + 1 && out == old(out) + [b]
      ensures str[..oldLen + 1] == old(str[..strLen]) + [b] + old(str[strLen..oldLen])
      ensures str == old(str) || fresh(str)
    {
      ghost var line := str[..oldLen];
      Need(oldLen + 1);
      assert str[..oldLen] == line;
      assert str[..strLen] == line[..strLen] && str[strLen..oldLen] == line[strLen..];
      StoreByte(b, oldLen, e);
    }

    /** Delete the byte before the cursor. */
    method DeleteByte(oldLen: nat, ghost e: Edit) returns (len: nat)
      requires Valid() && Holds(e, oldLen)
      modifies this`strLen, this`out, str
      ensures Valid() && Holds(Delete(e), len)
      ensures if old(strLen) == 0 then strLen == 0 && len == oldLen && str[..] == old(str[..])
              else && strLen == old(strLen) - 1 && len == oldLen - 1
                   && str[..len] == old(str[..strLen - 1]) + old(str[strLen..oldLen])
    {
      len := oldLen;
      if strLen > 0 {
        ghost var was := str[..];
        strLen := strLen - 1;
        len := len - 1;
        MoveBytes(strLen, strLen + 1, len - strLen);
        DeletedAt(was, str[..], strLen, len, e.before, e.after);
        out := out + ERASE;
      }
    }

    /** Erase the line on the terminal and go back to its start. */
    method GoToStart(prompt: seq<Byte>, oldLen: nat, ghost e: Edit)
      requires Valid() && Holds(e, oldLen)
      modifies this`strLen, this`out
      ensures Valid() && Holds(ToStart(e, prompt), oldLen)
    {
      strLen := 0;
      out := out + CLEAR;
      out := out + prompt;
    }

    method GoToEnd(oldLen: nat, ghost e: Edit)
      requires Valid() && Holds(e, oldLen)
      modifies this`strLen, this`out
      ensures Valid() && Holds(ToEnd(e), oldLen)
    {
      if strLen < oldLen {
        assert str[strLen..oldLen] == e.after;
        out := out + str[strLen..oldLen];
        strLen := oldLen;
      }
    }

    method GoRight(oldLen: nat, ghost e: Edit)
      requires Valid() && Holds(e, oldLen)
      modifies this`strLen, this`out
      ensures Valid() && Holds(Right(e), oldLen)
    {
      if strLen < oldLen {
        assert str[..oldLen][strLen] == e.after[0];
        out := out + [str[strLen]];
        strLen := strLen + 1;
        assert e.before + e.after == (e.before + e.after[..1]) + e.after[1..];
      }
    }

    method GoLeft(oldLen: nat, ghost e: Edit)
      requires Valid() && Holds(e, oldLen)
      modifies this`strLen, this`out
      ensures Valid() && Holds(Left(e), oldLen)
    {
      if strLen > 0 {
        strLen := strLen - 1;
        out := out + ERASE;
        assert e.before + e.after == e.before[..strLen] + (e.before[strLen..] + e.after);
      }
    }

    /** A byte after ESC [. */
    method EscapeByte(b: Byte, prompt: seq<Byte>, oldLen: nat, ghost e: Edit)
      requires Valid() && Holds(e, oldLen) && e.mode == 2
      modifies this`strLen, this`out
      ensures Valid() && Holds(Step(e, b, prompt), oldLen)
    {
      match b
      case 65 => GoToStart(prompt, oldLen, e);
      case 66 => GoToEnd(oldLen, e);
      case 67 => GoRight(oldLen, e);
      case 68 => GoLeft(oldLen, e);
      case _ =>
    }

    /** A byte after IAC. */
    method TelnetByte(b: Byte, prompt: seq<Byte>, oldLen: nat, ghost e: Edit) returns (mode: nat)
      requires Valid() && Holds(e, oldLen) && e.mode == 255
      modifies this`strLen, this`out
      ensures Valid() && Holds(Step(e, b, prompt), oldLen) && mode == Step(e, b, prompt).mode
    {
      mode := 0;
      match b
      case 247 => GoLeft(oldLen, e);
      case 248 => GoToStart(prompt, oldLen, e);
      case 253 => mode := 254;
      case 254 => mode := 254;
      case 251 => mode := 254;
      case 252 => mode := 254;
      case _ =>
    }

    /** A byte at rest, other than CR. */
    method PlainByte(b: Byte, oldLen: nat, ghost prompt: seq<Byte>, ghost e: Edit) returns (len: nat, mode: nat)
      requires Valid() && Holds(e, oldLen) && !Sequence(e.mode) && b != CR
      modifies this`str, this`strLen, this`out, str
      ensures Valid() && Holds(Step(e, b, prompt), len)
      ensures mode == if b == ESC then 1 else if b == IAC then 255 else 0
      ensures str == old(str) || fresh(str)
    {
      len, mode := oldLen, 0;
      match b
      case 8 => len := DeleteByte(oldLen, e);
      case 127 => len := DeleteByte(oldLen, e);
      case 27 => mode := 1;
      case 255 => mode := 255;
      case _ =>
        if b >= 32 {
          InsertByte(b, oldLen, e);
          len := oldLen + 1;
        }
    }

    /** One byte that does not end the line. */
    method HandleByte(b: Byte, oldLen: nat, mode: nat, prompt: seq<Byte>, ghost e: Edit)
      returns (len: nat, mode': nat)
      requires Valid() && Holds(e, oldLen) && e.mode == mode && (mode == 0 || Sequence(mode))
      requires b == CR ==> Sequence(mode)
      modifies this`str, this`strLen, this`out, str
      ensures Valid() && Holds(Step(e, b, prompt), len) && mode' == Step(e, b, prompt).mode
      ensures mode' == 0 || Sequence(mode')
      ensures str == old(str) || fresh(str)
    {
      len, mode' := oldLen, 0;
      if mode == 1 {
        if b == 91 {
          mode' := 2;
        }
      } else if mode == 2 {
        EscapeByte(b, prompt, oldLen, e);
      } else if mode == 255 {
        mode' := TelnetByte(b, prompt, oldLen, e);
      } else if mode == 254 {
      } else {
        len, mode' := PlainByte(b, oldLen, prompt, e);
      }
    }

    /** CR: end the line at the cursor and keep the bytes behind CR for the next one. */
    method EndLine(i: nat)
      requires Valid() && i < buffFill
      modifies this`str, this`out, this`buffFill, str, buff
      ensures Valid() && (str == old(str) || fresh(str))
      ensures strLen < str.Length && str[strLen] == 0 && str[..strLen] == old(str[..strLen])
      ensures buff[..buffFill] == old(buff[i + 1..buffFill])
      ensures out == old(out) + [13, 10]
    {
      Need(strLen + 1);
      ghost var line := str[..strLen];
      str[strLen] := 0;
      assert str[..strLen] == line;
      forall k | 0 <= k < buffFill - i - 1 {
        buff[k] := buff[i + 1 + k];
      }
      buffFill := buffFill - (i + 1);
      out := out + [13, 10];
    }

    /** The bytes not read by the editor yet. */
    ghost function Pending(): seq<Byte>
      reads this, buff
      requires Valid()
    {
      buff[..buffFill] + Concat(input)
    }

    /** Refill the buffer: false when Read fails. */
    method Fill() returns (ok: bool)
      requires Valid() && buffFill == 0
      modifies this`buffFill, this`input, buff
      ensures Valid() && Pending() == old(Pending())
      ensures ok == (old(input) != []) && (ok ==> input == old(input)[1..]) && (!ok ==> Pending() == [])
    {
      ok := input != [];
      if ok {
        var chunk := input[0];
        forall k | 0 <= k < |chunk| {
          buff[k] := chunk[k];
        }
        assert buff[..|chunk|] == chunk;
        buffFill := |chunk|;
        input := input[1..];
      }
    }

    /** Edit with the bytes of the buffer: to its end, or to the CR that ends the line. */
    method EditBuffer(oldLen: nat, mode: nat, prompt: seq<Byte>, ghost e: Edit)
      returns (done: bool, len: nat, mode': nat, ghost e': Edit)
      requires Valid() && Holds(e, oldLen) && e.mode == mode && (mode == 0 || Sequence(mode))
      modifies this`str, this`strLen, this`out, this`buffFill, str, buff
      ensures Valid() && (str == old(str) || fresh(str)) && (mode' == 0 || Sequence(mode'))
      ensures !done ==> Holds(e', len) && e'.mode == mode' && buffFill == 0
      ensures !done ==> Process(e, old(buff[..buffFill]), prompt) == Editing(e')
      ensures done ==> strLen < str.Length && str[strLen] == 0
      ensures done ==> Process(e, old(buff[..buffFill]), prompt) == Returned(str[..strLen], out, buff[..buffFill])
    {
      done, len, mode', e' := false, oldLen, mode, e;
      var i := 0;
      ghost var bytes := buff[..buffFill];
      while i < buffFill
        invariant 0 <= i <= buffFill == old(buffFill) && bytes == buff[..buffFill]
        invariant Valid() && (str == old(str) || fresh(str)) && (mode' == 0 || Sequence(mode'))
        invariant Holds(e', len) && e'.mode == mode'
        invariant Process(e, bytes, prompt) == Process(e', bytes[i..], prompt)
      {
        assert bytes[i..][0] == bytes[i] == buff[i] && bytes[i..][1..] == bytes[i + 1..];
        if buff[i] == CR && !Sequence(mode') {
          assert str[..strLen] == e'.before;
          EndLine(i);
          done := true;
          return;
        }
        ghost var next := Step(e', buff[i], prompt);
        len, mode' := HandleByte(buff[i], len, mode', prompt, e');
        e' := next;
        i := i + 1;
      }
      assert bytes[i..] == [];
      buffFill := 0;
    }

    /** EditBuffer, seen with the bytes that are still to be read. */
    method EditPending(oldLen: nat, mode: nat, prompt: seq<Byte>, ghost e: Edit)
      returns (done: bool, len: nat, mode': nat, ghost e': Edit)
      requires Valid() && Holds(e, oldLen) && e.mode == mode && (mode == 0 || Sequence(mode))
      modifies this`str, this`strLen, this`out, this`buffFill, str, buff
      ensures Valid() && (str == old(str) || fresh(str)) && (mode' == 0 || Sequence(mode'))
      ensures !done ==> Holds(e', len) && e'.mode == mode' && buffFill == 0
      ensures !done ==> Process(e, old(Pending()), prompt) == Process(e', Pending(), prompt)
      ensures done ==> strLen < str.Length && str[strLen] == 0
      ensures done ==> Process(e, old(Pending()), prompt) == Returned(str[..strLen], out, Pending())
    {
      hide Step, Concat;
      ghost var bytes, later := buff[..buffFill], Concat(input);
      ProcessConcat(e, bytes, later, prompt);
      done, len, mode', e' := EditBuffer(oldLen, mode, prompt, e);
      assert !done ==> Pending() == later;
    }

    /** The outer loop of Readline: refill and edit until a line ends or Read fails. */
    method EditLine(oldLen0: nat, prompt: seq<Byte>, ghost start: Edit) returns (ok: bool)
      requires Valid() && Holds(start, oldLen0) && start.mode == 0
      modifies this`str, this`strLen, this`out, this`buffFill, this`input, str, buff
      ensures Valid() && (str == old(str) || fresh(str))
      ensures match Process(start, old(Pending()), prompt)
              case Returned(line, echo, rest) =>
                && ok && str[..strLen] == line && strLen < str.Length && str[strLen] == 0
                && out == echo && Pending() == rest
              case Editing(e) =>
                !ok && str[..strLen] == e.before && out == e.out && Pending() == []
    {
      hide Process, Step, Concat;
      var oldLen, mode := oldLen0, 0;
      ghost var e, all := start, Pending();
      ok := true;
      while true
        invariant Valid() && (str == old(str) || fresh(str)) && buff == old(buff) && ok
        invariant Holds(e, oldLen) && e.mode == mode && (mode == 0 || Sequence(mode))
        invariant Process(start, all, prompt) == Process(e, Pending(), prompt)
        decreases |input|, buffFill
      {
        if buffFill == 0 {
          ok := Fill();
          if !ok {
            ProcessNone(e, prompt);
            return;
          }
        }
        var done;
        done, oldLen, mode, e := EditPending(oldLen, mode, prompt, e);
        if done {
          return;
        }
      }
    }

    /**
     * Read one line. Whatever the buffer held and however the input is cut into chunks, the
     * result is that of the two-list editor on the bytes one after another. Bytes that are only
     * typed come back as they are.
     */
    method Readline(prompt: seq<Byte>) returns (ok: bool)
      requires Valid()
      modifies this`str, this`strLen, this`out, this`buffFill, this`input, str, buff
      ensures Valid() && (str == old(str) || fresh(str))
      ensures match Process(Edit([], old(str[..strLen]), 0, old(out) + prompt), old(Pending()), prompt)
              case Returned(line, echo, rest) =>
                && ok && str[..strLen] == line && strLen < str.Length && str[strLen] == 0
                && out == echo && Pending() == rest
              case Editing(e) =>
                !ok && str[..strLen] == e.before && out == e.out && Pending() == []
      ensures forall bytes, rest :: old(Typed(Pending(), bytes, rest)) ==>
                ok && str[..strLen] == bytes && Pending() == rest && out == old(out) + prompt + bytes + [13, 10]
    {
      hide Process, Step, Concat, Typed;
      out := out + prompt;
      var oldLen := strLen;
      ghost var start, all := Edit([], str[..strLen], 0, out), Pending();
      strLen := 0;
      forall bytes, rest | Typed(all, bytes, rest)
        ensures Process(start, all, prompt) == Returned(bytes, start.out + bytes + [13, 10], rest)
      {
        TypedIs(start, all, bytes, rest, prompt);
      }
      ok := EditLine(oldLen, prompt, start);
    }
  }
}
