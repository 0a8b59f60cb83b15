/** The editor's undo stack (cmd/levee/undo.c), for stacks that stay within their core block.

    An entry of the stack says how to revert one edit.  fixcore reverts them all, newest first,
    and records how to revert that; so undoing twice is redoing. */
module Undo {
  const SIZE: nat := 32760
  const PAGESIZE: nat := 1024
  const U_ADDC: int := 65
  const U_MOVEC: int := 77
  const U_DELC: int := 68
  const MAGICNUMBER: int := 42

  /** A word of the stack: a number, or two bytes of text. */
  datatype Word = Num(n: int) | Pair(lo: char, hi: char)

  // ----- edits and how to revert them -----

  /** Text of this size was inserted; this text was deleted; this text was overwritten. */
  datatype Entry = Inserted(start: nat, size: nat) | Deleted(start: nat, text: seq<char>)
    | Overwritten(start: nat, text: seq<char>)

  /** Entries, the newest outermost. */
  datatype Log = Nil | Snoc(rest: Log, e: Entry)

  predicate Fits(len: nat, e: Entry)
  {
    match e
    case Inserted(start, size) => start + size <= len
    case Deleted(start, _) => start <= len
    case Overwritten(start, text) => start + |text| <= len
  }

  function RevertedLen(len: nat, e: Entry): nat
    requires Fits(len, e)
  {
    match e
    case Inserted(_, size) => len - size
    case Deleted(_, text) => len + |text|
    case Overwritten(_, _) => len
  }

  /** The text before the edit. */
  function Revert(t: seq<char>, e: Entry): (r: seq<char>)
    requires Fits(|t|, e)
    ensures |r| == RevertedLen(|t|, e)
  {
    match e
    case Inserted(start, size) => t[..start] + t[start + size..]
    case Deleted(start, text) => t[..start] + text + t[start..]
    case Overwritten(start, text) => t[..start] + text + t[start + |text|..]
  }

  /** The entry that reverting e on t leaves behind. */
  function Inverse(t: seq<char>, e: Entry): (r: Entry)
    requires Fits(|t|, e)
  {
    match e
    case Inserted(start, size) => Deleted(start, t[start..start + size])
    case Deleted(start, text) => Inserted(start, |text|)
    case Overwritten(start, text) => Overwritten(start, t[start..start + |text|])
  }

  /** Putting x in place of the n characters at i, and those back in place of x, changes nothing. */
  lemma Swapped(t: seq<char>, i: nat, n: nat, x: seq<char>)
    requires i + n <= |t|
    ensures var r := t[..i] + x + t[i + n..];
            && |r| == |t| - n + |x| && r[i..i + |x|] == x
            && r[..i] + t[i..i + n] + r[i + |x|..] == t
  {
    var r := t[..i] + x + t[i + n..];
    assert r[..i] == t[..i] && r[i + |x|..] == t[i + n..];
    assert t == t[..i] + t[i..i + n] + t[i + n..];
  }

  lemma TakenBack(t: seq<char>, i: nat, n: nat)
    requires i + n <= |t|
    ensures var r := t[..i] + t[i + n..]; r[..i] + t[i..i + n] + r[i..] == t
  {
    Swapped(t, i, n, []);
    assert t[..i] + [] + t[i + n..] == t[..i] + t[i + n..];
  }

  lemma PutAndTaken(t: seq<char>, i: nat, x: seq<char>)
    requires i <= |t|
    ensures var r := t[..i] + x + t[i..]; r[..i] + r[i + |x|..] == t
  {
    Swapped(t, i, 0, x);
    var r := t[..i] + x + t[i..];
    assert r[..i] + [] + r[i + |x|..] == r[..i] + r[i + |x|..];
  }

  lemma RevertInverse(t: seq<char>, e: Entry)
    requires Fits(|t|, e)
    ensures Fits(|Revert(t, e)|, Inverse(t, e)) && Revert(Revert(t, e), Inverse(t, e)) == t
  {
    match e
    case Inserted(start, size) =>
      TakenBack(t, start, size);
    case Deleted(start, text) =>
      PutAndTaken(t, start, text);
    case Overwritten(start, text) =>
      Swapped(t, start, |text|, text);
  }

  predicate AllFit(len: nat, log: Log)
    decreases log
  {
    log.Nil? || (Fits(len, log.e) && AllFit(RevertedLen(len, log.e), log.rest))
  }

  /** The text before all the edits of the log. */
  function Unwind(t: seq<char>, log: Log): (r: seq<char>)
    requires AllFit(|t|, log)
    decreases log
  {
    if log.Nil? then t else Unwind(Revert(t, log.e), log.rest)
  }

  function Index(size: nat): nat
  {
    (1 + size) / 2
  }

  function Lump(e: Entry): nat
  {
    if e.Inserted? then e.size else |e.text|
  }

  /** Words needed to record the inverse of e, or of all the log. */
  function InverseSize(e: Entry): nat
  {
    3 + (if e.Deleted? then 0 else Index(Lump(e)))
  }

  function InverseWords(log: Log): nat
  {
    if log.Nil? then 0 else InverseWords(log.rest) + InverseSize(log.e)
  }

  /** Is there room in the buffer to put deleted text back?  putin makes the gap after bufmax has
      grown, so it moves as many bytes again as the text has. */
  predicate RoomFor(len: nat, e: Entry)
  {
    e.Deleted? ==> len + |e.text| < SIZE && len + 2 * |e.text| <= SIZE + 1
  }

  predicate Room(len: nat, log: Log)
    requires AllFit(len, log)
    decreases log
  {
    log.Nil? || (RoomFor(len, log.e) && Room(RevertedLen(len, log.e), log.rest))
  }

  /** How reverting an entry ends, or fixcore: done, stopped for want of room, or moving bytes past
      the end of the buffer. */
  datatype End = Done | Full | Overrun

  function StepEnd(len: nat, e: Entry): End
  {
    if !e.Deleted? then Done
    else if len + |e.text| >= SIZE then Full
    else if len + 2 * |e.text| > SIZE + 1 then Overrun
    else Done
  }

  function EndOf(len: nat, log: Log): End
    requires AllFit(len, log)
    decreases log
  {
    if log.Nil? then Done
    else if !StepEnd(len, log.e).Done? then StepEnd(len, log.e)
    else EndOf(RevertedLen(len, log.e), log.rest)
  }

  lemma {:induction false} RoomIsDone(len: nat, log: Log)
    requires AllFit(len, log)
    ensures Room(len, log) <==> EndOf(len, log).Done?
    decreases log
  {
    if log.Snoc? {
      RoomIsDone(RevertedLen(len, log.e), log.rest);
    }
  }

  // ----- redoing -----

  /** The other stack's entries after e has been reverted on t: nothing is recorded for nothing. */
  function Logged(t: seq<char>, slog: Log, e: Entry): Log
    requires Fits(|t|, e)
  {
    if e.Inserted? && e.size == 0 then slog else Snoc(slog, Inverse(t, e))
  }

  /** The log that undoing `log` on t leaves, on top of slog. */
  function Reversed(t: seq<char>, log: Log, slog: Log): Log
    requires AllFit(|t|, log)
    decreases log
  {
    if log.Nil? then slog else Reversed(Revert(t, log.e), log.rest, Logged(t, slog, log.e))
  }

  /** Is there room to redo an insertion, seen from the text that has it? */
  predicate RedoRoomFor(len: nat, e: Entry)
  {
    e.Inserted? && e.size > 0 ==> len < SIZE && len + e.size <= SIZE + 1
  }

  predicate RedoRoom(len: nat, log: Log)
    requires AllFit(len, log)
    decreases log
  {
    log.Nil? || (RedoRoomFor(len, log.e) && RedoRoom(RevertedLen(len, log.e), log.rest))
  }

  /** There is room to undo what undoing leaves if and only if there was room to redo. */
  lemma {:induction false} RedoExactly(t: seq<char>, log: Log, slog: Log)
    requires AllFit(|t|, log) && AllFit(|t|, slog)
    ensures AllFit(|Unwind(t, log)|, Reversed(t, log, slog))
    ensures Room(|Unwind(t, log)|, Reversed(t, log, slog)) <==> RedoRoom(|t|, log) && Room(|t|, slog)
    decreases log
  {
    if log.Snoc? {
      var e := log.e;
      RevertInverse(t, e);
      if e.Inserted? && e.size == 0 {
        assert |Revert(t, e)| == |t|;
      } else {
        assert RoomFor(|Revert(t, e)|, Inverse(t, e)) <==> RedoRoomFor(|t|, e);
      }
      RedoExactly(Revert(t, e), log.rest, Logged(t, slog, e));
    }
  }

  /** An insertion of 1000 characters that can be undone: redoing it passes putin's test and moves
      bytes past the end of the buffer. */
  lemma RedoOverruns(t: seq<char>)
    requires |t| == 32000
    ensures var log := Snoc(Nil, Inserted(0, 1000));
            && AllFit(|t|, log) && Room(|t|, log) && InverseWords(log) <= PAGESIZE && !RedoRoom(|t|, log)
            && AllFit(|Unwind(t, log)|, Reversed(t, log, Nil))
            && EndOf(|Unwind(t, log)|, Reversed(t, log, Nil)).Overrun?
  {
    var e := Inserted(0, 1000);
    assert Unwind(t, Snoc(Nil, e)) == Revert(t, e);
    assert Reversed(t, Snoc(Nil, e), Nil) == Snoc(Nil, Inverse(t, e));
  }

  // ----- entries as words -----

  function Code(e: Entry): int
  {
    match e
    case Inserted(_, _) => U_DELC
    case Deleted(_, _) => U_ADDC
    case Overwritten(_, _) => U_MOVEC
  }

  function TextOf(e: Entry): seq<char>
  {
    if e.Inserted? then [] else e.text
  }

  function Words(e: Entry): nat
  {
    Index(|TextOf(e)|) + 3
  }

  /** Text two bytes to a word; the unused half of a last word repeats the byte. */
  function Pack(text: seq<char>): (ws: seq<Word>)
    ensures |ws| == Index(|text|)
  {
    seq(Index(|text|), i requires 0 <= i < Index(|text|) =>
      Pair(text[2 * i], if 2 * i + 1 < |text| then text[2 * i + 1] else text[2 * i]))
  }

  lemma PackAt(text: seq<char>, k: nat)
    requires k < |text|
    ensures k / 2 < |Pack(text)| && Pack(text)[k / 2].Pair?
    ensures text[k] == if k % 2 == 0 then Pack(text)[k / 2].lo else Pack(text)[k / 2].hi
  {
    assert k == 2 * (k / 2) + k % 2;
  }

  lemma Stored(before: seq<char>, c: seq<char>, text: seq<char>, start: nat, k: nat)
    requires start + |text| <= |before| && k < |text| && c == before[..start] + text[..k] + before[start + k..]
    ensures c[start + k := text[k]] == before[..start] + text[..k + 1] + before[start + (k + 1)..]
  {
  }

  /** An entry without its code. */
  function Body(e: Entry): (ws: seq<Word>)
    ensures |ws| == Words(e) - 1
  {
    Pack(TextOf(e)) + [Num(Lump(e)), Num(e.start)]
  }

  /** The words of a stack, oldest entry first. */
  function Encode(log: Log): (ws: seq<Word>)
  {
    if log.Nil? then [] else Encode(log.rest) + Body(log.e) + [Num(Code(log.e))]
  }

  // ----- what moving text does -----

  /** n characters copied from src to dest, whether they overlap or not. */
  function Moved(c: seq<char>, src: nat, dest: nat, n: nat): (r: seq<char>)
    requires src + n <= |c| && dest + n <= |c|
    ensures |r| == |c|
  {
    c[..dest] + c[src..src + n] + c[dest + n..]
  }

  function Placed(c: seq<char>, start: nat, text: seq<char>): (r: seq<char>)
    requires start + |text| <= |c|
    ensures |r| == |c|
  {
    c[..start] + text + c[start + |text|..]
  }

  /** One more character, from left to right. */
  lemma MovedLeft(c: seq<char>, src: nat, dest: nat, k: nat)
    requires dest <= src && src + k < |c|
    ensures var m := Moved(c, src, dest, k); m[dest + k := m[src + k]] == Moved(c, src, dest, k + 1)
  {
    var m := Moved(c, src, dest, k);
    assert m[src + k] == c[src + k];
    assert c[src..src + (k + 1)] == c[src..src + k] + [c[src + k]];
  }

  /** One more character, from right to left. */
  lemma MovedRight(c: seq<char>, src: nat, dest: nat, n: nat, src': nat, dest': nat, n': nat)
    requires src <= dest && dest + n <= |c| && src' + 1 == src && dest' + 1 == dest && n' == n + 1
    ensures var m := Moved(c, src, dest, n); m[dest' := m[src']] == Moved(c, src', dest', n')
  {
    var m := Moved(c, src, dest, n);
    assert m[src'] == c[src'];
    assert c[src'..src' + n'] == [c[src']] + c[src..src + n];
  }

  lemma GapClosed(c: seq<char>, start: nat, lump: nat, bufmax: nat)
    requires start + lump <= bufmax <= |c|
    ensures Moved(c, start + lump, start, bufmax - (start + lump))[..bufmax - lump] ==
      Revert(c[..bufmax], Inserted(start, lump))
  {
    var c' := Moved(c, start + lump, start, bufmax - (start + lump));
    assert c[start + lump..bufmax] == c[..bufmax][start + lump..];
    assert c'[..bufmax - lump] == c[..start] + c[start + lump..bufmax];
  }

  lemma TextReplaced(c: seq<char>, start: nat, text: seq<char>, bufmax: nat)
    requires start + |text| <= bufmax <= |c|
    ensures Placed(c, start, text)[..bufmax] == Revert(c[..bufmax], Overwritten(start, text))
  {
  }

  lemma GapFilled(c: seq<char>, start: nat, m: nat, text: seq<char>, n: nat, bufmax: nat, bufmax': nat)
    requires start <= bufmax <= start + n && m + n <= |c| && m == start + |text| && bufmax' == bufmax + |text|
    ensures Placed(Moved(c, start, m, n), start, text)[..bufmax'] == Revert(c[..bufmax], Deleted(start, text))
  {
    var c1 := Moved(c, start, m, n);
    var c' := Placed(c1, start, text);
    var k := bufmax - start;
    assert c1[m..m + n] == c[start..start + n];
    assert c'[m..m + n] == c1[m..m + n];
    assert c'[m..m + k] == c'[m..m + n][..k];
    assert c[start..start + n][..k] == c[..bufmax][start..];
    assert c'[..m] == c[..start] + text;
    assert c'[..bufmax'] == c'[..m] + c'[m..m + k];
  }

  lemma TextInserted(c: seq<char>, start: nat, text: seq<char>, bufmax: nat)
    requires start <= bufmax && bufmax + |text| <= |c|
    ensures var t := c[..bufmax];
            var t' := Placed(Moved(c, start, start + |text|, bufmax - start), start, text)[..bufmax + |text|];
            t' == t[..start] + text + t[start..] && Revert(t', Inserted(start, |text|)) == t
  {
    GapFilled(c, start, start + |text|, text, bufmax - start, bufmax, bufmax + |text|);
    RevertInverse(c[..bufmax], Deleted(start, text));
  }

  lemma SliceOf(c: seq<char>, n: nat, start: nat, lump: nat)
    requires start + lump <= n <= |c|
    ensures c[..n][start..start + lump] == c[start..start + lump]
  {
  }

  lemma NothingTaken(t: seq<char>, e: Entry)
    requires e.Inserted? && e.size == 0 && e.start <= |t|
    ensures Revert(t, e) == t
  {
  }

  /** A stack with one more entry. */
  function Recorded(ws: seq<Word>, e: Entry): seq<Word>
  {
    ws + Body(e) + [Num(Code(e))]
  }

  /** Entry e has been reverted, and the other stack says how to revert that. */
  predicate Undone(t: seq<char>, t': seq<char>, ws: seq<Word>, ws': seq<Word>, e: Entry)
    requires Fits(|t|, e)
  {
    t' == Revert(t, e) && ws' == if e.Inserted? && e.size == 0 then ws else Recorded(ws, Inverse(t, e))
  }

  /** The log leads from text t back to text base. */
  ghost predicate Leads(t: seq<char>, log: Log, base: seq<char>)
  {
    AllFit(|t|, log) && Unwind(t, log) == base
  }

  lemma LeadsOn(t: seq<char>, pending: Log, base: seq<char>)
    requires pending.Snoc? && Leads(t, pending, base)
    ensures Leads(Revert(t, pending.e), pending.rest, base)
    ensures InverseWords(pending) == InverseWords(pending.rest) + InverseSize(pending.e)
  {
  }

  lemma StillLeads(t: seq<char>, e: Entry, slog: Log, t0: seq<char>)
    requires Fits(|t|, e) && Leads(t, slog, t0)
    ensures Leads(Revert(t, e), Logged(t, slog, e), t0)
    ensures InverseWords(Logged(t, slog, e)) <= InverseWords(slog) + Words(e)
    ensures |Encode(Logged(t, slog, e))| <= |Encode(slog)| + InverseSize(e)
  {
    if e.Inserted? && e.size == 0 {
      NothingTaken(t, e);
    } else {
      RevertInverse(t, e);
    }
  }

  lemma StillBase(t: seq<char>, t': seq<char>, log: Log, base: seq<char>, e: Entry)
    requires Leads(t, log, base) && Fits(|t'|, e) && Revert(t', e) == t
    ensures Leads(t', Snoc(log, e), base)
  {
  }

  lemma EncodedWords(log: Log)
    ensures log.Snoc? ==> |Encode(log)| == |Encode(log.rest)| + Words(log.e)
  {
  }

  /** Where the edit that is undone last was; r if there is none. */
  function Oldest(log: Log, r: int): int
  {
    if log.Nil? then r else Oldest(log.rest, log.e.start)
  }

  /** The first place that was edited, but at most top. */
  function Lowest(log: Log, top: int): int
  {
    if log.Nil? then top else Lowest(log.rest, if log.e.start < top then log.e.start else top)
  }

  /** The places of the edits, oldest first. */
  ghost function Starts(log: Log): (r: seq<nat>)
    ensures r == [] <==> log.Nil?
  {
    if log.Nil? then [] else Starts(log.rest) + [log.e.start]
  }

  lemma {:induction false} OldestIs(log: Log, r: int)
    ensures Oldest(log, r) == if log.Nil? then r else Starts(log)[0]
  {
    if log.Snoc? {
      OldestIs(log.rest, log.e.start);
    }
  }

  lemma {:induction false} LowestIs(log: Log, top: int)
    ensures Lowest(log, top) <= top && forall s :: s in Starts(log) ==> Lowest(log, top) <= s
    ensures Lowest(log, top) == top || Lowest(log, top) in Starts(log)
  {
    if log.Snoc? {
      LowestIs(log.rest, if log.e.start < top then log.e.start else top);
      assert log.e.start in Starts(log);
    }
  }

  lemma {:induction false} LowestFound(log: Log, top: int)
    requires log.Snoc? && log.e.start < top
    ensures Lowest(log, top) in Starts(log)
  {
    LowestIs(log.rest, log.e.start);
  }

  // ----- the stack -----

  class UndoStack {
    var ptr: nat
    const block: array<Word>

    ghost predicate Valid()
      reads this
    {
      block.Length == PAGESIZE && ptr <= PAGESIZE
    }

    ghost function Contents(): seq<Word>
      requires Valid()
      reads this, block
    {
      block[..ptr]
    }

    constructor ()
      ensures Valid() && ptr == 0 && fresh(block)
    {
      ptr := 0;
      block := new Word[PAGESIZE](_ => Num(0));
    }

    method Pushw(n: int)
      requires Valid() && ptr < PAGESIZE
      modifies this, block
      ensures Valid() && Contents() == old(Contents()) + [Num(n)]
    {
      block[ptr] := Num(n);
      ptr := ptr + 1;
    }

    /** The text core[start..start + size], two bytes to a word. */
    method Pushmem(core: array<char>, start: nat, size: nat)
      requires Valid() && ptr + Index(size) <= PAGESIZE && start + size <= core.Length
      modifies this, block
      ensures Valid() && Contents() == old(Contents()) + Pack(core[..][start..start + size])
    {
      ghost var text := core[..][start..start + size];
      var i := 0;
      while i < Index(size)
        invariant 0 <= i <= Index(size) && ptr == old(ptr)
        invariant block[..ptr + i] == old(block[..ptr]) + Pack(text)[..i]
      {
        var k := start + 2 * i;
        block[ptr + i] := Pair(core[k], if 2 * i + 1 < size then core[k + 1] else core[k]);
        assert block[ptr + i] == Pack(text)[i];
        i := i + 1;
      }
      ptr := ptr + Index(size);
    }

    method Uputcmd(size: nat, start: nat, cmd: int)
      requires Valid() && ptr + 3 <= PAGESIZE
      modifies this, block
      ensures Valid() && Contents() == old(Contents()) + [Num(size), Num(start), Num(cmd)]
    {
      Pushw(size);
      Pushw(start);
      Pushw(cmd);
    }

    /** popw: fails on the empty stack. */
    method Popw() returns (ok: bool, n: int)
      requires Valid() && (ptr > 0 ==> Contents()[ptr - 1].Num?)
      modifies this`ptr
      ensures Valid() && (ok <==> old(Contents()) != [])
      ensures ok ==> old(Contents()) == Contents() + [Num(n)]
      ensures !ok ==> ptr == old(ptr)
    {
      if ptr < 1 {
        return false, 0;
      }
      ptr := ptr - 1;
      return true, block[ptr].n;
    }

    /** popmem: what pushmem has pushed goes back to the text. */
    method Popmem(core: array<char>, start: nat, size: nat, ghost text: seq<char>, ghost below: seq<Word>)
      requires Valid() && start + size <= core.Length && |text| == size && Contents() == below + Pack(text)
      modifies this`ptr, core
      ensures Valid() && Contents() == below
      ensures core[..] == Placed(old(core[..]), start, text)
    {
      var from := ptr - Index(size);
      ghost var before := core[..];
      var k := 0;
      while k < size
        invariant 0 <= k <= size
        invariant core[..] == before[..start] + text[..k] + before[start + k..]
      {
        PackAt(text, k);
        assert block[from + k / 2] == (below + Pack(text))[from + k / 2];
        Stored(before, core[..], text, start, k);
        var w := block[from + k / 2];
        core[start + k] := if k % 2 == 0 then w.lo else w.hi;
        k := k + 1;
      }
      assert text[..size] == text;
      ptr := from;
    }
  }

  // ----- the editor -----

  class Editor {
    const core: array<char>
    var bufmax: nat
    const undo: UndoStack
    const save: UndoStack            // the static save_undo of fixcore
    ghost var log: Log               // what is on the undo stack
    ghost var base: seq<char>        // the text before the edits in the log

    ghost predicate Shape()
      reads this, undo, save
    {
      && core.Length == SIZE + 1 && bufmax <= SIZE && undo != save && undo.block != save.block
      && undo.Valid() && save.Valid()
    }

    ghost function Text(): seq<char>
      requires Shape()
      reads this, undo, save, core
    {
      core[..][..bufmax]
    }

    ghost predicate Valid()
      reads this, undo, save, core, undo.block
    {
      && Shape() && undo.Contents() == Encode(log) && Leads(Text(), log, base)
    }

    constructor (text: seq<char>)
      requires |text| <= SIZE
      ensures Valid() && Text() == text == base && log.Nil?
    {
      var a := new char[SIZE + 1](i => if 0 <= i < |text| then text[i] else ' ');
      core, bufmax := a, |text|;
      undo := new UndoStack();
      save := new UndoStack();
      log, base := Nil, text;
      new;
      assert core[..][..bufmax] == text;
    }

    method Moveleft(src: nat, dest: nat, length: nat)
      requires dest <= src && src + length <= core.Length
      modifies core
      ensures core[..] == Moved(old(core[..]), src, dest, length)
    {
      ghost var c := core[..];
      assert Moved(c, src, dest, 0) == c;
      var k := 0;
      while k < length
        invariant 0 <= k <= length && core[..] == Moved(c, src, dest, k)
      {
        MovedLeft(c, src, dest, k);
        core[dest + k] := core[src + k];
        k := k + 1;
      }
    }

    method Moveright(src: nat, dest: nat, length: nat)
      requires src <= dest && dest + length <= core.Length
      modifies core
      ensures core[..] == Moved(old(core[..]), src, dest, length)
    {
      ghost var c := core[..];
      var s, d, n := src + length, dest + length, 0;
      assert Moved(c, s, d, 0) == c;
      while n < length
        invariant 0 <= n <= length && s == src + (length - n) && d == dest + (length - n)
          && core[..] == Moved(c, s, d, n)
      {
        var s', d', n' := s - 1, d - 1, n + 1;
        MovedRight(c, s, d, n, s', d', n');
        core[d'] := core[s'];
        s, d, n := s', d', n';
      }
      assert s == src && d == dest && n == length;
    }

    /** insert_to_undo, once the text is in place. */
    method InsertToUndo(u: UndoStack, start: nat, size: nat)
      requires Shape() && (u == undo || u == save) && u.ptr + 3 <= PAGESIZE && bufmax + size <= SIZE
      modifies this`bufmax, u, u.block
      ensures Shape() && bufmax == old(bufmax) + size
      ensures u.Contents() == Recorded(old(u.Contents()), Inserted(start, size))
    {
      u.Uputcmd(size, start, U_DELC);
      bufmax := bufmax + size;
    }

    /** pushmem and uputcmd, for text that is still in the buffer. */
    method RecordText(u: UndoStack, start: nat, lump: nat, cmd: int, ghost e: Entry)
      requires Shape() && (u == undo || u == save) && start + lump <= bufmax && u.ptr + Index(lump) + 3 <= PAGESIZE
      requires !e.Inserted? && e.start == start && e.text == core[..][start..start + lump] && cmd == Code(e)
      modifies u, u.block
      ensures Shape() && u.Contents() == Recorded(old(u.Contents()), e)
    {
      u.Pushmem(core, start, lump);
      u.Uputcmd(lump, start, cmd);
    }

    method MoveToUndo(u: UndoStack, start: nat, lump: nat, ghost e: Entry)
      requires Shape() && (u == undo || u == save) && start + lump <= bufmax && u.ptr + Index(lump) + 3 <= PAGESIZE
      requires e.Overwritten? && e.start == start && e.text == core[..][start..start + lump]
      modifies u, u.block
      ensures Shape() && u.Contents() == Recorded(old(u.Contents()), e)
    {
      RecordText(u, start, lump, U_MOVEC, e);
    }

    method CloseGap(start: nat, lump: nat)
      requires Shape() && start + lump <= bufmax
      modifies this`bufmax, core
      ensures Shape() && bufmax == old(bufmax) - lump
      ensures Text() == Revert(old(Text()), Inserted(start, lump))
    {
      ghost var c := core[..];
      Moveleft(start + lump, start, bufmax - (start + lump));
      GapClosed(c, start, lump, bufmax);
      bufmax := bufmax - lump;
    }

    method DeleteToUndo(u: UndoStack, start: nat, lump: int, ghost e: Entry)
      requires Shape() && (u == undo || u == save)
      requires lump > 0 ==> start + lump <= bufmax && u.ptr + Index(lump) + 3 <= PAGESIZE
      requires lump > 0 ==> e.Deleted? && e.start == start && e.text == core[..][start..start + lump]
      modifies this`bufmax, core, u, u.block
      ensures Shape()
      ensures lump <= 0 ==> Text() == old(Text()) && u.Contents() == old(u.Contents())
      ensures lump > 0 ==>
        && u.Contents() == Recorded(old(u.Contents()), e)
        && Text() == Revert(old(Text()), Inserted(start, lump))
    {
      if lump <= 0 {
        return;
      }
      RecordText(u, start, lump, U_ADDC, e);
      CloseGap(start, lump);
    }

    // ----- the way out of the undo stack -----

    /** The two popw calls of takeout, copyover and putin. */
    method PopHeader(ghost e: Entry, ghost below: seq<Word>) returns (curp: nat, lump: nat)
      requires Shape() && undo.Contents() == below + Body(e)
      modifies undo`ptr
      ensures Shape() && curp == e.start && lump == Lump(e) && undo.Contents() == below + Pack(TextOf(e))
    {
      var ok, i := undo.Popw();
      var ok', j := undo.Popw();
      assert undo.Contents() + [Num(j)] + [Num(i)] == below + Pack(TextOf(e)) + [Num(Lump(e))] + [Num(e.start)];
      return i, j;
    }

    /** takeout: delete what was inserted. */
    method Takeout(ghost e: Entry, ghost below: seq<Word>) returns (ok: bool, curp: int)
      requires Shape() && undo.Contents() == below + Body(e) && e.Inserted? && Fits(bufmax, e)
      requires save.ptr + InverseSize(e) <= PAGESIZE
      modifies this`bufmax, core, undo`ptr, save, save.block
      ensures Shape() && ok && curp == e.start && undo.Contents() == below
      ensures Undone(old(Text()), Text(), old(save.Contents()), save.Contents(), e)
    {
      ghost var t := Text();
      var start, lump := PopHeader(e, below);
      SliceOf(core[..], bufmax, start, lump);
      DeleteToUndo(save, start, lump, Inverse(t, e));
      if lump == 0 {
        NothingTaken(t, e);
      }
      return true, start;
    }

    /** The popmem of copyover. */
    method PutBack(start: nat, lump: nat, ghost text: seq<char>, ghost below: seq<Word>)
      requires Shape() && undo.Contents() == below + Pack(text) && |text| == lump && start + lump <= bufmax
      modifies core, undo`ptr
      ensures Shape() && undo.Contents() == below && Text() == Revert(old(Text()), Overwritten(start, text))
    {
      ghost var c := core[..];
      undo.Popmem(core, start, lump, text, below);
      TextReplaced(c, start, text, bufmax);
    }

    /** copyover: put back what was overwritten. */
    method Copyover(ghost e: Entry, ghost below: seq<Word>) returns (ok: bool, curp: int)
      requires Shape() && undo.Contents() == below + Body(e) && e.Overwritten? && Fits(bufmax, e)
      requires save.ptr + InverseSize(e) <= PAGESIZE
      modifies core, undo`ptr, save, save.block
      ensures Shape() && ok && curp == e.start && undo.Contents() == below
      ensures Undone(old(Text()), Text(), old(save.Contents()), save.Contents(), e)
    {
      ghost var t := Text();
      var start, lump := PopHeader(e, below);
      SliceOf(core[..], bufmax, start, lump);
      MoveToUndo(save, start, lump, Inverse(t, e));
      PutBack(start, lump, e.text, below);
      return true, start;
    }

    /** The moveright and popmem of putin, after bufmax has grown; t is the text. */
    method Refill(start: nat, lump: nat, ghost text: seq<char>, ghost below: seq<Word>, ghost t: seq<char>)
      requires Shape() && undo.Contents() == below + Pack(text) && |text| == lump && start <= |t|
        && bufmax + lump <= SIZE + 1
      requires bufmax == |t| + lump && core[..][..|t|] == t
      modifies core, undo`ptr
      ensures Shape() && undo.Contents() == below && Text() == Revert(t, Deleted(start, text))
    {
      ghost var c := core[..];
      var dest, n := start + lump, bufmax - start;
      GapFilled(c, start, dest, text, n, |t|, bufmax);
      Moveright(start, dest, n);
      undo.Popmem(core, start, lump, text, below);
    }

    /** putin: put back what was deleted.  It fails if the buffer cannot hold the text; and if it
        can, the bytes that are moved to make room may still go past the end of the buffer. */
    method Putin(ghost e: Entry, ghost below: seq<Word>) returns (end: End, curp: int)
      requires Shape() && undo.Contents() == below + Body(e) && e.Deleted? && Fits(bufmax, e)
      requires save.ptr + InverseSize(e) <= PAGESIZE
      modifies this`bufmax, core, undo`ptr, save, save.block
      ensures end == StepEnd(old(bufmax), e)
      ensures !end.Overrun? ==> Shape() && curp == e.start
      ensures end.Done? ==> undo.Contents() == below
      ensures end.Done? ==> Undone(old(Text()), Text(), old(save.Contents()), save.Contents(), e)
      ensures end.Full? ==> Text() == old(Text()) && save.Contents() == old(save.Contents())
    {
      var start, lump := PopHeader(e, below);
      if bufmax + lump >= SIZE {
        return Full, start;
      }
      ghost var t := Text();
      InsertToUndo(save, start, lump);
      if bufmax + lump > core.Length {
        return Overrun, start;
      }
      Refill(start, lump, e.text, below, t);
      return Done, start;
    }

    /** The switch of fixcore, on the code that was popped. */
    method UndoOne(cch: int, ghost e: Entry, ghost below: seq<Word>) returns (end: End, curp: int)
      requires Shape() && cch == Code(e) && undo.Contents() == below + Body(e) && Fits(bufmax, e)
      requires save.ptr + InverseSize(e) <= PAGESIZE
      modifies this`bufmax, core, undo`ptr, save, save.block
      ensures end == StepEnd(old(bufmax), e)
      ensures !end.Overrun? ==> Shape() && curp == e.start
      ensures end.Done? ==> undo.Contents() == below
      ensures end.Done? ==> Undone(old(Text()), Text(), old(save.Contents()), save.Contents(), e)
      ensures end.Full? ==> Text() == old(Text()) && save.Contents() == old(save.Contents())
    {
      end := Done;
      var ok;
      if cch == U_ADDC {
        end, curp := Putin(e, below);
      } else if cch == U_MOVEC {
        ok, curp := Copyover(e, below);
      } else {
        ok, curp := Takeout(e, below);
      }
    }

    /** One turn of fixcore's loop; `more` is false when the stack is empty. */
    method Turn(ghost pending: Log, ghost slog: Log) returns (more: bool, end: End, curp: int)
      requires Shape() && undo.Contents() == Encode(pending) && save.Contents() == Encode(slog)
      requires pending.Snoc? ==> Fits(bufmax, pending.e) && save.ptr + InverseSize(pending.e) <= PAGESIZE
      modifies this`bufmax, core, undo`ptr, save, save.block
      ensures more <==> pending.Snoc?
      ensures end == if more then StepEnd(old(bufmax), pending.e) else Done
      ensures !end.Overrun? ==> Shape()
      ensures !more || end.Full? ==> Text() == old(Text()) && save.Contents() == old(save.Contents())
      ensures !more ==> undo.Contents() == old(undo.Contents())
      ensures more && end.Done? ==>
        && curp == pending.e.start && undo.Contents() == Encode(pending.rest)
        && Text() == Revert(old(Text()), pending.e)
        && save.Contents() == Encode(Logged(old(Text()), slog, pending.e))
    {
      curp, end := 0, Done;
      var cch;
      more, cch := undo.Popw();
      if more {
        end, curp := UndoOne(cch, pending.e, Encode(pending.rest));
      }
    }

    /** undo = save_undo */
    method TakeSaved()
      requires Shape()
      modifies undo, undo.block
      ensures Shape() && undo.Contents() == save.Contents()
    {
      undo.ptr := save.ptr;
      forall i | 0 <= i < PAGESIZE {
        undo.block[i] := save.block[i];
      }
    }

    /** The loop of fixcore. */
    method UndoAll() returns (end: End, r: int, topp: int, ghost slog: Log)
      requires Valid() && InverseWords(log) <= PAGESIZE && save.ptr == 0
      modifies this`bufmax, core, undo`ptr, save, save.block
      ensures end == EndOf(old(bufmax), log)
      ensures !end.Overrun? ==> Shape() && save.Contents() == Encode(slog) && Leads(Text(), slog, old(Text()))
      ensures end.Done? ==>
        && Text() == base && slog == Reversed(old(Text()), log, Nil)
        && InverseWords(slog) <= old(undo.ptr)
      ensures end.Done? ==> r == Oldest(log, -MAGICNUMBER) && topp == Lowest(log, SIZE + 1)
    {
      topp, r := SIZE + 1, -MAGICNUMBER;
      ghost var pending, t0, len0 := log, Text(), bufmax;
      slog, end := Nil, Done;
      var more := true;
      while more && end.Done?
        invariant !end.Overrun? ==> Shape() && save.Contents() == Encode(slog) && Leads(Text(), slog, t0)
        invariant end.Done? ==> undo.Contents() == Encode(pending) && Leads(Text(), pending, base)
        invariant end.Done? ==>
          && save.ptr + InverseWords(pending) <= PAGESIZE
          && InverseWords(slog) + undo.ptr <= old(undo.ptr)
        invariant end.Done? ==> Reversed(Text(), pending, slog) == Reversed(t0, log, Nil)
        invariant end.Done? ==>
          && Oldest(pending, r) == Oldest(log, -MAGICNUMBER)
          && Lowest(pending, topp) == Lowest(log, SIZE + 1)
        invariant EndOf(len0, log) == if end.Done? then EndOf(bufmax, pending) else end
        invariant !more ==> pending.Nil?
        decreases more, end.Done?, pending
      {
        ghost var t := Text();
        var curp;
        more, end, curp := Turn(pending, slog);
        if more && end.Done? {
          StillLeads(t, pending.e, slog, t0);
          LeadsOn(t, pending, base);
          EncodedWords(pending);
          r := curp;
          if curp < topp {
            topp := curp;
          }
          slog := Logged(t, slog, pending.e);
          pending := pending.rest;
        }
      }
    }

    /** fixcore.  It runs to its end exactly when at every undone deletion there is room for the
        text and for the bytes that are moved; then the text is as it was before the recorded
        edits, and the stack records how to get back.  If the buffer cannot hold a text it stops
        there, and the stack leads back to the edited text. */
    method Fixcore() returns (end: End, r: int, topp: int)
      requires Valid() && InverseWords(log) <= PAGESIZE
      modifies this`bufmax, this`log, this`base, core, undo, undo.block, save, save.block
      ensures end == EndOf(old(bufmax), old(log)) && (end.Done? <==> Room(old(bufmax), old(log)))
      ensures !end.Overrun? ==> Valid()
      ensures old(log).Nil? ==> r == -1 && Text() == old(Text()) && log.Nil? && base == old(base)
      ensures old(log).Snoc? && !end.Overrun? ==> base == old(Text())
      ensures end.Done? ==> log == Reversed(old(Text()), old(log), Nil) && InverseWords(log) <= old(undo.ptr)
      ensures end.Done? ==> Text() == old(base)
      ensures old(log).Snoc? && end.Done? ==>
        && r == Starts(old(log))[0] && topp in Starts(old(log))
        && forall s :: s in Starts(old(log)) ==> topp <= s
    {
      topp, end := 0, Done;
      EncodedWords(log);
      RoomIsDone(bufmax, log);
      if undo.ptr == 0 {
        return Done, -1, topp;
      }
      save.ptr := 0;
      ghost var slog;
      ghost var t0 := Text();
      OldestIs(log, -MAGICNUMBER);
      LowestIs(log, SIZE + 1);
      LowestFound(log, SIZE + 1);
      end, r, topp, slog := UndoAll();
      if end.Overrun? {
        return;
      }
      TakeSaved();
      log, base := slog, t0;
    }

    /** Undo and redo: two calls of fixcore give the edited text back, exactly when there is room
        both ways, which can be told from the log before the first call. */
    method UndoRedo() returns (between: seq<char>, redone: bool)
      requires Valid() && Room(bufmax, log) && InverseWords(log) <= PAGESIZE
      modifies this`bufmax, this`log, this`base, core, undo, undo.block, save, save.block
      ensures between == old(base)
      ensures redone <==> RedoRoom(old(bufmax), old(log))
      ensures redone ==> Valid() && Text() == old(Text()) && base == old(base)
    {
      ghost var t0, log0 := Text(), log;
      var end, r, topp := Fixcore();
      RedoExactly(t0, log0, Nil);
      between := core[..][..bufmax];
      end, r, topp := Fixcore();
      redone := end.Done?;
    }

    // ----- edits -----

    method Fill(start: nat, text: seq<char>)
      requires start + |text| <= core.Length
      modifies core
      ensures core[..] == Placed(old(core[..]), start, text)
    {
      var k := 0;
      ghost var before := core[..];
      while k < |text|
        invariant 0 <= k <= |text| && core[..] == before[..start] + text[..k] + before[start + k..]
      {
        Stored(before, core[..], text, start, k);
        core[start + k] := text[k];
        k := k + 1;
      }
      assert text[..k] == text;
    }

    method PutText(start: nat, text: seq<char>)
      requires Shape() && start <= bufmax && bufmax + |text| <= SIZE && undo.ptr + 3 <= PAGESIZE
      modifies this`bufmax, core, undo, undo.block
      ensures Shape() && bufmax == old(bufmax) + |text|
      ensures undo.Contents() == Recorded(old(undo.Contents()), Inserted(start, |text|))
      ensures Text() == old(Text())[..start] + text + old(Text())[start..]
      ensures Revert(Text(), Inserted(start, |text|)) == old(Text())
    {
      ghost var c := core[..];
      Moveright(start, start + |text|, bufmax - start);
      InsertToUndo(undo, start, |text|);
      Fill(start, text);
      TextInserted(c, start, text, old(bufmax));
    }

    /** An insertion: make room, record it, put the text there (as in cmd/levee/modify.c). */
    method Insert(start: nat, text: seq<char>)
      requires Valid() && start <= bufmax && bufmax + |text| <= SIZE && undo.ptr + 3 <= PAGESIZE
      modifies this`bufmax, this`log, core, undo, undo.block
      ensures Valid() && base == old(base) && log == Snoc(old(log), Inserted(start, |text|))
      ensures Text() == old(Text())[..start] + text + old(Text())[start..]
    {
      ghost var t := Text();
      PutText(start, text);
      StillBase(t, Text(), log, base, Inserted(start, |text|));
      log := Snoc(log, Inserted(start, |text|));
    }

    method Delete(start: nat, lump: nat)
      requires Valid() && 0 < lump && start + lump <= bufmax && undo.ptr + Index(lump) + 3 <= PAGESIZE
      modifies this`bufmax, this`log, core, undo, undo.block
      ensures Valid() && base == old(base) && log == Snoc(old(log), Deleted(start, old(Text())[start..start + lump]))
      ensures Text() == old(Text())[..start] + old(Text())[start + lump..]
    {
      ghost var t := Text();
      SliceOf(core[..], bufmax, start, lump);
      DeleteToUndo(undo, start, lump, Deleted(start, t[start..start + lump]));
      RevertInverse(t, Inserted(start, lump));
      StillBase(t, Text(), log, base, Deleted(start, t[start..start + lump]));
      log := Snoc(log, Deleted(start, t[start..start + lump]));
    }

    method ReplaceText(start: nat, text: seq<char>)
      requires Shape() && start + |text| <= bufmax
      modifies core
      ensures Shape() && Text() == old(Text())[..start] + text + old(Text())[start + |text|..]
      ensures Revert(Text(), Overwritten(start, old(Text())[start..start + |text|])) == old(Text())
    {
      ghost var c, t := core[..], Text();
      Fill(start, text);
      TextReplaced(c, start, text, bufmax);
      Swapped(t, start, |text|, text);
    }

    method Overwrite(start: nat, text: seq<char>)
      requires Valid() && start + |text| <= bufmax && undo.ptr + Index(|text|) + 3 <= PAGESIZE
      modifies this`log, core, undo, undo.block
      ensures Valid() && base == old(base) && log == Snoc(old(log),
        Overwritten(start, old(Text())[start..start + |text|]))
      ensures Text() == old(Text())[..start] + text + old(Text())[start + |text|..]
    {
      ghost var t := Text();
      ghost var e := Overwritten(start, t[start..start + |text|]);
      SliceOf(core[..], bufmax, start, |text|);
      MoveToUndo(undo, start, |text|, e);
      ReplaceText(start, text);
      ghost var t1 := Text();
      StillBase(t, t1, log, base, e);
      log := Snoc(log, e);
    }
  }
}
