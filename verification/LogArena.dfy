/** Log records and the copying of their string arguments into a slot's arena. */
module LogArena {
  import opened Powers

  type Text = seq<char>

  /** An argument as the caller passes it: a value stored inline, or a string the caller owns. */
  datatype Arg = Inline(value: int) | Str(text: Text)

  datatype Record = Record(meta: int, args: seq<Arg>)

  /** An argument as it sits in a slot: strings have become views into the arena, or the empty literal. */
  datatype StoredArg = StoredInline(value: int) | View(start: nat, len: nat) | EmptyView

  datatype Stored = Stored(meta: int, args: seq<StoredArg>)

  /** What an argument reads as when it is rendered. */
  datatype Reading = Number(value: int) | Chars(text: Text)

  datatype Line = Line(meta: int, readings: seq<Reading>)

  function ReadArg(arena: Text, a: StoredArg): Reading {
    match a
    case StoredInline(v) => Number(v)
    case View(start, len) => if start + len <= |arena| then Chars(arena[start..start + len]) else Chars([])
    case EmptyView => Chars([])
  }

  // ---------- What a reader is promised

  /** Arena bytes taken by the first i arguments, with room bytes in all. */
  function Used(args: seq<Arg>, i: nat, room: nat): (u: nat)
    requires i <= |args|
    ensures u <= room
  {
    if i == 0 then 0 else
    var u := Used(args, i - 1, room);
    u + (if args[i - 1].Str? then Min(|args[i - 1].text|, room - u) else 0)
  }

  /** How much of argument i is kept: all of it, or what the arena still has room for. */
  function CopyLen(args: seq<Arg>, i: nat, room: nat): (n: nat)
    requires i < |args| && args[i].Str?
    ensures n <= |args[i].text|
  {
    Min(|args[i].text|, room - Used(args, i, room))
  }

  /** Argument i as promised to the reader: a prefix of the caller's string, clipped only by the arena's end. */
  function Promised(args: seq<Arg>, i: nat, room: nat): Reading
    requires i < |args|
  {
    match args[i]
    case Inline(v) => Number(v)
    case Str(s) => Chars(s[..CopyLen(args, i, room)])
  }

  function PromisedAll(args: seq<Arg>, room: nat): (r: seq<Reading>)
    ensures |r| == |args|
  {
    seq(|args|, i requires 0 <= i < |args| => Promised(args, i, room))
  }

  function PromisedLine(rec: Record, room: nat): Line {
    Line(rec.meta, PromisedAll(rec.args, room))
  }

  /** The stored arguments read back, from this arena, as promised. */
  ghost predicate Faithful(arena: Text, stored: seq<StoredArg>, args: seq<Arg>, room: nat) {
    |stored| <= |args| &&
    forall j :: 0 <= j < |stored| ==> ReadArg(arena, stored[j]) == Promised(args, j, room)
  }

  /** Every view ends before the given bound. */
  ghost predicate Below(stored: seq<StoredArg>, bound: nat) {
    forall j :: 0 <= j < |stored| && stored[j].View? ==> stored[j].start + stored[j].len <= bound
  }

  // ---------- Copying one argument

  function Overwrite(arena: Text, at: nat, s: Text): (r: Text)
    requires at + |s| <= |arena|
    ensures |r| == |arena|
  {
    arena[..at] + s + arena[at + |s|..]
  }

  datatype Copied = Copied(arena: Text, used: nat, arg: StoredArg)

  function CopyArg(arena: Text, used: nat, a: Arg): (c: Copied)
    requires used <= |arena|
    ensures |c.arena| == |arena| && used <= c.used <= |arena|
  {
    match a
    case Inline(v) => Copied(arena, used, StoredInline(v))
    case Str(s) =>
      var n := Min(|s|, |arena| - used);
      if n > 0 then Copied(Overwrite(arena, used, s[..n]), used + n, View(used, n))
      else Copied(arena, used, EmptyView)
  }

  /** Copying argument i keeps the earlier ones readable and adds this one. */
  lemma {:induction false} CopyArgKeeps(arena: Text, stored: seq<StoredArg>, args: seq<Arg>)
    requires |stored| < |args| && Faithful(arena, stored, args, |arena|)
    requires Below(stored, Used(args, |stored|, |arena|))
    ensures var c := CopyArg(arena, Used(args, |stored|, |arena|), args[|stored|]);
            && c.used == Used(args, |stored| + 1, |arena|)
            && Faithful(c.arena, stored + [c.arg], args, |arena|)
            && Below(stored + [c.arg], c.used)
  {
    hide CopyArg, Used, Promised, ReadArg;
    var i, room := |stored|, |arena|;
    var c := CopyArg(arena, Used(args, i, room), args[i]);
    var after := stored + [c.arg];
    CopiedReads(arena, args, i);
    forall j | 0 <= j < |after| ensures ReadArg(c.arena, after[j]) == Promised(args, j, room) {
      if j < i {
        ReadKept(arena, c.arena, stored[j], Used(args, i, room));
      }
    }
  }

  lemma CopiedReads(arena: Text, args: seq<Arg>, i: nat)
    requires i < |args|
    ensures var c := CopyArg(arena, Used(args, i, |arena|), args[i]);
            && c.used == Used(args, i + 1, |arena|)
            && ReadArg(c.arena, c.arg) == Promised(args, i, |arena|)
            && (c.arg.View? ==> c.arg.start + c.arg.len == c.used)
            && c.arena[..Used(args, i, |arena|)] == arena[..Used(args, i, |arena|)]
  {
  }

  lemma ReadKept(arena: Text, arena': Text, a: StoredArg, used: nat)
    requires used <= |arena| == |arena'| && arena[..used] == arena'[..used]
    requires a.View? ==> a.start + a.len <= used
    ensures ReadArg(arena', a) == ReadArg(arena, a)
  {
    if a.View? {
      var lo, hi := a.start, a.start + a.len;
      assert arena[lo..hi] == arena[..used][lo..hi];
      assert arena'[lo..hi] == arena'[..used][lo..hi];
    }
  }

  /** The copying loop, on the arena in place: every string then reads back as its clipped prefix. */
  method CopyStrings(arena: array<char>, args: seq<Arg>) returns (stored: seq<StoredArg>)
    modifies arena
    ensures |stored| == |args| && Faithful(arena[..], stored, args, arena.Length)
    ensures Below(stored, Used(args, |args|, arena.Length))
  {
    stored := [];
    var used := 0;
    for i := 0 to |args|
      invariant |stored| == i && used == Used(args, i, arena.Length)
      invariant Faithful(arena[..], stored, args, arena.Length) && Below(stored, used)
    {
      CopyArgKeeps(arena[..], stored, args);
      var arg;
      used, arg := CopyOne(arena, used, args[i]);
      stored := stored + [arg];
    }
  }

  /** The body of the loop: copy what fits, or fall back to the empty literal. */
  method CopyOne(arena: array<char>, used: nat, a: Arg) returns (used': nat, arg: StoredArg)
    requires used <= arena.Length
    modifies arena
    ensures Copied(arena[..], used', arg) == CopyArg(old(arena[..]), used, a)
  {
    used' := used;
    match a
    case Inline(v) => arg := StoredInline(v);
    case Str(s) =>
      var toCopy := Min(|s|, arena.Length - used);
      if toCopy > 0 {
        CopyBytes(arena, used, s[..toCopy]);
        arg := View(used, toCopy);
        used' := used + toCopy;
      } else {
        arg := EmptyView;
      }
  }

  method CopyBytes(arena: array<char>, at: nat, s: Text)
    requires at + |s| <= arena.Length
    modifies arena
    ensures arena[..] == Overwrite(old(arena[..]), at, s)
  {
    for k := 0 to |s|
      invariant forall j :: 0 <= j < arena.Length ==> arena[j] == if at <= j < at + k then s[j - at] else old(arena[j])
    {
      arena[at + k] := s[k];
    }
  }
}
