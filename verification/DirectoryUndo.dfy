/**
 Wayback: operations on the names of one directory, the catalogue they leave, and replaying it backwards.
 Directories inside it are opaque: what they contain is not looked at.
 */
module DirectoryUndo {
  import opened Bytes
  import Cat = Catalogue

  datatype Kind = Regular | Directory | Symlink | Special

  /** What a name stands for: permission bits, owner and times; the change time is left out. */
  datatype Inode = Inode(kind: Kind, mode: u32, uid: u32, gid: u32, atime: u32, mtime: u32)

  type Names = map<string, Inode>

  const PERM_BITS: u32 := 0x1000

  predicate ValidNames(d: Names) {
    forall n | n in d :: d[n].mode < PERM_BITS
  }

  function TypeBits(kind: Kind): u32 {
    match kind
    case Regular => 0x8000
    case Directory => 0x4000
    case Symlink => 0xA000
    case Special => 0x1000
  }

  /** `lstat` */
  function Stat(i: Inode): Cat.Stats
    requires i.mode < PERM_BITS
  {
    Cat.Stats(TypeBits(i.kind) + i.mode, i.uid, i.gid, i.atime, i.mtime, 0)
  }

  datatype Op =
    | Create(time: u32, name: string, inode: Inode)
    | Mkdir(time: u32, name: string, inode: Inode)
    | Remove(time: u32, name: string, target: string)
    | Rmdir(time: u32, name: string, kept: string)
    | Rename(time: u32, from: string, to: string)
    | Link(time: u32, from: string, to: string)
    | Chmod(time: u32, name: string, mode: u32)
    | Chown(time: u32, name: string, uid: u32, gid: u32)
    | Utime(time: u32, name: string, atime: u32, mtime: u32)

  /** A catalogue entry with its names as strings. */
  datatype Record = Record(time: u32, action: u32, stats: Option<Cat.Stats>, file1: string, file2: string)

  /** The system call the callback makes succeeds; only then is anything logged or changed. */
  predicate Succeeds(d: Names, op: Op) {
    match op
    case Create(_, name, inode) => name !in d && !inode.kind.Directory? && inode.mode < PERM_BITS
    case Mkdir(_, name, inode) => name !in d && inode.kind.Directory? && inode.mode < PERM_BITS
    case Remove(_, name, _) => name in d && !d[name].kind.Directory?
    case Rmdir(_, name, kept) => name in d && d[name].kind.Directory? && kept !in d
    case Rename(_, from, to) => from in d && (to in d ==> (d[from].kind.Directory? <==> d[to].kind.Directory?))
    case Link(_, from, to) => from in d && to !in d && !d[from].kind.Directory?
    case _ => op.name in d
  }

  function Move(d: Names, from: string, to: string): Names
    requires from in d
  {
    if from == to then d else (d - {from})[to := d[from]]
  }

  /** `chmod` and `utime` act on what a link points to, not on the link. */
  function SetMode(d: Names, name: string, mode: u32): Names {
    if name in d && !d[name].kind.Symlink? then d[name := d[name].(mode := mode % PERM_BITS)] else d
  }

  function SetTimes(d: Names, name: string, atime: u32, mtime: u32): Names {
    if name in d && !d[name].kind.Symlink? then d[name := d[name].(atime := atime, mtime := mtime)] else d
  }

  /** `chown`; the callback uses `lchown`, which does act on a link. */
  function SetOwner(d: Names, name: string, uid: u32, gid: u32, follow: bool): Names {
    if name in d && !(follow && d[name].kind.Symlink?) then d[name := d[name].(uid := uid, gid := gid)] else d
  }

  function Apply(d: Names, op: Op): Names {
    if !Succeeds(d, op) then d
    else
      match op
      case Create(_, name, inode) => d[name := inode]
      case Mkdir(_, name, inode) => d[name := inode]
      case Remove(_, name, _) => d - {name}
      case Rmdir(_, name, kept) => Move(d, name, kept)
      case Rename(_, from, to) => Move(d, from, to)
      case Link(_, from, to) => d[to := d[from]]
      case Chmod(_, name, mode) => SetMode(d, name, mode)
      case Chown(_, name, uid, gid) => SetOwner(d, name, uid, gid, false)
      case Utime(_, name, atime, mtime) => SetTimes(d, name, atime, mtime)
  }

  /** What the callback logs: attributes as they were before, names as they were given. */
  function Logged(d: Names, op: Op): seq<Record>
    requires ValidNames(d)
  {
    if !Succeeds(d, op) then []
    else
      match op
      case Create(time, name, _) => [Record(time, Cat.VUD_CREATE, None, name, "")]
      case Mkdir(time, name, _) => [Record(time, Cat.VUD_MKDIR, None, name, "")]
      case Remove(time, name, target) =>
        [Record(time, Cat.VUD_RM, Some(Stat(d[name])), name, if d[name].kind.Symlink? then target else "")]
      case Rmdir(time, name, kept) => [Record(time, Cat.VUD_RMDIR, None, name, kept)]
      case Rename(time, from, to) => [Record(time, Cat.VUD_RENAME, None, from, to)]
      case Link(time, from, _) => [Record(time, Cat.VUD_CREATE, None, from, "")]
      case Chmod(time, name, _) => [Record(time, Cat.VUD_CHMOD, Some(Stat(d[name])), name, "")]
      case Chown(time, name, _, _) => [Record(time, Cat.VUD_CHOWN, Some(Stat(d[name])), name, "")]
      case Utime(time, name, _, _) => [Record(time, Cat.VUD_UTIME, Some(Stat(d[name])), name, "")]
  }

  /** A file just created by the replay, before its attributes are put back. */
  const BLANK := Inode(Regular, 0, 0, 0, 0, 0)

  function SetAll(d: Names, name: string, s: Cat.Stats): Names {
    SetTimes(SetOwner(SetMode(d, name, s.mode), name, s.uid, s.gid, true), name, s.atime, s.mtime)
  }

  /** `revertdirentry`. A file whose mode has its lowest bit set is taken for a link, which is then made elsewhere. */
  function Undo(r: Record, d: Names): Names {
    if r.action == Cat.VUD_CREATE then
      if r.file1 in d && !d[r.file1].kind.Directory? then d - {r.file1} else d
    else if r.action == Cat.VUD_MKDIR then
      if r.file1 in d && d[r.file1].kind.Directory? then d - {r.file1} else d
    else if r.action == Cat.VUD_RMDIR || r.action == Cat.VUD_RENAME then
      if Succeeds(d, Rename(r.time, r.file2, r.file1)) then Move(d, r.file2, r.file1) else d
    else if r.stats.None? then d
    else
      var s := r.stats.value;
      if r.action == Cat.VUD_RM then
        if Cat.ReadsAsLink(s.mode) then SetAll(d, r.file1, s)
        else if r.file1 in d && d[r.file1].kind.Directory? then d
        else SetAll(if r.file1 in d then d else d[r.file1 := BLANK], r.file1, s)
      else if r.action == Cat.VUD_CHMOD then SetMode(d, r.file1, s.mode)
      else if r.action == Cat.VUD_CHOWN then SetOwner(d, r.file1, s.uid, s.gid, true)
      else if r.action == Cat.VUD_UTIME then SetTimes(d, r.file1, s.atime, s.mtime)
      else d
  }

  function UndoAll(rs: seq<Record>, d: Names): Names {
    if rs == [] then d else UndoAll(rs[..|rs| - 1], Undo(rs[|rs| - 1], d))
  }

  function Run(d: Names, ops: seq<Op>): Names
    decreases |ops|
  {
    if ops == [] then d else Run(Apply(d, ops[0]), ops[1..])
  }

  lemma StaysValid(d: Names, op: Op)
    requires ValidNames(d)
    ensures ValidNames(Apply(d, op))
  {
  }

  function Log(d: Names, ops: seq<Op>): seq<Record>
    requires ValidNames(d)
    decreases |ops|
  {
    if ops == [] then []
    else
      StaysValid(d, ops[0]);
      Logged(d, ops[0]) + Log(Apply(d, ops[0]), ops[1..])
  }

  // ----- one operation -----

  /** The catalogue entry describes an inverse of the operation. */
  predicate Reversible(d: Names, op: Op) {
    Succeeds(d, op) ==>
      match op
      case Remove(_, name, _) => d[name].kind.Regular? && d[name].mode % 2 == 0
      case Rename(_, from, to) => to == from || to !in d
      case Link(_, _, _) => false
      case Chown(_, name, uid, gid) => !d[name].kind.Symlink? || (d[name].uid == uid && d[name].gid == gid)
      case _ => true
  }

  /** Undoing the newest entry restores every name with its inode, if and only if the operation is reversible. */
  lemma UndoOneExactly(d: Names, op: Op)
    requires ValidNames(d)
    ensures UndoAll(Logged(d, op), Apply(d, op)) == d <==> Reversible(d, op)
  {
    var e := Apply(d, op);
    if Succeeds(d, op) {
      var r := Logged(d, op)[0];
      assert [r][..0] == [];
      assert UndoAll([r], e) == Undo(r, e);
      match op
      case Remove(_, name, _) => UndoRemove(d, r, name);
      case Rename(_, from, to) =>
        if to != from {
          assert from !in Apply(d, op);
          assert (to in d ==> to !in Undo(r, e)) && (to !in d ==> Undo(r, e) == d);
        }
      case Link(_, from, to) => assert from !in Undo(r, e);
      case Rmdir(_, name, kept) => assert Undo(r, e) == d;
      case Create(_, name, _) => assert Undo(r, e) == d;
      case Mkdir(_, name, _) => assert Undo(r, e) == d;
      case Chmod(_, name, _) => assert Undo(r, e) == d;
      case Utime(_, name, _, _) => assert Undo(r, e) == d;
      case Chown(_, name, uid, gid) =>
        if d[name].kind.Symlink? {
          assert Undo(r, e)[name] == d[name].(uid := uid, gid := gid);
          if d[name].uid == uid && d[name].gid == gid { assert Undo(r, e) == d; }
        } else {
          assert Undo(r, e) == d;
        }
    }
  }

  lemma UndoRemove(d: Names, r: Record, name: string)
    requires name in d && !d[name].kind.Directory? && d[name].mode < PERM_BITS
    requires r.action == Cat.VUD_RM && r.stats == Some(Stat(d[name])) && r.file1 == name
    ensures Undo(r, d - {name}) == d <==> d[name].kind.Regular? && d[name].mode % 2 == 0
  {
  }

  /**
   What undoing leaves when the operation is not reversible: a file that reads as a link stays away, another that is
   not regular comes back as a regular file, the name renamed onto stays lost, a linked name goes and its new name
   stays, a link keeps its new owner.
   */
  lemma UndoOneOtherwise(d: Names, op: Op)
    requires ValidNames(d) && Succeeds(d, op) && !Reversible(d, op)
    ensures var was := UndoAll(Logged(d, op), Apply(d, op));
            match op
            case Remove(_, name, _) =>
              was == if d[name].mode % 2 == 1 then d - {name} else d[name := d[name].(kind := Regular)]
            case Rename(_, from, to) => was == d - {to}
            case Link(_, from, to) => was == (d - {from})[to := d[from]]
            case Chown(_, name, uid, gid) => was == d[name := d[name].(uid := uid, gid := gid)]
            case _ => false
  {
    var r, e := Logged(d, op)[0], Apply(d, op);
    assert [r][..0] == [];
    assert UndoAll([r], e) == Undo(r, e);
    match op
    case Remove(_, name, _) => assert Undo(r, e) == if d[name].mode % 2 == 1 then d - {name}
                                                    else d[name := d[name].(kind := Regular)];
    case Rename(_, from, to) => assert Undo(r, e) == d - {to};
    case Link(_, from, to) => assert Undo(r, e) == (d - {from})[to := d[from]];
    case Chown(_, name, uid, gid) =>
    case _ =>
  }

  /** An executable any user may run is not brought back: it reads as a link. */
  lemma ExecutableIsLost(time: u32, rest: Names)
    requires "run" !in rest && ValidNames(rest)
    ensures var d := rest["run" := Inode(Regular, 0x1ED, 0, 0, 0, 0)];
            && ValidNames(d)
            && UndoAll(Logged(d, Remove(time, "run", "")), Apply(d, Remove(time, "run", ""))) != d
  {
  }

  // ----- runs -----

  predicate RunReversible(d: Names, ops: seq<Op>)
    decreases |ops|
  {
    ops == [] || (Reversible(d, ops[0]) && RunReversible(Apply(d, ops[0]), ops[1..]))
  }

  lemma {:induction false} UndoAllConcat(a: seq<Record>, b: seq<Record>, d: Names)
    ensures UndoAll(a + b, d) == UndoAll(a, UndoAll(b, d))
    decreases |b|
  {
    hide Undo;
    if b == [] {
      assert a + b == a;
    } else {
      assert (a + b)[..|a + b| - 1] == a + b[..|b| - 1];
      UndoAllConcat(a, b[..|b| - 1], Undo(b[|b| - 1], d));
    }
  }

  /** For every run of reversible operations, replaying what they logged, newest first, restores the directory. */
  lemma {:induction false} UndoRun(d: Names, ops: seq<Op>)
    requires ValidNames(d) && RunReversible(d, ops)
    ensures UndoAll(Log(d, ops), Run(d, ops)) == d
    decreases |ops|
  {
    hide Apply, Logged, Undo, Reversible;
    if ops != [] {
      StaysValid(d, ops[0]);
      var next := Apply(d, ops[0]);
      UndoRun(next, ops[1..]);
      UndoAllConcat(Logged(d, ops[0]), Log(next, ops[1..]), Run(d, ops));
      UndoOneExactly(d, ops[0]);
    }
  }

  /** Replaying what was logged since the `i`-th moment gives the directory as it was then. */
  predicate ComesBack(d: Names, ops: seq<Op>, i: nat)
    requires ValidNames(d) && i <= |ops|
  {
    ValidNames(Run(d, ops[..i])) && UndoAll(Log(Run(d, ops[..i]), ops[i..]), Run(d, ops)) == Run(d, ops[..i])
  }

  /** The moments after the first operation are those of the rest of the run. */
  lemma LaterMoment(d: Names, ops: seq<Op>, i: nat)
    requires ValidNames(d) && 0 < i <= |ops|
    ensures ValidNames(Apply(d, ops[0])) && (ComesBack(d, ops, i) <==> ComesBack(Apply(d, ops[0]), ops[1..], i - 1))
  {
    StaysValid(d, ops[0]);
    hide Apply, Logged, UndoAll;
    assert ops[..i][0] == ops[0] && ops[..i][1..] == ops[1..][..i - 1] && ops[i..] == ops[1..][i - 1..];
  }

  /** Every moment of a run comes back, if and only if every operation of the run is reversible. */
  lemma {:induction false} RunReversibleExactly(d: Names, ops: seq<Op>)
    requires ValidNames(d)
    ensures RunReversible(d, ops) <==> forall i | 0 <= i <= |ops| :: ComesBack(d, ops, i)
    decreases |ops|
  {
    hide Apply, Logged, UndoAll, Reversible, ComesBack;
    if ops == [] {
      NothingDone(d, ops);
    } else {
      StaysValid(d, ops[0]);
      var next := Apply(d, ops[0]);
      RunReversibleExactly(next, ops[1..]);
      forall i | 0 < i <= |ops|
        ensures ComesBack(d, ops, i) <==> ComesBack(next, ops[1..], i - 1)
      {
        LaterMoment(d, ops, i);
      }
      if RunReversible(next, ops[1..]) {
        StartComesBack(d, ops);
      } else {
        var j :| 0 <= j <= |ops[1..]| && !ComesBack(next, ops[1..], j);
        assert !ComesBack(d, ops, j + 1);
      }
    }
  }

  lemma NothingDone(d: Names, ops: seq<Op>)
    requires ValidNames(d) && ops == []
    ensures ComesBack(d, ops, 0)
  {
  }

  lemma StartComesBack(d: Names, ops: seq<Op>)
    requires ValidNames(d) && ops != [] && ValidNames(Apply(d, ops[0])) && RunReversible(Apply(d, ops[0]), ops[1..])
    ensures Reversible(d, ops[0]) <==> ComesBack(d, ops, 0)
  {
    hide Apply, Logged, UndoAll, Reversible;
    var next := Apply(d, ops[0]);
    UndoRun(next, ops[1..]);
    UndoAllConcat(Logged(d, ops[0]), Log(next, ops[1..]), Run(d, ops));
    UndoOneExactly(d, ops[0]);
    assert ops[..0] == [] && ops[0..] == ops;
    assert Run(d, ops[..0]) == d;
  }

  lemma {:induction false} RunConcat(d: Names, a: seq<Op>, b: seq<Op>)
    requires ValidNames(d)
    ensures ValidNames(Run(d, a)) && Run(d, a + b) == Run(Run(d, a), b)
    ensures RunReversible(d, a + b) <==> RunReversible(d, a) && RunReversible(Run(d, a), b)
    decreases |a|
  {
    hide Apply, Reversible;
    if a == [] {
      assert a + b == b;
    } else {
      StaysValid(d, a[0]);
      assert (a + b)[0] == a[0] && (a + b)[1..] == a[1..] + b;
      RunConcat(Apply(d, a[0]), a[1..], b);
    }
  }

  lemma {:induction false} LogConcat(d: Names, a: seq<Op>, b: seq<Op>)
    requires ValidNames(d) && ValidNames(Run(d, a))
    ensures Log(d, a + b) == Log(d, a) + Log(Run(d, a), b)
    decreases |a|
  {
    hide Apply, Logged;
    if a == [] {
      assert a + b == b;
    } else {
      StaysValid(d, a[0]);
      var next := Apply(d, a[0]);
      var here, rest, last := Logged(d, a[0]), Log(next, a[1..]), Log(Run(d, a), b);
      assert (a + b)[0] == a[0] && (a + b)[1..] == a[1..] + b;
      LogConcat(next, a[1..], b);
      assert here + (rest + last) == (here + rest) + last;
    }
  }

  /** For every k there is a moment since which exactly k entries were logged. */
  lemma {:induction false} Moment(d: Names, ops: seq<Op>, k: nat) returns (i: nat)
    requires ValidNames(d) && k <= |Log(d, ops)|
    ensures i <= |ops| && ValidNames(Run(d, ops[..i]))
    ensures |Log(Run(d, ops[..i]), ops[i..])| == k
    decreases |ops|
  {
    hide Apply;
    if k == |Log(d, ops)| {
      i := 0;
      assert ops[..0] == [] && ops[0..] == ops;
    } else {
      StaysValid(d, ops[0]);
      var j := Moment(Apply(d, ops[0]), ops[1..], k);
      i := j + 1;
      assert ops[..i][0] == ops[0];
      assert ops[..i][1..] == ops[1..][..j] && ops[i..] == ops[1..][j..];
    }
  }

  /** How many entries were logged since the `i`-th moment of a run. */
  function LoggedAfter(d: Names, ops: seq<Op>, i: nat): nat
    requires ValidNames(d) && i <= |ops|
  {
    RunStaysValid(d, ops[..i]);
    |Log(Run(d, ops[..i]), ops[i..])|
  }

  /** The operations since the `i`-th moment are all reversible; what came before does not matter. */
  predicate ReversibleSince(d: Names, ops: seq<Op>, i: nat)
    requires ValidNames(d) && i <= |ops|
  {
    RunReversible(Run(d, ops[..i]), ops[i..])
  }

  lemma {:induction false} RunStaysValid(d: Names, ops: seq<Op>)
    requires ValidNames(d)
    ensures ValidNames(Run(d, ops))
    decreases |ops|
  {
    hide Apply;
    if ops != [] {
      StaysValid(d, ops[0]);
      RunStaysValid(Apply(d, ops[0]), ops[1..]);
    }
  }

  /**
   For every run and every moment of it: the entries logged since then are the newest ones, and replaying them
   restores the directory as it was then, if every operation since then is reversible.
   */
  lemma RevertRestoresAt(d: Names, ops: seq<Op>, i: nat)
    requires ValidNames(d) && i <= |ops|
    ensures var k := LoggedAfter(d, ops, i);
            && ValidNames(Run(d, ops[..i])) && k <= |Log(d, ops)|
            && Log(d, ops)[|Log(d, ops)| - k..] == Log(Run(d, ops[..i]), ops[i..])
            && (ReversibleSince(d, ops, i) ==>
                  UndoAll(Log(d, ops)[|Log(d, ops)| - k..], Run(d, ops)) == Run(d, ops[..i]))
  {
    hide Apply, Logged, Run, Log, UndoAll, RunReversible, ValidNames;
    RunStaysValid(d, ops[..i]);
    assert ops == ops[..i] + ops[i..];
    RunConcat(d, ops[..i], ops[i..]);
    LogConcat(d, ops[..i], ops[i..]);
    if ReversibleSince(d, ops, i) { UndoRun(Run(d, ops[..i]), ops[i..]); }
  }

  /**
   For every run and every k there is a moment since which the newest k entries were logged: replaying them goes back
   to it.
   */
  lemma RevertRestores(d: Names, ops: seq<Op>, k: nat) returns (i: nat)
    requires ValidNames(d) && k <= |Log(d, ops)|
    ensures i <= |ops| && ValidNames(Run(d, ops[..i])) && LoggedAfter(d, ops, i) == k
    ensures Log(d, ops)[|Log(d, ops)| - k..] == Log(Run(d, ops[..i]), ops[i..])
    ensures ReversibleSince(d, ops, i) ==>
              UndoAll(Log(d, ops)[|Log(d, ops)| - k..], Run(d, ops)) == Run(d, ops[..i])
  {
    hide Run, Log, UndoAll, ReversibleSince;
    i := Moment(d, ops, k);
    RevertRestoresAt(d, ops, i);
  }

  /** An old operation that cannot be undone does not stand in the way: only those replayed matter. */
  lemma OldLossIsNoObstacle(d: Names, lost: Op, ops: seq<Op>)
    requires ValidNames(d) && RunReversible(Apply(d, lost), ops)
    ensures ReversibleSince(d, [lost] + ops, 1)
  {
    assert ([lost] + ops)[..1] == [lost] && ([lost] + ops)[1..] == ops;
    assert [lost][1..] == [];
    assert Run(d, [lost]) == Apply(d, lost);
  }

  // ----- the catalogue on disk -----

  /** A name a C program can hold: one byte per character, none of them NUL. */
  predicate IsCName(s: string) {
    |s| < 0x800_0000 && forall i | 0 <= i < |s| :: 0 < s[i] as int < 0x100
  }

  function Raw(s: string): bytes
    requires IsCName(s)
  {
    seq(|s|, i requires 0 <= i < |s| => s[i] as int)
  }

  function Cooked(b: bytes): string {
    seq(|b|, i requires 0 <= i < |b| => b[i] as char)
  }

  function FromEntry(e: Cat.Entry): Record {
    Record(e.time, e.action, e.stats, Cooked(e.file1), Cooked(e.file2))
  }

  function ToEntry(r: Record): Cat.Entry
    requires IsCName(r.file1) && IsCName(r.file2)
  {
    Cat.Entry(r.time, r.action, r.stats, Raw(r.file1), Raw(r.file2))
  }

  /** Names are C names and, for a link that is removed, the mode is odd, as `lstat` reports it for every link. */
  predicate Representable(d: Names, op: Op) {
    match op
    case Create(_, name, _) => IsCName(name)
    case Mkdir(_, name, _) => IsCName(name)
    case Remove(_, name, target) =>
      IsCName(name) && IsCName(target) && (name in d && d[name].kind.Symlink? ==> d[name].mode % 2 == 1)
    case Rmdir(_, name, kept) => IsCName(name) && IsCName(kept)
    case Rename(_, from, to) => IsCName(from) && IsCName(to)
    case Link(_, from, to) => IsCName(from) && IsCName(to)
    case _ => IsCName(op.name)
  }

  lemma RawRoundTrip(s: string)
    requires IsCName(s)
    ensures Cooked(Raw(s)) == s && 0 !in Raw(s)
  {
  }

  /** What an operation logs can be written and read back. */
  lemma LoggedIsReadable(d: Names, op: Op)
    requires ValidNames(d) && Representable(d, op)
    ensures forall r | r in Logged(d, op) ::
              && IsCName(r.file1) && IsCName(r.file2)
              && Cat.WellFormed(ToEntry(r)) && Cat.Readable(ToEntry(r))
              && FromEntry(ToEntry(r)) == r
  {
    if Succeeds(d, op) {
      var r := Logged(d, op)[0];
      RawRoundTrip(r.file1);
      RawRoundTrip(r.file2);
      if r.stats.Some? {
        var i := d[r.file1];
        assert r.stats.value == Stat(i);
        assert Cat.IsLink(r.stats.value.mode) <==> i.kind.Symlink?;
      }
    }
  }

  predicate RunRepresentable(d: Names, ops: seq<Op>)
    decreases |ops|
  {
    ops == [] || (Representable(d, ops[0]) && RunRepresentable(Apply(d, ops[0]), ops[1..]))
  }

  /** The bytes one operation appends to the catalogue. */
  function Image(d: Names, op: Op): bytes
    requires ValidNames(d) && Representable(d, op)
  {
    LoggedIsReadable(d, op);
    if Logged(d, op) == [] then [] else Cat.Encode(ToEntry(Logged(d, op)[0]))
  }

  function CatalogueBytes(d: Names, ops: seq<Op>): bytes
    requires ValidNames(d) && RunRepresentable(d, ops)
    decreases |ops|
  {
    if ops == [] then []
    else
      StaysValid(d, ops[0]);
      Image(d, ops[0]) + CatalogueBytes(Apply(d, ops[0]), ops[1..])
  }

  function FromEntries(es: seq<Cat.Entry>): seq<Record> {
    if es == [] then [] else [FromEntry(es[0])] + FromEntries(es[1..])
  }

  /** Reading the catalogue of any run back yields what the run logged. */
  lemma {:induction false} ReadBack(d: Names, ops: seq<Op>)
    requires ValidNames(d) && RunRepresentable(d, ops)
    ensures FromEntries(Cat.Parse(CatalogueBytes(d, ops))) == Log(d, ops)
    decreases |ops|
  {
    hide Apply, Logged, Cat.Parse, Cat.Encode, ToEntry, FromEntry;
    if ops == [] {
      assert Cat.Parse([]) == [] by { Cat.CatalogueRoundTrip([]); }
    } else {
      StaysValid(d, ops[0]);
      var next := Apply(d, ops[0]);
      ReadBack(next, ops[1..]);
      LoggedIsReadable(d, ops[0]);
      AtMostOne(d, ops[0]);
      if Logged(d, ops[0]) == [] {
        assert [] + CatalogueBytes(next, ops[1..]) == CatalogueBytes(next, ops[1..]);
      } else {
        Cat.DecodeOne(ToEntry(Logged(d, ops[0])[0]), CatalogueBytes(next, ops[1..]));
      }
    }
  }

  lemma AtMostOne(d: Names, op: Op)
    requires ValidNames(d)
    ensures Logged(d, op) == [] || Logged(d, op) == [Logged(d, op)[0]]
  {
  }

  /** One more operation at the end of a run. */
  lemma {:induction false} Extend(d: Names, ops: seq<Op>, op: Op)
    requires ValidNames(d) && RunRepresentable(d, ops) && Representable(Run(d, ops), op)
    ensures ValidNames(Run(d, ops)) && RunRepresentable(d, ops + [op])
    ensures Run(d, ops + [op]) == Apply(Run(d, ops), op)
    ensures CatalogueBytes(d, ops + [op]) == CatalogueBytes(d, ops) + Image(Run(d, ops), op)
    decreases |ops|
  {
    hide Apply, Image, Representable, ValidNames;
    if ops == [] {
      StaysValid(d, op);
      assert [op][1..] == [] && [] + [op] == [op];
      assert CatalogueBytes(d, [op]) == Image(d, op) + CatalogueBytes(Apply(d, op), []);
    } else {
      StaysValid(d, ops[0]);
      var next := Apply(d, ops[0]);
      assert (ops + [op])[0] == ops[0] && (ops + [op])[1..] == ops[1..] + [op];
      Extend(next, ops[1..], op);
      var here, rest, last := Image(d, ops[0]), CatalogueBytes(next, ops[1..]), Image(Run(next, ops[1..]), op);
      assert CatalogueBytes(d, ops + [op]) == here + (rest + last);
      assert here + (rest + last) == (here + rest) + last;
    }
  }
}
