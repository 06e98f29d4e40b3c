/**
 One directory under Wayback, with its catalogue, as the callbacks of `wayback.c` change them in place,
 and the replay loop of `vutils.pl` that reverts it.
 */
module WaybackDirectory {
  import opened Bytes
  import opened Text
  import opened DirectoryUndo
  import DeletedNames

  class WatchedDirectory {
    var names: Names
    var catalog: bytes
    ghost const start: Names
    ghost var history: seq<Op>

    /** Names and catalogue are what the operations so far have made of them. */
    ghost predicate Valid()
      reads this
    {
      ValidNames(start) && ValidNames(names) && RunRepresentable(start, history)
      && names == Run(start, history) && catalog == CatalogueBytes(start, history)
    }

    constructor (start: Names)
      requires ValidNames(start)
      ensures Valid() && names == start && this.start == start && history == []
    {
      names, catalog, history := start, [], [];
      this.start := start;
    }

    /** What one callback leaves behind: the operation applied and its entry appended. */
    twostate predicate Did(op: Op)
      reads this
    {
      Valid() && history == old(history) + [op]
    }

    /** One entry was appended to the catalogue. */
    twostate predicate Appended(time: u32, action: u32, stats: Option<Cat.Stats>, file1: string, file2: string)
      reads this
    {
      && IsCName(file1) && IsCName(file2) && Cat.WellFormed(ToEntry(Record(time, action, stats, file1, file2)))
      && catalog == old(catalog) + Cat.Encode(ToEntry(Record(time, action, stats, file1, file2)))
    }

    lemma OneEntry(d: Names, op: Op)
      requires ValidNames(d)
      ensures |Logged(d, op)| == if Succeeds(d, op) then 1 else 0
    {
    }

    /** The end of every callback: `ver_updatedirectory` if the system call succeeded. */
    method Finish(op: Op, after: Names, stats: Option<Cat.Stats>, path: string, extra: string) returns (res: int)
      requires Valid() && Representable(names, op) && after == Apply(names, op)
      requires Succeeds(names, op) ==> forall r | r in Logged(names, op) ::
                 r.stats == stats && r.file1 == path && r.file2 == extra
      modifies this
      ensures Did(op) && res == if old(Succeeds(names, op)) then 0 else -1
      ensures names == after
      ensures res == 0 ==> forall r | r in Logged(old(names), op) :: Appended(r.time, r.action, stats, path, extra)
      ensures res == -1 ==> catalog == old(catalog)
    {
      hide Apply, Succeeds, Representable, CatalogueBytes, RunRepresentable, Run, Cat.WellFormed, Cat.Encode, IsCName;
      OneEntry(names, op);
      LoggedIsReadable(names, op);
      StaysValid(names, op);
      Extend(start, history, op);
      if Succeeds(names, op) {
        var r := Logged(names, op)[0];
        assert r in Logged(names, op);
        catalog := Cat.UpdateDirectory(catalog, ToEntry(Record(r.time, r.action, stats, path, extra)));
        res := 0;
      } else {
        res := -1;
        assert catalog + [] == catalog;
      }
      names := after;
      history := history + [op];
    }

    method VerMknod(time: u32, name: string, inode: Inode) returns (res: int)
      requires Valid() && IsCName(name)
      modifies this
      ensures Did(Create(time, name, inode))
      ensures res == if name !in old(names) && !inode.kind.Directory? && inode.mode < 0x1000 then 0 else -1
      ensures res == 0 ==> names == old(names)[name := inode] && Appended(time, Cat.VUD_CREATE, None, name, "")
      ensures res == -1 ==> names == old(names) && catalog == old(catalog)
    {
      var after := names;
      if name !in names && !inode.kind.Directory? && inode.mode < PERM_BITS {
        after := names[name := inode];
      }
      res := Finish(Create(time, name, inode), after, None, name, "");
    }

    method VerMkdir(time: u32, name: string, inode: Inode) returns (res: int)
      requires Valid() && IsCName(name)
      modifies this
      ensures Did(Mkdir(time, name, inode))
      ensures res == if name !in old(names) && inode.kind.Directory? && inode.mode < 0x1000 then 0 else -1
      ensures res == 0 ==> names == old(names)[name := inode] && Appended(time, Cat.VUD_MKDIR, None, name, "")
      ensures res == -1 ==> names == old(names) && catalog == old(catalog)
    {
      var after := names;
      if name !in names && inode.kind.Directory? && inode.mode < PERM_BITS {
        after := names[name := inode];
      }
      res := Finish(Mkdir(time, name, inode), after, None, name, "");
    }

    /** `ver_unlink`: the stat block is taken before the name goes. */
    method VerUnlink(time: u32, name: string, target: string) returns (res: int)
      requires Valid() && IsCName(name) && IsCName(target)
      requires name in names && names[name].kind.Symlink? ==> names[name].mode % 2 == 1
      modifies this
      ensures Did(Remove(time, name, target))
      ensures res == if name in old(names) && !old(names)[name].kind.Directory? then 0 else -1
      ensures res == 0 ==>
                var was := old(names)[name];
                && names == old(names) - {name} && was.mode < PERM_BITS
                && Appended(time, Cat.VUD_RM, Some(Stat(was)), name, if was.kind.Symlink? then target else "")
      ensures res == -1 ==> names == old(names) && catalog == old(catalog)
    {
      if name !in names || names[name].kind.Directory? {
        res := Finish(Remove(time, name, target), names, None, name, "");
      } else {
        var filestats := Stat(names[name]);
        var linkdest := if names[name].kind.Symlink? then target else "";
        res := Finish(Remove(time, name, target), names - {name}, Some(filestats), name, linkdest);
      }
    }

    /** `ver_rmdir`: the directory is kept under a hidden name that was free. */
    method VerRmdir(time: u32, name: string, deletedModifier: string) returns (res: int, kept: string)
      requires Valid() && IsCName(name)
      requires IsCName(deletedModifier) && |name| + |deletedModifier| + |names| < 0x7FF_FFFF
      modifies this
      ensures Did(Rmdir(time, name, kept)) && kept !in old(names)
      ensures res == if name in old(names) && old(names)[name].kind.Directory? then 0 else -1
      ensures res == 0 ==>
                && names == (old(names) - {name})[kept := old(names)[name]]
                && Appended(time, Cat.VUD_RMDIR, None, name, kept)
      ensures res == -1 ==> names == old(names) && catalog == old(catalog)
      ensures forall version: string :: name != "" ==> DeletedNames.Hidden(kept, deletedModifier, version)
    {
      ghost var k;
      kept, k := DeletedNames.DeletedPath(name, deletedModifier, names.Keys);
      KeptIsCName(name, deletedModifier, k);
      forall version: string | name != ""
        ensures DeletedNames.Hidden(kept, deletedModifier, version)
      {
        DeletedNames.CandidateIsHidden(name, deletedModifier, version, k);
      }
      var after := names;
      if name in names && names[name].kind.Directory? {
        after := Move(names, name, kept);
      }
      res := Finish(Rmdir(time, name, kept), after, None, name, kept);
      Extend(start, old(history), Rmdir(time, name, kept));
    }

    method VerRename(time: u32, from: string, to: string) returns (res: int)
      requires Valid() && IsCName(from) && IsCName(to)
      modifies this
      ensures Did(Rename(time, from, to))
      ensures res == if from in old(names)
                        && (to in old(names) ==>
                              (old(names)[from].kind.Directory? <==> old(names)[to].kind.Directory?)) then 0 else -1
      ensures res == 0 ==>
                && names == (if from == to then old(names) else (old(names) - {from})[to := old(names)[from]])
                && Appended(time, Cat.VUD_RENAME, None, from, to)
      ensures res == -1 ==> names == old(names) && catalog == old(catalog)
    {
      var op := Rename(time, from, to);
      res := Finish(op, if Succeeds(names, op) then Move(names, from, to) else names, None, from, to);
    }

    /** `ver_link` logs the creation of its first argument. */
    method VerLink(time: u32, from: string, to: string) returns (res: int)
      requires Valid() && IsCName(from) && IsCName(to)
      modifies this
      ensures Did(Link(time, from, to))
      ensures res == if from in old(names) && to !in old(names) && !old(names)[from].kind.Directory? then 0 else -1
      ensures res == 0 ==>
                names == old(names)[to := old(names)[from]] && Appended(time, Cat.VUD_CREATE, None, from, "")
      ensures res == -1 ==> names == old(names) && catalog == old(catalog)
    {
      var op := Link(time, from, to);
      res := Finish(op, if Succeeds(names, op) then names[to := names[from]] else names, None, from, "");
    }

    /** `ver_chmod`: a link is followed, so its own name keeps its mode. */
    method VerChmod(time: u32, name: string, mode: u32) returns (res: int)
      requires Valid() && IsCName(name)
      modifies this
      ensures Did(Chmod(time, name, mode))
      ensures res == if name in old(names) then 0 else -1
      ensures res == 0 ==>
                var was := old(names)[name];
                && was.mode < PERM_BITS && Appended(time, Cat.VUD_CHMOD, Some(Stat(was)), name, "")
                && names == (if was.kind.Symlink? then old(names)
                             else old(names)[name := was.(mode := mode % 0x1000)])
      ensures res == -1 ==> names == old(names) && catalog == old(catalog)
    {
      var filestats := if name in names then Some(Stat(names[name])) else None;
      res := Finish(Chmod(time, name, mode), SetMode(names, name, mode), filestats, name, "");
    }

    /** `ver_chown`: a link itself changes its owner. */
    method VerChown(time: u32, name: string, uid: u32, gid: u32) returns (res: int)
      requires Valid() && IsCName(name)
      modifies this
      ensures Did(Chown(time, name, uid, gid))
      ensures res == if name in old(names) then 0 else -1
      ensures res == 0 ==>
                var was := old(names)[name];
                && was.mode < PERM_BITS && Appended(time, Cat.VUD_CHOWN, Some(Stat(was)), name, "")
                && names == old(names)[name := was.(uid := uid, gid := gid)]
      ensures res == -1 ==> names == old(names) && catalog == old(catalog)
    {
      var filestats := if name in names then Some(Stat(names[name])) else None;
      res := Finish(Chown(time, name, uid, gid), SetOwner(names, name, uid, gid, false), filestats, name, "");
    }

    method VerUtime(time: u32, name: string, atime: u32, mtime: u32) returns (res: int)
      requires Valid() && IsCName(name)
      modifies this
      ensures Did(Utime(time, name, atime, mtime))
      ensures res == if name in old(names) then 0 else -1
      ensures res == 0 ==>
                var was := old(names)[name];
                && was.mode < PERM_BITS && Appended(time, Cat.VUD_UTIME, Some(Stat(was)), name, "")
                && names == (if was.kind.Symlink? then old(names)
                             else old(names)[name := was.(atime := atime, mtime := mtime)])
      ensures res == -1 ==> names == old(names) && catalog == old(catalog)
    {
      var filestats := if name in names then Some(Stat(names[name])) else None;
      res := Finish(Utime(time, name, atime, mtime), SetTimes(names, name, atime, mtime), filestats, name, "");
    }

    /** `vrevert -n` on the stored directory: reads the catalogue back and replays its newest entries. */
    method VRevert(number: nat)
      requires Valid()
      modifies this`names
      ensures var rs := Log(start, history);
              var k := if number == 0 then |rs| else Min(number, |rs|);
              && names == UndoAll(rs[|rs| - k..], old(names))
              && Restored(start, history, k, names)
    {
      hide Log, Run, UndoAll, CatalogueBytes, RunRepresentable, FromEntries, Cat.Parse, Restored;
      ReadBack(start, history);
      var es := Cat.ReadDirectory(catalog);
      names := Replay(es, if number == 0 then |es| else number, names);
      Restores(if number == 0 then |es| else Min(number, |es|));
    }

    lemma Restores(k: nat)
      requires ValidNames(start) && k <= |Log(start, history)|
      ensures var rs := Log(start, history);
              Restored(start, history, k, UndoAll(rs[|rs| - k..], Run(start, history)))
    {
      hide Log, Run, UndoAll, ReversibleSince, LoggedAfter;
      var m := RevertRestores(start, history, k);
      forall i: nat | i <= |history| && LoggedAfter(start, history, i) == k && ReversibleSince(start, history, i)
        ensures var rs := Log(start, history);
                UndoAll(rs[|rs| - k..], Run(start, history)) == Run(start, history[..i])
      {
        RevertRestoresAt(start, history, i);
      }
    }
  }

  /** A hidden name can be logged if the name, the modifier and the number of names are not too large. */
  lemma KeptIsCName(name: string, modifier: string, k: nat)
    requires IsCName(name) && IsCName(modifier) && |name| + |modifier| + k < 0x7FF_FFFF
    ensures IsCName(DeletedNames.Candidate(name, modifier, k))
  {
    if k > 0 {
      DeletedNames.NumeralFits(k);
      DigitsAreCName(Numeral(k, 10));
    }
  }

  lemma DigitsAreCName(s: string)
    requires AllDigits(s, 10) && |s| < 0x800_0000
    ensures IsCName(s)
  {
    assert forall i | 0 <= i < |s| :: IsDigit(s[i], 10);
  }

  /**
   There is a moment of the history since which exactly k entries were logged; and at every such moment since which
   all operations are reversible, the directory was what it is now.
   */
  ghost predicate Restored(start: Names, history: seq<Op>, k: nat, names: Names)
    requires ValidNames(start)
  {
    && (exists i: nat | i <= |history| :: LoggedAfter(start, history, i) == k)
    && (forall i: nat | i <= |history| && LoggedAfter(start, history, i) == k && ReversibleSince(start, history, i) ::
          names == Run(start, history[..i]))
  }

  /** The replay loop: the newest `n` entries, or all of them if there are fewer, by decreasing index. */
  method Replay(es: seq<Cat.Entry>, n: nat, names: Names) returns (names': Names)
    ensures var rs := FromEntries(es);
            |rs| == |es| && names' == UndoAll(rs[|rs| - Min(n, |rs|)..], names)
  {
    hide Undo;
    names' := names;
    FromEntriesAt(es);
    ghost var todo := FromEntries(es)[|es| - Min(n, |es|)..];
    var i := |es| - 1;
    while i >= |es| - n
      invariant |es| - Min(n, |es|) - 1 <= i < |es| && |todo| == i + 1 - (|es| - Min(n, |es|))
      invariant todo <= FromEntries(es)[|es| - Min(n, |es|)..]
      invariant UndoAll(todo, names') == UndoAll(FromEntries(es)[|es| - Min(n, |es|)..], names)
    {
      if i < 0 { break; }
      assert todo[|todo| - 1] == FromEntry(es[i]);
      names' := Undo(FromEntry(es[i]), names');
      todo := todo[..|todo| - 1];
      i := i - 1;
    }
    assert todo == [];
  }

  lemma {:induction false} FromEntriesAt(es: seq<Cat.Entry>)
    ensures |FromEntries(es)| == |es|
    ensures forall i | 0 <= i < |es| :: FromEntries(es)[i] == FromEntry(es[i])
  {
    if es != [] {
      FromEntriesAt(es[1..]);
    }
  }
}
