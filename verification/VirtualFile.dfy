/**
 CopyFS: one virtual file as the C code changes it in place. Every method is proved to take the step of
 `VersionStore` that bears its callback's name.
 */
module VirtualFile {
  import opened Bytes
  import opened Versions
  import opened VersionStore

  lemma NothingToCopy(f: bytes, turns: seq<Turn>)
    requires f == []
    ensures CopyOf(f, turns) == []
  {
  }

  lemma OneTurn(f: bytes, turns: seq<Turn>)
    requires f != []
    ensures var turn := if turns == [] then Turn(COPY_BUFFER, COPY_BUFFER) else turns[0];
            CopyOf(f, turns) == f[..TurnRead(f, turn)][..TurnWritten(f, turn)]
                                + CopyOf(f[TurnRead(f, turn)..], if turns == [] then [] else turns[1..])
  {
    var turn := if turns == [] then Turn(COPY_BUFFER, COPY_BUFFER) else turns[0];
    var r, w := TurnRead(f, turn), TurnWritten(f, turn);
    assert f[..r][..w] == f[..w];
    if turns == [] { assert w == r && f == f[..r] + f[r..]; }
  }

  /** The loop of `create_copy_file`: what arrives of what is read, a kilobyte at a time. */
  method CopyLoop(source: bytes, all: seq<Turn>) returns (target: bytes)
    ensures target == CopyOf(source, all)
  {
    hide CopyOf, TurnRead, TurnWritten;
    target := [];
    var left, turns := source, all;
    while left != []
      invariant target + CopyOf(left, turns) == CopyOf(source, all)
      decreases |left|
    {
      var turn := if turns == [] then Turn(COPY_BUFFER, COPY_BUFFER) else turns[0];
      var buf := left[..TurnRead(left, turn)];
      OneTurn(left, turns);
      target := target + buf[..TurnWritten(left, turn)];
      left := left[|buf|..];
      turns := if turns == [] then [] else turns[1..];
    }
    NothingToCopy(left, turns);
  }

  class MetadataBlock {
    const place: Place
    var versions: seq<Version>
    var deleted: bool
    var dflVid: int32
    var dflSvid: int32
    var timestamp: int
    var disk: map<string, bytes>

    function Block(): State
      reads this
    {
      State(Metadata(versions, deleted, dflVid, dflSvid, timestamp), disk)
    }

    constructor (place: Place)
      ensures this.place == place && Block() == State(UNKNOWN, map[])
    {
      this.place := place;
      versions, deleted, dflVid, dflSvid, timestamp := [], false, LATEST, LATEST, 0;
      disk := map[];
    }

    /** One version more in front, no pin and no delete flag. */
    twostate predicate Prepended()
      reads this
    {
      versions != [] && versions[1..] == old(versions) && !deleted && dflVid == LATEST && dflSvid == LATEST
    }

    /** The newest version's attributes. */
    predicate Carries(mode: u32, uid: u32, gid: u32)
      reads this
    {
      versions != [] && versions[0].mode == mode % 0x1000 && versions[0].uid == uid && versions[0].gid == gid
    }

    // ----- create.c -----

    /**
     `create_copy_file`: the target is emptied first and filled a kilobyte at a time, unless a call fails. A write
     that stops short does not count as a failure.
     */
    method CreateCopyFile(source: string, target: string, env: Env) returns (code: int)
      modifies this`disk
      ensures source !in old(disk) ==> code == -1 && disk == old(disk)
      ensures source in old(disk) ==> code == env.copy
      ensures code == 0 ==>
                disk == old(disk)[target := CopyOf(if source == target then [] else old(disk)[source], env.turns)]
      ensures code < 0 && code > -6 ==> disk == old(disk)
      ensures code <= -6 ==> disk == old(disk)[target := env.partial]
    {
      if source !in disk { return -1; }
      if env.copy != 0 {
        if env.copy <= -6 { disk := disk[target := env.partial]; }
        return env.copy;
      }
      disk := disk[target := []];
      var content := CopyLoop(disk[source], env.turns);
      disk := disk[target := content];
      code := 0;
    }

    /** `create_link_version`: linked in memory first, and taken out again if the metafiles cannot be written. */
    method CreateLinkVersion(version: Version, commits: bool) returns (result: int)
      modifies this
      ensures (Block(), result) == Link(old(Block()), version, commits)
      ensures commits ==> result == 0 && Prepended() && versions[0] == version && timestamp == old(timestamp)
      ensures !commits ==> result == -1 && Block().md == old(Block()).md
      ensures disk == old(disk)
    {
      var oldVersions := versions;
      versions := [version] + versions;
      var oldVid, oldSvid := dflVid, dflSvid;
      dflVid, dflSvid := LATEST, LATEST;
      var oldDeleted := deleted;
      deleted := false;
      if !commits {
        versions := oldVersions;
        dflVid, dflSvid := oldVid, oldSvid;
        deleted := oldDeleted;
        return -1;
      }
      result := 0;
    }

    method FindCurrent() returns (current: Version)
      requires versions != []
      ensures current == Current(Block())
    {
      var i := FindVersion(Block().md, true, LATEST, LATEST);
      current := versions[i.value];
    }

    /** `create_new_version_generic` */
    method CreateNewVersionGeneric(sub: bool, copied: bool, mode: u32, uid: u32, gid: u32, now: int, env: Env)
      returns (result: int)
      requires versions != []
      modifies this
      ensures (Block(), result) == Create(place, old(Block()), sub, copied, mode, uid, gid, now, env)
      ensures result == 0 && now - old(timestamp) >= TIME_LIMIT ==>
                var was := Current(old(Block()));
                && Prepended() && timestamp == old(timestamp)
                && (sub ==> Carries(mode, uid, gid) && versions[0].rfile == was.rfile)
                && (!sub ==> Carries(was.mode, if copied then was.uid else uid, if copied then was.gid else gid)
                             && versions[0].rfile == RealName(place, Succ(old(versions)[0].vid)))
      ensures result != 0 || now - old(timestamp) < TIME_LIMIT ==> Block().md == old(Block()).md
      ensures sub || !copied || now - old(timestamp) < TIME_LIMIT ==> disk == old(disk)
      ensures sub && old(deleted) && now - old(timestamp) >= TIME_LIMIT ==> result == -1
    {
      hide RealName, Lookup;
      var current := FindCurrent();
      if now - timestamp < TIME_LIMIT { return 0; }
      if sub && deleted { return -1; }
      var head := versions[0];
      var version;
      if sub {
        if current.vid != head.vid {
          version := Version(Succ(head.vid), 0, mode % MODE_BITS, uid, gid, current.rfile);
        } else {
          version := Version(current.vid, Succ(current.svid), mode % MODE_BITS, uid, gid, current.rfile);
        }
      } else {
        version := Version(Succ(head.vid), 0, current.mode % MODE_BITS, if copied then current.uid else uid,
                           if copied then current.gid else gid, RealName(place, Succ(head.vid)));
      }
      result := 0;
      if !sub && copied {
        result := CreateCopyFile(current.rfile, version.rfile, env);
      }
      if result == 0 {
        result := CreateLinkVersion(version, env.list.Whole?);
      }
    }

    // ----- interface.c -----

    method CurrentFile() returns (rfile: Option<string>)
      ensures rfile == if Shown(Block()).Some? then Some(Current(Block()).rfile) else None
    {
      var i := FindVersion(Block().md, false, LATEST, LATEST);
      rfile := if i.Some? && versions[i.value].rfile in disk then Some(versions[i.value].rfile) else None;
    }

    /**
     `callback_open` for writing: refused if the copy fails at its first call or the version cannot be committed; after
     any other failure of the copy the file is opened as it is.
     */
    method CallbackOpen(now: int, env: Env) returns (res: int)
      modifies this
      ensures Block() == Step(place, old(Block()), OpenWrite(now, env))
      ensures res == if old(versions) == [] || CopyRefused(old(Block()), now, env) || Shown(Block()).None? then -1
                     else 0
      ensures old(versions) != [] && CopyLinked(old(Block()), now, env) ==>
                var was := Current(old(Block()));
                Prepended() && timestamp == old(timestamp) && Carries(was.mode, was.uid, was.gid)
      ensures old(versions) == [] || !CopyLinked(old(Block()), now, env) ==> Block().md == old(Block()).md
    {
      hide RealName, Lookup, CopyOf;
      if versions == [] { return -1; }
      var code := CreateNewVersionGeneric(false, true, 0, 0, 0, now, env);
      if code == -1 { return -1; }
      var rfile := CurrentFile();
      res := if rfile.Some? then 0 else -1;
    }

    /** `callback_write`: the number of bytes stored, or -1. */
    method CallbackWrite(data: bytes, offset: nat) returns (res: int)
      modifies this`disk
      ensures -1 <= res <= |data|
      ensures Block() == Step(place, old(Block()), Write(offset, data, Max(res, 0)))
      ensures res >= 0 ==>
                var s := old(Block());
                Shown(s).Some?
                && disk == old(disk)[Current(s).rfile := Overwrite(Shown(s).value, offset, data[..res])]
      ensures res == -1 ==> disk == old(disk)
    {
      hide Lookup;
      var rfile := CurrentFile();
      res := -1;
      if rfile.Some? {
        assert 0 <= 0 <= |data|;
        res :| 0 <= res <= |data|;
        disk := disk[rfile.value := Overwrite(disk[rfile.value], offset, data[..res])];
      }
    }

    /** `callback_truncate` goes on after any failure of the copy but the first kind. */
    method CallbackTruncate(now: int, length: nat, cut: bool, env: Env) returns (res: int)
      modifies this
      ensures Block() == Step(place, old(Block()), Truncate(now, length, cut, env))
      ensures res == 0 ==> cut && timestamp == now && Shown(Block()).Some? && |Shown(Block()).value| == length
      ensures res == 0 && now - old(timestamp) < TIME_LIMIT ==>
                Shown(old(Block())).Some? && Shown(Block()) == Some(Resize(Shown(old(Block())).value, length))
      ensures |versions| > |old(versions)| ==>
                var was := Current(old(Block())); Prepended() && Carries(was.mode, was.uid, was.gid)
      ensures |versions| <= |old(versions)| ==> versions == old(versions) && dflVid == old(dflVid)
    {
      hide Create, Lookup;
      res := -1;
      if versions == [] { return; }
      var code := CreateNewVersionGeneric(false, true, 0, 0, 0, now, env);
      if code == -1 { return; }
      Restamped(Block(), now);
      timestamp := now;
      var rfile := CurrentFile();
      if cut && rfile.Some? {
        StoreShows(Block(), f => Resize(f, length));
        disk := disk[rfile.value := Resize(disk[rfile.value], length)];
        res := 0;
      }
    }

    method CallbackChmod(now: int, mode: u32, env: Env) returns (res: int)
      modifies this
      ensures Block() == Step(place, old(Block()), Chmod(now, mode, env))
      ensures res == if Visible(old(Block())).None? then -1
                     else
                       var v := Current(old(Block()));
                       Create(place, old(Block()), true, false, mode, v.uid, v.gid, now, env).1
      ensures res == 0 && now - old(timestamp) >= TIME_LIMIT ==>
                var was := Current(old(Block()));
                Prepended() && Carries(mode, was.uid, was.gid) && versions[0].rfile == was.rfile
      ensures res != 0 || now - old(timestamp) < TIME_LIMIT ==> Block() == old(Block())
      ensures disk == old(disk) && timestamp == old(timestamp)
    {
      if deleted || versions == [] { return -1; }
      var version := FindCurrent();
      res := CreateNewVersionGeneric(true, false, mode, version.uid, version.gid, now, env);
    }

    method CallbackChown(now: int, uid: u32, gid: u32, env: Env) returns (res: int)
      modifies this
      ensures Block() == Step(place, old(Block()), Chown(now, uid, gid, env))
      ensures res == if Visible(old(Block())).None? then -1
                     else Create(place, old(Block()), true, false, Current(old(Block())).mode, uid, gid, now, env).1
      ensures res == 0 && now - old(timestamp) >= TIME_LIMIT ==>
                var was := Current(old(Block()));
                Prepended() && Carries(was.mode, uid, gid) && versions[0].rfile == was.rfile
      ensures res != 0 || now - old(timestamp) < TIME_LIMIT ==> Block() == old(Block())
      ensures disk == old(disk) && timestamp == old(timestamp)
    {
      if deleted || versions == [] { return -1; }
      var version := FindCurrent();
      res := CreateNewVersionGeneric(true, false, version.mode, uid, gid, now, env);
    }

    /** `callback_unlink`: memory keeps the flag even if the list cannot be written. */
    method CallbackUnlink(list: Outcome) returns (res: int)
      modifies this`deleted
      ensures Block() == Step(place, old(Block()), Unlink(list))
      ensures res == if Shown(old(Block())).Some? && list.Whole? then 0 else -1
      ensures Shown(old(Block())).Some? ==> deleted && Visible(Block()).None?
      ensures Shown(old(Block())).None? ==> deleted == old(deleted)
    {
      var rfile := CurrentFile();
      if rfile.None? { return -1; }
      deleted := true;
      res := if list.Whole? then 0 else -1;
    }

    /** `create_new_file` */
    method CallbackMknod(now: int, mode: u32, uid: u32, gid: u32, made: bool, env: Env) returns (res: int)
      modifies this
      ensures Block() == Step(place, old(Block()), Mknod(now, mode, uid, gid, made, env))
      ensures var s := old(Block());
              var path := RealName(place, if s.md.versions == [] then 1 else Succ(s.md.versions[0].vid));
              res == if mode == 0 || Visible(s).Some? || !made || path in s.disk then -1
                     else if s.md.versions == [] then (if env.list.Whole? then 0 else -1)
                     else Create(place, s.(disk := s.disk[path := []]), false, false, mode, uid, gid, now, env).1
      ensures res == 0 && (old(versions) == [] || now - old(timestamp) >= TIME_LIMIT) ==>
                && Prepended() && timestamp == now && Shown(Block()) == Some([])
                && Carries(if old(versions) == [] then mode else Current(old(Block())).mode, uid, gid)
      ensures old(versions) != [] && (res != 0 || now - old(timestamp) < TIME_LIMIT) ==> Block().md == old(Block()).md
    {
      hide RealName, Create, Lookup;
      if mode == 0 || (versions != [] && !deleted) { return -1; }
      var path := if versions == [] then RealName(place, 1) else RealName(place, Succ(versions[0].vid));
      if !made || path in disk { return -1; }
      disk := disk[path := []];
      res := 0;
      if versions == [] {
        versions := [Version(1, 0, mode % MODE_BITS, uid, gid, path)];
        deleted, timestamp, dflVid, dflSvid := false, now, LATEST, LATEST;
        if !env.list.Whole? { res := -1; }
        HeadShows(Block());
      } else {
        res := CreateNewVersionGeneric(false, false, mode, uid, gid, now, env);
        if versions != [] && !deleted { timestamp := now; }
        if dflVid == LATEST && !deleted { HeadShows(Block()); }
      }
    }

    // ----- ea.c -----

    /** Setting `rcs.locked_version` */
    method SetPin(vid: int32, svid: int32, allowed: bool) returns (res: int)
      modifies this`dflVid, this`dflSvid
      ensures Block() == Step(place, old(Block()), Pin(vid, svid, allowed))
      ensures res == 0 <==>
                Visible(old(Block())).Some? && allowed
                && (vid == LATEST || FirstMatch(old(versions), vid, svid).Some?)
      ensures res == 0 ==> dflVid == vid && dflSvid == svid
      ensures res != 0 ==> res == -1 && dflVid == old(dflVid) && dflSvid == old(dflSvid)
      ensures res == 0 && vid == LATEST ==> Visible(Block()) == Some(0)
      ensures res == 0 && vid != LATEST && Ordered(versions) ==> Visible(Block()) == FirstMatch(versions, vid, svid)
    {
      if deleted || versions == [] { return -1; }
      var version := PinCheck(versions, vid, svid);
      if version.None? || !allowed { return -1; }
      dflVid, dflSvid := vid, svid;
      res := 0;
      PinShows(place, old(Block()), Pin(vid, svid, allowed));
    }

    /** The culling walk: past the versions to keep, then cutting and unlinking what follows. */
    method Cull(count: int)
      requires versions != [] && count < |versions|
      modifies this`versions, this`disk
      ensures var k := Kept(|old(versions)|, count);
              versions == old(versions)[..k] && disk == old(disk) - RealFiles(old(versions)[k..])
    {
      hide RealFiles;
      var vs := versions;
      ghost var keep := Kept(|vs|, count);
      var v, vnum := 0, |vs| - count;
      assert vs[..|vs|] == vs;
      while v < |vs|
        invariant 0 <= v <= |vs| && vnum == Max(|vs| - count - v, 1)
        invariant versions == if v >= keep then vs[..keep] else vs
        invariant disk == if v >= keep then old(disk) - RealFiles(vs[keep..Min(v + 1, |vs|)]) else old(disk)
      {
        if vnum > 1 {
          vnum := vnum - 1;
          v := v + 1;
          if v == keep { NoFiles(vs, keep); }
        } else {
          if v == keep - 1 { NoFiles(vs, keep); }
          versions := if v < |versions| then versions[..v + 1] else versions;
          v := v + 1;
          if v < |vs| {
            OneMoreFile(vs, keep, v);
            disk := disk - {vs[v].rfile};
          }
        }
      }
      assert vs[keep..|vs|] == vs[keep..];
    }

    /** Setting `rcs.purge`; a file that loses its last version is forgotten. */
    method SetPurge(count: int, list: Outcome) returns (res: int)
      modifies this
      ensures Block() == Step(place, old(Block()), Purge(count, list))
      ensures res == if Visible(old(Block())).Some? && (list.Whole? || versions == []) then 0 else -1
      ensures Visible(old(Block())).Some? ==>
                var k := if count >= |old(versions)| then 0 else if count <= 0 then |old(versions)|
                         else |old(versions)| - count;
                && versions == old(versions)[..k] && disk == old(disk) - RealFiles(old(versions)[k..])
                && (k > 0 ==> dflVid == old(dflVid) && dflSvid == old(dflSvid) && !deleted)
      ensures Visible(old(Block())).None? ==> Block() == old(Block())
    {
      if deleted || versions == [] { return -1; }
      res := 0;
      if count >= |versions| {
        var vs, v := versions, 0;
        assert vs[0..0] == [];
        while v < |vs|
          invariant 0 <= v <= |vs|
          invariant disk == old(disk) - RealFiles(vs[0..v])
        {
          OneMoreFile(vs, 0, v);
          disk := disk - {vs[v].rfile};
          v := v + 1;
        }
        assert vs[0..v] == vs[0..];
        versions, deleted, dflVid, dflSvid, timestamp := [], false, LATEST, LATEST, 0;
      } else {
        Cull(count);
        if !list.Whole? { res := -1; }
      }
    }
  }

  lemma OneMoreFile(vs: seq<Version>, from: nat, to: nat)
    requires from <= to < |vs|
    ensures RealFiles(vs[from..to + 1]) == RealFiles(vs[from..to]) + {vs[to].rfile}
  {
    var a, b := vs[from..to], vs[from..to + 1];
    assert forall i | 0 <= i < |a| :: b[i] == a[i];
    assert b[|a|] == vs[to];
  }

  lemma NoFiles(vs: seq<Version>, k: nat)
    requires k <= |vs|
    ensures RealFiles(vs[k..k]) == {}
  {
  }
}
