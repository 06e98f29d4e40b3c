/**
 CopyFS: one virtual file as a state machine. Its versions and pin are in memory, the contents of its
 versions in real files; the steps are the callbacks of `interface.c` and `ea.c` on top of `create.c`.
 */
module VersionStore {
  import opened Bytes
  import opened Text
  import opened Versions

  /** Where the file's real files live and what it is called. */
  datatype Place = Place(dir: string, name: string)

  /** No versions means that the file is not known at all. */
  datatype State = State(md: Metadata, disk: map<string, bytes>)

  const UNKNOWN := Metadata([], false, LATEST, LATEST, 0)

  /** `create_version_name` */
  function RealName(p: Place, serial: u32): string {
    p.dir + "/" + Hex8(serial) + "." + p.name
  }

  const TIME_LIMIT: int := 1
  const MODE_BITS: u32 := 0x1000

  /** Result of `create_copy_file`: 0, or minus the number of the call that failed. */
  type copycode = x: int | -8 <= x <= 0

  /**
   What becomes of the rewriting of the version list: all of it and of what follows it; nothing, since the file
   could not be opened; or no more than the first `length` characters, after which the old list is gone. All of
   the list can be there and the rewriting still fail, when it is the pin that cannot be removed.
   */
  datatype Outcome = Whole | Unopened | CutShort(length: nat)

  /** One turn of the copying loop: how much is read and how much of that is written. */
  datatype Turn = Turn(read: nat, written: nat)

  /** What the underlying file system lets happen while a version is made. */
  datatype Env = Env(copy: copycode, turns: seq<Turn>, partial: bytes, list: Outcome)

  datatype Op =
    | OpenWrite(now: int, env: Env)
    | Write(offset: nat, data: bytes, written: nat)
    | Truncate(now: int, length: nat, cut: bool, env: Env)
    | Chmod(now: int, mode: u32, env: Env)
    | Chown(now: int, uid: u32, gid: u32, env: Env)
    | Unlink(list: Outcome)
    | Mknod(now: int, mode: u32, uid: u32, gid: u32, made: bool, env: Env)
    | Pin(vid: int32, svid: int32, allowed: bool)
    | Purge(count: int, list: Outcome)

  function Visible(s: State): (i: Option<nat>)
    ensures i.Some? ==> i.value < |s.md.versions| && !s.md.deleted
    ensures i.None? <==> s.md.versions == [] || s.md.deleted
  {
    Lookup(s.md, false, LATEST, LATEST)
  }

  /** The version a new one is made from; a deleted file has one too. */
  function Current(s: State): Version
    requires s.md.versions != []
  {
    s.md.versions[Lookup(s.md, true, LATEST, LATEST).value]
  }

  /** The bytes a reader sees. */
  function Shown(s: State): Option<bytes> {
    if Visible(s).Some? && Current(s).rfile in s.disk then Some(s.disk[Current(s).rfile]) else None
  }

  function Succ(x: u32): u32 {
    if x == 0xFFFF_FFFF then 0 else x + 1
  }

  // ----- create.c -----

  /** The version `create_new_version_generic` fills in before it is linked. */
  function NewVersion(p: Place, s: State, sub: bool, copied: bool, mode: u32, uid: u32, gid: u32): Version
    requires s.md.versions != []
  {
    var current, head := Current(s), s.md.versions[0];
    if sub then
      var bump := current.vid != head.vid;
      Version(if bump then Succ(head.vid) else current.vid, if bump then 0 else Succ(current.svid),
              mode % MODE_BITS, uid, gid, current.rfile)
    else
      Version(Succ(head.vid), 0, current.mode % MODE_BITS, if copied then current.uid else uid,
              if copied then current.gid else gid, RealName(p, Succ(head.vid)))
  }

  /** `create_link_version`: prepends, unpins and undeletes, or nothing if the metafiles cannot be written. */
  function Link(s: State, v: Version, commits: bool): (State, int) {
    if commits then
      (s.(md := Metadata([v] + s.md.versions, false, LATEST, LATEST, s.md.timestamp)), 0)
    else (s, -1)
  }

  const COPY_BUFFER: nat := 1024

  /** How much a turn reads of what is left of a file, and how much of it arrives: `write` may stop short. */
  function TurnRead(f: bytes, turn: Turn): (n: nat)
    requires f != []
    ensures 0 < n <= |f| && n <= COPY_BUFFER
  {
    Max(1, Min(turn.read, Min(COPY_BUFFER, |f|)))
  }

  function TurnWritten(f: bytes, turn: Turn): (n: nat)
    requires f != []
    ensures n <= TurnRead(f, turn)
  {
    Min(turn.written, TurnRead(f, turn))
  }

  /**
   What the copying loop makes of a file. A write that stops short is taken for success, and what it left over is
   lost. After the turns given, everything arrives.
   */
  function CopyOf(f: bytes, turns: seq<Turn>): bytes
    decreases |f|
  {
    if f == [] || turns == [] then f
    else f[..TurnWritten(f, turns[0])] + CopyOf(f[TurnRead(f, turns[0])..], turns[1..])
  }

  /** No write stops short. */
  predicate NothingLost(f: bytes, turns: seq<Turn>)
    decreases |f|
  {
    f == [] || turns == []
    || (TurnWritten(f, turns[0]) == TurnRead(f, turns[0]) && NothingLost(f[TurnRead(f, turns[0])..], turns[1..]))
  }

  /** The copy is the file if and only if no write stopped short. */
  lemma {:induction false} CopyExactly(f: bytes, turns: seq<Turn>)
    ensures |CopyOf(f, turns)| <= |f|
    ensures CopyOf(f, turns) == f <==> NothingLost(f, turns)
    ensures f != [] && turns != [] ==>
              var r, w := TurnRead(f, turns[0]), TurnWritten(f, turns[0]);
              NothingLost(f[r..], turns[1..]) ==> CopyOf(f, turns) == f[..w] + f[r..]
    decreases |f|
  {
    if f != [] && turns != [] {
      var r, w := TurnRead(f, turns[0]), TurnWritten(f, turns[0]);
      CopyExactly(f[r..], turns[1..]);
      if w == r {
        assert f == f[..r] + f[r..];
        assert CopyOf(f, turns)[r..] == CopyOf(f[r..], turns[1..]);
      }
    }
  }

  /** A copy onto the file itself would find it emptied. */
  function Copied(s: State, target: string, turns: seq<Turn>): bytes
    requires s.md.versions != [] && Current(s).rfile in s.disk
  {
    CopyOf(if Current(s).rfile == target then [] else s.disk[Current(s).rfile], turns)
  }

  /** `create_new_version_generic` and its result. */
  function Create(p: Place, s: State, sub: bool, copied: bool, mode: u32, uid: u32, gid: u32,
                  now: int, env: Env): (State, int)
    requires s.md.versions != []
  {
    if now - s.md.timestamp < TIME_LIMIT then (s, 0)
    else if sub && s.md.deleted then (s, -1)
    else
      var v := NewVersion(p, s, sub, copied, mode, uid, gid);
      if sub || !copied then Link(s, v, env.list.Whole?)
      else if Current(s).rfile !in s.disk then (s, -1)
      else if env.copy == 0 then
        Link(s.(disk := s.disk[v.rfile := Copied(s, v.rfile, env.turns)]), v, env.list.Whole?)
      else (s.(disk := if env.copy <= -6 then s.disk[v.rfile := env.partial] else s.disk), env.copy)
  }

  // ----- the callbacks -----

  function Store(s: State, change: bytes -> bytes): State {
    if Shown(s).None? then s else s.(disk := s.disk[Current(s).rfile := change(Shown(s).value)])
  }

  function Stored(op: Op): bytes
    requires op.Write?
  {
    op.data[..Min(op.written, |op.data|)]
  }

  function StepTruncate(p: Place, s: State, op: Op): State
    requires op.Truncate? && s.md.versions != []
  {
    var (t, code) := Create(p, s, false, true, 0, 0, 0, op.now, op.env);
    if code == -1 then t
    else
      var u := t.(md := t.md.(timestamp := op.now));
      if op.cut then Store(u, f => Resize(f, op.length)) else u
  }

  function StepMknod(p: Place, s: State, op: Op): State
    requires op.Mknod?
  {
    if op.mode == 0 || Visible(s).Some? || !op.made then s
    else if s.md.versions == [] then
      var path := RealName(p, 1);
      if path in s.disk then s
      else
        var v := Version(1, 0, op.mode % MODE_BITS, op.uid, op.gid, path);
        State(Metadata([v], false, LATEST, LATEST, op.now), s.disk[path := []])
    else
      var path := RealName(p, Succ(s.md.versions[0].vid));
      if path in s.disk then s
      else
        var t := Create(p, s.(disk := s.disk[path := []]), false, false, op.mode, op.uid, op.gid, op.now, op.env).0;
        if Visible(t).Some? then t.(md := t.md.(timestamp := op.now)) else t
  }

  /** How many versions a purge of the `count` oldest keeps. */
  function Kept(n: nat, count: int): (k: nat)
    ensures k <= n
  {
    if count >= n then 0 else if count <= 0 then n else n - count
  }

  function RealFiles(vs: seq<Version>): set<string> {
    set i | 0 <= i < |vs| :: vs[i].rfile
  }

  function StepPurge(s: State, count: int): State
    requires Visible(s).Some?
  {
    var vs := s.md.versions;
    var k := Kept(|vs|, count);
    State(if k == 0 then UNKNOWN else s.md.(versions := vs[..k]), s.disk - RealFiles(vs[k..]))
  }

  function Step(p: Place, s: State, op: Op): State {
    match op
    case OpenWrite(now, env) =>
      if s.md.versions == [] then s else Create(p, s, false, true, 0, 0, 0, now, env).0
    case Write(offset, _, _) => Store(s, f => Overwrite(f, offset, Stored(op)))
    case Truncate(_, _, _, _) => if s.md.versions == [] then s else StepTruncate(p, s, op)
    case Chmod(now, mode, env) =>
      if Visible(s).None? then s else Create(p, s, true, false, mode, Current(s).uid, Current(s).gid, now, env).0
    case Chown(now, uid, gid, env) =>
      if Visible(s).None? then s else Create(p, s, true, false, Current(s).mode, uid, gid, now, env).0
    case Unlink(_) => if Shown(s).None? then s else s.(md := s.md.(deleted := true))
    case Mknod(_, _, _, _, _, _) => StepMknod(p, s, op)
    case Pin(vid, svid, allowed) =>
      var found := if vid == LATEST then Head(s.md.versions) else FirstMatch(s.md.versions, vid, svid);
      if Visible(s).None? || found.None? || !allowed then s
      else s.(md := s.md.(dflVid := vid, dflSvid := svid))
    case Purge(count, _) => if Visible(s).None? then s else StepPurge(s, count)
  }

  function Run(p: Place, s: State, ops: seq<Op>): State
    decreases |ops|
  {
    if ops == [] then s else Run(p, Step(p, s, ops[0]), ops[1..])
  }

  // ----- names of real files -----

  lemma RealNameInjective(p: Place, a: u32, b: u32)
    ensures RealName(p, a) == RealName(p, b) ==> a == b
  {
    hide Hex8;
    Hex8Injective(a, b);
    Hex8Injective(b, a);
    var m := |p.dir| + 1;
    assert RealName(p, a)[m..m + 8] == Hex8(a);
    assert RealName(p, b)[m..m + 8] == Hex8(b);
  }

  /** The version's real file carries a serial no larger than its number. */
  predicate NamedWithin(p: Place, v: Version) {
    exists serial: u32 | 1 <= serial <= v.vid :: v.rfile == RealName(p, serial)
  }

  predicate Sound(p: Place, vs: seq<Version>) {
    VidsDescend(vs) && forall i | 0 <= i < |vs| :: NamedWithin(p, vs[i])
  }

  /** The name built for the next version differs from every name in the list. */
  lemma FreshName(p: Place, vs: seq<Version>)
    requires Sound(p, vs) && vs != [] && vs[0].vid < 0xFFFF_FFFF
    ensures RealName(p, Succ(vs[0].vid)) !in RealFiles(vs)
  {
    var next := Succ(vs[0].vid);
    forall i | 0 <= i < |vs|
      ensures vs[i].rfile != RealName(p, next)
    {
      assert NamedWithin(p, vs[i]);
      var serial: u32 :| 1 <= serial <= vs[i].vid && vs[i].rfile == RealName(p, serial);
      RealNameInjective(p, serial, next);
      assert i > 0 ==> vs[0].vid >= vs[i].vid;
    }
  }

  // ----- what every step keeps -----

  /** The version the operation links, if it links one. */
  function Linked(p: Place, s: State, op: Op): (v: Option<Version>)
    requires !op.Purge?
  {
    var t := Step(p, s, op);
    if |t.md.versions| > |s.md.versions| then Some(t.md.versions[0]) else None
  }

  /** The operation may make a version. */
  predicate Makes(op: Op) {
    op.OpenWrite? || op.Truncate? || op.Chmod? || op.Chown? || op.Mknod?
  }

  /** The version the operation asks for on a file that is known. */
  function Asked(p: Place, s: State, op: Op): (v: Version)
    requires Makes(op) && s.md.versions != []
  {
    match op
    case Chmod(_, mode, _) => NewVersion(p, s, true, false, mode, Current(s).uid, Current(s).gid)
    case Chown(_, uid, gid, _) => NewVersion(p, s, true, false, Current(s).mode, uid, gid)
    case Mknod(_, mode, uid, gid, _, _) => NewVersion(p, s, false, false, mode, uid, gid)
    case _ => NewVersion(p, s, false, true, 0, 0, 0)
  }

  /** The block is as it was, or has one version more in front, no pin and no delete flag. */
  predicate Outcomes(vs: seq<Version>, md: Metadata, md': Metadata, v: Version) {
    || md'.(timestamp := 0) == md.(timestamp := 0)
    || (md'.versions == [v] + vs && !md'.deleted && md'.dflVid == LATEST && md'.dflSvid == LATEST)
  }

  lemma CreateOutcome(p: Place, s: State, sub: bool, copied: bool, mode: u32, uid: u32, gid: u32, now: int, env: Env)
    requires s.md.versions != []
    ensures var t := Create(p, s, sub, copied, mode, uid, gid, now, env).0;
            Outcomes(s.md.versions, s.md, t.md, NewVersion(p, s, sub, copied, mode, uid, gid))
            && (!env.list.Whole? ==> t.md == s.md)
  {
    hide RealName, EarlyExit, NewVersion;
  }

  /** What a step that may make a version does to the block of a file that is known. */
  lemma StepOutcome(p: Place, s: State, op: Op)
    requires Makes(op) && s.md.versions != []
    ensures var t := Step(p, s, op);
            Outcomes(s.md.versions, s.md, t.md, Asked(p, s, op))
            && (!op.env.list.Whole? ==> t.md.(timestamp := 0) == s.md.(timestamp := 0))
  {
    hide RealName, Lookup, Visible, Current, Create, NewVersion;
    match op
    case OpenWrite(now, env) => CreateOutcome(p, s, false, true, 0, 0, 0, now, env);
    case Truncate(now, _, _, env) => CreateOutcome(p, s, false, true, 0, 0, 0, now, env);
    case Chmod(now, mode, env) => CreateOutcome(p, s, true, false, mode, Current(s).uid, Current(s).gid, now, env);
    case Chown(now, uid, gid, env) => CreateOutcome(p, s, true, false, Current(s).mode, uid, gid, now, env);
    case Mknod(now, mode, uid, gid, _, env) =>
      var s' := s.(disk := s.disk[RealName(p, Succ(s.md.versions[0].vid)) := []]);
      CreateOutcome(p, s', false, false, mode, uid, gid, now, env);
      SameVersion(p, s, s', mode, uid, gid);
  }

  lemma SameVersion(p: Place, s: State, s': State, mode: u32, uid: u32, gid: u32)
    requires s.md.versions != [] && s'.md == s.md
    ensures NewVersion(p, s', false, false, mode, uid, gid) == NewVersion(p, s, false, false, mode, uid, gid)
  {
  }

  /** Other steps but a purge leave the list alone. */
  lemma OtherSteps(p: Place, s: State, op: Op)
    requires !Makes(op) && !op.Purge?
    ensures Step(p, s, op).md.versions == s.md.versions
  {
    hide Lookup, FirstMatch;
  }

  lemma FirstVersion(p: Place, s: State, op: Op)
    requires Makes(op) && s.md.versions == []
    ensures var t := Step(p, s, op);
            t == s || (|t.md.versions| == 1 && !t.md.deleted && t.md.dflVid == LATEST && op.Mknod?
                       && t.md.versions[0] == Version(1, 0, op.mode % 0x1000, op.uid, op.gid, RealName(p, 1)))
  {
    hide RealName;
  }

  /** Every step but a purge leaves the list alone or puts one version in front of it. */
  lemma PrependOnly(p: Place, s: State, op: Op)
    requires !op.Purge?
    ensures var t := Step(p, s, op);
            t.md.versions == (if Linked(p, s, op).Some? then [Linked(p, s, op).value] else []) + s.md.versions
  {
    hide Step, Asked, RealName;
    assert [] + s.md.versions == s.md.versions;
    if !Makes(op) {
      OtherSteps(p, s, op);
    } else if s.md.versions == [] {
      FirstVersion(p, s, op);
    } else {
      StepOutcome(p, s, op);
    }
  }

  /** Linking a version unpins and undeletes the file. */
  lemma LinkedIsPlain(p: Place, s: State, op: Op)
    requires !op.Purge? && Linked(p, s, op).Some?
    ensures var t := Step(p, s, op);
            t.md.dflVid == LATEST && !t.md.deleted && Visible(t) == Some(0)
  {
    hide Step, Asked, RealName, EarlyExit;
    if !Makes(op) {
      OtherSteps(p, s, op);
    } else if s.md.versions == [] {
      FirstVersion(p, s, op);
    } else {
      StepOutcome(p, s, op);
    }
  }

  /** The numbers and the real file of a linked version. */
  lemma LinkedShape(p: Place, s: State, op: Op)
    requires !op.Purge? && Linked(p, s, op).Some?
    ensures var v := Linked(p, s, op).value;
            if s.md.versions == [] then v.vid == 1 && v.svid == 0 && v.rfile == RealName(p, 1)
            else
              var current, head := Current(s), s.md.versions[0];
              if op.Chmod? || op.Chown? then
                v.rfile == current.rfile
                && (if current.vid != head.vid then v.vid == Succ(head.vid) && v.svid == 0
                    else v.vid == current.vid && v.svid == Succ(current.svid))
              else v.vid == Succ(head.vid) && v.svid == 0 && v.rfile == RealName(p, v.vid)
  {
    hide Step, RealName, Lookup;
    if !Makes(op) {
      OtherSteps(p, s, op);
    } else if s.md.versions == [] {
      FirstVersion(p, s, op);
    } else {
      StepOutcome(p, s, op);
    }
  }

  /**
   The mode and owner of a linked version: those asked for where the operation asks for them, and otherwise those of
   the version that was current. A file made anew takes the owner asked for, but keeps its old mode.
   */
  lemma LinkedAttributes(p: Place, s: State, op: Op)
    requires !op.Purge? && Linked(p, s, op).Some?
    ensures var v := Linked(p, s, op).value;
            match op
            case Chmod(_, mode, _) =>
              s.md.versions != [] && v.mode == mode % 0x1000 && (v.uid, v.gid) == (Current(s).uid, Current(s).gid)
            case Chown(_, uid, gid, _) =>
              s.md.versions != [] && v.mode == Current(s).mode % 0x1000 && (v.uid, v.gid) == (uid, gid)
            case Mknod(_, mode, uid, gid, _, _) =>
              v.mode == (if s.md.versions == [] then mode else Current(s).mode) % 0x1000 && (v.uid, v.gid) == (uid, gid)
            case _ =>
              s.md.versions != [] && v.mode == Current(s).mode % 0x1000
              && (v.uid, v.gid) == (Current(s).uid, Current(s).gid)
  {
    hide Step, RealName, Lookup;
    if !Makes(op) {
      OtherSteps(p, s, op);
    } else if s.md.versions == [] {
      FirstVersion(p, s, op);
    } else {
      StepOutcome(p, s, op);
    }
  }

  /** A step that may make a version and does not leaves the block as it was. */
  lemma NothingLinked(p: Place, s: State, op: Op)
    requires Makes(op) && Linked(p, s, op).None?
    ensures Step(p, s, op).md.(timestamp := 0) == s.md.(timestamp := 0)
  {
    hide Step, Asked, RealName;
    if s.md.versions == [] {
      FirstVersion(p, s, op);
    } else {
      StepOutcome(p, s, op);
    }
  }

  /** There is a number left for the next version. */
  predicate NumbersLeft(s: State) {
    s.md.versions != [] ==> s.md.versions[0].vid < 0xFFFF_FFFF
  }

  /** Version numbers never increase along the list and no real file is younger than its version, after any step. */
  lemma StepKeepsSound(p: Place, s: State, op: Op)
    requires Sound(p, s.md.versions) && NumbersLeft(s)
    ensures Sound(p, Step(p, s, op).md.versions)
  {
    hide RealName, Step, Linked;
    var vs := s.md.versions;
    if op.Purge? {
      PurgeVersions(p, s, op);
    } else {
      PrependOnly(p, s, op);
      if Linked(p, s, op).Some? {
        var v := Linked(p, s, op).value;
        LinkedShape(p, s, op);
        if vs != [] {
          var i := Lookup(s.md, true, LATEST, LATEST).value;
          assert Current(s) == vs[i] && NamedWithin(p, vs[i]);
          assert i > 0 ==> vs[0].vid >= vs[i].vid;
          var serial: u32 :| 1 <= serial <= vs[i].vid && vs[i].rfile == RealName(p, serial);
          assert v.vid >= vs[0].vid;
        }
        assert NamedWithin(p, v);
        PrependSound(p, v, vs);
      } else {
        assert [] + vs == vs;
      }
    }
  }

  lemma PrependSound(p: Place, v: Version, vs: seq<Version>)
    requires Sound(p, vs) && NamedWithin(p, v) && (vs != [] ==> v.vid >= vs[0].vid)
    ensures Sound(p, [v] + vs)
  {
  }

  lemma PurgeVersions(p: Place, s: State, op: Op)
    requires op.Purge?
    ensures exists k: nat | k <= |s.md.versions| :: Step(p, s, op).md.versions == s.md.versions[..k]
  {
    var vs := s.md.versions;
    assert vs[..|vs|] == vs;
    assert Step(p, s, op).md.versions == vs[..if Visible(s).None? then |vs| else Kept(|vs|, op.count)];
  }

  // ----- order -----

  /**
   The step keeps the order: a subversion is made from the newest version only, or from an older one that
   is not a subversion of it, and no counter overflows.
   */
  predicate KeepsOrder(p: Place, s: State, op: Op) {
    !op.Purge? && Linked(p, s, op).Some? && s.md.versions != [] ==>
      var current, head := Current(s), s.md.versions[0];
      if (op.Chmod? || op.Chown?) && current.vid == head.vid then
        current.svid == head.svid && head.svid < 0xFFFF_FFFF
      else head.vid < 0xFFFF_FFFF
  }

  /** An ordered list stays ordered if and only if the step is one that keeps the order. */
  lemma OrderExactly(p: Place, s: State, op: Op)
    requires Ordered(s.md.versions)
    ensures Ordered(Step(p, s, op).md.versions) <==> KeepsOrder(p, s, op)
  {
    hide RealName, Step, Linked;
    var vs := s.md.versions;
    if op.Purge? {
      PurgeVersions(p, s, op);
    } else {
      PrependOnly(p, s, op);
      if Linked(p, s, op).Some? {
        LinkedShape(p, s, op);
        PrependOrdered(Linked(p, s, op).value, vs);
        if vs != [] {
          var i := Lookup(s.md, true, LATEST, LATEST).value;
          assert i > 0 ==> Newer(vs[0], vs[i]);
        }
      } else {
        assert [] + vs == vs;
      }
    }
  }

  lemma PrependOrdered(v: Version, vs: seq<Version>)
    requires Ordered(vs)
    ensures Ordered([v] + vs) <==> vs == [] || Newer(v, vs[0])
  {
    var ws := [v] + vs;
    if vs == [] || Newer(v, vs[0]) {
      forall i, j | 0 <= i < j < |ws|
        ensures Newer(ws[i], ws[j])
      {
        assert j >= 2 ==> Newer(vs[0], vs[j - 1]);
      }
    } else {
      assert !Newer(ws[0], ws[1]);
    }
  }

  /**
   After a step on an ordered list the early exit never misses, if and only if the step keeps the order or the
   version it asks for hides none.
   */
  lemma LookupExactly(p: Place, s: State, op: Op)
    requires Ordered(s.md.versions)
    ensures NeverMisses(Step(p, s, op).md.versions) <==>
            KeepsOrder(p, s, op) || (Makes(op) && s.md.versions != [] && HidesNone(Asked(p, s, op), s.md.versions))
  {
    hide RealName, Step, Linked, Asked, NeverMisses;
    OrderExactly(p, s, op);
    var vs, ws := s.md.versions, Step(p, s, op).md.versions;
    if Ordered(ws) {
      OrderedNeverMisses(ws);
    } else {
      LinkedIsAsked(p, s, op);
      PrependedNeverMisses(Asked(p, s, op), vs);
      PrependOrdered(Asked(p, s, op), vs);
    }
  }

  lemma OrderedNeverMisses(vs: seq<Version>)
    requires Ordered(vs)
    ensures NeverMisses(vs)
  {
    hide EarlyExit, FirstMatch;
    forall vid: int32, svid: int32
      ensures EarlyExit(vs, vid, svid) == FirstMatch(vs, vid, svid)
    {
      EarlyExitIsExhaustive(vs, vid, svid);
    }
  }

  lemma LinkedIsAsked(p: Place, s: State, op: Op)
    requires Ordered(s.md.versions) && !Ordered(Step(p, s, op).md.versions)
    ensures Makes(op) && s.md.versions != [] && Step(p, s, op).md.versions == [Asked(p, s, op)] + s.md.versions
  {
    hide RealName, Step, Asked;
    if op.Purge? {
      PurgeVersions(p, s, op);
    } else if !Makes(op) {
      OtherSteps(p, s, op);
    } else if s.md.versions == [] {
      FirstVersion(p, s, op);
    } else {
      StepOutcome(p, s, op);
    }
  }

  /**
   In plain terms, while subversion numbers last: besides the steps that keep the order only a mode or owner change
   made while the version just below the head, of the same number, is current does no harm to lookups.
   */
  lemma LookupInPlainTerms(p: Place, s: State, op: Op)
    requires Ordered(s.md.versions) && (s.md.versions != [] ==> s.md.versions[0].svid < MAX_U32)
    ensures NeverMisses(Step(p, s, op).md.versions) <==>
            || KeepsOrder(p, s, op)
            || ((op.Chmod? || op.Chown?) && s.md.versions != [] && Current(s).vid == s.md.versions[0].vid
                && Current(s).svid + 1 == s.md.versions[0].svid)
  {
    hide RealName, Step, Linked, NeverMisses, Lookup, KeepsOrder;
    LookupExactly(p, s, op);
  }

  /** Changing the mode while pinned to an older subversion of the newest version hides a version. */
  lemma ChmodWhilePinned(p: Place, a: Version, env: Env)
    requires env.list.Whole?
    ensures var vs := [a.(vid := 3, svid := 2), a.(vid := 3, svid := 1), a.(vid := 3, svid := 0)];
            var s := State(Metadata(vs, false, 3, 0, 0), map[]);
            var t := Step(p, s, Chmod(1, 0, env));
            && Ordered(vs) && !Ordered(t.md.versions)
            && EarlyExit(t.md.versions, 3, 2) == None && FirstMatch(t.md.versions, 3, 2) == Some(1)
  {
    var vs := [a.(vid := 3, svid := 2), a.(vid := 3, svid := 1), a.(vid := 3, svid := 0)];
    var s := State(Metadata(vs, false, 3, 0, 0), map[]);
    var t := Step(p, s, Chmod(1, 0, env));
    EarlyExitIsExhaustive(vs, 3, 0);
    assert !Matches(vs[0], 3, 0) && !Matches(vs[1], 3, 0) && Matches(vs[2], 3, 0);
    assert Current(s) == vs[2];
    var ws := t.md.versions;
    assert ws == [ws[0]] + vs && ws[0].vid == 3 && ws[0].svid == 1;
    assert !Newer(ws[0], ws[1]);
    assert SkipNewer(ws, 3, 0) == 0 && SkipNewerSub(ws, 3, 2, 0) == 0;
    assert !Matches(ws[0], 3, 2) && Matches(ws[1], 3, 2);
  }

  // ----- runs -----

  predicate RunKeepsOrder(p: Place, s: State, ops: seq<Op>)
    decreases |ops|
  {
    ops == [] || (KeepsOrder(p, s, ops[0]) && RunKeepsOrder(p, Step(p, s, ops[0]), ops[1..]))
  }

  /** The list is ordered at every moment of a run if and only if every step keeps the order. */
  lemma {:induction false} RunOrderExactly(p: Place, s: State, ops: seq<Op>)
    requires Ordered(s.md.versions)
    ensures (forall i | 0 <= i <= |ops| :: Ordered(Run(p, s, ops[..i]).md.versions)) <==> RunKeepsOrder(p, s, ops)
    decreases |ops|
  {
    hide Step, Ordered, KeepsOrder;
    assert Run(p, s, ops[..0]) == s;
    if ops != [] {
      var t := Step(p, s, ops[0]);
      OrderExactly(p, s, ops[0]);
      forall i | 0 < i <= |ops|
        ensures Run(p, s, ops[..i]) == Run(p, t, ops[1..][..i - 1])
      {
        RunPrefix(p, s, ops, i);
      }
      assert Run(p, t, ops[1..][..0]) == t;
      assert Ordered(Run(p, s, ops[..1]).md.versions) <==> Ordered(t.md.versions);
      if Ordered(t.md.versions) {
        RunOrderExactly(p, t, ops[1..]);
        forall j | 0 <= j <= |ops[1..]|
          ensures Run(p, t, ops[1..][..j]) == Run(p, s, ops[..j + 1])
        {
        }
      }
    }
  }

  predicate RunHasNumbers(p: Place, s: State, ops: seq<Op>)
    decreases |ops|
  {
    ops == [] || (NumbersLeft(s) && RunHasNumbers(p, Step(p, s, ops[0]), ops[1..]))
  }

  lemma {:induction false} RunKeepsSound(p: Place, s: State, ops: seq<Op>)
    requires Sound(p, s.md.versions) && RunHasNumbers(p, s, ops)
    ensures Sound(p, Run(p, s, ops).md.versions)
    decreases |ops|
  {
    hide Step, Sound;
    if ops != [] {
      StepKeepsSound(p, s, ops[0]);
      RunKeepsSound(p, Step(p, s, ops[0]), ops[1..]);
    }
  }

  /** Over every run the pin is found where it is, unless it is gone; then the newest version shows. */
  lemma {:induction false} RunKeepsLookup(p: Place, s: State, ops: seq<Op>)
    requires Ordered(s.md.versions) && RunKeepsOrder(p, s, ops)
    ensures var t := Run(p, s, ops);
            && Ordered(t.md.versions)
            && (Visible(t).Some? && t.md.dflVid != LATEST ==>
                  var pinned := FirstMatch(t.md.versions, t.md.dflVid, t.md.dflSvid);
                  Visible(t) == if pinned.Some? then pinned else Some(0))
    decreases |ops|
  {
    hide Step, KeepsOrder, Ordered, EarlyExit;
    if ops != [] {
      OrderExactly(p, s, ops[0]);
      RunKeepsLookup(p, Step(p, s, ops[0]), ops[1..]);
    } else if Visible(s).Some? && s.md.dflVid != LATEST {
      PinnedLookup(s.md, false);
    }
  }

  // ----- content copies -----

  /** The operation makes a new version with a file of its own. */
  predicate LinksContent(p: Place, s: State, op: Op) {
    !op.Purge? && !op.Chmod? && !op.Chown? && Linked(p, s, op).Some?
  }

  /** When opening for writing makes a version, in terms a caller can check and the system calls' results. */
  lemma OpenMakesVersion(p: Place, s: State, now: int, env: Env)
    ensures LinksContent(p, s, OpenWrite(now, env)) <==>
            s.md.versions != [] && Current(s).rfile in s.disk
            && now - s.md.timestamp >= TIME_LIMIT && env.copy == 0 && env.list.Whole?
  {
  }

  /**
   Opening for writing, when it makes a version, leaves the visible bytes as they were, whatever version was
   current before, if and only if no write of the copy stopped short; it clears the pin, and touches no other
   version's file. A deleted file comes back with the bytes of the version it had last.
   */
  lemma CopyKeepsShown(p: Place, s: State, now: int, env: Env)
    requires Sound(p, s.md.versions) && NumbersLeft(s) && LinksContent(p, s, OpenWrite(now, env))
    ensures var t := Step(p, s, OpenWrite(now, env));
            && Current(s).rfile in s.disk
            && (var was := s.disk[Current(s).rfile];
                && Shown(t) == Some(CopyOf(was, env.turns))
                && (Shown(t) == Some(was) <==> NothingLost(was, env.turns))
                && (!s.md.deleted ==> Shown(s) == Some(was)))
            && t.md.dflVid == LATEST && Visible(t) == Some(0)
            && Current(t).rfile !in RealFiles(s.md.versions)
            && forall f | f in RealFiles(s.md.versions) && f in s.disk :: f in t.disk && t.disk[f] == s.disk[f]
  {
    hide RealName, CopyOf, NothingLost;
    FreshName(p, s.md.versions);
    LinkedIsPlain(p, s, OpenWrite(now, env));
    CopyExactly(s.disk[Current(s).rfile], env.turns);
  }

  // ----- writing and cutting -----

  /** No real file but the visible version's changes. */
  predicate OnlyShownChanges(s: State, t: State) {
    && t.disk.Keys == s.disk.Keys
    && forall f | f in s.disk && (Shown(s).None? || f != Current(s).rfile) :: t.disk[f] == s.disk[f]
  }

  lemma StoreShows(s: State, change: bytes -> bytes)
    ensures var t := Store(s, change);
            t.md == s.md && OnlyShownChanges(s, t)
            && Shown(t) == if Shown(s).None? then None else Some(change(Shown(s).value))
  {
    hide Lookup;
  }

  /** A write stores the part of its data that arrives at its offset in what is shown, and changes nothing else. */
  lemma WriteShows(p: Place, s: State, op: Op)
    requires op.Write?
    ensures var t := Step(p, s, op);
            && t.md == s.md && OnlyShownChanges(s, t)
            && Shown(t) == if Shown(s).None? then None
                           else Some(Overwrite(Shown(s).value, op.offset, op.data[..Min(op.written, |op.data|)]))
  {
    hide Lookup, OnlyShownChanges, Shown;
    StoreShows(s, f => Overwrite(f, op.offset, Stored(op)));
  }

  /** The copy for a version fails at its first call, or the version it makes cannot be committed. */
  predicate CopyRefused(s: State, now: int, env: Env)
    requires s.md.versions != []
  {
    && now - s.md.timestamp >= TIME_LIMIT
    && (Current(s).rfile !in s.disk || env.copy == -1 || (env.copy == 0 && !env.list.Whole?))
  }

  /** A version is made and linked. */
  predicate CopyLinked(s: State, now: int, env: Env)
    requires s.md.versions != []
  {
    now - s.md.timestamp >= TIME_LIMIT && Current(s).rfile in s.disk && env.copy == 0 && env.list.Whole?
  }

  lemma CreateShows(p: Place, s: State, now: int, env: Env)
    requires s.md.versions != [] && Sound(p, s.md.versions) && NumbersLeft(s)
    ensures var (t, code) := Create(p, s, false, true, 0, 0, 0, now, env);
            && (code == -1 <==> CopyRefused(s, now, env)) && !(CopyRefused(s, now, env) && CopyLinked(s, now, env))
            && t.md.timestamp == s.md.timestamp
            && if CopyLinked(s, now, env) then
                 |t.md.versions| == |s.md.versions| + 1
                 && Shown(t) == Some(CopyOf(s.disk[Current(s).rfile], env.turns))
               else t.md == s.md && Shown(t) == Shown(s)
  {
    hide RealName, CopyOf, EarlyExit;
    FreshName(p, s.md.versions);
    assert Current(s).rfile in RealFiles(s.md.versions);
  }

  /**
   A truncate that is not refused shows the old bytes, or their copy if a version was made, cut or extended with
   zeros to the length asked for; one that is refused leaves the block alone and shows what was shown.
   */
  lemma TruncateShows(p: Place, s: State, op: Op)
    requires op.Truncate? && s.md.versions != [] && Sound(p, s.md.versions) && NumbersLeft(s)
    ensures var t := Step(p, s, op);
            if CopyRefused(s, op.now, op.env) then t.md == s.md && Shown(t) == Shown(s)
            else
              && t.md.timestamp == op.now && (Linked(p, s, op).Some? <==> CopyLinked(s, op.now, op.env))
              && var copied := CopyLinked(s, op.now, op.env);
                 var before := if copied then Some(CopyOf(s.disk[Current(s).rfile], op.env.turns)) else Shown(s);
                 Shown(t) == if before.Some? && op.cut then Some(Resize(before.value, op.length)) else before
  {
    hide RealName, CopyOf, Lookup, Create, OnlyShownChanges, Sound, CopyRefused, CopyLinked;
    CreateShows(p, s, op.now, op.env);
    var (t, code) := Create(p, s, false, true, 0, 0, 0, op.now, op.env);
    assert Step(p, s, op) == StepTruncate(p, s, op);
    assert CopyRefused(s, op.now, op.env) ==> StepTruncate(p, s, op) == t;
    var u := t.(md := t.md.(timestamp := op.now));
    Restamped(t, op.now);
    StoreShows(u, f => Resize(f, op.length));
  }

  lemma Restamped(s: State, now: int)
    ensures Shown(s.(md := s.md.(timestamp := now))) == Shown(s)
  {
  }

  /** Without a pin the newest version shows. */
  lemma HeadShows(s: State)
    requires s.md.versions != [] && !s.md.deleted && s.md.dflVid == LATEST
    ensures Visible(s) == Some(0) && Current(s) == s.md.versions[0]
  {
  }

  /** An accepted pin is the file's pin and shows its version; a release shows the newest one. */
  lemma PinShows(p: Place, s: State, op: Op)
    requires op.Pin?
    ensures var t := Step(p, s, op);
            if Visible(s).None? || !op.allowed || (op.vid != LATEST && FirstMatch(s.md.versions, op.vid, op.svid).None?)
            then t == s
            else
              && t == s.(md := s.md.(dflVid := op.vid, dflSvid := op.svid))
              && (op.vid == LATEST ==> Visible(t) == Some(0))
              && (op.vid != LATEST && Ordered(s.md.versions) ==>
                    Visible(t) == FirstMatch(s.md.versions, op.vid, op.svid))
  {
    hide EarlyExit;
    var t := Step(p, s, op);
    if Ordered(s.md.versions) && t.md.dflVid != LATEST && Visible(s).Some? { PinnedLookup(t.md, false); }
  }

  // ----- deleted and made anew -----

  /** When creating a deleted file anew brings it back. */
  lemma RecreateExactly(p: Place, s: State, op: Op)
    requires op.Mknod? && s.md.versions != [] && s.md.deleted
    ensures Visible(Step(p, s, op)).Some? <==>
            op.mode != 0 && op.made && RealName(p, Succ(s.md.versions[0].vid)) !in s.disk
            && op.now - s.md.timestamp >= TIME_LIMIT && op.env.list.Whole?
  {
    hide RealName, EarlyExit;
  }

  /**
   Made anew too soon after its last change, a deleted file stays deleted, but an empty real file is left in the
   place of the next version: from then on no attempt to create the file succeeds.
   */
  lemma RecreatedTooSoon(p: Place, s: State, op: Op, later: Op)
    requires op.Mknod? && later.Mknod? && s.md.versions != [] && s.md.deleted
    requires op.mode != 0 && op.made && RealName(p, Succ(s.md.versions[0].vid)) !in s.disk
    requires op.now - s.md.timestamp < TIME_LIMIT
    ensures var t := Step(p, s, op);
            t.md == s.md && t.disk == s.disk[RealName(p, Succ(s.md.versions[0].vid)) := []] && Step(p, t, later) == t
  {
    hide RealName, EarlyExit;
  }

  // ----- purge -----

  /** A purge keeps exactly the newest versions in order and unlinks exactly the removed versions' files. */
  lemma PurgeExactly(p: Place, s: State, op: Op)
    requires op.Purge? && Visible(s).Some?
    ensures var vs, t := s.md.versions, Step(p, s, op);
            var k := |t.md.versions|;
            && k == (if op.count >= |vs| then 0 else if op.count <= 0 then |vs| else |vs| - op.count)
            && t.md.versions == vs[..k]
            && (forall f :: f in t.disk <==> f in s.disk && f !in RealFiles(vs[k..]))
            && (forall f | f in t.disk :: t.disk[f] == s.disk[f])
            && (k > 0 ==> t.md.(versions := vs) == s.md)
            && (k == 0 ==> t.md.dflVid == LATEST && !t.md.deleted)
  {
  }

  /** Every kept version still has its file if and only if it shares it with no removed one. */
  lemma PurgeKeepsFiles(p: Place, s: State, op: Op)
    requires op.Purge? && Visible(s).Some? && RealFiles(s.md.versions) <= s.disk.Keys
    ensures var vs, t := s.md.versions, Step(p, s, op);
            var k := |t.md.versions|;
            RealFiles(t.md.versions) <= t.disk.Keys <==>
            forall i, j | 0 <= i < k <= j < |vs| :: vs[i].rfile != vs[j].rfile
  {
    var vs, t := s.md.versions, Step(p, s, op);
    var k := |t.md.versions|;
    hide Step, Lookup;
    PurgeExactly(p, s, op);
    forall i, j | 0 <= i < k <= j < |vs| && vs[i].rfile == vs[j].rfile
      ensures !(RealFiles(t.md.versions) <= t.disk.Keys)
    {
      assert vs[k..][j - k] == vs[j] && vs[j].rfile in RealFiles(vs[k..]);
      assert t.md.versions[i] == vs[i] && vs[i].rfile in RealFiles(t.md.versions);
    }
    if forall i, j | 0 <= i < k <= j < |vs| :: vs[i].rfile != vs[j].rfile {
      forall f | f in RealFiles(t.md.versions)
        ensures f in t.disk
      {
        var i :| 0 <= i < k && t.md.versions[i].rfile == f;
        assert vs[i].rfile == f && f in RealFiles(vs);
        forall j | 0 <= j < |vs[k..]|
          ensures vs[k..][j].rfile != f
        {
          assert vs[k..][j] == vs[k + j];
        }
      }
    }
  }

  /** Purging twice is purging once, by the sum of the counts. */
  lemma PurgeComposes(p: Place, s: State, a: Op, b: Op, both: Op)
    requires a.Purge? && b.Purge? && both.Purge?
    requires a.count >= 0 && b.count >= 0 && both.count == a.count + b.count
    ensures Step(p, Step(p, s, a), b) == Step(p, s, both)
  {
    hide RealFiles, Lookup, Kept;
    if Visible(s).Some? {
      var vs, t := s.md.versions, Step(p, s, a);
      var k, m := Kept(|vs|, a.count), Kept(|vs|, both.count);
      CountsAdd(|vs|, a.count, b.count);
      if k > 0 {
        assert Visible(t).Some?;
        assert vs[..k][..m] == vs[..m] && vs[m..] == vs[..k][m..] + vs[k..];
        FilesOfParts(vs[..k][m..], vs[k..]);
        assert s.disk - RealFiles(vs[k..]) - RealFiles(vs[..k][m..]) == s.disk - RealFiles(vs[m..]);
      }
    }
  }

  lemma CountsAdd(n: nat, a: nat, b: nat)
    ensures Kept(n, a + b) == Kept(Kept(n, a), b)
  {
  }

  lemma FilesOfParts(a: seq<Version>, b: seq<Version>)
    ensures RealFiles(a + b) == RealFiles(a) + RealFiles(b)
  {
    forall f | f in RealFiles(a) + RealFiles(b)
      ensures f in RealFiles(a + b)
    {
      if i :| 0 <= i < |a| && a[i].rfile == f {
        assert (a + b)[i].rfile == f;
      } else {
        var i :| 0 <= i < |b| && b[i].rfile == f;
        assert (a + b)[|a| + i].rfile == f;
      }
    }
  }

  /** Afterwards the pinned version shows if it survived, and otherwise the newest one. */
  lemma PurgeLookup(p: Place, s: State, op: Op)
    requires op.Purge? && Visible(s).Some? && Ordered(s.md.versions)
    ensures var t := Step(p, s, op);
            var pinned := FirstMatch(s.md.versions, s.md.dflVid, s.md.dflSvid);
            Visible(t) ==
              if t.md.versions == [] then None
              else if s.md.dflVid != LATEST && pinned.Some? && pinned.value < |t.md.versions| then pinned
              else Some(0)
  {
    hide EarlyExit;
    var vs, t := s.md.versions, Step(p, s, op);
    PurgeExactly(p, s, op);
    var ws := t.md.versions;
    if ws != [] && s.md.dflVid != LATEST {
      PinnedLookup(t.md, false);
      var a, b := FirstMatch(vs, s.md.dflVid, s.md.dflSvid), FirstMatch(ws, s.md.dflVid, s.md.dflSvid);
      assert forall i | 0 <= i < |ws| :: ws[i] == vs[i];
      if b.Some? { assert Matches(vs[b.value], s.md.dflVid, s.md.dflSvid); }
      if a.Some? && a.value < |ws| { assert Matches(ws[a.value], s.md.dflVid, s.md.dflSvid); }
    }
  }

  // ----- when the list cannot be written -----

  /** The operation as it is when the list can be written. */
  function Unhindered(op: Op): Op
    requires Makes(op)
  {
    op.(env := op.env.(list := Whole))
  }

  /** The version the operation links, or would link if the list could be written. */
  function Attempt(p: Place, s: State, op: Op): Option<Version>
    requires Makes(op)
  {
    Linked(p, s, Unhindered(op))
  }

  /** Memory goes back to what it was when the list cannot be written, except for a file that is new. */
  lemma RolledBack(p: Place, s: State, op: Op)
    requires Makes(op)
    ensures var t := Step(p, s, op).md;
            if s.md.versions == [] || op.env.list.Whole? then t == Step(p, s, Unhindered(op)).md
            else t.(timestamp := 0) == s.md.(timestamp := 0)
  {
    if s.md.versions == [] {
      NewUnhindered(p, s, op);
    } else {
      hide Step, Asked;
      StepOutcome(p, s, op);
      assert op.env.list.Whole? ==> Unhindered(op) == op;
    }
  }

  lemma NewUnhindered(p: Place, s: State, op: Op)
    requires Makes(op) && s.md.versions == []
    ensures Step(p, s, Unhindered(op)).md == Step(p, s, op).md
  {
    hide RealName;
  }

  // ----- every version has its file -----

  predicate HasFiles(s: State) {
    RealFiles(s.md.versions) <= s.disk.Keys
  }

  /** No version that the operation removes shares its file with one that it keeps. */
  predicate KeepsFiles(s: State, op: Op) {
    op.Purge? && Visible(s).Some? ==>
      var vs := s.md.versions;
      var k := Kept(|vs|, op.count);
      forall i, j | 0 <= i < k <= j < |vs| :: vs[i].rfile != vs[j].rfile
  }

  /** After any step every version still has its file, if and only if the step is no purge of a shared one. */
  lemma FilesExactly(p: Place, s: State, op: Op)
    requires HasFiles(s)
    ensures HasFiles(Step(p, s, op)) <==> KeepsFiles(s, op)
  {
    hide RealName, EarlyExit, Step, Linked, RealFiles, Visible;
    if op.Purge? {
      if Visible(s).Some? { PurgeExactly(p, s, op); PurgeKeepsFiles(p, s, op); } else { PurgeOfNothing(p, s, op); }
    } else {
      PrependOnly(p, s, op);
      LinkedHasFile(p, s, op);
      FilesOfParts(if Linked(p, s, op).Some? then [Linked(p, s, op).value] else [], s.md.versions);
      FilesOfOne(Linked(p, s, op));
    }
  }

  lemma PurgeOfNothing(p: Place, s: State, op: Op)
    requires op.Purge? && Visible(s).None?
    ensures Step(p, s, op) == s
  {
  }

  lemma FilesOfOne(v: Option<Version>)
    ensures RealFiles(if v.Some? then [v.value] else []) == if v.Some? then {v.value.rfile} else {}
  {
    if v.Some? { assert [v.value][0].rfile in RealFiles([v.value]); }
  }

  /** Nothing but a purge takes a file away, and a linked version has one. */
  lemma LinkedHasFile(p: Place, s: State, op: Op)
    requires HasFiles(s) && !op.Purge?
    ensures s.disk.Keys <= Step(p, s, op).disk.Keys
    ensures Linked(p, s, op).Some? ==> Linked(p, s, op).value.rfile in Step(p, s, op).disk
  {
    hide RealName, EarlyExit;
  }

  predicate RunKeepsFiles(p: Place, s: State, ops: seq<Op>)
    decreases |ops|
  {
    ops == [] || (KeepsFiles(s, ops[0]) && RunKeepsFiles(p, Step(p, s, ops[0]), ops[1..]))
  }

  lemma RunPrefix(p: Place, s: State, ops: seq<Op>, i: nat)
    requires 0 < i <= |ops|
    ensures Run(p, s, ops[..i]) == Run(p, Step(p, s, ops[0]), ops[1..][..i - 1])
  {
    hide Step;
    assert ops[..i][0] == ops[0] && ops[..i][1..] == ops[1..][..i - 1];
  }

  /** Every version has its file at every moment of a run, if and only if no purge of the run removes a shared one. */
  lemma {:induction false} RunFilesExactly(p: Place, s: State, ops: seq<Op>)
    requires HasFiles(s)
    ensures (forall i | 0 <= i <= |ops| :: HasFiles(Run(p, s, ops[..i]))) <==> RunKeepsFiles(p, s, ops)
    decreases |ops|
  {
    hide Step, HasFiles, KeepsFiles;
    assert Run(p, s, ops[..0]) == s;
    if ops != [] {
      var t := Step(p, s, ops[0]);
      FilesExactly(p, s, ops[0]);
      forall i | 0 < i <= |ops|
        ensures Run(p, s, ops[..i]) == Run(p, t, ops[1..][..i - 1])
      {
        RunPrefix(p, s, ops, i);
      }
      assert Run(p, t, ops[1..][..0]) == t;
      assert HasFiles(Run(p, s, ops[..1])) <==> HasFiles(t);
      if HasFiles(t) {
        RunFilesExactly(p, t, ops[1..]);
        forall j | 0 <= j <= |ops[1..]|
          ensures Run(p, t, ops[1..][..j]) == Run(p, s, ops[..j + 1])
        {
        }
      }
    }
  }
}
