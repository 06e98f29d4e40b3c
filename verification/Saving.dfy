/**
 CopyFS: what the steps of a file leave on disk. Each callback rewrites the version list, the pin, both or
 neither; read back, the two files give the block the callback left in memory.
 */
module Saving {
  import opened Bytes
  import opened Text
  import opened Helper
  import opened MetadataFile
  import opened Versions
  import opened VersionStore
  import opened PathWalk
  import opened FileSteps

  // ----- the places of the two files -----

  /** No two names share a file, and no list is a pin. */
  lemma PathsDiffer(dir: string, name: string, d: string, n: string)
    requires '/' !in name && '/' !in n
    ensures MetaPath(dir, name) == MetaPath(d, n) ==> dir == d && name == n
    ensures PinPath(dir, name) == PinPath(d, n) ==> dir == d && name == n
    ensures MetaPath(dir, name) != PinPath(d, n)
  {
    hide FileName, DirName;
    var list, pin, list', pin' := "metadata." + name, "dfl-meta." + name, "metadata." + n, "dfl-meta." + n;
    FileNameOf(dir, list);
    FileNameOf(dir, pin);
    FileNameOf(d, list');
    FileNameOf(d, pin');
    assert list[0] != pin'[0];
    assert list[9..] == name && list'[9..] == n && pin[9..] == name && pin'[9..] == n;
  }

  // ----- writing them -----

  function SaveList(files: Files, p: Place, md: Metadata): Files {
    Put(files, MetaPath(p.dir, p.name), FileText(md.versions, md.deleted))
  }

  function SavePin(files: Files, p: Place, md: Metadata): Files {
    match PinText(md.dflVid, md.dflSvid)
    case None => Remove(files, PinPath(p.dir, p.name))
    case Some(text) => Put(files, PinPath(p.dir, p.name), text)
  }

  /** The block in memory is what its files give when they are read, or the file is unknown to both. */
  predicate OnDisk(files: Files, p: Place, md: Metadata) {
    var m := Load(files, p.dir, p.name);
    if md.versions == [] then m.None? else m.Some? && Settled(md) == Settled(Fix(p.dir, m.value))
  }

  /** A block whose list the file format can hold, in the directory it belongs to. */
  predicate Saveable(p: Place, vs: seq<Version>) {
    && LiveIn(p.dir, vs)
    && (forall v | v in vs :: Storable(v))
    && forall i | 0 <= i < |vs| :: NamedFor(FileName(vs[i].rfile), p.name)
  }

  predicate GoodName(name: string) {
    '/' !in name && '\n' !in name
  }

  /** The names made by `create_version_name` can always be stored. */
  lemma SoundIsSaveable(p: Place, vs: seq<Version>)
    requires Sound(p, vs) && GoodName(p.name)
    ensures Saveable(p, vs)
  {
    hide RealName, FileName;
    forall i | 0 <= i < |vs|
      ensures vs[i].rfile == p.dir + "/" + FileName(vs[i].rfile)
      ensures Storable(vs[i]) && NamedFor(FileName(vs[i].rfile), p.name)
    {
      assert NamedWithin(p, vs[i]);
      var serial: u32 :| 1 <= serial <= vs[i].vid && vs[i].rfile == RealName(p, serial);
      RealNameShape(p, serial);
    }
  }

  lemma RealNameShape(p: Place, serial: u32)
    requires GoodName(p.name)
    ensures var r := FileName(RealName(p, serial));
            RealName(p, serial) == p.dir + "/" + r && NamedFor(r, p.name) && '\n' !in r
  {
    hide Hex8, FileName, DirName;
    Hex8Injective(serial, serial);
    var r := Hex8(serial) + "." + p.name;
    assert '/' !in Hex8(serial) && '\n' !in Hex8(serial) by {
      assert DigitValue('/') == -1 && DigitValue('\n') == -1;
    }
    assert r[9..] == p.name;
    assert RealName(p, serial) == p.dir + "/" + r;
    FileNameOf(p.dir, r);
  }

  /** Whatever is written in the place of a list is loaded for its own name and for no other. */
  lemma ListReplaced(files: Files, p: Place, text: string)
    requires GoodName(p.name)
    ensures var files' := Put(files, MetaPath(p.dir, p.name), text);
            && ChangedOnly(files, files', p.dir, p.name)
            && PinOf(files', p.dir, p.name) == PinOf(files, p.dir, p.name)
            && Load(files', p.dir, p.name) ==
               var q := ParseText(text, EMPTY, files.memory);
               var (vid, svid) := PinOf(files, p.dir, p.name);
               Some(Metadata(q.versions, q.deleted, vid, svid, 0))
  {
    hide ParseText, MetaPath, PinPath, ParsePin;
    var files' := Put(files, MetaPath(p.dir, p.name), text);
    PathsDiffer(p.dir, p.name, p.dir, p.name);
    forall d: string, n: string | '/' !in n && (d != p.dir || n != p.name)
      ensures Load(files', d, n) == Load(files, d, n)
    {
      PathsDiffer(p.dir, p.name, d, n);
    }
  }

  lemma ListSaved(files: Files, p: Place, md: Metadata)
    requires Saveable(p, md.versions) && GoodName(p.name)
    ensures var files' := SaveList(files, p, md);
            var m := Load(files', p.dir, p.name);
            && ChangedOnly(files, files', p.dir, p.name)
            && m.Some? && Fixup(p.dir, m.value.versions) == md.versions && m.value.deleted == md.deleted
            && (m.value.dflVid, m.value.dflSvid) == PinOf(files, p.dir, p.name)
  {
    hide ParseText, FileText, Fixup, MetaPath, PinOf, Load, ChangedOnly;
    StorableComesBack(p.dir, md.versions, md.deleted, files.memory);
    ListReplaced(files, p, FileText(md.versions, md.deleted));
  }

  lemma PinElsewhere(files: Files, p: Place, md: Metadata)
    requires GoodName(p.name)
    ensures ChangedOnly(files, SavePin(files, p, md), p.dir, p.name)
  {
    hide ParseText, MetaPath, PinPath, ParsePin, PinText;
    forall d: string, n: string | '/' !in n && (d != p.dir || n != p.name)
      ensures Load(SavePin(files, p, md), d, n) == Load(files, d, n)
    {
      PathsDiffer(p.dir, p.name, d, n);
      PathsDiffer(d, n, p.dir, p.name);
    }
  }

  lemma PinSaved(files: Files, p: Place, md: Metadata)
    requires GoodName(p.name)
    ensures var files' := SavePin(files, p, md);
            var m, m' := Load(files, p.dir, p.name), Load(files', p.dir, p.name);
            && ChangedOnly(files, files', p.dir, p.name)
            && PinOf(files', p.dir, p.name) == (md.dflVid, if md.dflVid == LATEST then LATEST else md.dflSvid)
            && m' == if m.None? then None
                     else Some(m.value.(dflVid := md.dflVid,
                                        dflSvid := if md.dflVid == LATEST then LATEST else md.dflSvid))
  {
    PinElsewhere(files, p, md);
    hide ParseText, MetaPath, PinPath, ParsePin, PinText, ChangedOnly;
    PinRoundTrip(md.dflVid, md.dflSvid);
    PathsDiffer(p.dir, p.name, p.dir, p.name);
  }

  lemma ListForgotten(files: Files, p: Place)
    requires GoodName(p.name)
    ensures var files' := Remove(files, MetaPath(p.dir, p.name));
            ChangedOnly(files, files', p.dir, p.name) && Load(files', p.dir, p.name).None?
  {
    hide ParseText, MetaPath, PinPath, ParsePin;
    var files' := Remove(files, MetaPath(p.dir, p.name));
    forall d: string, n: string | '/' !in n && (d != p.dir || n != p.name)
      ensures Load(files', d, n) == Load(files, d, n)
    {
      PathsDiffer(p.dir, p.name, d, n);
      PathsDiffer(p.dir, p.name, p.dir, p.name);
    }
  }

  /** A list of which only the first `n` characters were written. */
  function CutList(files: Files, p: Place, vs: seq<Version>, deleted: bool, n: nat): Files {
    var text := FileText(vs, deleted);
    Put(files, MetaPath(p.dir, p.name), text[..Min(n, |text|)])
  }

  /**
   What is loaded of a list that was cut short after `n` characters: the versions whose lines are whole, and one
   more, with part of its last number or name, if enough of the cut line is there and a newline is found behind it.
   */
  predicate LoadsCut(p: Place, loaded: seq<Version>, vs: seq<Version>, n: nat, i: nat, mem: Memory)
    requires i < |vs|
  {
    && |Lines(vs[i + 1..])| <= n < |Lines(vs[i..])|
    && var k := n - |Lines(vs[i + 1..])|;
       if !Scans(vs[i], k, mem) then loaded == vs[i + 1..]
       else
         && k < |Line(vs[i])| && CutVersion(vs[i], k, mem.lost).Some?
         && loaded == Fixup(p.dir, [CutVersion(vs[i], k, mem.lost).value]) + vs[i + 1..]
         && |loaded| == |vs| - i && (loaded == vs[i..] <==> AsWhole(vs[i], k, mem))
  }

  lemma CutListLoads(files: Files, p: Place, vs: seq<Version>, deleted: bool, n: nat) returns (i: nat)
    requires Saveable(p, vs) && GoodName(p.name)
    ensures var files', mem := CutList(files, p, vs, deleted, n), files.memory;
            var m := Load(files', p.dir, p.name);
            && ChangedOnly(files, files', p.dir, p.name)
            && m.Some? && (m.value.dflVid, m.value.dflSvid) == PinOf(files, p.dir, p.name)
            && var loaded := Fixup(p.dir, m.value.versions);
               if n < |Lines(vs)| then i < |vs| && LoadsCut(p, loaded, vs, n, i, mem) && !m.value.deleted
               else
                 loaded == vs
                 && (m.value.deleted <==>
                     deleted && (n >= |FileText(vs, deleted)| || Scans(KILLED, n - |Lines(vs)|, mem)))
  {
    hide ParseText, Lines, KILLER, Fixup, MetaPath, PinOf, Load, ChangedOnly, Bases, Storable, FileName, NamedFor,
         LastPart, Line, Scans, AsWhole, CutVersion, LoadsCut;
    var text, mem := FileText(vs, deleted), files.memory;
    ListReplaced(files, p, text[..Min(n, |text|)]);
    i := 0;
    if n < |Lines(vs)| {
      assert text[..n] == Lines(vs)[..n];
      var m := ParseCut(vs, n, mem);
      i := |vs| - m - 1;
      CutLineLoads(p, vs, n, i, mem);
    } else if n < |text| {
      KilledText(vs);
      CutInLine(vs, KILLED, n, mem);
      KilledLine(n - |Lines(vs)|, Parsed(Bases(vs), false), mem);
      SuffixFixed(p.dir, vs, 0);
    } else {
      assert text[..|text|] == text;
      ParseFileText(vs, deleted, mem);
      SuffixFixed(p.dir, vs, 0);
    }
  }

  lemma KilledLine(k: nat, p: Parsed, mem: Memory)
    requires k < |Line(KILLED)|
    ensures LastPart(Line(KILLED)[..k], p, mem) == if Scans(KILLED, k, mem) then p.(deleted := true) else p
  {
    hide LastPart, Line, Scans, AsWhole, CutVersion;
    LastPartOf(KILLED, k, p, mem);
  }

  lemma CutLineLoads(p: Place, vs: seq<Version>, n: nat, i: nat, mem: Memory)
    requires Saveable(p, vs) && i < |vs| && |Lines(vs[i + 1..])| <= n < |Lines(vs[i..])|
    requires n - |Lines(vs[i + 1..])| < |Line(vs[i])|
    ensures var q := LastPart(Line(vs[i])[..n - |Lines(vs[i + 1..])|], Parsed(Bases(vs[i + 1..]), false), mem);
            LoadsCut(p, Fixup(p.dir, q.versions), vs, n, i, mem) && !q.deleted
  {
    hide Lines, Bases, FileName, NamedFor, LastPart, Line, Scans, AsWhole, CutVersion;
    var k := n - |Lines(vs[i + 1..])|;
    LastPartOf(vs[i], k, Parsed(Bases(vs[i + 1..]), false), mem);
    SuffixFixed(p.dir, vs, i + 1);
    assert vs[i] in vs && Storable(vs[i]);
    if Scans(vs[i], k, mem) {
      var c := CutVersion(vs[i], k, mem.lost).value;
      var loaded := Fixup(p.dir, [c] + Bases(vs[i + 1..]));
      assert ([c] + Bases(vs[i + 1..]))[1..] == Bases(vs[i + 1..]) && [c][1..] == [];
      assert loaded == Fixup(p.dir, [c]) + vs[i + 1..];
      assert vs[i..] == [vs[i]] + vs[i + 1..];
      SameName(p.dir, c, vs[i]);
      assert loaded[0] == c.(rfile := p.dir + "/" + c.rfile) && loaded[1..] == vs[i + 1..];
    }
  }

  lemma SameName(dir: string, c: Version, v: Version)
    requires v.rfile == dir + "/" + FileName(v.rfile)
    ensures c.(rfile := dir + "/" + c.rfile) == v <==> c == Base(v)
  {
    hide FileName;
    assert (dir + "/" + c.rfile)[|dir| + 1..] == c.rfile;
    assert (dir + "/" + FileName(v.rfile))[|dir| + 1..] == FileName(v.rfile);
  }

  /** The newest line was cut, and what is left of it counts as a version. */
  predicate AddsOne(vs: seq<Version>, n: nat, mem: Memory) {
    vs != [] && |Lines(vs[1..])| <= n < |Lines(vs)| && Scans(vs[0], n - |Lines(vs[1..])|, mem)
  }

  /** The newest line was cut, and what is left of it still reads as the version it was. */
  predicate StillWhole(vs: seq<Version>, n: nat, mem: Memory) {
    vs != [] && |Lines(vs[1..])| <= n < |Lines(vs)| && AsWhole(vs[0], n - |Lines(vs[1..])|, mem)
  }

  /** The whole list can be read from its first `n` characters. */
  predicate Survives(vs: seq<Version>, deleted: bool, n: nat, mem: Memory) {
    || n >= |FileText(vs, deleted)|
    || (deleted && n >= |Lines(vs)| && Scans(KILLED, n - |Lines(vs)|, mem))
    || (!deleted && StillWhole(vs, n, mem))
  }

  /** What is read from the first `n` characters is the list without its newest version. */
  predicate LeavesOld(vs: seq<Version>, n: nat, mem: Memory)
    requires vs != []
  {
    (|Lines(vs[1..])| <= n < |Lines(vs)| && !AddsOne(vs, n, mem)) || StillWhole(vs[1..], n, mem)
  }

  lemma CutPlace(vs: seq<Version>, n: nat, i: nat)
    requires i < |vs| && |Lines(vs[i + 1..])| <= n < |Lines(vs[i..])|
    ensures |Lines(vs[1..])| <= n <==> i == 0
    ensures vs[0..] == vs
    ensures i >= 1 ==> vs[1..][0] == vs[1] && vs[1..][1..] == vs[2..]
    ensures i >= 2 ==> n < |Lines(vs[2..])|
  {
    hide Lines;
    if i >= 1 {
      DropTwice(vs, i - 1);
      LinesShorter(vs[1..], i - 1);
    }
    if i >= 2 {
      assert vs[2..][i - 2..] == vs[i..];
      LinesShorter(vs[2..], i - 2);
    }
  }

  /** When a cut list is still the list, and when it is the list from before. */
  lemma CutAgrees(p: Place, loaded: seq<Version>, vs: seq<Version>, n: nat, i: nat, mem: Memory)
    requires i < |vs| && n < |Lines(vs)| && LoadsCut(p, loaded, vs, n, i, mem)
    ensures loaded == vs <==> StillWhole(vs, n, mem)
    ensures loaded == vs[1..] <==> LeavesOld(vs, n, mem)
  {
    hide Lines, Scans, AsWhole, CutVersion, Line;
    CutPlace(vs, n, i);
    var k := n - |Lines(vs[i + 1..])|;
    if AsWhole(vs[i], k, mem) { AsWholeScans(vs[i], k, mem); }
  }

  lemma SuffixFixed(dir: string, vs: seq<Version>, i: nat)
    requires i <= |vs| && LiveIn(dir, vs)
    ensures Fixup(dir, Bases(vs[i..])) == vs[i..] && |Bases(vs[i..])| == |vs| - i && vs[0..] == vs
  {
    hide FileName;
    assert forall j | 0 <= j < |vs[i..]| :: vs[i..][j] == vs[i + j];
    FixupBases(dir, vs[i..]);
    FixupAt(dir, Bases(vs[i..]));
  }

  // ----- what each step writes -----

  datatype Commit =
    | Nothing
    | List
    | PinOnly
    | ListAndPin
    | Forget
    | Cut(versions: seq<Version>, deleted: bool, length: nat)

  /** What is left of an attempt to write `vs`; `done` if nothing fails. */
  function Rewrite(list: Outcome, vs: seq<Version>, deleted: bool, done: Commit): Commit {
    match list
    case Whole => done
    case Unopened => Nothing
    case CutShort(n) => Cut(vs, deleted, n)
  }

  function CommitOf(p: Place, s: State, op: Op): Commit {
    match op
    case Write(_, _, _) => Nothing
    case Unlink(list) => if Shown(s).None? then Nothing else Rewrite(list, s.md.versions, true, List)
    case Pin(vid, svid, allowed) =>
      var found := if vid == LATEST then Head(s.md.versions) else FirstMatch(s.md.versions, vid, svid);
      if Visible(s).None? || found.None? || !allowed then Nothing else PinOnly
    case Purge(_, list) =>
      var vs := Step(p, s, op).md.versions;
      if Visible(s).None? then Nothing else if vs == [] then Forget else Rewrite(list, vs, false, List)
    case _ =>
      match Attempt(p, s, op)
      case None => Nothing
      case Some(v) =>
        Rewrite(op.env.list, [v] + s.md.versions, false, if s.md.versions == [] then List else ListAndPin)
  }

  function WriteOut(files: Files, p: Place, md: Metadata, c: Commit): Files {
    match c
    case Nothing => files
    case List => SaveList(files, p, md)
    case PinOnly => SavePin(files, p, md)
    case ListAndPin => SavePin(SaveList(files, p, md), p, md)
    case Forget => Remove(files, MetaPath(p.dir, p.name))
    case Cut(vs, deleted, n) => CutList(files, p, vs, deleted, n)
  }

  lemma ChangedTwice(a: Files, b: Files, c: Files, dir: string, name: string)
    requires ChangedOnly(a, b, dir, name) && ChangedOnly(b, c, dir, name)
    ensures ChangedOnly(a, c, dir, name)
  {
  }

  /** Only the file's own block reads differently afterwards. */
  lemma WriteOutChangesOnly(files: Files, p: Place, md: Metadata, c: Commit)
    requires Saveable(p, md.versions) && GoodName(p.name) && (c.Cut? ==> Saveable(p, c.versions))
    ensures ChangedOnly(files, WriteOut(files, p, md, c), p.dir, p.name)
  {
    hide Load, SaveList, SavePin, CutList, Saveable, GoodName, MetaPath, ChangedOnly;
    match c
    case Nothing => ChangedNothing(files, p.dir, p.name);
    case List => ListSaved(files, p, md);
    case PinOnly => PinSaved(files, p, md);
    case ListAndPin =>
      ListSaved(files, p, md);
      PinSaved(SaveList(files, p, md), p, md);
      ChangedTwice(files, SaveList(files, p, md), WriteOut(files, p, md, c), p.dir, p.name);
    case Forget => ListForgotten(files, p);
    case Cut(vs, deleted, n) =>
      var i := CutListLoads(files, p, vs, deleted, n);
  }

  lemma ChangedNothing(files: Files, dir: string, name: string)
    ensures ChangedOnly(files, files, dir, name)
  {
  }

  // ----- when memory and disk agree -----

  /** A version is added to a list that is there: memory goes back if that list cannot be written. */
  predicate Relinks(s: State, op: Op) {
    Makes(op) && s.md.versions != []
  }

  /** Memory changes whether or not the list can be written. */
  predicate MemoryMoves(p: Place, s: State, op: Op) {
    || (op.Unlink? && Shown(s).Some?)
    || (op.Purge? && Visible(s).Some? && Kept(|s.md.versions|, op.count) < |s.md.versions|)
    || (Makes(op) && s.md.versions == [] && Attempt(p, s, op).Some?)
  }

  /** The pin of a purged file of the same name still lies where a file is made. */
  predicate OldPin(files: Files, p: Place, s: State) {
    s.md.versions == [] && PinOf(files, p.dir, p.name).0 != LATEST
  }

  /**
   When memory and disk part: a new file meets an old pin; or the list is not written although memory has
   changed; or it is cut short, unless what is left of it happens to be the list in memory.
   */
  predicate Diverges(files: Files, p: Place, s: State, op: Op) {
    match CommitOf(p, s, op)
    case Nothing => MemoryMoves(p, s, op)
    case List => OldPin(files, p, s)
    case Cut(vs, deleted, n) =>
      if Relinks(s, op) then s.md.deleted || vs == [] || !LeavesOld(vs, n, files.memory)
      else !Survives(vs, deleted, n, files.memory) || OldPin(files, p, s)
    case _ => false
  }

  /** The pin a step leaves that does not touch the pin's file. */
  predicate PinStays(s: State, t: Metadata) {
    if s.md.versions == [] then t.dflVid == LATEST
    else t.dflVid == s.md.dflVid && t.dflSvid == s.md.dflSvid
  }

  /** With what it writes and what it leaves, the commit of a step accounts for all of memory. */
  predicate Covers(p: Place, s: State, op: Op, t: Metadata, c: Commit) {
    match c
    case Nothing =>
      if MemoryMoves(p, s, op) then t.versions != [] && (t.versions != s.md.versions || t.deleted != s.md.deleted)
      else t.(timestamp := 0) == s.md.(timestamp := 0)
    case List => t.versions != [] && PinStays(s, t)
    case PinOnly => t.versions == s.md.versions != [] && t.deleted == s.md.deleted
    case ListAndPin => t.versions != []
    case Forget => t.versions == []
    case Cut(vs, deleted, _) =>
      vs != [] && PinStays(s, t)
      && if Relinks(s, op) then vs[1..] == t.versions == s.md.versions && t.deleted == s.md.deleted && !deleted
         else t.versions == vs && t.deleted == deleted
  }

  lemma CommitCovers(p: Place, s: State, op: Op)
    ensures Covers(p, s, op, Step(p, s, op).md, CommitOf(p, s, op))
  {
    if Makes(op) { MakingCovers(p, s, op); } else { OtherCovers(p, s, op); }
  }

  lemma OtherCovers(p: Place, s: State, op: Op)
    requires !Makes(op)
    ensures Covers(p, s, op, Step(p, s, op).md, CommitOf(p, s, op))
  {
    hide RealName, EarlyExit, Lines, FileText;
  }

  lemma MakingCovers(p: Place, s: State, op: Op)
    requires Makes(op)
    ensures Covers(p, s, op, Step(p, s, op).md, CommitOf(p, s, op))
  {
    hide Step, Linked, Visible, Shown, Lines, FileText;
    RolledBack(p, s, op);
    PrependOnly(p, s, Unhindered(op));
    if Attempt(p, s, op).Some? {
      LinkedIsPlain(p, s, Unhindered(op));
    } else {
      assert [] + s.md.versions == s.md.versions;
      NothingLinked(p, s, Unhindered(op));
    }
  }

  /** What it takes for a block to agree with its files, field by field. */
  lemma Agreement(files: Files, p: Place, md: Metadata)
    ensures var m := Load(files, p.dir, p.name);
            m.Some? ==>
              (Settled(md) == Settled(Fix(p.dir, m.value)) <==>
               Fixup(p.dir, m.value.versions) == md.versions && m.value.deleted == md.deleted
               && m.value.dflVid == md.dflVid && (md.dflVid != LATEST ==> m.value.dflSvid == md.dflSvid))
    ensures var m := Load(files, p.dir, p.name);
            m.Some? ==> (m.value.dflVid, m.value.dflSvid) == PinOf(files, p.dir, p.name)
  {
  }

  /** The pin on disk is that of the block. */
  predicate PinAgrees(files: Files, p: Place, md: Metadata) {
    var (vid, svid) := PinOf(files, p.dir, p.name);
    vid == md.dflVid && (vid != LATEST ==> svid == md.dflSvid)
  }

  lemma ListOnDisk(files: Files, p: Place, md: Metadata)
    requires Saveable(p, md.versions) && GoodName(p.name) && md.versions != []
    ensures OnDisk(SaveList(files, p, md), p, md) <==> PinAgrees(files, p, md)
  {
    hide Load, Saveable, SaveList, Settled, Fix, Fixup, PinOf, ChangedOnly;
    ListSaved(files, p, md);
    Agreement(SaveList(files, p, md), p, md);
  }

  lemma PinOnDisk(files: Files, p: Place, md: Metadata)
    requires GoodName(p.name) && md.versions != [] && Load(files, p.dir, p.name).Some?
    requires var m := Load(files, p.dir, p.name).value;
             Fixup(p.dir, m.versions) == md.versions && m.deleted == md.deleted
    ensures OnDisk(SavePin(files, p, md), p, md)
  {
    hide Load, SavePin, Settled, Fix, Fixup, PinOf, ChangedOnly;
    PinSaved(files, p, md);
    Agreement(SavePin(files, p, md), p, md);
  }

  lemma BothOnDisk(files: Files, p: Place, md: Metadata)
    requires Saveable(p, md.versions) && GoodName(p.name) && md.versions != []
    ensures OnDisk(WriteOut(files, p, md, ListAndPin), p, md)
  {
    hide Saveable, Load, Fixup, SaveList, SavePin, ChangedOnly, OnDisk, PinOf;
    ListSaved(files, p, md);
    PinOnDisk(SaveList(files, p, md), p, md);
  }

  /** The list of memory itself was cut short. */
  lemma CutOnDisk(files: Files, p: Place, md: Metadata, n: nat)
    requires Saveable(p, md.versions) && GoodName(p.name) && md.versions != []
    ensures OnDisk(CutList(files, p, md.versions, md.deleted, n), p, md) <==>
            Survives(md.versions, md.deleted, n, files.memory) && PinAgrees(files, p, md)
  {
    hide Load, Saveable, CutList, Settled, Fix, Fixup, PinOf, ChangedOnly, Lines, LoadsCut, KILLER, Scans, StillWhole;
    var files' := CutList(files, p, md.versions, md.deleted, n);
    var i := CutListLoads(files, p, md.versions, md.deleted, n);
    Agreement(files', p, md);
    if n < |Lines(md.versions)| {
      CutAgrees(p, Fixup(p.dir, Load(files', p.dir, p.name).value.versions), md.versions, n, i, files.memory);
    } else {
      NotCut(md.versions, n, files.memory);
    }
  }

  lemma NotCut(vs: seq<Version>, n: nat, mem: Memory)
    requires |Lines(vs)| <= n
    ensures !StillWhole(vs, n, mem)
    ensures vs != [] ==> !LeavesOld(vs, n, mem)
  {
    hide Lines, AsWhole;
    if vs != [] { OlderShorter(vs); }
  }

  lemma OlderShorter(vs: seq<Version>)
    requires vs != []
    ensures |Lines(vs[1..])| <= |Lines(vs)|
  {
    hide Line;
  }

  /** A list with one version more than memory was cut short. */
  lemma CutBehind(files: Files, p: Place, md: Metadata, vs: seq<Version>, n: nat)
    requires Saveable(p, vs) && GoodName(p.name) && vs != [] && vs[1..] == md.versions != []
    ensures OnDisk(CutList(files, p, vs, false, n), p, md) <==>
            !md.deleted && LeavesOld(vs, n, files.memory) && PinAgrees(files, p, md)
  {
    hide Load, Saveable, CutList, Settled, Fix, Fixup, PinOf, ChangedOnly, Lines, LoadsCut, KILLER, Scans, StillWhole,
         LeavesOld;
    var files' := CutList(files, p, vs, false, n);
    var i := CutListLoads(files, p, vs, false, n);
    Agreement(files', p, md);
    assert |vs| != |md.versions|;
    if n < |Lines(vs)| {
      CutAgrees(p, Fixup(p.dir, Load(files', p.dir, p.name).value.versions), vs, n, i, files.memory);
    } else {
      NotCut(vs, n, files.memory);
    }
  }

  /** All lists that a step may write are made of names that can be stored. */
  lemma CommitSaveable(p: Place, s: State, op: Op)
    requires Sound(p, s.md.versions) && NumbersLeft(s) && GoodName(p.name)
    ensures Saveable(p, Step(p, s, op).md.versions)
    ensures CommitOf(p, s, op).Cut? ==> Saveable(p, CommitOf(p, s, op).versions)
  {
    hide Step, Sound, Saveable, Linked;
    StepKeepsSound(p, s, op);
    SoundIsSaveable(p, Step(p, s, op).md.versions);
    SoundIsSaveable(p, s.md.versions);
    if Makes(op) {
      StepKeepsSound(p, s, Unhindered(op));
      PrependOnly(p, s, Unhindered(op));
      SoundIsSaveable(p, Step(p, s, Unhindered(op)).md.versions);
    }
  }

  /**
   After any step, whatever becomes of the writing, the block in memory is what its files give when they are
   read again, if and only if the step does not make the two diverge.
   */
  lemma StepOnDisk(files: Files, p: Place, s: State, op: Op)
    requires Sound(p, s.md.versions) && NumbersLeft(s) && GoodName(p.name) && OnDisk(files, p, s.md)
    ensures var t := Step(p, s, op);
            OnDisk(WriteOut(files, p, t.md, CommitOf(p, s, op)), p, t.md) <==> !Diverges(files, p, s, op)
  {
    CommitSaveable(p, s, op);
    CommitCovers(p, s, op);
    hide Step, CommitOf, Sound, Saveable, OnDisk, WriteOut, Relinks, MemoryMoves;
    CommitAgrees(files, p, s, op, Step(p, s, op).md, CommitOf(p, s, op));
  }

  lemma CommitAgrees(files: Files, p: Place, s: State, op: Op, t: Metadata, c: Commit)
    requires Saveable(p, t.versions) && (c.Cut? ==> Saveable(p, c.versions)) && GoodName(p.name)
    requires OnDisk(files, p, s.md) && Covers(p, s, op, t, c) && c == CommitOf(p, s, op)
    ensures OnDisk(WriteOut(files, p, t, c), p, t) <==> !Diverges(files, p, s, op)
  {
    hide CommitOf, Saveable, Load, Fixup, SaveList, SavePin, CutList, Settled, Fix, ChangedOnly, PinOf, Lines, FileText,
         MemoryMoves;
    Agreement(files, p, s.md);
    match c
    case Nothing => Agreement(files, p, t);
    case List => ListOnDisk(files, p, t);
    case PinOnly => PinOnDisk(files, p, t);
    case ListAndPin => BothOnDisk(files, p, t);
    case Forget => ListForgotten(files, p);
    case Cut(vs, deleted, n) =>
      if Relinks(s, op) { CutBehind(files, p, t, vs, n); } else { CutOnDisk(files, p, t, n); }
  }

  /** A file that loses its last version is forgotten by both. */
  lemma ForgottenAgrees(files: Files, p: Place, s: State, op: Op)
    requires s.md.versions != [] && Step(p, s, op).md.versions == []
    ensures !Diverges(files, p, s, op)
  {
    hide Step, CommitOf, MemoryMoves;
    CommitCovers(p, s, op);
  }

  lemma CommittedBoth(p: Place, s: State, op: Op)
    requires Makes(op) && s.md.versions != [] && Linked(p, s, op).Some?
    ensures CommitOf(p, s, op) == ListAndPin && Step(p, s, op).md.versions != []
  {
    hide Step, Asked;
    StepOutcome(p, s, op);
    assert Unhindered(op) == op;
  }

  /** A new version that is committed brings memory and disk together again, however they had come apart. */
  lemma CommitHeals(files: Files, p: Place, s: State, op: Op)
    requires Sound(p, s.md.versions) && NumbersLeft(s) && GoodName(p.name)
    requires Makes(op) && s.md.versions != [] && Linked(p, s, op).Some?
    ensures OnDisk(WriteOut(files, p, Step(p, s, op).md, CommitOf(p, s, op)), p, Step(p, s, op).md)
  {
    hide Step, CommitOf, Sound, Saveable, OnDisk, WriteOut, Linked;
    CommitSaveable(p, s, op);
    CommittedBoth(p, s, op);
    BothOnDisk(files, p, Step(p, s, op).md);
  }

  // ----- runs and restarts -----

  /** The files after a run of steps. */
  function RunFiles(files: Files, p: Place, s: State, ops: seq<Op>): Files
    decreases |ops|
  {
    if ops == [] then files
    else
      var t := Step(p, s, ops[0]);
      RunFiles(WriteOut(files, p, t.md, CommitOf(p, s, ops[0])), p, t, ops[1..])
  }

  predicate RunAgrees(files: Files, p: Place, s: State, ops: seq<Op>)
    decreases |ops|
  {
    ops == []
    || (var t := Step(p, s, ops[0]);
        !Diverges(files, p, s, ops[0])
        && RunAgrees(WriteOut(files, p, t.md, CommitOf(p, s, ops[0])), p, t, ops[1..]))
  }

  /** Memory and disk agree at the `i`-th moment of the run. */
  predicate AgreesAt(files: Files, p: Place, s: State, ops: seq<Op>, i: nat)
    requires i <= |ops|
  {
    OnDisk(RunFiles(files, p, s, ops[..i]), p, Run(p, s, ops[..i]).md)
  }

  lemma AgreesLater(files: Files, p: Place, s: State, ops: seq<Op>, i: nat)
    requires 0 < i <= |ops|
    ensures var t := Step(p, s, ops[0]);
            AgreesAt(files, p, s, ops, i) ==
            AgreesAt(WriteOut(files, p, t.md, CommitOf(p, s, ops[0])), p, t, ops[1..], i - 1)
  {
    hide Step, OnDisk, WriteOut, CommitOf;
    assert ops[..i][0] == ops[0] && ops[..i][1..] == ops[1..][..i - 1];
  }

  lemma AgreesFirst(files: Files, p: Place, s: State, ops: seq<Op>)
    ensures AgreesAt(files, p, s, ops, 0) == OnDisk(files, p, s.md)
  {
  }

  /** Memory and disk agree at every moment of a run, if and only if no step of it makes them diverge. */
  lemma {:induction false} RunOnDisk(files: Files, p: Place, s: State, ops: seq<Op>)
    requires Sound(p, s.md.versions) && RunHasNumbers(p, s, ops) && GoodName(p.name) && OnDisk(files, p, s.md)
    ensures (forall i | 0 <= i <= |ops| :: AgreesAt(files, p, s, ops, i)) <==> RunAgrees(files, p, s, ops)
    decreases |ops|
  {
    hide Step, Sound, OnDisk, Diverges, WriteOut, CommitOf, AgreesAt;
    AgreesFirst(files, p, s, ops);
    if ops != [] {
      StepOnDisk(files, p, s, ops[0]);
      StepKeepsSound(p, s, ops[0]);
      var t := Step(p, s, ops[0]);
      var files' := WriteOut(files, p, t.md, CommitOf(p, s, ops[0]));
      AgreesFirst(files', p, t, ops[1..]);
      forall i | 0 < i <= |ops|
        ensures AgreesAt(files, p, s, ops, i) == AgreesAt(files', p, t, ops[1..], i - 1)
      {
        AgreesLater(files, p, s, ops, i);
      }
      if AgreesAt(files, p, s, ops, 1) {
        RunOnDisk(files', p, t, ops[1..]);
        assert forall j | 0 <= j <= |ops[1..]| ::
            AgreesAt(files', p, t, ops[1..], j) == AgreesAt(files, p, s, ops, j + 1);
      }
    }
  }

  /** The file as a fresh start of the program finds it. */
  function Restarted(files: Files, p: Place, s: State): State {
    var m := Load(files, p.dir, p.name);
    s.(md := if m.None? then UNKNOWN else Fix(p.dir, m.value))
  }

  /** After any run that does not part memory and disk a restart finds the same versions and shows the same bytes. */
  lemma RestartShowsSame(files: Files, p: Place, s: State, ops: seq<Op>)
    requires Sound(p, s.md.versions) && RunHasNumbers(p, s, ops) && GoodName(p.name) && OnDisk(files, p, s.md)
    requires RunAgrees(files, p, s, ops)
    ensures var t := Run(p, s, ops);
            var u := Restarted(RunFiles(files, p, s, ops), p, t);
            u.md.versions == t.md.versions && Shown(u) == Shown(t)
  {
    hide Step, Sound, OnDisk, RunAgrees, Restarted, Shown;
    RunOnDisk(files, p, s, ops);
    assert AgreesAt(files, p, s, ops, |ops|);
    assert ops[..|ops|] == ops;
    RestartOf(RunFiles(files, p, s, ops), p, Run(p, s, ops));
  }

  lemma RestartOf(files: Files, p: Place, t: State)
    requires OnDisk(files, p, t.md)
    ensures Restarted(files, p, t).md.versions == t.md.versions && Shown(Restarted(files, p, t)) == Shown(t)
  {
    hide Load, Settled, Fixup, EarlyExit;
    Agreement(files, p, t.md);
  }

  /** The step links a version to a known file, and the commit succeeds. */
  predicate Commits(p: Place, s: State, op: Op) {
    Makes(op) && s.md.versions != [] && Linked(p, s, op).Some?
  }

  /**
   One commit is enough: whatever was lost before, if memory and disk do not part after some version was committed,
   a restart finds the same versions and shows the same bytes.
   */
  lemma {:induction false} RestartAfterCommit(files: Files, p: Place, s: State, ops: seq<Op>, i: nat)
    requires Sound(p, s.md.versions) && RunHasNumbers(p, s, ops) && GoodName(p.name)
    requires i < |ops| && Commits(p, Run(p, s, ops[..i]), ops[i])
    requires RunAgrees(RunFiles(files, p, s, ops[..i + 1]), p, Run(p, s, ops[..i + 1]), ops[i + 1..])
    ensures var t := Run(p, s, ops);
            var u := Restarted(RunFiles(files, p, s, ops), p, t);
            u.md.versions == t.md.versions && Shown(u) == Shown(t)
    decreases i
  {
    hide Step, Sound, OnDisk, RunAgrees, Restarted, Shown, WriteOut, CommitOf, Commits, Linked, GoodName;
    var t := Step(p, s, ops[0]);
    var files' := WriteOut(files, p, t.md, CommitOf(p, s, ops[0]));
    StepKeepsSound(p, s, ops[0]);
    if i == 0 {
      assert ops[..0] == [] && ops[..1][0] == ops[0] && ops[..1][1..] == [];
      CommitsHeals(files, p, s, ops[0]);
      RestartShowsSame(files', p, t, ops[1..]);
    } else {
      assert ops[..i][0] == ops[0] && ops[..i][1..] == ops[1..][..i - 1];
      assert ops[..i + 1][0] == ops[0] && ops[..i + 1][1..] == ops[1..][..i];
      assert ops[1..][i..] == ops[i + 1..];
      RestartAfterCommit(files', p, t, ops[1..], i - 1);
    }
  }

  lemma CommitsHeals(files: Files, p: Place, s: State, op: Op)
    requires Sound(p, s.md.versions) && NumbersLeft(s) && GoodName(p.name) && Commits(p, s, op)
    ensures OnDisk(WriteOut(files, p, Step(p, s, op).md, CommitOf(p, s, op)), p, Step(p, s, op).md)
  {
    hide Step, CommitOf, Sound, OnDisk, WriteOut, Linked;
    CommitHeals(files, p, s, op);
  }

  /** A list emptied by a write that failed: memory goes back, but a restart does not know the versions. */
  lemma EmptiedListIsLost(files: Files, p: Place, s: State, op: Op)
    requires GoodName(p.name) && s.md.versions != []
    requires Makes(op) && Attempt(p, s, op).Some? && op.env.list == CutShort(0)
    ensures var t := Step(p, s, op);
            var u := Restarted(WriteOut(files, p, t.md, CommitOf(p, s, op)), p, t);
            t.md.versions == s.md.versions && u.md.versions == []
    ensures Diverges(files, p, s, op)
  {
    hide Step, Attempt, ParseText, Lines, Line, Linked, PinOf, MetaPath, ChangedOnly, Scans, AsWhole;
    RolledBack(p, s, op);
    var t := Step(p, s, op);
    var c := CommitOf(p, s, op);
    ListReplaced(files, p, "");
    ParseNothing(EMPTY, files.memory);
    assert c.Cut? && c.length == 0;
    assert FileText(c.versions, c.deleted)[..0] == "";
    assert Load(WriteOut(files, p, t.md, c), p.dir, p.name).value.versions == [];
    OlderSome(c.versions, files.memory);
  }

  /** A file "f" of one version and one byte; its mode is changed while the disk is full, and it is gone. */
  lemma EmptiedListExample(files: Files, p: Place, s: State, op: Op)
    requires p == Place("v", "f") && op == Chmod(5, 0x180, Env(0, [], [], CutShort(0)))
    requires s == State(Metadata([Version(1, 0, 0x1A4, 0, 0, RealName(p, 1))], false, LATEST, LATEST, 0),
                        map[RealName(p, 1) := [7]])
    ensures var t := Step(p, s, op);
            var u := Restarted(WriteOut(files, p, t.md, CommitOf(p, s, op)), p, t);
            Diverges(files, p, s, op) && Shown(t) == Some([7]) && Shown(u) == None
  {
    hide Diverges, WriteOut, CommitOf, RealName, Restarted;
    assert p.name[0] == 'f';
    assert Attempt(p, s, op).Some?;
    assert Step(p, s, op) == s;
    EmptiedListIsLost(files, p, s, op);
  }

  /** Nothing of a list of two versions or more is left in no characters. */
  lemma OlderSome(vs: seq<Version>, mem: Memory)
    requires |vs| >= 2
    ensures !LeavesOld(vs, 0, mem)
  {
    hide Line, Scans, FoundBehind, SignedText, Pad, Numeral;
    LineParts(vs[1]);
    assert |Line(vs[1])| >= |Front(vs[1])| >= 4;
    assert |Lines(vs[1..])| >= |Line(vs[1])|;
    assert vs[1..][0] == vs[1];
  }

  /**
   A file made anew after all its versions were purged shows its new, empty contents; but the old pin was left on
   disk, and a restart pins the file with it.
   */
  lemma OldPinComesBack(files: Files, p: Place, s: State, op: Op)
    requires Sound(p, s.md.versions) && GoodName(p.name)
    requires CommitOf(p, s, op).List? && OldPin(files, p, s)
    ensures var t := Step(p, s, op);
            var u := Restarted(WriteOut(files, p, t.md, CommitOf(p, s, op)), p, t);
            t.md.dflVid == LATEST && (u.md.dflVid, u.md.dflSvid) == PinOf(files, p.dir, p.name) && u.md.dflVid != LATEST
  {
    CommitSaveable(p, s, op);
    CommitCovers(p, s, op);
    hide Step, CommitOf, Sound, Saveable, Load, Fixup, SaveList, ChangedOnly, PinOf;
    ListSaved(files, p, Step(p, s, op).md);
  }

  // ----- names on disk -----

  lemma NamesOnDisk(p: Place, m: Metadata, vs: seq<Version>)
    requires Saveable(p, vs) && Fixup(p.dir, m.versions) == vs
    ensures AllNamedFor(m, p.name)
  {
    hide NamedFor, FileName;
    FixupAt(p.dir, m.versions);
    forall i | 0 <= i < |m.versions|
      ensures NamedFor(m.versions[i].rfile, p.name)
    {
      var r, base := m.versions[i].rfile, FileName(vs[i].rfile);
      assert vs[i].rfile == p.dir + "/" + r == p.dir + "/" + base;
      assert (p.dir + "/" + r)[|p.dir| + 1..] == r && (p.dir + "/" + base)[|p.dir| + 1..] == base;
    }
  }

  lemma SuffixSaveable(p: Place, vs: seq<Version>, i: nat)
    requires Saveable(p, vs) && i <= |vs|
    ensures Saveable(p, vs[i..])
  {
    hide NamedFor, FileName, Storable;
    assert forall j | 0 <= j < |vs[i..]| :: vs[i..][j] == vs[i + j];
  }

  /** What is loaded of a file is named for it. */
  predicate OwnNames(files: Files, p: Place) {
    Load(files, p.dir, p.name).Some? ==> AllNamedFor(Load(files, p.dir, p.name).value, p.name)
  }

  /** Unless a line that was cut counts as a version, whatever is written for a file is named for it. */
  lemma WriteOutNames(files: Files, p: Place, md: Metadata, c: Commit)
    requires Saveable(p, md.versions) && (c.Cut? ==> Saveable(p, c.versions) && !files.memory.stale)
    requires GoodName(p.name) && OwnNames(files, p) && (c.PinOnly? ==> Load(files, p.dir, p.name).Some?)
    ensures OwnNames(WriteOut(files, p, md, c), p)
  {
    hide Load, SaveList, SavePin, CutList, Saveable, MetaPath, ChangedOnly, AllNamedFor, LoadsCut, Fixup, Lines;
    var files' := WriteOut(files, p, md, c);
    match c
    case Nothing =>
    case List =>
      ListSaved(files, p, md);
      NamesOnDisk(p, Load(files', p.dir, p.name).value, md.versions);
    case PinOnly =>
      PinSaved(files, p, md);
      SameNames(Load(files, p.dir, p.name).value, Load(files', p.dir, p.name).value, p.name);
    case ListAndPin =>
      var between := SaveList(files, p, md);
      ListSaved(files, p, md);
      PinSaved(between, p, md);
      NamesOnDisk(p, Load(between, p.dir, p.name).value, md.versions);
      SameNames(Load(between, p.dir, p.name).value, Load(files', p.dir, p.name).value, p.name);
    case Forget => ListForgotten(files, p);
    case Cut(vs, deleted, n) => CutNames(files, p, vs, deleted, n);
  }

  lemma CutNames(files: Files, p: Place, vs: seq<Version>, deleted: bool, n: nat)
    requires Saveable(p, vs) && !files.memory.stale && GoodName(p.name)
    ensures OwnNames(CutList(files, p, vs, deleted, n), p)
  {
    hide Load, CutList, Saveable, ChangedOnly, AllNamedFor, Lines, Fixup;
    var files' := CutList(files, p, vs, deleted, n);
    var i := CutListLoads(files, p, vs, deleted, n);
    if n < |Lines(vs)| {
      SuffixSaveable(p, vs, i + 1);
      NamesOnDisk(p, Load(files', p.dir, p.name).value, vs[i + 1..]);
    } else {
      NamesOnDisk(p, Load(files', p.dir, p.name).value, vs);
    }
  }

  lemma SameNames(m: Metadata, m': Metadata, name: string)
    requires AllNamedFor(m, name) && m'.versions == m.versions
    ensures AllNamedFor(m', name)
  {
  }

  /** A block that is on disk as it is in memory is named for its file. */
  lemma AgreeingNames(files: Files, p: Place, md: Metadata)
    requires Saveable(p, md.versions) && OnDisk(files, p, md)
    ensures OwnNames(files, p)
  {
    hide Load, Saveable, AllNamedFor, Fixup;
    Agreement(files, p, md);
    if md.versions != [] { NamesOnDisk(p, Load(files, p.dir, p.name).value, md.versions); }
  }

  lemma OwnNamesOf(files: Files, p: Place)
    requires WellNamed(files) && IsItem(p.name, '/')
    ensures OwnNames(files, p)
  {
  }

  /** All names are well made after a change to one file, if and only if that file's own are. */
  lemma OwnNamesDecide(files: Files, files': Files, p: Place)
    requires WellNamed(files) && ChangedOnly(files, files', p.dir, p.name) && IsItem(p.name, '/')
    ensures WellNamed(files') <==> OwnNames(files', p)
  {
    hide Load, AllNamedFor;
  }

  /**
   A step on a file changes that file and no other. Its names stay well made unless a line that was cut counts as
   a version, and always if memory and disk agree.
   */
  lemma StepIsFileChange(files: Files, vroot: string, elems: seq<string>, p: Place, s: State, op: Op)
    requires elems != [] && IsPath(elems) && elems[|elems| - 1] == p.name && GoodName(p.name)
    requires Walk(files, true, vroot, elems[..|elems| - 1]) == Some(p.dir)
    requires IsLeaf(files, p.dir, p.name) && WellNamed(files)
    requires Sound(p, s.md.versions) && NumbersLeft(s) && OnDisk(files, p, s.md)
    ensures var t, c := Step(p, s, op).md, CommitOf(p, s, op);
            var files' := WriteOut(files, p, t, c);
            && FileChange(files, files', vroot, elems, p.dir)
            && (OnDisk(files', p, t) <==> !Diverges(files, p, s, op))
            && (WellNamed(files') <==> OwnNames(files', p))
            && (!Diverges(files, p, s, op) || !c.Cut? || !files.memory.stale ==> OwnNames(files', p))
  {
    hide Step, CommitOf, Sound, Saveable, Load, Walk, WellNamed, IsLeaf, WriteOut, Diverges, Settled, Fix, ChangedOnly,
         GoodName, Fixup, OwnNames;
    CommitSaveable(p, s, op);
    CommitCovers(p, s, op);
    StepOnDisk(files, p, s, op);
    var t, c := Step(p, s, op).md, CommitOf(p, s, op);
    WriteOutChangesOnly(files, p, t, c);
    assert p.name in elems;
    OwnNamesDecide(files, WriteOut(files, p, t, c), p);
    OwnNamesOf(files, p);
    if !Diverges(files, p, s, op) {
      AgreeingNames(WriteOut(files, p, t, c), p, t);
    } else if !c.Cut? || !files.memory.stale {
      WriteOutNames(files, p, t, c);
    }
  }
}
