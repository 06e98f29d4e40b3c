/**
 CopyFS: what a virtual path means. Each level's version list says which real directory or file stands for it;
 the walk from the root reads one list per level and uses no cache.
 */
module PathWalk {
  import opened Bytes
  import opened Helper
  import opened MetadataFile
  import opened Versions

  /** The small text files of the version store, by path, and the memory the programs read them into. */
  datatype Files = Files(texts: map<string, string>, memory: Memory)

  function Put(files: Files, path: string, text: string): Files {
    files.(texts := files.texts[path := text])
  }

  function Remove(files: Files, path: string): Files {
    files.(texts := files.texts - {path})
  }

  function MetaPath(dir: string, name: string): string {
    dir + "/" + ("metadata." + name)
  }

  function PinPath(dir: string, name: string): string {
    dir + "/" + ("dfl-meta." + name)
  }

  /** The pin of a name, as it is on disk. */
  function PinOf(files: Files, dir: string, name: string): (int32, int32) {
    ParsePin(if PinPath(dir, name) in files.texts then Some(files.texts[PinPath(dir, name)]) else None)
  }

  /** `parse_metadata_for_file`: the list and the pin of a name, as they are on disk. */
  function Load(files: Files, dir: string, name: string): (m: Option<Metadata>)
    ensures m.Some? ==> m.value.timestamp == 0
  {
    if MetaPath(dir, name) !in files.texts then None
    else
      var p := ParseText(files.texts[MetaPath(dir, name)], EMPTY, files.memory);
      var (vid, svid) := PinOf(files, dir, name);
      Some(Metadata(p.versions, p.deleted, vid, svid, 0))
  }

  /** The block as the cache holds it: real paths instead of bare names. */
  function Fix(dir: string, m: Metadata): Metadata {
    m.(versions := Fixup(dir, m.versions))
  }

  /** What a name stands for in a real directory. */
  function Descend(files: Files, ignoreDeleted: bool, dir: string, name: string): Option<string> {
    match Load(files, dir, name)
    case None => None
    case Some(m) =>
      match Lookup(m, ignoreDeleted, LATEST, LATEST)
      case None => None
      case Some(i) => Some(dir + "/" + m.versions[i].rfile)
  }

  /** The walk from `dir` along the elements of a path. */
  function Walk(files: Files, ignoreDeleted: bool, dir: string, elems: seq<string>): Option<string>
    decreases |elems|
  {
    if elems == [] then Some(dir)
    else
      match Descend(files, ignoreDeleted, dir, elems[0])
      case None => None
      case Some(next) => Walk(files, ignoreDeleted, next, elems[1..])
  }

  lemma {:induction false} WalkConcat(files: Files, ignoreDeleted: bool, dir: string, a: seq<string>, b: seq<string>)
    ensures Walk(files, ignoreDeleted, dir, a + b) ==
            match Walk(files, ignoreDeleted, dir, a)
            case None => None
            case Some(d) => Walk(files, ignoreDeleted, d, b)
    decreases |a|
  {
    hide Descend;
    if a == [] {
      assert a + b == b;
    } else {
      assert (a + b)[0] == a[0] && (a + b)[1..] == a[1..] + b;
      match Descend(files, ignoreDeleted, dir, a[0])
      case None =>
      case Some(next) => WalkConcat(files, ignoreDeleted, next, a[1..], b);
    }
  }

  lemma WalkOne(files: Files, ignoreDeleted: bool, dir: string, name: string)
    ensures Walk(files, ignoreDeleted, dir, [name]) == Descend(files, ignoreDeleted, dir, name)
  {
  }

  /** One more level. */
  lemma WalkSnoc(files: Files, ignoreDeleted: bool, dir: string, a: seq<string>, name: string)
    ensures Walk(files, ignoreDeleted, dir, a + [name]) ==
            match Walk(files, ignoreDeleted, dir, a)
            case None => None
            case Some(d) => Descend(files, ignoreDeleted, d, name)
  {
    hide Descend, Walk;
    WalkConcat(files, ignoreDeleted, dir, a, [name]);
    match Walk(files, ignoreDeleted, dir, a)
    case None =>
    case Some(d) => WalkOne(files, ignoreDeleted, d, name);
  }

  /** A walk that respects delete flags goes where one that ignores them goes, if it gets there. */
  lemma {:induction false} WalkIgnoring(files: Files, dir: string, elems: seq<string>)
    requires Walk(files, false, dir, elems).Some?
    ensures Walk(files, true, dir, elems) == Walk(files, false, dir, elems)
    decreases |elems|
  {
    hide Load;
    if elems != [] {
      var next := Descend(files, false, dir, elems[0]).value;
      assert Descend(files, true, dir, elems[0]) == Some(next);
      WalkIgnoring(files, next, elems[1..]);
    }
  }

  // ----- names in the cache -----

  predicate IsPath(elems: seq<string>) {
    forall e | e in elems :: IsItem(e, '/')
  }

  /** The cache's name for a path: what `helper_build_composite("-A", "/", …)` makes of its elements. */
  function Key(elems: seq<string>): string {
    "/" + Join(elems, "/")
  }

  lemma KeySplit(elems: seq<string>)
    requires IsPath(elems)
    ensures Split(Key(elems), '/') == elems
  {
    SplitJoin(elems, '/');
  }

  lemma KeyComposite(elems: seq<string>)
    ensures Composite([Dash, Arr(elems)], "/") == Key(elems)
  {
    var ps := [Dash, Arr(elems)];
    assert ps[1..] == [Arr(elems)] && ps[1..][1..] == [];
    assert Composite(ps[1..], "/") == Join(elems, "/") + "" + "";
    assert Composite(ps, "/") == "/" + "" + Composite(ps[1..], "/");
  }

  lemma PrefixIsPath(elems: seq<string>, i: nat)
    requires IsPath(elems) && i <= |elems|
    ensures IsPath(elems[..i])
  {
  }

  // ----- looking up fixed blocks -----

  predicate SameNumbers(vs: seq<Version>, ws: seq<Version>) {
    |vs| == |ws| && forall i | 0 <= i < |vs| :: vs[i].vid == ws[i].vid && vs[i].svid == ws[i].svid
  }

  lemma SameEarlyExit(vs: seq<Version>, ws: seq<Version>, vid: int32, svid: int32)
    requires SameNumbers(vs, ws)
    ensures EarlyExit(vs, vid, svid) == EarlyExit(ws, vid, svid)
  {
  }

  /** The part of a block that its files determine: no time stamp, and no subversion where no version is pinned. */
  function Settled(md: Metadata): Metadata {
    md.(timestamp := 0, dflSvid := if md.dflVid == LATEST then LATEST else md.dflSvid)
  }

  lemma FixedLookup(dir: string, m: Metadata, md: Metadata, ignoreDeleted: bool)
    requires Settled(md) == Settled(Fix(dir, m))
    ensures |md.versions| == |m.versions|
    ensures Lookup(md, ignoreDeleted, LATEST, LATEST) == Lookup(m, ignoreDeleted, LATEST, LATEST)
    ensures forall i | 0 <= i < |m.versions| :: md.versions[i].rfile == dir + "/" + m.versions[i].rfile
  {
    FixupAt(dir, m.versions);
    SameEarlyExit(md.versions, m.versions, md.dflVid, md.dflSvid);
  }

  // ----- what the cache may hold -----

  /** The block of a path below the root is what is on disk for it under its parent's current translation. */
  predicate EntryOk(files: Files, vroot: string, elems: seq<string>, md: Metadata)
    requires elems != []
  {
    var parent := Walk(files, true, vroot, elems[..|elems| - 1]);
    parent.Some?
    && Load(files, parent.value, elems[|elems| - 1]).Some?
    && Settled(md) == Settled(Fix(parent.value, Load(files, parent.value, elems[|elems| - 1]).value))
  }

  /** The root has a list of versions and is never deleted: the code asserts it. */
  predicate RootOk(files: Files, vroot: string) {
    var m := Load(files, vroot, "");
    m.Some? && m.value.versions != [] && !m.value.deleted
  }

  /** Every version of the root is the version store itself. */
  predicate RootEntry(vroot: string, md: Metadata) {
    md.versions != [] && !md.deleted && forall v | v in md.versions :: v.rfile == vroot
  }

  predicate CacheEntryOk(files: Files, vroot: string, k: string, md: Metadata) {
    var elems := Split(k, '/');
    k == Key(elems) && if elems == [] then RootEntry(vroot, md) else EntryOk(files, vroot, elems, md)
  }

  predicate CacheOk(files: Files, vroot: string, entries: map<string, Metadata>) {
    forall k | k in entries :: CacheEntryOk(files, vroot, k, entries[k])
  }

  /** A path whose block is live can be walked to without ignoring delete flags. */
  predicate LiveParent(files: Files, vroot: string, elems: seq<string>)
    requires elems != []
  {
    var parent := Walk(files, true, vroot, elems[..|elems| - 1]);
    (parent.Some? && Load(files, parent.value, elems[|elems| - 1]).Some?
     && !Load(files, parent.value, elems[|elems| - 1]).value.deleted) ==>
      Walk(files, false, vroot, elems[..|elems| - 1]).Some?
  }

  ghost predicate LiveOk(files: Files, vroot: string) {
    forall elems: seq<string> | elems != [] && IsPath(elems) :: LiveParent(files, vroot, elems)
  }

  /** A cached block gives the same answer for its path as the walk does. */
  lemma EntryAnswers(files: Files, vroot: string, elems: seq<string>, md: Metadata, ignoreDeleted: bool)
    requires elems != [] && EntryOk(files, vroot, elems, md) && LiveParent(files, vroot, elems)
    ensures Walk(files, ignoreDeleted, vroot, elems) ==
            match Lookup(md, ignoreDeleted, LATEST, LATEST)
            case None => None
            case Some(i) => Some(md.versions[i].rfile)
  {
    hide Walk, Load, Lookup, Fix, Settled;
    var up, name := elems[..|elems| - 1], elems[|elems| - 1];
    assert elems == up + [name];
    var dir := Walk(files, true, vroot, up).value;
    var m := Load(files, dir, name).value;
    FixedLookup(dir, m, md, ignoreDeleted);
    WalkSnoc(files, ignoreDeleted, vroot, up, name);
    if Walk(files, false, vroot, up).Some? {
      WalkIgnoring(files, vroot, up);
    } else if !ignoreDeleted {
      assert m.deleted;
      DeletedHasNone(m);
      DeletedHasNone(md);
      assert md.deleted by { FixKeepsFlag(dir, m, md); }
    }
  }

  lemma DeletedHasNone(m: Metadata)
    ensures m.deleted ==> Lookup(m, false, LATEST, LATEST) == None
  {
  }

  lemma FixKeepsFlag(dir: string, m: Metadata, md: Metadata)
    requires Settled(md) == Settled(Fix(dir, m))
    ensures md.deleted == m.deleted
  {
  }

  /** A level that leads nowhere ends the walk. */
  lemma DeadEnd(files: Files, ignoreDeleted: bool, vroot: string, elems: seq<string>, i: nat)
    requires i <= |elems| && Walk(files, ignoreDeleted, vroot, elems[..i]) == None
    ensures Walk(files, ignoreDeleted, vroot, elems) == None
  {
    hide Walk;
    assert elems == elems[..i] + elems[i..];
    WalkConcat(files, ignoreDeleted, vroot, elems[..i], elems[i..]);
  }

  /** The walk one level further. */
  lemma NextLevel(files: Files, ignoreDeleted: bool, vroot: string, elems: seq<string>, i: nat, dir: string)
    requires i < |elems| && Walk(files, ignoreDeleted, vroot, elems[..i]) == Some(dir)
    ensures Walk(files, ignoreDeleted, vroot, elems[..i + 1]) == Descend(files, ignoreDeleted, dir, elems[i])
    ensures Walk(files, true, vroot, elems[..i]) == Some(dir)
  {
    hide Walk, Descend;
    assert elems[..i + 1] == elems[..i] + [elems[i]];
    WalkSnoc(files, ignoreDeleted, vroot, elems[..i], elems[i]);
    if !ignoreDeleted { WalkIgnoring(files, vroot, elems[..i]); }
  }
}
