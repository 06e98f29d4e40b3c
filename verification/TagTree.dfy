/**
 CopyFS: tagging, editing and restoring a tree of files (`copyfs-fversion`). The files share one disk, and edits
 to them come in any order; what keeps them apart is that the names of their real files differ.
 */
module TagTree {
  import opened Bytes
  import opened Text
  import opened Helper
  import opened Versions
  import opened VersionStore
  import opened FileSteps
  import opened Saving
  import opened TagRestore
  import opened TagFile

  // ----- a file's own names -----

  /** The name is one that `create_version_name` makes for the file. */
  predicate IsOwn(p: Place, f: string) {
    exists serial: u32 :: f == RealName(p, serial)
  }

  /** Two files have no real file in common. */
  lemma OwnNamesApart(p: Place, q: Place, f: string)
    requires p != q && GoodName(p.name) && GoodName(q.name) && IsOwn(p, f)
    ensures !IsOwn(q, f)
  {
    hide RealName, FileName, DirName, NamedFor;
    var a: u32 :| f == RealName(p, a);
    if IsOwn(q, f) {
      var b: u32 :| f == RealName(q, b);
      PlaceOfName(p, a);
      PlaceOfName(q, b);
    }
  }

  lemma PlaceOfName(p: Place, serial: u32)
    requires GoodName(p.name)
    ensures var f := RealName(p, serial);
            DirName(f) == p.dir && |FileName(f)| >= 9 && FileName(f)[9..] == p.name
  {
    hide FileName, DirName, Hex8;
    RealNameShape(p, serial);
    FileNameOf(p.dir, FileName(RealName(p, serial)));
  }

  lemma SoundIsOwn(p: Place, vs: seq<Version>)
    requires Sound(p, vs)
    ensures forall f | f in RealFiles(vs) :: IsOwn(p, f)
  {
    hide RealName;
    forall f | f in RealFiles(vs)
      ensures IsOwn(p, f)
    {
      var i :| 0 <= i < |vs| && vs[i].rfile == f;
      assert NamedWithin(p, vs[i]);
    }
  }

  /** A step touches no real file but the file's own. */
  lemma StepOnlyOwn(p: Place, s: State, op: Op, f: string)
    requires Sound(p, s.md.versions) && !IsOwn(p, f)
    ensures SameAt(s.disk, Step(p, s, op).disk, f)
  {
    hide RealName, Sound, Step, Create, Lookup;
    var vs := s.md.versions;
    SoundIsOwn(p, vs);
    if op.Purge? {
      PurgeOnlyOwn(p, s, op, f);
    } else if vs == [] {
      FirstOnlyOwn(p, s, op, f);
    } else {
      assert Current(s).rfile in RealFiles(vs);
      StepTouches(p, s, op, f);
    }
  }

  lemma FirstOnlyOwn(p: Place, s: State, op: Op, f: string)
    requires s.md.versions == [] && f != RealName(p, 1)
    ensures SameAt(s.disk, Step(p, s, op).disk, f)
  {
    hide RealName;
  }

  lemma PurgeOnlyOwn(p: Place, s: State, op: Op, f: string)
    requires op.Purge? && f !in RealFiles(s.md.versions)
    ensures SameAt(s.disk, Step(p, s, op).disk, f)
  {
    hide Lookup;
    if Visible(s).Some? {
      var vs := s.md.versions;
      var k := Kept(|vs|, op.count);
      assert vs == vs[..k] + vs[k..];
      FilesOfParts(vs[..k], vs[k..]);
    }
  }

  // ----- the tree -----

  /** Every name's block, and the one disk. A name that stands for nothing has an empty block. */
  datatype Tree = Tree(blocks: map<string, Metadata>, disk: map<string, bytes>)

  type Places = map<string, Place>

  /** The paths of the tree have places of their own, which `FileSteps.WalkInjective` gives them. */
  predicate Apart(places: Places) {
    && (forall a | a in places :: GoodName(places[a].name))
    && (forall a, b | a in places && b in places && a != b :: places[a] != places[b])
  }

  function FileOf(tree: Tree, path: string): State
    requires path in tree.blocks
  {
    State(tree.blocks[path], tree.disk)
  }

  function Put(tree: Tree, path: string, s: State): Tree {
    Tree(tree.blocks[path := s.md], s.disk)
  }

  /** One file's change leaves the others as they were, on every name of their own. */
  ghost predicate OthersKept(places: Places, tree: Tree, tree': Tree, path: string) {
    forall q | q in places && q in tree.blocks && q != path ::
      q in tree'.blocks && tree'.blocks[q] == tree.blocks[q]
      && forall f | IsOwn(places[q], f) :: SameAt(tree.disk, tree'.disk, f)
  }

  lemma ChangeKeepsOthers(places: Places, tree: Tree, path: string, s: State)
    requires Apart(places) && path in places && path in tree.blocks
    requires forall f | !IsOwn(places[path], f) :: SameAt(tree.disk, s.disk, f)
    ensures OthersKept(places, tree, Put(tree, path, s), path)
  {
    hide IsOwn;
    forall q, f | q in places && q in tree.blocks && q != path && IsOwn(places[q], f)
      ensures SameAt(tree.disk, s.disk, f)
    {
      OwnNamesApart(places[q], places[path], f);
    }
  }

  // ----- what holds of one file while others change -----

  lemma ShownElsewhere(p: Place, md: Metadata, d: map<string, bytes>, d': map<string, bytes>)
    requires Sound(p, md.versions) && forall f | IsOwn(p, f) :: SameAt(d, d', f)
    ensures Shown(State(md, d')) == Shown(State(md, d))
  {
    hide IsOwn, Sound, Lookup;
    SoundIsOwn(p, md.versions);
    if md.versions != [] { assert Current(State(md, d)).rfile in RealFiles(md.versions); }
  }

  lemma HoldsElsewhere(p: Place, s0: State, md: Metadata, d: map<string, bytes>, d': map<string, bytes>, own: bool)
    requires TagHolds(p, s0, State(md, d), own) && forall f | IsOwn(p, f) :: SameAt(d, d', f)
    ensures TagHolds(p, s0, State(md, d'), own)
  {
    hide IsOwn, Sound, Ordered;
    SoundIsOwn(p, md.versions);
    RealFilesOfSuffix(md.versions, s0.md.versions);
  }

  lemma TouchableElsewhere(p: Place, md: Metadata, d: map<string, bytes>, d': map<string, bytes>, touch: Touch)
    requires Touchable(p, State(md, d), touch) && forall f | IsOwn(p, f) :: SameAt(d, d', f)
    ensures Touchable(p, State(md, d'), touch)
  {
    hide RealName;
    assert IsOwn(p, RealName(p, Succ(md.versions[0].vid)));
  }

  // ----- edits in any order -----

  datatype Change = Change(path: string, op: Op)

  function Changed(tree: Tree, places: Places, c: Change): Tree
    requires c.path in tree.blocks && c.path in places
  {
    Put(tree, c.path, Step(places[c.path], FileOf(tree, c.path), c.op))
  }

  /** A careful edit of a file that was there when the tag was taken; any edit of another one. */
  predicate CarefulChange(was: Tree, tree: Tree, places: Places, c: Change, owns: set<string>) {
    && c.path in was.blocks && c.path in tree.blocks && c.path in places
    && NumbersLeft(FileOf(tree, c.path))
    && (was.blocks[c.path].versions != [] ==>
          Careful(places[c.path], FileOf(tree, c.path), c.op, c.path in owns))
  }

  function OwnsAfter(tree: Tree, places: Places, c: Change, owns: set<string>): set<string>
    requires c.path in tree.blocks && c.path in places
  {
    if StillOwn(places[c.path], FileOf(tree, c.path), c.op, c.path in owns) then owns + {c.path} else owns - {c.path}
  }

  predicate TreeCareful(was: Tree, tree: Tree, places: Places, cs: seq<Change>, owns: set<string>)
    decreases |cs|
  {
    cs == []
    || (CarefulChange(was, tree, places, cs[0], owns)
        && TreeCareful(was, Changed(tree, places, cs[0]), places, cs[1..], OwnsAfter(tree, places, cs[0], owns)))
  }

  function RunTree(tree: Tree, places: Places, cs: seq<Change>): Tree
    requires forall i | 0 <= i < |cs| :: cs[i].path in tree.blocks && cs[i].path in places
    decreases |cs|
  {
    if cs == [] then tree
    else
      assert cs[0].path in tree.blocks;
      RunTree(Changed(tree, places, cs[0]), places, cs[1..])
  }

  /** Every file has a sound list, and what was tagged is still there. */
  predicate AllHold(was: Tree, tree: Tree, places: Places, owns: set<string>) {
    forall q | q in was.blocks ::
      && q in tree.blocks && q in places
      && Sound(places[q], tree.blocks[q].versions)
      && (was.blocks[q].versions != [] ==> TagHolds(places[q], FileOf(was, q), FileOf(tree, q), q in owns))
  }

  /** One careful change keeps it so, for the file changed and for all others. */
  lemma ChangeHolds(was: Tree, tree: Tree, places: Places, c: Change, owns: set<string>)
    requires Apart(places) && AllHold(was, tree, places, owns) && CarefulChange(was, tree, places, c, owns)
    ensures AllHold(was, Changed(tree, places, c), places, OwnsAfter(tree, places, c, owns))
  {
    hide Step, Sound, TagHolds, Careful, StillOwn, IsOwn, Apart;
    var p, s := places[c.path], FileOf(tree, c.path);
    var tree', owns' := Changed(tree, places, c), OwnsAfter(tree, places, c, owns);
    StepKeepsSound(p, s, c.op);
    if was.blocks[c.path].versions != [] {
      CarefulStep(p, FileOf(was, c.path), s, c.op, c.path in owns);
    }
    forall f | !IsOwn(p, f)
      ensures SameAt(tree.disk, tree'.disk, f)
    {
      StepOnlyOwn(p, s, c.op, f);
    }
    ChangeKeepsOthers(places, tree, c.path, Step(p, s, c.op));
    forall q | q in was.blocks && q != c.path && was.blocks[q].versions != []
      ensures TagHolds(places[q], FileOf(was, q), FileOf(tree', q), q in owns')
    {
      HoldsElsewhere(places[q], FileOf(was, q), tree.blocks[q], tree.disk, tree'.disk, q in owns);
    }
  }

  lemma {:induction false} RunHolds(was: Tree, tree: Tree, places: Places, cs: seq<Change>, owns: set<string>)
    requires Apart(places) && AllHold(was, tree, places, owns) && TreeCareful(was, tree, places, cs, owns)
    requires forall i | 0 <= i < |cs| :: cs[i].path in tree.blocks && cs[i].path in places
    ensures AllHold(was, RunTree(tree, places, cs), places, {})
    decreases |cs|
  {
    hide Apart, CarefulChange;
    if cs == [] {
      DisownAll(was, tree, places, owns);
    } else {
      hide AllHold;
      assert cs[0].path in tree.blocks;
      ChangeHolds(was, tree, places, cs[0], owns);
      RunHolds(was, Changed(tree, places, cs[0]), places, cs[1..], OwnsAfter(tree, places, cs[0], owns));
    }
  }

  lemma DisownAll(was: Tree, tree: Tree, places: Places, owns: set<string>)
    requires AllHold(was, tree, places, owns)
    ensures AllHold(was, tree, places, {})
  {
    hide Sound, Ordered, Preserves, Private;
  }

  // ----- restoring -----

  type Touches = map<string, Touch>

  function RestoreOne(tree: Tree, places: Places, touches: Touches, e: ReadEntry): Tree {
    if e.path !in tree.blocks || e.path !in places || e.path !in touches then tree
    else if e.vid >= 0x8000_0000 || e.svid >= 0x8000_0000 then tree
    else
      Put(tree, e.path, Restore(places[e.path], FileOf(tree, e.path), e.vid, e.svid, touches[e.path]))
  }

  /** `restore_tag_file`, line by line; it stops at a path outside `root`. */
  function RestoreAll(tree: Tree, places: Places, touches: Touches, root: string, rs: seq<ReadEntry>): Tree
    decreases |rs|
  {
    if rs == [] || !(root + "/" <= rs[0].path) then tree
    else RestoreAll(RestoreOne(tree, places, touches, rs[0]), places, touches, root, rs[1..])
  }

  /** The line names a file that was tagged, can be shown, and is still there or can be made anew. */
  predicate Ready(was: Tree, tree: Tree, places: Places, touches: Touches, root: string, r: ReadEntry) {
    && r.path in was.blocks && r.path in tree.blocks && r.path in places && r.path in touches && root + "/" <= r.path
    && Ordered(was.blocks[r.path].versions) && Taggable(FileOf(was, r.path))
    && r.vid == Tag(FileOf(was, r.path)).0 && r.svid == Tag(FileOf(was, r.path)).1
    && TagHolds(places[r.path], FileOf(was, r.path), FileOf(tree, r.path), false)
    && (Visible(FileOf(tree, r.path)).None? ==> Touchable(places[r.path], FileOf(tree, r.path), touches[r.path]))
  }

  /** Restoring a line shows what was tagged, keeps the list sound, and touches no other file. */
  lemma RestoreReady(was: Tree, tree: Tree, places: Places, touches: Touches, root: string, r: ReadEntry)
    requires Apart(places) && Ready(was, tree, places, touches, root, r)
    ensures var tree' := RestoreOne(tree, places, touches, r);
            && r.path in tree'.blocks && Sound(places[r.path], tree'.blocks[r.path].versions)
            && Shown(FileOf(tree', r.path)) == Shown(FileOf(was, r.path))
            && OthersKept(places, tree, tree', r.path)
  {
    TaggableNumbers(FileOf(was, r.path));
    hide Restore, Sound, Ordered, Taggable, Tag, TagHolds, Shown, Visible, Touchable, Apart, OthersKept, IsOwn;
    var p, s0, s := places[r.path], FileOf(was, r.path), FileOf(tree, r.path);
    RestoreShows(p, s0, s, touches[r.path]);
    RestoreOwn(p, s0, s, r.vid, r.svid, touches[r.path]);
    ChangeKeepsOthers(places, tree, r.path, Restore(p, s, r.vid, r.svid, touches[r.path]));
  }

  lemma RestoreOwn(p: Place, s0: State, s: State, vid: int32, svid: int32, touch: Touch)
    requires s0.md.versions != [] && TagHolds(p, s0, s, false) && (Visible(s).None? ==> Touchable(p, s, touch))
    ensures Sound(p, Restore(p, s, vid, svid, touch).md.versions)
    ensures forall f | !IsOwn(p, f) :: SameAt(s.disk, Restore(p, s, vid, svid, touch).disk, f)
  {
    hide Step, Sound, Ordered, Preserves, IsOwn, Visible, Touchable;
    var t := if Visible(s).None? then Touched(p, s, touch) else s;
    if Visible(s).None? {
      TouchIsCareful(p, s0, s, touch);
      TouchOwn(p, s, touch);
    }
    PinOwn(p, t, vid, svid);
  }

  lemma TouchOwn(p: Place, s: State, touch: Touch)
    requires Sound(p, s.md.versions) && Touchable(p, s, touch)
    ensures forall f | !IsOwn(p, f) :: SameAt(s.disk, Touched(p, s, touch).disk, f)
  {
    hide Step, Sound, IsOwn;
    var t := Step(p, s, touch.mknod);
    StepKeepsSound(p, s, touch.mknod);
    forall f | !IsOwn(p, f)
      ensures SameAt(s.disk, Touched(p, s, touch).disk, f)
    {
      StepOnlyOwn(p, s, touch.mknod, f);
      StepOnlyOwn(p, t, touch.open, f);
    }
  }

  lemma PinOwn(p: Place, t: State, vid: int32, svid: int32)
    ensures var u := Step(p, t, Pin(vid, svid, true)); u.md.versions == t.md.versions && u.disk == t.disk
  {
  }

  lemma ReadyKept(was: Tree, tree: Tree, tree': Tree, places: Places, touches: Touches, root: string, path: string,
                  r: ReadEntry)
    requires Ready(was, tree, places, touches, root, r) && OthersKept(places, tree, tree', path) && r.path != path
    ensures Ready(was, tree', places, touches, root, r)
  {
    hide Sound, Ordered, Taggable, Tag, TagHolds, Touchable, IsOwn, Lookup;
    var p, md := places[r.path], tree.blocks[r.path];
    HoldsElsewhere(p, FileOf(was, r.path), md, tree.disk, tree'.disk, false);
    if Visible(FileOf(tree, r.path)).None? { TouchableElsewhere(p, md, tree.disk, tree'.disk, touches[r.path]); }
  }

  /** What a file shows stays while other lines are restored. */
  lemma {:induction false} ShownKept(was: Tree, tree: Tree, places: Places, touches: Touches, root: string,
                                     rs: seq<ReadEntry>, q: string)
    requires Apart(places)
    requires forall i | 0 <= i < |rs| :: Ready(was, tree, places, touches, root, rs[i]) && rs[i].path != q
    requires forall i, j | 0 <= i < j < |rs| :: rs[i].path != rs[j].path
    requires q in tree.blocks && q in places && Sound(places[q], tree.blocks[q].versions)
    ensures var after := RestoreAll(tree, places, touches, root, rs);
            q in after.blocks && Shown(FileOf(after, q)) == Shown(FileOf(tree, q))
    decreases |rs|
  {
    hide Ready, Apart, Sound, Shown, RestoreOne, IsOwn, OthersKept;
    if rs != [] && root + "/" <= rs[0].path {
      var tree' := RestoreOne(tree, places, touches, rs[0]);
      RestoreReady(was, tree, places, touches, root, rs[0]);
      KeptShows(places, tree, tree', rs[0].path, q);
      forall i | 0 <= i < |rs[1..]|
        ensures Ready(was, tree', places, touches, root, rs[1..][i])
      {
        ReadyKept(was, tree, tree', places, touches, root, rs[0].path, rs[i + 1]);
      }
      ShownKept(was, tree', places, touches, root, rs[1..], q);
    }
  }

  lemma KeptShows(places: Places, tree: Tree, tree': Tree, path: string, q: string)
    requires OthersKept(places, tree, tree', path) && q != path
    requires q in tree.blocks && q in places && Sound(places[q], tree.blocks[q].versions)
    ensures q in tree'.blocks && tree'.blocks[q] == tree.blocks[q] && Shown(FileOf(tree', q)) == Shown(FileOf(tree, q))
  {
    hide Sound, Shown, IsOwn;
    ShownElsewhere(places[q], tree.blocks[q], tree.disk, tree'.disk);
  }

  /** Every line does its work, whatever the others do. */
  lemma {:induction false} AllRestored(was: Tree, tree: Tree, places: Places, touches: Touches, root: string,
                                       rs: seq<ReadEntry>, k: nat)
    requires Apart(places) && forall i | 0 <= i < |rs| :: Ready(was, tree, places, touches, root, rs[i])
    requires forall i, j | 0 <= i < j < |rs| :: rs[i].path != rs[j].path
    requires k < |rs|
    ensures var after := RestoreAll(tree, places, touches, root, rs);
            rs[k].path in after.blocks && rs[k].path in was.blocks
            && Shown(FileOf(after, rs[k].path)) == Shown(FileOf(was, rs[k].path))
    decreases |rs|
  {
    hide Ready, Apart, Sound, Shown, RestoreOne, OthersKept;
    var tree' := RestoreOne(tree, places, touches, rs[0]);
    ReadyPaths(was, tree, places, touches, root, rs[0]);
    RestoreReady(was, tree, places, touches, root, rs[0]);
    forall i | 0 <= i < |rs[1..]|
      ensures Ready(was, tree', places, touches, root, rs[1..][i])
    {
      ReadyKept(was, tree, tree', places, touches, root, rs[0].path, rs[i + 1]);
    }
    if k == 0 {
      ShownKept(was, tree', places, touches, root, rs[1..], rs[0].path);
    } else {
      AllRestored(was, tree', places, touches, root, rs[1..], k - 1);
      assert rs[1..][k - 1] == rs[k];
    }
  }

  lemma ReadyPaths(was: Tree, tree: Tree, places: Places, touches: Touches, root: string, r: ReadEntry)
    requires Ready(was, tree, places, touches, root, r)
    ensures r.path in places && r.path in was.blocks && root + "/" <= r.path
  {
  }

  // ----- tag, edit, restore -----

  /** The line of a file. */
  function EntryOf(tree: Tree, path: string): Entry
    requires path in tree.blocks && tree.blocks[path].versions != []
  {
    Entry(path, Tag(FileOf(tree, path)).0, Tag(FileOf(tree, path)).1)
  }

  /** The entry was written for a file below the root whose path the format can hold and whose tag has the form x.y. */
  predicate Tagged(was: Tree, places: Places, touches: Touches, root: string, e: Entry) {
    && e.path in was.blocks && e.path in places && e.path in touches && root + "/" <= e.path
    && '|' !in e.path && '\n' !in e.path
    && was.blocks[e.path].versions != [] && e == EntryOf(was, e.path)
    && Ordered(was.blocks[e.path].versions) && Taggable(FileOf(was, e.path))
  }

  /** All blocks are sound, as every step keeps them. */
  predicate SoundTree(tree: Tree, places: Places) {
    forall q | q in tree.blocks ::
      q in places && Sound(places[q], tree.blocks[q].versions) && Ordered(tree.blocks[q].versions)
  }

  /**
   Tag a tree, edit its files in any order, restore the tag: the tag file's text is read back, and every tagged
   file shows the bytes it showed when it was tagged.
   */
  lemma TreeRestored(root: string, entries: seq<Entry>, was: Tree, places: Places, touches: Touches, cs: seq<Change>)
    requires Apart(places) && SoundTree(was, places)
    requires forall i, j | 0 <= i < j < |entries| :: entries[i].path != entries[j].path
    requires forall i | 0 <= i < |entries| :: Tagged(was, places, touches, root, entries[i])
    requires forall i | 0 <= i < |cs| :: cs[i].path in was.blocks && cs[i].path in places
    requires TreeCareful(was, was, places, cs, {})
    requires var tree := RunTree(was, places, cs);
             forall i | 0 <= i < |entries| :: Revivable(tree, places, touches, entries[i].path)
    ensures var after := RestoreAll(RunTree(was, places, cs), places, touches, root, ReadTagFile(TagFileText(entries)));
            forall i | 0 <= i < |entries| ::
              entries[i].path in after.blocks && entries[i].path in was.blocks
              && Shown(FileOf(after, entries[i].path)) == Shown(FileOf(was, entries[i].path))
  {
    hide Apart, SoundTree, Tagged, Revivable, TreeCareful, RunTree, ReadTagFile, TagFileText, RestoreAll, AsRead, Ready,
         Listable, AllHold, Shown;
    AllHoldAtFirst(was, places);
    RunHolds(was, was, places, cs, {});
    var tree := RunTree(was, places, cs);
    forall i | 0 <= i < |entries|
      ensures Listable(entries[i])
    {
      TaggedIsReady(was, tree, places, touches, root, entries[i]);
    }
    TagFileRoundTrip(entries);
    AsReadAt(entries);
    var rs := AsRead(entries);
    forall i | 0 <= i < |rs|
      ensures Ready(was, tree, places, touches, root, rs[i])
    {
      TaggedIsReady(was, tree, places, touches, root, entries[i]);
    }
    forall i | 0 <= i < |entries|
      ensures var after := RestoreAll(tree, places, touches, root, rs);
              entries[i].path in after.blocks && entries[i].path in was.blocks
              && Shown(FileOf(after, entries[i].path)) == Shown(FileOf(was, entries[i].path))
    {
      AllRestored(was, tree, places, touches, root, rs, i);
    }
  }

  /** The file is still there, or can be made anew. */
  predicate Revivable(tree: Tree, places: Places, touches: Touches, path: string) {
    path in tree.blocks && path in places && path in touches
    && (Visible(FileOf(tree, path)).None? ==> Touchable(places[path], FileOf(tree, path), touches[path]))
  }

  lemma AllHoldAtFirst(was: Tree, places: Places)
    requires SoundTree(was, places)
    ensures AllHold(was, was, places, {})
  {
    hide Sound, Ordered, TagHolds;
    forall q | q in was.blocks
      ensures TagHolds(places[q], FileOf(was, q), FileOf(was, q), false)
    {
      TagHoldsAtFirst(places[q], FileOf(was, q));
    }
  }

  lemma TaggedIsReady(was: Tree, tree: Tree, places: Places, touches: Touches, root: string, e: Entry)
    requires Tagged(was, places, touches, root, e) && AllHold(was, tree, places, {})
    requires Revivable(tree, places, touches, e.path)
    ensures Listable(e) && Ready(was, tree, places, touches, root, ReadEntry(e.path, e.vid, e.svid))
  {
    hide Sound, Ordered, TagHolds, Touchable, Tag, Visible;
    TaggableNumbers(FileOf(was, e.path));
  }

  lemma TaggableNumbers(s: State)
    requires Taggable(s)
    ensures s.md.versions != [] && Tag(s).0 >= 0 && Tag(s).1 >= 0
  {
  }
}
