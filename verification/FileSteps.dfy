/**
 CopyFS: what a change to one virtual file does to the meaning of paths. Saving the list and pin of a file
 changes the translation of that file alone, and the cache stays right if its block is changed with it.
 */
module FileSteps {
  import opened Bytes
  import opened Helper
  import opened Versions
  import opened PathWalk

  /** A bare version name as `create_version_name` makes it: eight digits, a dot, the virtual name. */
  predicate NamedFor(rfile: string, name: string) {
    |rfile| >= 9 && rfile[9..] == name && '/' !in rfile
  }

  predicate AllNamedFor(m: Metadata, name: string) {
    forall i | 0 <= i < |m.versions| :: NamedFor(m.versions[i].rfile, name)
  }

  ghost predicate WellNamed(files: Files) {
    forall dir: string, name: string | IsItem(name, '/') && Load(files, dir, name).Some? ::
      AllNamedFor(Load(files, dir, name).value, name)
  }

  // ----- translation is injective -----

  lemma DescendShape(files: Files, dir: string, name: string)
    requires WellNamed(files) && IsItem(name, '/') && Descend(files, true, dir, name).Some?
    ensures var d := Descend(files, true, dir, name).value;
            d == dir + "/" + FileName(d) && DirName(d) == dir && NamedFor(FileName(d), name)
  {
    hide Load, Lookup, FileName, DirName;
    var m := Load(files, dir, name).value;
    var i := Lookup(m, true, LATEST, LATEST).value;
    assert AllNamedFor(m, name) && NamedFor(m.versions[i].rfile, name);
    FileNameOf(dir, m.versions[i].rfile);
  }

  lemma {:induction false} WalkLonger(files: Files, dir: string, elems: seq<string>)
    requires Walk(files, true, dir, elems).Some?
    ensures |Walk(files, true, dir, elems).value| >= |dir| + |elems|
    decreases |elems|
  {
    hide Load, Lookup;
    if elems != [] {
      WalkLonger(files, Descend(files, true, dir, elems[0]).value, elems[1..]);
    }
  }

  /** The last step of a walk. */
  lemma LastLevel(files: Files, ignoreDeleted: bool, vroot: string, elems: seq<string>)
    requires elems != []
    ensures var up := Walk(files, ignoreDeleted, vroot, elems[..|elems| - 1]);
            Walk(files, ignoreDeleted, vroot, elems) ==
            if up.None? then None else Descend(files, ignoreDeleted, up.value, elems[|elems| - 1])
  {
    hide Walk, Descend;
    assert elems == elems[..|elems| - 1] + [elems[|elems| - 1]];
    WalkSnoc(files, ignoreDeleted, vroot, elems[..|elems| - 1], elems[|elems| - 1]);
  }

  /** Different virtual paths have different real ones. */
  lemma {:induction false} WalkInjective(files: Files, vroot: string, a: seq<string>, b: seq<string>)
    requires WellNamed(files) && IsPath(a) && IsPath(b)
    requires Walk(files, true, vroot, a).Some? && Walk(files, true, vroot, a) == Walk(files, true, vroot, b)
    ensures a == b
    decreases |a|
  {
    hide Walk, WellNamed, Descend, FileName, DirName;
    if a == [] || b == [] {
      WalkLonger(files, vroot, a);
      WalkLonger(files, vroot, b);
      assert Walk(files, true, vroot, []) == Some(vroot) by { WalkNothing(files, vroot); }
    } else {
      var x, y := a[|a| - 1], b[|b| - 1];
      assert x in a && y in b;
      LastLevel(files, true, vroot, a);
      LastLevel(files, true, vroot, b);
      PrefixIsPath(a, |a| - 1);
      PrefixIsPath(b, |b| - 1);
      DescendShape(files, Walk(files, true, vroot, a[..|a| - 1]).value, x);
      DescendShape(files, Walk(files, true, vroot, b[..|b| - 1]).value, y);
      WalkInjective(files, vroot, a[..|a| - 1], b[..|b| - 1]);
    }
  }

  lemma WalkNothing(files: Files, vroot: string)
    ensures Walk(files, true, vroot, []) == Some(vroot)
  {
  }

  // ----- changing one file -----

  /** Nothing but what is loaded for `name` in `dir` differs. */
  ghost predicate ChangedOnly(files: Files, files': Files, dir: string, name: string) {
    forall d: string, n: string | '/' !in n && (d != dir || n != name) :: Load(files', d, n) == Load(files, d, n)
  }

  /** The name stands for a file: nothing is kept under any version it has or will have. */
  ghost predicate IsLeaf(files: Files, dir: string, name: string) {
    forall r: string, n: string | NamedFor(r, name) && '/' !in n :: Load(files, dir + "/" + r, n).None?
  }

  /** A change to the file at `elems` whose parent translates to `dir`. */
  ghost predicate FileChange(files: Files, files': Files, vroot: string, elems: seq<string>, dir: string) {
    && elems != [] && IsPath(elems)
    && Walk(files, true, vroot, elems[..|elems| - 1]) == Some(dir)
    && WellNamed(files)
    && ChangedOnly(files, files', dir, elems[|elems| - 1])
    && IsLeaf(files, dir, elems[|elems| - 1])
  }

  /** Paths that do not lead through the file mean what they meant. */
  lemma {:induction false} WalkUnaffected(files: Files, files': Files, vroot: string, elems: seq<string>, dir: string,
                                          ignoreDeleted: bool, other: seq<string>)
    requires FileChange(files, files', vroot, elems, dir) && IsPath(other) && !(elems <= other)
    ensures Walk(files', ignoreDeleted, vroot, other) == Walk(files, ignoreDeleted, vroot, other)
    decreases |other|
  {
    hide Walk, WellNamed, IsLeaf, Load, Lookup;
    if other == [] {
      WalkEmpty(files, ignoreDeleted, vroot);
      WalkEmpty(files', ignoreDeleted, vroot);
    } else {
      var up, name := other[..|other| - 1], other[|other| - 1];
      assert name in other;
      PrefixIsPath(other, |other| - 1);
      WalkUnaffected(files, files', vroot, elems, dir, ignoreDeleted, up);
      LastLevel(files, ignoreDeleted, vroot, other);
      LastLevel(files', ignoreDeleted, vroot, other);
      if Walk(files, ignoreDeleted, vroot, up).Some? {
        SamePlace(files, vroot, elems, dir, ignoreDeleted, other);
      }
    }
  }

  lemma WalkEmpty(files: Files, ignoreDeleted: bool, vroot: string)
    ensures Walk(files, ignoreDeleted, vroot, []) == Some(vroot)
  {
  }

  /** Only the path itself leads to the place of the file. */
  lemma SamePlace(files: Files, vroot: string, elems: seq<string>, dir: string, ignoreDeleted: bool, other: seq<string>)
    requires elems != [] && IsPath(elems) && other != [] && IsPath(other) && WellNamed(files)
    requires Walk(files, true, vroot, elems[..|elems| - 1]) == Some(dir)
    requires Walk(files, ignoreDeleted, vroot, other[..|other| - 1]).Some?
    ensures var up := Walk(files, ignoreDeleted, vroot, other[..|other| - 1]).value;
            up == dir && other[|other| - 1] == elems[|elems| - 1] ==> other == elems
  {
    hide Walk, WellNamed;
    var up := other[..|other| - 1];
    if Walk(files, ignoreDeleted, vroot, up).value == dir && other[|other| - 1] == elems[|elems| - 1] {
      if !ignoreDeleted { WalkIgnoring(files, vroot, up); }
      PrefixIsPath(other, |other| - 1);
      PrefixIsPath(elems, |elems| - 1);
      WalkInjective(files, vroot, up, elems[..|elems| - 1]);
      assert other == up + [other[|other| - 1]] && elems == elems[..|elems| - 1] + [elems[|elems| - 1]];
    }
  }

  /** Nothing is found below a file. */
  lemma NothingBelow(files: Files, vroot: string, elems: seq<string>, dir: string, below: seq<string>)
    requires elems != [] && elems < below && IsPath(elems) && IsPath(below)
    requires WellNamed(files) && IsLeaf(files, dir, elems[|elems| - 1])
    requires Walk(files, true, vroot, elems[..|elems| - 1]) == Some(dir)
    ensures var up := Walk(files, true, vroot, below[..|below| - 1]);
            up.Some? ==> Load(files, up.value, below[|below| - 1]).None?
  {
    hide Walk, WellNamed, IsLeaf, Load, FileName, DirName;
    var up, first := below[..|below| - 1], below[|elems|];
    assert first in below && elems[|elems| - 1] in elems;
    LastLevel(files, true, vroot, elems);
    assert below[..|elems|] == elems;
    if Walk(files, true, vroot, elems).Some? {
      DescendShape(files, dir, elems[|elems| - 1]);
      LeafHolds(files, dir, elems[|elems| - 1], FileName(Walk(files, true, vroot, elems).value), first);
      if |up| > |elems| {
        assert up[..|elems| + 1] == elems + [first];
        LastLevel(files, true, vroot, elems + [first]);
        assert (elems + [first])[..|elems|] == elems;
        DeadEnd(files, true, vroot, up, |elems| + 1);
      } else {
        assert up == elems;
      }
    } else {
      assert up[..|elems|] == elems;
      DeadEnd(files, true, vroot, up, |elems|);
    }
  }

  lemma LeafHolds(files: Files, dir: string, name: string, r: string, n: string)
    requires IsLeaf(files, dir, name) && NamedFor(r, name) && '/' !in n
    ensures Load(files, dir + "/" + r, n).None?
  {
  }

  // ----- the cache after the change -----

  /** What was written for the file is in the cache for it, or nothing is; everything else is as it was, or gone. */
  predicate EntriesFollow(files': Files, elems: seq<string>, dir: string,
                          entries: map<string, Metadata>, entries': map<string, Metadata>)
    requires elems != []
  {
    forall k | k in entries' ::
      if k == Key(elems) then
        var m := Load(files', dir, elems[|elems| - 1]);
        m.Some? && Settled(entries'[k]) == Settled(Fix(dir, m.value))
      else k in entries && entries'[k] == entries[k]
  }

  lemma NewLeaf(files: Files, files': Files, vroot: string, elems: seq<string>, dir: string)
    requires FileChange(files, files', vroot, elems, dir)
    ensures IsLeaf(files', dir, elems[|elems| - 1])
  {
  }

  /** The blocks of other paths are loaded from where they were, and say what they said. */
  lemma OtherUnaffected(files: Files, files': Files, vroot: string, elems: seq<string>, dir: string, other: seq<string>)
    requires FileChange(files, files', vroot, elems, dir) && IsPath(other) && other != [] && !(elems <= other)
    ensures var up, name := other[..|other| - 1], other[|other| - 1];
            && Walk(files', true, vroot, up) == Walk(files, true, vroot, up)
            && Walk(files', false, vroot, up) == Walk(files, false, vroot, up)
            && (Walk(files, true, vroot, up).Some? ==>
                  var d := Walk(files, true, vroot, up).value; Load(files', d, name) == Load(files, d, name))
  {
    hide Load, WellNamed, Walk, IsLeaf;
    var up, name := other[..|other| - 1], other[|other| - 1];
    assert name in other;
    PrefixIsPath(other, |other| - 1);
    WalkUnaffected(files, files', vroot, elems, dir, true, up);
    WalkUnaffected(files, files', vroot, elems, dir, false, up);
    if Walk(files, true, vroot, up).Some? {
      SamePlace(files, vroot, elems, dir, true, other);
    }
  }

  lemma OwnParentUnaffected(files: Files, files': Files, vroot: string, elems: seq<string>, dir: string)
    requires FileChange(files, files', vroot, elems, dir)
    ensures var up := elems[..|elems| - 1];
            && Walk(files', true, vroot, up) == Some(dir)
            && Walk(files', false, vroot, up) == Walk(files, false, vroot, up)
  {
    hide Load, WellNamed, Walk, IsLeaf;
    PrefixIsPath(elems, |elems| - 1);
    WalkUnaffected(files, files', vroot, elems, dir, true, elems[..|elems| - 1]);
    WalkUnaffected(files, files', vroot, elems, dir, false, elems[..|elems| - 1]);
  }

  lemma EntryStays(files: Files, files': Files, vroot: string, elems: seq<string>, dir: string, k: string, md: Metadata)
    requires FileChange(files, files', vroot, elems, dir) && CacheEntryOk(files, vroot, k, md) && k != Key(elems)
    ensures CacheEntryOk(files', vroot, k, md)
  {
    hide Load, WellNamed, Walk, IsLeaf, ChangedOnly, Key, Settled, Fix, Split;
    var other := Split(k, '/');
    SplitItems(k, '/');
    if other != [] {
      if elems <= other {
        assert other != elems;
        NothingBelow(files, vroot, elems, dir, other);
      } else {
        OtherUnaffected(files, files', vroot, elems, dir, other);
      }
    }
  }

  /** The cache stays right. */
  lemma CacheFollows(files: Files, files': Files, vroot: string, elems: seq<string>, dir: string,
                     entries: map<string, Metadata>, entries': map<string, Metadata>)
    requires FileChange(files, files', vroot, elems, dir) && CacheOk(files, vroot, entries)
    requires EntriesFollow(files', elems, dir, entries, entries')
    ensures CacheOk(files', vroot, entries')
  {
    hide Load, WellNamed, Walk, IsLeaf, ChangedOnly, Key, Settled, Fix, CacheEntryOk;
    forall k | k in entries'
      ensures CacheEntryOk(files', vroot, k, entries'[k])
    {
      if k == Key(elems) {
        OwnParentUnaffected(files, files', vroot, elems, dir);
        KeySplit(elems);
        OwnEntry(files', vroot, elems, entries'[k]);
      } else {
        EntryStays(files, files', vroot, elems, dir, k, entries[k]);
      }
    }
  }

  lemma OwnEntry(files: Files, vroot: string, elems: seq<string>, md: Metadata)
    requires elems != [] && Split(Key(elems), '/') == elems && EntryOk(files, vroot, elems, md)
    ensures CacheEntryOk(files, vroot, Key(elems), md)
  {
    hide EntryOk;
  }

  /** Live entries keep live ancestors, if a file that is live has them. */
  lemma LiveFollows(files: Files, files': Files, vroot: string, elems: seq<string>, dir: string)
    requires FileChange(files, files', vroot, elems, dir) && LiveOk(files, vroot) && WellNamed(files')
    requires var m := Load(files', dir, elems[|elems| - 1]);
             m.Some? && !m.value.deleted ==> Walk(files, false, vroot, elems[..|elems| - 1]).Some?
    ensures LiveOk(files', vroot)
  {
    hide Load, WellNamed, Walk, IsLeaf, ChangedOnly;
    NewLeaf(files, files', vroot, elems, dir);
    OwnParentUnaffected(files, files', vroot, elems, dir);
    forall other: seq<string> | other != [] && IsPath(other)
      ensures LiveParent(files', vroot, other)
    {
      if elems < other {
        NothingBelow(files', vroot, elems, dir, other);
      } else if elems != other {
        OtherUnaffected(files, files', vroot, elems, dir, other);
        assert LiveParent(files, vroot, other);
      }
    }
  }

  lemma RootFollows(files: Files, files': Files, vroot: string, elems: seq<string>, dir: string)
    requires FileChange(files, files', vroot, elems, dir) && RootOk(files, vroot)
    ensures RootOk(files', vroot)
  {
    hide Load, WellNamed, Walk, IsLeaf;
    assert elems[|elems| - 1] in elems;
    assert elems[|elems| - 1] != "";
  }
}
