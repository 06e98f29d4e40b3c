/**
 CopyFS path translation (`lookup.c`): the walk that starts from the longest cached prefix and fills the cache
 as it goes.
 */
module Translation {
  import opened Bytes
  import opened Helper
  import opened MetadataFile
  import opened Versions
  import opened VersionStore
  import opened PathWalk
  import opened FileSteps
  import opened Saving
  import opened CacheHeap

  class Repository {
    const vroot: string
    const cache: Cache
    var files: Files

    /** The cache agrees with the files, whose live entries have live ancestors. */
    ghost predicate Valid()
      reads this, cache`Nodes, cache`Entries, cache.table, cache.Nodes
    {
      && cache.Valid()
      && CacheOk(files, vroot, cache.Entries)
      && LiveOk(files, vroot)
      && RootOk(files, vroot)
    }

    constructor (vroot: string, cache: Cache, files: Files)
      requires cache.Valid() && cache.Entries == map[] && LiveOk(files, vroot) && RootOk(files, vroot)
      ensures Valid() && this.vroot == vroot && this.cache == cache && this.files == files
    {
      this.vroot, this.cache, this.files := vroot, cache, files;
    }

    /** `cache_find_maximal_match`: the longest cached prefix of a path, the whole path first; -1 if there is none. */
    method FindMaximalMatch(elems: seq<string>) returns (count: int, metadata: Node?)
      requires cache.Valid()
      modifies cache.table, cache.Nodes`next, cache.Nodes`previous
      ensures cache.Valid() && -1 <= count <= |elems|
      ensures count < 0 <==> metadata == null
      ensures metadata != null ==> metadata in cache.Nodes && metadata.vfile == Key(elems[..count])
      ensures metadata != null ==>
                Key(elems[..count]) in cache.Entries && metadata.md == cache.Entries[Key(elems[..count])]
      ensures forall i | 0 <= i <= |elems| && i > count :: Key(elems[..i]) !in cache.Entries
    {
      hide Cache.Valid, Key, Composite;
      count := |elems|;
      while count >= 0
        invariant cache.Valid() && -1 <= count <= |elems|
        invariant forall i | 0 <= i <= |elems| && i > count :: Key(elems[..i]) !in cache.Entries
      {
        var path, length := BuildComposite([Dash, Arr(elems[..count])], "/");
        KeyComposite(elems[..count]);
        metadata := cache.Get(path);
        if metadata != null { return; }
        count := count - 1;
      }
      metadata := null;
    }

    /** Where the level-by-level part starts: a cached prefix below the root, or the root. */
    method Start(elems: seq<string>, ignoreDeleted: bool) returns (base: nat, path: Option<string>)
      requires Valid() && IsPath(elems)
      modifies cache.table, cache.Nodes`next, cache.Nodes`previous
      ensures Valid() && base <= |elems|
      ensures path == Walk(files, ignoreDeleted, vroot, elems[..base])
      ensures base > 0 ==> Key(elems[..base]) in cache.Entries
      ensures forall i | base < i <= |elems| :: Key(elems[..i]) !in cache.Entries
    {
      hide Cache.Valid, Key, CacheEntryOk, EntryOk, LiveParent, RootOk, Lookup;
      var count, metadata := FindMaximalMatch(elems);
      if count > 0 {
        base := count;
        ghost var prefix := elems[..base];
        PrefixIsPath(elems, base);
        CachedAnswers(prefix, ignoreDeleted);
        var version := FindVersion(metadata.md, ignoreDeleted, LATEST, LATEST);
        path := if version.None? then None else Some(metadata.md.versions[version.value].rfile);
      } else {
        base, path := 0, Some(vroot);
        assert elems[..0] == [];
      }
    }

    /** What is cached for a path answers for it. */
    lemma CachedAnswers(elems: seq<string>, ignoreDeleted: bool)
      requires elems != [] && IsPath(elems) && Key(elems) in cache.Entries
      requires CacheOk(files, vroot, cache.Entries) && LiveOk(files, vroot)
      ensures EntryOk(files, vroot, elems, cache.Entries[Key(elems)])
      ensures var md := cache.Entries[Key(elems)];
              Walk(files, ignoreDeleted, vroot, elems) ==
              match Lookup(md, ignoreDeleted, LATEST, LATEST)
              case None => None
              case Some(i) => Some(md.versions[i].rfile)
    {
      hide Walk, Key, EntryOk, LiveParent, Lookup;
      assert CacheEntryOk(files, vroot, Key(elems), cache.Entries[Key(elems)]);
      KeySplit(elems);
      EntryAnswers(files, vroot, elems, cache.Entries[Key(elems)], ignoreDeleted);
    }

    /** Caching the block of one more level. */
    method CacheLevel(elems: seq<string>, i: nat, dir: string, m: Metadata) returns (md: Metadata)
      requires Valid() && IsPath(elems) && i < |elems|
      requires Walk(files, true, vroot, elems[..i]) == Some(dir) && Load(files, dir, elems[i]) == Some(m)
      requires Key(elems[..i + 1]) !in cache.Entries
      modifies cache`itemCount, cache`Nodes, cache`Entries, cache.table, cache.Nodes`next, cache.Nodes`previous
      ensures Valid() && md == Fix(dir, m)
      ensures cache.Entries == old(cache.Entries)[Key(elems[..i + 1]) := md]
      ensures fresh(cache.Nodes - old(cache.Nodes)) && old(cache.Nodes) <= cache.Nodes
    {
      hide Cache.Valid, Key, Composite, LiveParent, RootOk, Lookup, Walk, Load;
      var versions := FixupPaths(dir, m.versions);
      md := m.(versions := versions);
      var vfile, length := BuildComposite([Dash, Arr(elems[..i + 1])], "/");
      KeyComposite(elems[..i + 1]);
      var node := new Node(vfile, md);
      LevelEntryOk(elems, i, dir, m);
      cache.Add(node);
      CacheOkExtended(files, vroot, old(cache.Entries), vfile, md);
    }

    /** `rcs_translate_path` below the root: finds what the walk without a cache finds, and only adds to the cache. */
    method TranslateElements(elems: seq<string>, ignoreDeleted: bool) returns (path: Option<string>)
      requires Valid() && IsPath(elems)
      modifies cache`itemCount, cache`Nodes, cache`Entries, cache.table, cache.Nodes`next, cache.Nodes`previous
      ensures Valid() && path == Walk(files, ignoreDeleted, vroot, elems)
      ensures fresh(cache.Nodes - old(cache.Nodes)) && old(cache.Nodes) <= cache.Nodes
      ensures Grown(old(cache.Entries), cache.Entries)
      ensures path.Some? && elems != [] ==> Key(elems) in cache.Entries
    {
      hide Cache.Valid, Key, Composite, LiveOk, CacheOk, RootOk, Lookup, Walk, Load, Fix, Fixup;
      var base, start := Start(elems, ignoreDeleted);
      path := start;
      if path.None? {
        DeadEnd(files, ignoreDeleted, vroot, elems, base);
        return;
      }
      var i := base;
      while i < |elems|
        invariant Valid() && base <= i <= |elems|
        invariant path.Some? && Walk(files, ignoreDeleted, vroot, elems[..i]) == path
        invariant fresh(cache.Nodes - old(cache.Nodes)) && old(cache.Nodes) <= cache.Nodes
        invariant Grown(old(cache.Entries), cache.Entries)
        invariant i > 0 ==> Key(elems[..i]) in cache.Entries
        invariant forall j | i < j <= |elems| :: Key(elems[..j]) !in cache.Entries
      {
        NextLevel(files, ignoreDeleted, vroot, elems, i, path.value);
        var metadata := Load(files, path.value, elems[i]);
        if metadata.None? {
          DeadEnd(files, ignoreDeleted, vroot, elems, i + 1);
          return None;
        }
        var version := FindVersion(metadata.value, ignoreDeleted, LATEST, LATEST);
        if version.None? {
          DeadEnd(files, ignoreDeleted, vroot, elems, i + 1);
          return None;
        }
        var md := CacheLevel(elems, i, path.value, metadata.value);
        FixedLookup(path.value, metadata.value, md, ignoreDeleted);
        path := Some(md.versions[version.value].rfile);
        forall j | i + 1 < j <= |elems|
          ensures Key(elems[..j]) !in cache.Entries
        {
          KeysDiffer(elems, i + 1, j);
        }
        i := i + 1;
      }
      assert elems[..i] == elems;
    }

    /** The root's block, from the cache or from disk; every version of the root is the version store itself. */
    method TranslateRoot(ignoreDeleted: bool) returns (path: string)
      requires Valid()
      modifies cache`itemCount, cache`Nodes, cache`Entries, cache.table, cache.Nodes`next, cache.Nodes`previous
      ensures Valid() && path == vroot
      ensures fresh(cache.Nodes - old(cache.Nodes)) && old(cache.Nodes) <= cache.Nodes
      ensures Grown(old(cache.Entries), cache.Entries) && Key([]) in cache.Entries
    {
      hide Cache.Valid, EntryOk, LiveOk, Load, Fix, Fixup, RootEntry;
      RootKey();
      var metadata := cache.Get("/");
      if metadata != null {
        assert CacheEntryOk(files, vroot, "/", cache.Entries["/"]);
        RootAnswers(metadata.md, ignoreDeleted);
        var version := FindVersion(metadata.md, ignoreDeleted, LATEST, LATEST);
        return metadata.md.versions[version.value].rfile;
      }
      var m := Load(files, vroot, "").value;
      var versions := AllAt(vroot, m.versions);
      var md := m.(versions := versions);
      RootAnswers(md, ignoreDeleted) by { AllAtRoot(vroot, md); }
      var node := new Node("/", md);
      cache.Add(node);
      assert CacheEntryOk(files, vroot, "/", md) by { AllAtRoot(vroot, md); }
      CacheOkExtended(files, vroot, old(cache.Entries), "/", md);
      path := vroot;
    }

    lemma RootAnswers(md: Metadata, ignoreDeleted: bool)
      requires RootEntry(vroot, md)
      ensures var i := Lookup(md, ignoreDeleted, LATEST, LATEST); i.Some? && md.versions[i.value].rfile == vroot
    {
    }

    /** `rcs_translate_path` */
    method TranslatePath(virtual: string, ignoreDeleted: bool) returns (path: Option<string>)
      requires Valid()
      modifies cache`itemCount, cache`Nodes, cache`Entries, cache.table, cache.Nodes`next, cache.Nodes`previous
      ensures Valid() && path == Walk(files, ignoreDeleted, vroot, Split(virtual, '/'))
      ensures fresh(cache.Nodes - old(cache.Nodes)) && old(cache.Nodes) <= cache.Nodes
      ensures Grown(old(cache.Entries), cache.Entries)
      ensures path.Some? && virtual == Key(Split(virtual, '/')) ==> virtual in cache.Entries
    {
      hide Cache.Valid, CacheOk, LiveOk, RootOk, Key, Split;
      if virtual == "/" {
        RootKey();
        var root := TranslateRoot(ignoreDeleted);
        return Some(root);
      }
      SplitItems(virtual, '/');
      var elements := SplitToArray(virtual, '/');
      path := TranslateElements(elements, ignoreDeleted);
      if elements == [] { RootKey(); }
    }

    /**
     `rcs_translate_to_metadata`: the cached block of a path the walk can reach, NULL for one it cannot. A path
     spelled with stray slashes is translated, but its block is not found.
     */
    method TranslateToMetadata(virtual: string, ignoreDeleted: bool) returns (metadata: Node?)
      requires Valid()
      modifies cache`itemCount, cache`Nodes, cache`Entries, cache.table, cache.Nodes`next, cache.Nodes`previous
      ensures Valid() && fresh(cache.Nodes - old(cache.Nodes)) && old(cache.Nodes) <= cache.Nodes
      ensures var elems := Split(virtual, '/');
              metadata != null <==> Walk(files, ignoreDeleted, vroot, elems).Some? && virtual == Key(elems)
      ensures metadata != null ==> metadata in cache.Nodes && metadata.vfile == virtual
      ensures metadata != null ==> CacheEntryOk(files, vroot, virtual, metadata.md)
    {
      hide Cache.Valid, LiveOk, RootOk, Key, Split, EntryOk, RootEntry;
      metadata := null;
      var path := TranslatePath(virtual, ignoreDeleted);
      if path.Some? {
        metadata := cache.Get(virtual);
        assert metadata != null ==> CacheEntryOk(files, vroot, virtual, cache.Entries[virtual]);
      }
    }

    // ----- writing a file's block back -----

    method WriteList(p: Place, md: Metadata)
      requires md.versions != []
      modifies this`files
      ensures files == SaveList(old(files), p, md)
    {
      var text := WriteMetadata(md.versions, md.deleted);
      files := Put(files, MetaPath(p.dir, p.name), text);
    }

    /** `write_default_file` */
    method WritePin(p: Place, md: Metadata)
      modifies this`files
      ensures files == SavePin(old(files), p, md)
    {
      match PinText(md.dflVid, md.dflSvid) {
        case None => files := Remove(files, PinPath(p.dir, p.name));
        case Some(text) => files := Put(files, PinPath(p.dir, p.name), text);
      }
    }

    method WriteFiles(p: Place, md: Metadata, c: Commit)
      requires (c.List? || c.ListAndPin?) ==> md.versions != []
      modifies this`files
      ensures files == WriteOut(old(files), p, md, c)
    {
      hide SaveList, SavePin;
      match c {
        case Nothing =>
        case List => WriteList(p, md);
        case PinOnly => WritePin(p, md);
        case ListAndPin =>
          WriteList(p, md);
          WritePin(p, md);
        case Forget => files := Remove(files, MetaPath(p.dir, p.name));
        case Cut(vs, deleted, n) =>
          var text := FileText(vs, deleted);
          files := Put(files, MetaPath(p.dir, p.name), text[..Min(n, |text|)]);
      }
    }

    /** The place of a file: its path, whose parent is live and translates to its directory. */
    ghost predicate FileAt(elems: seq<string>, p: Place)
      reads this
    {
      && elems != [] && IsPath(elems) && elems[|elems| - 1] == p.name && GoodName(p.name)
      && Walk(files, false, vroot, elems[..|elems| - 1]) == Some(p.dir)
      && IsLeaf(files, p.dir, p.name) && WellNamed(files)
    }

    /**
     A callback's change to the block it found in the cache, in memory and on disk, whatever step it takes and
     whatever becomes of the writing: the cache stays right if and only if memory and disk do not diverge. A file
     purged to its last version is dropped, with all that shares its bucket.
     */
    method CommitStep(metadata: Node, ghost elems: seq<string>, p: Place, s: State, op: Op)
      requires Valid() && FileAt(elems, p)
      requires metadata in cache.Nodes && metadata.vfile == Key(elems) && metadata.md == s.md
      requires s.md.versions != [] && Sound(p, s.md.versions) && NumbersLeft(s)
      modifies this`files, cache`Nodes, cache`Entries, cache.table, metadata`md
      ensures Valid() <==> !Diverges(old(files), p, s, op)
      ensures cache.Valid() && (FileAt(elems, p) <==> OwnNames(files, p))
      ensures !Diverges(old(files), p, s, op) || !CommitOf(p, s, op).Cut? || !old(files).memory.stale ==>
                FileAt(elems, p)
      ensures files == WriteOut(old(files), p, Step(p, s, op).md, CommitOf(p, s, op))
      ensures var md, was := Step(p, s, op).md, old(cache.Entries);
              cache.Entries == if md.versions != [] then was[metadata.vfile := md]
                               else map k | k in was && Hash(k) != Hash(metadata.vfile) :: was[k]
    {
      hide Cache.Valid, Key, Walk, Load, Step, CommitOf, WriteOut, Sound, LiveOk, RootOk, CacheOk, FileChange,
           WellNamed, IsLeaf, OnDisk, Settled, Fix, Hash, Diverges, MemoryMoves, Relinks, OwnNames;
      var md, c := Step(p, s, op).md, CommitOf(p, s, op);
      ghost var files0, entries0 := files, cache.Entries;
      cache.Known(metadata);
      CommitCovers(p, s, op);
      WalkIgnoring(files, vroot, elems[..|elems| - 1]);
      BlockOnDisk(elems, p, s.md);
      StepIsFileChange(files, vroot, elems, p, s, op);
      if md.versions == [] {
        ForgottenAgrees(files, p, s, op);
        cache.Drop(metadata.vfile);
      } else {
        cache.SetBlock(metadata, md);
      }
      WriteFiles(p, md, c);
      Followed(files0, elems, p, entries0, md);
    }

    /** `create_new_metadata`: the first version of a file goes into the cache, then to disk if it can be written. */
    method CommitFirst(elems: seq<string>, p: Place, s: State, op: Op)
      requires Valid() && FileAt(elems, p)
      requires s.md == UNKNOWN && Load(files, p.dir, p.name).None? && Step(p, s, op).md.versions != []
      modifies this`files, cache`itemCount, cache`Nodes, cache`Entries, cache.table, cache.Nodes`previous
      ensures Valid() <==> !Diverges(old(files), p, s, op)
      ensures cache.Valid() && (FileAt(elems, p) <==> OwnNames(files, p))
      ensures !Diverges(old(files), p, s, op) || !CommitOf(p, s, op).Cut? || !old(files).memory.stale ==>
                FileAt(elems, p)
      ensures files == WriteOut(old(files), p, Step(p, s, op).md, CommitOf(p, s, op))
      ensures cache.Entries == old(cache.Entries)[Key(elems) := Step(p, s, op).md]
    {
      hide Cache.Valid, Key, Walk, Load, Step, CommitOf, WriteOut, LiveOk, RootOk, CacheOk, FileChange, WellNamed,
           IsLeaf, OnDisk, Settled, Fix, Diverges, MemoryMoves, Relinks, OwnNames;
      var md, c := Step(p, s, op).md, CommitOf(p, s, op);
      ghost var files0, entries0 := files, cache.Entries;
      CommitCovers(p, s, op);
      UnknownOnDisk(p, s);
      NotCached(elems, p);
      WalkIgnoring(files, vroot, elems[..|elems| - 1]);
      StepIsFileChange(files, vroot, elems, p, s, op);
      var vfile, length := BuildComposite([Dash, Arr(elems)], "/");
      KeyComposite(elems);
      var node := new Node(vfile, md);
      cache.Add(node);
      WriteFiles(p, md, c);
      Followed(files0, elems, p, entries0, md);
    }

    lemma UnknownOnDisk(p: Place, s: State)
      requires s.md == UNKNOWN && Load(files, p.dir, p.name).None?
      ensures OnDisk(files, p, s.md) && Sound(p, s.md.versions) && NumbersLeft(s)
    {
    }

    /** What is not on disk is not in the cache. */
    lemma NotCached(elems: seq<string>, p: Place)
      requires FileAt(elems, p) && CacheOk(files, vroot, cache.Entries) && Load(files, p.dir, p.name).None?
      ensures Key(elems) !in cache.Entries
    {
      hide Key, Walk, Load, WellNamed, IsLeaf;
      if Key(elems) in cache.Entries {
        KeySplit(elems);
        assert CacheEntryOk(files, vroot, Key(elems), cache.Entries[Key(elems)]);
        WalkIgnoring(files, vroot, elems[..|elems| - 1]);
      }
    }

    lemma BlockOnDisk(elems: seq<string>, p: Place, md: Metadata)
      requires elems != [] && IsPath(elems) && elems[|elems| - 1] == p.name
      requires Walk(files, true, vroot, elems[..|elems| - 1]) == Some(p.dir)
      requires CacheOk(files, vroot, cache.Entries) && md.versions != []
      requires Key(elems) in cache.Entries && cache.Entries[Key(elems)] == md
      ensures OnDisk(files, p, md)
    {
      hide Key, Walk, Load, WellNamed, IsLeaf, Settled, Fix;
      KeySplit(elems);
      assert CacheEntryOk(files, vroot, Key(elems), md);
    }

    /** After the file's change the cache is right if and only if the file's own block is. */
    lemma Followed(files0: Files, elems: seq<string>, p: Place, entries0: map<string, Metadata>, md: Metadata)
      requires elems != [] && elems[|elems| - 1] == p.name && GoodName(p.name)
      requires FileChange(files0, files, vroot, elems, p.dir)
      requires CacheOk(files0, vroot, entries0) && LiveOk(files0, vroot) && RootOk(files0, vroot)
      requires Walk(files0, false, vroot, elems[..|elems| - 1]) == Some(p.dir)
      requires md.versions == [] ==> OnDisk(files, p, md)
      requires OnDisk(files, p, md) ==> WellNamed(files)
      requires if md.versions != [] then cache.Entries == entries0[Key(elems) := md]
               else Key(elems) !in cache.Entries
                    && forall k | k in cache.Entries :: k in entries0 && cache.Entries[k] == entries0[k]
      ensures CacheOk(files, vroot, cache.Entries) && LiveOk(files, vroot) <==> OnDisk(files, p, md)
      ensures RootOk(files, vroot) && (FileAt(elems, p) <==> WellNamed(files))
    {
      hide Walk, Load, WellNamed, IsLeaf, LiveOk, RootOk, CacheOk, EntriesFollow, ChangedOnly, OnDisk, Key;
      if WellNamed(files) { LiveFollows(files0, files, vroot, elems, p.dir); }
      RootFollows(files0, files, vroot, elems, p.dir);
      NewLeaf(files0, files, vroot, elems, p.dir);
      OwnParentUnaffected(files0, files, vroot, elems, p.dir);
      if OnDisk(files, p, md) {
        EntriesFollowed(files, elems, p, entries0, cache.Entries, md);
        CacheFollows(files0, files, vroot, elems, p.dir, entries0, cache.Entries);
      } else if CacheOk(files, vroot, cache.Entries) {
        BlockOnDisk(elems, p, md);
      }
    }

    lemma LevelEntryOk(elems: seq<string>, i: nat, dir: string, m: Metadata)
      requires IsPath(elems) && i < |elems|
      requires Walk(files, true, vroot, elems[..i]) == Some(dir) && Load(files, dir, elems[i]) == Some(m)
      ensures CacheEntryOk(files, vroot, Key(elems[..i + 1]), Fix(dir, m))
    {
      hide Key, Walk, Load;
      var prefix := elems[..i + 1];
      PrefixIsPath(elems, i + 1);
      KeySplit(prefix);
      assert prefix[..|prefix| - 1] == elems[..i] && prefix[|prefix| - 1] == elems[i];
    }
  }

  /** What was cached still is, unchanged. */
  predicate Grown(was: map<string, Metadata>, entries: map<string, Metadata>) {
    forall k | k in was :: k in entries && entries[k] == was[k]
  }

  /** No two prefixes of a path share a cache name. */
  lemma KeysDiffer(elems: seq<string>, i: nat, j: nat)
    requires IsPath(elems) && i < j <= |elems|
    ensures Key(elems[..i]) != Key(elems[..j])
  {
    hide Key;
    PrefixIsPath(elems, i);
    PrefixIsPath(elems, j);
    KeySplit(elems[..i]);
    KeySplit(elems[..j]);
    assert |elems[..i]| != |elems[..j]|;
  }

  lemma CacheOkExtended(files: Files, vroot: string, entries: map<string, Metadata>, k: string, md: Metadata)
    requires CacheOk(files, vroot, entries) && CacheEntryOk(files, vroot, k, md)
    ensures CacheOk(files, vroot, entries[k := md])
  {
  }

  lemma RootKey()
    ensures Key([]) == "/" && Split("/", '/') == []
  {
  }

  /** All versions of the root live in the one place. */
  method AllAt(vroot: string, vs: seq<Version>) returns (moved: seq<Version>)
    ensures |moved| == |vs| && forall i | 0 <= i < |vs| :: moved[i] == vs[i].(rfile := vroot)
  {
    moved := [];
    for i := 0 to |vs|
      invariant |moved| == i && forall j | 0 <= j < i :: moved[j] == vs[j].(rfile := vroot)
    {
      moved := moved + [vs[i].(rfile := vroot)];
    }
  }

  lemma AllAtRoot(vroot: string, md: Metadata)
    requires md.versions != [] && !md.deleted && forall i | 0 <= i < |md.versions| :: md.versions[i].rfile == vroot
    ensures RootEntry(vroot, md)
  {
  }

  /** The file's own entry is what was written, or gone with its bucket; no other has changed. */
  lemma EntriesFollowed(files: Files, elems: seq<string>, p: Place, was: map<string, Metadata>,
                        entries: map<string, Metadata>, md: Metadata)
    requires elems != [] && elems[|elems| - 1] == p.name && OnDisk(files, p, md)
    requires if md.versions != [] then entries == was[Key(elems) := md]
             else Key(elems) !in entries && forall k | k in entries :: k in was && entries[k] == was[k]
    ensures EntriesFollow(files, elems, p.dir, was, entries)
  {
  }

  /** `rcs_fixup_metadata_paths` */
  method FixupPaths(path: string, vs: seq<Version>) returns (fixed: seq<Version>)
    ensures fixed == Fixup(path, vs)
  {
    hide Composite;
    FixupAt(path, vs);
    fixed := [];
    for i := 0 to |vs|
      invariant fixed == Fixup(path, vs)[..i]
    {
      var rfile, length := BuildComposite([Str(path), Str(vs[i].rfile)], "/");
      TwoStrings(path, vs[i].rfile);
      fixed := fixed + [vs[i].(rfile := rfile)];
    }
  }

  lemma TwoStrings(a: string, b: string)
    ensures Composite([Str(a), Str(b)], "/") == a + "/" + b
  {
    var ps := [Str(a), Str(b)];
    assert ps[1..] == [Str(b)] && ps[1..][1..] == [];
    assert Composite(ps[1..], "/") == b + "" + "";
    assert Composite(ps, "/") == a + "/" + Composite(ps[1..], "/");
  }
}
