/**
 CopyFS version lists (`structs.h`, `lookup.c`): newest first, searched with an early exit.
 */
module Versions {
  import opened Bytes

  type int32 = x: int | -0x8000_0000 <= x < 0x8000_0000

  const LATEST: int32 := -1

  datatype Version = Version(vid: u32, svid: u32, mode: u32, uid: u32, gid: u32, rfile: string)

  /** What `metadata_t` says about one virtual file; `dflVid` and `dflSvid` are its pin. */
  datatype Metadata = Metadata(versions: seq<Version>, deleted: bool, dflVid: int32, dflSvid: int32, timestamp: int)

  /** `(unsigned)x` */
  function Unsigned(x: int32): u32 {
    if x < 0 then x + TWO32 else x
  }

  /** `(int)x`, which is also what `%i` prints of an unsigned number. */
  function Signed(x: u32): int32 {
    if x < 0x8000_0000 then x else x - TWO32
  }

  /** The version answers to `vid.svid`; a subversion of LATEST means any. */
  predicate Matches(v: Version, vid: int32, svid: int32) {
    v.vid == Unsigned(vid) && (svid == LATEST || v.svid == Unsigned(svid))
  }

  // ----- searching -----

  /** The exhaustive search: the first version that answers to `vid.svid`. */
  function FirstMatch(vs: seq<Version>, vid: int32, svid: int32): (i: Option<nat>)
    ensures i.Some? ==> i.value < |vs| && Matches(vs[i.value], vid, svid)
    ensures i.Some? ==> forall j | 0 <= j < i.value :: !Matches(vs[j], vid, svid)
    ensures i.None? ==> forall j | 0 <= j < |vs| :: !Matches(vs[j], vid, svid)
  {
    if vs == [] then None
    else if Matches(vs[0], vid, svid) then Some(0)
    else
      match FirstMatch(vs[1..], vid, svid)
      case None => None
      case Some(i) => Some(i + 1)
  }

  /** Where a walk from `i` stops that goes on while versions are newer than `vid`. */
  function SkipNewer(vs: seq<Version>, vid: u32, i: nat): (j: nat)
    requires i <= |vs|
    ensures i <= j <= |vs| && (forall k | i <= k < j :: vs[k].vid > vid) && (j < |vs| ==> vs[j].vid <= vid)
    decreases |vs| - i
  {
    if i < |vs| && vs[i].vid > vid then SkipNewer(vs, vid, i + 1) else i
  }

  /** The same within the block of one version, by subversion. */
  function SkipNewerSub(vs: seq<Version>, vid: u32, svid: u32, i: nat): (j: nat)
    requires i <= |vs|
    ensures i <= j <= |vs| && (forall k | i <= k < j :: vs[k].vid == vid && vs[k].svid > svid)
    ensures j < |vs| ==> vs[j].vid != vid || vs[j].svid <= svid
    decreases |vs| - i
  {
    if i < |vs| && vs[i].vid == vid && vs[i].svid > svid then SkipNewerSub(vs, vid, svid, i + 1) else i
  }

  /** The search that stops at the first version not newer than the one asked for. */
  function EarlyExit(vs: seq<Version>, vid: int32, svid: int32): (i: Option<nat>)
    ensures i.Some? ==> i.value < |vs|
  {
    var i := SkipNewer(vs, Unsigned(vid), 0);
    if i == |vs| || vs[i].vid != Unsigned(vid) then None
    else if svid == LATEST then Some(i)
    else
      var j := SkipNewerSub(vs, Unsigned(vid), Unsigned(svid), i);
      if j == |vs| || !Matches(vs[j], vid, svid) then None else Some(j)
  }

  function Head(vs: seq<Version>): Option<nat> {
    if vs == [] then None else Some(0)
  }

  /** The version `vid.svid` of a file, or the visible one for LATEST; None where the code returns NULL. */
  function Lookup(md: Metadata, ignoreDeleted: bool, vid: int32, svid: int32): (i: Option<nat>)
    ensures i.Some? ==> i.value < |md.versions|
    ensures vid == LATEST && md.versions != [] ==> (i.None? <==> md.deleted && !ignoreDeleted)
  {
    if vid == LATEST && md.deleted && !ignoreDeleted then None
    else if vid == LATEST && md.dflVid == LATEST then Head(md.versions)
    else
      var found := if vid == LATEST then EarlyExit(md.versions, md.dflVid, md.dflSvid)
                   else EarlyExit(md.versions, vid, svid);
      if found.None? && md.dflVid != LATEST then Head(md.versions) else found
  }

  /** The two walks of `rcs_find_version`: down to the version, then down to the subversion. */
  method Search(vs: seq<Version>, vid: int32, svid: int32) returns (found: Option<nat>)
    ensures found == EarlyExit(vs, vid, svid)
  {
    var version := 0;
    while version < |vs| && vs[version].vid > Unsigned(vid)
      invariant 0 <= version <= |vs|
      invariant SkipNewer(vs, Unsigned(vid), version) == SkipNewer(vs, Unsigned(vid), 0)
    {
      version := version + 1;
    }
    if version == |vs| || vs[version].vid != Unsigned(vid) { return None; }
    if svid == LATEST { return Some(version); }
    ghost var block := version;
    while version < |vs| && vs[version].vid == Unsigned(vid) && vs[version].svid > Unsigned(svid)
      invariant block <= version <= |vs|
      invariant SkipNewerSub(vs, Unsigned(vid), Unsigned(svid), version) ==
                SkipNewerSub(vs, Unsigned(vid), Unsigned(svid), block)
    {
      version := version + 1;
    }
    if version == |vs| || vs[version].vid != Unsigned(vid) || vs[version].svid != Unsigned(svid) { return None; }
    found := Some(version);
  }

  /** `rcs_find_version` */
  method FindVersion(md: Metadata, ignoreDeleted: bool, vid: int32, svid: int32) returns (found: Option<nat>)
    ensures found == Lookup(md, ignoreDeleted, vid, svid)
  {
    hide EarlyExit;
    var vid', svid' := vid, svid;
    if vid == LATEST {
      if md.deleted && !ignoreDeleted { return None; }
      if md.dflVid == LATEST { return Head(md.versions); }
      vid', svid' := md.dflVid, md.dflSvid;
    }
    found := Search(md.versions, vid', svid');
    if found.None? && md.dflVid != LATEST { found := Head(md.versions); }
  }

  /** The check made before a pin is accepted: a linear scan that stops at the first version that will do. */
  method PinCheck(vs: seq<Version>, vid: int32, svid: int32) returns (found: Option<nat>)
    ensures found == if vid == LATEST then Head(vs) else FirstMatch(vs, vid, svid)
  {
    var i := 0;
    while i < |vs|
      invariant 0 <= i <= |vs|
      invariant vid == LATEST ==> i == 0
      invariant forall j | 0 <= j < i :: !Matches(vs[j], vid, svid)
    {
      if vid == LATEST { return Some(i); }
      if vs[i].vid == Unsigned(vid) && svid == LATEST { return Some(i); }
      if vs[i].vid == Unsigned(vid) && vs[i].svid == Unsigned(svid) { return Some(i); }
      i := i + 1;
    }
    found := None;
  }

  // ----- order -----

  predicate VidsDescend(vs: seq<Version>) {
    forall i, j | 0 <= i < j < |vs| :: vs[i].vid >= vs[j].vid
  }

  predicate Newer(a: Version, b: Version) {
    a.vid > b.vid || (a.vid == b.vid && a.svid > b.svid)
  }

  predicate Ordered(vs: seq<Version>) {
    forall i, j | 0 <= i < j < |vs| :: Newer(vs[i], vs[j])
  }

  const MAX_U32: u32 := 0xFFFF_FFFF

  /**
   What the early exit needs: version numbers descend, and within a version no subversion comes before a larger one,
   unless the larger one is the number that reads as LATEST.
   */
  predicate Searchable(vs: seq<Version>) {
    VidsDescend(vs)
    && forall i, j | 0 <= i < j < |vs| && vs[i].vid == vs[j].vid :: vs[i].svid >= vs[j].svid || vs[j].svid == MAX_U32
  }

  /** In such a list the early exit never misses: it finds what the exhaustive search finds. */
  lemma SearchableFinds(vs: seq<Version>, vid: int32, svid: int32)
    requires Searchable(vs)
    ensures EarlyExit(vs, vid, svid) == FirstMatch(vs, vid, svid)
  {
    var m := FirstMatch(vs, vid, svid);
    var i := SkipNewer(vs, Unsigned(vid), 0);
    if m.Some? {
      assert i <= m.value && vs[i].vid == Unsigned(vid);
      if svid != LATEST {
        var j := SkipNewerSub(vs, Unsigned(vid), Unsigned(svid), i);
        assert j <= m.value;
        assert Unsigned(svid) != MAX_U32;
        assert j == m.value;
      }
    }
  }

  /** In an ordered list the early exit never misses. */
  lemma EarlyExitIsExhaustive(vs: seq<Version>, vid: int32, svid: int32)
    requires Ordered(vs)
    ensures EarlyExit(vs, vid, svid) == FirstMatch(vs, vid, svid)
  {
    SearchableFinds(vs, vid, svid);
  }

  /** Every search by early exit finds what an exhaustive one finds. */
  ghost predicate NeverMisses(vs: seq<Version>) {
    forall vid: int32, svid: int32 :: EarlyExit(vs, vid, svid) == FirstMatch(vs, vid, svid)
  }

  /**
   A version that is not newer than the head may be put before it all the same: it has the head's numbers, or the
   head's subversion is the number that reads as LATEST and no other lies in between.
   */
  predicate HidesNone(v: Version, vs: seq<Version>)
    requires vs != []
  {
    v.vid == vs[0].vid
    && (v.svid == vs[0].svid
        || (vs[0].svid == MAX_U32 && (|vs| == 1 || vs[1].vid != v.vid || vs[1].svid <= v.svid)))
  }

  /**
   With one more version in front of an ordered list the early exit never misses, if and only if it is newer or
   hides none.
   */
  lemma PrependedNeverMisses(v: Version, vs: seq<Version>)
    requires Ordered(vs) && vs != []
    ensures NeverMisses([v] + vs) <==> Newer(v, vs[0]) || HidesNone(v, vs)
  {
    var ws := [v] + vs;
    if Newer(v, vs[0]) || HidesNone(v, vs) {
      PrependedSearchable(v, vs);
      forall vid: int32, svid: int32
        ensures EarlyExit(ws, vid, svid) == FirstMatch(ws, vid, svid)
      {
        SearchableFinds(ws, vid, svid);
      }
    } else {
      var k := if v.vid == vs[0].vid && vs[0].svid == MAX_U32 then 1 else 0;
      HiddenByFirst(v, vs, k);
    }
  }

  lemma PrependedSearchable(v: Version, vs: seq<Version>)
    requires Ordered(vs) && vs != [] && (Newer(v, vs[0]) || HidesNone(v, vs))
    ensures Searchable([v] + vs)
  {
    var ws := [v] + vs;
    forall i, j | 0 <= i < j < |ws|
      ensures ws[i].vid >= ws[j].vid
      ensures ws[i].vid == ws[j].vid ==> ws[i].svid >= ws[j].svid || ws[j].svid == MAX_U32
    {
      assert ws[j] == vs[j - 1];
      if i > 0 {
        assert ws[i] == vs[i - 1] && Newer(vs[i - 1], vs[j - 1]);
      } else {
        assert j == 1 || (Newer(vs[0], vs[j - 1]) && (j == 2 || Newer(vs[1], vs[j - 1])));
      }
    }
  }

  /** A version with larger numbers behind the first one is missed. */
  lemma HiddenByFirst(v: Version, vs: seq<Version>, k: nat)
    requires k < |vs| && Newer(vs[k], v) && Ordered(vs)
    requires k == 0 || (k == 1 && vs[0].vid == v.vid && vs[1].vid == v.vid)
    requires v.vid == vs[k].vid ==> vs[k].svid != MAX_U32
    ensures !NeverMisses([v] + vs)
  {
    var ws := [v] + vs;
    var vid := Signed(vs[k].vid);
    var svid := if v.vid == vs[k].vid then Signed(vs[k].svid) else LATEST;
    assert Matches(ws[k + 1], vid, svid);
    assert !Matches(ws[0], vid, svid);
    assert SkipNewer(ws, Unsigned(vid), 0) == 0;
    assert EarlyExit(ws, vid, svid) == None != FirstMatch(ws, vid, svid);
  }

  /** Descending version numbers are enough when any subversion will do. */
  lemma EarlyExitOfLatestSub(vs: seq<Version>, vid: int32)
    requires VidsDescend(vs)
    ensures EarlyExit(vs, vid, LATEST) == FirstMatch(vs, vid, LATEST)
    ensures match EarlyExit(vs, vid, LATEST)
            case None => forall j | 0 <= j < |vs| :: vs[j].vid != Unsigned(vid)
            case Some(i) => vs[i].vid == Unsigned(vid) && forall j | 0 <= j < i :: vs[j].vid != Unsigned(vid)
  {
    var m := FirstMatch(vs, vid, LATEST);
    var i := SkipNewer(vs, Unsigned(vid), 0);
    if m.Some? {
      assert i <= m.value && vs[i].vid == Unsigned(vid);
    }
  }

  /** The visible version of a pinned file is the one the pin names, and the head exactly when there is none such. */
  lemma PinnedLookup(md: Metadata, ignoreDeleted: bool)
    requires Ordered(md.versions) && md.dflVid != LATEST && (!md.deleted || ignoreDeleted)
    ensures var pinned := FirstMatch(md.versions, md.dflVid, md.dflSvid);
            Lookup(md, ignoreDeleted, LATEST, LATEST) == if pinned.Some? then pinned else Head(md.versions)
  {
    EarlyExitIsExhaustive(md.versions, md.dflVid, md.dflSvid);
  }

  /** A version asked for by number is the first that answers to it; a pinned file shows its head if there is none. */
  lemma LookupByNumber(md: Metadata, ignoreDeleted: bool, vid: int32, svid: int32)
    requires Ordered(md.versions) && vid != LATEST
    ensures var found := FirstMatch(md.versions, vid, svid);
            Lookup(md, ignoreDeleted, vid, svid) ==
            if found.None? && md.dflVid != LATEST then Head(md.versions) else found
  {
    EarlyExitIsExhaustive(md.versions, vid, svid);
  }

  /** Without the order the early exit can miss a version that is there. */
  lemma EarlyExitNeedsOrder(v: Version)
    ensures var vs := [v.(vid := 3, svid := 1), v.(vid := 3, svid := 2)];
            VidsDescend(vs) && EarlyExit(vs, 3, 2) == None && FirstMatch(vs, 3, 2) == Some(1)
  {
  }
}
