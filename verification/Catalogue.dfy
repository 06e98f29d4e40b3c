/**
 Wayback's directory catalogue: the entries `ver_updatedirectory` appends, the bytes they are
 written as, and the reader of those bytes in `vutils.pl`.
 */
module Catalogue {
  import opened Bytes
  import opened Text

  /** What a catalogue keeps of a `struct stat`. */
  datatype Stats = Stats(mode: u32, uid: u32, gid: u32, atime: u32, mtime: u32, ctime: u32)

  datatype Entry = Entry(time: u32, action: u32, stats: Option<Stats>, file1: bytes, file2: bytes)

  const VUD_CREATE: u32 := 1
  const VUD_RM: u32 := 2
  const VUD_MKDIR: u32 := 4
  const VUD_RMDIR: u32 := 5
  const VUD_RENAME: u32 := 8
  const VUD_CHMOD: u32 := 12
  const VUD_CHOWN: u32 := 13
  const VUD_UTIME: u32 := 14

  const STATS_SIZE: nat := 24
  const PREFIX_SIZE: nat := 12

  /** `S_ISLNK` */
  predicate IsLink(mode: u32) {
    mode / 0x1000 % 0x10 == 0xA
  }

  /** The reader's test for a link. `==` binds tighter than `&` there, so what it tests is the lowest mode bit. */
  predicate ReadsAsLink(mode: u32) {
    mode % 2 == 1
  }

  function EncodeStats(s: Stats): (b: bytes)
    ensures |b| == STATS_SIZE
  {
    Le32(s.mode) + Le32(s.uid) + Le32(s.gid) + Le32(s.atime) + Le32(s.mtime) + Le32(s.ctime)
  }

  /** A C string with its terminator. */
  function Terminated(name: bytes): bytes {
    name + [0]
  }

  // ----- names and paths -----

  const SLASH: byte := 47

  function LastSlash(path: bytes): int {
    LastIndex(path, SLASH)
  }

  /** `makerelative`: walks from slash to slash; what follows the last one is the name. */
  method MakeRelative(source: bytes) returns (needle: bytes)
    ensures needle == source[LastSlash(source) + 1..]
  {
    var from := 0;
    var i := 0;
    while i < |source|
      invariant 0 <= from <= i <= |source|
      invariant from > 0 ==> source[from - 1] == SLASH
      invariant forall j | from <= j < i :: source[j] != SLASH
    {
      if source[i] == SLASH { from := i + 1; }
      i := i + 1;
    }
    needle := source[from..];
  }

  /** `getdirectorycatalog`: no catalogue for a path without a slash before its last component. */
  method GetDirectoryCatalog(path: bytes, modifier: bytes) returns (catalog: Option<bytes>)
    requires path != []
    ensures var p := if path[|path| - 1] == SLASH then path[..|path| - 1] else path;
            catalog == if LastSlash(p) < 0 then None else Some(p[..LastSlash(p) + 1] + modifier)
  {
    var dir := path;
    if dir[|dir| - 1] == SLASH { dir := dir[..|dir| - 1]; }
    ghost var p := dir;
    while dir != [] && dir[|dir| - 1] != SLASH
      invariant dir <= p && LastSlash(dir) == LastSlash(p)
      decreases |dir|
    {
      dir := dir[..|dir| - 1];
    }
    assert dir == p[..|dir|];
    catalog := if dir == [] then None else Some(dir + modifier);
  }

  // ----- what an entry is written as -----

  predicate HasStats(action: u32) {
    action == VUD_RM || action == VUD_CHMOD || action == VUD_CHOWN || action == VUD_UTIME
  }

  predicate Known(action: u32) {
    HasStats(action) || action == VUD_CREATE || action == VUD_MKDIR || action == VUD_RMDIR || action == VUD_RENAME
  }

  predicate TwoNames(e: Entry)
    requires HasStats(e.action) ==> e.stats.Some?
  {
    e.action == VUD_RMDIR || e.action == VUD_RENAME || (e.action == VUD_RM && IsLink(e.stats.value.mode))
  }

  /** What `ver_updatedirectory` is called with: C strings, a stat block and a second name where they are due. */
  predicate WellFormed(e: Entry) {
    && Known(e.action)
    && (e.stats.Some? <==> HasStats(e.action))
    && 0 !in e.file1 && 0 !in e.file2
    && (!TwoNames(e) ==> e.file2 == [])
    && |e.file1| + |e.file2| < 0x1000_0000
  }

  function Payload(e: Entry): (b: bytes)
    requires WellFormed(e)
    ensures 0 < |b| < TWO32
  {
    (if e.stats.Some? then EncodeStats(e.stats.value) else [])
    + Terminated(e.file1)
    + (if TwoNames(e) then Terminated(e.file2) else [])
  }

  function Encode(e: Entry): bytes
    requires WellFormed(e)
  {
    Le32(e.time) + Le32(e.action) + Le32(|Payload(e)|) + Payload(e)
  }

  function EncodeAll(es: seq<Entry>): bytes
    requires forall e | e in es :: WellFormed(e)
  {
    if es == [] then [] else Encode(es[0]) + EncodeAll(es[1..])
  }

  /** `ver_updatedirectory`: the appends it makes to the catalogue, in order. */
  method UpdateDirectory(catalog: bytes, e: Entry) returns (catalog': bytes)
    requires WellFormed(e)
    ensures catalog' == catalog + Encode(e)
  {
    hide Le32, EncodeStats;
    var prefix := Le32(e.time) + Le32(e.action);
    var name1, name2 := Terminated(e.file1), Terminated(e.file2);
    catalog' := catalog + prefix;
    ghost var body;
    if e.action == VUD_CREATE || e.action == VUD_MKDIR {
      catalog' := catalog' + Le32(|name1|) + name1;
      body := Le32(|name1|) + name1;
      assert Payload(e) == name1;
    } else if e.action == VUD_RMDIR || e.action == VUD_RENAME {
      var ret := |name1| + |name2|;
      catalog' := catalog' + Le32(ret) + name1 + name2;
      body := Le32(ret) + (name1 + name2);
      assert Payload(e) == name1 + name2;
    } else {
      var buffer := EncodeStats(e.stats.value);
      if e.action == VUD_RM && IsLink(e.stats.value.mode) {
        var ret := |buffer| + |name1| + |name2|;
        catalog' := catalog' + Le32(ret) + buffer + name1 + name2;
        body := Le32(ret) + (buffer + name1 + name2);
      } else {
        var ret := |buffer| + |name1|;
        catalog' := catalog' + Le32(ret) + buffer + name1;
        body := Le32(ret) + (buffer + name1);
        assert Payload(e) == buffer + name1;
      }
    }
    assert catalog' == catalog + prefix + body;
    assert Encode(e) == prefix + body;
  }

  // ----- readdirectory -----

  /** `unpack "Z*"`: up to the first NUL, or everything. */
  function CString(b: bytes): (s: bytes)
    ensures |s| <= |b| && s == b[..|s|] && 0 !in s
    ensures |s| < |b| ==> b[|s|] == 0
  {
    if b == [] || b[0] == 0 then [] else [b[0]] + CString(b[1..])
  }

  /** What a second `Z*` of the same `unpack` sees. */
  function AfterCString(b: bytes): bytes {
    if |CString(b)| == |b| then [] else b[|CString(b)| + 1..]
  }

  /** The `i`-th value of `unpack "I…"`; one that is missing counts as 0. */
  function Word(b: bytes, i: nat): u32 {
    if 4 * i + 4 <= |b| then FromLe32(b[4 * i..]) else 0
  }

  function DecodeStats(b: bytes): Stats {
    Stats(Word(b, 0), Word(b, 1), Word(b, 2), Word(b, 3), Word(b, 4), Word(b, 5))
  }

  /** Where the names start: behind the words that are there. */
  function StatsEnd(b: bytes): (n: nat)
    ensures n <= |b|
  {
    if |b| >= STATS_SIZE then STATS_SIZE else |b| / 4 * 4
  }

  /** What the reader makes of one entry's data. */
  function DecodePayload(time: u32, action: u32, data: bytes): Option<Entry> {
    if HasStats(action) then
      if action != VUD_RM && |data| < STATS_SIZE then None
      else
        var stats := DecodeStats(data);
        var names := data[StatsEnd(data)..];
        var file2 := if action == VUD_RM && ReadsAsLink(stats.mode) then CString(AfterCString(names)) else [];
        Some(Entry(time, action, Some(stats), CString(names), file2))
    else
      var two := action == VUD_RMDIR || action == VUD_RENAME;
      if Known(action) then
        Some(Entry(time, action, None, CString(data), if two then CString(AfterCString(data)) else []))
      else Some(Entry(time, action, None, [], []))
  }

  /**
   The entry at the start of what is left of a catalogue, and how much of it the entry takes up. A prefix cut short
   or without any data behind it ends the catalogue; of an entry cut short something is made.
   */
  function Next(b: bytes): (e: Option<(Entry, nat)>)
    ensures e.Some? ==> PREFIX_SIZE < e.value.1 <= |b|
  {
    if |b| < PREFIX_SIZE then None
    else
      var rest := b[PREFIX_SIZE..];
      var data := rest[..Min(Word(b, 2), |rest|)];
      if data == [] then None
      else
        match DecodePayload(Word(b, 0), Word(b, 1), data)
        case None => None
        case Some(entry) => Some((entry, PREFIX_SIZE + |data|))
  }

  function Parse(b: bytes): seq<Entry> {
    match Next(b)
    case None => []
    case Some((entry, used)) => [entry] + Parse(b[used..])
  }

  /** `readdirectory` */
  method ReadDirectory(b: bytes) returns (es: seq<Entry>)
    ensures es == Parse(b)
  {
    hide Next;
    es := [];
    var pos := 0;
    while pos < |b|
      invariant 0 <= pos <= |b|
      invariant es + Parse(b[pos..]) == Parse(b)
    {
      var next := Next(b[pos..]);
      if next.None? { break; }
      var (entry, used) := next.value;
      assert b[pos..][used..] == b[pos + used..];
      es, pos := es + [entry], pos + used;
    }
  }

  // ----- round trip -----

  lemma {:induction false} CStringOf(name: bytes, rest: bytes)
    requires 0 !in name
    ensures CString(Terminated(name) + rest) == name && AfterCString(Terminated(name) + rest) == rest
  {
    var b := Terminated(name) + rest;
    if name == [] {
      assert b[0] == 0;
    } else {
      assert b[0] == name[0] && name[0] != 0;
      assert b[1..] == Terminated(name[1..]) + rest;
      CStringOf(name[1..], rest);
    }
    assert b[|name| + 1..] == rest;
  }

  lemma StatsRoundTrip(s: Stats, rest: bytes)
    ensures DecodeStats(EncodeStats(s) + rest) == s
  {
    hide Le32, FromLe32;
    var b := EncodeStats(s) + rest;
    var r5 := Le32(s.ctime) + rest;
    var r4 := Le32(s.mtime) + r5;
    var r3 := Le32(s.atime) + r4;
    var r2 := Le32(s.gid) + r3;
    var r1 := Le32(s.uid) + r2;
    assert b == Le32(s.mode) + r1 && b[0..] == b;
    assert b[4..] == r1 && b[8..] == r2 && b[12..] == r3 && b[16..] == r4 && b[20..] == r5;
    Le32RoundTrip(s.mode, r1);
    Le32RoundTrip(s.uid, r2);
    Le32RoundTrip(s.gid, r3);
    Le32RoundTrip(s.atime, r4);
    Le32RoundTrip(s.mtime, r5);
    Le32RoundTrip(s.ctime, rest);
  }

  /** A removed link's target is found again only through the lowest bit of its mode. */
  predicate Readable(e: Entry)
    requires WellFormed(e)
  {
    e.action == VUD_RM && IsLink(e.stats.value.mode) && e.file2 != [] ==> ReadsAsLink(e.stats.value.mode)
  }

  /** The data of an entry is read back as that entry, if and only if the entry is no link whose target gets lost. */
  lemma PayloadRoundTrip(e: Entry)
    requires WellFormed(e)
    ensures DecodePayload(e.time, e.action, Payload(e)) == Some(e) <==> Readable(e)
    ensures !Readable(e) ==> DecodePayload(e.time, e.action, Payload(e)) == Some(e.(file2 := []))
  {
    hide DecodeStats, EncodeStats, CString, AfterCString, Terminated, IsLink, ReadsAsLink;
    var last := if TwoNames(e) then Terminated(e.file2) else [];
    var names := Terminated(e.file1) + last;
    CStringOf(e.file1, last);
    if TwoNames(e) {
      CStringOf(e.file2, []);
      assert last + [] == last;
    }
    if e.stats.Some? {
      StatsRoundTrip(e.stats.value, names);
      assert Payload(e) == EncodeStats(e.stats.value) + names;
      assert Payload(e)[STATS_SIZE..] == names;
    } else {
      assert Payload(e) == [] + Terminated(e.file1) + last == names;
    }
  }

  lemma DecodeOne(e: Entry, rest: bytes)
    requires WellFormed(e) && Readable(e)
    ensures Parse(Encode(e) + rest) == [e] + Parse(rest)
  {
    hide DecodePayload, Payload, Le32, FromLe32;
    var b := Encode(e) + rest;
    var p := Payload(e);
    var r2 := Le32(|p|) + (p + rest);
    var r1 := Le32(e.action) + r2;
    assert b == Le32(e.time) + r1 && b[0..] == b && b[4..] == r1 && b[8..] == r2;
    Le32RoundTrip(e.time, r1);
    Le32RoundTrip(e.action, r2);
    Le32RoundTrip(|p|, p + rest);
    assert b[PREFIX_SIZE..] == p + rest && (p + rest)[..|p|] == p && b[PREFIX_SIZE + |p|..] == rest;
    PayloadRoundTrip(e);
  }

  /** Reading back the concatenated bytes of any entries yields exactly those entries. */
  lemma {:induction false} CatalogueRoundTrip(es: seq<Entry>)
    requires forall e | e in es :: WellFormed(e) && Readable(e)
    ensures Parse(EncodeAll(es)) == es
  {
    if es != [] {
      CatalogueRoundTrip(es[1..]);
      DecodeOne(es[0], EncodeAll(es[1..]));
    }
  }

  /** Where the numbers of an entry lie in its bytes. */
  lemma EntryLayout(e: Entry)
    requires WellFormed(e)
    ensures var b := Encode(e);
            && b[..4] == Le32(e.time) && b[4..8] == Le32(e.action) && b[8..12] == Le32(|b| - 12)
            && (e.stats.Some? ==>
                  var s := e.stats.value;
                  && |b| >= 36 && b[12..16] == Le32(s.mode) && b[16..20] == Le32(s.uid) && b[20..24] == Le32(s.gid)
                  && b[24..28] == Le32(s.atime) && b[28..32] == Le32(s.mtime) && b[32..36] == Le32(s.ctime))
  {
    hide Le32, WellFormed, EncodeStats, Terminated;
    var b, p := Encode(e), Payload(e);
    Words(Le32(e.time), Le32(e.action), Le32(|p|), p);
    if e.stats.Some? {
      StatsLayout(e.stats.value);
      assert |p| >= 24 && p[..24] == EncodeStats(e.stats.value);
      Inside(b, p, 12);
    }
  }

  lemma Words(t: bytes, a: bytes, n: bytes, p: bytes)
    requires |t| == |a| == |n| == 4
    ensures var b := t + a + n + p; b[..4] == t && b[4..8] == a && b[8..12] == n && b[12..] == p
  {
  }

  /** Six words in front of a part that starts at `k`. */
  lemma Inside(b: bytes, p: bytes, k: nat)
    requires k + 24 <= |b| && b[k..] == p
    ensures b[k..k + 4] == p[..24][..4] && b[k + 4..k + 8] == p[..24][4..8] && b[k + 8..k + 12] == p[..24][8..12]
    ensures b[k + 12..k + 16] == p[..24][12..16] && b[k + 16..k + 20] == p[..24][16..20]
    ensures b[k + 20..k + 24] == p[..24][20..24]
  {
  }

  lemma StatsLayout(s: Stats)
    ensures var b := EncodeStats(s);
            && b[..4] == Le32(s.mode) && b[4..8] == Le32(s.uid) && b[8..12] == Le32(s.gid)
            && b[12..16] == Le32(s.atime) && b[16..20] == Le32(s.mtime) && b[20..24] == Le32(s.ctime)
  {
    hide Le32;
  }

  // ----- a catalogue cut short -----

  lemma {:induction false} ParseAfter(es: seq<Entry>, tail: bytes)
    requires forall e | e in es :: WellFormed(e) && Readable(e)
    ensures Parse(EncodeAll(es) + tail) == es + Parse(tail)
  {
    hide Next, WellFormed, Readable, Encode;
    if es == [] {
      assert EncodeAll(es) + tail == tail;
    } else {
      ParseAfter(es[1..], tail);
      DecodeOne(es[0], EncodeAll(es[1..]) + tail);
      assert EncodeAll(es) + tail == Encode(es[0]) + (EncodeAll(es[1..]) + tail);
    }
  }

  /**
   A catalogue whose last entry was written in part gives all entries before it, and what can be made of the part of
   the data that is there, if any is.
   */
  lemma TornCatalogue(es: seq<Entry>, e: Entry, n: nat)
    requires (forall q | q in es :: WellFormed(q) && Readable(q)) && WellFormed(e) && n < |Encode(e)|
    ensures Parse(EncodeAll(es) + Encode(e)[..n]) == es +
            if n <= PREFIX_SIZE then []
            else
              match DecodePayload(e.time, e.action, Payload(e)[..n - PREFIX_SIZE])
              case None => []
              case Some(part) => [part]
  {
    hide Encode, DecodePayload, Payload, Next, WellFormed, Readable;
    var tail := Encode(e)[..n];
    ParseAfter(es, tail);
    TornEntry(e, n);
    if Next(tail).Some? { assert tail[n..] == [] && Parse([]) == [] by { NothingLeft([]); } }
  }

  lemma NothingLeft(b: bytes)
    requires b == []
    ensures Parse(b) == []
  {
  }

  lemma TornEntry(e: Entry, n: nat)
    requires WellFormed(e) && n < |Encode(e)|
    ensures Next(Encode(e)[..n]) ==
            if n <= PREFIX_SIZE then None
            else
              match DecodePayload(e.time, e.action, Payload(e)[..n - PREFIX_SIZE])
              case None => None
              case Some(part) => Some((part, n))
  {
    hide DecodePayload, Payload, Le32, FromLe32, WellFormed;
    var p, tail := Payload(e), Encode(e)[..n];
    if n > PREFIX_SIZE {
      var part := p[..n - PREFIX_SIZE];
      var r2 := Le32(|p|) + part;
      var r1 := Le32(e.action) + r2;
      assert tail == Le32(e.time) + r1 && tail[0..] == tail && tail[4..] == r1 && tail[8..] == r2;
      Le32RoundTrip(e.time, r1);
      Le32RoundTrip(e.action, r2);
      Le32RoundTrip(|p|, part);
      assert tail[PREFIX_SIZE..] == part && part[..|part|] == part;
    }
  }
}
