/**
 Wayback's per-file undo log: the record `ver_updateversion` appends before every operation,
 the bytes it is written as, and the reader of those bytes in `vutils.pl`.
 */
module VersionLog {
  import opened Bytes

  /** One log entry, as the reader unpacks it: the offset comes as two 32-bit words. */
  datatype Record = Record(time: u32, lo: u32, hi: u32, size: u32, extendsEof: byte, data: bytes) {

    /** Where the repeated seeks of the reader end up. */
    function Offset(): nat {
      hi * TWO32 + lo
    }

    predicate Complete() {
      |data| == size
    }
  }

  const HEADER_SIZE: nat := 17

  function Encode(r: Record): (b: bytes)
    ensures |b| == HEADER_SIZE + |r.data|
  {
    Le32(r.time) + Le32(r.lo) + Le32(r.hi) + Le32(r.size) + [r.extendsEof] + r.data
  }

  function EncodeAll(rs: seq<Record>): bytes {
    if rs == [] then [] else Encode(rs[0]) + EncodeAll(rs[1..])
  }

  lemma {:induction false} EncodeAllAppend(rs: seq<Record>, r: Record)
    ensures EncodeAll(rs + [r]) == EncodeAll(rs) + Encode(r)
  {
    if rs == [] {
      assert EncodeAll([]) == [];
    } else {
      assert (rs + [r])[1..] == rs[1..] + [r];
      EncodeAllAppend(rs[1..], r);
    }
  }

  // ----- what one record holds -----

  /** The bytes of `f` from `offset` on; none past the end. */
  function BytesLeft(f: bytes, offset: nat): nat {
    if offset <= |f| then |f| - offset else 0
  }

  /**
   The record an operation on content `f` must leave behind: `request` bytes at `offset` for a write,
   everything from `offset` on for a truncate or an unlink. The size is a 32-bit `size_t`.
   */
  function UndoRecord(time: u32, f: bytes, request: u32, offset: off64, truncate: bool): (r: Record)
    ensures r.Offset() == offset && r.time == time && r.Complete()
    ensures r.size > 0 ==> offset + r.size <= |f|
    ensures r.data == if r.size == 0 then [] else f[offset..offset + r.size]
    ensures !truncate ==> r.size == Min(request, BytesLeft(f, offset))
    ensures truncate ==> r.size == BytesLeft(f, offset) % TWO32
    ensures r.extendsEof == if truncate || request > BytesLeft(f, offset) then 1 else 0
  {
    var left := BytesLeft(f, offset);
    var size := if truncate then left % TWO32 else Min(request, left);
    Record(time, offset % TWO32, offset / TWO32, size,
           if truncate || request > left then 1 else 0,
           if size == 0 then [] else f[offset..offset + size])
  }

  // ----- ver_updateversion -----

  const CHUNK: nat := 16384

  /** The loop that finds out how many bytes the operation will destroy and whether it passes the end. */
  method ScanOldBytes(f: bytes, request: u32, offset: off64, truncate: bool)
    returns (size: u32, extendsEof: byte)
    ensures !truncate ==> size == Min(request, BytesLeft(f, offset))
    ensures truncate ==> size == BytesLeft(f, offset) % TWO32
    ensures extendsEof == if truncate || request > BytesLeft(f, offset) then 1 else 0
  {
    size, extendsEof := request, 0;
    var tempsize := if truncate then CHUNK else request;
    var tempoffset: nat := offset;
    while tempsize > 0
      invariant 0 <= tempsize
      invariant offset <= tempoffset <= Max(offset, |f|)
      invariant extendsEof == 0 ==> size == request
      invariant extendsEof == 0 ==> tempsize == if truncate then CHUNK else request - (tempoffset - offset)
      invariant extendsEof != 0 ==> extendsEof == 1 && tempsize == 0 && tempoffset == Max(offset, |f|)
      invariant extendsEof != 0 ==> size == BytesLeft(f, offset) % TWO32
      invariant extendsEof != 0 && !truncate ==> request > BytesLeft(f, offset)
      decreases if tempsize > 0 then 1 + Max(offset, |f|) - tempoffset else 0
    {
      var got := PRead(f, if tempsize > CHUNK then CHUNK else tempsize, tempoffset);
      if !truncate { tempsize := tempsize - |got|; }
      tempoffset := tempoffset + |got|;
      if |got| == 0 {
        extendsEof := 1;
        size := (tempoffset - offset) % TWO32;
        tempsize := 0;
      }
    }
  }

  /** The loop that appends the old bytes to the log, one buffer at a time. */
  method CopyOldBytes(f: bytes, log: bytes, size: nat, offset: nat) returns (log': bytes)
    requires size <= BytesLeft(f, offset)
    ensures log' == log + if size == 0 then [] else f[offset..offset + size]
  {
    log' := log;
    var left, at := size, offset;
    while left > 0
      invariant 0 <= left && at + left == offset + size
      invariant log' == log + if size == 0 then [] else f[offset..at]
    {
      var got := PRead(f, if left > CHUNK then CHUNK else left, at);
      assert f[offset..at] + f[at..at + |got|] == f[offset..at + |got|];
      log' := log' + got;
      left := left - |got|;
      at := at + |got|;
    }
  }

  /** The header as the four `memcpy`s lay it out. */
  lemma HeaderOf(r: Record, offset: off64)
    requires r.lo == offset % TWO32 && r.hi == offset / TWO32
    ensures Le32(r.time) + Le64(offset) + Le32(r.size) + [r.extendsEof] + r.data == Encode(r)
  {
    hide Le32, Le64;
    Le64IsTwoWords(offset);
    assert Le32(r.time) + (Le32(r.lo) + Le32(r.hi)) == Le32(r.time) + Le32(r.lo) + Le32(r.hi);
  }

  /** Where the numbers of a record lie in its bytes. */
  lemma RecordLayout(r: Record)
    ensures var b := Encode(r);
            && b[..4] == Le32(r.time) && b[4..8] == Le32(r.lo) && b[8..12] == Le32(r.hi) && b[12..16] == Le32(r.size)
            && b[16] == r.extendsEof && b[17..] == r.data
  {
    hide Le32;
  }

  /** `ver_updateversion` on a file that exists: the log it leaves. */
  method UpdateVersion(f: bytes, log: bytes, time: u32, request: u32, offset: off64, truncate: bool)
    returns (log': bytes)
    ensures log' == log + Encode(UndoRecord(time, f, request, offset, truncate))
  {
    hide Le32, Le64, Encode;
    var size, extendsEof := ScanOldBytes(f, request, offset, truncate);
    var header := Le32(time) + Le64(offset) + Le32(size) + [extendsEof];
    log' := CopyOldBytes(f, log + header, size, offset);
    ghost var r := UndoRecord(time, f, request, offset, truncate);
    HeaderOf(r, offset);
    assert log + header + r.data == log + (header + r.data);
  }

  // ----- readfile -----

  /**
   The `i`-th value that `unpack "IIIIC"` gives. Where a word is missing, the `C` takes a byte of what is left in its
   place; a value that is missing altogether counts as 0.
   */
  function Item(h: bytes, i: nat): u32
    requires i < 4
  {
    if 4 * i + 4 <= |h| then FromLe32(h[4 * i..]) else if 4 * i < |h| then h[4 * i] else 0
  }

  /**
   The record at the start of what is left of a log, and how much of the log it takes up. A header cut short makes a
   record of what is there, the last record may lack part of its data; data missing altogether end the log.
   */
  function Next(b: bytes): (r: Option<(Record, nat)>)
    ensures r.Some? ==> 0 < r.value.1 <= |b|
  {
    if b == [] then None
    else
      var n := Min(HEADER_SIZE, |b|);
      var header, rest := b[..n], b[n..];
      var size := Item(header, 3);
      if size > 0 && rest == [] then None
      else
        var data := rest[..Min(size, |rest|)];
        var flag := if n == HEADER_SIZE then b[16] else 0;
        Some((Record(Item(header, 0), Item(header, 1), Item(header, 2), size, flag, data), n + |data|))
  }

  function Parse(b: bytes): seq<Record> {
    match Next(b)
    case None => []
    case Some((r, used)) => [r] + Parse(b[used..])
  }

  /** One turn of the reading loop, at position `pos` of the file. */
  method ReadEntry(b: bytes, pos: nat) returns (entry: Option<Record>, pos': nat)
    requires pos < |b|
    ensures Next(b[pos..]) == if entry.None? then None else Some((entry.value, pos' - pos))
    ensures pos <= pos' <= |b|
  {
    hide FromLe32, Item;
    ghost var s := b[pos..];
    pos' := Min(pos + HEADER_SIZE, |b|);
    var header := b[pos..pos'];
    assert header == s[..pos' - pos] && s[pos' - pos..] == b[pos'..];
    var size := Item(header, 3);
    var data := [];
    if size > 0 {
      if pos' == |b| { return None, pos'; }
      data := b[pos'..][..Min(size, |b| - pos')];
      pos' := pos' + |data|;
    }
    var flag := if |header| == HEADER_SIZE then header[16] else 0;
    entry := Some(Record(Item(header, 0), Item(header, 1), Item(header, 2), size, flag, data));
  }

  /** `readfile`: the arrays it fills, one entry per record. */
  method ReadFile(b: bytes) returns (rs: seq<Record>)
    ensures rs == Parse(b)
  {
    hide Next;
    rs := [];
    var pos := 0;
    while pos < |b|
      invariant 0 <= pos <= |b|
      invariant rs + Parse(b[pos..]) == Parse(b)
    {
      var entry, next := ReadEntry(b, pos);
      if entry.None? { break; }
      assert b[next..] == b[pos..][next - pos..];
      rs, pos := rs + [entry.value], next;
    }
    if pos == |b| { ParseEnd(b[pos..]); }
  }

  lemma ParseEnd(b: bytes)
    requires b == []
    ensures Parse(b) == []
  {
  }

  /** Where the fields of an encoded record lie. */
  lemma Fields(r: Record, tail: bytes)
    ensures var b := Encode(r) + tail;
            && FromLe32(b) == r.time && FromLe32(b[4..]) == r.lo && FromLe32(b[8..]) == r.hi
            && FromLe32(b[12..]) == r.size && b[16] == r.extendsEof && b[HEADER_SIZE..] == r.data + tail
  {
    hide Le32, FromLe32;
    var b := Encode(r) + tail;
    var a4 := [r.extendsEof] + (r.data + tail);
    var a3 := Le32(r.size) + a4;
    var a2 := Le32(r.hi) + a3;
    var a1 := Le32(r.lo) + a2;
    assert b == Le32(r.time) + a1;
    assert b[4..] == a1 && b[8..] == a2 && b[12..] == a3 && b[16..] == a4;
    Le32RoundTrip(r.time, a1);
    Le32RoundTrip(r.lo, a2);
    Le32RoundTrip(r.hi, a3);
    Le32RoundTrip(r.size, a4);
    assert b[16] == b[16..][0];
  }

  lemma DecodeOne(r: Record, tail: bytes)
    requires r.Complete()
    ensures Parse(Encode(r) + tail) == [r] + Parse(tail)
  {
    hide Encode, FromLe32;
    Fields(r, tail);
    var b := Encode(r) + tail;
    var h := b[..HEADER_SIZE];
    HeaderItems(b);
    assert b[HEADER_SIZE..][..r.size] == r.data;
    assert b[HEADER_SIZE + |r.data|..] == b[HEADER_SIZE..][|r.data|..] == tail;
  }

  lemma HeaderItems(b: bytes)
    requires |b| >= HEADER_SIZE
    ensures var h := b[..HEADER_SIZE];
            && Item(h, 0) == FromLe32(b) && Item(h, 1) == FromLe32(b[4..])
            && Item(h, 2) == FromLe32(b[8..]) && Item(h, 3) == FromLe32(b[12..])
  {
  }

  /** Reading back the concatenated bytes of any records yields exactly those records. */
  lemma {:induction false} LogRoundTrip(rs: seq<Record>)
    requires forall r | r in rs :: r.Complete()
    ensures Parse(EncodeAll(rs)) == rs
  {
    if rs == [] {
    } else {
      LogRoundTrip(rs[1..]);
      DecodeOne(rs[0], EncodeAll(rs[1..]));
    }
  }

  // ----- a log cut short -----

  lemma {:induction false} ParseAfter(rs: seq<Record>, tail: bytes)
    requires forall r | r in rs :: r.Complete()
    ensures Parse(EncodeAll(rs) + tail) == rs + Parse(tail)
  {
    hide Encode, Parse;
    if rs == [] {
      assert EncodeAll(rs) + tail == tail;
    } else {
      ParseAfter(rs[1..], tail);
      DecodeOne(rs[0], EncodeAll(rs[1..]) + tail);
      assert EncodeAll(rs) + tail == Encode(rs[0]) + (EncodeAll(rs[1..]) + tail);
      assert [rs[0]] + (rs[1..] + Parse(tail)) == rs + Parse(tail);
    }
  }

  /**
   A log whose last record was written in part gives all records before it, and at most one more: with all its
   numbers and part of its data if its header is there, and nothing if no data is. Of a header cut short something is
   made, too, unless what is taken for the size is not 0.
   */
  lemma TornLog(rs: seq<Record>, r: Record, n: nat)
    requires (forall q | q in rs :: q.Complete()) && r.Complete() && n < |Encode(r)|
    ensures var tail := Encode(r)[..n];
            var last := Parse(tail);
            && Parse(EncodeAll(rs) + tail) == rs + last
            && if n == 0 || n == HEADER_SIZE || (n < HEADER_SIZE && Item(tail, 3) > 0) then last == []
               else
                 && |last| == 1 && (n > HEADER_SIZE ==> last[0] == r.(data := r.data[..n - HEADER_SIZE]))
                 && (n < HEADER_SIZE ==> last[0].size == 0 && last[0].data == [] && last[0].extendsEof == 0)
                 && (n >= 4 ==> last[0].time == r.time)
                 && (4 < n < 8 ==> last[0].lo == tail[4]) && (n >= 8 ==> last[0].lo == r.lo)
                 && (8 < n < 12 ==> last[0].hi == tail[8]) && (n >= 12 ==> last[0].hi == r.hi)
  {
    hide Encode, FromLe32, Next, Item;
    TornItems(r, n);
    var tail := Encode(r)[..n];
    ParseAfter(rs, tail);
    if n >= HEADER_SIZE { TornRecord(r, n); } else { TornHeader(tail); }
    if Next(tail).Some? { ParseEnd(tail[n..]); }
  }

  lemma TornHeader(b: bytes)
    requires |b| < HEADER_SIZE
    ensures Next(b).None? <==> b == [] || Item(b, 3) > 0
    ensures Next(b).Some? ==>
              Next(b).value == (Record(Item(b, 0), Item(b, 1), Item(b, 2), 0, 0, []), |b|)
  {
    hide FromLe32, Item;
    assert b[..|b|] == b;
  }

  /** What is unpacked from the beginning of a header. */
  lemma TornItems(r: Record, n: nat)
    requires n < |Encode(r)|
    ensures var tail := Encode(r)[..n];
            && (n >= 4 ==> Item(tail, 0) == r.time)
            && (4 < n < 8 ==> Item(tail, 1) == tail[4]) && (n >= 8 ==> Item(tail, 1) == r.lo)
            && (8 < n < 12 ==> Item(tail, 2) == tail[8]) && (n >= 12 ==> Item(tail, 2) == r.hi)
  {
    hide Le32, FromLe32, Encode;
    var b, tail := Encode(r), Encode(r)[..n];
    RecordLayout(r);
    if n >= 4 { WordAt(r.time, tail); assert tail[0..] == tail && tail[..4] == b[..4]; }
    if n >= 8 { assert tail[4..][..4] == b[4..8]; WordAt(r.lo, tail[4..]); }
    if n >= 12 { assert tail[8..][..4] == b[8..12]; WordAt(r.hi, tail[8..]); }
  }

  lemma WordAt(x: u32, b: bytes)
    ensures |b| >= 4 && b[..4] == Le32(x) ==> FromLe32(b) == x
  {
    hide Le32, FromLe32;
    if |b| >= 4 && b[..4] == Le32(x) {
      assert b == Le32(x) + b[4..];
      Le32RoundTrip(x, b[4..]);
    }
  }

  lemma TornRecord(r: Record, n: nat)
    requires r.Complete() && HEADER_SIZE <= n < |Encode(r)|
    ensures Next(Encode(r)[..n]) == if n == HEADER_SIZE then None
                                    else Some((r.(data := r.data[..n - HEADER_SIZE]), n))
  {
    hide Encode, FromLe32, Item;
    var b, tail := Encode(r), Encode(r)[..n];
    HeaderItems(b);
    Fields(r, []);
    assert b + [] == b && r.data + [] == r.data;
    assert tail[..HEADER_SIZE] == b[..HEADER_SIZE];
    assert tail[HEADER_SIZE..] == b[HEADER_SIZE..][..n - HEADER_SIZE] == r.data[..n - HEADER_SIZE];
    assert r.size > n - HEADER_SIZE;
    assert tail[HEADER_SIZE..][..n - HEADER_SIZE] == tail[HEADER_SIZE..];
  }
}
