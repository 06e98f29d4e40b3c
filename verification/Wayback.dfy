/**
 One file under Wayback, with its log, as the callbacks of `wayback.c` change them in place, and the
 replay loops of `vutils.pl` that revert it.
 */
module Wayback {
  import opened Bytes
  import opened VersionLog
  import opened UndoLog

  // ----- revertfileentry -----

  lemma OverwriteInPieces(f: bytes, offset: nat, a: bytes, b: bytes)
    ensures Overwrite(Overwrite(f, offset, a), offset + |a|, b) == Overwrite(f, offset, a + b)
  {
    hide Overwrite;
    if b == [] {
      assert a + b == a;
    } else if a == [] {
      assert a + b == b;
    } else {
      var g := Overwrite(Overwrite(f, offset, a), offset + |a|, b);
      var h := Overwrite(f, offset, a + b);
      assert |g| == |h|;
      forall i | 0 <= i < |g|
        ensures g[i] == h[i]
      {
      }
    }
  }

  lemma NextPiece(f: bytes, position: nat, data: bytes, done: nat, written: nat)
    requires done + written <= |data|
    ensures Overwrite(Overwrite(f, position, data[..done]), position + done, data[done..done + written])
         == Overwrite(f, position, data[..done + written])
  {
    hide Overwrite;
    OverwriteInPieces(f, position, data[..done], data[done..done + written]);
    assert data[..done] + data[done..done + written] == data[..done + written];
  }

  /** The loop that writes a record's data in as many pieces as the system takes. */
  method WriteData(f: bytes, position: nat, data: bytes) returns (dst: bytes)
    ensures dst == Overwrite(f, position, data)
  {
    hide Overwrite;
    dst := f;
    var len, done := |data|, 0;
    assert data[..done] == [] && Overwrite(f, position, []) == f;
    while len > 0
      invariant 0 <= len && done + len == |data|
      invariant dst == Overwrite(f, position, data[..done])
    {
      assert 0 < len <= len;
      var written: nat :| 0 < written <= len;
      NextPiece(f, position, data, done, written);
      dst := Overwrite(dst, position + done, data[done..done + written]);
      done := done + written;
      len := len - written;
    }
    assert data[..done] == data;
  }

  /** `revertfileentry`: seek by words, write the data, truncate. */
  method RevertFileEntry(r: Record, file: Option<bytes>) returns (file': Option<bytes>)
    requires r.Complete()
    ensures file' == Some(Undo(r, Content(file)))
  {
    hide Overwrite, Resize;
    var position: nat := r.lo;
    var moreoffset := r.hi;
    while moreoffset > 0
      invariant 0 <= moreoffset <= r.hi
      invariant position == r.lo + (r.hi - moreoffset) * TWO32
    {
      position := position + TWO32;
      moreoffset := moreoffset - 1;
    }
    assert position == r.Offset();
    var dst := WriteData(Content(file), position, r.data);
    if r.extendsEof != 0 {
      dst := Resize(dst, r.lo + r.size);
    }
    file' := Some(dst);
  }

  // ----- which entries vrevert undoes -----

  /**
   There is a moment of the history since which exactly k records were logged; and at every such moment since which
   all operations are recoverable, the file held what it holds now, but for the zeros that undoing leaves.
   */
  ghost predicate Restored(start: Option<bytes>, history: seq<Op>, k: nat, file: Option<bytes>) {
    && (exists i: nat | i <= |history| :: LoggedAfter(start, history, i) == k)
    && (forall i: nat | i <= |history| && LoggedAfter(start, history, i) == k && RecoverableSince(start, history, i) ::
          IsContentOf(start, history, i, Content(file)))
  }

  class VersionedFile {
    var file: Option<bytes>
    var log: bytes
    ghost const start: Option<bytes>
    ghost var history: seq<Op>

    /** File and log are what the operations so far have made of them. */
    ghost predicate Valid()
      reads this
    {
      file == Run(start, history) && log == EncodeAll(Log(start, history))
    }

    constructor (start: Option<bytes>)
      ensures Valid() && file == start && this.start == start && history == []
    {
      file, log, history := start, [], [];
      this.start := start;
    }

    /** Recording one more operation in the history. */
    lemma Extend(h: seq<Op>, op: Op)
      ensures Run(start, h + [op]) == Apply(Run(start, h), op)
      ensures var rs := Logged(Run(start, h), op);
              EncodeAll(Log(start, h + [op])) == EncodeAll(Log(start, h)) + if rs == [] then [] else Encode(rs[0])
    {
      RunConcat(start, h, [op]);
      LogConcat(start, h, [op]);
      RunOne(Run(start, h), op);
      var f := Run(start, h);
      assert Log(f, [op]) == Logged(f, op);
      if Logged(f, op) == [] {
        assert Log(start, h) + [] == Log(start, h);
      } else {
        EncodeAllAppend(Log(start, h), Logged(f, op)[0]);
      }
    }

    /** `ver_write`: the result is the number of bytes stored, or -1. */
    method VerWrite(time: u32, buf: buffer, offset: off64) returns (res: int)
      requires Valid()
      modifies this
      ensures Valid() && -1 <= res <= |buf|
      ensures history == old(history) + [Write(time, offset, buf, Max(res, 0))]
      ensures old(file).None? ==> res == -1 && log == old(log)
      ensures old(file).Some? ==> log == old(log) + Encode(UndoRecord(time, old(file).value, |buf|, offset, false))
      ensures res >= 0 ==> file == Some(Overwrite(old(file).value, offset, buf[..res]))
      ensures res == -1 ==> file == old(file)
    {
      res := -1;
      ghost var was := file;
      if file.Some? {
        log := UpdateVersion(file.value, log, time, |buf|, offset, false);
        if * {
          assert 0 <= 0 <= |buf|;
          res :| 0 <= res <= |buf|;
          file := Some(Overwrite(file.value, offset, buf[..res]));
        } else {
          assert Overwrite(file.value, offset, buf[..0]) == file.value;
        }
      }
      Extend(history, Write(time, offset, buf, Max(res, 0)));
      history := history + [Write(time, offset, buf, Max(res, 0))];
    }

    /** `ver_truncate` */
    method VerTruncate(time: u32, length: off64) returns (res: int)
      requires Valid()
      modifies this
      ensures Valid() && (res == 0 || res == -1)
      ensures history == old(history) + [Truncate(time, length, res == 0)]
      ensures old(file).None? ==> res == -1 && log == old(log)
      ensures old(file).Some? ==> log == old(log) + Encode(UndoRecord(time, old(file).value, 0, length, true))
      ensures res == 0 ==> file == Some(Resize(old(file).value, length))
      ensures res == -1 ==> file == old(file)
    {
      res := -1;
      if file.Some? {
        log := UpdateVersion(file.value, log, time, 0, length, true);
        if * {
          file, res := Some(Resize(file.value, length)), 0;
        }
      }
      Extend(history, Truncate(time, length, res == 0));
      history := history + [Truncate(time, length, res == 0)];
    }

    /** `ver_unlink` on a regular file */
    method VerUnlink(time: u32) returns (res: int)
      requires Valid()
      modifies this
      ensures Valid() && (res == 0 || res == -1)
      ensures history == old(history) + [Unlink(time, res == 0)]
      ensures old(file).None? ==> res == -1 && log == old(log)
      ensures old(file).Some? ==> log == old(log) + Encode(UndoRecord(time, old(file).value, 0, 0, true))
      ensures res == 0 ==> file == None
      ensures res == -1 ==> file == old(file)
    {
      res := -1;
      if file.Some? {
        log := UpdateVersion(file.value, log, time, 0, 0, true);
        if * {
          file, res := None, 0;
        }
      }
      Extend(history, Unlink(time, res == 0));
      history := history + [Unlink(time, res == 0)];
    }

    /** `ver_mknod`: an existing file is left alone. */
    method VerMknod() returns (res: int)
      requires Valid()
      modifies this
      ensures Valid() && history == old(history) + [Mknod]
      ensures log == old(log)
      ensures old(file).None? ==> res == 0 && file == Some([])
      ensures old(file).Some? ==> res == -1 && file == old(file)
    {
      Extend(history, Mknod);
      if file.Some? {
        res := -1;
      } else {
        file, res := Some([]), 0;
      }
      history := history + [Mknod];
    }

    /**
     `vrevert` on the stored file: reads the log back, picks the entries and undoes the `k` newest, newest first. `-n`
     counts them, 0 meaning all; with `-d` they are those from the first one that is not older than the date. The log
     is not touched.
     */
    method VRevert(number: int, since: Option<int>) returns (ghost k: nat)
      requires Valid()
      modifies this`file
      ensures k <= |Log(start, history)|
      ensures since.None? && number > 0 ==> k == Min(number, |Log(start, history)|)
      ensures since.None? && number == 0 ==> k == |Log(start, history)|
      ensures since.None? && number < 0 ==> k == 0
      ensures since.Some? ==>
                var rs := Log(start, history);
                && (forall i | 0 <= i < |rs| - k :: rs[i].time < since.value)
                && (k > 0 ==> rs[|rs| - k].time >= since.value)
      ensures k == 0 ==> file == old(file)
      ensures k > 0 ==> file == Some(UndoAll(Newest(Log(start, history), k), Content(old(file))))
      ensures Restored(start, history, k, file)
      ensures since.None? && number == 0 && RunRecoverable(start, history) ==>
                exists z: nat :: Content(file) == Content(start) + Zeros(z)
    {
      hide Run, Log, UndoAll, EncodeAll, Parse, Restored, SinceDate, RunRecoverable, Newest;
      LogIsComplete(start, history);
      LogRoundTrip(Log(start, history));
      var rs := ReadFile(log);
      var n := number;
      if n == 0 { n := |rs|; }
      if since.Some? {
        n := CountSince(rs, since.value);
      }
      k := Min(Max(n, 0), |rs|);
      Restores(k);
      ReplayNone(rs, Content(file));
      file := Replay(rs, n, file);
      AllUndone(k, file);
    }

    /** Everything undone is the file as it was at the start. */
    lemma AllUndone(k: nat, now: Option<bytes>)
      requires Restored(start, history, k, now) && k <= |Log(start, history)|
      ensures k == |Log(start, history)| && RunRecoverable(start, history) ==>
                exists z: nat :: Content(now) == Content(start) + Zeros(z)
    {
      if k == |Log(start, history)| && RunRecoverable(start, history) {
        assert history[..0] == [] && history[0..] == history;
        assert LoggedAfter(start, history, 0) == k && RecoverableSince(start, history, 0);
        assert IsContentOf(start, history, 0, Content(now));
        assert Content(now) == Content(start) + Zeros(RunPadding(start, history));
      }
    }

    lemma ReplayNone(rs: seq<Record>, f: bytes)
      ensures UndoAll(Newest(rs, 0), f) == f
    {
    }

    /** The end of the proof of `VRevert`: the undone content is one the file had. */
    lemma Restores(k: nat)
      requires k <= |Log(start, history)|
      ensures forall f: Option<bytes> |
                Content(f) == UndoAll(Newest(Log(start, history), k), Content(Run(start, history))) ::
                Restored(start, history, k, f)
    {
      hide Run, Log, UndoAll, IsContentOf, RecoverableSince, LoggedAfter;
      var m := RevertRestores(start, history, k);
      forall i: nat | i <= |history| && LoggedAfter(start, history, i) == k && RecoverableSince(start, history, i)
        ensures IsContentOf(start, history, i, UndoAll(Newest(Log(start, history), k), Content(Run(start, history))))
      {
        RevertRestoresAt(start, history, i);
      }
    }
  }

  lemma {:induction false} LogIsComplete(file: Option<bytes>, ops: seq<Op>)
    ensures forall r | r in Log(file, ops) :: r.Complete()
    decreases |ops|
  {
    if ops != [] {
      LogIsComplete(Apply(file, ops[0]), ops[1..]);
    }
  }

  /** The loop that turns a date into a number of entries. */
  method CountSince(rs: seq<Record>, date: int) returns (number: nat)
    ensures number == SinceDate(rs, date)
  {
    number := 0;
    for i := 0 to |rs|
      invariant number == 0
      invariant SinceDate(rs, date) == SinceDate(rs[i..], date)
    {
      if rs[i].time >= date {
        return |rs| - i;
      }
      assert rs[i..][1..] == rs[i + 1..];
    }
  }

  /** The replay loop: the newest `n` entries, or all of them if there are fewer, by decreasing index. */
  method Replay(rs: seq<Record>, n: int, file: Option<bytes>) returns (file': Option<bytes>)
    requires forall r | r in rs :: r.Complete()
    ensures var k := Min(Max(n, 0), |rs|);
            file' == if k == 0 then file else Some(UndoAll(Newest(rs, k), Content(file)))
  {
    file' := file;
    ghost var k := Min(Max(n, 0), |rs|);
    ghost var todo := Newest(rs, k);
    var i := |rs| - 1;
    while i >= |rs| - n
      invariant |rs| - k - 1 <= i < |rs| && |todo| == i + 1 - (|rs| - k)
      invariant todo <= Newest(rs, k)
      invariant UndoAll(todo, Content(file')) == UndoAll(Newest(rs, k), Content(file))
      invariant if i == |rs| - 1 then file' == file else file'.Some?
    {
      if i < 0 { break; }
      assert todo[|todo| - 1] == rs[i];
      file' := RevertFileEntry(rs[i], file');
      todo := todo[..|todo| - 1];
      i := i - 1;
    }
    assert todo == [];
  }

  // ----- reverting through the mounted file system -----

  lemma RunOne(file: Option<bytes>, op: Op)
    ensures Run(file, [op]) == Apply(file, op)
  {
  }

  /** One of the writes a record's data is passed on in. */
  datatype Piece = Piece(time: u32, data: buffer)

  function Joined(pieces: seq<Piece>): bytes {
    if pieces == [] then [] else pieces[0].data + Joined(pieces[1..])
  }

  /** The data arrives in these pieces, at positions that fit an `off_t`. */
  predicate Arrives(r: Record, pieces: seq<Piece>) {
    r.Complete() && Joined(pieces) == r.data && r.Offset() + |r.data| < 0x8000_0000_0000_0000
  }

  function PieceOps(offset: nat, pieces: seq<Piece>): seq<Op>
    requires offset + |Joined(pieces)| < 0x8000_0000_0000_0000
    decreases |pieces|
  {
    if pieces == [] then []
    else
      [Write(pieces[0].time, offset, pieces[0].data, |pieces[0].data|)]
      + PieceOps(offset + |pieces[0].data|, pieces[1..])
  }

  lemma {:induction false} PiecesWrite(f: bytes, offset: nat, pieces: seq<Piece>)
    requires offset + |Joined(pieces)| < 0x8000_0000_0000_0000
    ensures Run(Some(f), PieceOps(offset, pieces)) == Some(Overwrite(f, offset, Joined(pieces)))
    decreases |pieces|
  {
    hide Overwrite;
    if pieces != [] {
      var data := pieces[0].data;
      var op := Write(pieces[0].time, offset, data, |data|);
      assert data[..|data|] == data;
      assert Apply(Some(f), op) == Some(Overwrite(f, offset, data));
      RunConcat(Some(f), [op], PieceOps(offset + |data|, pieces[1..]));
      RunOne(Some(f), op);
      PiecesWrite(Overwrite(f, offset, data), offset + |data|, pieces[1..]);
      OverwriteInPieces(f, offset, data, Joined(pieces[1..]));
    }
  }

  /** The operations Wayback sees when `revertfileentry` works on a mounted file. */
  function RevertOps(file: Option<bytes>, r: Record, pieces: seq<Piece>, time: u32): seq<Op>
    requires Arrives(r, pieces)
  {
    (if file.None? then [Mknod] else [])
    + PieceOps(r.Offset(), pieces)
    + (if r.extendsEof != 0 then [Truncate(time, r.lo + r.size, true)] else [])
  }

  lemma RevertOpsUndo(file: Option<bytes>, r: Record, pieces: seq<Piece>, time: u32)
    requires Arrives(r, pieces)
    ensures Run(file, RevertOps(file, r, pieces, time)) == Some(Undo(r, Content(file)))
  {
    hide Overwrite;
    var a := if file.None? then [Mknod] else [];
    var b := PieceOps(r.Offset(), pieces);
    var c := if r.extendsEof != 0 then [Truncate(time, r.lo + r.size, true)] else [];
    RunConcat(file, a + b, c);
    RunConcat(file, a, b);
    assert Run(file, a) == Some(Content(file)) by { if file.None? { RunOne(file, Mknod); } }
    PiecesWrite(Content(file), r.Offset(), pieces);
    if c != [] { RunOne(Run(Run(file, a), b), c[0]); }
  }

  /** Every record's data arrives in some pieces. */
  predicate AllArrive(rs: seq<Record>, cuts: seq<seq<Piece>>) {
    |cuts| == |rs| && forall i | 0 <= i < |rs| :: Arrives(rs[i], cuts[i])
  }

  function RevertAllOps(file: Option<bytes>, rs: seq<Record>, cuts: seq<seq<Piece>>, time: u32): seq<Op>
    requires AllArrive(rs, cuts)
    decreases |rs|
  {
    if rs == [] then []
    else
      var n := |rs| - 1;
      RevertOps(file, rs[n], cuts[n], time) + RevertAllOps(Some(Undo(rs[n], Content(file))), rs[..n], cuts[..n], time)
  }

  /**
   Reverting a mounted file has the same effect on the content, whatever writes the data is passed on in, and
   since those writes are logged too, the revert can itself be undone.
   */
  lemma {:induction false} RevertCanBeReverted(file: Option<bytes>, rs: seq<Record>, cuts: seq<seq<Piece>>, time: u32)
    requires AllArrive(rs, cuts)
    ensures var ops := RevertAllOps(file, rs, cuts, time);
            && Content(Run(file, ops)) == UndoAll(rs, Content(file))
            && (RunRecoverable(file, ops) ==>
                  UndoAll(Log(file, ops), UndoAll(rs, Content(file))) == Content(file) + Zeros(RunPadding(file, ops)))
    decreases |rs|
  {
    hide RevertOps, Undo, Arrives;
    var ops := RevertAllOps(file, rs, cuts, time);
    if rs != [] {
      var n := |rs| - 1;
      var next := Some(Undo(rs[n], Content(file)));
      RevertOpsUndo(file, rs[n], cuts[n], time);
      RevertCanBeReverted(next, rs[..n], cuts[..n], time);
      RunConcat(file, RevertOps(file, rs[n], cuts[n], time), RevertAllOps(next, rs[..n], cuts[..n], time));
    }
    if RunRecoverable(file, ops) {
      UndoRun(file, ops);
    }
  }
}
