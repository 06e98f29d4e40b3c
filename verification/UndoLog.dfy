/**
 Wayback: operations on one file, the log they leave, and undoing that log newest entry first.
 The theorems say what content comes back, for every run of operations and every number of entries undone.
 */
module UndoLog {
  import opened Bytes
  import opened VersionLog

  /** A buffer whose length fits the 32-bit `size_t`. */
  type buffer = b: bytes | |b| < TWO32 witness []

  /**
   What a caller asks for, together with what the underlying file system let happen: `written` bytes
   reached the file (0 when the write failed), `ok` says that the truncate or unlink succeeded.
   */
  datatype Op =
    | Write(time: u32, offset: off64, buf: buffer, written: nat)
    | Truncate(time: u32, length: off64, ok: bool)
    | Unlink(time: u32, ok: bool)
    | Mknod

  /** No file reads as an empty one. */
  function Content(file: Option<bytes>): bytes {
    if file.Some? then file.value else []
  }

  /** What an operation other than mknod makes of a file that exists. */
  function Change(f: bytes, op: Op): Option<bytes>
    requires !op.Mknod?
  {
    match op
    case Write(_, offset, buf, written) => Some(Overwrite(f, offset, buf[..Min(written, |buf|)]))
    case Truncate(_, length, ok) => Some(if ok then Resize(f, length) else f)
    case Unlink(_, ok) => if ok then None else Some(f)
  }

  function Apply(file: Option<bytes>, op: Op): Option<bytes> {
    if op.Mknod? then Some(Content(file))
    else if file.None? then None
    else Change(file.value, op)
  }

  /** The records the operation appends before it touches the file: one, or none when there is no file. */
  function Logged(file: Option<bytes>, op: Op): seq<Record> {
    if file.None? then []
    else
      match op
      case Write(time, offset, buf, _) => [UndoRecord(time, file.value, |buf|, offset, false)]
      case Truncate(time, length, _) => [UndoRecord(time, file.value, 0, length, true)]
      case Unlink(time, _) => [UndoRecord(time, file.value, 0, 0, true)]
      case Mknod => []
  }

  function Run(file: Option<bytes>, ops: seq<Op>): Option<bytes>
    decreases |ops|
  {
    if ops == [] then file else Run(Apply(file, ops[0]), ops[1..])
  }

  function Log(file: Option<bytes>, ops: seq<Op>): seq<Record>
    decreases |ops|
  {
    if ops == [] then [] else Logged(file, ops[0]) + Log(Apply(file, ops[0]), ops[1..])
  }

  /** What `revertfileentry` makes of content `f`. The truncate at the end uses the low offset word only. */
  function Undo(r: Record, f: bytes): bytes {
    var g := Overwrite(f, r.Offset(), r.data);
    if r.extendsEof != 0 then Resize(g, r.lo + r.size) else g
  }

  /** Undoing every record, the last one first. */
  function UndoAll(rs: seq<Record>, f: bytes): bytes {
    if rs == [] then f else UndoAll(rs[..|rs| - 1], Undo(rs[|rs| - 1], f))
  }

  // ----- one operation -----

  function Start(op: Op): off64 {
    match op
    case Write(_, offset, _, _) => offset
    case Truncate(_, length, _) => length
    case _ => 0
  }

  /** The operation asks for something at or past the end of an existing file, so its record is flagged. */
  predicate ReachesEof(file: Option<bytes>, op: Op) {
    file.Some? && !op.Mknod? && (op.Write? ==> op.buf != [] && Start(op) + |op.buf| > |file.value|)
  }

  /**
   The operation's record can bring the old bytes back. Only an operation that reaches the end of the file
   can fail to: its record stores a 32-bit size, and its undo truncates at the low offset word.
   */
  predicate Recoverable(file: Option<bytes>, op: Op) {
    ReachesEof(file, op) ==>
      var length := |file.value|;
      if Start(op) <= length then Start(op) < TWO32 && length - Start(op) < TWO32
      else length <= Start(op) % TWO32
  }

  /** Zero bytes that undoing `op` leaves behind the old content, when `after` of them followed the new one. */
  function Padding(file: Option<bytes>, op: Op, after: nat): nat
    requires Recoverable(file, op)
  {
    if !ReachesEof(file, op) then after
    else if Start(op) <= |file.value| then 0
    else Start(op) % TWO32 - |file.value|
  }

  /**
   Undoing the newest record brings back what the file held before, even if only part of the write, or
   nothing of the operation, took place, and even if zeros had been left behind the new content.
   */
  lemma UndoOne(file: Option<bytes>, op: Op, after: nat)
    requires Recoverable(file, op)
    ensures UndoAll(Logged(file, op), Content(Apply(file, op)) + Zeros(after))
         == Content(file) + Zeros(Padding(file, op, after))
  {
    if file.Some? && !op.Mknod? {
      var r := Logged(file, op)[0];
      var now := Content(Apply(file, op)) + Zeros(after);
      assert UndoAll([r], now) == Undo(r, now) by {
        assert [r][..0] == [];
      }
      UndoRecordExactly(file.value, r, op, now, after);
    }
  }

  lemma UndoRecordExactly(f: bytes, r: Record, op: Op, now: bytes, after: nat)
    requires !op.Mknod? && Logged(Some(f), op) == [r] && Recoverable(Some(f), op)
    requires now == Content(Change(f, op)) + Zeros(after)
    ensures Undo(r, now) == f + Zeros(Padding(Some(f), op, after))
  {
    hide Undo, Change, Overwrite, Resize;
    if !ReachesEof(Some(f), op) {
      assert r.extendsEof == 0;
      UndoInside(f, r, op, now, after);
    } else {
      assert r.extendsEof == 1 && r.lo == Start(op) % TWO32;
      UnchangedBefore(f, op, now, after);
      if Start(op) <= |f| {
        UndoToTheEnd(f, r, Start(op), now);
      } else {
        UndoPastTheEnd(f, r, Start(op), now);
      }
    }
  }

  lemma UnchangedBefore(f: bytes, op: Op, now: bytes, after: nat)
    requires !op.Mknod? && now == Content(Change(f, op)) + Zeros(after)
    ensures |now| >= Min(|f|, Start(op))
    ensures forall i | 0 <= i < Min(|now|, Start(op)) :: now[i] == if i < |f| then f[i] else 0
  {
  }

  lemma UndoInside(f: bytes, r: Record, op: Op, now: bytes, after: nat)
    requires !op.Mknod? && Logged(Some(f), op) == [r] && !ReachesEof(Some(f), op)
    requires now == Content(Change(f, op)) + Zeros(after)
    ensures Undo(r, now) == f + Zeros(after)
  {
    hide Overwrite, Zeros;
    if op.Write? && r.size > 0 {
      var stored := op.buf[..Min(op.written, |op.buf|)];
      assert r.size == |op.buf| && op.offset + |op.buf| <= |f|;
      PutBack(f, now, op.offset, |op.buf|, stored, after);
    } else {
      assert r.data == [] && Change(f, op) == Some(Overwrite(f, op.offset, []));
    }
  }

  /** Bytes stored inside a file are covered again by those that were there. */
  lemma PutBack(f: bytes, now: bytes, offset: nat, n: nat, stored: bytes, after: nat)
    requires |stored| <= n && offset + n <= |f| && now == Overwrite(f, offset, stored) + Zeros(after)
    ensures Overwrite(now, offset, f[offset..offset + n]) == f + Zeros(after)
  {
    hide Overwrite, Zeros;
    var g := Overwrite(f, offset, stored);
    var back := f[offset..offset + n];
    assert |g| == |f|;
    assert forall i | 0 <= i < n :: back[i] == f[offset + i];
    var h := Overwrite(now, offset, back);
    assert |h| == |f| + after;
    forall i | 0 <= i < |h|
      ensures h[i] == (f + Zeros(after))[i]
    {
    }
  }

  lemma UndoToTheEnd(f: bytes, r: Record, offset: nat, now: bytes)
    requires offset <= |f| && offset < TWO32 && |f| - offset < TWO32
    requires r.extendsEof != 0 && r.Offset() == r.lo == offset
    requires r.size == |f| - offset && r.data == f[offset..]
    requires |now| >= offset && now[..offset] == f[..offset]
    ensures Undo(r, now) == f
  {
  }

  lemma UndoPastTheEnd(f: bytes, r: Record, offset: nat, now: bytes)
    requires |f| <= offset % TWO32
    requires r.extendsEof != 0 && r.lo == offset % TWO32 && r.size == 0 && r.data == []
    requires forall i | 0 <= i < Min(|now|, offset) :: now[i] == if i < |f| then f[i] else 0
    requires |now| >= |f|
    ensures Undo(r, now) == f + Zeros(offset % TWO32 - |f|)
  {
  }

  /**
   The condition is exact: whatever zeros had been left behind the new content, the old content comes back,
   followed by nothing but zeros, if and only if it holds.
   */
  lemma RecoverableExactly(file: Option<bytes>, op: Op, after: nat)
    ensures Recoverable(file, op) <==>
            exists z: nat ::
              UndoAll(Logged(file, op), Content(Apply(file, op)) + Zeros(after)) == Content(file) + Zeros(z)
  {
    if Recoverable(file, op) {
      UndoOne(file, op, after);
    } else {
      var now := Content(Apply(file, op)) + Zeros(after);
      var r := Logged(file, op)[0];
      assert [r][..0] == [];
      assert UndoAll([r], now) == Undo(r, now);
      var left := BytesLeft(file.value, Start(op));
      assert left >= TWO32 ==> left % TWO32 < left;
      assert Start(op) >= TWO32 ==> Start(op) % TWO32 < Start(op);
      assert r.lo + r.size < |file.value|;
    }
  }

  /** Ten bytes, grown to 2^32 + 5: undoing that truncates at the low word of the length, and leaves five. */
  lemma GrownPastFourGigabytes(f: bytes, op: Op)
    requires |f| == 10 && op == Truncate(0, TWO32 + 5, true)
    ensures UndoAll(Logged(Some(f), op), Content(Apply(Some(f), op))) == f[..5]
    ensures !Recoverable(Some(f), op)
  {
    var r := Logged(Some(f), op)[0];
    var now := Content(Apply(Some(f), op));
    assert [r][..0] == [];
    assert UndoAll([r], now) == Undo(r, now);
    assert r.lo == 5 && r.size == 0 && r.data == [];
    assert Overwrite(now, r.Offset(), []) == now && Resize(now, 5) == f[..5];
  }

  /** Undoing the same record again changes nothing. */
  lemma UndoTwice(r: Record, f: bytes)
    requires r.Complete()
    ensures Undo(r, Undo(r, f)) == Undo(r, f)
  {
  }

  // ----- runs -----

  predicate RunRecoverable(file: Option<bytes>, ops: seq<Op>)
    decreases |ops|
  {
    ops == [] || (Recoverable(file, ops[0]) && RunRecoverable(Apply(file, ops[0]), ops[1..]))
  }

  /** Zero bytes left behind the old content by undoing a whole run. */
  function RunPadding(file: Option<bytes>, ops: seq<Op>): nat
    requires RunRecoverable(file, ops)
    decreases |ops|
  {
    if ops == [] then 0 else Padding(file, ops[0], RunPadding(Apply(file, ops[0]), ops[1..]))
  }

  /** Of the operations that reached the end of the file, the oldest did not start past it. */
  predicate OldestEofOpStartsInside(file: Option<bytes>, ops: seq<Op>)
    decreases |ops|
  {
    if ops == [] then true
    else if ReachesEof(file, ops[0]) then Start(ops[0]) % TWO32 <= |file.value|
    else OldestEofOpStartsInside(Apply(file, ops[0]), ops[1..])
  }

  lemma {:induction false} UndoAllConcat(a: seq<Record>, b: seq<Record>, f: bytes)
    ensures UndoAll(a + b, f) == UndoAll(a, UndoAll(b, f))
    decreases |b|
  {
    if b == [] {
      assert a + b == a;
    } else {
      assert (a + b)[..|a + b| - 1] == a + b[..|b| - 1];
      UndoAllConcat(a, b[..|b| - 1], Undo(b[|b| - 1], f));
    }
  }

  lemma {:induction false} UndoRun(file: Option<bytes>, ops: seq<Op>)
    requires RunRecoverable(file, ops)
    ensures UndoAll(Log(file, ops), Content(Run(file, ops))) == Content(file) + Zeros(RunPadding(file, ops))
    decreases |ops|
  {
    if ops == [] {
      assert Content(file) + Zeros(0) == Content(file);
    } else {
      var next := Apply(file, ops[0]);
      UndoRun(next, ops[1..]);
      UndoAllConcat(Logged(file, ops[0]), Log(next, ops[1..]), Content(Run(file, ops)));
      UndoOne(file, ops[0], RunPadding(next, ops[1..]));
    }
  }

  /** Undoing what was logged since the `i`-th moment gives what the file held then, followed by zeros only. */
  ghost predicate ComesBack(file: Option<bytes>, ops: seq<Op>, i: nat)
    requires i <= |ops|
  {
    exists z: nat ::
      UndoAll(Log(Run(file, ops[..i]), ops[i..]), Content(Run(file, ops))) == Content(Run(file, ops[..i])) + Zeros(z)
  }

  /** The moments after the first operation are those of the rest of the run. */
  lemma LaterMoment(file: Option<bytes>, ops: seq<Op>, i: nat)
    requires 0 < i <= |ops|
    ensures ComesBack(file, ops, i) <==> ComesBack(Apply(file, ops[0]), ops[1..], i - 1)
  {
    hide Apply, Logged, UndoAll;
    assert ops[..i][0] == ops[0] && ops[..i][1..] == ops[1..][..i - 1] && ops[i..] == ops[1..][i - 1..];
  }

  lemma FirstMoment(file: Option<bytes>, ops: seq<Op>, z: nat)
    requires UndoAll(Log(file, ops), Content(Run(file, ops))) == Content(file) + Zeros(z)
    ensures ComesBack(file, ops, 0)
  {
    assert ops[..0] == [] && ops[0..] == ops;
  }

  /** Every moment of a run comes back, if and only if every operation of the run is recoverable. */
  lemma {:induction false} RunRecoverableExactly(file: Option<bytes>, ops: seq<Op>)
    ensures RunRecoverable(file, ops) <==> forall i | 0 <= i <= |ops| :: ComesBack(file, ops, i)
    decreases |ops|
  {
    hide Apply, Logged, UndoAll, Recoverable, ComesBack;
    if ops == [] {
      UndoRun(file, ops);
      FirstMoment(file, ops, 0);
    } else {
      var next := Apply(file, ops[0]);
      RunRecoverableExactly(next, ops[1..]);
      forall i | 0 < i <= |ops|
        ensures ComesBack(file, ops, i) <==> ComesBack(next, ops[1..], i - 1)
      {
        LaterMoment(file, ops, i);
      }
      if RunRecoverable(next, ops[1..]) {
        StartComesBack(file, ops);
      } else {
        var j :| 0 <= j <= |ops[1..]| && !ComesBack(next, ops[1..], j);
        assert !ComesBack(file, ops, j + 1);
      }
    }
  }

  lemma StartComesBack(file: Option<bytes>, ops: seq<Op>)
    requires ops != [] && RunRecoverable(Apply(file, ops[0]), ops[1..])
    ensures Recoverable(file, ops[0]) <==> ComesBack(file, ops, 0)
  {
    hide Apply, Logged, UndoAll, Recoverable;
    var next := Apply(file, ops[0]);
    var after := RunPadding(next, ops[1..]);
    UndoRun(next, ops[1..]);
    UndoAllConcat(Logged(file, ops[0]), Log(next, ops[1..]), Content(Run(file, ops)));
    RecoverableExactly(file, ops[0], after);
    assert ops[..0] == [] && ops[0..] == ops;
    assert Run(file, ops[..0]) == file;
  }

  /** Undoing a whole run is exact if and only if the oldest operation that reached EOF did not start past it. */
  lemma {:induction false} UndoRunExactly(file: Option<bytes>, ops: seq<Op>)
    requires RunRecoverable(file, ops)
    ensures UndoAll(Log(file, ops), Content(Run(file, ops))) == Content(file)
       <==> OldestEofOpStartsInside(file, ops)
  {
    UndoRun(file, ops);
    assert |Content(file) + Zeros(RunPadding(file, ops))| == |Content(file)| + RunPadding(file, ops);
    assert Content(file) + Zeros(0) == Content(file);
    PaddingIsZero(file, ops);
  }

  lemma {:induction false} PaddingIsZero(file: Option<bytes>, ops: seq<Op>)
    requires RunRecoverable(file, ops)
    ensures RunPadding(file, ops) == 0 <==> OldestEofOpStartsInside(file, ops)
    decreases |ops|
  {
    if ops != [] && !ReachesEof(file, ops[0]) {
      PaddingIsZero(Apply(file, ops[0]), ops[1..]);
    }
  }

  // ----- the newest k records -----

  function Newest(rs: seq<Record>, k: nat): seq<Record>
    requires k <= |rs|
  {
    rs[|rs| - k..]
  }

  lemma {:induction false} RunConcat(file: Option<bytes>, a: seq<Op>, b: seq<Op>)
    ensures Run(file, a + b) == Run(Run(file, a), b)
    ensures RunRecoverable(file, a + b) <==> RunRecoverable(file, a) && RunRecoverable(Run(file, a), b)
    decreases |a|
  {
    if a == [] {
      assert a + b == b;
    } else {
      assert (a + b)[0] == a[0] && (a + b)[1..] == a[1..] + b;
      RunConcat(Apply(file, a[0]), a[1..], b);
    }
  }

  lemma {:induction false} LogConcat(file: Option<bytes>, a: seq<Op>, b: seq<Op>)
    ensures Log(file, a + b) == Log(file, a) + Log(Run(file, a), b)
    decreases |a|
  {
    hide Logged, Apply;
    if a == [] {
      assert a + b == b;
    } else {
      var next := Apply(file, a[0]);
      var here, rest, last := Logged(file, a[0]), Log(next, a[1..]), Log(Run(file, a), b);
      assert (a + b)[0] == a[0] && (a + b)[1..] == a[1..] + b;
      LogConcat(next, a[1..], b);
      assert Log(file, a + b) == here + (rest + last);
      assert Log(file, a) == here + rest;
      assert here + (rest + last) == (here + rest) + last;
    }
  }

  /** What was logged since a moment after the first operation. */
  lemma LoggedSince(file: Option<bytes>, ops: seq<Op>, j: nat)
    requires j < |ops|
    ensures Log(Run(file, ops[..j + 1]), ops[j + 1..]) ==
            Log(Run(Apply(file, ops[0]), ops[1..][..j]), ops[1..][j..])
  {
    hide Apply, Log;
    assert ops[..j + 1][0] == ops[0];
    assert ops[..j + 1][1..] == ops[1..][..j] && ops[j + 1..] == ops[1..][j..];
  }

  /** An operation logs one record at most. */
  lemma LogLength(file: Option<bytes>, ops: seq<Op>)
    ensures if ops == [] then Log(file, ops) == [] else |Log(file, ops)| <= |Log(Apply(file, ops[0]), ops[1..])| + 1
    ensures Run(file, []) == file
  {
    hide Apply;
  }

  /** For every k there is a moment since which exactly k records were logged. */
  lemma {:induction false} Moment(file: Option<bytes>, ops: seq<Op>, k: nat) returns (i: nat)
    requires k <= |Log(file, ops)|
    ensures i <= |ops| && |Log(Run(file, ops[..i]), ops[i..])| == k
    decreases |ops|
  {
    hide Apply, Run, Log;
    LogLength(file, ops);
    if k == |Log(file, ops)| {
      i := 0;
      assert ops[..0] == [] && ops[0..] == ops;
    } else {
      var j := Moment(Apply(file, ops[0]), ops[1..], k);
      i := j + 1;
      LoggedSince(file, ops, j);
    }
  }

  /** How many records were logged since the `i`-th moment of a run. */
  function LoggedAfter(file: Option<bytes>, ops: seq<Op>, i: nat): nat
    requires i <= |ops|
  {
    |Log(Run(file, ops[..i]), ops[i..])|
  }

  /** The operations since the `i`-th moment are all recoverable; what came before does not matter. */
  predicate RecoverableSince(file: Option<bytes>, ops: seq<Op>, i: nat)
    requires i <= |ops|
  {
    RunRecoverable(Run(file, ops[..i]), ops[i..])
  }

  /**
   The content is that of the `i`-th moment followed by the zeros that undoing leaves: none if and only if the
   oldest operation since then that reached the end of the file did not start past it.
   */
  predicate IsContentOf(file: Option<bytes>, ops: seq<Op>, i: nat, now: bytes)
    requires i <= |ops| && RecoverableSince(file, ops, i)
  {
    var was, since := Run(file, ops[..i]), ops[i..];
    && now == Content(was) + Zeros(RunPadding(was, since))
    && (now == Content(was) <==> OldestEofOpStartsInside(was, since))
  }

  /**
   For every run and every moment of it: the records logged since then are the newest ones, and undoing them yields
   what the file held then, followed by zeros only, if every operation since then is recoverable.
   */
  lemma RevertRestoresAt(file: Option<bytes>, ops: seq<Op>, i: nat)
    requires i <= |ops|
    ensures var k := LoggedAfter(file, ops, i);
            && k <= |Log(file, ops)| && Newest(Log(file, ops), k) == Log(Run(file, ops[..i]), ops[i..])
            && (RecoverableSince(file, ops, i) ==>
                  IsContentOf(file, ops, i, UndoAll(Newest(Log(file, ops), k), Content(Run(file, ops)))))
  {
    hide Apply, Logged, Run, Log, UndoAll, RunRecoverable, RunPadding, OldestEofOpStartsInside, Zeros;
    assert ops == ops[..i] + ops[i..];
    RunConcat(file, ops[..i], ops[i..]);
    LogConcat(file, ops[..i], ops[i..]);
    if RecoverableSince(file, ops, i) {
      UndoRun(Run(file, ops[..i]), ops[i..]);
      UndoRunExactly(Run(file, ops[..i]), ops[i..]);
    }
  }

  /**
   For every run and every k there is a moment since which the newest k records were logged: undoing them goes back
   to it.
   */
  lemma RevertRestores(file: Option<bytes>, ops: seq<Op>, k: nat) returns (i: nat)
    requires k <= |Log(file, ops)|
    ensures i <= |ops| && LoggedAfter(file, ops, i) == k
    ensures Newest(Log(file, ops), k) == Log(Run(file, ops[..i]), ops[i..])
    ensures RecoverableSince(file, ops, i) ==>
              IsContentOf(file, ops, i, UndoAll(Newest(Log(file, ops), k), Content(Run(file, ops))))
  {
    hide Run, Log, UndoAll, IsContentOf, RecoverableSince;
    i := Moment(file, ops, k);
    RevertRestoresAt(file, ops, i);
  }

  // ----- by date -----

  /** How many records `vrevert` undoes for a date: everything from the first record not older than it. */
  function SinceDate(rs: seq<Record>, date: int): (k: nat)
    ensures k <= |rs|
    ensures forall i | 0 <= i < |rs| - k :: rs[i].time < date
    ensures k > 0 ==> rs[|rs| - k].time >= date
  {
    if rs == [] then 0
    else if rs[0].time >= date then |rs|
    else SinceDate(rs[1..], date)
  }

  /** The records undone are exactly those not older than the date, if and only if no older one follows such a one. */
  lemma SinceDateExactly(rs: seq<Record>, date: int)
    ensures (forall i | 0 <= i < |rs| :: rs[i].time >= date <==> i >= |rs| - SinceDate(rs, date))
       <==> (forall i, j | 0 <= i < j < |rs| && rs[i].time >= date :: rs[j].time >= date)
  {
  }

  predicate ClockNeverBack(rs: seq<Record>) {
    forall i, j | 0 <= i < j < |rs| :: rs[i].time <= rs[j].time
  }

  lemma SinceDateSplits(rs: seq<Record>, older: seq<Record>, newer: seq<Record>, date: int)
    requires rs == older + newer && ClockNeverBack(rs) && |newer| == SinceDate(rs, date)
    ensures forall i | 0 <= i < |older| :: older[i].time < date
    ensures forall i | 0 <= i < |newer| :: newer[i].time >= date
  {
    assert forall i | 0 <= i < |older| :: older[i] == rs[i];
    forall i | 0 <= i < |newer|
      ensures newer[i].time >= date
    {
      assert newer[i] == rs[|older| + i];
      assert rs[|older|].time >= date;
    }
  }

  /**
   When the clock never went back, reverting to a date undoes exactly the records not older than it and brings back
   what the file held before the first operation that logged one of them, if that and all later ones are recoverable.
   */
  lemma RevertToDateRestores(file: Option<bytes>, ops: seq<Op>, date: int) returns (i: nat)
    requires ClockNeverBack(Log(file, ops))
    ensures i <= |ops| && LoggedAfter(file, ops, i) == SinceDate(Log(file, ops), date)
    ensures var older := Log(file, ops[..i]);
            forall j | 0 <= j < |older| :: older[j].time < date
    ensures var newer := Log(Run(file, ops[..i]), ops[i..]);
            forall j | 0 <= j < |newer| :: newer[j].time >= date
    ensures RecoverableSince(file, ops, i) ==>
              var undone := Newest(Log(file, ops), SinceDate(Log(file, ops), date));
              IsContentOf(file, ops, i, UndoAll(undone, Content(Run(file, ops))))
  {
    hide Run, Log, UndoAll, IsContentOf, RecoverableSince, SinceDate, ClockNeverBack;
    i := RevertRestores(file, ops, SinceDate(Log(file, ops), date));
    DateMoment(file, ops, i, date);
  }

  /** An old operation that cannot be undone does not stand in the way: only those undone matter. */
  lemma OldLossIsNoObstacle(file: Option<bytes>, lost: Op, ops: seq<Op>)
    requires RunRecoverable(Apply(file, lost), ops)
    ensures RecoverableSince(file, [lost] + ops, 1)
  {
    assert ([lost] + ops)[..1] == [lost] && ([lost] + ops)[1..] == ops;
    assert [lost][1..] == [];
    assert Run(file, [lost]) == Apply(file, lost);
  }

  lemma DateMoment(file: Option<bytes>, ops: seq<Op>, i: nat, date: int)
    requires ClockNeverBack(Log(file, ops)) && i <= |ops|
    requires |Log(Run(file, ops[..i]), ops[i..])| == SinceDate(Log(file, ops), date)
    ensures var older := Log(file, ops[..i]);
            forall j | 0 <= j < |older| :: older[j].time < date
    ensures var newer := Log(Run(file, ops[..i]), ops[i..]);
            forall j | 0 <= j < |newer| :: newer[j].time >= date
  {
    hide Apply, Logged, Run, Log, SinceDate, ClockNeverBack;
    assert ops == ops[..i] + ops[i..];
    LogConcat(file, ops[..i], ops[i..]);
    SinceDateSplits(Log(file, ops), Log(file, ops[..i]), Log(Run(file, ops[..i]), ops[i..]), date);
  }
}
