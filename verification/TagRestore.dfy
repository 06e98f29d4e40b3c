/**
 CopyFS tags (`copyfs-fversion`): a tag file holds a version per file, and restoring it pins each file to it again.
 */
module TagRestore {
  import opened Bytes
  import opened Text
  import opened MetadataFile
  import opened Versions
  import opened VersionStore

  // ----- the tag file -----

  /** What `rcs.locked_version` reads as: the pin as it was set, or the newest version's numbers. */
  function Tag(s: State): (int32, int32)
    requires s.md.versions != []
  {
    if s.md.dflVid == LATEST then (Signed(s.md.versions[0].vid), Signed(s.md.versions[0].svid))
    else (s.md.dflVid, s.md.dflSvid)
  }

  /** The version part of a tag line, without the newline. */
  function TagText(vid: int32, svid: int32): string {
    SignedText(vid) + "." + SignedText(svid)
  }

  /** What `(\d+).(\d+)` finds at the start of `s`, trying `k` digits first and giving up one at a time. */
  function Backtrack(s: string, k: nat): Option<(nat, nat)>
    requires k <= Span(s, 10)
  {
    if k == 0 then None
    else if k + 1 < |s| && s[k] != '\n' && IsDigit(s[k + 1], 10) then
      Some((Value(s[..k], 10), Value(s[k + 1..][..Span(s[k + 1..], 10)], 10)))
    else Backtrack(s, k - 1)
  }

  /** What the restoring script reads out of the version part of a line. */
  function ReadTag(s: string): Option<(nat, nat)> {
    Backtrack(s, Span(s, 10))
  }

  /** A tag of the form x.y is read back. */
  lemma TagRoundTrip(vid: int32, svid: int32)
    requires vid >= 0 && svid >= 0
    ensures ReadTag(TagText(vid, svid)) == Some((vid, svid))
  {
    hide Numeral, Value;
    var a, b := Numeral(vid, 10), Numeral(svid, 10);
    var s := TagText(vid, svid);
    assert s == a + ("." + b);
    SpanOf(a, "." + b, 10);
    assert s[..|a|] == a && s[|a| + 1..] == b;
    assert IsDigit(b[0], 10);
    assert b + "" == b;
    SpanOf(b, "", 10);
    assert b[..|b|] == b;
    NumeralValue(vid, 10);
    NumeralValue(svid, 10);
  }

  /** With no digit behind the dot the pattern gives digits back until a digit can stand for the dot. */
  lemma BacktrackFromDot(a: string, rest: string)
    requires a != "" && AllDigits(a, 10) && rest != "" && !IsDigit(rest[0], 10)
    ensures ReadTag(a + "." + rest) ==
            if |a| < 3 then None else Some((Value(a[..|a| - 2], 10), Value(a[|a| - 1..], 10)))
  {
    hide Value;
    var s, n := a + "." + rest, |a|;
    assert s == a + ("." + rest) && s[n] == '.' && s[n + 1] == rest[0];
    assert !IsDigit('.', 10);
    SpanOf(a, "." + rest, 10);
    assert Backtrack(s, n) == Backtrack(s, n - 1);
    if n > 1 {
      assert Backtrack(s, n - 1) == Backtrack(s, n - 2);
    }
    if n > 2 {
      var last := a[n - 1..];
      assert s[n - 1..] == last + ("." + rest) && s[n - 1] == a[n - 1] && s[n - 2] == a[n - 2];
      assert AllDigits(last, 10) && IsDigit(a[n - 2], 10) && !IsDigit('\n', 10);
      SpanOf(last, "." + rest, 10);
      assert s[n - 1..][..1] == last && s[..n - 2] == a[..n - 2];
    }
  }

  lemma LastDigits(n: nat)
    ensures |Numeral(n, 10)| < 3 <==> n < 100
    ensures n >= 100 ==>
              var a := Numeral(n, 10);
              Value(a[..|a| - 2], 10) == n / 100 && Value(a[|a| - 1..], 10) == n % 10
  {
    hide Value;
    var a := Numeral(n, 10);
    if n >= 10 {
      var b := Numeral(n / 10, 10);
      assert a == b + [DIGITS[n % 10]];
      if n >= 100 {
        var c := Numeral(n / 10 / 10, 10);
        assert n / 10 / 10 == n / 100;
        assert b == c + [DIGITS[n / 10 % 10]];
        assert a[..|a| - 2] == c && a[|a| - 1..] == [DIGITS[n % 10]];
        NumeralValue(n / 100, 10);
        ValueOfDigit(n % 10, 10);
      }
    }
  }

  /**
   What is read for every tag: a tag x.y as it was written; for a pin to any subversion of x nothing, or, if x
   has three digits or more, another version.
   */
  lemma TagReads(vid: int32, svid: int32)
    ensures ReadTag(TagText(vid, svid)) ==
            if vid >= 0 && svid >= 0 then Some((vid, svid))
            else if vid >= 100 then Some((vid / 100, vid % 10))
            else None
  {
    hide Numeral, Value;
    if vid < 0 {
      var s := TagText(vid, svid);
      assert s[0] == '-' && !IsDigit('-', 10) && Span(s, 10) == 0;
    } else if svid >= 0 {
      TagRoundTrip(vid, svid);
    } else {
      LastDigits(vid);
      assert !IsDigit('-', 10);
      BacktrackFromDot(Numeral(vid, 10), SignedText(svid));
    }
  }

  /** A tag is read back if and only if it has the form x.y. */
  lemma TagReadBack(vid: int32, svid: int32)
    ensures (var r := ReadTag(TagText(vid, svid)); r.Some? && r.value.0 == vid && r.value.1 == svid)
       <==> vid >= 0 && svid >= 0
  {
    hide ReadTag, TagText;
    TagReads(vid, svid);
  }

  /** A pin to any subversion of version 123 is read as version 1.3. */
  lemma AnySubMisread()
    ensures ReadTag(TagText(123, LATEST)) == Some((1, 3))
  {
    hide ReadTag, TagText;
    TagReads(123, LATEST);
  }

  // ----- what later steps leave alone -----

  /** The file as it was tagged is still there: its versions at the end of the list, their bytes unchanged. */
  predicate Preserves(s0: State, s: State) {
    && |s0.md.versions| <= |s.md.versions|
    && s.md.versions[|s.md.versions| - |s0.md.versions|..] == s0.md.versions
    && forall f | f in RealFiles(s0.md.versions) && f in s0.disk :: f in s.disk && s.disk[f] == s0.disk[f]
  }

  /** What a write goes to is no file of the tagged versions. */
  predicate Private(s0: State, s: State) {
    s.md.dflVid == LATEST && s.md.versions != [] && s.md.versions[0].rfile !in RealFiles(s0.md.versions)
  }

  /** A content version has been made since the last pin change: what an editor that opens for writing relies on. */
  predicate StillOwn(p: Place, s: State, op: Op, own: bool) {
    !op.Pin? && (own || LinksContent(p, s, op))
  }

  /**
   An edit a tag survives: no purge, no subversion out of order, and bytes are only written after an open for
   writing or a truncate made a version and before the pin changes again.
   */
  predicate Careful(p: Place, s: State, op: Op, own: bool) {
    && !op.Purge?
    && KeepsOrder(p, s, op) && NumbersLeft(s)
    && (op.Write? && Visible(s).Some? ==> own)
    && (s.md.versions != [] && InPlace(p, s, op) ==> own)
  }

  predicate RunCareful(p: Place, s: State, ops: seq<Op>, own: bool)
    decreases |ops|
  {
    ops == []
    || (Careful(p, s, ops[0], own) && RunCareful(p, Step(p, s, ops[0]), ops[1..], StillOwn(p, s, ops[0], own)))
  }

  predicate TagHolds(p: Place, s0: State, s: State, own: bool) {
    Sound(p, s.md.versions) && Ordered(s.md.versions) && Preserves(s0, s) && (own ==> Private(s0, s))
  }

  lemma RealFilesOfSuffix(vs: seq<Version>, ws: seq<Version>)
    requires |ws| <= |vs| && vs[|vs| - |ws|..] == ws
    ensures RealFiles(ws) <= RealFiles(vs)
  {
  }

  /** The disk is the same at `f`. */
  predicate SameAt(d: map<string, bytes>, d': map<string, bytes>, f: string) {
    (f in d <==> f in d') && (f in d ==> d'[f] == d[f])
  }

  lemma CreateTouches(p: Place, s: State, sub: bool, copied: bool, mode: u32, uid: u32, gid: u32, now: int, env: Env,
                      f: string)
    requires s.md.versions != [] && f != RealName(p, Succ(s.md.versions[0].vid))
    ensures SameAt(s.disk, Create(p, s, sub, copied, mode, uid, gid, now, env).0.disk, f)
  {
    hide RealName, EarlyExit;
  }

  /** A file on disk changes only if it is the next version's, or the current one's and it is written to. */
  lemma StepTouches(p: Place, s: State, op: Op, f: string)
    requires !op.Purge? && s.md.versions != [] && f != RealName(p, Succ(s.md.versions[0].vid))
    requires (op.Write? && Visible(s).Some?) || InPlace(p, s, op) ==> f != Current(s).rfile
    ensures SameAt(s.disk, Step(p, s, op).disk, f)
  {
    hide RealName, Create, Lookup;
    match op
    case OpenWrite(now, env) => CreateTouches(p, s, false, true, 0, 0, 0, now, env, f);
    case Truncate(now, _, _, env) =>
      CreateTouches(p, s, false, true, 0, 0, 0, now, env, f);
      TruncateTouches(p, s, op, f);
    case Chmod(now, mode, env) => CreateTouches(p, s, true, false, mode, Current(s).uid, Current(s).gid, now, env, f);
    case Chown(now, uid, gid, env) => CreateTouches(p, s, true, false, Current(s).mode, uid, gid, now, env, f);
    case Mknod(now, mode, uid, gid, _, env) =>
      var s' := s.(disk := s.disk[RealName(p, Succ(s.md.versions[0].vid)) := []]);
      CreateTouches(p, s', false, false, mode, uid, gid, now, env, f);
    case _ =>
  }

  lemma TruncateTouches(p: Place, s: State, op: Op, f: string)
    requires op.Truncate? && s.md.versions != [] && f != RealName(p, Succ(s.md.versions[0].vid))
    requires InPlace(p, s, op) ==> f != Current(s).rfile
    requires SameAt(s.disk, Create(p, s, false, true, 0, 0, 0, op.now, op.env).0.disk, f)
    ensures SameAt(s.disk, Step(p, s, op).disk, f)
  {
    hide RealName, EarlyExit;
  }

  /** A truncate that goes on although no version was made. */
  predicate InPlace(p: Place, s: State, op: Op)
    requires s.md.versions != []
  {
    op.Truncate? && Visible(s).Some? && !LinksContent(p, s, op)
    && Create(p, s, false, true, 0, 0, 0, op.now, op.env).1 != -1
  }

  lemma CarefulStepPreserves(p: Place, s0: State, s: State, op: Op, own: bool)
    requires s0.md.versions != [] && TagHolds(p, s0, s, own) && Careful(p, s, op, own)
    ensures Preserves(s0, Step(p, s, op)) && RealFiles(s0.md.versions) <= RealFiles(s.md.versions)
  {
    hide RealName, RealFiles, Lookup, Visible, Current, Step, Create, Linked, Sound, Ordered, KeepsOrder, InPlace,
         LinksContent;
    var t := Step(p, s, op);
    var vs, ws := s0.md.versions, s.md.versions;
    RealFilesOfSuffix(ws, vs);
    ListStays(p, vs, s, op);
    forall f | f in RealFiles(vs) && f in s0.disk
      ensures f in t.disk && t.disk[f] == s0.disk[f]
    {
      TaggedBytesStay(p, s0, s, op, own, f);
    }
  }

  /** The tagged versions stay at the end of the list. */
  lemma ListStays(p: Place, vs: seq<Version>, s: State, op: Op)
    requires !op.Purge? && |vs| <= |s.md.versions| && s.md.versions[|s.md.versions| - |vs|..] == vs
    ensures var xs := Step(p, s, op).md.versions; |vs| <= |xs| && xs[|xs| - |vs|..] == vs
  {
    hide Step, Linked;
    PrependOnly(p, s, op);
    var ws := s.md.versions;
    var front := if Linked(p, s, op).Some? then [Linked(p, s, op).value] else [];
    assert Step(p, s, op).md.versions == front + ws;
    assert (front + ws)[|front| + |ws| - |vs|..] == ws[|ws| - |vs|..];
  }

  lemma TaggedBytesStay(p: Place, s0: State, s: State, op: Op, own: bool, f: string)
    requires s.md.versions != [] && Sound(p, s.md.versions) && (own ==> Private(s0, s)) && Careful(p, s, op, own)
    requires f in RealFiles(s0.md.versions) && f in RealFiles(s.md.versions) && f in s.disk
    ensures var t := Step(p, s, op); f in t.disk && t.disk[f] == s.disk[f]
  {
    hide RealName, RealFiles, Lookup, Visible, Current, Step, Create, Linked, Sound, Ordered, KeepsOrder, InPlace,
         LinksContent;
    FreshName(p, s.md.versions);
    if own { OwnIsCurrent(s0, s); }
    StepTouches(p, s, op, f);
  }

  /** Every careful step keeps the tagged file there, and its current version private once one was made. */
  lemma CarefulStep(p: Place, s0: State, s: State, op: Op, own: bool)
    requires s0.md.versions != [] && TagHolds(p, s0, s, own) && Careful(p, s, op, own)
    ensures TagHolds(p, s0, Step(p, s, op), StillOwn(p, s, op, own))
  {
    CarefulStepPreserves(p, s0, s, op, own);
    hide RealName, Lookup, Visible, Current, Step, Create, Linked, Sound, Ordered, KeepsOrder, Preserves, Private,
         RealFiles, LinksContent, InPlace;
    StepKeepsSound(p, s, op);
    OrderExactly(p, s, op);
    if StillOwn(p, s, op, own) {
      assert s.md.versions != [] by { SuffixNotEmpty(s0, s); }
      OwnStaysPrivate(p, s0, s, op, own);
    }
  }

  lemma SuffixNotEmpty(s0: State, s: State)
    requires Preserves(s0, s) && s0.md.versions != []
    ensures s.md.versions != []
  {
  }

  lemma OwnIsCurrent(s0: State, s: State)
    requires Private(s0, s)
    ensures Current(s) == s.md.versions[0]
  {
  }

  lemma OwnStaysPrivate(p: Place, s0: State, s: State, op: Op, own: bool)
    requires !op.Purge? && !op.Pin? && s.md.versions != [] && Sound(p, s.md.versions) && NumbersLeft(s)
    requires RealFiles(s0.md.versions) <= RealFiles(s.md.versions)
    requires own ==> Private(s0, s)
    requires own || LinksContent(p, s, op)
    ensures Private(s0, Step(p, s, op))
  {
    hide RealName, EarlyExit, Step, Create, Linked, Sound;
    PrependOnly(p, s, op);
    FreshName(p, s.md.versions);
    if Linked(p, s, op).Some? {
      LinkedIsPlain(p, s, op);
      LinkedShape(p, s, op);
    } else {
      PinKept(p, s, op);
    }
  }

  lemma PinKept(p: Place, s: State, op: Op)
    requires !op.Purge? && !op.Pin? && s.md.versions != [] && Linked(p, s, op).None?
    ensures Step(p, s, op).md.dflVid == s.md.dflVid
  {
    if Makes(op) {
      hide Step;
      NothingLinked(p, s, op);
    }
  }

  lemma {:induction false} CarefulRun(p: Place, s0: State, s: State, ops: seq<Op>, own: bool)
    requires s0.md.versions != [] && TagHolds(p, s0, s, own) && RunCareful(p, s, ops, own)
    ensures TagHolds(p, s0, Run(p, s, ops), false)
    decreases |ops|
  {
    hide Step, Careful, StillOwn, Sound, Ordered, Preserves, Private;
    if ops != [] {
      CarefulStep(p, s0, s, ops[0], own);
      CarefulRun(p, s0, Step(p, s, ops[0]), ops[1..], StillOwn(p, s, ops[0], own));
    }
  }

  // ----- tag, edit, restore -----

  /** The file is listed, its tag has the form x.y, and a pin it has names one of its versions. */
  predicate Taggable(s: State) {
    && Shown(s).Some?
    && Tag(s).0 >= 0 && Tag(s).1 >= 0
    && (s.md.dflVid != LATEST ==> FirstMatch(s.md.versions, s.md.dflVid, s.md.dflSvid).Some?)
  }

  /** Opening a file that is not there for writing: it is made, then opened. */
  datatype Touch = Touch(mknod: Op, open: Op)

  /** The file was deleted and can be made anew: the time limit has passed, and the next version's place is free. */
  predicate Touchable(p: Place, s: State, touch: Touch) {
    && touch.mknod.Mknod? && touch.open.OpenWrite?
    && s.md.versions != [] && s.md.versions[0].vid < 0xFFFF_FFFE
    && touch.mknod.mode != 0 && touch.mknod.made && touch.mknod.env.list.Whole?
    && RealName(p, Succ(s.md.versions[0].vid)) !in s.disk
    && touch.mknod.now - s.md.timestamp >= TIME_LIMIT
  }

  function Touched(p: Place, s: State, touch: Touch): State {
    Step(p, Step(p, s, touch.mknod), touch.open)
  }

  /** `restore_tag_file` for one line: a file that is not there is touched first, then the version is pinned. */
  function Restore(p: Place, s: State, vid: int32, svid: int32, touch: Touch): State {
    Step(p, if Visible(s).None? then Touched(p, s, touch) else s, Pin(vid, svid, true))
  }

  /** The tag names the version the file shows. */
  lemma TagNamesVisible(s: State)
    requires Ordered(s.md.versions) && Taggable(s)
    ensures FirstMatch(s.md.versions, Tag(s).0, Tag(s).1) == Visible(s)
    ensures Current(s) == s.md.versions[Visible(s).value]
  {
    hide EarlyExit;
    if s.md.dflVid != LATEST {
      PinnedLookup(s.md, false);
    } else {
      assert Matches(s.md.versions[0], Tag(s).0, Tag(s).1);
    }
  }

  lemma MatchInSuffix(vs: seq<Version>, ws: seq<Version>, vid: int32, svid: int32)
    requires |vs| <= |ws| && ws[|ws| - |vs|..] == vs && Ordered(ws) && svid >= 0
    requires FirstMatch(vs, vid, svid).Some?
    ensures FirstMatch(ws, vid, svid) == Some(|ws| - |vs| + FirstMatch(vs, vid, svid).value)
  {
    var i := FirstMatch(vs, vid, svid).value;
    var k := |ws| - |vs| + i;
    assert ws[k] == vs[i] && Matches(ws[k], vid, svid);
    var m := FirstMatch(ws, vid, svid).value;
    assert ws[m].vid == ws[k].vid && ws[m].svid == ws[k].svid;
    assert m == k;
  }

  lemma PinnedCurrent(u: State)
    requires Ordered(u.md.versions) && u.md.dflVid != LATEST && !u.md.deleted
    requires FirstMatch(u.md.versions, u.md.dflVid, u.md.dflSvid).Some?
    ensures Visible(u).Some? && Current(u) == u.md.versions[FirstMatch(u.md.versions, u.md.dflVid, u.md.dflSvid).value]
  {
    PinnedLookup(u.md, true);
    PinnedLookup(u.md, false);
  }

  lemma PinTakes(p: Place, t: State, vid: int32, svid: int32)
    requires Visible(t).Some? && vid != LATEST && FirstMatch(t.md.versions, vid, svid).Some?
    ensures Step(p, t, Pin(vid, svid, true)) == t.(md := t.md.(dflVid := vid, dflSvid := svid))
  {
    hide Visible, FirstMatch;
  }

  /** A version of the tagged list is found in the list as it is now, with the bytes it had. */
  lemma TaggedVersionIsThere(p: Place, s0: State, t: State, vid: int32, svid: int32)
    requires TagHolds(p, s0, t, false) && svid >= 0
    requires FirstMatch(s0.md.versions, vid, svid).Some?
    ensures var m := FirstMatch(t.md.versions, vid, svid);
            var v := s0.md.versions[FirstMatch(s0.md.versions, vid, svid).value];
            && m.Some? && t.md.versions[m.value] == v
            && (v.rfile in s0.disk ==> v.rfile in t.disk && t.disk[v.rfile] == s0.disk[v.rfile])
  {
    hide Sound, Ordered, FirstMatch;
    var vs, ws := s0.md.versions, t.md.versions;
    MatchInSuffix(vs, ws, vid, svid);
    var i := FirstMatch(vs, vid, svid).value;
    assert ws[|ws| - |vs|..][i] == vs[i];
    assert vs[i].rfile in RealFiles(vs);
  }

  /** Pinning a tagged version shows its bytes. */
  lemma PinShows(p: Place, s0: State, t: State)
    requires Ordered(s0.md.versions) && Taggable(s0) && TagHolds(p, s0, t, false) && Visible(t).Some?
    ensures Shown(Step(p, t, Pin(Tag(s0).0, Tag(s0).1, true))) == Shown(s0)
  {
    TagNamesVisible(s0);
    var (vid, svid) := Tag(s0);
    TaggedVersionIsThere(p, s0, t, vid, svid);
    hide Step, Lookup, Current, Sound, Ordered, Tag, FirstMatch, Preserves;
    PinTakes(p, t, vid, svid);
    PinnedCurrent(Step(p, t, Pin(vid, svid, true)));
  }

  /** Touching a deleted file brings it back, and is a careful edit. */
  lemma TouchIsCareful(p: Place, s0: State, s: State, touch: Touch)
    requires s0.md.versions != [] && TagHolds(p, s0, s, false) && Visible(s).None? && Touchable(p, s, touch)
    ensures TagHolds(p, s0, Touched(p, s, touch), false) && Visible(Touched(p, s, touch)).Some?
  {
    var t := Step(p, s, touch.mknod);
    RecreateExactly(p, s, touch.mknod);
    RecreateLinks(p, s, touch.mknod);
    LinkedShape(p, s, touch.mknod);
    MakingIsCareful(p, s, touch.mknod);
    hide RealName, Step, Sound, Ordered, Create, Linked, Careful, Preserves, StillOwn, Visible;
    CarefulStep(p, s0, s, touch.mknod, false);
    HeldMeanwhile(p, s0, t, StillOwn(p, s, touch.mknod, false));
    MakingIsCareful(p, t, touch.open);
    CarefulStep(p, s0, t, touch.open, false);
    HeldMeanwhile(p, s0, Step(p, t, touch.open), StillOwn(p, t, touch.open, false));
    OpenKeepsVisible(p, t, touch.open);
  }

  lemma HeldMeanwhile(p: Place, s0: State, s: State, own: bool)
    requires TagHolds(p, s0, s, own)
    ensures TagHolds(p, s0, s, false)
  {
  }

  lemma RecreateLinks(p: Place, s: State, op: Op)
    requires op.Mknod? && s.md.versions != [] && s.md.deleted && Visible(Step(p, s, op)).Some?
    ensures LinksContent(p, s, op) && Step(p, s, op).md.versions[0].vid == Succ(s.md.versions[0].vid)
  {
    hide RealName, EarlyExit;
  }

  lemma MakingIsCareful(p: Place, s: State, op: Op)
    requires (op.Mknod? || op.OpenWrite?) && NumbersLeft(s)
    ensures Careful(p, s, op, false)
  {
    hide Step, Create, Linked;
  }

  lemma OpenKeepsVisible(p: Place, s: State, op: Op)
    requires op.OpenWrite? && Visible(s).Some?
    ensures Visible(Step(p, s, op)).Some?
  {
    hide RealName, EarlyExit, NewVersion;
  }

  /** A tagged file that has been left there shows the tagged bytes when its line is restored. */
  lemma RestoreShows(p: Place, s0: State, s: State, touch: Touch)
    requires Ordered(s0.md.versions) && Taggable(s0) && TagHolds(p, s0, s, false)
    requires Visible(s).None? ==> Touchable(p, s, touch)
    ensures Shown(Restore(p, s, Tag(s0).0, Tag(s0).1, touch)) == Shown(s0)
  {
    assert s0.md.versions != [];
    hide Step, Sound, Ordered, Shown, TagHolds, Touched;
    if Visible(s).None? {
      TouchIsCareful(p, s0, s, touch);
      PinShows(p, s0, Touched(p, s, touch));
    } else {
      PinShows(p, s0, s);
    }
  }

  lemma TagHoldsAtFirst(p: Place, s0: State)
    requires Sound(p, s0.md.versions) && Ordered(s0.md.versions)
    ensures TagHolds(p, s0, s0, false)
  {
    assert s0.md.versions[|s0.md.versions| - |s0.md.versions|..] == s0.md.versions;
  }

  /**
   Tag, edit, restore: after any careful edits, unlinking and creating the file anew included, restoring the
   tag makes the file show the bytes it showed when it was tagged.
   */
  lemma TagRestored(p: Place, s0: State, ops: seq<Op>, touch: Touch)
    requires Sound(p, s0.md.versions) && Ordered(s0.md.versions) && Taggable(s0)
    requires RunCareful(p, s0, ops, false)
    requires Visible(Run(p, s0, ops)).None? ==> Touchable(p, Run(p, s0, ops), touch)
    ensures var (vid, svid) := Tag(s0);
            && ReadTag(TagText(vid, svid)) == Some((vid, svid))
            && Shown(Restore(p, Run(p, s0, ops), vid, svid, touch)) == Shown(s0)
  {
    assert s0.md.versions != [];
    hide Run, Sound, Ordered, Shown, Restore, TagHolds;
    TagRoundTrip(Tag(s0).0, Tag(s0).1);
    TagHoldsAtFirst(p, s0);
    CarefulRun(p, s0, s0, ops, false);
    RestoreShows(p, s0, Run(p, s0, ops), touch);
  }

  // ----- one edit -----

  /** A program opens the file for writing and, if it may, writes. */
  function Edit(p: Place, s: State, now: int, env: Env, offset: nat, data: bytes): State
    requires s.md.versions != []
  {
    var t := Step(p, s, OpenWrite(now, env));
    if CopyRefused(s, now, env) then t else Step(p, t, Write(offset, data, |data|))
  }

  /** What is written after a version was made goes to no tagged file. */
  lemma OwnWrite(p: Place, s0: State, t: State, op: Op)
    requires op.Write? && TagHolds(p, s0, t, true)
    ensures TagHolds(p, s0, Step(p, t, op), false) && Visible(Step(p, t, op)) == Visible(t)
  {
    hide Sound, Ordered, EarlyExit, Overwrite;
  }

  /** An open that makes no version leaves the block, and what is shown, as they were. */
  lemma OpenLeaves(p: Place, s: State, now: int, env: Env)
    requires Visible(s).Some? && Sound(p, s.md.versions) && NumbersLeft(s) && !LinksContent(p, s, OpenWrite(now, env))
    ensures var t := Step(p, s, OpenWrite(now, env)); t.md == s.md && Shown(t) == Shown(s)
  {
    hide RealName, EarlyExit;
    FreshName(p, s.md.versions);
  }

  /**
   One edit is undone by restoring the tag if and only if the open was refused, or it made a version, or the
   bytes written were there already. `OpenMakesVersion` says when an open makes one.
   */
  lemma OneEditExactly(p: Place, s0: State, now: int, env: Env, offset: nat, data: bytes, touch: Touch)
    requires Sound(p, s0.md.versions) && Ordered(s0.md.versions) && Taggable(s0) && NumbersLeft(s0)
    ensures var (vid, svid) := Tag(s0);
            Shown(Restore(p, Edit(p, s0, now, env, offset, data), vid, svid, touch)) == Shown(s0) <==>
            || CopyRefused(s0, now, env)
            || LinksContent(p, s0, OpenWrite(now, env))
            || Overwrite(Shown(s0).value, offset, data) == Shown(s0).value
  {
    assert s0.md.versions != [] && Visible(s0).Some?;
    var open, write := OpenWrite(now, env), Write(offset, data, |data|);
    var t := Step(p, s0, open);
    TagHoldsAtFirst(p, s0);
    MakingIsCareful(p, s0, open);
    CarefulStep(p, s0, s0, open, false);
    OpenKeepsVisible(p, s0, open);
    HeldMeanwhile(p, s0, t, StillOwn(p, s0, open, false));
    hide Step, Sound, Ordered, Shown, Create, LinksContent, Overwrite, TagHolds, Taggable, Tag, Careful, Visible,
         Restore;
    if CopyRefused(s0, now, env) {
      RestoreShows(p, s0, t, touch);
    } else if LinksContent(p, s0, open) {
      OwnWrite(p, s0, t, write);
      RestoreShows(p, s0, Step(p, t, write), touch);
    } else {
      OpenLeaves(p, s0, now, env);
      InPlaceEdit(p, s0, t, offset, data, touch);
    }
  }

  lemma InPlaceEdit(p: Place, s0: State, t: State, offset: nat, data: bytes, touch: Touch)
    requires Sound(p, s0.md.versions) && Ordered(s0.md.versions) && Taggable(s0)
    requires t.md == s0.md && Shown(t) == Shown(s0)
    ensures Shown(Restore(p, Step(p, t, Write(offset, data, |data|)), Tag(s0).0, Tag(s0).1, touch))
         == Some(Overwrite(Shown(s0).value, offset, data))
  {
    var u := Step(p, t, Write(offset, data, |data|));
    WriteShows(p, t, Write(offset, data, |data|));
    assert data[..|data|] == data;
    assert Visible(u) == Visible(s0);
    hide Step, Sound, Ordered, Overwrite, TagHolds, Restore;
    TagHoldsAtFirst(p, u);
    RestoreShows(p, u, u, touch);
  }

  /** An edit that follows the last one too quickly writes into the tagged version itself. */
  lemma QuickEditIsNotUndone(p: Place, s0: State, now: int, env: Env, offset: nat, data: bytes, touch: Touch)
    requires Sound(p, s0.md.versions) && Ordered(s0.md.versions) && Taggable(s0) && NumbersLeft(s0)
    requires now - s0.md.timestamp < TIME_LIMIT && Overwrite(Shown(s0).value, offset, data) != Shown(s0).value
    ensures var (vid, svid) := Tag(s0);
            Shown(Restore(p, Edit(p, s0, now, env, offset, data), vid, svid, touch)) != Shown(s0)
  {
    assert s0.md.versions != [] && !CopyRefused(s0, now, env);
    hide Step, Sound, Ordered, Shown, Create, LinksContent, Overwrite, Taggable, Restore;
    OneEditExactly(p, s0, now, env, offset, data, touch);
    OpenMakesVersion(p, s0, now, env);
  }
}
