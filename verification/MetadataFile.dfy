/**
 CopyFS's two small text files per virtual file: the list of its versions (`write.c`, `parse.c`) and its pin.
 */
module MetadataFile {
  import opened Bytes
  import opened Text
  import opened Helper
  import opened Versions

  // ----- printing -----

  function Abs(x: int): nat {
    if x < 0 then -x else x
  }

  /** `%i` */
  function SignedText(x: int): string {
    if x < 0 then "-" + Numeral(Abs(x), 10) else Numeral(Abs(x), 10)
  }

  /** `"%i:%i:%04o:%i:%i:%s\n"`: unsigned fields go through `%i`, and the name loses its directory. */
  function Line(v: Version): string {
    SignedText(Signed(v.vid)) + ":" + SignedText(Signed(v.svid)) + ":" + Pad(Numeral(v.mode, 8), 4) + ":"
    + SignedText(Signed(v.uid)) + ":" + SignedText(Signed(v.gid)) + ":" + FileName(v.rfile) + "\n"
  }

  /** Oldest version first. */
  function Lines(vs: seq<Version>): string {
    if vs == [] then "" else Lines(vs[1..]) + Line(vs[0])
  }

  const KILLER: string := "0:0:0000:0:0:\n"

  /** `write_metadata_file_worker`: recurses to the oldest version before it prints its own. */
  method WriteWorker(fh: string, vs: seq<Version>) returns (fh': string)
    requires vs != []
    ensures fh' == fh + Lines(vs)
  {
    hide Line;
    assert vs[1..] == [] ==> Lines(vs) == Line(vs[0]);
    fh' := fh;
    if |vs| > 1 {
      fh' := WriteWorker(fh', vs[1..]);
    }
    fh' := fh' + Line(vs[0]);
  }

  /** `write_metadata_file` */
  method WriteMetadata(vs: seq<Version>, deleted: bool) returns (text: string)
    requires vs != []
    ensures text == Lines(vs) + if deleted then KILLER else ""
  {
    hide Lines;
    text := WriteWorker("", vs);
    if deleted {
      text := text + KILLER;
    }
  }

  // ----- scanning -----

  predicate IsSpace(c: char) {
    c == ' ' || 9 <= c as int <= 13
  }

  function SkipSpace(s: string): string {
    if s != "" && IsSpace(s[0]) then SkipSpace(s[1..]) else s
  }

  predicate HasSign(s: string) {
    s != "" && (s[0] == '-' || s[0] == '+')
  }

  const ULONG_MAX: int := 0xFFFF_FFFF_FFFF_FFFF

  /** What `strtoul` makes of a digit run, cut to 32 bits: a value too large saturates before it is cut. */
  function ToU32(value: nat, negative: bool): u32 {
    if value > ULONG_MAX then ULONG_MAX % TWO32
    else if negative then (0 - value as int) % TWO32
    else value % TWO32
  }

  /** `%u` and `%o`: leading space, a sign, digits; the value and what follows. */
  function ScanUnsigned(s: string, base: nat): Option<(u32, string)>
    requires 2 <= base <= 16
  {
    var t := SkipSpace(s);
    var digits := if HasSign(t) then t[1..] else t;
    var k := Span(digits, base);
    if k == 0 then None
    else Some((ToU32(Value(digits[..k], base), HasSign(t) && t[0] == '-'), digits[k..]))
  }

  /** A field and the colon that must follow it. */
  function ScanField(s: string, base: nat): (r: Option<(u32, string)>)
    requires 2 <= base <= 16
  {
    match ScanUnsigned(s, base)
    case None => None
    case Some((x, rest)) => if rest != "" && rest[0] == ':' then Some((x, rest[1..])) else None
  }

  /**
   `parse_version_line` on a line without its newline; a line that does not scan is ignored. All five numbers are
   enough to scan: without the colon that must follow, the place of the name is never set, and `lost` is what lies
   at the place it happens to be.
   */
  function ParseLine(line: string, lost: string): Option<Version> {
    match ScanField(line, 10)
    case None => None
    case Some((vid, s1)) =>
      match ScanField(s1, 10)
      case None => None
      case Some((svid, s2)) =>
        match ScanField(s2, 8)
        case None => None
        case Some((mode, s3)) =>
          match ScanField(s3, 10)
          case None => None
          case Some((uid, s4)) =>
            match ScanUnsigned(s4, 10)
            case None => None
            case Some((gid, rest)) =>
              var name := if rest != "" && rest[0] == ':' then rest[1..] else lost;
              Some(Version(vid, svid, mode, uid, gid, name))
  }

  /** What the reading loop keeps: the list so far, newest first, and whether the last line was a killer. */
  datatype Parsed = Parsed(versions: seq<Version>, deleted: bool)

  /** Version 0 is no version: it marks the file deleted until a later line. */
  function Link(p: Parsed, v: Option<Version>): Parsed {
    match v
    case None => p
    case Some(v) => if v.vid == 0 then p.(deleted := true) else Parsed([v] + p.versions, false)
  }

  /**
   The memory a reader never wrote: whether a newline is found behind the end of a file, and what is taken for the
   name in a line that breaks off before its name.
   */
  datatype Memory = Memory(stale: bool, lost: string)

  /** A last part without its newline is a line if a newline is found behind it, and nothing otherwise. */
  function LastPart(part: string, p: Parsed, mem: Memory): Parsed {
    if part != "" && FoundBehind(mem.stale, |part|) then Link(p, ParseLine(part, mem.lost)) else p
  }

  function ParseText(text: string, p: Parsed, mem: Memory): Parsed
    decreases |text|
  {
    var e := LineEnd(text, 0);
    if e < 0 then LastPart(text, p, mem)
    else ParseText(text[e + 1..], Link(p, ParseLine(text[..e], mem.lost)), mem)
  }

  const EMPTY := Parsed([], false)

  /** What a line does to the list; no line does nothing. */
  function LinkLine(p: Parsed, line: Option<string>, lost: string): Parsed {
    if line.None? then p else Link(p, ParseLine(line.value, lost))
  }

  lemma ParseFirst(s: string, p: Parsed, mem: Memory, e: int)
    requires e == LineEnd(s, 0)
    ensures ParseText(s, p, mem) ==
            if e < 0 then LastPart(s, p, mem) else ParseText(s[e + 1..], Link(p, ParseLine(s[..e], mem.lost)), mem)
  {
    hide ParseLine, LineEnd, Link, LastPart;
  }

  lemma ParseLineAt(text: string, pos: nat, p: Parsed, mem: Memory, e: nat)
    requires pos <= e < |text| && LineEnd(text[pos..], 0) == e - pos
    ensures ParseText(text[pos..], p, mem) == ParseText(text[e + 1..], Link(p, ParseLine(text[pos..e], mem.lost)), mem)
  {
    hide *;
    ParseFirst(text[pos..], p, mem, e - pos);
    assert text[pos..][e - pos + 1..] == text[e + 1..] && text[pos..][..e - pos] == text[pos..e];
  }

  lemma LastAt(text: string, pos: nat, p: Parsed, mem: Memory, line: Option<string>)
    requires pos <= |text|
    requires line == if pos < |text| && FoundBehind(mem.stale, |text| - pos) then Some(text[pos..]) else None
    ensures LastPart(text[pos..], p, mem) == LinkLine(p, line, mem.lost)
  {
    hide ParseLine, Link, FoundBehind;
  }

  /** One turn of the reading loop. */
  lemma ParseNext(text: string, pos: nat, p: Parsed, mem: Memory, line: Option<string>, next: nat, eof: bool)
    requires pos <= |text| && LineRead(text, pos, mem.stale, line, next, eof)
    ensures next <= |text| && (!eof ==> pos < next)
    ensures ParseText(text[pos..], p, mem) ==
            if eof then LinkLine(p, line, mem.lost) else ParseText(text[next..], LinkLine(p, line, mem.lost), mem)
  {
    hide ParseLine, LineEnd, Link, FoundBehind, ParseText, LastPart;
    LineEndInSuffix(text, pos);
    if eof {
      ParseFirst(text[pos..], p, mem, -1);
      LastAt(text, pos, p, mem, line);
    } else {
      ParseLineAt(text, pos, p, mem, next - 1);
    }
  }

  /** `parse_metadata_file` on the contents of the file. */
  method ParseMetadata(text: string, mem: Memory) returns (p: Parsed)
    ensures p == ParseText(text, EMPTY, mem)
  {
    hide ParseLine, LineRead, ParseText;
    var versions, deleted, pos, eof := [], false, 0, false;
    assert text[0..] == text;
    while !eof
      invariant 0 <= pos <= |text|
      invariant (if eof then Parsed(versions, deleted) else ParseText(text[pos..], Parsed(versions, deleted), mem))
             == ParseText(text, EMPTY, mem)
      decreases !eof, |text| - pos
    {
      var line, next, end := ReadLine(text, pos, mem.stale);
      ParseNext(text, pos, Parsed(versions, deleted), mem, line, next, end);
      var info := if line.None? then None else ParseLine(line.value, mem.lost);
      if info.Some? {
        if info.value.vid == 0 {
          deleted := true;
        } else {
          deleted := false;
          versions := [info.value] + versions;
        }
      }
      pos, eof := next, end;
    }
    p := Parsed(versions, deleted);
  }

  lemma LineEndInSuffix(text: string, pos: nat)
    requires pos <= |text|
    ensures LineEnd(text, pos) == if LineEnd(text[pos..], 0) < 0 then -1 else pos + LineEnd(text[pos..], 0)
  {
  }

  // ----- one line -----

  lemma ScanDigits(digits: string, rest: string, base: nat)
    requires 2 <= base <= 16 && digits != "" && AllDigits(digits, base)
    requires rest == "" || !IsDigit(rest[0], base)
    ensures ScanUnsigned(digits + rest, base) == Some((ToU32(Value(digits, base), false), rest))
    ensures ScanUnsigned("-" + digits + rest, base) == Some((ToU32(Value(digits, base), true), rest))
  {
    hide Value, ToU32, Span, AllDigits;
    var s, t := digits + rest, "-" + digits + rest;
    assert IsDigit(digits[0], base) by { FirstDigit(digits, base); }
    assert s[0] == digits[0] && SkipSpace(s) == s && SkipSpace(t) == t && t[1..] == s;
    SpanOf(digits, rest, base);
    assert s[..|digits|] == digits && s[|digits|..] == rest;
  }

  lemma FirstDigit(digits: string, base: nat)
    requires digits != "" && AllDigits(digits, base)
    ensures IsDigit(digits[0], base)
  {
  }

  /** Printed with `%i` and read with `%u`: the two agree modulo 2^32. */
  lemma ScanSigned(x: u32, rest: string)
    ensures ScanField(SignedText(Signed(x)) + ":" + rest, 10) == Some((x, rest))
  {
    hide ScanUnsigned, Numeral, Value;
    var n := Signed(x);
    var tail := ":" + rest;
    assert tail[1..] == rest;
    if n < 0 {
      ScanDigits(Numeral(-n, 10), tail, 10);
      NumeralValue(-n, 10);
      assert SignedText(n) + ":" + rest == "-" + Numeral(-n, 10) + tail;
      assert n % TWO32 == x;
    } else {
      ScanDigits(Numeral(n, 10), tail, 10);
      NumeralValue(n, 10);
      assert SignedText(n) + ":" + rest == Numeral(n, 10) + tail;
    }
  }

  lemma ScanMode(mode: u32, rest: string)
    ensures ScanField(Pad(Numeral(mode, 8), 4) + ":" + rest, 8) == Some((mode, rest))
  {
    hide ScanUnsigned, Numeral, Value, Pad;
    var digits := Pad(Numeral(mode, 8), 4);
    var tail := ":" + rest;
    assert tail[1..] == rest;
    PadDigits(Numeral(mode, 8), 4, 8);
    NumeralValue(mode, 8);
    ScanDigits(digits, tail, 8);
    assert digits + ":" + rest == digits + tail;
  }

  /** The version as a line can hold it: without the directory of its real file. */
  function Base(v: Version): Version {
    v.(rfile := FileName(v.rfile))
  }

  // ----- a line cut short -----

  /** The first four fields of a line, each with its colon. */
  function Front(v: Version): string {
    SignedText(Signed(v.vid)) + ":" + SignedText(Signed(v.svid)) + ":" + Pad(Numeral(v.mode, 8), 4) + ":"
    + SignedText(Signed(v.uid)) + ":"
  }

  function GidText(v: Version): string {
    SignedText(Signed(v.gid))
  }

  lemma LineParts(v: Version)
    ensures Line(v) == Front(v) + GidText(v) + ":" + FileName(v.rfile) + "\n"
  {
    hide SignedText, Pad, Numeral, FileName;
  }

  /**
   What is read from the first `k` characters of a line: nothing before the last number has begun, the version with
   as much of its name as there is once the last colon is there, and in between whatever lies in memory for its name.
   */
  function CutVersion(v: Version, k: nat, lost: string): Option<Version>
    requires k < |Line(v)|
  {
    LineParts(v);
    var at := |Front(v)| + |GidText(v)|;
    if k <= |Front(v)| then None
    else if k > at then Some(v.(rfile := FileName(v.rfile)[..k - at - 1]))
    else
      match ScanUnsigned(GidText(v)[..k - |Front(v)|], 10)
      case None => None
      case Some((gid, _)) => Some(v.(gid := gid, rfile := lost))
  }

  lemma NoColonInDigits(s: string, base: nat)
    requires AllDigits(s, base)
    ensures ':' !in s
  {
  }

  lemma NoColonInNumber(n: int)
    ensures ':' !in SignedText(n)
  {
  }

  lemma NoColonNoField(s: string, base: nat)
    requires 2 <= base <= 16 && ':' !in s
    ensures ScanField(s, base) == None
  {
    hide ScanUnsigned;
    if ScanUnsigned(s, base).Some? { ScanSuffix(s, base); }
  }

  /** A field of a line of which only the first `k` characters are there. */
  lemma CutSigned(x: u32, rest: string, k: nat)
    requires k <= |SignedText(Signed(x)) + ":" + rest|
    ensures var s, n := SignedText(Signed(x)) + ":" + rest, |SignedText(Signed(x))|;
            ScanField(s[..k], 10) == if k <= n then None else Some((x, rest[..k - n - 1]))
  {
    hide SignedText, ScanField;
    var field := SignedText(Signed(x));
    var s := field + ":" + rest;
    if k <= |field| {
      assert s[..k] == field[..k];
      NoColonInNumber(Signed(x));
      NoColonNoField(s[..k], 10);
    } else {
      assert s[..k] == field + ":" + rest[..k - |field| - 1];
      ScanSigned(x, rest[..k - |field| - 1]);
    }
  }

  lemma CutMode(mode: u32, rest: string, k: nat)
    requires k <= |Pad(Numeral(mode, 8), 4) + ":" + rest|
    ensures var s, n := Pad(Numeral(mode, 8), 4) + ":" + rest, |Pad(Numeral(mode, 8), 4)|;
            ScanField(s[..k], 8) == if k <= n then None else Some((mode, rest[..k - n - 1]))
  {
    hide Pad, Numeral, ScanField;
    var field := Pad(Numeral(mode, 8), 4);
    var s := field + ":" + rest;
    if k <= |field| {
      assert s[..k] == field[..k];
      PadDigits(Numeral(mode, 8), 4, 8);
      NoColonInDigits(field, 8);
      NoColonNoField(s[..k], 8);
    } else {
      assert s[..k] == field + ":" + rest[..k - |field| - 1];
      ScanMode(mode, rest[..k - |field| - 1]);
    }
  }

  /** The last number and the name. */
  lemma CutGid(v: Version, k: nat)
    requires k <= |GidText(v) + ":" + FileName(v.rfile)|
    ensures var s, n := GidText(v) + ":" + FileName(v.rfile), |GidText(v)|;
            match ScanUnsigned(s[..k], 10)
            case None => k <= n && ScanUnsigned(GidText(v)[..k], 10) == None
            case Some((x, rest)) =>
              if k <= n then (rest == "" || rest[0] != ':') && ScanUnsigned(GidText(v)[..k], 10) == Some((x, rest))
              else x == v.gid && rest == ":" + FileName(v.rfile)[..k - n - 1]
  {
    hide SignedText, ScanUnsigned, FileName;
    var s := GidText(v) + ":" + FileName(v.rfile);
    CutSigned(v.gid, FileName(v.rfile), k);
    if k <= |GidText(v)| {
      assert s[..k] == GidText(v)[..k];
    }
  }

  lemma CutFront(v: Version, k: nat, lost: string)
    requires k < |Line(v)|
    ensures k <= |Front(v)| ==> ParseLine(Line(v)[..k], lost) == None
    ensures k > |Front(v)| ==>
              var s := (GidText(v) + ":" + FileName(v.rfile))[..k - |Front(v)|];
              ParseLine(Line(v)[..k], lost) ==
              match ScanUnsigned(s, 10)
              case None => None
              case Some((gid, rest)) =>
                Some(v.(gid := gid, rfile := if rest != "" && rest[0] == ':' then rest[1..] else lost))
  {
    hide ScanField, ScanUnsigned, SignedText, Pad, Signed, Numeral, FileName;
    var vid, svid, uid := SignedText(Signed(v.vid)), SignedText(Signed(v.svid)), SignedText(Signed(v.uid));
    var mode := Pad(Numeral(v.mode, 8), 4);
    var f5 := GidText(v) + ":" + FileName(v.rfile);
    var f4 := uid + ":" + f5;
    var f3 := mode + ":" + f4;
    var f2 := svid + ":" + f3;
    var f1 := vid + ":" + f2;
    assert Line(v) == f1 + "\n";
    assert Line(v)[..k] == f1[..k];
    CutSigned(v.vid, f2, k);
    if k > |vid| {
      var k2 := k - |vid| - 1;
      CutSigned(v.svid, f3, k2);
      if k2 > |svid| {
        var k3 := k2 - |svid| - 1;
        CutMode(v.mode, f4, k3);
        if k3 > |mode| {
          var k4 := k3 - |mode| - 1;
          CutSigned(v.uid, f5, k4);
          if k4 > |uid| {
            assert |Front(v)| == |vid| + |svid| + |mode| + |uid| + 4;
            if k == |Front(v)| { NothingScans(f5[..0]); }
          }
        }
      }
    }
  }

  lemma NothingScans(s: string)
    requires s == ""
    ensures ScanUnsigned(s, 10) == None
  {
  }

  lemma CutLineReads(v: Version, k: nat, lost: string)
    requires k < |Line(v)|
    ensures ParseLine(Line(v)[..k], lost) == CutVersion(v, k, lost)
  {
    hide ParseLine, ScanUnsigned, Front, GidText, Line, FileName;
    LineParts(v);
    CutFront(v, k, lost);
    if k > |Front(v)| { CutGid(v, k - |Front(v)|); }
  }

  /** A printed line, without its newline, scans as the version it was printed from. */
  lemma LineRoundTrip(v: Version, lost: string)
    ensures ParseLine(Line(v)[..|Line(v)| - 1], lost) == Some(Base(v))
  {
    hide ParseLine, ScanUnsigned, Front, GidText, Line, FileName;
    LineParts(v);
    CutLineReads(v, |Line(v)| - 1, lost);
    assert FileName(v.rfile)[..|FileName(v.rfile)|] == FileName(v.rfile);
  }

  // ----- the whole file -----

  function Bases(vs: seq<Version>): seq<Version> {
    if vs == [] then [] else [Base(vs[0])] + Bases(vs[1..])
  }

  /** A version the file can hold: its number is no killer's and its name stays on one line. */
  predicate Storable(v: Version) {
    v.vid >= 1 && '\n' !in FileName(v.rfile)
  }

  lemma NoNewlineInDigits(s: string, base: nat)
    requires AllDigits(s, base)
    ensures '\n' !in s
  {
  }

  lemma LineIsOneLine(v: Version)
    requires '\n' !in FileName(v.rfile)
    ensures Line(v) != "" && LineEnd(Line(v), 0) == |Line(v)| - 1
  {
    hide Numeral, Pad, FileName;
    PadDigits(Numeral(v.mode, 8), 4, 8);
    NoNewlineInDigits(Pad(Numeral(v.mode, 8), 4), 8);
    NoNewlineInNumber(v.vid);
    NoNewlineInNumber(v.svid);
    NoNewlineInNumber(v.uid);
    NoNewlineInNumber(v.gid);
    var front := SignedText(Signed(v.vid)) + ":" + SignedText(Signed(v.svid)) + ":" + Pad(Numeral(v.mode, 8), 4) + ":"
                 + SignedText(Signed(v.uid)) + ":" + SignedText(Signed(v.gid)) + ":" + FileName(v.rfile);
    assert Line(v) == front + "\n";
    assert '\n' !in front;
    OneLine(front);
  }

  lemma NoNewlineInNumber(x: u32)
    ensures '\n' !in SignedText(Signed(x))
  {
  }

  lemma OneLine(front: string)
    requires '\n' !in front
    ensures LineEnd(front + "\n", 0) == |front|
  {
    var s := front + "\n";
    assert s[|front|] == '\n';
    assert forall i | 0 <= i < |front| :: s[i] == front[i];
  }

  /** Whole lines can be read one part after the other. */
  lemma {:induction false} ParseConcat(a: string, b: string, p: Parsed, mem: Memory)
    requires a == "" || a[|a| - 1] == '\n'
    ensures ParseText(a + b, p, mem) == ParseText(b, ParseText(a, p, mem), mem)
    decreases |a|
  {
    hide ParseLine, LineEnd, LastPart;
    if a == "" {
      assert a + b == b;
      ParseNothing(p, mem);
    } else {
      var e := LineEnd(a, 0);
      SameLineEnd(a, b);
      assert (a + b)[e + 1..] == a[e + 1..] + b && (a + b)[..e] == a[..e];
      ParseConcat(a[e + 1..], b, Link(p, ParseLine(a[..e], mem.lost)), mem);
    }
  }

  lemma SameLineEnd(a: string, b: string)
    requires a != "" && a[|a| - 1] == '\n'
    ensures LineEnd(a + b, 0) == LineEnd(a, 0) >= 0
  {
    var e := LineEnd(a, 0);
    assert (a + b)[e] == '\n';
    assert forall i | 0 <= i < e :: (a + b)[i] == a[i];
  }

  lemma ParseOneLine(v: Version, p: Parsed, mem: Memory)
    requires '\n' !in FileName(v.rfile)
    ensures ParseText(Line(v), p, mem) == Link(p, Some(Base(v)))
  {
    hide ParseLine, Line, LastPart;
    LineIsOneLine(v);
    LineRoundTrip(v, mem.lost);
    var e := LineEnd(Line(v), 0);
    assert Line(v)[e + 1..] == "";
    ParseNothing(Link(p, Some(Base(v))), mem);
  }

  lemma {:induction false} LinesEnd(vs: seq<Version>)
    ensures Lines(vs) == "" || Lines(vs)[|Lines(vs)| - 1] == '\n'
  {
  }

  lemma {:induction false} ParseLines(vs: seq<Version>, mem: Memory)
    requires forall v | v in vs :: Storable(v)
    ensures ParseText(Lines(vs), EMPTY, mem) == Parsed(Bases(vs), false)
  {
    hide ParseText, Line;
    if vs == [] {
      assert ParseText("", EMPTY, mem) == EMPTY by { ParseNothing(EMPTY, mem); }
    } else {
      ParseLines(vs[1..], mem);
      LinesEnd(vs[1..]);
      ParseConcat(Lines(vs[1..]), Line(vs[0]), EMPTY, mem);
      assert vs[0] in vs;
      ParseOneLine(vs[0], Parsed(Bases(vs[1..]), false), mem);
    }
  }

  lemma ParseNothing(p: Parsed, mem: Memory)
    ensures ParseText("", p, mem) == p
  {
  }

  lemma PadOnce(s: string, width: nat)
    requires |s| < width
    ensures Pad(s, width) == Pad("0" + s, width)
  {
  }

  lemma PadFour(s: string)
    requires s == "0"
    ensures Pad(s, 4) == "0000"
  {
    hide Pad;
    var s2 := "0" + s;
    var s3 := "0" + s2;
    var s4 := "0" + s3;
    PadOnce(s, 4);
    PadOnce(s2, 4);
    PadOnce(s3, 4);
    assert Pad(s4, 4) == s4 by { PadWide(s4, 4); }
    assert s4 == ['0', '0', '0', '0'];
  }

  lemma PadWide(s: string, width: nat)
    requires |s| >= width
    ensures Pad(s, width) == s
  {
  }

  lemma ZeroText(z: nat, base: nat)
    requires z == 0 && 2 <= base <= 16
    ensures Numeral(z, base) == ['0']
  {
  }

  /** The killer line is what a version of zeros with an empty name is printed as. */
  lemma KillerIsALine(killer: Version)
    requires killer.vid == 0 && killer.svid == 0 && killer.mode == 0 && killer.uid == 0 && killer.gid == 0
    requires FileName(killer.rfile) == ""
    ensures Line(killer) == KILLER
  {
    hide Pad, Numeral, FileName;
    ZeroText(killer.mode, 8);
    ZeroText(killer.vid, 10);
    PadFour(Numeral(killer.mode, 8));
    var zero := SignedText(Signed(killer.vid));
    assert zero == ['0'];
    assert Line(killer) == zero + ":" + zero + ":" + "0000" + ":" + zero + ":" + zero + ":" + "" + "\n";
  }

  lemma OneDigit(n: nat, base: nat)
    requires n < base <= 10 && 2 <= base
    ensures Numeral(n, base) == [DIGITS[n]] && DIGITS[n] == '0' + n as char
  {
  }

  lemma Octal644(n: nat)
    requires n == 0x1A4
    ensures Numeral(n, 8) == ['6', '4', '4']
  {
    OneDigit(6, 8);
    assert Numeral(52, 8) == Numeral(6, 8) + [DIGITS[4]];
    assert Numeral(420, 8) == Numeral(52, 8) + [DIGITS[4]];
  }

  /** Version 3.1 of a file, with mode 0644, user 5 and group 6, as one line. */
  lemma LineExample(v: Version)
    requires (v.vid, v.svid, v.mode, v.uid, v.gid) == (3, 1, 0x1A4, 5, 6) && FileName(v.rfile) == "x"
    ensures Line(v) == "3:1:0644:5:6:x\n"
  {
    hide Pad, Numeral, FileName;
    Octal644(v.mode);
    OneDigit(3, 10);
    OneDigit(1, 10);
    OneDigit(5, 10);
    OneDigit(6, 10);
    PadOnce(Numeral(v.mode, 8), 4);
    PadWide("0" + Numeral(v.mode, 8), 4);
    assert Line(v) == "3" + ":" + "1" + ":" + ("0" + ['6', '4', '4']) + ":" + "5" + ":" + "6" + ":" + "x" + "\n";
  }

  /** The text `write_metadata_file` leaves. */
  function FileText(vs: seq<Version>, deleted: bool): string {
    Lines(vs) + if deleted then KILLER else ""
  }

  lemma ParseKilled(vs: seq<Version>, killer: Version, mem: Memory)
    requires forall v | v in vs :: Storable(v)
    requires killer.vid == 0 && FileName(killer.rfile) == ""
    ensures ParseText(Lines(vs) + Line(killer), EMPTY, mem) == Parsed(Bases(vs), true)
  {
    hide ParseText, Line, Lines, Bases, FileName;
    ParseLines(vs, mem);
    LinesEnd(vs);
    ParseConcat(Lines(vs), Line(killer), EMPTY, mem);
    ParseOneLine(killer, Parsed(Bases(vs), false), mem);
  }

  /** What the killer line is printed from. */
  const KILLED := Version(0, 0, 0, 0, 0, "")

  /** A whole list is read as it was written, whatever the memory holds. */
  lemma ParseFileText(vs: seq<Version>, deleted: bool, mem: Memory)
    requires forall v | v in vs :: Storable(v)
    ensures ParseText(FileText(vs, deleted), EMPTY, mem) == Parsed(Bases(vs), deleted)
  {
    hide ParseText, Line, Lines, Bases, FileName;
    if deleted {
      NoName(KILLED.rfile);
      KillerIsALine(KILLED);
      ParseKilled(vs, KILLED, mem);
    } else {
      ParseLines(vs, mem);
      assert Lines(vs) + "" == Lines(vs);
    }
  }

  // ----- a file cut short -----

  /** Of a list cut short the reader finds the oldest versions, as many as have whole lines, and then a cut line. */
  lemma {:induction false} ParseCut(vs: seq<Version>, n: nat, mem: Memory) returns (m: nat)
    requires (forall v | v in vs :: Storable(v)) && n < |Lines(vs)|
    ensures m < |vs| && |Lines(vs[|vs| - m..])| <= n < |Lines(vs[|vs| - m - 1..])|
    ensures var rest := n - |Lines(vs[|vs| - m..])|;
            rest < |Line(vs[|vs| - m - 1])|
            && ParseText(Lines(vs)[..n], EMPTY, mem) ==
               LastPart(Line(vs[|vs| - m - 1])[..rest], Parsed(Bases(vs[|vs| - m..]), false), mem)
  {
    hide ParseText, Line, Bases, FileName, LastPart;
    var older := Lines(vs[1..]);
    if n < |older| {
      m := ParseCut(vs[1..], n, mem);
      assert Lines(vs)[..n] == older[..n];
      DropTwice(vs, |vs| - 1 - m);
      DropTwice(vs, |vs| - 2 - m);
    } else {
      m := |vs| - 1;
      assert vs[0..] == vs;
      assert vs[0] in vs && Storable(vs[0]);
      CutInLine(vs[1..], vs[0], n, mem);
    }
  }

  lemma DropTwice(vs: seq<Version>, i: nat)
    requires i + 1 <= |vs|
    ensures vs[1..][i..] == vs[i + 1..]
  {
  }

  /** Whole lines and a line that is cut. */
  lemma CutInLine(vs: seq<Version>, v: Version, n: nat, mem: Memory)
    requires (forall v | v in vs :: Storable(v)) && '\n' !in FileName(v.rfile)
    requires |Lines(vs)| <= n < |Lines(vs) + Line(v)|
    ensures ParseText((Lines(vs) + Line(v))[..n], EMPTY, mem) ==
            LastPart(Line(v)[..n - |Lines(vs)|], Parsed(Bases(vs), false), mem)
  {
    hide ParseText, Line, Bases, FileName, LastPart, Lines;
    var part := Line(v)[..n - |Lines(vs)|];
    assert (Lines(vs) + Line(v))[..n] == Lines(vs) + part;
    ParseLines(vs, mem);
    LinesEnd(vs);
    ParseConcat(Lines(vs), part, EMPTY, mem);
    LineIsOneLine(v);
    ParsePart(part, Parsed(Bases(vs), false), mem);
  }

  lemma ParsePart(part: string, p: Parsed, mem: Memory)
    requires '\n' !in part
    ensures ParseText(part, p, mem) == LastPart(part, p, mem)
  {
  }

  lemma KilledText(vs: seq<Version>)
    ensures FileText(vs, true) == Lines(vs) + Line(KILLED) && '\n' !in FileName(KILLED.rfile)
  {
    hide Lines, Line, FileName;
    NoName(KILLED.rfile);
    KillerIsALine(KILLED);
  }

  lemma {:induction false} LinesShorter(vs: seq<Version>, i: nat)
    requires i <= |vs|
    ensures |Lines(vs[i..])| <= |Lines(vs)|
  {
    hide Line;
    if i > 0 {
      DropTwice(vs, i - 1);
      LinesShorter(vs[1..], i - 1);
    } else {
      assert vs[0..] == vs;
    }
  }

  // ----- when a cut line still counts -----

  /** Enough of a line is there for it to be taken for a version: all but the last number, and a digit of that. */
  predicate Scans(v: Version, k: nat, mem: Memory) {
    FoundBehind(mem.stale, k) && k > |Front(v)| + if Signed(v.gid) < 0 then 1 else 0
  }

  /**
   A cut line reads as if it were whole: only its newline is missing, or its name and the colon before it, where
   memory happens to hold that name.
   */
  predicate AsWhole(v: Version, k: nat, mem: Memory) {
    && FoundBehind(mem.stale, k)
    && (k == |Line(v)| - 1 || (k == |Front(v)| + |GidText(v)| && mem.lost == FileName(v.rfile)))
  }

  lemma {:induction false} PrefixValue(n: nat, j: nat)
    requires 0 < j < |Numeral(n, 10)|
    ensures Value(Numeral(n, 10)[..j], 10) < n
    decreases n
  {
    hide Value;
    Shorter(n, 10);
    var s := Numeral(n / 10, 10);
    assert Numeral(n, 10)[..j] == s[..j];
    if j < |s| {
      PrefixValue(n / 10, j);
    } else {
      assert s[..j] == s;
      NumeralValue(n / 10, 10);
    }
  }

  /** Part of a number scans once a digit is there, and as another number than the whole. */
  lemma CutNumber(x: u32, k: nat)
    requires k <= |SignedText(Signed(x))|
    ensures var r := ScanUnsigned(SignedText(Signed(x))[..k], 10);
            && (r.Some? <==> k > if Signed(x) < 0 then 1 else 0)
            && (r.Some? ==> (r.value.0 == x <==> k == |SignedText(Signed(x))|))
  {
    hide ScanUnsigned, Value, Numeral;
    var n := Abs(Signed(x));
    var digits := Numeral(n, 10);
    var sign := if Signed(x) < 0 then 1 else 0;
    if k <= sign {
      NoDigits(SignedText(Signed(x))[..k]);
    } else {
      var j := k - sign;
      assert SignedText(Signed(x))[..k] == (if Signed(x) < 0 then "-" else "") + digits[..j] + "";
      ScanDigits(digits[..j], "", 10);
      assert "-" + digits[..j] + "" == "-" + digits[..j] && digits[..j] + "" == digits[..j];
      NumeralValue(n, 10);
      if j < |digits| {
        PrefixValue(n, j);
      } else {
        assert digits[..j] == digits;
      }
    }
  }

  lemma AsWholeScans(v: Version, k: nat, mem: Memory)
    requires AsWhole(v, k, mem)
    ensures Scans(v, k, mem) && k < |Line(v)|
  {
    hide ScanUnsigned, Front, Line, FileName, SignedText;
    LineParts(v);
    WholeNumber(v.gid);
  }

  /** What becomes of a cut line. */
  lemma LastPartOf(v: Version, k: nat, p: Parsed, mem: Memory)
    requires k < |Line(v)|
    ensures var q := LastPart(Line(v)[..k], p, mem);
            if !Scans(v, k, mem) then q == p
            else
              var c := CutVersion(v, k, mem.lost);
              c.Some? && q == Link(p, c) && c.value.vid == v.vid && (c.value == Base(v) <==> AsWhole(v, k, mem))
  {
    hide ParseLine, ScanUnsigned, Front, Line, FileName, FoundBehind, SignedText;
    LineParts(v);
    CutLineReads(v, k, mem.lost);
    CutNumber(v.gid, |GidText(v)|);
    WholeNumber(v.gid);
    if |Front(v)| < k <= |Front(v)| + |GidText(v)| {
      CutNumber(v.gid, k - |Front(v)|);
    }
    var at := |Front(v)| + |GidText(v)|;
    if k > at && k - at - 1 == |FileName(v.rfile)| {
      assert FileName(v.rfile)[..k - at - 1] == FileName(v.rfile);
    }
  }

  lemma WholeNumber(x: u32)
    ensures |SignedText(Signed(x))| > if Signed(x) < 0 then 1 else 0
  {
  }

  lemma NoDigits(s: string)
    requires s == "" || s == "-"
    ensures ScanUnsigned(s, 10) == None
  {
  }

  lemma NoName(path: string)
    requires path == ""
    ensures FileName(path) == ""
  {
  }

  /** `rcs_fixup_metadata_paths`: the directory is put back. */
  function Fixup(dir: string, vs: seq<Version>): seq<Version> {
    if vs == [] then [] else [vs[0].(rfile := dir + "/" + vs[0].rfile)] + Fixup(dir, vs[1..])
  }

  lemma {:induction false} FixupAt(dir: string, vs: seq<Version>)
    ensures |Fixup(dir, vs)| == |vs|
    ensures forall i | 0 <= i < |vs| :: Fixup(dir, vs)[i] == vs[i].(rfile := dir + "/" + vs[i].rfile)
  {
    if vs != [] { FixupAt(dir, vs[1..]); }
  }

  /** All real files lie in the directory `dir`. */
  predicate LiveIn(dir: string, vs: seq<Version>) {
    forall i | 0 <= i < |vs| :: vs[i].rfile == dir + "/" + FileName(vs[i].rfile)
  }

  lemma {:induction false} FixupBases(dir: string, vs: seq<Version>)
    requires LiveIn(dir, vs)
    ensures Fixup(dir, Bases(vs)) == vs
  {
    hide FileName;
    if vs != [] {
      assert vs[0].rfile == dir + "/" + FileName(vs[0].rfile);
      FixupBases(dir, vs[1..]);
    }
  }

  /** Nothing the reader returns has a killer's number or a line break in its name. */
  predicate Clean(vs: seq<Version>) {
    forall i | 0 <= i < |vs| :: vs[i].vid >= 1 && '\n' !in vs[i].rfile
  }

  lemma {:induction false} ParsedIsClean(text: string, p: Parsed, mem: Memory)
    requires Clean(p.versions) && '\n' !in mem.lost
    ensures Clean(ParseText(text, p, mem).versions)
    decreases |text|
  {
    hide ParseLine, LineEnd, FoundBehind;
    var e := LineEnd(text, 0);
    if e >= 0 {
      LinkedIsClean(text[..e], p, mem.lost);
      ParsedIsClean(text[e + 1..], Link(p, ParseLine(text[..e], mem.lost)), mem);
    } else {
      LinkedIsClean(text, p, mem.lost);
    }
  }

  lemma LinkedIsClean(line: string, p: Parsed, lost: string)
    requires '\n' !in line && Clean(p.versions) && '\n' !in lost
    ensures Clean(Link(p, ParseLine(line, lost)).versions)
  {
    hide ParseLine;
    if ParseLine(line, lost).Some? { NameFromLine(line, lost); }
  }

  lemma NameFromLine(line: string, lost: string)
    requires '\n' !in line && ParseLine(line, lost).Some? && '\n' !in lost
    ensures '\n' !in ParseLine(line, lost).value.rfile
  {
    hide ScanField, ScanUnsigned;
    var s1 := ScanField(line, 10).value.1;
    ScanFieldSuffix(line, 10);
    var s2 := ScanField(s1, 10).value.1;
    ScanFieldSuffix(s1, 10);
    var s3 := ScanField(s2, 8).value.1;
    ScanFieldSuffix(s2, 8);
    var s4 := ScanField(s3, 10).value.1;
    ScanFieldSuffix(s3, 10);
    ScanSuffix(s4, 10);
  }

  lemma ScanFieldSuffix(s: string, base: nat)
    requires 2 <= base <= 16 && '\n' !in s && ScanField(s, base).Some?
    ensures '\n' !in ScanField(s, base).value.1
  {
    hide ScanUnsigned;
    ScanSuffix(s, base);
  }

  /** What follows a number is made of the characters that were there. */
  lemma ScanSuffix(s: string, base: nat)
    requires 2 <= base <= 16 && ScanUnsigned(s, base).Some?
    ensures forall c | c in ScanUnsigned(s, base).value.1 :: c in s
  {
    SkipSpaceSuffix(s);
  }

  lemma {:induction false} SkipSpaceSuffix(s: string)
    ensures forall c | c in SkipSpace(s) :: c in s
  {
    if s != "" && IsSpace(s[0]) { SkipSpaceSuffix(s[1..]); }
  }

  /** Parsing the written file and putting the directory back gives the same versions and delete flag. */
  predicate ComesBack(dir: string, vs: seq<Version>, deleted: bool, mem: Memory) {
    var p := ParseText(FileText(vs, deleted), EMPTY, mem);
    Fixup(dir, p.versions) == vs && p.deleted == deleted
  }

  lemma StorableComesBack(dir: string, vs: seq<Version>, deleted: bool, mem: Memory)
    requires LiveIn(dir, vs) && forall v | v in vs :: Storable(v)
    ensures ComesBack(dir, vs, deleted, mem)
  {
    hide ParseText, FileText, FileName, Fixup, Bases;
    ParseFileText(vs, deleted, mem);
    FixupBases(dir, vs);
  }

  /**
   Saving and loading: the list comes back, in the same order and whatever the reader's memory holds, if and only
   if every version is storable.
   */
  lemma SaveLoad(dir: string, vs: seq<Version>, deleted: bool)
    requires LiveIn(dir, vs)
    ensures (forall mem :: ComesBack(dir, vs, deleted, mem)) <==> forall v | v in vs :: Storable(v)
  {
    hide ParseText, FileText, FileName, Fixup, Bases;
    if forall v | v in vs :: Storable(v) {
      forall mem
        ensures ComesBack(dir, vs, deleted, mem)
      {
        StorableComesBack(dir, vs, deleted, mem);
      }
    } else {
      var mem := Memory(false, "");
      var p := ParseText(FileText(vs, deleted), EMPTY, mem);
      ParsedIsClean(FileText(vs, deleted), EMPTY, mem);
      FixupAt(dir, p.versions);
      if ComesBack(dir, vs, deleted, mem) {
        forall i | 0 <= i < |vs|
          ensures Storable(vs[i])
        {
          var name, base := p.versions[i].rfile, FileName(vs[i].rfile);
          assert vs[i].rfile == dir + "/" + name == dir + "/" + base;
          assert (dir + "/" + name)[|dir| + 1..] == name && (dir + "/" + base)[|dir| + 1..] == base;
        }
      }
    }
  }

  // ----- the pin -----

  /** `write_default_file`: the file's new contents, None when it is removed. */
  function PinText(vid: int32, svid: int32): Option<string> {
    if vid == LATEST then None else Some(SignedText(vid) + "." + SignedText(svid) + "\n")
  }

  lemma PinExample()
    ensures PinText(3, 1) == Some("3.1\n")
  {
    hide Numeral;
    OneDigit(3, 10);
    OneDigit(1, 10);
    assert PinText(3, 1) == Some(SignedText(3) + "." + SignedText(1) + "\n");
    assert SignedText(3) + "." + SignedText(1) + "\n" == ['3', '.', '1', '\n'];
  }

  /** `%i`: the base is given away by a leading `0x` or `0`. */
  function ScanInt(s: string): Option<(int32, string)> {
    var t := SkipSpace(s);
    ScanMagnitude(if HasSign(t) then t[1..] else t, HasSign(t) && t[0] == '-')
  }

  function ScanMagnitude(s: string, negative: bool): Option<(int32, string)> {
    var hex := |s| > 2 && s[0] == '0' && (s[1] == 'x' || s[1] == 'X') && IsDigit(s[2], 16);
    var base := if hex then 16 else if s != "" && s[0] == '0' then 8 else 10;
    var digits := if hex then s[2..] else s;
    var k := Span(digits, base);
    if k == 0 then None else Some((Signed(ToU32(Value(digits[..k], base), negative)), digits[k..]))
  }

  /** `parse_default_file`: the first line scanned with `"%i.%i"`; no file or no such line means LATEST. */
  function ParsePin(text: Option<string>): (int32, int32) {
    if text.None? || LineEnd(text.value, 0) < 0 then (LATEST, LATEST)
    else
      match ScanInt(text.value[..LineEnd(text.value, 0)])
      case None => (LATEST, LATEST)
      case Some((vid, rest)) =>
        if rest == "" || rest[0] != '.' then (LATEST, LATEST)
        else
          match ScanInt(rest[1..])
          case None => (LATEST, LATEST)
          case Some((svid, _)) => (vid, svid)
  }

  lemma ScanMagnitudeDigits(digits: string, rest: string, base: nat, negative: bool)
    requires digits != "" && AllDigits(digits, base) && (rest == "" || rest[0] == '.')
    requires if digits[0] == '0' then base == 8 && |digits| == 1 else base == 10
    ensures ScanMagnitude(digits + rest, negative) == Some((Signed(ToU32(Value(digits, base), negative)), rest))
  {
    hide Value, ToU32, Signed;
    var s := digits + rest;
    assert s[0] == digits[0];
    SpanOf(digits, rest, base);
    assert s[..|digits|] == digits && s[|digits|..] == rest;
  }

  lemma ScanIntDigits(digits: string, rest: string, base: nat, negative: bool)
    requires digits != "" && AllDigits(digits, base) && (rest == "" || rest[0] == '.')
    requires if digits[0] == '0' then base == 8 && |digits| == 1 else base == 10
    ensures ScanInt((if negative then "-" else "") + digits + rest)
         == Some((Signed(ToU32(Value(digits, base), negative)), rest))
  {
    hide ScanMagnitude, Value, ToU32, Signed;
    ScanMagnitudeDigits(digits, rest, base, negative);
    var body := digits + rest;
    var s := (if negative then "-" else "") + digits + rest;
    assert IsDigit(digits[0], base) && body[0] == digits[0];
    if negative {
      assert s == "-" + body && s[1..] == body;
    } else {
      assert s == body;
    }
  }

  lemma ScanIntText(n: int32, rest: string)
    requires rest == "" || rest[0] == '.'
    ensures ScanInt(SignedText(n) + rest) == Some((n, rest))
  {
    hide Numeral, Value, ScanInt, ToU32, Signed, AllDigits;
    var digits := Numeral(Abs(n), 10);
    NumeralValue(Abs(n), 10);
    BackToSigned(n);
    if n == 0 {
      Zero();
      ScanIntDigits(digits, rest, 8, false);
    } else {
      NoLeadingZero(Abs(n), 10);
      ScanIntDigits(digits, rest, 10, n < 0);
    }
    assert SignedText(n) == (if n < 0 then "-" else "") + digits;
  }

  lemma BackToSigned(n: int32)
    ensures Signed(ToU32(Abs(n), n < 0)) == n
  {
  }

  lemma Zero()
    ensures Numeral(0, 10) == "0" && AllDigits("0", 8) && Value("0", 8) == 0
  {
  }

  /** A pin is read back as it was set; releasing it reads back as LATEST, whatever the subversion. */
  lemma PinRoundTrip(vid: int32, svid: int32)
    ensures ParsePin(PinText(vid, svid)) == if vid == LATEST then (LATEST, LATEST) else (vid, svid)
  {
    hide ScanInt, SignedText;
    if vid != LATEST {
      var line := SignedText(vid) + "." + SignedText(svid);
      NoNewlineInPin(vid);
      NoNewlineInPin(svid);
      OneLine(line);
      var rest := "." + SignedText(svid);
      assert line == SignedText(vid) + rest && rest[1..] == SignedText(svid);
      assert SignedText(svid) + "" == SignedText(svid);
      ScanIntText(vid, rest);
      ScanIntText(svid, "");
    }
  }

  lemma NoNewlineInPin(n: int32)
    ensures '\n' !in SignedText(n)
  {
  }
}
