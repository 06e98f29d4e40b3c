/**
 CopyFS string helpers (`helper.c`): splitting a path, gluing strings and arrays together, reading lines.
 A string is what comes before the terminating NUL.
 */
module Helper {
  import opened Bytes
  import opened Text

  // ----- splitting -----

  /** The length of the run of other characters a string starts with. */
  function ItemLength(s: string, separator: char): (k: nat)
    ensures k <= |s|
    ensures forall i | 0 <= i < k :: s[i] != separator
    ensures k < |s| ==> s[k] == separator
  {
    if s == "" || s[0] == separator then 0 else 1 + ItemLength(s[1..], separator)
  }

  /** The maximal non-empty runs of characters other than the separator, in order. */
  function Split(s: string, separator: char): seq<string>
    decreases |s|
  {
    if s == "" then []
    else if s[0] == separator then Split(s[1..], separator)
    else
      var k := ItemLength(s, separator);
      [s[..k]] + Split(s[k..], separator)
  }

  /** A path element: what `Split` yields. */
  predicate IsItem(s: string, separator: char) {
    s != "" && separator !in s
  }

  lemma {:induction false} SplitItems(s: string, separator: char)
    ensures forall e | e in Split(s, separator) :: IsItem(e, separator)
    decreases |s|
  {
    if s != "" {
      if s[0] == separator {
        SplitItems(s[1..], separator);
      } else {
        SplitItems(s[ItemLength(s, separator)..], separator);
      }
    }
  }

  /** Items left to count when `i` characters have been looked at: an item already begun is counted. */
  function StillToCome(s: string, separator: char, i: nat): seq<string>
    requires i <= |s|
  {
    if i > 0 && s[i - 1] != separator then Split(s[i + ItemLength(s[i..], separator)..], separator)
    else Split(s[i..], separator)
  }

  lemma ItemLengthStep(s: string, separator: char, i: nat)
    requires i < |s|
    ensures ItemLength(s[i..], separator) == if s[i] == separator then 0 else 1 + ItemLength(s[i + 1..], separator)
  {
    assert s[i..][0] == s[i] && s[i..][1..] == s[i + 1..];
  }

  /** An item that starts at `i` is the first one from there on. */
  lemma FirstItem(s: string, separator: char, i: nat)
    requires i < |s| && s[i] != separator
    ensures var end := i + ItemLength(s[i..], separator);
            Split(s[i..], separator) == [s[i..end]] + Split(s[end..], separator)
  {
    var t := s[i..];
    var k := ItemLength(t, separator);
    assert t[0] == s[i] && t[..k] == s[i..i + k] && t[k..] == s[i + k..];
  }

  lemma CountStep(s: string, separator: char, i: nat)
    requires i < |s|
    ensures |StillToCome(s, separator, i)| ==
            |StillToCome(s, separator, i + 1)|
            + if s[i] != separator && (i == 0 || s[i - 1] == separator) then 1 else 0
  {
    hide Split, ItemLength;
    ItemLengthStep(s, separator, i);
    if s[i] == separator {
      SkipSeparator(s, separator, i);
    } else {
      FirstItem(s, separator, i);
    }
  }

  lemma CountEnds(s: string, separator: char)
    ensures StillToCome(s, separator, 0) == Split(s, separator) && StillToCome(s, separator, |s|) == []
  {
    assert s[0..] == s;
    assert s[|s|..] == "" && ItemLength("", separator) == 0;
  }

  /** The counting pass of `helper_split_to_array`. */
  method CountItems(s: string, separator: char) returns (count: nat)
    ensures count == |Split(s, separator)|
  {
    hide Split, StillToCome;
    count := 0;
    CountEnds(s, separator);
    var i := 0;
    while i < |s|
      invariant 0 <= i <= |s|
      invariant count + |StillToCome(s, separator, i)| == |Split(s, separator)|
    {
      CountStep(s, separator, i);
      if i == 0 {
        if s[i] != separator { count := count + 1; }
      } else if s[i - 1] == separator && s[i] != separator {
        count := count + 1;
      }
      i := i + 1;
    }
  }

  /** `helper_split_to_array`: the second pass fills exactly the array the first one made room for. */
  method SplitToArray(s: string, separator: char) returns (result: seq<string>)
    ensures result == Split(s, separator)
  {
    hide Split;
    var total := CountItems(s, separator);
    if total == 0 { return []; }
    var items := new string[total];
    var count, start, i := 0, -1, 0;
    ghost var done, left := [], s;
    while i == 0 || i <= |s|
      invariant 0 <= i <= |s| + 1 && -1 <= start < i
      invariant i == |s| + 1 ==> start == -1
      invariant start >= 0 ==> forall j | start <= j < i :: s[j] != separator
      invariant left == s[if start >= 0 then start else Min(i, |s|)..]
      invariant done + Split(left, separator) == Split(s, separator)
      invariant count == |done| <= total && items[..count] == done
      decreases |s| + 1 - i
    {
      if i == |s| || s[i] == separator {
        if start >= 0 {
          var item := s[start..i];
          TakeItem(s, separator, start, i);
          assert done + ([item] + Split(s[i..], separator)) == (done + [item]) + Split(s[i..], separator);
          items[count] := item;
          done := done + [item];
          count := count + 1;
          start := -1;
        }
        SkipSeparator(s, separator, i);
        left := s[Min(i + 1, |s|)..];
      } else if start == -1 {
        start := i;
      }
      i := i + 1;
    }
    NothingLeft(s, separator);
    assert items[..count] == items[..];
    result := items[..];
  }

  lemma NothingLeft(s: string, separator: char)
    ensures Split(s[|s|..], separator) == []
  {
  }

  lemma TakeItem(s: string, separator: char, start: nat, end: nat)
    requires start < end <= |s| && forall j | start <= j < end :: s[j] != separator
    requires end == |s| || s[end] == separator
    ensures Split(s[start..], separator) == [s[start..end]] + Split(s[end..], separator)
  {
    var rest := s[start..];
    ItemEnds(rest, separator, end - start);
    assert rest[..end - start] == s[start..end] && rest[end - start..] == s[end..];
    assert rest[0] == s[start];
  }

  lemma SkipSeparator(s: string, separator: char, i: nat)
    requires i <= |s| && (i == |s| || s[i] == separator)
    ensures Split(s[i..], separator) == Split(s[Min(i + 1, |s|)..], separator)
  {
  }

  lemma {:induction false} ItemEnds(s: string, separator: char, k: nat)
    requires k <= |s| && forall i | 0 <= i < k :: s[i] != separator
    requires k == |s| || s[k] == separator
    ensures ItemLength(s, separator) == k
  {
  }

  lemma SplitFirst(s: string, separator: char)
    ensures Split(s, separator) ==
            if s == "" then []
            else if s[0] == separator then Split(s[1..], separator)
            else [s[..ItemLength(s, separator)]] + Split(s[ItemLength(s, separator)..], separator)
  {
  }

  lemma FirstOfItem(s: string, separator: char)
    requires s != "" && s[0] != separator
    ensures ItemLength(s, separator) > 0
  {
  }

  /** A separator only separates: with what is above this says what `Split` makes of every string. */
  lemma {:induction false} SplitConcat(a: string, b: string, separator: char)
    ensures Split(a + [separator] + b, separator) == Split(a, separator) + Split(b, separator)
    decreases |a|
  {
    hide Split, ItemLength;
    var s := a + [separator] + b;
    SplitFirst(s, separator);
    SplitFirst(a, separator);
    if a == "" {
      assert s[1..] == b;
    } else if a[0] == separator {
      PartsOf(a, b, separator, 1);
      SplitConcat(a[1..], b, separator);
    } else {
      var k := ItemLength(a, separator);
      FirstOfItem(a, separator);
      PartsOf(a, b, separator, k);
      ItemEnds(s, separator, k);
      SplitConcat(a[k..], b, separator);
      OneMoreItem(a[..k], Split(a[k..], separator), Split(b, separator));
    }
  }

  lemma PartsOf(a: string, b: string, separator: char, k: nat)
    requires k <= |a|
    ensures var s := a + [separator] + b;
            && s[..k] == a[..k] && s[k..] == a[k..] + [separator] + b
            && (forall i | 0 <= i < k :: s[i] == a[i]) && s[k] == (if k < |a| then a[k] else separator)
  {
  }

  lemma OneMoreItem(item: string, a: seq<string>, b: seq<string>)
    ensures [item] + (a + b) == [item] + a + b
  {
  }

  // ----- gluing -----

  function Join(items: seq<string>, separator: string): string {
    if items == [] then ""
    else if |items| == 1 then items[0]
    else items[0] + separator + Join(items[1..], separator)
  }

  /** One argument of `helper_build_composite` with its format letter: `S`, `A` or `-`. */
  datatype Piece = Str(s: string) | Arr(a: seq<string>) | Dash

  function PieceText(p: Piece, separator: string): string {
    match p
    case Str(s) => s
    case Arr(a) => Join(a, separator)
    case Dash => separator
  }

  /** No separator at the end or around an explicit one; one between any other two pieces. */
  function Composite(ps: seq<Piece>, separator: string): string {
    if ps == [] then ""
    else
      PieceText(ps[0], separator)
      + (if !ps[0].Dash? && |ps| > 1 && !ps[1].Dash? then separator else "")
      + Composite(ps[1..], separator)
  }

  /** The counting pass over one array. */
  method JoinLength(a: seq<string>, separator: string) returns (length: nat)
    ensures length == |Join(a, separator)|
  {
    length := 0;
    assert a[0..] == a;
    for j := 0 to |a|
      invariant length + |Join(a[j..], separator)| == |Join(a, separator)|
    {
      assert a[j..][1..] == a[j + 1..];
      length := length + |a[j]|;
      if j + 1 < |a| { length := length + |separator|; }
    }
  }

  method CompositeLength(ps: seq<Piece>, separator: string) returns (length: nat)
    ensures length == |Composite(ps, separator)|
  {
    length := 0;
    assert ps[0..] == ps;
    for i := 0 to |ps|
      invariant length + |Composite(ps[i..], separator)| == |Composite(ps, separator)|
    {
      assert ps[i..][1..] == ps[i + 1..];
      if ps[i].Dash? {
        length := length + |separator|;
      } else {
        if ps[i].Str? {
          length := length + |ps[i].s|;
        } else {
          var n := JoinLength(ps[i].a, separator);
          length := length + n;
        }
        if i + 1 < |ps| && !ps[i + 1].Dash? { length := length + |separator|; }
      }
    }
  }

  /** The copying pass over one array: `strcat` by `strcat`. */
  method AppendJoin(buffer: string, a: seq<string>, separator: string) returns (buffer': string)
    ensures buffer' == buffer + Join(a, separator)
  {
    buffer' := buffer;
    assert a[0..] == a;
    for j := 0 to |a|
      invariant buffer' + Join(a[j..], separator) == buffer + Join(a, separator)
    {
      assert a[j..][1..] == a[j + 1..];
      buffer' := buffer' + a[j];
      if j + 1 < |a| { buffer' := buffer' + separator; }
    }
  }

  method AppendPiece(buffer: string, p: Piece, separator: string) returns (buffer': string)
    ensures buffer' == buffer + PieceText(p, separator)
  {
    match p
    case Dash => buffer' := buffer + separator;
    case Str(s) => buffer' := buffer + s;
    case Arr(a) => buffer' := AppendJoin(buffer, a, separator);
  }

  function Strs(items: seq<string>): seq<Piece> {
    if items == [] then [] else [Str(items[0])] + Strs(items[1..])
  }

  /** A string and the pieces behind it. */
  lemma StrFirst(s: string, ps: seq<Piece>, separator: string)
    ensures Composite([Str(s)] + ps, separator)
         == s + (if ps != [] && !ps[0].Dash? then separator else "") + Composite(ps, separator)
  {
    hide Join;
    assert ([Str(s)] + ps)[1..] == ps;
  }

  lemma JoinFirst(items: seq<string>, separator: string)
    requires items != []
    ensures Join(items, separator) ==
            if |items| == 1 then items[0] else items[0] + separator + Join(items[1..], separator)
  {
  }

  lemma Regroup(a: string, b: string, c: string)
    ensures a + (b + c) == a + b + c
  {
  }

  lemma DashFirst(ps: seq<Piece>, separator: string)
    ensures Composite([Dash] + ps, separator) == separator + Composite(ps, separator)
  {
    assert ([Dash] + ps)[1..] == ps;
  }

  /**
   Strings are glued as an array of them is joined, and to what follows by one separator, whether that is asked for
   or not.
   */
  lemma {:induction false} CompositeJoins(items: seq<string>, ps: seq<Piece>, separator: string)
    requires items != []
    ensures Composite(Strs(items) + ps, separator) == Join(items, separator) +
            if ps == [] then "" else separator + Composite(if ps[0].Dash? then ps[1..] else ps, separator)
  {
    hide Composite, Join;
    var rest := Strs(items[1..]) + ps;
    assert Strs(items) + ps == [Str(items[0])] + rest;
    StrFirst(items[0], rest, separator);
    NoPieces(separator);
    JoinFirst(items, separator);
    if |items| > 1 {
      CompositeJoins(items[1..], ps, separator);
      assert rest[0] == Str(items[1]);
      var tail := if ps == [] then "" else separator + Composite(if ps[0].Dash? then ps[1..] else ps, separator);
      Regroup(items[0] + separator, Join(items[1..], separator), tail);
    } else {
      assert rest == ps;
      if ps != [] && ps[0].Dash? {
        assert ps == [Dash] + ps[1..];
        DashFirst(ps[1..], separator);
      }
    }
  }

  lemma NoPieces(separator: string)
    ensures Composite([], separator) == ""
  {
  }

  lemma PieceAt(ps: seq<Piece>, separator: string, i: nat)
    requires i < |ps|
    ensures Composite(ps[i..], separator) ==
            PieceText(ps[i], separator) + (if !ps[i].Dash? && i + 1 < |ps| && !ps[i + 1].Dash? then separator else "")
            + Composite(ps[i + 1..], separator)
  {
    hide PieceText;
    assert ps[i..][1..] == ps[i + 1..];
  }

  /** `helper_build_composite`: what is written has exactly the length that was counted for the buffer. */
  method BuildComposite(ps: seq<Piece>, separator: string) returns (result: string, length: nat)
    ensures result == Composite(ps, separator) && |result| == length
  {
    hide PieceText, Join, Composite;
    length := CompositeLength(ps, separator);
    result := "";
    NoPieces(separator);
    assert ps[|ps|..] == [];
    assert ps[0..] == ps;
    for i := 0 to |ps|
      invariant result + Composite(ps[i..], separator) == Composite(ps, separator)
    {
      ghost var before := result;
      ghost var rest := Composite(ps[i + 1..], separator);
      result := AppendPiece(result, ps[i], separator);
      var glue := if !ps[i].Dash? && i + 1 < |ps| && !ps[i + 1].Dash? then separator else "";
      PieceAt(ps, separator, i);
      result := result + glue;
      assert result + rest == before + (PieceText(ps[i], separator) + glue + rest);
    }
  }

  // ----- splitting what was glued -----

  /** Splitting a joined list of path elements returns that list, with or without a leading separator. */
  lemma {:induction false} SplitJoin(items: seq<string>, separator: char)
    requires forall e | e in items :: IsItem(e, separator)
    ensures Split(Join(items, [separator]), separator) == items
    ensures Split([separator] + Join(items, [separator]), separator) == items
  {
    var s := Join(items, [separator]);
    assert ([separator] + s)[1..] == s;
    if items != [] {
      SplitJoin(items[1..], separator);
      var first := items[0];
      assert first in items;
      var rest := if |items| == 1 then "" else [separator] + Join(items[1..], [separator]);
      assert s == first + rest;
      ItemEnds(s, separator, |first|);
      assert s[..|first|] == first && s[|first|..] == rest;
      assert s[0] == first[0];
    }
  }

  // ----- parts of a path -----

  /** `helper_extract_filename` and `helper_extract_dirname`; also the stripping `rindex` of `write.c`. */
  function FileName(path: string): string {
    path[LastIndex(path, '/') + 1..]
  }

  function DirName(path: string): string {
    if LastIndex(path, '/') < 0 then "" else path[..LastIndex(path, '/')]
  }

  lemma FileNameOf(dir: string, name: string)
    requires '/' !in name
    ensures FileName(dir + "/" + name) == name && DirName(dir + "/" + name) == dir
  {
    var path := dir + "/" + name;
    var p := LastIndex(path, '/');
    assert path[|dir|] == '/';
    assert forall i | |dir| < i < |path| :: path[i] == name[i - |dir| - 1];
    assert p == |dir|;
    assert path[|dir| + 1..] == name && path[..|dir|] == dir;
  }

  // ----- lines -----

  const LINE_BUFFER_STEP: nat := 1024

  /** Where the line that starts at `pos` ends, if it does: the next newline. */
  function LineEnd(text: string, pos: nat): (e: int)
    requires pos <= |text|
    ensures e == -1 || pos <= e < |text|
    ensures e >= 0 ==> text[e] == '\n' && forall i | pos <= i < e :: text[i] != '\n'
    ensures e < 0 ==> forall i | pos <= i < |text| :: text[i] != '\n'
    decreases |text| - pos
  {
    if pos == |text| then -1 else if text[pos] == '\n' then pos else LineEnd(text, pos + 1)
  }

  /** `fgets`: at most `size - 1` characters, up to and including a newline; nothing at the end of the file. */
  method Fgets(text: string, pos: nat, size: nat) returns (chunk: string, pos': nat)
    requires pos <= |text| && size >= 2
    ensures pos' == pos + |chunk| <= |text| && chunk == text[pos..pos']
    ensures chunk == "" <==> pos == |text|
    ensures forall i | 0 <= i < |chunk| - 1 :: chunk[i] != '\n'
    ensures chunk != "" && chunk[|chunk| - 1] != '\n' ==> |chunk| == size - 1 || pos' == |text|
    ensures |chunk| < size
  {
    pos' := pos;
    while pos' < |text| && pos' - pos < size - 1
      invariant pos <= pos' <= |text| && pos' - pos <= size - 1
      invariant forall i | pos <= i < pos' :: text[i] != '\n'
    {
      pos' := pos' + 1;
      if text[pos' - 1] == '\n' { break; }
    }
    chunk := text[pos..pos'];
  }

  /**
   Whether a newline is found behind an unterminated last part of `n` characters: the reader also searches the rest
   of its buffer, which holds whatever was there before, and which is there unless the part just fills the buffer.
   */
  predicate FoundBehind(stale: bool, n: nat) {
    stale && (n + 1) % LINE_BUFFER_STEP != 0
  }

  /** What is read at `pos`: the text up to the next newline, or what is taken for a line at the end of the file. */
  predicate LineRead(text: string, pos: nat, stale: bool, line: Option<string>, next: nat, eof: bool)
    requires pos <= |text|
  {
    var e := LineEnd(text, pos);
    if e >= 0 then !eof && line == Some(text[pos..e]) && next == e + 1
    else
      eof && next == |text|
      && line == if pos < |text| && FoundBehind(stale, |text| - pos) then Some(text[pos..]) else None
  }

  predicate NoNewline(s: string) {
    forall i | 0 <= i < |s| :: s[i] != '\n'
  }

  lemma LineFound(text: string, pos: nat, next: nat, stale: bool)
    requires pos < next <= |text| && NoNewline(text[pos..next - 1]) && text[next - 1] == '\n'
    ensures LineRead(text, pos, stale, Some(text[pos..next - 1]), next, false)
  {
    assert forall i | pos <= i < next - 1 :: text[i] == text[pos..next - 1][i - pos];
  }

  lemma EndFound(text: string, pos: nat, stale: bool, line: Option<string>)
    requires pos <= |text| && NoNewline(text[pos..])
    requires line == if pos < |text| && FoundBehind(stale, |text| - pos) then Some(text[pos..]) else None
    ensures LineRead(text, pos, stale, line, |text|, true)
  {
    hide FoundBehind;
    assert forall i | pos <= i < |text| :: text[i] == text[pos..][i - pos];
  }

  lemma PartAppended(text: string, pos: nat, at: nat, next: nat)
    requires pos <= at <= next <= |text|
    ensures text[pos..at] + text[at..next] == text[pos..next]
    ensures NoNewline(text[pos..at]) && NoNewline(text[at..next]) ==> NoNewline(text[pos..next])
    ensures at < next ==> text[pos..at] + text[at..next - 1] == text[pos..next - 1]
  {
  }

  lemma PartFills(n: nat, q: nat, stale: bool)
    ensures 1024 * q < n + 1 < 1024 * q + 1024 && stale ==> FoundBehind(stale, n)
    ensures n + 1 == 1024 * q || !stale ==> !FoundBehind(stale, n)
  {
    if 1024 * q < n + 1 < 1024 * q + 1024 { assert n + 1 - 1024 * q == (n + 1) % 1024; }
  }

  /**
   `helper_read_line`: a growing buffer filled piece by piece, and whether the end of the file was met. `stale`
   chooses whether the memory behind what was read holds a newline; then a last part without one is a line, too.
   */
  method ReadLine(text: string, pos: nat, stale: bool) returns (line: Option<string>, next: nat, eof: bool)
    requires pos <= |text|
    ensures LineRead(text, pos, stale, line, next, eof)
  {
    hide LineRead, FoundBehind, NoNewline;
    var buffer, bufferPos, bufferSize, at := "", 0, LINE_BUFFER_STEP, pos;
    ghost var q := 0;
    assert NoNewline("") by { Nothing(); }
    while true
      invariant pos <= at <= |text| && buffer == text[pos..at] && NoNewline(buffer)
      invariant bufferSize == 1024 * q + 1024 && bufferPos == if q == 0 then 0 else 1024 * q - 1
      invariant |buffer| == bufferPos || (at == |text| && !stale)
      decreases |text| - at
    {
      var room := bufferSize - bufferPos;
      var chunk, next' := Fgets(text, at, room);
      PartAppended(text, pos, at, next');
      PartFills(|buffer|, q, stale);
      if chunk == "" {
        assert text[pos..at] == text[pos..];
        EndFound(text, pos, stale, None);
        return None, at, true;
      }
      ChunkParts(text, at, next', chunk);
      if chunk[|chunk| - 1] == '\n' {
        PartAppended(text, pos, at, next' - 1);
        LineFound(text, pos, next', stale);
        return Some(text[pos..next' - 1]), next', false;
      }
      buffer, at := buffer + chunk, next';
      if |chunk| + 1 < room && stale {
        assert text[pos..at] == text[pos..];
        PartFills(|buffer|, q, stale);
        EndFound(text, pos, stale, Some(buffer));
        return Some(buffer), at, true;
      }
      bufferPos := bufferSize - 1;
      bufferSize := bufferSize + LINE_BUFFER_STEP;
      q := q + 1;
    }
  }

  lemma Nothing()
    ensures NoNewline("")
  {
  }

  lemma ChunkParts(text: string, at: nat, next: nat, chunk: string)
    requires at < next <= |text| && chunk == text[at..next] && forall i | 0 <= i < |chunk| - 1 :: chunk[i] != '\n'
    ensures chunk[|chunk| - 1] == text[next - 1] && NoNewline(text[at..next - 1])
    ensures chunk[|chunk| - 1] != '\n' ==> NoNewline(text[at..next])
  {
    assert text[at..next - 1] == chunk[..|chunk| - 1];
  }
}
