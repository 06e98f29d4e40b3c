/**
 CopyFS tag files (`copyfs-fversion`): one line per file of a tree. Restoring reads the lines back and pins every
 file to the version its line names.
 */
module TagFile {
  import opened Bytes
  import opened Text
  import opened Helper
  import opened MetadataFile
  import opened Versions
  import opened TagRestore

  /** A path and the version it is tagged with. */
  datatype Entry = Entry(path: string, vid: int32, svid: int32)

  function EntryText(e: Entry): string {
    e.path + "|" + TagText(e.vid, e.svid)
  }

  /** `generate_tag_file_for_directory` for the files it meets, in order. */
  function TagFileText(entries: seq<Entry>): string {
    if entries == [] then "" else EntryText(entries[0]) + "\n" + TagFileText(entries[1..])
  }

  /** A line of a tag file as the restoring script reads it. */
  datatype ReadEntry = ReadEntry(path: string, vid: nat, svid: nat)

  /** `^([^\|]+)\|(\d+).(\d+)`: the path is what comes before the first bar. */
  function ParseEntry(line: string): Option<ReadEntry> {
    var k := ItemLength(line, '|');
    if k == 0 || k == |line| then None
    else
      match ReadTag(line[k + 1..])
      case None => None
      case Some((vid, svid)) => Some(ReadEntry(line[..k], vid, svid))
  }

  /** The lines that read as an entry; others are passed over. */
  function ReadTagFile(text: string): seq<ReadEntry>
    decreases |text|
  {
    var e := LineEnd(text, 0);
    if text == "" then []
    else
      var line := if e < 0 then text else text[..e];
      var rest := if e < 0 then "" else text[e + 1..];
      (match ParseEntry(line) case None => [] case Some(x) => [x]) + ReadTagFile(rest)
  }

  /** A path the file format can hold, with a version of the form x.y. */
  predicate Listable(e: Entry) {
    e.path != "" && '|' !in e.path && '\n' !in e.path && e.vid >= 0 && e.svid >= 0
  }

  lemma EntryRoundTrip(e: Entry)
    requires Listable(e)
    ensures ParseEntry(EntryText(e)) == Some(ReadEntry(e.path, e.vid, e.svid))
    ensures '\n' !in EntryText(e)
  {
    hide ReadTag, SignedText, ItemLength;
    var line := EntryText(e);
    var tag := TagText(e.vid, e.svid);
    assert line == e.path + ("|" + tag);
    assert line[|e.path|] == '|' && line[|e.path| + 1..] == tag && line[..|e.path|] == e.path;
    ItemEnds(line, '|', |e.path|);
    TagRoundTrip(e.vid, e.svid);
    NoNewlineInPin(e.vid);
    NoNewlineInPin(e.svid);
  }

  /** Of a path with a bar only what comes before it is taken for the path, and what follows for the version. */
  lemma BarCutsPath(e: Entry, a: string, b: string)
    requires '|' !in a && e.path == a + "|" + b
    ensures ParseEntry(EntryText(e)) ==
            if a == "" then None
            else
              match ReadTag(b + "|" + TagText(e.vid, e.svid))
              case None => None
              case Some((vid, svid)) => Some(ReadEntry(a, vid, svid))
  {
    hide ReadTag, ItemLength, TagText;
    var line := EntryText(e);
    var rest := b + "|" + TagText(e.vid, e.svid);
    assert line == a + ("|" + rest);
    assert line[|a|] == '|' && line[|a| + 1..] == rest && line[..|a|] == a;
    ItemEnds(line, '|', |a|);
  }

  lemma BarFreePath(e: Entry)
    requires '|' !in e.path
    ensures ParseEntry(EntryText(e)) ==
            if e.path == "" then None
            else
              match ReadTag(TagText(e.vid, e.svid))
              case None => None
              case Some((vid, svid)) => Some(ReadEntry(e.path, vid, svid))
  {
    hide ReadTag, ItemLength, TagText;
    var line := EntryText(e);
    var tag := TagText(e.vid, e.svid);
    assert line == e.path + ("|" + tag);
    assert line[|e.path|] == '|' && line[|e.path| + 1..] == tag && line[..|e.path|] == e.path;
    ItemEnds(line, '|', |e.path|);
  }

  predicate ReadsAs(r: ReadEntry, e: Entry) {
    r.path == e.path && r.vid == e.vid && r.svid == e.svid
  }

  /** A line is read back if and only if its path is not empty and has no bar and its version has the form x.y. */
  lemma EntryReadBack(e: Entry)
    ensures (var r := ParseEntry(EntryText(e)); r.Some? && ReadsAs(r.value, e))
       <==> e.path != "" && '|' !in e.path && e.vid >= 0 && e.svid >= 0
  {
    hide ReadTag, TagText;
    if '|' in e.path {
      var k := ItemLength(e.path, '|');
      assert e.path == e.path[..k] + "|" + e.path[k + 1..];
      BarCutsPath(e, e.path[..k], e.path[k + 1..]);
    } else {
      BarFreePath(e);
      TagReadBack(e.vid, e.svid);
      TagReads(e.vid, e.svid);
    }
  }

  /** The unescaped dot of the pattern matches a bar: version 1.0 of `a|12` is read as version 12.1 of `a`. */
  lemma BarMisread(e: Entry)
    requires e.path == "a|12" && e.vid == 1 && e.svid == 0
    ensures var r := ParseEntry(EntryText(e)); r.Some? && r.value.path == "a" && r.value.vid == 12
  {
    hide ReadTag, TagText;
    BarCutsPath(e, "a", "12");
    OneFirst(e.vid, e.svid);
    TwelveDot("12" + "|" + TagText(e.vid, e.svid), TagText(e.vid, e.svid));
  }

  lemma OneFirst(vid: int32, svid: int32)
    requires vid == 1
    ensures TagText(vid, svid) != "" && TagText(vid, svid)[0] == '1'
  {
  }

  lemma TwelveDot(s: string, tag: string)
    requires tag != "" && tag[0] == '1' && s == ['1', '2', '|'] + tag
    ensures ReadTag(s).Some? && ReadTag(s).value.0 == 12
  {
    var d := s[..2];
    assert d == ['1', '2'] && AllDigits(d, 10);
    assert s == d + s[2..] && s[2] == '|' && s[3] == '1';
    SpanOf(d, s[2..], 10);
    ValueOfDigit(1, 10);
    ValueOfDigit(2, 10);
    assert d[..1] == ['1'] && d[1..] == ['2'];
  }

  function AsRead(entries: seq<Entry>): seq<ReadEntry>
    requires forall i | 0 <= i < |entries| :: Listable(entries[i])
  {
    if entries == [] then []
    else
      assert Listable(entries[0]);
      [ReadEntry(entries[0].path, entries[0].vid, entries[0].svid)] + AsRead(entries[1..])
  }

  lemma {:induction false} AsReadAt(entries: seq<Entry>)
    requires forall i | 0 <= i < |entries| :: Listable(entries[i])
    ensures |AsRead(entries)| == |entries|
    ensures forall i | 0 <= i < |entries| :: Listable(entries[i]) &&
              AsRead(entries)[i] == ReadEntry(entries[i].path, entries[i].vid, entries[i].svid)
  {
    if entries != [] { AsReadAt(entries[1..]); }
  }

  /** What was tagged is what is read. */
  lemma {:induction false} TagFileRoundTrip(entries: seq<Entry>)
    requires forall i | 0 <= i < |entries| :: Listable(entries[i])
    ensures ReadTagFile(TagFileText(entries)) == AsRead(entries)
  {
    hide ParseEntry, EntryText, LineEnd, ReadTagFile;
    if entries == [] {
      NothingRead("");
    } else {
      EntryRoundTrip(entries[0]);
      TagFileRoundTrip(entries[1..]);
      FirstLine(EntryText(entries[0]), TagFileText(entries[1..]));
    }
  }

  lemma NothingRead(text: string)
    requires text == ""
    ensures ReadTagFile(text) == []
  {
  }

  lemma FirstLine(line: string, rest: string)
    requires '\n' !in line && ParseEntry(line).Some?
    ensures ReadTagFile(line + "\n" + rest) == [ParseEntry(line).value] + ReadTagFile(rest)
  {
    hide ParseEntry;
    var text := line + "\n" + rest;
    assert text[|line|] == '\n';
    assert forall i | 0 <= i < |line| :: text[i] == line[i];
    assert LineEnd(text, 0) == |line|;
    assert text[..|line|] == line && text[|line| + 1..] == rest;
  }

  predicate CleanPath(path: string) {
    path != "" && '|' !in path && '\n' !in path
  }

  lemma ParsedPath(line: string)
    requires '\n' !in line && ParseEntry(line).Some?
    ensures CleanPath(ParseEntry(line).value.path)
  {
    hide ReadTag;
  }

  /** Whatever the file, what is read has a path the format can hold. */
  lemma {:induction false} ReadIsClean(text: string)
    ensures forall i | 0 <= i < |ReadTagFile(text)| :: CleanPath(ReadTagFile(text)[i].path)
    decreases |text|
  {
    hide ParseEntry, CleanPath;
    if text != "" {
      var e := LineEnd(text, 0);
      var line := if e < 0 then text else text[..e];
      assert '\n' !in line;
      if ParseEntry(line).Some? { ParsedPath(line); }
      ReadIsClean(if e < 0 then "" else text[e + 1..]);
    }
  }

  /** The file reads as its entries were written. */
  predicate ReadsBack(rs: seq<ReadEntry>, entries: seq<Entry>) {
    |rs| == |entries| && forall i | 0 <= i < |entries| :: ReadsAs(rs[i], entries[i])
  }

  lemma CleanIsListable(rs: seq<ReadEntry>, entries: seq<Entry>)
    requires ReadsBack(rs, entries) && forall i | 0 <= i < |rs| :: CleanPath(rs[i].path)
    ensures forall i | 0 <= i < |entries| :: Listable(entries[i])
  {
    assert forall i | 0 <= i < |entries| :: ReadsAs(rs[i], entries[i]) && CleanPath(rs[i].path);
  }

  /** A tag file is read back, entry for entry, if and only if the format can hold every entry. */
  lemma TagFileReadBack(entries: seq<Entry>)
    ensures ReadsBack(ReadTagFile(TagFileText(entries)), entries) <==>
            forall i | 0 <= i < |entries| :: Listable(entries[i])
  {
    hide ReadTagFile, TagFileText, CleanPath;
    var rs := ReadTagFile(TagFileText(entries));
    if forall i | 0 <= i < |entries| :: Listable(entries[i]) {
      TagFileRoundTrip(entries);
      AsReadAt(entries);
    }
    if ReadsBack(rs, entries) {
      ReadIsClean(TagFileText(entries));
      CleanIsListable(rs, entries);
    }
  }
}
