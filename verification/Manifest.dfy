/** The manifest: the list of files an installation wrote, read back as data that may have been edited. */
module Manifest {
  import opened Utf8
  import opened SafePath
  import opened PayloadIndex

  type Line = seq<u8>

  const NEWLINE: u8 := 10
  const RETURN: u8 := 13
  const HEADER: Line := [67, 69, 73, 78, 83, 84, 65, 76, 76, 49]           // CEINSTALL1
  const VERSION: Line := [118, 101, 114, 115, 105, 111, 110, 61]           // version=
  const FILE: Line := [102, 105, 108, 101, 61]                             // file=

  datatype Manifest = Manifest(valid: bool, version: Line, files: seq<Line>)

  const NO_MANIFEST := Manifest(false, [], [])

  function FileLines(files: seq<Line>): seq<u8> {
    if files == [] then [] else FILE + files[0] + [NEWLINE] + FileLines(files[1..])
  }

  function Serialize(version: Line, files: seq<Line>): seq<u8> {
    HEADER + [NEWLINE] + (VERSION + version + [NEWLINE] + FileLines(files))
  }

  method SerializeManifest(version: Line, files: seq<Line>) returns (text: seq<u8>)
    ensures text == Serialize(version, files)
  {
    text := HEADER + [NEWLINE] + VERSION + version + [NEWLINE];
    var k := 0;
    while k < |files|
      invariant 0 <= k <= |files| && text + FileLines(files[k..]) == Serialize(version, files)
    {
      assert files[k..][1..] == files[k + 1..];
      text := text + FILE + files[k] + [NEWLINE];
      k := k + 1;
    }
  }

  // ---------------------------------------------------------------------------------------------
  // Reading
  // ---------------------------------------------------------------------------------------------

  function NextNewline(text: seq<u8>, start: nat): (end: nat)
    requires start <= |text|
    ensures start <= end <= |text| && (end < |text| ==> text[end] == NEWLINE)
    ensures forall i :: start <= i < end ==> text[i] != NEWLINE
    decreases |text| - start
  {
    if start == |text| || text[start] == NEWLINE then start else NextNewline(text, start + 1)
  }

  function StripReturn(line: Line): Line {
    if line != [] && line[|line| - 1] == RETURN then line[..|line| - 1] else line
  }

  predicate StartsWith(line: Line, prefix: Line) {
    |line| >= |prefix| && line[..|prefix|] == prefix
  }

  /** What one line after the header adds. Whatever it names is judged again. */
  function Read(m: Manifest, line: Line): Manifest {
    if StartsWith(line, VERSION) then m.(version := line[|VERSION|..])
    else if StartsWith(line, FILE) && SafeRelative(line[|FILE|..]) then m.(files := m.files + [line[|FILE|..]])
    else m
  }

  /** The lines from `start` on, after the header. */
  function ReadFrom(m: Manifest, text: seq<u8>, start: nat): Manifest
    decreases |text| - start
  {
    if start >= |text| then m
    else
      var end := NextNewline(text, start);
      ReadFrom(Read(m, StripReturn(text[start..end])), text, end + 1)
  }

  function Parse(text: seq<u8>): Manifest {
    if text == [] then NO_MANIFEST
    else
      var end := NextNewline(text, 0);
      if StripReturn(text[..end]) != HEADER then NO_MANIFEST
      else ReadFrom(Manifest(true, [], []), text, end + 1)
  }

  /** However the text was edited, only safe paths come out of it. */
  lemma {:induction false} ReadsOnlySafe(m: Manifest, text: seq<u8>, start: nat)
    requires forall p :: p in m.files ==> SafeRelative(p)
    ensures ReadFrom(m, text, start).valid == m.valid && m.files <= ReadFrom(m, text, start).files
    ensures forall p :: p in ReadFrom(m, text, start).files ==> SafeRelative(p)
    decreases |text| - start
  {
    hide SafeRelative, NextNewline, StripReturn;
    if start < |text| {
      var end := NextNewline(text, start);
      ReadsOnlySafe(Read(m, StripReturn(text[start..end])), text, end + 1);
    }
  }

  lemma ParsedAreSafe(text: seq<u8>)
    ensures forall p :: p in Parse(text).files ==> SafeRelative(p)
    ensures !Parse(text).valid ==> Parse(text) == NO_MANIFEST
  {
    hide SafeRelative;
    if text != [] {
      ReadsOnlySafe(Manifest(true, [], []), text, NextNewline(text, 0) + 1);
    }
  }

  method ParseManifest(text: seq<u8>) returns (manifest: Manifest)
    ensures manifest == Parse(text)
    ensures forall p :: p in manifest.files ==> SafeRelative(p)
    ensures forall ws, last :: Splits(text, ws, last) ==> manifest == Meaning(LinesOf(ws, last))
  {
    SplitsMean(text);
    hide Splits, Meaning, LinesOf;
    hide SafeRelative, NextNewline, ReadFrom, StripReturn;
    ParsedAreSafe(text);
    manifest := NO_MANIFEST;
    var start, first := 0, true;
    while start < |text|
      invariant first ==> start == 0 && manifest == NO_MANIFEST
      invariant !first ==> manifest.valid && ReadFrom(manifest, text, start) == Parse(text)
      decreases |text| - start
    {
      ReadFromStep(manifest, text, start);
      var end := NextNewline(text, start);
      var line := StripReturn(text[start..end]);
      start := end + 1;
      if first {
        if line != HEADER {
          return NO_MANIFEST;
        }
        first := false;
        manifest := Manifest(true, [], []);
      } else if line == [] {
        continue;
      } else if StartsWith(line, VERSION) {
        manifest := manifest.(version := line[|VERSION|..]);
      } else if StartsWith(line, FILE) {
        var path := line[|FILE|..];
        var safe := IsSafeRelativePath(path);
        SafeIsSafe(path);
        if safe {
          manifest := manifest.(files := manifest.files + [path]);
        }
      }
    }
    ReadAll(manifest, text, start);
  }

  lemma ReadAll(m: Manifest, text: seq<u8>, start: nat)
    ensures start >= |text| ==> ReadFrom(m, text, start) == m
  {
  }

  lemma ReadFromStep(m: Manifest, text: seq<u8>, start: nat)
    requires start < |text|
    ensures var end := NextNewline(text, start);
            ReadFrom(m, text, start) == ReadFrom(Read(m, StripReturn(text[start..end])), text, end + 1)
  {
  }

  lemma SafeIsSafe(path: Line)
    ensures SafeRelative(path) <==> 0 < |path| <= MAX_PATH_CHARS && IsEncoding(path) && SafeComponents(path)
  {
    ValidMeans(path);
  }

  // ---------------------------------------------------------------------------------------------
  // What a text means, line by line
  // ---------------------------------------------------------------------------------------------

  /** A line as it is written: its content, and whether a carriage return follows. */
  datatype Written = Written(content: Line, returned: bool)

  function Raw(w: Written): Line {
    w.content + if w.returned then ['\r' as nat] else []
  }

  /** The content is all there is to the line. */
  predicate IsLine(w: Written) {
    && '\n' as nat !in w.content
    && (!w.returned && w.content != [] ==> w.content[|w.content| - 1] != '\r' as nat)
  }

  function Unlines(ws: seq<Written>): seq<u8> {
    if ws == [] then [] else Raw(ws[0]) + ['\n' as nat] + Unlines(ws[1..])
  }

  function Contents(ws: seq<Written>): seq<Line> {
    if ws == [] then [] else [ws[0].content] + Contents(ws[1..])
  }

  /** What follows the prefix. */
  function Behind(line: Line, prefix: string): Option<Line> {
    if |line| >= |prefix| && SameText(line[..|prefix|], prefix) then Some(line[|prefix|..]) else None
  }

  function FilesIn(lines: seq<Line>): seq<Line> {
    if lines == [] then []
    else
      var path := Behind(lines[0], "file=");
      (if path.Some? && SafeRelative(path.value) then [path.value] else []) + FilesIn(lines[1..])
  }

  /** The last version line counts. */
  function VersionIn(lines: seq<Line>, before: Line): Line {
    if lines == [] then before
    else
      var version := Behind(lines[0], "version=");
      VersionIn(lines[1..], if version.Some? then version.value else before)
  }

  function Meaning(lines: seq<Line>): Manifest {
    if lines == [] || !SameText(lines[0], "CEINSTALL1") then Manifest(false, [], [])
    else Manifest(true, VersionIn(lines[1..], []), FilesIn(lines[1..]))
  }

  lemma HeaderText(line: Line)
    ensures line == HEADER <==> SameText(line, "CEINSTALL1")
  {
    assert SameText(HEADER, "CEINSTALL1");
  }

  lemma PrefixTexts(line: Line)
    ensures StartsWith(line, VERSION) <==> Behind(line, "version=").Some?
    ensures StartsWith(line, FILE) <==> Behind(line, "file=").Some?
    ensures !(StartsWith(line, VERSION) && StartsWith(line, FILE)) && |VERSION| == 8 && |FILE| == 5
  {
    assert SameText(VERSION, "version=") && SameText(FILE, "file=");
    assert |line| >= 8 ==> line[..8][0] == line[..5][0];
  }

  lemma ReadMeans(m: Manifest, line: Line)
    ensures Read(m, line) == Extended(m, [line])
  {
    PrefixTexts(line);
    hide SafeRelative, SameText;
    assert [line][1..] == [] && m.files + [] == m.files;
    assert FilesIn([]) == [] && VersionIn([], m.version) == m.version;
    var path, version := Behind(line, "file="), Behind(line, "version=");
    assert FilesIn([line]) == if path.Some? && SafeRelative(path.value) then [path.value] else [];
    assert VersionIn([line], m.version) == if version.Some? then version.value else m.version;
  }

  lemma StripsRaw(w: Written)
    requires IsLine(w)
    ensures StripReturn(Raw(w)) == w.content && NEWLINE !in Raw(w)
  {
    assert w.returned ==> Raw(w)[..|Raw(w)| - 1] == w.content;
    assert !w.returned ==> Raw(w) == w.content;
  }

  lemma RawLine(m: Manifest, before: seq<u8>, w: Written, after: seq<u8>)
    requires IsLine(w) && Raw(w) + after != []
    requires after == [] || after[0] == NEWLINE
    ensures var text := before + Raw(w) + after;
            ReadFrom(m, text, |before|) == ReadFrom(Read(m, w.content), text, |before| + |Raw(w)| + 1)
  {
    hide Read, ReadFrom, StripReturn;
    var text, end := before + Raw(w) + after, |before| + |Raw(w)|;
    StripsRaw(w);
    hide Raw;
    forall i | |before| <= i < end
      ensures text[i] != NEWLINE
    {
      assert text[i] == Raw(w)[i - |before|];
    }
    EndsAt(text, |before|, end);
    assert text[|before|..end] == Raw(w);
    ReadFromStep(m, text, |before|);
  }

  lemma {:induction false} EndsAt(text: seq<u8>, start: nat, end: nat)
    requires start <= end <= |text| && (end < |text| ==> text[end] == NEWLINE)
    requires forall i :: start <= i < end ==> text[i] != NEWLINE
    ensures NextNewline(text, start) == end
    decreases end - start
  {
    if start < end {
      EndsAt(text, start + 1, end);
    }
  }

  /** The lines there are: a text's last one need not be ended, and counts if it is not empty. */
  function LinesOf(ws: seq<Written>, last: Written): seq<Line> {
    Contents(ws) + if Raw(last) == [] then [] else [last.content]
  }

  /** What reading the lines makes of a manifest. */
  function Extended(m: Manifest, lines: seq<Line>): Manifest {
    m.(version := VersionIn(lines, m.version), files := m.files + FilesIn(lines))
  }

  lemma {:induction false} ReadsLines(m: Manifest, before: seq<u8>, ws: seq<Written>, last: Written)
    requires (forall i :: 0 <= i < |ws| ==> IsLine(ws[i])) && IsLine(last)
    ensures ReadFrom(m, before + (Unlines(ws) + Raw(last)), |before|) == Extended(m, LinesOf(ws, last))
    decreases |ws|
  {
    hide Read, ReadFrom, IsLine, Extended, Raw;
    if ws == [] {
      LastLine(m, before, last);
      return;
    }
    var w, rest := ws[0], Unlines(ws[1..]) + Raw(last);
    TextStep(before, w, ws, last);
    RawLine(m, before, w, ['\n' as nat] + rest);
    ReadMeans(m, w.content);
    ReadsLines(Read(m, w.content), before + Raw(w) + ['\n' as nat], ws[1..], last);
    assert LinesOf(ws, last) == [w.content] + LinesOf(ws[1..], last);
    hide Unlines, LinesOf;
    Ahead(m, w.content, LinesOf(ws[1..], last));
  }

  lemma TextStep(before: seq<u8>, w: Written, ws: seq<Written>, last: Written)
    requires ws != [] && w == ws[0]
    ensures var text, rest := before + (Unlines(ws) + Raw(last)), Unlines(ws[1..]) + Raw(last);
            && text == before + Raw(w) + (['\n' as nat] + rest) && text == before + Raw(w) + ['\n' as nat] + rest
            && |before + Raw(w) + ['\n' as nat]| == |before| + |Raw(w)| + 1
  {
    hide Raw;
  }

  lemma Ahead(m: Manifest, line: Line, lines: seq<Line>)
    ensures Extended(Extended(m, [line]), lines) == Extended(m, [line] + lines)
  {
    hide Behind, SafeRelative;
    assert ([line] + lines)[1..] == lines && [line][1..] == [];
    var version := Behind(line, "version=");
    var v := if version.Some? then version.value else m.version;
    assert VersionIn([line], m.version) == VersionIn([], v) == v;
    assert VersionIn([line] + lines, m.version) == VersionIn(lines, v);
    assert FilesIn([line]) + [] == FilesIn([line]) && FilesIn([line] + lines) == FilesIn([line]) + FilesIn(lines);
    assert m.files + FilesIn([line]) + FilesIn(lines) == m.files + (FilesIn([line]) + FilesIn(lines));
  }

  lemma NothingMore(m: Manifest)
    ensures Extended(m, []) == m
  {
    assert m.files + [] == m.files;
  }

  lemma LastLine(m: Manifest, before: seq<u8>, last: Written)
    requires IsLine(last)
    ensures ReadFrom(m, before + (Unlines([]) + Raw(last)), |before|) == Extended(m, LinesOf([], last))
  {
    hide Read, ReadFrom, IsLine, Extended, Raw;
    var text := before + Raw(last) + [];
    assert text == before + (Unlines([]) + Raw(last));
    if Raw(last) == [] {
      ReadAll(m, text, |before|);
      NothingMore(m);
    } else {
      RawLine(m, before, last, []);
      ReadMeans(m, last.content);
      ReadAll(Read(m, last.content), text, |before| + |Raw(last)| + 1);
      assert LinesOf([], last) == [last.content];
    }
  }

  /** The text consists of these lines; the last one may lack its end. */
  ghost predicate Splits(text: seq<u8>, ws: seq<Written>, last: Written) {
    (forall i :: 0 <= i < |ws| ==> IsLine(ws[i])) && IsLine(last) && text == Unlines(ws) + Raw(last)
  }

  /**
   A text means what its lines say: it is a manifest exactly if the first is the header, it has the version of the
   last version line, and it lists in order every safe path that a file line names.
   */
  lemma ParseMeans(ws: seq<Written>, last: Written)
    requires (forall i :: 0 <= i < |ws| ==> IsLine(ws[i])) && IsLine(last)
    ensures Parse(Unlines(ws) + Raw(last)) == Meaning(LinesOf(ws, last))
  {
    hide *;
    if ws == [] {
      NoLines(last);
      OnlyLine(last);
    } else {
      var rest := Unlines(ws[1..]) + Raw(last);
      TextHead(ws, last, rest);
      ManyLines(Unlines(ws) + Raw(last), ws[0], Raw(ws[0]) + ['\n' as nat], ['\n' as nat] + rest, ws, last);
    }
  }

  lemma NoLines(last: Written)
    ensures Unlines([]) + Raw(last) == Raw(last) + []
  {
    hide Raw;
  }

  lemma TextHead(ws: seq<Written>, last: Written, rest: seq<u8>)
    requires ws != [] && rest == Unlines(ws[1..]) + Raw(last)
    ensures Unlines(ws) + Raw(last) == Raw(ws[0]) + (['\n' as nat] + rest)
    ensures Unlines(ws) + Raw(last) == Raw(ws[0]) + ['\n' as nat] + rest
  {
    hide Raw;
  }

  lemma ManyLines(text: seq<u8>, w: Written, before: seq<u8>, after: seq<u8>, ws: seq<Written>, last: Written)
    requires (forall i :: 0 <= i < |ws| ==> IsLine(ws[i])) && IsLine(last) && ws != [] && w == ws[0]
    requires text == Raw(w) + after && text == before + (Unlines(ws[1..]) + Raw(last))
    requires after != [] && after[0] == '\n' as nat && |before| == |Raw(w)| + 1
    ensures Parse(text) == Meaning(LinesOf(ws, last))
  {
    assert after[0] == NEWLINE;
    hide *;
    FirstLine(w, after);
    ReadsLines(Manifest(true, [], []), before, ws[1..], last);
    LinesStep(ws, last);
    HeaderMeans(w.content, LinesOf(ws[1..], last));
  }

  lemma SplitsMean(text: seq<u8>)
    ensures forall ws, last :: Splits(text, ws, last) ==> Parse(text) == Meaning(LinesOf(ws, last))
  {
    hide Parse, Meaning, LinesOf, Unlines, Raw, IsLine;
    forall ws, last | Splits(text, ws, last)
      ensures Parse(text) == Meaning(LinesOf(ws, last))
    {
      ParseMeans(ws, last);
    }
  }

  lemma LinesStep(ws: seq<Written>, last: Written)
    requires ws != []
    ensures LinesOf(ws, last) == [ws[0].content] + LinesOf(ws[1..], last)
  {
    hide Raw;
  }

  lemma HeaderMeans(first: Line, lines: seq<Line>)
    ensures Meaning([first] + lines) == if first == HEADER then Extended(Manifest(true, [], []), lines) else NO_MANIFEST
  {
    HeaderText(first);
    assert ([first] + lines)[1..] == lines && [] + FilesIn(lines) == FilesIn(lines);
  }

  lemma OnlyLine(last: Written)
    requires IsLine(last)
    ensures Parse(Raw(last) + []) == Meaning(LinesOf([], last))
  {
    hide IsLine, Extended, Meaning, StripReturn, ReadFrom;
    if Raw(last) == [] {
      assert Raw(last) + [] == [];
      EmptyMeans();
      return;
    }
    FirstLine(last, []);
    ReadAll(Manifest(true, [], []), Raw(last) + [], |Raw(last)| + 1);
    HeaderMeans(last.content, []);
    NothingMore(Manifest(true, [], []));
    assert LinesOf([], last) == [last.content] + [];
  }

  lemma EmptyMeans()
    ensures Parse([]) == Meaning([])
  {
  }

  lemma FirstLine(w: Written, after: seq<u8>)
    requires IsLine(w) && Raw(w) + after != [] && (after == [] || after[0] == NEWLINE)
    ensures var text := Raw(w) + after;
            Parse(text) == if w.content == HEADER then ReadFrom(Manifest(true, [], []), text, |Raw(w)| + 1)
                           else NO_MANIFEST
  {
    hide ReadFrom, StripReturn, NextNewline;
    var text := Raw(w) + after;
    StripsRaw(w);
    hide Raw;
    forall i | 0 <= i < |Raw(w)|
      ensures text[i] != NEWLINE
    {
      assert text[i] == Raw(w)[i];
    }
    EndsAt(text, 0, |Raw(w)|);
    assert text[..|Raw(w)|] == Raw(w);
  }

  /** And every text consists of lines. */
  lemma {:induction false} EveryText(text: seq<u8>) returns (ws: seq<Written>, last: Written)
    ensures Splits(text, ws, last)
    decreases |text|
  {
    var end := NextNewline(text, 0);
    var w := Unreturned(text[..end]);
    if end == |text| {
      assert text[..end] == text;
      return [], w;
    }
    var rest;
    rest, last := EveryText(text[end + 1..]);
    assert ([w] + rest)[1..] == rest;
    ws := [w] + rest;
    EndedLine(text, end);
    hide *;
    TextHead(ws, last, text[end + 1..]);
  }

  lemma EndedLine(text: seq<u8>, end: nat)
    requires end < |text| && text[end] == NEWLINE
    ensures text == text[..end] + ['\n' as nat] + text[end + 1..]
  {
  }

  function Unreturned(line: Line): (w: Written)
    requires NEWLINE !in line
    ensures IsLine(w) && Raw(w) == line
  {
    if line != [] && line[|line| - 1] == RETURN then
      assert line[..|line| - 1] + [RETURN] == line;
      Written(line[..|line| - 1], true)
    else Written(line, false)
  }

  function Ascii(text: string): (s: seq<u8>)
    requires forall i :: 0 <= i < |text| ==> text[i] as nat < 128
    ensures SameText(s, text)
  {
    seq(|text|, i requires 0 <= i < |text| => text[i] as nat)
  }

  function FileNames(files: seq<Line>): seq<Written> {
    if files == [] then [] else [Written(Ascii("file=") + files[0], false)] + FileNames(files[1..])
  }

  lemma {:induction false} FileLinesMean(files: seq<Line>)
    ensures FileLines(files) == Unlines(FileNames(files))
  {
    if files != [] {
      FileLinesMean(files[1..]);
      assert Ascii("file=") == FILE;
      var w := Written(FILE + files[0], false);
      assert Raw(w) == FILE + files[0] && FileNames(files)[1..] == FileNames(files[1..]);
    }
  }

  lemma KeywordTexts()
    ensures Ascii("CEINSTALL1") == HEADER && Ascii("version=") == VERSION
  {
  }

  lemma LinesApart(h: seq<u8>, v: seq<u8>, rest: seq<u8>)
    ensures h + [NEWLINE] + (v + [NEWLINE] + rest) == h + [NEWLINE] + (v + [NEWLINE]) + rest
  {
  }

  /** What is written: the header, the version, and one line for each file. */
  lemma SerializeMeans(version: Line, files: seq<Line>)
    ensures Serialize(version, files)
            == Unlines([Written(Ascii("CEINSTALL1"), false), Written(Ascii("version=") + version, false)])
               + Unlines(FileNames(files))
  {
    FileLinesMean(files);
    KeywordTexts();
    var a, b := Written(Ascii("CEINSTALL1"), false), Written(Ascii("version=") + version, false);
    assert Raw(a) == Ascii("CEINSTALL1") && Raw(b) == Ascii("version=") + version;
    TwoLines(a, b);
    hide Raw, Ascii, FileLines, FileNames, Unlines, HEADER, VERSION;
    LinesApart(HEADER, VERSION + version, FileLines(files));
  }

  lemma TwoLines(a: Written, b: Written)
    ensures Unlines([a, b]) == Raw(a) + [NEWLINE] + (Raw(b) + [NEWLINE])
  {
    hide Raw;
    assert [a, b][1..] == [b] && [b][1..] == [];
    assert Unlines([b]) == Raw(b) + [NEWLINE] + Unlines([]) == Raw(b) + [NEWLINE];
    assert Unlines([a, b]) == Raw(a) + [NEWLINE] + Unlines([b]);
  }

  // ---------------------------------------------------------------------------------------------
  // Round trip
  // ---------------------------------------------------------------------------------------------

  lemma {:induction false} NewlineAt(text: seq<u8>, start: nat, end: nat)
    requires start <= end < |text| && text[end] == NEWLINE && forall i :: start <= i < end ==> text[i] != NEWLINE
    ensures NextNewline(text, start) == end
    decreases end - start
  {
    if start < end {
      NewlineAt(text, start + 1, end);
    }
  }

  /** A line that holds no newline and does not end in a return. */
  predicate OneLine(line: Line) {
    NEWLINE !in line && (line != [] ==> line[|line| - 1] != RETURN)
  }

  lemma LineAt(m: Manifest, text: seq<u8>, start: nat, line: Line)
    requires start + |line| < |text| && text[start..start + |line|] == line && text[start + |line|] == NEWLINE
    requires OneLine(line)
    ensures ReadFrom(m, text, start) == ReadFrom(Read(m, line), text, start + |line| + 1)
  {
    hide Read, ReadFrom, NextNewline;
    forall i | start <= i < start + |line|
      ensures text[i] != NEWLINE
    {
      assert text[i] == line[i - start];
      assert line[i - start] in line;
    }
    NewlineAt(text, start, start + |line|);
    ReadFromStep(m, text, start);
  }

  lemma ReadLine(m: Manifest, before: seq<u8>, line: Line, after: seq<u8>)
    requires OneLine(line)
    ensures var text := before + line + [NEWLINE] + after;
            ReadFrom(m, text, |before|) == ReadFrom(Read(m, line), text, |before| + |line| + 1)
  {
    hide Read, ReadFrom, OneLine;
    LineAt(m, before + line + [NEWLINE] + after, |before|, line);
  }

  lemma SafeIsOneLine(path: Line)
    requires SafeRelative(path)
    ensures OneLine(path)
  {
    forall i | 0 <= i < |path|
      ensures path[i] != NEWLINE && path[i] != RETURN
    {
      if path[i] != SLASH {
        SafeUnit(path, i);
      }
    }
  }

  lemma {:induction false} SafeUnit(p: Text, i: nat)
    requires SafeComponents(p) && i < |p| && p[i] != SLASH
    ensures !IsForbidden(p[i])
    decreases |p|
  {
    var end := NextSlash(p, 0);
    hide IsReservedDeviceName;
    if end == |p| {
      assert Components(p)[0] == p && SafeComponent(p);
    } else {
      var head, rest := p[..end], p[end + 1..];
      assert Components(p) == [head] + Components(rest);
      assert Components(p)[0] == head && SafeComponent(head);
      hide Components;
      if i < end {
        assert head[i] == p[i];
      } else {
        hide NextSlash, IsForbidden, SafeComponent;
        assert forall c :: c in Components(rest) ==> c in [head] + Components(rest);
        SafeUnit(rest, i - end - 1);
      }
    }
  }

  lemma FileLinesStep(before: seq<u8>, files: seq<Line>)
    requires files != []
    ensures before + FileLines(files) == before + (FILE + files[0]) + [NEWLINE] + FileLines(files[1..])
  {
  }

  lemma OneMore(a: seq<Line>, b: seq<Line>)
    requires b != []
    ensures a + b == (a + [b[0]]) + b[1..]
  {
  }

  lemma {:induction false} FilesReadBack(m: Manifest, before: seq<u8>, files: seq<Line>)
    requires forall i :: 0 <= i < |files| ==> SafeRelative(files[i])
    ensures ReadFrom(m, before + FileLines(files), |before|) == m.(files := m.files + files)
    decreases |files|
  {
    hide SafeRelative, Read, ReadFrom, OneLine;
    if files == [] {
      ReadNothing(m, before + []);
      assert m.files + [] == m.files;
      return;
    }
    var line, next := FILE + files[0], before + (FILE + files[0]) + [NEWLINE];
    FileLinesStep(before, files);
    hide FileLines;
    SafeIsOneLine(files[0]);
    FileLineIsOneLine(files[0]);
    ReadLine(m, before, line, FileLines(files[1..]));
    ReadFileLine(m, files[0]);
    FilesReadBack(Read(m, line), next, files[1..]);
    OneMore(m.files, files);
  }

  lemma ReadNothing(m: Manifest, text: seq<u8>)
    ensures ReadFrom(m, text, |text|) == m
  {
  }

  lemma FileLineIsOneLine(path: Line)
    requires OneLine(path)
    ensures OneLine(FILE + path)
  {
    var line := FILE + path;
    assert forall i :: 0 <= i < |line| ==> line[i] == if i < 5 then FILE[i] else path[i - 5];
    if path != [] {
      assert line[|line| - 1] == path[|path| - 1];
    }
  }

  lemma ReadFileLine(m: Manifest, path: Line)
    requires SafeRelative(path)
    ensures Read(m, FILE + path) == m.(files := m.files + [path])
  {
    hide SafeRelative;
    assert (FILE + path)[5..] == path && (FILE + path)[..5] == FILE && (FILE + path)[0] != VERSION[0];
  }

  lemma VersionLine(version: Line)
    requires OneLine(version)
    ensures OneLine(VERSION + version)
    ensures Read(Manifest(true, [], []), VERSION + version) == Manifest(true, version, [])
  {
    var line := VERSION + version;
    assert forall i :: 0 <= i < |line| ==> line[i] == if i < 8 then VERSION[i] else version[i - 8];
    forall i | 0 <= i < |line|
      ensures line[i] != NEWLINE
    {
      if i >= 8 {
        assert version[i - 8] in version;
      }
    }
    assert line[..8] == VERSION && line[8..] == version;
  }

  lemma HeaderFirst(rest: seq<u8>)
    ensures var text := HEADER + [NEWLINE] + rest;
            Parse(text) == ReadFrom(Manifest(true, [], []), text, |HEADER| + 1)
  {
    hide ReadFrom, NextNewline;
    var text := HEADER + [NEWLINE] + rest;
    assert forall i :: 0 <= i < |HEADER| ==> text[i] == HEADER[i];
    NewlineAt(text, 0, |HEADER|);
    assert text[..|HEADER|] == HEADER;
  }

  /** What was written is read back: the version and every safe path, in order. */
  lemma ManifestRoundTrip(version: Line, files: seq<Line>)
    requires OneLine(version) && forall i :: 0 <= i < |files| ==> SafeRelative(files[i])
    ensures Parse(Serialize(version, files)) == Manifest(true, version, files)
  {
    var before, line, after := HEADER + [NEWLINE], VERSION + version, FileLines(files);
    assert Serialize(version, files) == before + (line + [NEWLINE] + after);
    HeaderFirst(line + [NEWLINE] + after);
    VersionLine(version);
    hide SafeRelative, Read, ReadFrom, Parse, FileLines, OneLine, Serialize;
    var m := Manifest(true, [], []);
    Regroup(before, line, after);
    ReadLine(m, before, line, after);
    FilesReadBack(Read(m, line), before + line + [NEWLINE], files);
    assert [] + files == files;
  }

  lemma Regroup(a: seq<u8>, b: seq<u8>, c: seq<u8>)
    ensures a + (b + [NEWLINE] + c) == a + b + [NEWLINE] + c
  {
  }
}
