/** Splitting `git log -p` output into per-file patches. */
module PatchLog {
  import opened Text
  import opened GitPath
  import opened DiffEntries

  const MAX_PATCH_BYTES: nat := 5 * 1024 * 1024

  // ----- The state machine over lines

  datatype Scan = Scan(entries: Entries, hash: string, path: string, lines: seq<string>, size: nat, oversized: bool)

  predicate IsSkippedHeader(line: string) {
    || "index " <= line
    || "old mode " <= line
    || "new mode " <= line
    || "new file mode " <= line
    || "deleted file mode " <= line
    || "similarity index " <= line
    || "copy from " <= line
    || "copy to " <= line
    || "rename from " <= line
    || "rename to " <= line
  }

  function SetPatch(entries: Entries, hash: string, path: string, patch: string): Entries {
    if Has(entries, hash, path) then entries[hash := entries[hash][path := entries[hash][path].(patch := patch)]] else entries
  }

  /** The entries once the open block is written back. */
  function Flush(s: Scan): Entries {
    if s.hash == "" || s.path == "" || s.oversized || s.size == 0 then s.entries
    else SetPatch(s.entries, s.hash, s.path, Join(s.lines, '\n'))
  }

  function Step(s: Scan, line: string): Scan {
    if "COMMIT:" <= line then Scan(WithCommit(Flush(s), line[7..]), line[7..], "", [], 0, false)
    else if s.hash == "" then s
    else if "diff --git " <= line then Scan(Flush(s), s.hash, ParseDiffGitPath(line), [], 0, false)
    else if s.path == "" then s
    else if "Binary files " <= line then s.(path := "", lines := [], size := 0)
    else if IsSkippedHeader(line) || s.oversized then s
    else if s.size + |line| + 1 > MAX_PATCH_BYTES then s.(size := s.size + |line| + 1, oversized := true, lines := [])
    else s.(size := s.size + |line| + 1, lines := s.lines + [line])
  }

  function StepAll(s: Scan, lines: seq<string>): Scan
    decreases |lines|
  {
    if lines == [] then s else StepAll(Step(s, lines[0]), lines[1..])
  }

  function Start(entries: Entries): Scan {
    Scan(entries, "", "", [], 0, false)
  }

  /** The entries once a patch text is merged in. */
  function MergedPatches(entries: Entries, data: string): Entries {
    Flush(StepAll(Start(entries), Split(data, '\n')))
  }

  /** The table of entries, merged into in place. */
  class DiffTable {
    var entries: Entries

    constructor (entries: Entries)
      ensures this.entries == entries
    {
      this.entries := entries;
    }

    /** The `flush` closure. */
    method WriteBack(hash: string, path: string, lines: seq<string>, size: nat, oversized: bool)
      modifies this
      ensures entries == Flush(Scan(old(entries), hash, path, lines, size, oversized))
    {
      if hash == "" || path == "" { return; }
      if oversized || size == 0 { return; }
      var patch := Join(lines, '\n');
      if hash !in entries { return; }
      if path in entries[hash] {
        entries := entries[hash := entries[hash][path := entries[hash][path].(patch := patch)]];
      }
    }

    method MergePatchLog(data: string)
      modifies this
      ensures entries == MergedPatches(old(entries), data)
    {
      var lines := Split(data, '\n');
      hide Split, Flush, ParseDiffGitPath, IsSkippedHeader, WithCommit;
      var currentHash, currentPath := "", "";
      var patchLines: seq<string>, patchSize: nat, oversized := [], 0, false;
      for i := 0 to |lines|
        invariant StepAll(Scan(entries, currentHash, currentPath, patchLines, patchSize, oversized), lines[i..])
               == StepAll(Start(old(entries)), lines)
      {
        var line := lines[i];
        assert lines[i..][0] == line && lines[i..][1..] == lines[i + 1..];
        ghost var before := Scan(entries, currentHash, currentPath, patchLines, patchSize, oversized);
        if "COMMIT:" <= line {
          WriteBack(currentHash, currentPath, patchLines, patchSize, oversized);
          currentHash, currentPath := line[7..], "";
          patchLines, patchSize, oversized := [], 0, false;
          entries := WithCommit(entries, currentHash);
        } else if currentHash == "" {
        } else if "diff --git " <= line {
          WriteBack(currentHash, currentPath, patchLines, patchSize, oversized);
          currentPath := ParseDiffGitPath(line);
          patchLines, patchSize, oversized := [], 0, false;
        } else if currentPath == "" {
        } else if "Binary files " <= line {
          currentPath, patchLines, patchSize := "", [], 0;
        } else if IsSkippedHeader(line) {
        } else if oversized {
        } else {
          patchSize := patchSize + |line| + 1;
          if patchSize > MAX_PATCH_BYTES {
            oversized, patchLines := true, [];
          } else {
            patchLines := patchLines + [line];
          }
        }
        assert Step(before, line) == Scan(entries, currentHash, currentPath, patchLines, patchSize, oversized);
      }
      WriteBack(currentHash, currentPath, patchLines, patchSize, oversized);
    }
  }

  // ----- Well-formed logs

  /** The extended header lines of git's diff format; `kept` is the mode of a file that keeps its mode. */
  datatype Header =
    | Index(before: string, after: string, kept: Option<string>)
    | OldMode(mode: string)
    | NewMode(mode: string)
    | NewFile(mode: string)
    | DeletedFile(mode: string)
    | Similarity(percent: string)
    | CopyFrom(path: string)
    | CopyTo(path: string)
    | RenameFrom(path: string)
    | RenameTo(path: string)

  /** The line git prints. */
  function HeaderLine(h: Header): string {
    match h
    case Index(before, after, kept) => "index " + (before + ".." + after + if kept.Some? then " " + kept.value else "")
    case OldMode(mode) => "old mode " + mode
    case NewMode(mode) => "new mode " + mode
    case NewFile(mode) => "new file mode " + mode
    case DeletedFile(mode) => "deleted file mode " + mode
    case Similarity(percent) => "similarity index " + percent
    case CopyFrom(path) => "copy from " + path
    case CopyTo(path) => "copy to " + path
    case RenameFrom(path) => "rename from " + path
    case RenameTo(path) => "rename to " + path
  }

  function HeaderLinesOf(headers: seq<Header>): (lines: seq<string>)
    ensures |lines| == |headers|
  {
    seq(|headers|, i requires 0 <= i < |headers| => HeaderLine(headers[i]))
  }

  /** What follows a file's header lines. */
  datatype Content =
    | Binary(before: string, after: string, rest: seq<string>)
    | Body(lines: seq<string>)

  datatype FileBlock = FileBlock(path: string, headers: seq<Header>, content: Content)

  datatype CommitBlock = CommitBlock(hash: string, preamble: seq<string>, files: seq<FileBlock>)

  /** Context, added, removed and hunk lines, and the note on a missing newline; a final newline
      in the data adds an empty line. */
  predicate IsBodyLine(line: string) {
    line == "" || line[0] in {' ', '+', '-', '@', '\\'}
  }

  predicate IsIgnoredLine(line: string) {
    !("COMMIT:" <= line) && !("diff --git " <= line)
  }

  ghost predicate WellFormedFile(f: FileBlock) {
    && IsByteString(f.path) && f.path != ""
    && match f.content
       case Binary(before, after, rest) => forall i :: 0 <= i < |rest| ==> IsIgnoredLine(rest[i])
       case Body(lines) => forall i :: 0 <= i < |lines| ==> IsBodyLine(lines[i])
  }

  ghost predicate WellFormedCommit(c: CommitBlock) {
    && c.hash != ""
    && (forall i :: 0 <= i < |c.preamble| ==> IsIgnoredLine(c.preamble[i]))
    && (forall i :: 0 <= i < |c.files| ==> WellFormedFile(c.files[i]))
  }

  function ContentLines(c: Content): seq<string> {
    match c
    case Binary(before, after, rest) => ["Binary files " + (before + " and " + after + " differ")] + rest
    case Body(lines) => lines
  }

  function FileLines(f: FileBlock, quotePath: bool): seq<string>
    requires IsByteString(f.path)
  {
    [DiffGitHeader(f.path, quotePath)] + (HeaderLinesOf(f.headers) + ContentLines(f.content))
  }

  ghost function FilesLines(files: seq<FileBlock>, quotePath: bool): seq<string>
    requires forall i :: 0 <= i < |files| ==> WellFormedFile(files[i])
  {
    if files == [] then []
    else
      assert WellFormedFile(files[0]);
      FileLines(files[0], quotePath) + FilesLines(files[1..], quotePath)
  }

  ghost function CommitLines(c: CommitBlock, quotePath: bool): seq<string>
    requires WellFormedCommit(c)
  {
    ["COMMIT:" + c.hash] + (c.preamble + FilesLines(c.files, quotePath))
  }

  /** The lines git prints for the log. */
  ghost function LogLines(log: seq<CommitBlock>, quotePath: bool): seq<string>
    requires forall i :: 0 <= i < |log| ==> WellFormedCommit(log[i])
  {
    if log == [] then [] else CommitLines(log[0], quotePath) + LogLines(log[1..], quotePath)
  }

  // ----- What the merge must do

  /** The bytes of the body, each line with its newline. */
  function SizeOf(lines: seq<string>): nat {
    if lines == [] then 0 else SizeOf(lines[..|lines| - 1]) + |lines[|lines| - 1]| + 1
  }

  /** A file's patch: its body lines joined. Binary, empty and oversized files have none. */
  function PatchOf(f: FileBlock): Option<string> {
    if f.content.Body? && f.content.lines != [] && SizeOf(f.content.lines) <= MAX_PATCH_BYTES
    then Some(Join(f.content.lines, '\n')) else None
  }

  function MergeFile(entries: Entries, hash: string, f: FileBlock): Entries {
    if PatchOf(f).Some? then SetPatch(entries, hash, f.path, PatchOf(f).value) else entries
  }

  function MergeFiles(entries: Entries, hash: string, files: seq<FileBlock>): Entries
    decreases |files|
  {
    if files == [] then entries else MergeFiles(MergeFile(entries, hash, files[0]), hash, files[1..])
  }

  function MergeLog(entries: Entries, log: seq<CommitBlock>): Entries
    decreases |log|
  {
    if log == [] then entries else MergeLog(MergeFiles(WithCommit(entries, log[0].hash), log[0].hash, log[0].files), log[1..])
  }

  // ----- The scan of a printed log

  lemma {:induction false} StepAllAppend(s: Scan, a: seq<string>, b: seq<string>)
    ensures StepAll(s, a + b) == StepAll(StepAll(s, a), b)
    decreases |a|
  {
    hide Step;
    if a == [] {
      assert a + b == b;
    } else {
      assert (a + b)[0] == a[0] && (a + b)[1..] == a[1..] + b;
      StepAllAppend(Step(s, a[0]), a[1..], b);
    }
  }

  /** Lines outside a file block leave the scan as it is. */
  lemma {:induction false} IgnoredLines(s: Scan, lines: seq<string>)
    requires s.path == "" && forall i :: 0 <= i < |lines| ==> IsIgnoredLine(lines[i])
    ensures StepAll(s, lines) == s
    decreases |lines|
  {
    if lines != [] {
      assert IsIgnoredLine(lines[0]);
      IgnoredLines(s, lines[1..]);
    }
  }

  lemma HeaderIsNotSpecial(line: string)
    requires IsSkippedHeader(line)
    ensures !("COMMIT:" <= line) && !("diff --git " <= line) && !("Binary files " <= line)
  {
    assert |line| >= 2 && line[0] in {'i', 'o', 'n', 'd', 's', 'c', 'r'} && (line[0] == 'd' ==> line[1] == 'e');
  }

  /** Every header line git prints is skipped. */
  lemma HeaderIsSkipped(h: Header)
    ensures IsSkippedHeader(HeaderLine(h))
  {
  }

  lemma {:induction false} HeaderLines(s: Scan, lines: seq<string>)
    requires s.path != "" && s.hash != "" && forall i :: 0 <= i < |lines| ==> IsSkippedHeader(lines[i])
    ensures StepAll(s, lines) == s
    decreases |lines|
  {
    hide IsSkippedHeader;
    if lines != [] {
      HeaderIsNotSpecial(lines[0]);
      HeaderLines(s, lines[1..]);
    }
  }

  lemma BodyIsNotSpecial(line: string)
    requires IsBodyLine(line)
    ensures IsIgnoredLine(line) && !("Binary files " <= line) && !IsSkippedHeader(line)
  {
  }

  /** The scan inside a file block that has read `body` so far. */
  ghost predicate ReadSoFar(s: Scan, begun: Scan, body: seq<string>) {
    && s == begun.(lines := s.lines, size := s.size, oversized := s.oversized)
    && (s.oversized <==> SizeOf(body) > MAX_PATCH_BYTES)
    && (!s.oversized ==> s.lines == body && s.size == SizeOf(body))
  }

  lemma SizeOfPrefix(body: seq<string>, line: string)
    ensures SizeOf(body + [line]) == SizeOf(body) + |line| + 1
  {
    assert (body + [line])[..|body|] == body;
  }

  lemma BodyLineRead(s: Scan, begun: Scan, body: seq<string>, line: string)
    requires begun.path != "" && begun.hash != "" && ReadSoFar(s, begun, body) && IsBodyLine(line)
    ensures ReadSoFar(Step(s, line), begun, body + [line])
  {
    BodyIsNotSpecial(line);
    SizeOfPrefix(body, line);
    hide SizeOf, IsBodyLine, IsSkippedHeader;
  }

  lemma {:induction false} BodyLines(s: Scan, begun: Scan, body: seq<string>, lines: seq<string>)
    requires begun.path != "" && begun.hash != "" && ReadSoFar(s, begun, body)
    requires forall i :: 0 <= i < |lines| ==> IsBodyLine(lines[i])
    ensures ReadSoFar(StepAll(s, lines), begun, body + lines)
    decreases |lines|
  {
    hide ReadSoFar, Step, IsBodyLine;
    if lines == [] {
      assert body + lines == body;
    } else {
      BodyLineRead(s, begun, body, lines[0]);
      BodyLines(Step(s, lines[0]), begun, body + [lines[0]], lines[1..]);
      assert body + [lines[0]] + lines[1..] == body + lines;
    }
  }

  /** The scan after a header line depends on what came before only through its flush. */
  function Begin(entries: Entries, hash: string, path: string): Scan {
    Scan(entries, hash, path, [], 0, false)
  }

  lemma BlockOpened(s: Scan, f: FileBlock, quotePath: bool)
    requires s.hash != "" && WellFormedFile(f)
    ensures Step(s, DiffGitHeader(f.path, quotePath)) == Begin(Flush(s), s.hash, f.path)
  {
    var line := DiffGitHeader(f.path, quotePath);
    ParseOfHeader(f.path, quotePath);
    assert line[0] == 'd' && "diff --git " <= line;
    hide ParseDiffGitPath, Flush;
  }

  lemma {:induction false} JoinedSize(lines: seq<string>)
    ensures SizeOf(lines) == 0 <==> lines == []
  {
  }

  lemma BinaryMarkerRead(s: Scan, names: string)
    requires s.path != "" && s.hash != ""
    ensures Step(s, "Binary files " + names) == s.(path := "", lines := [], size := 0)
  {
    var marker := "Binary files " + names;
    assert marker[0] == 'B' && "Binary files " <= marker;
  }

  lemma ContentRead(entries: Entries, hash: string, f: FileBlock)
    requires hash != "" && WellFormedFile(f)
    ensures var t := StepAll(Begin(entries, hash, f.path), ContentLines(f.content));
            t.hash == hash && Flush(t) == MergeFile(entries, hash, f)
  {
    var s := Begin(entries, hash, f.path);
    match f.content
    case Binary(before, after, rest) =>
      var t := s.(path := "", lines := [], size := 0);
      var names := before + " and " + after + " differ";
      var marker := "Binary files " + names;
      BinaryMarkerRead(s, names);
      assert ([marker] + rest)[1..] == rest;
      IgnoredLines(t, rest);
    case Body(lines) =>
      hide Step, SizeOf;
      JoinedSize([]);
      JoinedSize(lines);
      BodyLines(s, s, [], lines);
      assert [] + lines == lines;
  }

  /** A whole file block: whatever the scan had open is flushed, and the block's own lines, and
      only these, become the patch of its own entry. */
  lemma BlockRead(s: Scan, f: FileBlock, quotePath: bool)
    requires s.hash != "" && WellFormedFile(f)
    ensures var t := StepAll(s, FileLines(f, quotePath));
            t.hash == s.hash && Flush(t) == MergeFile(Flush(s), s.hash, f)
  {
    hide Step, Flush, DiffGitHeader;
    var header := DiffGitHeader(f.path, quotePath);
    var headers := HeaderLinesOf(f.headers);
    var rest := headers + ContentLines(f.content);
    assert FileLines(f, quotePath)[0] == header && FileLines(f, quotePath)[1..] == rest;
    BlockOpened(s, f, quotePath);
    var begun := Begin(Flush(s), s.hash, f.path);
    StepAllAppend(begun, headers, ContentLines(f.content));
    forall i | 0 <= i < |headers|
      ensures IsSkippedHeader(headers[i])
    {
      HeaderIsSkipped(f.headers[i]);
    }
    hide IsSkippedHeader, HeaderLine;
    HeaderLines(begun, headers);
    ContentRead(Flush(s), s.hash, f);
  }

  lemma {:induction false} BlocksRead(s: Scan, files: seq<FileBlock>, quotePath: bool)
    requires s.hash != "" && forall i :: 0 <= i < |files| ==> WellFormedFile(files[i])
    ensures var t := StepAll(s, FilesLines(files, quotePath));
            t.hash == s.hash && Flush(t) == MergeFiles(Flush(s), s.hash, files)
    decreases |files|
  {
    hide Step, Flush, FileLines, WellFormedFile;
    if files != [] {
      assert WellFormedFile(files[0]);
      WellFormedPath(files[0]);
      StepAllAppend(s, FileLines(files[0], quotePath), FilesLines(files[1..], quotePath));
      BlockRead(s, files[0], quotePath);
      BlocksRead(StepAll(s, FileLines(files[0], quotePath)), files[1..], quotePath);
    }
  }

  lemma WellFormedPath(f: FileBlock)
    requires WellFormedFile(f)
    ensures IsByteString(f.path)
  {
  }

  lemma CommitOpened(s: Scan, hash: string)
    ensures Step(s, "COMMIT:" + hash) == Begin(WithCommit(Flush(s), hash), hash, "")
  {
    hide Flush;
    var line := "COMMIT:" + hash;
    assert line[7..] == hash;
  }

  lemma CommitRead(s: Scan, c: CommitBlock, quotePath: bool)
    requires WellFormedCommit(c)
    ensures Flush(StepAll(s, CommitLines(c, quotePath))) == MergeFiles(WithCommit(Flush(s), c.hash), c.hash, c.files)
  {
    hide Step;
    var files := FilesLines(c.files, quotePath);
    var lines := CommitLines(c, quotePath);
    assert lines[0] == "COMMIT:" + c.hash && lines[1..] == c.preamble + files;
    CommitOpened(s, c.hash);
    var begun := Begin(WithCommit(Flush(s), c.hash), c.hash, "");
    StepAllAppend(begun, c.preamble, files);
    IgnoredLines(begun, c.preamble);
    BlocksRead(begun, c.files, quotePath);
    assert Flush(begun) == WithCommit(Flush(s), c.hash);
  }

  /** Reading a printed log performs exactly its merge. */
  lemma {:induction false} LogRead(s: Scan, log: seq<CommitBlock>, quotePath: bool)
    requires forall i :: 0 <= i < |log| ==> WellFormedCommit(log[i])
    ensures Flush(StepAll(s, LogLines(log, quotePath))) == MergeLog(Flush(s), log)
    decreases |log|
  {
    hide Step, Flush, WellFormedCommit, CommitLines;
    if log != [] {
      var lines := CommitLines(log[0], quotePath);
      StepAllAppend(s, lines, LogLines(log[1..], quotePath));
      CommitRead(s, log[0], quotePath);
      LogRead(StepAll(s, lines), log[1..], quotePath);
    }
  }

  // ----- What the merge means for one entry

  predicate Names(f: FileBlock, path: string) {
    f.path == path
  }

  /** The patch an entry ends up with: that of the last block naming it that has one. */
  function PatchAfterFiles(patch: string, files: seq<FileBlock>, path: string): string
    decreases |files|
  {
    if files == [] then patch
    else PatchAfterFiles(if Names(files[0], path) && PatchOf(files[0]).Some? then PatchOf(files[0]).value else patch, files[1..], path)
  }

  function PatchAfterLog(patch: string, log: seq<CommitBlock>, hash: string, path: string): string
    decreases |log|
  {
    if log == [] then patch
    else PatchAfterLog(if log[0].hash == hash then PatchAfterFiles(patch, log[0].files, path) else patch, log[1..], hash, path)
  }

  /** `after` differs from `before` at (hash, path) at most in the patch. */
  ghost predicate OnlyPatch(before: Entries, after: Entries, hash: string, path: string, patch: string) {
    && (Has(after, hash, path) <==> Has(before, hash, path))
    && (Has(before, hash, path) ==> after[hash][path] == before[hash][path].(patch := patch))
  }

  lemma {:induction false} MergeFilesEffect(entries: Entries, hash: string, files: seq<FileBlock>, h: string, p: string)
    ensures MergeFiles(entries, hash, files).Keys == entries.Keys
    ensures Has(entries, h, p) ==>
              OnlyPatch(entries, MergeFiles(entries, hash, files), h, p,
                        if h == hash then PatchAfterFiles(entries[h][p].patch, files, p) else entries[h][p].patch)
    ensures !Has(entries, h, p) ==> !Has(MergeFiles(entries, hash, files), h, p)
    decreases |files|
  {
    hide PatchOf;
    if files != [] {
      var next := MergeFile(entries, hash, files[0]);
      assert next.Keys == entries.Keys;
      MergeFilesEffect(next, hash, files[1..], h, p);
    }
  }

  /** No file key is added or lost, no status or count changes, and each entry's patch is that of
      the last block naming it. */
  lemma {:induction false} MergeLogEffect(entries: Entries, log: seq<CommitBlock>, h: string, p: string)
    ensures h in MergeLog(entries, log) <==> h in entries || exists i :: 0 <= i < |log| && log[i].hash == h
    ensures Has(entries, h, p) ==>
              OnlyPatch(entries, MergeLog(entries, log), h, p, PatchAfterLog(entries[h][p].patch, log, h, p))
    ensures !Has(entries, h, p) ==> !Has(MergeLog(entries, log), h, p)
    decreases |log|
  {
    hide PatchOf, MergeFiles, PatchAfterFiles;
    if log != [] {
      var added := WithCommit(entries, log[0].hash);
      MergeFilesEffect(added, log[0].hash, log[0].files, h, p);
      var next := MergeFiles(added, log[0].hash, log[0].files);
      MergeLogEffect(next, log[1..], h, p);
      assert forall i :: 0 <= i < |log[1..]| ==> log[1..][i] == log[i + 1];
      if i :| 0 <= i < |log| && log[i].hash == h {
        assert i > 0 ==> log[1..][i - 1].hash == h;
      }
    }
  }

  ghost predicate NamesEntry(log: seq<CommitBlock>, i: int, j: int, hash: string, path: string) {
    0 <= i < |log| && 0 <= j < |log[i].files| && log[i].hash == hash && Names(log[i].files[j], path)
  }

  lemma {:induction false} UnnamedInFiles(patch: string, files: seq<FileBlock>, path: string)
    requires forall j :: 0 <= j < |files| ==> !Names(files[j], path)
    ensures PatchAfterFiles(patch, files, path) == patch
    decreases |files|
  {
    hide PatchOf, Names;
    if files != [] {
      UnnamedInFiles(patch, files[1..], path);
    }
  }

  lemma {:induction false} NamedOnceInFiles(patch: string, files: seq<FileBlock>, j: nat, path: string)
    requires j < |files| && Names(files[j], path)
    requires forall k :: 0 <= k < |files| && k != j ==> !Names(files[k], path)
    ensures PatchAfterFiles(patch, files, path) == if PatchOf(files[j]).Some? then PatchOf(files[j]).value else patch
    decreases |files|
  {
    hide PatchOf, Names;
    if j == 0 {
      UnnamedInFiles(if PatchOf(files[0]).Some? then PatchOf(files[0]).value else patch, files[1..], path);
    } else {
      assert !Names(files[0], path);
      NamedOnceInFiles(patch, files[1..], j - 1, path);
    }
  }

  lemma {:induction false} UnnamedInLog(patch: string, log: seq<CommitBlock>, hash: string, path: string)
    requires forall i, j :: !NamesEntry(log, i, j, hash, path)
    ensures PatchAfterLog(patch, log, hash, path) == patch
    decreases |log|
  {
    if log != [] {
      if log[0].hash == hash {
        forall j | 0 <= j < |log[0].files|
          ensures !Names(log[0].files[j], path)
        {
          assert !NamesEntry(log, 0, j, hash, path);
        }
        UnnamedInFiles(patch, log[0].files, path);
      }
      forall i, j
        ensures !NamesEntry(log[1..], i, j, hash, path)
      {
        assert !NamesEntry(log, i + 1, j, hash, path);
      }
      UnnamedInLog(patch, log[1..], hash, path);
    }
  }

  /** A file listed once gets exactly its own body lines joined; if it is binary, empty or over
      the limit, its patch stays as it was. */
  lemma {:induction false} NamedOnceInLog(patch: string, log: seq<CommitBlock>, i: nat, j: nat, hash: string, path: string)
    requires NamesEntry(log, i, j, hash, path)
    requires forall i', j' :: NamesEntry(log, i', j', hash, path) ==> i' == i && j' == j
    ensures var own := PatchOf(log[i].files[j]);
            PatchAfterLog(patch, log, hash, path) == if own.Some? then own.value else patch
    decreases |log|
  {
    hide PatchOf, PatchAfterFiles;
    var own := PatchOf(log[i].files[j]);
    forall i', j' | NamesEntry(log[1..], i', j', hash, path)
      ensures i' == i - 1 && j' == j
    {
      assert NamesEntry(log, i' + 1, j', hash, path);
    }
    if i == 0 {
      forall k | 0 <= k < |log[0].files| && k != j
        ensures !Names(log[0].files[k], path)
      {
        assert !NamesEntry(log, 0, k, hash, path);
      }
      NamedOnceInFiles(patch, log[0].files, j, path);
      UnnamedInLog(if own.Some? then own.value else patch, log[1..], hash, path);
    } else {
      if log[0].hash == hash {
        forall k | 0 <= k < |log[0].files|
          ensures !Names(log[0].files[k], path)
        {
          assert !NamesEntry(log, 0, k, hash, path);
        }
        UnnamedInFiles(patch, log[0].files, path);
      }
      assert NamesEntry(log[1..], i - 1, j, hash, path);
      NamedOnceInLog(patch, log[1..], i - 1, j, hash, path);
    }
  }

  // ----- From lines to bytes

  ghost predicate OneLineEach(lines: seq<string>) {
    forall i :: 0 <= i < |lines| ==> '\n' !in lines[i]
  }

  ghost predicate OneLineFile(f: FileBlock) {
    OneLineEach(HeaderLinesOf(f.headers)) && OneLineEach(ContentLines(f.content))
  }

  ghost predicate OneLineCommit(c: CommitBlock) {
    && '\n' !in c.hash && OneLineEach(c.preamble)
    && forall i :: 0 <= i < |c.files| ==> OneLineFile(c.files[i])
  }

  lemma {:induction false} EscapeIsOneLine(p: string, quotePath: bool)
    requires IsByteString(p)
    ensures '\n' !in Escape(p, quotePath)
  {
    if p != "" {
      EscapeIsOneLine(p[1..], quotePath);
      EscapeByteIsOneLine(p[0], quotePath);
    }
  }

  lemma EscapeByteIsOneLine(c: char, quotePath: bool)
    requires c < 256 as char
    ensures '\n' !in EscapeByte(c, quotePath)
  {
  }

  lemma HeaderIsOneLine(p: string, quotePath: bool)
    requires IsByteString(p)
    ensures '\n' !in DiffGitHeader(p, quotePath)
  {
    hide Escape;
    EscapeIsOneLine(p, quotePath);
    if '\n' in p {
      var i :| 0 <= i < |p| && p[i] == '\n';
      assert NeedsQuoting(p[i], quotePath);
    }
  }

  lemma {:induction false} FilesAreOneLineEach(files: seq<FileBlock>, quotePath: bool)
    requires forall i :: 0 <= i < |files| ==> WellFormedFile(files[i]) && OneLineFile(files[i])
    ensures OneLineEach(FilesLines(files, quotePath))
    decreases |files|
  {
    if files != [] {
      assert WellFormedFile(files[0]) && OneLineFile(files[0]);
      hide DiffGitHeader, HeaderLine;
      HeaderIsOneLine(files[0].path, quotePath);
      FilesAreOneLineEach(files[1..], quotePath);
    }
  }

  lemma {:induction false} LogIsOneLineEach(log: seq<CommitBlock>, quotePath: bool)
    requires forall i :: 0 <= i < |log| ==> WellFormedCommit(log[i]) && OneLineCommit(log[i])
    ensures OneLineEach(LogLines(log, quotePath))
    decreases |log|
  {
    if log != [] {
      CommitIsOneLineEach(log[0], quotePath);
      hide WellFormedCommit, OneLineCommit, CommitLines;
      LogIsOneLineEach(log[1..], quotePath);
    }
  }

  lemma CommitIsOneLineEach(c: CommitBlock, quotePath: bool)
    requires WellFormedCommit(c) && OneLineCommit(c)
    ensures OneLineEach(CommitLines(c, quotePath))
  {
    FilesAreOneLineEach(c.files, quotePath);
    hide WellFormedFile, OneLineFile, FilesLines;
  }

  /** The log with one more, empty, line at its end: part of the last body, or ignored. */
  function TerminatedFile(f: FileBlock): FileBlock {
    match f.content
    case Binary(before, after, rest) => f.(content := Binary(before, after, rest + [""]))
    case Body(lines) => f.(content := Body(lines + [""]))
  }

  function TerminatedFiles(files: seq<FileBlock>): seq<FileBlock>
    requires files != []
  {
    if |files| == 1 then [TerminatedFile(files[0])] else [files[0]] + TerminatedFiles(files[1..])
  }

  function TerminatedCommit(c: CommitBlock): CommitBlock {
    if c.files == [] then c.(preamble := c.preamble + [""]) else c.(files := TerminatedFiles(c.files))
  }

  function TerminatedLog(log: seq<CommitBlock>): seq<CommitBlock> {
    if log == [] then []
    else if |log| > 1 then [log[0]] + TerminatedLog(log[1..])
    else [TerminatedCommit(log[0])]
  }

  lemma TerminatedFileLines(f: FileBlock, quotePath: bool)
    requires WellFormedFile(f)
    ensures WellFormedFile(TerminatedFile(f))
    ensures FileLines(TerminatedFile(f), quotePath) == FileLines(f, quotePath) + [""]
  {
    hide DiffGitHeader, HeaderLine;
    assert ContentLines(TerminatedFile(f).content) == ContentLines(f.content) + [""];
  }

  lemma {:induction false} TerminatedFilesLines(files: seq<FileBlock>, quotePath: bool)
    requires files != [] && forall i :: 0 <= i < |files| ==> WellFormedFile(files[i])
    ensures forall i :: 0 <= i < |TerminatedFiles(files)| ==> WellFormedFile(TerminatedFiles(files)[i])
    ensures FilesLines(TerminatedFiles(files), quotePath) == FilesLines(files, quotePath) + [""]
    decreases |files|
  {
    hide WellFormedFile, FileLines, TerminatedFile;
    WellFormedPath(files[0]);
    if |files| == 1 {
      TerminatedFileLines(files[0], quotePath);
      WellFormedPath(TerminatedFile(files[0]));
      assert FilesLines(files[1..], quotePath) == [];
    } else {
      TerminatedFilesLines(files[1..], quotePath);
      assert TerminatedFiles(files)[1..] == TerminatedFiles(files[1..]);
    }
  }

  lemma TerminatedCommitLines(c: CommitBlock, quotePath: bool)
    requires WellFormedCommit(c)
    ensures WellFormedCommit(TerminatedCommit(c))
    ensures CommitLines(TerminatedCommit(c), quotePath) == CommitLines(c, quotePath) + [""]
  {
    hide WellFormedFile;
    if c.files == [] {
      assert c.preamble + [""] + [] == c.preamble + [] + [""];
    } else {
      hide FilesLines, TerminatedFiles;
      TerminatedFilesLines(c.files, quotePath);
    }
  }

  lemma {:induction false} TerminatedLogLines(log: seq<CommitBlock>, quotePath: bool)
    requires log != [] && forall i :: 0 <= i < |log| ==> WellFormedCommit(log[i])
    ensures forall i :: 0 <= i < |TerminatedLog(log)| ==> WellFormedCommit(TerminatedLog(log)[i])
    ensures LogLines(TerminatedLog(log), quotePath) == LogLines(log, quotePath) + [""]
    decreases |log|
  {
    hide WellFormedCommit, CommitLines, TerminatedCommit;
    if |log| == 1 {
      TerminatedCommitLines(log[0], quotePath);
      assert LogLines(log[1..], quotePath) == [];
    } else {
      TerminatedLogLines(log[1..], quotePath);
      assert TerminatedLog(log)[1..] == TerminatedLog(log[1..]);
    }
  }

  /** The text of the log: every line ends in a newline. */
  ghost function LogText(log: seq<CommitBlock>, quotePath: bool): string
    requires forall i :: 0 <= i < |log| ==> WellFormedCommit(log[i])
  {
    Join(LogLines(log, quotePath) + [""], '\n')
  }

  /** Merging git's text performs exactly the merge of the log it prints, with the final newline
      counted as an empty line of the last block. */
  lemma MergeOfPrintedLog(entries: Entries, log: seq<CommitBlock>, quotePath: bool)
    requires forall i :: 0 <= i < |log| ==> WellFormedCommit(log[i]) && OneLineCommit(log[i])
    ensures MergedPatches(entries, LogText(log, quotePath)) == MergeLog(entries, TerminatedLog(log))
  {
    var lines := LogLines(log, quotePath) + [""];
    LogIsOneLineEach(log, quotePath);
    SplitOfJoin(lines, '\n');
    if log == [] {
      assert lines == [""];
      IgnoredLines(Start(entries), lines);
    } else {
      hide LogLines, Step, Flush;
      TerminatedLogLines(log, quotePath);
      LogRead(Start(entries), TerminatedLog(log), quotePath);
      StartIsFlushed(entries);
    }
  }

  lemma StartIsFlushed(entries: Entries)
    ensures Flush(Start(entries)) == entries
  {
  }

  // ----- What one file gets from git's text

  /** The block the final newline belongs to. */
  predicate IsLastBlock(log: seq<CommitBlock>, i: int, j: int) {
    i == |log| - 1 && 0 <= i && j == |log[i].files| - 1
  }

  /** The block as the text contains it. */
  function PrintedBlock(log: seq<CommitBlock>, i: nat, j: nat): FileBlock
    requires i < |log| && j < |log[i].files|
  {
    if IsLastBlock(log, i, j) then TerminatedFile(log[i].files[j]) else log[i].files[j]
  }

  lemma {:induction false} TerminatedFilesAt(files: seq<FileBlock>, j: nat)
    requires j < |files|
    ensures |TerminatedFiles(files)| == |files|
    ensures TerminatedFiles(files)[j] == if j == |files| - 1 then TerminatedFile(files[j]) else files[j]
    decreases |files|
  {
    hide TerminatedFile;
    if |files| > 1 {
      TerminatedFilesAt(files[1..], if j > 0 then j - 1 else 0);
    }
  }

  lemma {:induction false} TerminatedLogAt(log: seq<CommitBlock>, i: nat)
    requires i < |log|
    ensures |TerminatedLog(log)| == |log|
    ensures TerminatedLog(log)[i] == if i == |log| - 1 then TerminatedCommit(log[i]) else log[i]
    decreases |log|
  {
    hide TerminatedCommit;
    if |log| > 1 {
      TerminatedLogAt(log[1..], if i > 0 then i - 1 else 0);
    }
  }

  lemma TerminatedBlockAt(log: seq<CommitBlock>, i: nat, j: nat)
    requires i < |log|
    ensures |TerminatedLog(log)| == |log|
    ensures TerminatedLog(log)[i].hash == log[i].hash && |TerminatedLog(log)[i].files| == |log[i].files|
    ensures j < |log[i].files| ==> TerminatedLog(log)[i].files[j] == PrintedBlock(log, i, j)
  {
    hide TerminatedFiles, TerminatedLog, TerminatedFile;
    TerminatedLogAt(log, i);
    if log[i].files != [] {
      TerminatedFilesAt(log[i].files, if j < |log[i].files| then j else 0);
    }
  }

  /** The final newline names no other file. */
  lemma TerminatedNames(log: seq<CommitBlock>, i: int, j: int, hash: string, path: string)
    ensures NamesEntry(TerminatedLog(log), i, j, hash, path) <==> NamesEntry(log, i, j, hash, path)
  {
    hide TerminatedLog;
    TerminatedLogSize(log);
    if 0 <= i < |log| {
      TerminatedBlockAt(log, i, if j >= 0 then j else 0);
    }
  }

  lemma TerminatedLogSize(log: seq<CommitBlock>)
    ensures |TerminatedLog(log)| == |log|
  {
    if log != [] { TerminatedLogAt(log, 0); }
  }

  /** After merging git's text, a file listed once has exactly its own body lines as its patch,
      the final newline counting as an empty line of the very last block; a binary, empty or
      oversized block leaves the patch as it was. Nothing else of the entry changes. */
  lemma PatchOfPrintedFile(entries: Entries, log: seq<CommitBlock>, quotePath: bool, i: nat, j: nat, hash: string, path: string)
    requires forall k :: 0 <= k < |log| ==> WellFormedCommit(log[k]) && OneLineCommit(log[k])
    requires NamesEntry(log, i, j, hash, path) && Has(entries, hash, path)
    requires forall i', j' :: NamesEntry(log, i', j', hash, path) ==> i' == i && j' == j
    ensures var own := PatchOf(PrintedBlock(log, i, j));
            OnlyPatch(entries, MergedPatches(entries, LogText(log, quotePath)), hash, path,
                      if own.Some? then own.value else entries[hash][path].patch)
  {
    var terminated := TerminatedLog(log);
    MergeOfPrintedLog(entries, log, quotePath);
    hide MergedPatches, LogText, TerminatedLog, PatchOf, MergeLog, PatchAfterLog, WellFormedCommit, OneLineCommit;
    MergeLogEffect(entries, terminated, hash, path);
    forall i', j' | NamesEntry(terminated, i', j', hash, path)
      ensures i' == i && j' == j
    {
      TerminatedNames(log, i', j', hash, path);
    }
    TerminatedNames(log, i, j, hash, path);
    TerminatedBlockAt(log, i, j);
    NamedOnceInLog(entries[hash][path].patch, terminated, i, j, hash, path);
  }

  /** A file the log does not list keeps its entry, and no entry is made for it. */
  lemma UnlistedFileKept(entries: Entries, log: seq<CommitBlock>, quotePath: bool, hash: string, path: string)
    requires forall k :: 0 <= k < |log| ==> WellFormedCommit(log[k]) && OneLineCommit(log[k])
    requires forall i, j :: !NamesEntry(log, i, j, hash, path)
    ensures var after := MergedPatches(entries, LogText(log, quotePath));
            && (Has(after, hash, path) <==> Has(entries, hash, path))
            && (Has(entries, hash, path) ==> after[hash][path] == entries[hash][path])
  {
    var terminated := TerminatedLog(log);
    MergeOfPrintedLog(entries, log, quotePath);
    hide MergedPatches, LogText, TerminatedLog, MergeLog, PatchAfterLog, WellFormedCommit, OneLineCommit;
    MergeLogEffect(entries, terminated, hash, path);
    forall i, j
      ensures !NamesEntry(terminated, i, j, hash, path)
    {
      TerminatedNames(log, i, j, hash, path);
    }
    if Has(entries, hash, path) {
      UnnamedInLog(entries[hash][path].patch, terminated, hash, path);
    }
  }

  /** What the final newline does to the last block: its patch ends in a newline, a body exactly
      at the limit is lost, and an empty body becomes an empty patch. */
  lemma LastBlockPatch(f: FileBlock)
    requires f.content.Body?
    ensures var lines := f.content.lines;
            PatchOf(TerminatedFile(f)) ==
            if SizeOf(lines) + 1 > MAX_PATCH_BYTES then None
            else if lines == [] then Some("")
            else Some(Join(lines, '\n') + "\n")
  {
    var lines := f.content.lines;
    SizeOfPrefix(lines, "");
    hide SizeOf;
    JoinThenEmpty(lines);
  }

  lemma {:induction false} JoinThenEmpty(lines: seq<string>)
    ensures Join(lines + [""], '\n') == if lines == [] then "" else Join(lines, '\n') + "\n"
    decreases |lines|
  {
    if lines != [] {
      assert (lines + [""])[1..] == lines[1..] + [""];
      JoinThenEmpty(lines[1..]);
    }
  }

  lemma {:induction false} SizeIsTextLength(lines: seq<string>)
    requires lines != []
    ensures SizeOf(lines) == |Join(lines, '\n')| + 1
    decreases |lines|
  {
    if |lines| == 1 {
      assert lines[..0] == [];
    } else {
      SizeIsTextLength(lines[1..]);
      SizeOfFirst(lines);
    }
  }

  lemma {:induction false} SizeOfFirst(lines: seq<string>)
    requires lines != []
    ensures SizeOf(lines) == |lines[0]| + 1 + SizeOf(lines[1..])
    decreases |lines|
  {
    var n := |lines| - 1;
    if n > 0 {
      SizeOfFirst(lines[..n]);
      assert lines[..n][1..] == lines[1..][..n - 1];
    } else {
      assert lines[..0] == [];
    }
  }

  /** The patch of a block is its body as one text, if there is any and it is shorter than 5 MB. */
  lemma PatchOfBlock(f: FileBlock)
    ensures f.content.Binary? ==> PatchOf(f).None?
    ensures f.content.Body? ==>
              var text := Join(f.content.lines, '\n');
              PatchOf(f) == if f.content.lines != [] && |text| < 5242880 then Some(text) else None
  {
    if f.content.Body? && f.content.lines != [] {
      SizeIsTextLength(f.content.lines);
    }
  }
}
