/** Import resolution: rewriting import targets in place against the known file set. */
module ImportResolution {
  import opened Text
  import opened ImportIndex

  datatype Import = Import(
    sourceSymbolID: string,
    sourceFilePath: string,
    target: string,
    importName: string,
    importType: string,
    packageName: string,
    packageVersion: string)

  /** A parsed file; `rest` stands for the fields resolution never looks at. */
  datatype ParsedFile = ParsedFile(filePath: string, language: string, imports: seq<Import>, rest: string)

  // ----- Language-specific specifiers

  function ReplaceAll(s: string, from: char, to: char): (r: string)
    ensures |r| == |s|
    ensures forall i :: 0 <= i < |s| ==> r[i] == if s[i] == from then to else s[i]
  {
    if s == "" then "" else [if s[0] == from then to else s[0]] + ReplaceAll(s[1..], from, to)
  }

  /** The candidate path of an import specifier, or "" where the language has none. */
  function ConvertImportToPath(importName: string, language: string, goModulePath: string): string {
    if language == "go" then
      if goModulePath == "" || !(goModulePath + "/" <= importName) then ""
      else importName[|goModulePath| + 1..]
    else if language in {"java", "kotlin", "csharp"} then ReplaceAll(importName, '.', '/')
    else if language == "php" then ReplaceAll(if "\\" <= importName then importName[1..] else importName, '\\', '/')
    else if language == "python" then if "." <= importName then "" else ReplaceAll(importName, '.', '/')
    else ""
  }

  /** A Go import names the package directory `c` exactly when it is the module path, a slash and `c`. */
  lemma GoCandidate(importName: string, goModulePath: string, c: string)
    requires c != ""
    ensures ConvertImportToPath(importName, "go", goModulePath) == c <==> goModulePath != "" && importName == goModulePath + "/" + c
  {
    var prefix := goModulePath + "/";
    if prefix <= importName {
      assert importName == prefix + importName[|prefix|..];
    }
    if importName == prefix + c {
      assert importName[|prefix|..] == c;
    }
  }

  lemma ReplaceAllOfConcat(a: string, b: string, from: char, to: char)
    ensures ReplaceAll(a + b, from, to) == ReplaceAll(a, from, to) + ReplaceAll(b, from, to)
  {
    hide ReplaceAll;
  }

  lemma ReplaceAllAbsent(s: string, from: char, to: char)
    requires from !in s
    ensures ReplaceAll(s, from, to) == s
  {
    hide ReplaceAll;
  }

  /** Replacing the separator turns a joined name into the joined path of its parts. */
  lemma {:induction false} ReplaceAllOfJoin(parts: seq<string>, from: char, to: char)
    requires forall part :: part in parts ==> from !in part
    ensures ReplaceAll(Join(parts, from), from, to) == Join(parts, to)
    decreases |parts|
  {
    if |parts| == 1 {
      ReplaceAllAbsent(parts[0], from, to);
    } else if |parts| > 1 {
      ReplaceAllOfJoin(parts[1..], from, to);
      ReplaceAllAbsent(parts[0], from, to);
      ReplaceAllOfConcat(parts[0], [from], from, to);
      ReplaceAllOfConcat(parts[0] + [from], Join(parts[1..], from), from, to);
    }
  }

  /** A dotted name denotes the path of its parts, except that a leading dot makes a Python import relative. */
  lemma DottedCandidate(parts: seq<string>, language: string, goModulePath: string)
    requires language in {"java", "kotlin", "csharp", "python"}
    requires forall part :: part in parts ==> '.' !in part
    ensures var name := Join(parts, '.');
            ConvertImportToPath(name, language, goModulePath) ==
            if language == "python" && "." <= name then "" else Join(parts, '/')
  {
    ReplaceAllOfJoin(parts, '.', '/');
  }

  /** A PHP name denotes the path of its parts, fully qualified or not. */
  lemma PhpCandidate(parts: seq<string>, goModulePath: string)
    requires parts != [] && parts[0] != "" && forall part :: part in parts ==> '\\' !in part
    ensures ConvertImportToPath(Join(parts, '\\'), "php", goModulePath) == Join(parts, '/')
    ensures ConvertImportToPath("\\" + Join(parts, '\\'), "php", goModulePath) == Join(parts, '/')
  {
    ReplaceAllOfJoin(parts, '\\', '/');
    var name := Join(parts, '\\');
    assert name[0] == parts[0][0];
    assert ("\\" + name)[1..] == name;
  }

  // ----- What resolution means

  ghost function ResolveInternal(paths: set<string>, imp: Import): Import {
    if imp.importType != "INTERNAL" || imp.target == "" || imp.target in paths then imp
    else
      match StemTarget(paths, imp.target)
      case Some(file) => imp.(target := file)
      case None =>
        match DirTarget(paths, imp.target)
        case Some(file) => imp.(target := file)
        case None => imp
  }

  /** The known file a candidate path denotes, if any. */
  ghost function Locate(paths: set<string>, language: string, candidate: string): Option<string> {
    if candidate in paths then Some(candidate)
    else if StemTarget(paths, candidate).Some? then StemTarget(paths, candidate)
    else if DirTarget(paths, candidate).Some? then DirTarget(paths, candidate)
    else if language == "go" then GoTarget(paths, candidate)
    else None
  }

  ghost function Reclassify(paths: set<string>, language: string, goModulePath: string, imp: Import): Import {
    var candidate := ConvertImportToPath(imp.importName, language, goModulePath);
    if imp.importType != "EXTERNAL" || imp.target != "" || candidate == "" then imp
    else
      match Locate(paths, language, candidate)
      case Some(file) => imp.(target := file, importType := "INTERNAL")
      case None => imp
  }

  ghost function ResolveImport(paths: set<string>, language: string, goModulePath: string, imp: Import): Import {
    Reclassify(paths, language, goModulePath, ResolveInternal(paths, imp))
  }

  ghost function ResolveFile(paths: set<string>, goModulePath: string, f: ParsedFile): ParsedFile {
    f.(imports := seq(|f.imports|, j requires 0 <= j < |f.imports| => ResolveImport(paths, f.language, goModulePath, f.imports[j])))
  }

  /** The path set lookups are built from: the listed paths and the files themselves. */
  ghost function KnownPaths(files: seq<ParsedFile>, allPaths: seq<string>): set<string> {
    (set p | p in allPaths) + (set f | f in files :: f.filePath)
  }

  /** An internal target that is no known file becomes what its stem stands for, else what its
      directory stands for; anything else about the import, and any other import, stays. */
  lemma InternalOutcome(paths: set<string>, language: string, goModulePath: string, imp: Import)
    requires imp.importType == "INTERNAL"
    ensures var r := ResolveImport(paths, language, goModulePath, imp);
            && r == imp.(target := r.target)
            && (imp.target == "" || imp.target in paths ==> r == imp)
            && (imp.target != "" && imp.target !in paths ==>
                  var stem, dir := StemTarget(paths, imp.target), DirTarget(paths, imp.target);
                  && (stem.Some? ==> r.target == stem.value)
                  && (stem.None? && dir.Some? ==> r.target == dir.value)
                  && (stem.None? && dir.None? ==> r == imp))
  {
    hide StemTarget, DirTarget, ConvertImportToPath, Locate;
  }

  /** An external import without a target becomes internal exactly when its candidate path is a known
      file, the stem of one, a directory with an index file or, in Go, a package directory; the first
      of these gives the target. Every other import that is not internal stays as it is. */
  lemma ExternalOutcome(paths: set<string>, language: string, goModulePath: string, imp: Import)
    requires imp.importType != "INTERNAL"
    ensures var r, c := ResolveImport(paths, language, goModulePath, imp), ConvertImportToPath(imp.importName, language, goModulePath);
            var stem, dir, package := StemTarget(paths, c), DirTarget(paths, c), GoTarget(paths, c);
            var candidate := imp.importType == "EXTERNAL" && imp.target == "" && c != "";
            && (r.importType == "INTERNAL" <==> candidate && (c in paths || stem.Some? || dir.Some? || (language == "go" && package.Some?)))
            && (r.importType != "INTERNAL" ==> r == imp)
            && (r.importType == "INTERNAL" ==>
                  && r == imp.(target := r.target, importType := "INTERNAL")
                  && (c in paths ==> r.target == c)
                  && (c !in paths && stem.Some? ==> r.target == stem.value)
                  && (c !in paths && stem.None? && dir.Some? ==> r.target == dir.value)
                  && (c !in paths && stem.None? && dir.None? ==> r.target == package.value))
  {
    hide StemTarget, DirTarget, GoTarget, ConvertImportToPath;
  }

  /** Other languages have no candidate, nor has Go without a module path. */
  lemma NoCandidate(importName: string, language: string, goModulePath: string)
    requires language !in {"go", "java", "kotlin", "csharp", "php", "python"} || (language == "go" && goModulePath == "")
    ensures ConvertImportToPath(importName, language, goModulePath) == ""
  {
  }

  // ----- Every answer is a known file

  lemma StemTargetKnown(paths: set<string>, stem: string)
    ensures StemTarget(paths, stem).Some? ==> StemTarget(paths, stem).value in paths
  {
  }

  lemma LocateKnown(paths: set<string>, language: string, candidate: string)
    ensures Locate(paths, language, candidate).Some? ==> Locate(paths, language, candidate).value in paths
  {
    StemTargetKnown(paths, candidate);
  }

  /** Only targets and types ever change; a changed target is a known file; a type moves only
      from EXTERNAL to INTERNAL, and only together with its target. */
  lemma ResolveImportEffect(paths: set<string>, language: string, goModulePath: string, imp: Import)
    ensures var r := ResolveImport(paths, language, goModulePath, imp);
            && r == imp.(target := r.target, importType := r.importType)
            && (r.target != imp.target ==> r.target in paths)
            && (r.importType != imp.importType ==> imp.importType == "EXTERNAL" && r.importType == "INTERNAL" && r.target in paths)
  {
    hide StemTarget, DirTarget, ConvertImportToPath, Locate;
    var candidate := ConvertImportToPath(imp.importName, language, goModulePath);
    StemTargetKnown(paths, imp.target);
    DirTargetKnown(paths, imp.target);
    LocateKnown(paths, language, candidate);
  }

  lemma DirTargetKnown(paths: set<string>, dir: string)
    ensures DirTarget(paths, dir).Some? ==> DirTarget(paths, dir).value in paths
  {
  }

  /** Resolving again changes nothing. */
  lemma ResolveImportIdempotent(paths: set<string>, language: string, goModulePath: string, imp: Import)
    ensures var r := ResolveImport(paths, language, goModulePath, imp);
            ResolveImport(paths, language, goModulePath, r) == r
  {
    hide StemTarget, DirTarget, ConvertImportToPath, Locate;
    var candidate := ConvertImportToPath(imp.importName, language, goModulePath);
    StemTargetKnown(paths, imp.target);
    DirTargetKnown(paths, imp.target);
    LocateKnown(paths, language, candidate);
  }

  lemma ResolveFileIdempotent(paths: set<string>, goModulePath: string, f: ParsedFile)
    ensures var r := ResolveFile(paths, goModulePath, f);
            ResolveFile(paths, goModulePath, r) == r
  {
    hide ResolveImport;
    var r := ResolveFile(paths, goModulePath, f);
    forall j | 0 <= j < |f.imports|
      ensures ResolveImport(paths, f.language, goModulePath, r.imports[j]) == r.imports[j]
    {
      ResolveImportIdempotent(paths, f.language, goModulePath, f.imports[j]);
    }
    assert ResolveFile(paths, goModulePath, r).imports == r.imports;
  }

  /** Resolving only the changed files against the full path list gives each of them what
      resolving the whole project at once gives it. */
  lemma IncrementalAgreesWithFull(project: seq<ParsedFile>, changed: seq<ParsedFile>, allPaths: seq<string>, goModulePath: string, f: ParsedFile)
    requires forall g :: g in changed ==> g in project
    requires forall p :: p in allPaths <==> exists g :: g in project && g.filePath == p
    requires f in changed
    ensures ResolveFile(KnownPaths(changed, allPaths), goModulePath, f) == ResolveFile(KnownPaths(project, []), goModulePath, f)
  {
    hide ResolveFile;
    assert KnownPaths(changed, allPaths) == KnownPaths(project, []);
  }

  // ----- Sorting

  ghost predicate Distinct(s: seq<string>) {
    forall i, j :: 0 <= i < j < |s| ==> s[i] != s[j]
  }

  /** `sort.Strings`: an ordered rearrangement. */
  method SortStrings(s: seq<string>) returns (r: seq<string>)
    requires Distinct(s)
    ensures forall i, j :: 0 <= i < j < |r| ==> Less(r[i], r[j])
    ensures forall x :: x in r <==> x in s
  {
    r := [];
    for n := 0 to |s|
      invariant forall i, j :: 0 <= i < j < |r| ==> Less(r[i], r[j])
      invariant forall x :: x in r <==> x in s[..n]
    {
      assert s[n] !in s[..n];
      r := Insert(r, s[n]);
    }
  }

  method Insert(s: seq<string>, x: string) returns (r: seq<string>)
    requires x !in s && forall i, j :: 0 <= i < j < |s| ==> Less(s[i], s[j])
    ensures forall i, j :: 0 <= i < j < |r| ==> Less(r[i], r[j])
    ensures forall y :: y in r <==> y in s || y == x
  {
    hide Less;
    var k := 0;
    while k < |s| && Less(s[k], x)
      invariant 0 <= k <= |s|
      invariant forall i :: 0 <= i < k ==> Less(s[i], x)
    {
      k := k + 1;
    }
    forall i | k <= i < |s|
      ensures Less(x, s[i])
    {
      LessTotal(s[k], x);
      if i > k { LessTransitive(x, s[k], s[i]); }
    }
    r := s[..k] + [x] + s[k..];
  }

  // ----- The resolver

  /** Collects the distinct paths to register. */
  method CollectPaths(files: array<ParsedFile>, allPaths: seq<string>) returns (paths: seq<string>)
    ensures Distinct(paths)
    ensures forall p :: p in paths <==> p in KnownPaths(files[..], allPaths)
  {
    var seen: set<string> := {};
    paths := [];
    for i := 0 to |allPaths|
      invariant Distinct(paths) && (forall p :: p in seen <==> p in paths)
      invariant forall p :: p in paths <==> p in allPaths[..i]
    {
      if allPaths[i] !in seen {
        seen := seen + {allPaths[i]};
        paths := paths + [allPaths[i]];
      }
    }
    for i := 0 to files.Length
      invariant Distinct(paths) && (forall p :: p in seen <==> p in paths)
      invariant forall p :: p in paths <==> p in allPaths || exists k :: 0 <= k < i && files[k].filePath == p
    {
      if files[i].filePath !in seen {
        seen := seen + {files[i].filePath};
        paths := paths + [files[i].filePath];
      }
    }
    forall p
      ensures p in paths <==> p in KnownPaths(files[..], allPaths)
    {
      if k :| 0 <= k < files.Length && files[k].filePath == p {
        assert files[..][k] in files[..];
      }
    }
  }

  method BuildTables(paths: seq<string>) returns (t: Tables)
    requires Distinct(paths) && forall p :: p in paths ==> Clean(p)
    ensures fresh(t) && t.AnswersFor(set p | p in paths)
  {
    var sorted := SortStrings(paths);
    t := new Tables();
    for i := 0 to |sorted|
      invariant fresh(t) && t.AnswersFor(t.exact)
      invariant t.exact == set p | p in sorted[..i]
    {
      hide Less, Clean;
      t.RegisterPath(sorted[i]);
      assert sorted[..i + 1] == sorted[..i] + [sorted[i]];
    }
    assert t.exact == set p | p in paths;
  }

  method ResolveInternalImports(t: Tables, imports: seq<Import>) returns (r: seq<Import>)
    requires t.AnswersFor(t.exact)
    ensures |r| == |imports|
    ensures forall j :: 0 <= j < |imports| ==> r[j] == ResolveInternal(t.exact, imports[j])
  {
    hide StemTarget, DirTarget, GoTarget;
    r := imports;
    for j := 0 to |imports|
      invariant |r| == |imports|
      invariant forall k :: 0 <= k < j ==> r[k] == ResolveInternal(t.exact, imports[k])
      invariant forall k :: j <= k < |imports| ==> r[k] == imports[k]
    {
      var imp := r[j];
      if imp.importType != "INTERNAL" || imp.target == "" { continue; }
      if imp.target in t.exact { continue; }
      assert Lookup(t.stemMap, imp.target) == StemTarget(t.exact, imp.target);
      assert Lookup(t.dirIndex, imp.target) == DirTarget(t.exact, imp.target);
      if imp.target in t.stemMap {
        r := r[j := imp.(target := t.stemMap[imp.target])];
        continue;
      }
      if imp.target in t.dirIndex {
        r := r[j := imp.(target := t.dirIndex[imp.target])];
      }
    }
  }

  method ReclassifyImports(t: Tables, imports: seq<Import>, lang: string, goModulePath: string) returns (r: seq<Import>)
    requires t.AnswersFor(t.exact)
    ensures |r| == |imports|
    ensures forall j :: 0 <= j < |imports| ==> r[j] == Reclassify(t.exact, lang, goModulePath, imports[j])
  {
    hide StemTarget, DirTarget, GoTarget, ConvertImportToPath;
    r := imports;
    for j := 0 to |imports|
      invariant |r| == |imports|
      invariant forall k :: 0 <= k < j ==> r[k] == Reclassify(t.exact, lang, goModulePath, imports[k])
      invariant forall k :: j <= k < |imports| ==> r[k] == imports[k]
    {
      var imp := r[j];
      if imp.importType != "EXTERNAL" || imp.target != "" { continue; }
      var candidate := ConvertImportToPath(imp.importName, lang, goModulePath);
      if candidate == "" { continue; }
      assert Lookup(t.stemMap, candidate) == StemTarget(t.exact, candidate);
      assert Lookup(t.dirIndex, candidate) == DirTarget(t.exact, candidate);
      assert Lookup(t.goDir, candidate) == GoTarget(t.exact, candidate);
      if candidate in t.exact {
        r := r[j := imp.(target := candidate, importType := "INTERNAL")];
      } else if candidate in t.stemMap {
        r := r[j := imp.(target := t.stemMap[candidate], importType := "INTERNAL")];
      } else if candidate in t.dirIndex {
        r := r[j := imp.(target := t.dirIndex[candidate], importType := "INTERNAL")];
      } else if lang == "go" {
        if candidate in t.goDir {
          r := r[j := imp.(target := t.goDir[candidate], importType := "INTERNAL")];
        }
      }
    }
  }

  /** The state between the two passes: internal targets resolved, nothing reclassified. */
  ghost function InternalPass(paths: set<string>, f: ParsedFile): ParsedFile {
    f.(imports := seq(|f.imports|, j requires 0 <= j < |f.imports| => ResolveInternal(paths, f.imports[j])))
  }

  ghost function ReclassifyPass(paths: set<string>, goModulePath: string, f: ParsedFile): ParsedFile {
    f.(imports := seq(|f.imports|, j requires 0 <= j < |f.imports| => Reclassify(paths, f.language, goModulePath, f.imports[j])))
  }

  lemma PassesCompose(paths: set<string>, goModulePath: string, f: ParsedFile)
    ensures ReclassifyPass(paths, goModulePath, InternalPass(paths, f)) == ResolveFile(paths, goModulePath, f)
  {
    hide Reclassify, ResolveInternal;
    assert ReclassifyPass(paths, goModulePath, InternalPass(paths, f)).imports == ResolveFile(paths, goModulePath, f).imports;
  }

  method ResolveInternalFile(t: Tables, f: ParsedFile) returns (r: ParsedFile)
    requires t.AnswersFor(t.exact)
    ensures r == InternalPass(t.exact, f)
  {
    hide ResolveInternal;
    var imports := ResolveInternalImports(t, f.imports);
    r := f.(imports := imports);
    assert r.imports == InternalPass(t.exact, f).imports;
  }

  method ReclassifyFile(t: Tables, f: ParsedFile, goModulePath: string) returns (r: ParsedFile)
    requires t.AnswersFor(t.exact)
    ensures r == ReclassifyPass(t.exact, goModulePath, f)
  {
    hide Reclassify;
    var imports := ReclassifyImports(t, f.imports, f.language, goModulePath);
    r := f.(imports := imports);
    assert r.imports == ReclassifyPass(t.exact, goModulePath, f).imports;
  }

  method BuildLookups(files: array<ParsedFile>, allPaths: seq<string>) returns (t: Tables)
    requires forall p :: p in KnownPaths(files[..], allPaths) ==> Clean(p)
    ensures fresh(t) && t.exact == KnownPaths(files[..], allPaths) && t.AnswersFor(t.exact)
  {
    hide Clean, KnownPaths, StemTarget, DirTarget, GoTarget;
    var paths := CollectPaths(files, allPaths);
    t := BuildTables(paths);
    assert t.exact == KnownPaths(files[..], allPaths);
  }

  /** Resolves every import of every file in place: internal targets first, then the external
      imports that turn out to name project files. */
  method ResolveImportTargets(files: array<ParsedFile>, allPaths: seq<string>, goModulePath: string)
    requires forall p :: p in KnownPaths(files[..], allPaths) ==> Clean(p)
    modifies files
    ensures forall i :: 0 <= i < files.Length ==>
              files[i] == ResolveFile(KnownPaths(old(files[..]), allPaths), goModulePath, old(files[i]))
    ensures forall i :: 0 <= i < files.Length ==>
              ImportsResolved(KnownPaths(old(files[..]), allPaths), goModulePath, old(files[i]), files[i])
  {
    hide *;
    ghost var known := KnownPaths(files[..], allPaths);
    var t := BuildLookups(files, allPaths);
    for i := 0 to files.Length
      invariant t.exact == known && t.AnswersFor(known)
      invariant forall k :: 0 <= k < i ==> files[k] == InternalPass(known, old(files[k]))
      invariant forall k :: i <= k < files.Length ==> files[k] == old(files[k])
    {
      files[i] := ResolveInternalFile(t, files[i]);
    }
    for i := 0 to files.Length
      invariant t.exact == known && t.AnswersFor(known)
      invariant forall k :: 0 <= k < i ==> files[k] == ResolveFile(known, goModulePath, old(files[k]))
      invariant forall k :: i <= k < files.Length ==> files[k] == InternalPass(known, old(files[k]))
    {
      PassesCompose(known, goModulePath, old(files[i]));
      files[i] := ReclassifyFile(t, files[i], goModulePath);
    }
    forall i | 0 <= i < files.Length
      ensures ImportsResolved(known, goModulePath, old(files[i]), files[i])
    {
      ResolveFileImports(known, goModulePath, old(files[i]));
    }
  }

  /** Import by import, in the language of the file; nothing else of it changes. */
  ghost predicate ImportsResolved(paths: set<string>, goModulePath: string, before: ParsedFile, after: ParsedFile) {
    && after == before.(imports := after.imports) && |after.imports| == |before.imports|
    && forall j :: 0 <= j < |before.imports| ==>
         after.imports[j] == ResolveImport(paths, before.language, goModulePath, before.imports[j])
  }

  lemma ResolveFileImports(paths: set<string>, goModulePath: string, f: ParsedFile)
    ensures ImportsResolved(paths, goModulePath, f, ResolveFile(paths, goModulePath, f))
  {
    hide ResolveImport;
  }

  /** A second run over the output, with the same path list, leaves every file as it is. */
  lemma SecondRunChangesNothing(files: seq<ParsedFile>, out: seq<ParsedFile>, allPaths: seq<string>, goModulePath: string)
    requires |out| == |files|
    requires forall i :: 0 <= i < |files| ==> out[i] == ResolveFile(KnownPaths(files, allPaths), goModulePath, files[i])
    ensures forall i :: 0 <= i < |out| ==> ResolveFile(KnownPaths(out, allPaths), goModulePath, out[i]) == out[i]
  {
    assert KnownPaths(out, allPaths) == KnownPaths(files, allPaths) by {
      forall p
        ensures p in KnownPaths(out, allPaths) <==> p in KnownPaths(files, allPaths)
      {
        hide ResolveImport;
        if i :| 0 <= i < |out| && out[i].filePath == p { assert files[i].filePath == p && files[i] in files; }
        if i :| 0 <= i < |files| && files[i].filePath == p { assert out[i].filePath == p && out[i] in out; }
      }
    }
    hide ResolveFile, KnownPaths;
    forall i | 0 <= i < |out|
      ensures ResolveFile(KnownPaths(out, allPaths), goModulePath, out[i]) == out[i]
    {
      ResolveFileIdempotent(KnownPaths(files, allPaths), goModulePath, files[i]);
    }
  }

  /** Counts, orders and every other field stay as they were; rewritten targets are known files;
      types move only from EXTERNAL to INTERNAL. */
  lemma ResolveFileEffect(paths: set<string>, goModulePath: string, f: ParsedFile)
    ensures var r := ResolveFile(paths, goModulePath, f);
            && r == f.(imports := r.imports) && |r.imports| == |f.imports|
            && forall j :: 0 <= j < |f.imports| ==>
                 && r.imports[j] == f.imports[j].(target := r.imports[j].target, importType := r.imports[j].importType)
                 && (r.imports[j].target != f.imports[j].target ==> r.imports[j].target in paths)
                 && (r.imports[j].importType != f.imports[j].importType ==>
                       f.imports[j].importType == "EXTERNAL" && r.imports[j].importType == "INTERNAL")
  {
    hide ResolveImport;
    forall j | 0 <= j < |f.imports| {
      ResolveImportEffect(paths, f.language, goModulePath, f.imports[j]);
    }
  }
}
