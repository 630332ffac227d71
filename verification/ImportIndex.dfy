/** The lookup tables of import resolution: extensionless stems, directory index files
    and Go package directories, each filled in one pass over the sorted file paths. */
module ImportIndex {
  import opened Text

  // ----- Path arithmetic (`path.Ext`, `path.Dir` and `path.Base` on clean paths)

  /** The part of the last path element from its final dot on; empty without a dot. */
  function Ext(p: string): (e: string)
    ensures HasSuffix(p, e) && '/' !in e
    ensures e != "" ==> e[0] == '.' && '.' !in e[1..]
  {
    if p == "" then ""
    else
      var n := |p| - 1;
      if p[n] == '/' then ""
      else if p[n] == '.' then "."
      else
        var e := Ext(p[..n]);
        if e == "" then "" else e + [p[n]]
  }

  function StripExt(p: string): (stem: string)
    ensures p == stem + Ext(p)
  {
    p[..|p| - |Ext(p)|]
  }

  /** The text before the last slash, or "." without one. */
  function Dir(p: string): string {
    if p == "" then "."
    else
      var n := |p| - 1;
      if p[n] == '/' then p[..n] else Dir(p[..n])
  }

  /** The text after the last slash. */
  function Base(p: string): string {
    if p == "" then ""
    else
      var n := |p| - 1;
      if p[n] == '/' then "" else Base(p[..n]) + [p[n]]
  }

  predicate IsDTS(p: string) {
    HasSuffix(p, ".d.ts")
  }

  /** The index file names, each with the extensions it is valid with. */
  predicate IsIndexName(stem: string, ext: string) {
    || (stem == "index" && ext in {".ts", ".tsx", ".js", ".jsx", ".mjs", ".cjs"})
    || (stem == "__init__" && ext == ".py")
    || (stem == "mod" && ext == ".rs")
  }

  /** The names of implementation index files. */
  predicate IsIndexFileName(name: string) {
    || name == "index.ts" || name == "index.tsx" || name == "index.js"
    || name == "index.jsx" || name == "index.mjs" || name == "index.cjs"
    || name == "__init__.py" || name == "mod.rs"
  }

  function BaseStem(p: string): string {
    if IsDTS(p) then StripExt(StripExt(Base(p))) else StripExt(Base(p))
  }

  predicate IsIndexFile(p: string) {
    IsIndexName(BaseStem(p), Ext(p))
  }

  lemma {:induction false} ExtOfAppend(x: string, e: string)
    requires e != "" && e[0] == '.' && '.' !in e[1..] && '/' !in e
    ensures Ext(x + e) == e && StripExt(x + e) == x
    decreases |e|
  {
    var n := |e| - 1;
    assert (x + e)[..|x + e| - 1] == x + e[..n];
    if n > 0 {
      assert e[..n][1..] == e[1..][..n - 1];
      ExtOfAppend(x, e[..n]);
      assert e == e[..n] + [e[n]];
    }
  }

  /** A declaration file `x.d.ts` has primary stem `x.d` and secondary stem `x`. */
  lemma DTSStems(x: string)
    ensures IsDTS(x + ".d.ts")
    ensures Ext(x + ".d.ts") == ".ts"
    ensures StripExt(x + ".d.ts") == x + ".d" && StripExt(x + ".d") == x
  {
    assert x + ".d.ts" == (x + ".d") + ".ts";
    ExtOfAppend(x + ".d", ".ts");
    ExtOfAppend(x, ".d");
  }

  // ----- Declarative answers

  ghost predicate IsLeast(x: string, s: set<string>) {
    x in s && forall y :: y in s ==> y == x || Less(x, y)
  }

  lemma {:induction false} LeastExists(s: set<string>)
    requires s != {}
    ensures exists x :: IsLeast(x, s)
    decreases s
  {
    var a :| a in s;
    if s == {a} {
      assert IsLeast(a, s);
    } else {
      var rest := s - {a};
      assert s == rest + {a};
      LeastExists(rest);
      var b :| IsLeast(b, rest);
      LessTotal(a, b);
      if Less(a, b) {
        forall y | y in s ensures y == a || Less(a, y) {
          if y != a && y != b { LessTransitive(a, b, y); }
        }
        assert IsLeast(a, s);
      } else {
        assert IsLeast(b, s);
      }
    }
  }

  ghost function Least(s: set<string>): (x: string)
    requires s != {}
    ensures IsLeast(x, s)
  {
    LeastExists(s);
    var x :| IsLeast(x, s);
    x
  }

  lemma LeastUnique(x: string, s: set<string>)
    requires s != {} && IsLeast(x, s)
    ensures x == Least(s)
  {
    LessTotal(x, Least(s));
  }

  ghost function LeastOf(s: set<string>): Option<string> {
    if s == {} then None else Some(Least(s))
  }

  /** The files other than declaration files with the given stem. */
  ghost function Implementations(paths: set<string>, stem: string): set<string> {
    set f | f in paths && !IsDTS(f) && Ext(f) != "" && StripExt(f) == stem
  }

  /** What an extensionless path stands for: the least implementation file; else `stem.ts`
      where that is a declaration file; else `stem.d.ts`. */
  ghost function StemTarget(paths: set<string>, stem: string): Option<string> {
    if Implementations(paths, stem) != {} then LeastOf(Implementations(paths, stem))
    else if stem + ".ts" in paths && IsDTS(stem + ".ts") then Some(stem + ".ts")
    else if stem + ".d.ts" in paths then Some(stem + ".d.ts")
    else None
  }

  ghost function IndexImplementations(paths: set<string>, dir: string): set<string> {
    set f | f in paths && !IsDTS(f) && IsIndexFile(f) && Dir(f) == dir
  }

  function IndexDeclaration(dir: string): string {
    if dir == "." then "index.d.ts" else dir + "/index.d.ts"
  }

  /** What a directory stands for: its least implementation index file; else its `index.d.ts`. */
  ghost function DirTarget(paths: set<string>, dir: string): Option<string> {
    if IndexImplementations(paths, dir) != {} then LeastOf(IndexImplementations(paths, dir))
    else if IndexDeclaration(dir) in paths then Some(IndexDeclaration(dir))
    else None
  }

  /** What a Go package directory stands for: its least `.go` file. */
  ghost function GoTarget(paths: set<string>, dir: string): Option<string> {
    LeastOf(set f | f in paths && HasSuffix(f, ".go") && Dir(f) == dir)
  }

  // ----- One registration

  function Lookup(m: map<string, string>, k: string): Option<string> {
    if k in m then Some(m[k]) else None
  }

  ghost predicate Above(fp: string, paths: set<string>) {
    forall p :: p in paths ==> Less(p, fp)
  }

  /** Adding a greater element changes the least one only when there was none. */
  lemma LeastOfAdd(s: set<string>, fp: string, bigger: set<string>)
    requires Above(fp, s) && bigger == s + {fp}
    ensures LeastOf(bigger) == if s == {} then Some(fp) else LeastOf(s)
  {
    if s == {} {
      LeastUnique(fp, bigger);
    } else {
      LeastUnique(Least(s), bigger);
    }
  }

  // Stems

  function RegisterStems(m: map<string, string>, fp: string): map<string, string> {
    var primary := StripExt(fp);
    var m1 := if primary != fp && (primary !in m || IsDTS(m[primary])) then m[primary := fp] else m;
    if IsDTS(fp) then
      var secondary := StripExt(primary);
      if secondary != primary && secondary !in m1 then m1[secondary := fp] else m1
    else m1
  }

  lemma ImplementationsAdd(paths: set<string>, fp: string, stem: string)
    requires Above(fp, paths)
    ensures LeastOf(Implementations(paths + {fp}, stem)) ==
            if Implementations(paths, stem) != {} then LeastOf(Implementations(paths, stem))
            else if !IsDTS(fp) && Ext(fp) != "" && StripExt(fp) == stem then Some(fp)
            else None
  {
    var before, after := Implementations(paths, stem), Implementations(paths + {fp}, stem);
    if !IsDTS(fp) && Ext(fp) != "" && StripExt(fp) == stem {
      assert after == before + {fp};
      LeastOfAdd(before, fp, after);
    } else {
      assert after == before;
    }
  }

  /** A declaration file is `stem.ts` for its primary and `stem.d.ts` for its secondary stem, and for no other. */
  lemma DTSIsOneOf(fp: string, stem: string)
    ensures fp == stem + ".d.ts" <==> IsDTS(fp) && StripExt(StripExt(fp)) == stem
    ensures fp == stem + ".ts" && IsDTS(fp) <==> IsDTS(fp) && StripExt(fp) == stem
  {
    DTSStems(stem);
    if IsDTS(fp) {
      var x := fp[..|fp| - 5];
      assert fp == x + ".d.ts" == (x + ".d") + ".ts";
      DTSStems(x);
      if fp == stem + ".ts" {
        ExtOfAppend(stem, ".ts");
      }
    }
  }

  lemma DTSHasTwoStems(fp: string)
    requires IsDTS(fp)
    ensures Ext(fp) == ".ts" && StripExt(fp) != fp && StripExt(StripExt(fp)) != StripExt(fp)
  {
    var x := fp[..|fp| - 5];
    assert fp == x + ".d.ts";
    DTSStems(x);
  }

  lemma StemTargetAdd(m: map<string, string>, paths: set<string>, fp: string, stem: string)
    requires forall s :: Lookup(m, s) == StemTarget(paths, s)
    requires Above(fp, paths)
    ensures Lookup(RegisterStems(m, fp), stem) == StemTarget(paths + {fp}, stem)
  {
    hide IsDTS, Ext, StripExt, Above, Implementations, Least;
    ImplementationsAdd(paths, fp, stem);
    DTSIsOneOf(fp, stem);
    DTSStems(stem);
    assert Lookup(m, stem) == StemTarget(paths, stem);
    StemIsImplementation(paths, stem);
    if IsDTS(fp) {
      DTSHasTwoStems(fp);
    }
  }

  lemma StemIsImplementation(paths: set<string>, stem: string)
    ensures StemTarget(paths, stem).Some? && !IsDTS(StemTarget(paths, stem).value) <==> Implementations(paths, stem) != {}
  {
    hide IsDTS, Ext, StripExt;
    DTSStems(stem);
  }

  /** An extension: a dot and then neither dots nor slashes. */
  predicate IsExtension(e: string) {
    e != "" && e[0] == '.' && '.' !in e[1..] && '/' !in e
  }

  /** What a stem stands for, in file names: its least file that is not a declaration, else `stem.ts`
      if that is one, else `stem.d.ts`. */
  lemma StemTargetListed(paths: set<string>, stem: string, f: string)
    ensures f in Implementations(paths, stem) <==>
              f in paths && !HasSuffix(f, ".d.ts") && exists e: string :: IsExtension(e) && f == stem + e
    ensures f in Implementations(paths, stem) ==>
              StemTarget(paths, stem).Some? && StemTarget(paths, stem).value in Implementations(paths, stem) &&
              !Less(f, StemTarget(paths, stem).value)
    ensures Implementations(paths, stem) == {} ==>
              StemTarget(paths, stem) ==
              if HasSuffix(stem + ".ts", ".d.ts") && stem + ".ts" in paths then Some(stem + ".ts")
              else if stem + ".d.ts" in paths then Some(stem + ".d.ts") else None
  {
    if e: string :| IsExtension(e) && f == stem + e { ExtOfAppend(stem, e); }
    hide Ext, StripExt;
    if f in Implementations(paths, stem) {
      assert IsExtension(Ext(f)) && f == stem + Ext(f);
      LessTotal(f, Least(Implementations(paths, stem)));
    }
  }

  // Directory indexes

  /** Clean paths have no empty, "." or ".." element. */
  predicate Clean(p: string) {
    forall element :: element in Split(p, '/') ==> element != "" && element != "." && element != ".."
  }

  lemma {:induction false} SplitDirBase(p: string)
    ensures '/' !in Base(p)
    ensures if '/' in p then p == Dir(p) + "/" + Base(p) else p == Base(p) && Dir(p) == "."
  {
    if p != "" {
      var n := |p| - 1;
      SplitDirBase(p[..n]);
      assert p == p[..n] + [p[n]];
    }
  }

  lemma {:induction false} DirBaseOfAppend(dir: string, base: string)
    requires '/' !in base
    ensures Dir(dir + "/" + base) == dir && Base(dir + "/" + base) == base
    decreases |base|
  {
    var p := dir + "/" + base;
    if base == "" {
      assert p[..|p| - 1] == dir;
    } else {
      var n := |base| - 1;
      assert p[..|p| - 1] == dir + "/" + base[..n];
      DirBaseOfAppend(dir, base[..n]);
      assert base == base[..n] + [base[n]];
    }
  }

  lemma DTSIndexName(f: string)
    requires IsDTS(f)
    ensures IsIndexFile(f) <==> Base(f) == "index.d.ts"
  {
    hide Base, Dir, Ext, StripExt;
    BaseKeepsSuffix(f, ".d.ts");
    DTSHasTwoStems(f);
    var base := Base(f);
    var x := base[..|base| - 5];
    assert base == x + ".d.ts";
    DTSStems(x);
    assert BaseStem(f) == x;
    IndexNameOfDeclaration(x);
  }

  /** A name splits into stem and extension in one way. */
  lemma NameIs(base: string, stem: string, ext: string, name: string)
    requires name == stem + ext && ext != "" && ext[0] == '.' && '.' !in ext[1..] && '/' !in ext
    ensures base == name <==> StripExt(base) == stem && Ext(base) == ext
  {
    hide StripExt, Ext;
    if base == name { ExtOfAppend(stem, ext); }
    if StripExt(base) == stem && Ext(base) == ext { assert base == StripExt(base) + Ext(base); }
  }

  lemma TypeScriptNames(base: string)
    ensures base == "index.ts" <==> StripExt(base) == "index" && Ext(base) == ".ts"
    ensures base == "index.tsx" <==> StripExt(base) == "index" && Ext(base) == ".tsx"
  {
    hide StripExt, Ext;
    NameIs(base, "index", ".ts", "index.ts");
    NameIs(base, "index", ".tsx", "index.tsx");
  }

  lemma ScriptNames(base: string)
    ensures base == "index.js" <==> StripExt(base) == "index" && Ext(base) == ".js"
    ensures base == "index.jsx" <==> StripExt(base) == "index" && Ext(base) == ".jsx"
  {
    hide StripExt, Ext;
    NameIs(base, "index", ".js", "index.js");
    NameIs(base, "index", ".jsx", "index.jsx");
  }

  lemma ModuleNames(base: string)
    ensures base == "index.mjs" <==> StripExt(base) == "index" && Ext(base) == ".mjs"
    ensures base == "index.cjs" <==> StripExt(base) == "index" && Ext(base) == ".cjs"
  {
    hide StripExt, Ext;
    NameIs(base, "index", ".mjs", "index.mjs");
    NameIs(base, "index", ".cjs", "index.cjs");
  }

  lemma OtherNames(base: string)
    ensures base == "__init__.py" <==> StripExt(base) == "__init__" && Ext(base) == ".py"
    ensures base == "mod.rs" <==> StripExt(base) == "mod" && Ext(base) == ".rs"
  {
    hide StripExt, Ext;
    NameIs(base, "__init__", ".py", "__init__.py");
    NameIs(base, "mod", ".rs", "mod.rs");
  }

  /** An implementation file is an index file exactly if it has one of the listed names. */
  lemma IndexNamesListed(f: string)
    requires !IsDTS(f)
    ensures IsIndexFile(f) <==> IsIndexFileName(Base(f))
  {
    hide StripExt, Ext, Base, IsDTS;
    var base := Base(f);
    TypeScriptNames(base);
    ScriptNames(base);
    ModuleNames(base);
    OtherNames(base);
    ExtOfBase(f);
  }

  lemma {:induction false} ExtOfBase(f: string)
    ensures Ext(f) == Ext(Base(f))
  {
    if f != "" {
      var n := |f| - 1;
      ExtOfBase(f[..n]);
      if f[n] != '/' {
        assert Base(f)[..|Base(f)| - 1] == Base(f[..n]);
      }
    }
  }

  lemma IndexNameOfDeclaration(x: string)
    ensures IsIndexName(x, ".ts") <==> x + ".d.ts" == "index.d.ts"
  {
    if x + ".d.ts" == "index.d.ts" {
      assert x == (x + ".d.ts")[..|x|] == "index";
    }
    assert "index" + ".d.ts" == "index.d.ts";
  }

  lemma IndexDeclarationIsIndex(dir: string)
    ensures var f := IndexDeclaration(dir); IsDTS(f) && IsIndexFile(f) && Dir(f) == dir
  {
    var f := IndexDeclaration(dir);
    hide IsIndexFile, Dir, Base, Ext, StripExt;
    if dir == "." {
      SplitDirBase(f);
    } else {
      DirBaseOfAppend(dir, "index.d.ts");
      assert f == dir + "/" + "index.d.ts";
    }
    DTSIndexName(f);
  }

  lemma IndexDTSIsDeclaration(f: string)
    requires Clean(f) && IsDTS(f) && IsIndexFile(f)
    ensures f == IndexDeclaration(Dir(f))
  {
    hide IsIndexFile, Dir, Base, Ext, StripExt, IsDTS;
    SplitDirBase(f);
    DTSIndexName(f);
    DotIsNotClean(Base(f));
    assert "./" + Base(f) == "." + "/" + Base(f);
    if '/' in f {
      assert f == Dir(f) + "/" + "index.d.ts" == Dir(f) + "/index.d.ts";
    }
  }

  lemma DotIsNotClean(rest: string)
    ensures !Clean("./" + rest)
  {
    SplitAtFirst(".", rest, '/');
    assert "." + ['/'] + rest == "./" + rest;
    assert Split("./" + rest, '/')[0] == "." && "." in Split("./" + rest, '/');
  }

  lemma {:induction false} BaseKeepsSuffix(f: string, e: string)
    requires HasSuffix(f, e) && '/' !in e
    ensures HasSuffix(Base(f), e)
    decreases |e|
  {
    if e != "" {
      var n, k := |f| - 1, |e| - 1;
      assert f[n] == e[k];
      assert f[..n][|f[..n]| - k..] == e[..k];
      BaseKeepsSuffix(f[..n], e[..k]);
      assert e == e[..k] + [e[k]];
    }
  }

  function RegisterIndex(m: map<string, string>, fp: string): map<string, string> {
    if IsIndexFile(fp) && (Dir(fp) !in m || IsDTS(m[Dir(fp)])) then m[Dir(fp) := fp] else m
  }

  lemma DirTargetAdd(m: map<string, string>, paths: set<string>, fp: string, dir: string)
    requires forall d :: Lookup(m, d) == DirTarget(paths, d)
    requires Above(fp, paths) && Clean(fp)
    ensures Lookup(RegisterIndex(m, fp), dir) == DirTarget(paths + {fp}, dir)
  {
    hide IsDTS, IsIndexFile, Dir, Clean, Least, Less, IndexDeclaration;
    assert Lookup(m, dir) == DirTarget(paths, dir);
    IndexDeclarationIsIndex(dir);
    var before, after := IndexImplementations(paths, dir), IndexImplementations(paths + {fp}, dir);
    assert dir in m && !IsDTS(m[dir]) <==> before != {};
    if !IsDTS(fp) && IsIndexFile(fp) && Dir(fp) == dir {
      assert after == before + {fp};
      LeastOfAdd(before, fp, after);
    } else {
      assert after == before;
      if IsDTS(fp) && IsIndexFile(fp) {
        IndexDTSIsDeclaration(fp);
      }
    }
  }

  /** What a directory stands for, in file names: its least index file that is not a declaration,
      else its `index.d.ts`. */
  lemma DirTargetListed(paths: set<string>, dir: string, f: string)
    ensures f in IndexImplementations(paths, dir) <==>
              f in paths && !HasSuffix(f, ".d.ts") && Dir(f) == dir && IsIndexFileName(Base(f))
    ensures DirTarget(paths, dir).Some? <==>
              IndexImplementations(paths, dir) != {} || (if dir == "." then "index.d.ts" else dir + "/index.d.ts") in paths
    ensures IndexImplementations(paths, dir) != {} && f in IndexImplementations(paths, dir) ==>
              DirTarget(paths, dir).value in IndexImplementations(paths, dir) && !Less(f, DirTarget(paths, dir).value)
    ensures IndexImplementations(paths, dir) == {} && DirTarget(paths, dir).Some? ==>
              DirTarget(paths, dir).value == if dir == "." then "index.d.ts" else dir + "/index.d.ts"
  {
    if !IsDTS(f) { IndexNamesListed(f); }
    hide IsIndexFile, Dir, Base, IsIndexFileName;
    if f in IndexImplementations(paths, dir) {
      LessTotal(f, Least(IndexImplementations(paths, dir)));
    }
  }

  // Go packages

  function RegisterGo(m: map<string, string>, fp: string): map<string, string> {
    if HasSuffix(fp, ".go") && Dir(fp) !in m then m[Dir(fp) := fp] else m
  }

  lemma GoTargetAdd(m: map<string, string>, paths: set<string>, fp: string, dir: string)
    requires forall d :: Lookup(m, d) == GoTarget(paths, d)
    requires Above(fp, paths)
    ensures Lookup(RegisterGo(m, fp), dir) == GoTarget(paths + {fp}, dir)
  {
    assert Lookup(m, dir) == GoTarget(paths, dir);
    var before := set f | f in paths && HasSuffix(f, ".go") && Dir(f) == dir;
    var after := set f | f in paths + {fp} && HasSuffix(f, ".go") && Dir(f) == dir;
    if HasSuffix(fp, ".go") && Dir(fp) == dir {
      assert after == before + {fp};
      LeastOfAdd(before, fp, after);
    } else {
      assert after == before;
    }
  }

  /** What a package directory stands for: its least `.go` file. */
  lemma GoTargetListed(paths: set<string>, dir: string, f: string)
    requires f in paths && HasSuffix(f, ".go") && Dir(f) == dir
    ensures GoTarget(paths, dir).Some?
    ensures var g := GoTarget(paths, dir).value; g in paths && HasSuffix(g, ".go") && Dir(g) == dir && !Less(f, g)
  {
    var files := set g | g in paths && HasSuffix(g, ".go") && Dir(g) == dir;
    assert f in files;
    LessTotal(f, Least(files));
  }

  // ----- The tables

  /** The four lookup tables, updated in place by each registration. */
  class Tables {
    var exact: set<string>
    var stemMap: map<string, string>
    var dirIndex: map<string, string>
    var goDir: map<string, string>

    constructor ()
      ensures AnswersFor({})
    {
      exact, stemMap, dirIndex, goDir := {}, map[], map[], map[];
    }

    /** Every lookup gives the declarative answer for the given path set. */
    ghost predicate AnswersFor(paths: set<string>)
      reads this
    {
      && exact == paths
      && (forall s :: Lookup(stemMap, s) == StemTarget(paths, s))
      && (forall d :: Lookup(dirIndex, d) == DirTarget(paths, d))
      && (forall d :: Lookup(goDir, d) == GoTarget(paths, d))
    }

    method RegisterStem(fp: string)
      modifies this`stemMap
      ensures stemMap == RegisterStems(old(stemMap), fp)
    {
      hide Ext, StripExt, IsDTS;
      var primaryStem := StripExt(fp);
      if primaryStem != fp {
        if primaryStem !in stemMap || IsDTS(stemMap[primaryStem]) {
          stemMap := stemMap[primaryStem := fp];
        }
      }
      if IsDTS(fp) {
        var secondaryStem := StripExt(primaryStem);
        if secondaryStem != primaryStem {
          if secondaryStem !in stemMap {
            stemMap := stemMap[secondaryStem := fp];
          }
        }
      }
    }

    method RegisterGoFile(fp: string)
      modifies this`goDir
      ensures goDir == RegisterGo(old(goDir), fp)
    {
      if HasSuffix(fp, ".go") {
        var dir := Dir(fp);
        if dir !in goDir {
          goDir := goDir[dir := fp];
        }
      }
    }

    /** Adds a path that sorts after all registered ones. The Go table is filled before the
        index check, which leaves early for a file named like an index with another extension. */
    method RegisterPath(fp: string)
      requires AnswersFor(exact) && Above(fp, exact) && Clean(fp)
      modifies this
      ensures exact == old(exact) + {fp} && AnswersFor(exact)
    {
      hide StemTarget, DirTarget, GoTarget, Lookup, Ext, StripExt, Dir, Base, IsDTS, HasSuffix, Clean, Above, RegisterStems;
      Registered(stemMap, dirIndex, goDir, exact, fp);
      exact := exact + {fp};
      RegisterStem(fp);
      RegisterGoFile(fp);

      var baseStem := StripExt(Base(fp));
      if IsDTS(fp) {
        baseStem := StripExt(baseStem);
      }
      assert baseStem == BaseStem(fp);
      if baseStem in {"index", "__init__", "mod"} {
        if !IsIndexName(baseStem, Ext(fp)) {
          return;
        }
        var dir := Dir(fp);
        if dir !in dirIndex || IsDTS(dirIndex[dir]) {
          dirIndex := dirIndex[dir := fp];
        }
      }

      RegisterGoFile(fp);
    }
  }

  lemma Registered(stems: map<string, string>, dirs: map<string, string>, gos: map<string, string>, paths: set<string>, fp: string)
    requires forall s :: Lookup(stems, s) == StemTarget(paths, s)
    requires forall d :: Lookup(dirs, d) == DirTarget(paths, d)
    requires forall d :: Lookup(gos, d) == GoTarget(paths, d)
    requires Above(fp, paths) && Clean(fp)
    ensures forall s :: Lookup(RegisterStems(stems, fp), s) == StemTarget(paths + {fp}, s)
    ensures forall d :: Lookup(RegisterIndex(dirs, fp), d) == DirTarget(paths + {fp}, d)
    ensures forall d :: Lookup(RegisterGo(gos, fp), d) == GoTarget(paths + {fp}, d)
  {
    hide *;
    forall s
      ensures Lookup(RegisterStems(stems, fp), s) == StemTarget(paths + {fp}, s)
    {
      StemTargetAdd(stems, paths, fp, s);
    }
    forall d
      ensures Lookup(RegisterIndex(dirs, fp), d) == DirTarget(paths + {fp}, d)
    {
      DirTargetAdd(dirs, paths, fp, d);
    }
    forall d
      ensures Lookup(RegisterGo(gos, fp), d) == GoTarget(paths + {fp}, d)
    {
      GoTargetAdd(gos, paths, fp, d);
    }
  }
}
