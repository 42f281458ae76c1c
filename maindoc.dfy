/**
 * The main-document resolver of the worker (`findMainTexFile`,
 * worker/src/arxiv-handler.js): a three-tier search over the archive's
 * records.
 */
module MainDocument {
  import opened Wrappers
  import opened Text
  import opened Tar

  const DocumentClassMarker: string := "\\documentclass"
  /** The conventional names, in the order they are tried. */
  const CommonNames: seq<string> := ["main.tex", "paper.tex", "manuscript.tex"]

  /** Tier one: a text `.tex` file with non-empty content that declares a
      document class. */
  predicate DeclaresClass(f: FileRecord) {
    f.IsText() && f.extension == "tex" && f.payload.content != []
    && Contains(f.payload.content, DocumentClassMarker)
  }

  /** Tier two: any file whose lower-cased path ends with `name`. */
  predicate HasName(f: FileRecord, name: string) {
    EndsWith(Lower(f.path), name)
  }

  /** Tier three: any `.tex` file. */
  predicate IsTex(f: FileRecord) {
    f.extension == "tex"
  }

  /** `files.find(p)`, as an index: the first file satisfying `p`. */
  function FirstIndex(files: seq<FileRecord>, p: FileRecord -> bool): (r: Option<nat>)
    ensures r.Some? ==> r.value < |files| && p(files[r.value])
    ensures r.Some? ==> forall k | 0 <= k < r.value :: !p(files[k])
    ensures r.None? ==> forall k | 0 <= k < |files| :: !p(files[k])
  {
    if files == [] then None
    else if p(files[0]) then Some(0)
    else
      match FirstIndex(files[1..], p)
      case Some(k) => Some(k + 1)
      case None => None
  }

  /** `files.find(f => f.path.toLowerCase().endsWith(name))`, as an index. */
  function FirstNamed(files: seq<FileRecord>, name: string): (r: Option<nat>)
    ensures r.Some? ==> r.value < |files| && HasName(files[r.value], name)
    ensures r.Some? ==> forall k | 0 <= k < r.value :: !HasName(files[k], name)
    ensures r.None? ==> forall k | 0 <= k < |files| :: !HasName(files[k], name)
  {
    FirstIndex(files, f => HasName(f, name))
  }

  /** The second tier: the conventional names in order, each searched over all
      files. */
  function FirstByName(files: seq<FileRecord>, names: seq<string>): (r: Option<nat>)
    ensures r.Some? ==> r.value < |files|
    ensures r.Some? ==> exists n | n in names :: HasName(files[r.value], n)
    ensures r.None? ==> forall f, n | f in files && n in names :: !HasName(f, n)
  {
    if names == [] then None
    else
      match FirstNamed(files, names[0])
      case Some(k) => Some(k)
      case None => FirstByName(files, names[1..])
  }

  /** The name search picks the earliest name that some file carries, and for
      that name the first file carrying it; it finds nothing exactly when no
      file carries any of the names. */
  lemma {:induction false} FirstByNameEarliest(files: seq<FileRecord>, names: seq<string>)
    ensures FirstByName(files, names).None? <==>
      forall j | 0 <= j < |names| :: FirstNamed(files, names[j]).None?
    ensures FirstByName(files, names).Some? ==>
      exists j | 0 <= j < |names| ::
        && FirstByName(files, names) == FirstNamed(files, names[j])
        && forall i | 0 <= i < j :: FirstNamed(files, names[i]).None?
  {
    if names != [] && FirstNamed(files, names[0]).None? {
      var tail := names[1..];
      FirstByNameEarliest(files, tail);
      assert forall j | 0 < j < |names| :: names[j] == tail[j - 1];
      if FirstByName(files, tail).Some? {
        var j :| 0 <= j < |tail| && FirstByName(files, tail) == FirstNamed(files, tail[j])
          && forall i | 0 <= i < j :: FirstNamed(files, tail[i]).None?;
        assert FirstByName(files, names) == FirstNamed(files, names[j + 1]);
        assert forall i | 0 <= i < j + 1 :: FirstNamed(files, names[i]).None? by {
          forall i | 0 < i < j + 1 ensures FirstNamed(files, names[i]).None? {
            assert names[i] == tail[i - 1];
          }
        }
      } else {
        forall j | 0 <= j < |names| ensures FirstNamed(files, names[j]).None? {
          if j > 0 {
            assert names[j] == tail[j - 1];
          }
        }
      }
    }
  }

  /** `findMainTexFile(files)`: the first declaring file; else the first file
      named like a main document, trying the names in order; else the first
      `.tex` file; else nothing. */
  function FindMainTexFile(files: seq<FileRecord>): (r: Option<FileRecord>)
    ensures r.Some? ==> r.value in files
  {
    match FirstIndex(files, DeclaresClass)
    case Some(k) => Some(files[k])
    case None =>
      match FirstByName(files, CommonNames)
      case Some(k) => Some(files[k])
      case None =>
        match FirstIndex(files, IsTex)
        case Some(k) => Some(files[k])
        case None => None
  }

  /** A path whose lower case ends in `.tex` has the extension `tex`. */
  lemma {:induction false} LowerEndsWithTex(path: string)
    requires EndsWith(Lower(path), ".tex")
    ensures Lower(AfterLastDot(path)) == "tex"
  {
    var n := |path|;
    assert Lower(path)[n - 4..] == ".tex";
    assert Lower(path)[n - 4] == '.' && path[n - 4] == '.';
    assert '.' !in path[n - 3..] by {
      forall k | n - 3 <= k < n ensures path[k] != '.' {
        assert Lower(path)[k] == Lower(path)[n - 4..][k - (n - 4)];
      }
    }
    AfterLastDotAt(path, n - 4);
    var r := AfterLastDot(path);
    assert Lower(r) == Lower(path)[n - 3..];
  }

  /** Each conventional name ends in `.tex`. */
  lemma CommonNameEndsInTex(name: string)
    requires name in CommonNames
    ensures |name| >= 4 && name[|name| - 4..] == ".tex"
  {
    if name == "main.tex" {
      assert name[4..] == ".tex";
    } else if name == "paper.tex" {
      assert name[5..] == ".tex";
    } else {
      assert name[10..] == ".tex";
    }
  }

  /** Every conventional name ends in `.tex`, so a file found by name is a
      `.tex` file. */
  lemma HasNameIsTex(f: FileRecord, name: string)
    requires name in CommonNames && HasName(f, name)
    requires f.extension == Lower(AfterLastDot(f.path))
    ensures IsTex(f)
  {
    var lp := Lower(f.path);
    CommonNameEndsInTex(name);
    assert lp[|lp| - |name|..] == name;
    assert lp[|lp| - 4..] == name[|name| - 4..];
    LowerEndsWithTex(f.path);
  }

  /** What the resolver finds: nothing exactly when the archive has no
      `.tex` file, and otherwise always a `.tex` file. */
  lemma MainTexFileFound(files: seq<FileRecord>)
    requires forall f | f in files :: f.extension == Lower(AfterLastDot(f.path))
    ensures FindMainTexFile(files).None? <==> forall f | f in files :: !IsTex(f)
    ensures FindMainTexFile(files).Some? ==> IsTex(FindMainTexFile(files).value)
  {
    if FirstIndex(files, DeclaresClass).None? {
      var byName := FirstByName(files, CommonNames);
      if byName.Some? {
        var n :| n in CommonNames && HasName(files[byName.value], n);
        HasNameIsTex(files[byName.value], n);
      }
    }
  }

  /** The resolver's priority, in full: the first declaring file wins; with
      none, the first file named `main.tex`, else `paper.tex`, else
      `manuscript.tex`; with none of those, the first `.tex` file. */
  lemma MainTexFileTiers(files: seq<FileRecord>)
    ensures FirstIndex(files, DeclaresClass).Some? ==>
      FindMainTexFile(files) == Some(files[FirstIndex(files, DeclaresClass).value])
    ensures (FirstIndex(files, DeclaresClass).None? && FirstNamed(files, "main.tex").Some?) ==>
      FindMainTexFile(files) == Some(files[FirstNamed(files, "main.tex").value])
    ensures (FirstIndex(files, DeclaresClass).None? && FirstNamed(files, "main.tex").None? &&
             FirstNamed(files, "paper.tex").Some?) ==>
      FindMainTexFile(files) == Some(files[FirstNamed(files, "paper.tex").value])
    ensures (FirstIndex(files, DeclaresClass).None? && FirstNamed(files, "main.tex").None? &&
             FirstNamed(files, "paper.tex").None? && FirstNamed(files, "manuscript.tex").Some?) ==>
      FindMainTexFile(files) == Some(files[FirstNamed(files, "manuscript.tex").value])
    ensures (FirstIndex(files, DeclaresClass).None? && FirstNamed(files, "main.tex").None? &&
             FirstNamed(files, "paper.tex").None? && FirstNamed(files, "manuscript.tex").None? &&
             FirstIndex(files, IsTex).Some?) ==>
      FindMainTexFile(files) == Some(files[FirstIndex(files, IsTex).value])
  {
    if FirstIndex(files, DeclaresClass).None? {
      var names := CommonNames;
      var main := FirstNamed(files, "main.tex");
      var paper := FirstNamed(files, "paper.tex");
      var manuscript := FirstNamed(files, "manuscript.tex");
      assert names[1..] == ["paper.tex", "manuscript.tex"];
      assert names[1..][1..] == ["manuscript.tex"];
      assert names[1..][1..][1..] == [];
      FirstByNameStep(files, names[1..][1..]);
      FirstByNameStep(files, names[1..]);
      FirstByNameStep(files, names);
      assert FirstByName(files, names) ==
        if main.Some? then main else if paper.Some? then paper else manuscript;
    }
  }

  lemma FirstByNameStep(files: seq<FileRecord>, names: seq<string>)
    requires names != []
    ensures FirstByName(files, names) ==
      if FirstNamed(files, names[0]).Some? then FirstNamed(files, names[0]) else FirstByName(files, names[1..])
  {
  }
}
