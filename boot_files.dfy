/**
 * How the bootstrap passes of src/Angie.js and src/Angular.js decide what to
 * do with each path they list: skip it, load it as a module, or descend into
 * it as a directory. Listing directories and loading modules are left to the
 * caller; whether a path is a directory is an input.
 */
module BootFiles {
  import Text

  /** The alternatives of the skip pattern. */
  const SKIP_WORDS: set<string> := {"node_modules", "bower_components", "templates", "static"}

  /**
   * `/node_modules|bower_components|templates|static/i.test(path)`: one of
   * the four words occurs anywhere in the path, in any case.
   */
  function Skipped(path: string): (skip: bool)
    ensures skip <==> exists w, i: nat :: w in SKIP_WORDS && Text.MatchesAt(path, i, w)
  {
    || Text.ContainsFolded(path, "node_modules")
    || Text.ContainsFolded(path, "bower_components")
    || Text.ContainsFolded(path, "templates")
    || Text.ContainsFolded(path, "static")
  }

  /**
   * `['js', 'es6'].indexOf(path.split('.').pop()) > -1`: the path is `js`,
   * `es6`, or ends in `.js` or `.es6`, with the case exactly as written.
   */
  function IsModuleFile(path: string): (m: bool)
    ensures m <==> || path == "js" || path == "es6"
                   || Text.EndsWith(path, ".js") || Text.EndsWith(path, ".es6")
  {
    JsExtension(path);
    Es6Extension(path);
    var ext := Text.LastSegment(path);
    ext == "js" || ext == "es6"
  }

  lemma JsExtension(path: string)
    ensures Text.LastSegment(path) == "js" <==> path == "js" || Text.EndsWith(path, ".js")
  {
    var js := "js";
    assert js[0] != '.' && js[1] != '.';
    Text.LastSegmentIs(path, js);
    assert "." + js == ".js";
  }

  lemma Es6Extension(path: string)
    ensures Text.LastSegment(path) == "es6" <==> path == "es6" || Text.EndsWith(path, ".es6")
  {
    var es6 := "es6";
    assert es6[0] != '.' && es6[1] != '.' && es6[2] != '.';
    Text.LastSegmentIs(path, es6);
    assert "." + es6 == ".es6";
  }

  datatype Action =
    | Skip
    | LoadModule        // `require(v)` in Angie, `System.import(v)` in Angular
    | Descend           // list the directory and classify its entries
    | WarnNotDirectory  // Angie's `readdirSync` failed on a file: only a warning
    | Ignore            // Angular: a file that is not a module

  /**
   * src/Angie.js tries the extension first: a module path is loaded even when
   * it names a directory, and anything else is listed as a directory.
   */
  function ClassifyAngie(path: string, isDirectory: bool): (a: Action)
    ensures a == Skip <==> Skipped(path)
    ensures a == LoadModule <==> !Skipped(path) && IsModuleFile(path)
    ensures a == Descend <==> !Skipped(path) && !IsModuleFile(path) && isDirectory
    ensures a == WarnNotDirectory <==> !Skipped(path) && !IsModuleFile(path) && !isDirectory
    ensures a != Ignore
  {
    if Skipped(path) then Skip
    else if IsModuleFile(path) then LoadModule
    else if isDirectory then Descend
    else WarnNotDirectory
  }

  /**
   * src/Angular.js tries to list the path first: a directory is descended
   * into whatever its name, and only a file with a module extension is loaded.
   */
  function ClassifyAngular(path: string, isDirectory: bool): (a: Action)
    ensures a == Skip <==> Skipped(path)
    ensures a == Descend <==> !Skipped(path) && isDirectory
    ensures a == LoadModule <==> !Skipped(path) && !isDirectory && IsModuleFile(path)
    ensures a == Ignore <==> !Skipped(path) && !isDirectory && !IsModuleFile(path)
    ensures a != WarnNotDirectory
  {
    if Skipped(path) then Skip
    else if isDirectory then Descend
    else if IsModuleFile(path) then LoadModule
    else Ignore
  }

  /**
   * Everything below a skipped directory is skipped too, so the traversal
   * never loads a file inside `node_modules`, `bower_components`,
   * `templates` or `static`, in either class.
   */
  lemma SkippedInherited(dir: string, child: string)
    requires Skipped(dir)
    ensures Skipped(dir + "/" + child)
    ensures forall isDir :: ClassifyAngie(dir + "/" + child, isDir) == Skip
    ensures forall isDir :: ClassifyAngular(dir + "/" + child, isDir) == Skip
  {
    var rest := "/" + child;
    assert dir + "/" + child == dir + rest;
    if Text.ContainsFolded(dir, "node_modules") {
      Text.ContainsFoldedExtend(dir, rest, "node_modules");
    } else if Text.ContainsFolded(dir, "bower_components") {
      Text.ContainsFoldedExtend(dir, rest, "bower_components");
    } else if Text.ContainsFolded(dir, "templates") {
      Text.ContainsFoldedExtend(dir, rest, "templates");
    } else {
      Text.ContainsFoldedExtend(dir, rest, "static");
    }
  }

  /**
   * The test looks for substrings, not path segments, and ignores case: a
   * `Templates` directory is skipped, and so is a file named `ecstatic.js`.
   */
  lemma SkippedExamples()
    ensures Skipped("app/src/Templates/page.js")
    ensures Skipped("src/ecstatic.js")
    ensures ClassifyAngie("src/ecstatic.js", false) == Skip
  {
    assert Text.MatchesAt("app/src/Templates/page.js", 8, "templates");
    assert Text.MatchesAt("src/ecstatic.js", 6, "static");
  }

  /**
   * The two bootstrap passes agree on every path except a directory with a
   * module extension (Angie loads it, Angular descends) and a file without
   * one (Angie warns, Angular ignores it).
   */
  lemma ClassifiersDisagree(path: string, isDirectory: bool)
    ensures ClassifyAngie(path, isDirectory) != ClassifyAngular(path, isDirectory) <==>
              !Skipped(path) && isDirectory == IsModuleFile(path)
  {
  }
}
