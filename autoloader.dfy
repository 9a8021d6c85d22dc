/**
 * The class autoloader both plugin entry files register: a class name is
 * lower-cased, its underscores become dashes, and the file
 * `class-<that>.php` under the plugin's `lib/` directory is loaded if it
 * exists. The file system is the set of paths that exist.
 */
module Autoloader {
  import opened Wrappers

  predicate IsUpperAscii(c: char)
  {
    'A' <= c <= 'Z'
  }

  /** strtolower on one character: ASCII letters only. */
  function LowerAscii(c: char): (r: char)
    ensures !IsUpperAscii(r)
    ensures IsUpperAscii(c) ==> r as int == c as int + 32
    ensures !IsUpperAscii(c) ==> r == c
  {
    if IsUpperAscii(c) then (c as int + 32) as char else c
  }

  /** One character of the file stem: lower-cased, with '_' turned into '-'. */
  function StemChar(c: char): (r: char)
    ensures r != '_' && !IsUpperAscii(r)
    ensures c == '_' ==> r == '-'
    ensures c != '_' ==> r == LowerAscii(c)
  {
    if c == '_' then '-' else LowerAscii(c)
  }

  /** str_replace('_', '-', strtolower($class_name)). */
  function FileStem(name: string): (r: string)
    ensures |r| == |name|
    ensures forall i :: 0 <= i < |r| ==> r[i] == StemChar(name[i])
  {
    if name == [] then [] else [StemChar(name[0])] + FileStem(name[1..])
  }

  /** The name of a class file: `class-`, the stem, `.php`. */
  function StemFile(stem: string): (r: string)
    ensures |r| == |stem| + 10
    ensures r[..6] == "class-" && r[|r| - 4..] == ".php"
    ensures r[6..|r| - 4] == stem
  {
    "class-" + stem + ".php"
  }

  /** The file the autoloader looks for. */
  function ClassFileName(name: string): (r: string)
    ensures |r| == |name| + 10
    ensures r[6..|r| - 4] == FileStem(name)
  {
    StemFile(FileStem(name))
  }

  /** The full path: the plugin directory, then `/lib/`, then the file name. */
  function ClassFilePath(pluginPath: string, name: string): (r: string)
    ensures |r| == |pluginPath| + 5 + |ClassFileName(name)|
    ensures r[..|pluginPath|] == pluginPath
    ensures r[|pluginPath|..|pluginPath| + 5] == "/lib/"
    ensures r[|pluginPath| + 5..] == ClassFileName(name)
  {
    pluginPath + "/lib/" + ClassFileName(name)
  }

  /** The autoloader: the path it requires, or None when that file does not exist. */
  function Autoload(pluginPath: string, name: string, files: set<string>): (r: Option<string>)
    ensures r.Some? <==> ClassFilePath(pluginPath, name) in files
    ensures r.Some? ==> r.value == ClassFilePath(pluginPath, name)
  {
    var file := ClassFilePath(pluginPath, name);
    if file in files then Some(file) else None
  }

  /** The stem holds no underscore and no upper-case letter. */
  lemma StemIsFolded(name: string)
    ensures '_' !in FileStem(name)
    ensures forall c :: c in FileStem(name) ==> !IsUpperAscii(c)
  {
    var r := FileStem(name);
    forall c | c in r ensures c != '_' && !IsUpperAscii(c) {
      var i :| 0 <= i < |r| && r[i] == c;
    }
  }

  /** Folding an already folded stem changes nothing. */
  lemma StemIdempotent(name: string)
    ensures FileStem(FileStem(name)) == FileStem(name)
  {
    var r := FileStem(name);
    assert forall i :: 0 <= i < |r| ==> StemChar(r[i]) == r[i];
  }

  /** Two class names share a file exactly when they fold to the same stem. */
  lemma SameFileIffSameStem(a: string, b: string)
    ensures ClassFileName(a) == ClassFileName(b) <==> FileStem(a) == FileStem(b)
  {
  }

  /** Class names that differ only in the case of ASCII letters share a file. */
  lemma CaseInsensitive(a: string, b: string)
    requires |a| == |b|
    requires forall i :: 0 <= i < |a| ==> LowerAscii(a[i]) == LowerAscii(b[i])
    ensures ClassFileName(a) == ClassFileName(b)
  {
    assert FileStem(a) == FileStem(b);
  }

  /** Nem_Notify is loaded from lib/class-nem-notify.php. */
  lemma NemNotifyFile()
    ensures ClassFileName("Nem_Notify") == StemFile("nem-notify")
  {
    StemOf("Nem_Notify", "nem-notify");
  }

  /** Nem_Api is loaded from lib/class-nem-api.php. */
  lemma NemApiFile()
    ensures ClassFileName("Nem_Api") == StemFile("nem-api")
  {
    StemOf("Nem_Api", "nem-api");
  }

  lemma StemOf(name: string, stem: string)
    requires |name| == |stem|
    requires forall i :: 0 <= i < |name| ==> StemChar(name[i]) == stem[i]
    ensures FileStem(name) == stem
  {
  }

  /** The files that exist under a plugin directory: lib/class-nem-api.php and lib/class-nem-notify.php. */
  function LibFiles(pluginPath: string): set<string>
  {
    {pluginPath + "/lib/" + StemFile("nem-api"), pluginPath + "/lib/" + StemFile("nem-notify")}
  }
}
