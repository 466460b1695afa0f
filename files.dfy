/** The files the stages hand to each other, and the path arithmetic used
    to find them. A file is the sequence of lines `std::getline` yields
    from it; a path that is not in the map is a file that cannot be
    opened. */
module Files {
  import opened Text

  type Disk = map<string, seq<string>>

  /** The lines of the file at `path`, or `None` when it cannot be opened. */
  function ReadLines(disk: Disk, path: string): Option<seq<string>> {
    if path in disk then Some(disk[path]) else None
  }

  /** The characters `find_last_of("/\\")` looks for. */
  predicate IsSeparator(c: char) {
    c == '/' || c == '\\'
  }

  predicate NoSeparator(s: string) {
    forall i :: 0 <= i < |s| ==> !IsSeparator(s[i])
  }

  /** `find_last_of("/\\")`: the position of the last separator. */
  function LastSeparator(s: string): (r: Option<nat>)
    ensures r.Some? ==> r.value < |s| && IsSeparator(s[r.value]) && NoSeparator(s[r.value + 1..])
    ensures r.None? <==> NoSeparator(s)
  {
    if s == [] then None
    else if IsSeparator(s[|s| - 1]) then Some(|s| - 1)
    else
      var r := LastSeparator(s[..|s| - 1]);
      assert r.Some? ==> s[r.value + 1..] == s[..|s| - 1][r.value + 1..] + [s[|s| - 1]];
      r
  }

  /** The directory part of a path: everything before its last '/' or
      '\\', or "" when it has none. */
  function DirectoryOf(path: string): (dir: string)
    ensures |dir| < |path| || dir == ""
    ensures NoSeparator(path) ==> dir == ""
  {
    var last := LastSeparator(path);
    if last.None? then "" else path[..last.value]
  }

  /** A path with a separator splits at its last one: the text before it
      is the directory part, whatever separator it is. */
  lemma DirectoryOfSplit(dir: string, sep: char, name: string)
    requires IsSeparator(sep) && NoSeparator(name)
    ensures DirectoryOf(dir + [sep] + name) == dir
  {
    var path := dir + [sep] + name;
    LastSeparatorOf(dir, sep, name);
    assert path[..|dir|] == dir;
  }

  lemma {:induction false} LastSeparatorOf(dir: string, sep: char, name: string)
    requires IsSeparator(sep) && NoSeparator(name)
    ensures LastSeparator(dir + [sep] + name) == Some(|dir|)
    decreases |name|
  {
    var path := dir + [sep] + name;
    if name != [] {
      assert path[..|path| - 1] == dir + [sep] + name[..|name| - 1];
      LastSeparatorOf(dir, sep, name[..|name| - 1]);
    }
  }

  /** `output_dir.empty() ? name : output_dir + "/" + name`, the way the
      EVD stage finds the files the pedigree stage wrote. */
  function InDirectory(dir: string, name: string): string {
    if dir == "" then name else dir + "/" + name
  }
}
