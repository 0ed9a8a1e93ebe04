/** utils.cpp: the file-name extension used to choose a MIME type. */
module Utils {
  import opened Text

  /**
   * getExtension: everything after the last '.' of the path, or "" when the
   * path has no '.'. Dots in directory components count like any other.
   */
  function GetExtension(path: string): (ext: string)
    ensures '.' !in ext
    ensures '.' !in path ==> ext == ""
    ensures '.' in path ==>
      |ext| < |path| && path == path[..|path| - |ext| - 1] + "." + ext
  {
    match LastIndexOf(path, '.')
    case Some(i) =>
      assert path == path[..i] + "." + path[i + 1..];
      path[i + 1..]
    case None => ""
  }

  /** Splitting at the last dot and joining again round-trips: the extension is recovered. */
  lemma ExtensionOfJoin(prefix: string, ext: string)
    requires '.' !in ext
    ensures GetExtension(prefix + "." + ext) == ext
  {
    var path := prefix + "." + ext;
    assert path[|prefix|] == '.';
  }

  /** A dot inside a directory name is taken for the extension's dot. */
  lemma DirectoryDotCounts()
    ensures GetExtension("/a.b/c") == "b/c"
  {
    assert "/a.b/c" == "/a" + "." + "b/c";
    ExtensionOfJoin("/a", "b/c");
  }

  /** A path that ends in a dot has the empty extension. */
  lemma TrailingDotGivesEmpty(prefix: string)
    ensures GetExtension(prefix + ".") == ""
  {
    assert prefix + "." == prefix + "." + "";
    ExtensionOfJoin(prefix, "");
  }
}
