/**
 * crosshair.cpp looks for the image next to the executable: the executable's
 * path up to (not including) its last backslash, followed by `\overlay.png`.
 */
module ExePath {
  import opened Win32

  const BACKSLASH: char := '\\'
  const IMAGE_NAME: string := "overlay.png"
  const PNG_SUFFIX: string := [BACKSLASH] + IMAGE_NAME

  /** std::wstring::find_last_of for one character: the last position holding `c`, or None for npos. */
  function FindLastOf(s: string, c: char): (r: Option<nat>)
    ensures r.None? <==> c !in s
    ensures r.Some? ==> r.value < |s| && s[r.value] == c
    ensures r.Some? ==> forall j :: r.value < j < |s| ==> s[j] != c
  {
    if s == [] then None
    else if s[|s| - 1] == c then Some(|s| - 1)
    else FindLastOf(s[..|s| - 1], c)
  }

  /**
   * exeDir.substr(0, exeDir.find_last_of(L'\\')): the directory part of the path;
   * substr with npos keeps the whole string when there is no backslash.
   */
  function ExeDir(exe: string): (dir: string)
    ensures |dir| <= |exe| && dir == exe[..|dir|]
    ensures dir == exe <==> BACKSLASH !in exe
    ensures BACKSLASH in exe ==> exe[|dir|] == BACKSLASH && BACKSLASH !in exe[|dir| + 1..]
  {
    match FindLastOf(exe, BACKSLASH)
    case None => exe
    case Some(k) => exe[..k]
  }

  /**
   * exeDir + L"\\overlay.png": the executable's path up to its last backslash (all of it
   * when there is none), then `\overlay.png`.
   */
  function PngPath(exe: string): (path: string)
    ensures |PNG_SUFFIX| <= |path| && path[|path| - |PNG_SUFFIX|..] == PNG_SUFFIX
    ensures var dir := path[..|path| - |PNG_SUFFIX|];
            && |dir| <= |exe| && dir == exe[..|dir|]
            && (BACKSLASH in exe ==> |dir| < |exe| && exe[|dir|] == BACKSLASH && BACKSLASH !in exe[|dir| + 1..])
            && (BACKSLASH !in exe ==> dir == exe)
  {
    ExeDir(exe) + PNG_SUFFIX
  }

  /** The last backslash of `dir + "\" + name` is the one just added, when the name has none. */
  lemma {:induction false} LastBackslashOfJoin(dir: string, name: string)
    requires BACKSLASH !in name
    ensures FindLastOf(dir + [BACKSLASH] + name, BACKSLASH) == Some(|dir|)
  {
    var s := dir + [BACKSLASH] + name;
    if name != [] {
      assert s[..|s| - 1] == dir + [BACKSLASH] + name[..|name| - 1];
      assert s[|s| - 1] == name[|name| - 1];
      LastBackslashOfJoin(dir, name[..|name| - 1]);
    }
  }

  lemma NameHasNoBackslash()
    ensures BACKSLASH !in IMAGE_NAME
  {
  }

  /** The image path lies in the executable's directory: taking its directory gives that directory back. */
  lemma PngPathIsBesideExe(exe: string)
    ensures ExeDir(PngPath(exe)) == ExeDir(exe)
  {
    PngPathOfDir(exe, ExeDir(exe));
    ExeDirOfSuffixed(ExeDir(exe));
  }

  /** Appending `\overlay.png` to a directory and taking the directory again gives it back. */
  lemma ExeDirOfSuffixed(dir: string)
    ensures ExeDir(dir + PNG_SUFFIX) == dir
  {
    NameHasNoBackslash();
    ExeDirOfJoin(dir, IMAGE_NAME);
    assert dir + PNG_SUFFIX == dir + [BACKSLASH] + IMAGE_NAME;
  }

  /** The directory of `dir + "\" + name` is `dir`, when the name has no backslash. */
  lemma ExeDirOfJoin(dir: string, name: string)
    requires BACKSLASH !in name
    ensures ExeDir(dir + [BACKSLASH] + name) == dir
  {
    LastBackslashOfJoin(dir, name);
    assert (dir + [BACKSLASH] + name)[..|dir|] == dir;
  }

  /** The example path is the directory `C:\Tools` joined with a name that has no backslash. */
  lemma ExamplePathSplits()
    ensures "C:\\Tools\\crosshair.exe" == "C:\\Tools" + [BACKSLASH] + "crosshair.exe"
    ensures BACKSLASH !in "crosshair.exe"
  {
  }

  /** A worked example: the directory of an executable two levels down. */
  lemma ExeDirExample()
    ensures ExeDir("C:\\Tools\\crosshair.exe") == "C:\\Tools"
  {
    ExamplePathSplits();
    ExeDirOfJoin("C:\\Tools", "crosshair.exe");
  }

  /** The image path for the same executable. */
  lemma PngPathExample()
    ensures PngPath("C:\\Tools\\crosshair.exe") == "C:\\Tools\\overlay.png"
  {
    ExeDirExample();
    PngPathOfDir("C:\\Tools\\crosshair.exe", "C:\\Tools");
    ExampleImagePath();
  }

  lemma ExampleImagePath()
    ensures "C:\\Tools" + PNG_SUFFIX == "C:\\Tools\\overlay.png"
  {
  }

  lemma PngPathOfDir(exe: string, dir: string)
    requires ExeDir(exe) == dir
    ensures PngPath(exe) == dir + PNG_SUFFIX
  {
  }
}
