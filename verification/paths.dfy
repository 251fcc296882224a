/**
 Path construction of the resource manager: the per-user application-data
 directory chosen from the operating-system name, the leading-separator
 normalisation of a relative path, the three resource roots built on it, and
 `java.io.File.getParent` as the include expansion uses it.

 The JVM system properties (`os.name`, `user.home`, `file.separator`) are a
 `Platform` value passed in; the settings `initialize` stores are a `Config`.
 */
module Paths {
  import opened Strings
  import opened Results

  /** The engine's bundled resource directory. */
  const FoxtailResourceDirectory: string := "src/laraifox/foxtail/resources"

  datatype Platform = Platform(osName: string, userHome: string, separator: char)

  datatype Config = Config(programFolderName: string, internalResourcePrefix: string)

  /** Both settings start out as empty strings. */
  const InitialConfig: Config := Config("", "")

  /** `initialize` replaces both settings. */
  function Initialize(programFolderName: string, internalPrefix: string): Config {
    Config(programFolderName, internalPrefix)
  }

  function FileSeparator(p: Platform): string {
    [p.separator]
  }

  predicate IsWindows(osName: string) {
    Contains(ToLower(osName), "win")
  }

  predicate IsMac(osName: string) {
    Contains(ToLower(osName), "mac")
  }

  predicate IsLinux(osName: string) {
    Contains(ToLower(osName), "lin")
  }

  /**
   The per-user data directory: `AppData/Roaming` under the home directory on
   Windows, `Library` under it on macOS and, as the code is written, on Linux
   too; the home directory itself on any other system.
   */
  function UsersAppDataDirectory(p: Platform): (r: string)
    ensures StartsWith(r, p.userHome)
    ensures r == p.userHome <==> !IsWindows(p.osName) && !IsMac(p.osName) && !IsLinux(p.osName)
    ensures r != p.userHome ==> r[|p.userHome|] == p.separator
    ensures IsWindows(p.osName) ==> r == p.userHome + [p.separator] + "AppData" + [p.separator] + "Roaming"
    ensures !IsWindows(p.osName) && (IsMac(p.osName) || IsLinux(p.osName)) ==> r == p.userHome + [p.separator] + "Library"
  {
    var sep := FileSeparator(p);
    if IsWindows(p.osName) then p.userHome + sep + "AppData" + sep + "Roaming"
    else if IsMac(p.osName) then p.userHome + sep + "Library"
    else if IsLinux(p.osName) then p.userHome + sep + "Library"
    else p.userHome
  }

  /** Linux gets the macOS directory: both resolve to `<home>/Library`. */
  lemma LinuxSharesMacDirectory(home: string, sep: char, mac: string, linux: string)
    requires IsMac(mac) && !IsWindows(mac)
    requires IsLinux(linux) && !IsWindows(linux)
    ensures UsersAppDataDirectory(Platform(mac, home, sep)) == UsersAppDataDirectory(Platform(linux, home, sep))
    ensures UsersAppDataDirectory(Platform(linux, home, sep)) == home + [sep] + "Library"
  {
  }

  /**
   A relative path with exactly one leading separator: an input that already
   starts with the separator comes back unchanged, any other gets one put in
   front.
   */
  function FormattedFilepath(sep: char, path: string): (r: string)
    ensures StartsWith(r, [sep])
    ensures EndsWith(r, path)
    ensures |r| <= |path| + 1
    ensures StartsWith(path, [sep]) ==> r == path
  {
    if !StartsWith(path, [sep]) then [sep] + path else path
  }

  /** Formatting a formatted path changes nothing. */
  lemma FormattedFilepathIdempotent(sep: char, path: string)
    ensures FormattedFilepath(sep, FormattedFilepath(sep, path)) == FormattedFilepath(sep, path)
  {
  }

  /** Whether the caller wrote the leading separator or not makes no difference. */
  lemma {:induction false} FormattedFilepathIgnoresLeadingSeparator(sep: char, rel: string)
    requires !StartsWith(rel, [sep])
    ensures FormattedFilepath(sep, [sep] + rel) == FormattedFilepath(sep, rel) == [sep] + rel
  {
    assert ([sep] + rel)[..1] == [sep];
  }

  /**
   A resource path: `root`, then one separator, then the relative path, the
   separator being the path's own leading one when it has one.
   */
  ghost predicate RootedAt(r: string, root: string, sep: char, path: string) {
    && StartsWith(r, root)
    && |root| < |r| && r[|root|] == sep
    && EndsWith(r, path)
    && |r| == |root| + |path| + (if StartsWith(path, [sep]) then 0 else 1)
  }

  lemma RootedAtFormatted(root: string, sep: char, path: string)
    ensures RootedAt(root + FormattedFilepath(sep, path), root, sep, path)
  {
    var f := FormattedFilepath(sep, path);
    var r := root + f;
    assert r[..|root|] == root;
    assert r[|root|] == f[0] == f[..1][0];
    assert r[|r| - |path|..] == f[|f| - |path|..];
  }

  function InternalResourcePath(p: Platform, c: Config, path: string): (r: string)
    ensures RootedAt(r, c.internalResourcePrefix, p.separator, path)
  {
    RootedAtFormatted(c.internalResourcePrefix, p.separator, path);
    c.internalResourcePrefix + FormattedFilepath(p.separator, path)
  }

  function FoxtailResourcePath(p: Platform, path: string): (r: string)
    ensures RootedAt(r, FoxtailResourceDirectory, p.separator, path)
  {
    RootedAtFormatted(FoxtailResourceDirectory, p.separator, path);
    FoxtailResourceDirectory + FormattedFilepath(p.separator, path)
  }

  /**
   The per-user external path. No separator is put between the data
   directory and the program folder name: the folder name is appended as is.
   */
  function ExternalResourcePath(p: Platform, c: Config, path: string): (r: string)
    ensures StartsWith(r, UsersAppDataDirectory(p))
    ensures RootedAt(r, UsersAppDataDirectory(p) + c.programFolderName, p.separator, path)
  {
    RootedAtFormatted(UsersAppDataDirectory(p) + c.programFolderName, p.separator, path);
    assert (UsersAppDataDirectory(p) + c.programFolderName + FormattedFilepath(p.separator, path))[..|UsersAppDataDirectory(p)|]
        == UsersAppDataDirectory(p);
    UsersAppDataDirectory(p) + c.programFolderName + FormattedFilepath(p.separator, path)
  }

  /**
   All three roots treat `rel` and `sep + rel` alike, and both become the root
   followed by one separator and `rel`.
   */
  lemma ResourcePathsIgnoreLeadingSeparator(p: Platform, c: Config, rel: string)
    requires !StartsWith(rel, [p.separator])
    ensures InternalResourcePath(p, c, [p.separator] + rel) == InternalResourcePath(p, c, rel)
              == c.internalResourcePrefix + [p.separator] + rel
    ensures FoxtailResourcePath(p, [p.separator] + rel) == FoxtailResourcePath(p, rel)
              == FoxtailResourceDirectory + [p.separator] + rel
    ensures ExternalResourcePath(p, c, [p.separator] + rel) == ExternalResourcePath(p, c, rel)
              == UsersAppDataDirectory(p) + c.programFolderName + [p.separator] + rel
  {
    FormattedFilepathIgnoresLeadingSeparator(p.separator, rel);
  }

  /** After `initialize("MyApp", "/engine/internal")`, `x.txt` resolves to `/engine/internal/x.txt`. */
  lemma InternalPathExample(p: Platform)
    requires p.separator == '/'
    ensures InternalResourcePath(p, Initialize("MyApp", "/engine/internal"), "x.txt") == "/engine/internal/x.txt"
  {
    assert "x.txt"[..1] == "x";
    ResourcePathsIgnoreLeadingSeparator(p, Initialize("MyApp", "/engine/internal"), "x.txt");
  }

  /**
   `java.io.File.getParent` for a normalised path (no repeated or trailing
   separator) on a file system whose only root is a leading separator:
   everything before the last separator, the root itself for a file directly
   under it, and no parent (Java's `null`) otherwise.
   */
  function Parent(sep: char, path: string): (r: Option<string>)
    ensures r.None? <==> sep !in path || path == [sep]
    ensures r.Some? ==> 0 < |r.value| < |path| && StartsWith(path, r.value)
    ensures r.Some? ==> || (r.value == [sep] && sep !in path[1..])
                        || (path[|r.value|] == sep && sep !in path[|r.value| + 1..])
  {
    var index := LastIndexOf(path, sep);
    var prefixLength := if StartsWith(path, [sep]) then 1 else 0;
    assert |path| > 0 ==> path[..1] == [path[0]];
    if index < prefixLength then
      if prefixLength > 0 && |path| > prefixLength then Some(path[..prefixLength]) else None
    else
      Some(path[..index])
  }

  /** The parent of `dir`, a separator and a bare file name is `dir`. */
  lemma ParentOfJoin(sep: char, dir: string, file: string)
    requires |dir| > 0 && dir[|dir| - 1] != sep && |file| > 0 && sep !in file
    ensures Parent(sep, dir + [sep] + file) == Some(dir)
  {
    var path := dir + [sep] + file;
    assert path[|dir|] == sep;
    var d := Parent(sep, path).value;
    assert path[|d|] == sep;
    assert forall j :: |dir| < j < |path| ==> path[j] == file[j - |dir| - 1];
    assert path[..|dir|] == dir;
  }

}
