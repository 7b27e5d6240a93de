/**
 * The string logic of `IOUtility`: file-name normalisation, the
 * leading-backslash strip of `GetAbsolutePath`, and the line filter of
 * `ReadText`. The .NET path functions (`Path.Combine`, `Path.GetFullPath`),
 * the application root and the file reader are parameters.
 */
module IOUtility {
  import opened Strings
  import opened ListExtension

  /**
   * The file name `FileFullPath` resolves: `name` when it already ends with
   * `extension` ignoring case (no dot is required), otherwise
   * `name + "." + extension`.
   */
  function WithExtension(name: string, extension: string): (r: string)
    ensures EndsWithIgnoreCase(r, extension)
    ensures |name| <= |r| && r[..|name|] == name
    ensures r == name <==> EndsWithIgnoreCase(name, extension)
    ensures r != name ==> r[|name|..] == "." + extension
  {
    if EndsWithIgnoreCase(name, extension) then name
    else
      EndsWithAppended(name + ".", extension);
      assert name + "." + extension == (name + ".") + extension;
      name + "." + extension
  }

  /** Normalising a name twice is normalising it once. */
  lemma WithExtensionIdempotent(name: string, extension: string)
    ensures WithExtension(WithExtension(name, extension), extension) == WithExtension(name, extension)
  {
  }

  /** The suffix test looks at the last characters only, ignoring case, and does not look for a dot. */
  lemma WithExtensionExamples()
    ensures WithExtension("notestxt", "txt") == "notestxt"
    ensures WithExtension("NOTES.TXT", "txt") == "NOTES.TXT"
    ensures WithExtension("notes", "txt") == "notes.txt"
    ensures WithExtension("data.json", "txt") == "data.json.txt"
  {
    assert "notestxt"[5..] == "txt";
    assert Fold("TXT") == Fold("txt");
    assert "NOTES.TXT"[6..] == "TXT";
    assert "notes"[2..] == "tes";
    assert Fold("tes") != Fold("txt") by { assert Fold("tes")[1] == 'E'; }
    assert "data.json"[6..] == "son";
    assert Fold("son") != Fold("txt") by { assert Fold("son")[0] == 'S'; }
  }

  /** `FileFullPath(name, extension)`: the normalised name combined with the application root. */
  function FileFullPath(root: string, name: string, extension: string,
                        combine: (string, string) -> string): (path: string)
    ensures EndsWithIgnoreCase(name, extension) ==> path == combine(root, name)
  {
    combine(root, WithExtension(name, extension))
  }

  /** A name that already carries the extension and the bare name lead to the same file. */
  lemma FileFullPathSameFile(root: string, name: string, extension: string,
                             combine: (string, string) -> string)
    ensures FileFullPath(root, WithExtension(name, extension), extension, combine)
         == FileFullPath(root, name, extension, combine)
    ensures !EndsWithIgnoreCase(name, extension) ==>
              (FileFullPath(root, name + "." + extension, extension, combine)
               == FileFullPath(root, name, extension, combine))
  {
    WithExtensionIdempotent(name, extension);
  }

  /** The path with one leading backslash removed, if it has one. */
  function StripLeadingBackslash(path: string): (r: string)
    ensures path == r || path == "\\" + r
    ensures |r| < |path| <==> (|path| > 0 && path[0] == '\\')
  {
    if |path| > 0 && path[0] == '\\' then
      assert path == "\\" + path[1..];
      path[1..]
    else path
  }

  /** Exactly one backslash is removed, not a run of them; any other path is untouched. */
  lemma StripLeadingBackslashExamples()
    ensures StripLeadingBackslash("\\\\server\\share") == "\\server\\share"
    ensures StripLeadingBackslash("\\dir\\file") == "dir\\file"
    ensures StripLeadingBackslash("dir\\file") == "dir\\file"
    ensures StripLeadingBackslash("") == ""
  {
  }

  /** `GetAbsolutePath(relativeTo, path)`: the full path of `path`, one leading backslash removed, under `relativeTo`. */
  function GetAbsolutePath(relativeTo: string, path: string,
                           combine: (string, string) -> string,
                           fullPath: string -> string): (r: string)
    ensures (|path| == 0 || path[0] != '\\') ==> r == fullPath(combine(relativeTo, path))
  {
    fullPath(combine(relativeTo, StripLeadingBackslash(path)))
  }

  /** A path with one leading backslash resolves like the path without it. */
  lemma GetAbsolutePathIgnoresOneBackslash(relativeTo: string, path: string,
                                           combine: (string, string) -> string,
                                           fullPath: string -> string)
    ensures GetAbsolutePath(relativeTo, "\\" + path, combine, fullPath)
         == fullPath(combine(relativeTo, path))
  {
    assert ("\\" + path)[1..] == path;
  }

  /** The line test of `ReadText`: `!string.IsNullOrEmpty(line.Trim())`. */
  predicate HasText(line: string)
  {
    Trim(line) != []
  }

  /** The lines `ReadText` keeps: those with a character other than white space, in their order. */
  function NonBlankLines(lines: seq<string>): (r: seq<string>)
    ensures forall i | 0 <= i < |r| :: !IsBlank(r[i])
  {
    var r := Filter(lines, HasText);
    forall i | 0 <= i < |r| ensures !IsBlank(r[i]) {
      TrimEmptyIffBlank(r[i]);
    }
    r
  }

  /**
   * Each line with a character other than white space is kept as often as it
   * occurs, blank lines are dropped, and the order is kept.
   */
  lemma NonBlankLinesExact(lines: seq<string>, line: string)
    ensures multiset(NonBlankLines(lines))[line] == if IsBlank(line) then 0 else multiset(lines)[line]
    ensures IsSubsequence(NonBlankLines(lines), lines)
  {
    TrimEmptyIffBlank(line);
    FilterMultiplicity(lines, HasText, line);
    FilterIsSubsequence(lines, HasText);
  }

  /** Lines starting with `#` are kept: only blank lines are dropped. */
  lemma NonBlankLinesKeepsComments(lines: seq<string>, i: nat)
    requires i < |lines| && |lines[i]| > 0 && lines[i][0] == '#'
    ensures lines[i] in NonBlankLines(lines)
  {
    assert !IsWhiteSpace(lines[i][0]);
    TrimEmptyIffBlank(lines[i]);
    FilterMembership(lines, HasText, lines[i]);
  }

  /** `ReadText(name)`: the non-blank lines of the `txt` file the name resolves to, read by `readLines`. */
  function ReadText(root: string, name: string, combine: (string, string) -> string,
                    readLines: string -> seq<string>): (r: seq<string>)
    ensures forall i | 0 <= i < |r| :: !IsBlank(r[i])
    ensures |r| <= |readLines(FileFullPath(root, name, "txt", combine))|
  {
    NonBlankLines(readLines(FileFullPath(root, name, "txt", combine)))
  }
}
