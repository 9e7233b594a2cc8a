/**
 * The output-filename derivation `my_output_file`, of which the plotting
 * scripts carry three copies that differ only in the infix of the title
 * branch and in the directory put after the working directory.
 */
module OutputFile {
  import opened Wrappers
  import opened Seqs

  /** The first argument: a string, or an object without a `split` method (an open file, say). */
  datatype FileArg = Text(s: string) | NoSplit

  /** What a call comes to: a path, Python's `None`, or the process exiting with a status. */
  datatype Outcome = Path(path: string) | NoPath | Exit(status: int)

  /** What distinguishes the three copies of the function. */
  datatype Variant = Variant(titleInfix: string, directory: string)

  /** standalone/HeatMap_standalone.py */
  const HeatMapCopy := Variant("_Image", "/")
  /** standalone/MakeViolinPlot_standalone.py */
  const ViolinCopy := Variant("_", "/")
  /** standalone/LinePlot_standalone.py */
  const LinePlotCopy := Variant("_Image", "/generated_images/")

  const AllowedExtensions: seq<string> := ["svg", "png", "pdf", "jpeg", "jpg"]

  predicate Allowed(extension: string) {
    extension in AllowedExtensions
  }

  // ---------------------------------------------------------------------------
  // str.split with an explicit one-character separator

  /** `s.split(sep)`: the maximal runs between separators, empty runs included. */
  function Split(s: string, sep: char): (parts: seq<string>)
    ensures |parts| >= 1
    ensures forall i :: 0 <= i < |parts| ==> sep !in parts[i]
    decreases |s|
  {
    if |s| == 0 then [""]
    else
      var init := Split(s[..|s| - 1], sep);
      if s[|s| - 1] == sep then init + [""]
      else init[..|init| - 1] + [init[|init| - 1] + [s[|s| - 1]]]
  }

  /** `sep.join(parts)`, the inverse of `Split`. */
  function Join(parts: seq<string>, sep: char): string
    requires |parts| >= 1
    decreases |parts|
  {
    if |parts| == 1 then parts[0]
    else Join(parts[..|parts| - 1], sep) + [sep] + parts[|parts| - 1]
  }

  /** Joining after an extra empty part adds one separator. */
  lemma JoinAppendEmpty(parts: seq<string>, sep: char)
    requires |parts| >= 1
    ensures Join(parts + [""], sep) == Join(parts, sep) + [sep]
  {
    assert (parts + [""])[..|parts|] == parts;
  }

  /** Extending the last part extends the joined string by the same character. */
  lemma JoinExtendLast(parts: seq<string>, sep: char, c: char)
    requires |parts| >= 1
    ensures Join(parts[..|parts| - 1] + [parts[|parts| - 1] + [c]], sep) == Join(parts, sep) + [c]
  {
    var k := |parts| - 1;
    var ext := parts[..k] + [parts[k] + [c]];
    if k > 0 {
      assert ext[..k] == parts[..k];
      assert Join(ext, sep) == Join(parts[..k], sep) + [sep] + (parts[k] + [c]);
    }
  }

  lemma {:induction false} JoinSplit(s: string, sep: char)
    ensures Join(Split(s, sep), sep) == s
    decreases |s|
  {
    if |s| > 0 {
      var init := Split(s[..|s| - 1], sep);
      JoinSplit(s[..|s| - 1], sep);
      if s[|s| - 1] == sep {
        JoinAppendEmpty(init, sep);
      } else {
        JoinExtendLast(init, sep, s[|s| - 1]);
      }
      assert s == s[..|s| - 1] + [s[|s| - 1]];
    }
  }

  /** `name` is what follows the last `/` of `s` (all of `s` when there is none). */
  ghost predicate IsLastComponent(s: string, name: string) {
    && |name| <= |s|
    && s[|s| - |name|..] == name
    && '/' !in name
    && (|name| == |s| || s[|s| - |name| - 1] == '/')
  }

  /** `filename.split("/")[::-1][0]`: the last part of the split, reversed to the front. */
  function LastComponent(s: string): (name: string)
    ensures '/' !in name
  {
    var justName := Split(s, '/');
    justName[|justName| - 1]
  }

  lemma {:induction false} LastComponentIsLast(s: string)
    ensures IsLastComponent(s, LastComponent(s))
    decreases |s|
  {
    if |s| > 0 && s[|s| - 1] != '/' {
      var init := s[..|s| - 1];
      LastComponentIsLast(init);
      var n := LastComponent(init);
      assert LastComponent(s) == n + [s[|s| - 1]];
      assert s[|s| - |n| - 1..] == init[|init| - |n|..] + [s[|s| - 1]];
      if |n| < |init| {
        assert s[|s| - |n| - 2] == init[|init| - |n| - 1];
      }
    }
  }

  /** A name after a `/` at position `k - 1` with no `/` of its own is the last component. */
  lemma LastComponentAfter(s: string, name: string, k: nat)
    requires 0 < k <= |s| && s[k..] == name && s[k - 1] == '/' && '/' !in name
    ensures IsLastComponent(s, name)
  {
  }

  lemma LastComponentUnique(s: string, a: string, b: string)
    requires IsLastComponent(s, a) && IsLastComponent(s, b)
    ensures a == b
  {
  }

  // ---------------------------------------------------------------------------
  // re.sub(".csv$", repl, name, 1)

  /**
   * The pattern `.csv$` matches at `p` under Python's `re` rules: `.` is any
   * character but a newline, and `$` holds at the end of the string or just
   * before a newline that ends it. The dot is not escaped.
   */
  ghost predicate MatchesAt(s: string, p: nat) {
    && p + 4 <= |s|
    && s[p] != '\n'
    && s[p + 1..p + 4] == "csv"
    && (p + 4 == |s| || (p + 4 == |s| - 1 && s[p + 4] == '\n'))
  }

  /** The leftmost position where `.csv$` matches, if any. */
  function CsvMatch(s: string): (m: Option<nat>)
    ensures m.Some? ==> MatchesAt(s, m.value) && forall q :: 0 <= q < m.value ==> !MatchesAt(s, q)
    ensures m.None? ==> forall q :: !MatchesAt(s, q)
  {
    if |s| >= 5 && s[|s| - 1] == '\n' && s[|s| - 5] != '\n' && s[|s| - 4..|s| - 1] == "csv" then
      Some(|s| - 5)
    else if |s| >= 4 && s[|s| - 4] != '\n' && s[|s| - 3..] == "csv" then
      Some(|s| - 4)
    else
      None
  }

  /** `re.sub(".csv$", repl, s, 1)`, for a replacement without backslash escapes. */
  function SubCsvOnce(s: string, repl: string): (r: string)
    ensures (forall q :: !MatchesAt(s, q)) ==> r == s
    ensures forall p: nat :: MatchesAt(s, p) && (forall q: nat :: q < p ==> !MatchesAt(s, q)) ==>
              r == s[..p] + repl + s[p + 4..]
  {
    match CsvMatch(s)
    case None => s
    case Some(p) => s[..p] + repl + s[p + 4..]
  }

  /** Without newlines the pattern matches exactly the names ending in some character and `csv`. */
  lemma SubCsvOnceNoNewline(s: string, repl: string)
    requires '\n' !in s
    ensures |s| >= 4 && s[|s| - 3..] == "csv" ==> SubCsvOnce(s, repl) == s[..|s| - 4] + repl
    ensures !(|s| >= 4 && s[|s| - 3..] == "csv") ==> SubCsvOnce(s, repl) == s
  {
    if |s| >= 4 {
      assert s[|s| - 4] in s;
    }
    if |s| >= 5 {
      assert s[|s| - 1] in s;
    }
  }

  // ---------------------------------------------------------------------------
  // my_output_file

  /** The text that replaces a matched `.csv`: `"_Image" + plot_type + "." + extension`. */
  function ImageSuffix(plotType: string, extension: string): string {
    "_Image" + plotType + "." + extension
  }

  /** `os.getcwd() + directory + new_name` for the copy's directory. */
  function Under(copy: Variant, cwd: string, newName: string): string {
    cwd + copy.directory + newName
  }

  /**
   * `my_output_file(filename, plot_type, extension, csv)` run in `cwd`, in the
   * given copy. An extension outside the allow-list gives `None` before the
   * filename is looked at; a filename without `split` makes the process exit
   * with status 1; otherwise the new name is the last path component with a
   * trailing `.csv` rewritten (csv mode), or the whole filename followed by the
   * title infix (title mode), placed under `cwd` and the copy's directory.
   */
  function MyOutputFile(copy: Variant, cwd: string, filename: FileArg, plotType: string,
                        extension: string, csv: bool): (o: Outcome)
    requires csv ==> '\\' !in plotType
    ensures o.NoPath? <==> !Allowed(extension)
    ensures o.Exit? <==> Allowed(extension) && filename.NoSplit?
    ensures o.Exit? ==> o.status == 1
    ensures o.Path? ==> cwd + copy.directory <= o.path
  {
    if !Allowed(extension) then NoPath
    else match filename
      case NoSplit => Exit(1)
      case Text(s) =>
        var newName :=
          if csv then SubCsvOnce(LastComponent(s), ImageSuffix(plotType, extension))
          else s + copy.titleInfix + plotType + "." + extension;
        Path(Under(copy, cwd, newName))
  }

  /** Csv mode works on the last path component only. */
  lemma CsvModeUsesLastComponent(copy: Variant, cwd: string, s: string, plotType: string,
                                 extension: string, name: string)
    requires Allowed(extension) && '\\' !in plotType
    requires IsLastComponent(s, name)
    ensures MyOutputFile(copy, cwd, Text(s), plotType, extension, true)
         == Path(Under(copy, cwd, SubCsvOnce(name, ImageSuffix(plotType, extension))))
  {
    LastComponentIsLast(s);
    LastComponentUnique(s, name, LastComponent(s));
  }

  /** A newline-free last component ending in a character and `csv` loses those four characters to the suffix. */
  lemma CsvSuffixRewritten(copy: Variant, cwd: string, s: string, plotType: string,
                           extension: string, name: string)
    requires Allowed(extension) && '\\' !in plotType
    requires IsLastComponent(s, name) && '\n' !in name
    requires |name| >= 4 && name[|name| - 3..] == "csv"
    ensures MyOutputFile(copy, cwd, Text(s), plotType, extension, true)
         == Path(cwd + copy.directory + name[..|name| - 4] + ImageSuffix(plotType, extension))
  {
    var stem, repl := name[..|name| - 4], ImageSuffix(plotType, extension);
    CsvModeUsesLastComponent(copy, cwd, s, plotType, extension, name);
    SubCsvOnceNoNewline(name, repl);
    AppendAssociative(cwd + copy.directory, stem, repl);
  }

  /** Any other newline-free last component comes back unchanged, with only the directories in front. */
  lemma NonCsvNameKept(copy: Variant, cwd: string, s: string, plotType: string,
                       extension: string, name: string)
    requires Allowed(extension) && '\\' !in plotType
    requires IsLastComponent(s, name) && '\n' !in name
    requires !(|name| >= 4 && name[|name| - 3..] == "csv")
    ensures MyOutputFile(copy, cwd, Text(s), plotType, extension, true)
         == Path(Under(copy, cwd, name))
  {
    CsvModeUsesLastComponent(copy, cwd, s, plotType, extension, name);
    SubCsvOnceNoNewline(name, ImageSuffix(plotType, extension));
  }

  /** Rewriting a name that lacks `c` by a replacement that lacks `c` introduces none. */
  lemma SubCsvOnceKeepsOut(s: string, repl: string, c: char)
    requires c !in s && c !in repl
    ensures c !in SubCsvOnce(s, repl)
  {
    match CsvMatch(s)
    case None =>
    case Some(p) =>
      assert s[..p] + repl + s[p + 4..] == SubCsvOnce(s, repl);
      assert forall d :: d in s[..p] ==> d in s;
      assert forall d :: d in s[p + 4..] ==> d in s;
  }

  /**
   * In csv mode, for an allowed extension and a plot type without `/`, a string
   * filename always gives a name, and nothing of the input's directories
   * survives: the part after `cwd` and the copy's directory holds no `/`.
   */
  lemma CsvModeDropsDirectories(copy: Variant, cwd: string, s: string, plotType: string,
                                extension: string)
    requires Allowed(extension) && '\\' !in plotType && '/' !in plotType
    ensures var o := MyOutputFile(copy, cwd, Text(s), plotType, extension, true);
            o.Path? && |cwd + copy.directory| <= |o.path| && '/' !in o.path[|cwd + copy.directory|..]
  {
    LastComponentIsLast(s);
    var name := LastComponent(s);
    var repl := ImageSuffix(plotType, extension);
    assert '/' !in repl by {
      assert forall c :: c in repl ==> c in plotType || c in extension || c in "_Image.";
      assert forall e :: e in AllowedExtensions ==> '/' !in e;
    }
    SubCsvOnceKeepsOut(name, repl, '/');
    CsvModeUsesLastComponent(copy, cwd, s, plotType, extension, name);
  }

  /** Title mode keeps the whole string, directories included, and appends the copy's infix. */
  lemma TitleModeAppends(copy: Variant, cwd: string, s: string, plotType: string, extension: string)
    requires Allowed(extension)
    ensures MyOutputFile(copy, cwd, Text(s), plotType, extension, false)
         == Path(cwd + copy.directory + s + copy.titleInfix + plotType + "." + extension)
  {
  }

  /** Title mode with the appended text spelled out as one `suffix`. */
  lemma TitleModeSuffix(copy: Variant, cwd: string, s: string, plotType: string, extension: string, suffix: string)
    requires Allowed(extension) && copy.titleInfix + plotType + "." + extension == suffix
    ensures MyOutputFile(copy, cwd, Text(s), plotType, extension, false) == Path(cwd + copy.directory + s + suffix)
  {
    TitleModeAppends(copy, cwd, s, plotType, extension);
    assert cwd + copy.directory + s + copy.titleInfix + plotType + "." + extension
        == cwd + copy.directory + s + (copy.titleInfix + plotType + "." + extension);
  }
}
