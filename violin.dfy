/**
 * standalone/MakeViolinPlot_standalone.py: its copy of `my_output_file`, whose
 * title mode puts a bare `_` before the plot type, and the one call made of it.
 */
module ViolinPlot {
  import opened OutputFile

  /** `my_output_file(filename, plot_type="Violin", extension="svg")`: csv mode, the default. */
  function SvgOut(cwd: string, filename: FileArg): (o: Outcome)
    ensures o.Exit? <==> filename.NoSplit?
    ensures o.Exit? ==> o.status == 1
    ensures !o.Exit? ==> o.Path? && cwd + "/" <= o.path
  {
    assert Allowed("svg");
    MyOutputFile(ViolinCopy, cwd, filename, "Violin", "svg", true)
  }

  /** The saved figure lands directly in `cwd`, whatever directories the input file sat in. */
  lemma SvgOutFlat(cwd: string, s: string)
    ensures var o := SvgOut(cwd, Text(s));
            o.Path? && |cwd| + 1 <= |o.path| && '/' !in o.path[|cwd| + 1..]
  {
    assert Allowed("svg");
    CsvModeDropsDirectories(ViolinCopy, cwd, s, "Violin", "svg");
  }

  lemma ViolinSuffix()
    ensures Allowed("svg") && '\\' !in "Violin"
    ensures ImageSuffix("Violin", "svg") == "_ImageViolin.svg"
  {
  }

  lemma MyFileName()
    ensures "../datasets/my_file.csv"[12..] == "my_file.csv" && "../datasets/my_file.csv"[11] == '/'
  {
  }

  lemma MyFileEnding()
    ensures '/' !in "my_file.csv" && '\n' !in "my_file.csv"
    ensures |"my_file.csv"| >= 4 && "my_file.csv"[|"my_file.csv"| - 3..] == "csv"
    ensures "my_file.csv"[..|"my_file.csv"| - 4] == "my_file"
  {
    assert "my_file.csv"[8..] == "csv";
  }

  /** The script's own input: `"../datasets/my_file.csv"` is saved as `my_file_ImageViolin.svg` in `cwd`. */
  lemma MyFileOutput(cwd: string)
    ensures SvgOut(cwd, Text("../datasets/my_file.csv")) == Path(cwd + "/" + "my_file" + "_ImageViolin.svg")
  {
    ViolinSuffix();
    MyFileName();
    MyFileEnding();
    LastComponentAfter("../datasets/my_file.csv", "my_file.csv", 12);
    CsvSuffixRewritten(ViolinCopy, cwd, "../datasets/my_file.csv", "Violin", "svg", "my_file.csv");
  }

  /** Title mode of this copy: the whole filename, then `"_"`, the plot type, `"."` and the extension, with no `Image`. */
  lemma TitleModeUnderscore(cwd: string, s: string, plotType: string, extension: string)
    requires Allowed(extension)
    ensures MyOutputFile(ViolinCopy, cwd, Text(s), plotType, extension, false)
         == Path(cwd + "/" + s + "_" + plotType + "." + extension)
  {
    TitleModeAppends(ViolinCopy, cwd, s, plotType, extension);
  }
}
