/**
 * standalone/LinePlot_standalone.py: its copy of `my_output_file`, which writes
 * under `generated_images/`, and the two calls that choose the figure's name.
 */
module LinePlot {
  import opened OutputFile

  /**
   * Lines 73-76: the input filename in csv mode when `format_based_on_filename`
   * is set, the alternate title in title mode otherwise.
   */
  function SvgOut(cwd: string, formatBasedOnFilename: bool, filename: FileArg, alternateTitle: FileArg): (o: Outcome)
    ensures formatBasedOnFilename ==> (o.Exit? <==> filename.NoSplit?)
    ensures !formatBasedOnFilename ==> (o.Exit? <==> alternateTitle.NoSplit?)
    ensures o.Exit? ==> o.status == 1
    ensures !o.Exit? ==> o.Path? && cwd + "/generated_images/" <= o.path
  {
    assert Allowed("svg");
    if formatBasedOnFilename then MyOutputFile(LinePlotCopy, cwd, filename, "LinePlot", "svg", true)
    else MyOutputFile(LinePlotCopy, cwd, alternateTitle, "LinePlot", "svg", false)
  }

  lemma LinePlotSuffix()
    ensures Allowed("svg") && '\\' !in "LinePlot"
    ensures ImageSuffix("LinePlot", "svg") == "_ImageLinePlot.svg"
    ensures LinePlotCopy.titleInfix + "LinePlot" + "." + "svg" == "_ImageLinePlot.svg"
  {
  }

  /** Csv mode: a last component ending in any character and `csv` loses those four to `_ImageLinePlot.svg`. */
  lemma CsvModeLinePlot(cwd: string, s: string, name: string, alternateTitle: FileArg)
    requires IsLastComponent(s, name) && '\n' !in name
    requires |name| >= 4 && name[|name| - 3..] == "csv"
    ensures SvgOut(cwd, true, Text(s), alternateTitle)
         == Path(cwd + "/generated_images/" + name[..|name| - 4] + "_ImageLinePlot.svg")
  {
    LinePlotSuffix();
    CsvSuffixRewritten(LinePlotCopy, cwd, s, "LinePlot", "svg", name);
  }

  /** The script's settings (`format_based_on_filename = False`) name the figure after `alternate_title`. */
  lemma AlternateTitleOutput(cwd: string)
    ensures SvgOut(cwd, false, Text("datasets/KN_fixed_results.csv"), Text("MHVY_fixed_heatmap"))
         == Path(cwd + "/generated_images/" + "MHVY_fixed_heatmap" + "_ImageLinePlot.svg")
  {
    LinePlotSuffix();
    TitleModeSuffix(LinePlotCopy, cwd, "MHVY_fixed_heatmap", "LinePlot", "svg", "_ImageLinePlot.svg");
  }

  lemma FileName()
    ensures "datasets/KN_fixed_results.csv"[9..] == "KN_fixed_results.csv"
    ensures "datasets/KN_fixed_results.csv"[8] == '/'
  {
  }

  lemma FileEnding()
    ensures '/' !in "KN_fixed_results.csv" && '\n' !in "KN_fixed_results.csv"
    ensures |"KN_fixed_results.csv"| >= 4 && "KN_fixed_results.csv"[|"KN_fixed_results.csv"| - 3..] == "csv"
    ensures "KN_fixed_results.csv"[..|"KN_fixed_results.csv"| - 4] == "KN_fixed_results"
  {
    assert "KN_fixed_results.csv"[17..] == "csv";
  }

  /** With `format_based_on_filename` set, `"datasets/KN_fixed_results.csv"` gives `KN_fixed_results_ImageLinePlot.svg`. */
  lemma FilenameOutput(cwd: string)
    ensures SvgOut(cwd, true, Text("datasets/KN_fixed_results.csv"), Text("MHVY_fixed_heatmap"))
         == Path(cwd + "/generated_images/" + "KN_fixed_results" + "_ImageLinePlot.svg")
  {
    FileName();
    FileEnding();
    LastComponentAfter("datasets/KN_fixed_results.csv", "KN_fixed_results.csv", 9);
    CsvModeLinePlot(cwd, "datasets/KN_fixed_results.csv", "KN_fixed_results.csv", Text("MHVY_fixed_heatmap"));
  }
}
