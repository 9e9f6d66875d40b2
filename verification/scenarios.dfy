/** Worked examples of splitPDF's behaviour on concrete inputs. */
module Scenarios {
  import opened Optional
  import opened Partition
  import opened Naming
  import opened Splitter

  /** 1000 pages in parts of 500 give part01 = pages 1-500 and
      part02 = pages 501-1000. */
  lemma ThousandPagesInTwoParts()
    ensures Windows(1000, 500) == [Window(1, 500, 1), Window(501, 1000, 2)]
  {
    assert WindowsFrom(1001, 3, 1000, 500) == [];
  }

  /** A document shorter than one part gives a single window. */
  lemma TenPagesInOnePart()
    ensures Windows(10, 500) == [Window(1, 10, 1)]
  {
    WindowsCount(10, 500);
  }

  /** Part numbers are padded to two digits and grow past 99 unclipped. */
  lemma ReportPartNames()
    ensures PartFilename("report", 1) == "report-part01.pdf"
    ensures PartFilename("report", 123) == "report-part123.pdf"
  {
  }

  /** The selection for pages 501 to 1000. */
  lemma SecondPartSelection()
    ensures PageSelection(501, 1000) == "501-1000"
  {
  }

  /** Names that are only an extension, or whose extension differs in case,
      are kept whole. */
  lemma SuffixEdgeCases()
    ensures StripPdfExtension(".pdf") == ".pdf"
    ensures StripPdfExtension("a.PDF") == "a.PDF"
    ensures StripPdfExtension("report.pdf") == "report"
  {
    ExtIsPdf("report.pdf");
  }

  /** Extraction failing for the second of three windows: calls are made
      for windows 1 and 2 only, the error names in-part02.pdf, and only the
      extraction of window 1 (page 1) completed. */
  lemma FailureOnSecondOfThree(input: string, env: Env)
    requires OutputBase(input) == "in"
    requires env.workingDir == Some("out") && env.makeDir("out")
    requires env.pageCount(input) == Some(3)
    requires env.extract == ((t: Target) => t.window.part != 2)
    ensures var plan := Plan(input, "out", 3, 1);
      var r := Split(input, "", 1, env);
      && r == Run(plan[..2], Failure(ExtractError(plan[1].selection, plan[1].path)))
      && Completed(r) == plan[..1]
      && plan[0].window == Window(1, 1, 1)
      && plan[1].path == OutputPath("out", "in-part02.pdf")
  {
    SecondOfThreePlan(input, env);
    SplitAbortsOnFirstFailure(input, "", 1, env, "out", 3, 1);
  }

  lemma SecondOfThreePlan(input: string, env: Env)
    requires OutputBase(input) == "in"
    requires env.workingDir == Some("out")
    requires env.extract == ((t: Target) => t.window.part != 2)
    ensures OutputDirectory("", env.workingDir) == Some("out")
    ensures var plan := Plan(input, "out", 3, 1);
      && 1 < |plan| && !env.extract(plan[1])
      && (forall i :: 0 <= i < 1 ==> env.extract(plan[i]))
      && plan[0].window == Window(1, 1, 1)
      && plan[1].path == OutputPath("out", "in-part02.pdf")
  {
    var plan := Plan(input, "out", 3, 1);
    ThreeSinglePageWindows();
    PlanFollowsWindows(input, "out", 3, 1);
    assert plan[1].path == OutputPath("out", PartFilename("in", 2));
    SecondPartName();
  }

  lemma SecondPartName()
    ensures PartFilename("in", 2) == "in-part02.pdf"
  {
  }

  /** Three pages in parts of one page each. */
  lemma ThreeSinglePageWindows()
    ensures Windows(3, 1) == [Window(1, 1, 1), Window(2, 2, 2), Window(3, 3, 3)]
  {
    assert WindowsFrom(4, 4, 3, 1) == [];
  }
}
