/** The two programs share one file: the extractor writes
    `cleaned_domains.txt` and the analyzer is run on it. Reading the file
    back gives exactly the list that was written. */
module Handoff {
  import opened PyStr
  import opened SitePattern
  import opened CleanUrls
  import opened DomainAnalyzer

  /** A run of class characters has no whitespace, so no line break, and
      stripping leaves it as it is. */
  lemma RunIsCleanLine(d: string)
    requires d != [] && forall k :: 0 <= k < |d| ==> InRun(d[k])
    ensures forall k :: 0 <= k < |d| ==> !IsLineBreak(d[k])
    ensures Strip(d) == d
  {
    StripUnchanged(d);
  }

  /** Splitting the written text gives the lines and one empty piece after
      the last newline. */
  lemma {:induction false} LinesOfJoin(ds: seq<string>)
    requires forall i, k :: 0 <= i < |ds| && 0 <= k < |ds[i]| ==> !IsLineBreak(ds[i][k])
    ensures Lines(JoinLines(ds)) == ds + [""]
  {
    if ds != [] {
      LinesOfJoin(ds[1..]);
      LinesOfLine(ds[0], JoinLines(ds[1..]));
      assert ds == [ds[0]] + ds[1..];
    }
  }

  /** `read_domains` on the file the extractor wrote returns the domain
      list, in the same order. */
  lemma ReadBackWritten(rows: seq<Row>, parse: QueryParser)
    ensures ReadDomains(JoinLines(DomainList(CleanColumn(rows, parse)))) == DomainList(CleanColumn(rows, parse))
  {
    var ds := DomainList(CleanColumn(rows, parse));
    DomainListAreRuns(rows, parse);
    forall i | 0 <= i < |ds|
      ensures ds[i] != "" && Strip(ds[i]) == ds[i]
      ensures forall k :: 0 <= k < |ds[i]| ==> !IsLineBreak(ds[i][k])
    {
      RunIsCleanLine(ds[i]);
    }
    LinesOfJoin(ds);
    KeepNonBlankAppend(ds, [""]);
    KeepNonBlankLine("");
    KeepNonBlankKeepsStripped(ds);
  }
}
