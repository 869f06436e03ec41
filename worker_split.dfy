/**
 * The naming rule of `split_pdf_by_worker`: every page of the uploaded
 * document becomes one archive entry, named after the worker whose name
 * follows the marker "Trabajador:" in the page's text, or after the page's
 * 1-based position when the marker is absent.
 */
module WorkerSplit {
  import opened PyString
  import opened Decimal
  import opened Wrappers

  const Marker: string := "Trabajador:"
  const FallbackPrefix: string := "pagina_"
  const PdfSuffix: string := ".pdf"

  /** One file written into the archive: its name and the page it holds. */
  datatype ArchiveEntry = ArchiveEntry(name: string, page: nat)

  /**
   * `worker_name` for the page at (0-based) `pageIndex` whose extracted text
   * is `text`: the text between the first marker and the next marker or line
   * break, stripped of surrounding whitespace, with spaces turned into
   * underscores; otherwise "pagina_" and the 1-based page number.
   */
  function WorkerLabel(text: string, pageIndex: nat): string {
    if Contains(text, Marker) then
      var line := Split(Split(text, Marker)[1], "\n")[0];
      ReplaceChar(Strip(line), ' ', '_')
    else
      FallbackLabel(pageIndex)
  }

  /** A label taken from the text has no space, no line break and no marker
    * left in it, and no whitespace at either end; without a marker the label
    * is the fallback. */
  lemma WorkerLabelClean(text: string, pageIndex: nat)
    ensures var worker := WorkerLabel(text, pageIndex);
      (Contains(text, Marker) ==>
        ' ' !in worker && '\n' !in worker && !Contains(worker, Marker) &&
        (worker == [] || (!IsSpace(worker[0]) && !IsSpace(worker[|worker| - 1])))) &&
      (!Contains(text, Marker) ==> worker == FallbackLabel(pageIndex))
  {
    if Contains(text, Marker) {
      var field := Split(text, Marker)[1];
      SplitPiecesAvoid(text, Marker);
      var line := Split(field, "\n")[0];
      MarkerLabelFacts(field, line, Strip(line), ReplaceChar(Strip(line), ' ', '_'));
    }
  }

  /** The label of a page without a marker: "pagina_" and its 1-based number. */
  function FallbackLabel(pageIndex: nat): string {
    FallbackPrefix + NatToString(pageIndex + 1)
  }

  /** A fallback label is the prefix followed by digits that read back as
    * the page's 1-based number. */
  lemma FallbackLabelNumbersPage(pageIndex: nat)
    ensures var worker := FallbackLabel(pageIndex);
      |worker| > |FallbackPrefix| && worker[..|FallbackPrefix|] == FallbackPrefix &&
      AllDigits(worker[|FallbackPrefix|..]) && DigitsValue(worker[|FallbackPrefix|..]) == pageIndex + 1
  {
    var worker := FallbackLabel(pageIndex);
    assert worker[|FallbackPrefix|..] == NatToString(pageIndex + 1);
    NatToStringRoundTrip(pageIndex + 1);
  }

  /** Why the marker branch yields a clean worker: each step keeps out what
    * the previous steps removed. */
  lemma MarkerLabelFacts(field: string, line: string, stripped: string, worker: string)
    requires !Contains(field, Marker)
    requires line == Split(field, "\n")[0]
    requires stripped == Strip(line) && worker == ReplaceChar(stripped, ' ', '_')
    ensures ' ' !in worker && '\n' !in worker && !Contains(worker, Marker)
    ensures worker == [] || (!IsSpace(worker[0]) && !IsSpace(worker[|worker| - 1]))
  {
    SplitFirstPiece(field, "\n");
    SplitPiecesAvoid(field, "\n");
    StripSpec(line);
    assert OccursAt(field, line, 0);
    if Contains(line, Marker) {
      ContainsTransitive(field, line, Marker, 0);
    }
    var i := StripStart(line, 0);
    if Contains(stripped, Marker) {
      ContainsTransitive(line, stripped, Marker, i);
    }
    ReplaceCreatesNoPattern(stripped, ' ', '_', Marker);
    if '\n' in worker {
      var k :| 0 <= k < |worker| && worker[k] == '\n';
      assert stripped[k] == '\n';
      CharInContains(stripped, '\n');
      ContainsTransitive(line, stripped, "\n", i);
    }
  }

  /** `output_filename`: the worker followed by ".pdf". */
  function OutputFileName(text: string, pageIndex: nat): (name: string)
    ensures |name| >= |PdfSuffix| && name[|name| - |PdfSuffix|..] == PdfSuffix
  {
    WorkerLabel(text, pageIndex) + PdfSuffix
  }

  /** Taking ".pdf" off a file name gives back the page's label. */
  lemma FileNameStem(text: string, pageIndex: nat)
    ensures var name := OutputFileName(text, pageIndex);
      name[..|name| - |PdfSuffix|] == WorkerLabel(text, pageIndex)
  {
  }

  /**
   * The loop of `split_pdf_by_worker` over the pages, given the text that
   * `extract_text` returns for each page and the rule that names a page from
   * its text and index: one archive entry per page, in page order, and the
   * page count. The rule is a parameter so that this proof does not depend on
   * how a name is made.
   */
  method SplitPages(pageTexts: seq<string>, nameOf: (string, nat) -> string)
    returns (archive: seq<ArchiveEntry>, numPages: nat)
    ensures numPages == |pageTexts| && |archive| == numPages
    ensures forall i :: 0 <= i < numPages ==> archive[i] == ArchiveEntry(nameOf(pageTexts[i], i), i)
  {
    numPages := |pageTexts|;
    archive := [];
    for pageNum := 0 to numPages
      invariant |archive| == pageNum
      invariant forall i :: 0 <= i < pageNum ==> archive[i] == ArchiveEntry(nameOf(pageTexts[i], i), i)
    {
      var outputFilename := nameOf(pageTexts[pageNum], pageNum);
      archive := archive + [ArchiveEntry(outputFilename, pageNum)];
    }
  }

  /** `split_pdf_by_worker`'s loop with its own naming rule: page `i` is
    * written under `OutputFileName` of its text and index. */
  method SplitByWorker(pageTexts: seq<string>) returns (archive: seq<ArchiveEntry>, numPages: nat)
    ensures numPages == |pageTexts| && |archive| == numPages
    ensures forall i :: 0 <= i < numPages ==>
      archive[i] == ArchiveEntry(OutputFileName(pageTexts[i], i), i)
  {
    archive, numPages := SplitPages(pageTexts, OutputFileName);
  }

  /** Pages without a marker get different names from each other. */
  lemma FallbackNamesDistinct(text1: string, i: nat, text2: string, j: nat)
    requires !Contains(text1, Marker) && !Contains(text2, Marker) && i != j
    ensures OutputFileName(text1, i) != OutputFileName(text2, j)
  {
    FileNameStem(text1, i);
    FileNameStem(text2, j);
    FallbackLabelNumbersPage(i);
    FallbackLabelNumbersPage(j);
  }

  /** The field after a leading marker, when no other marker follows. */
  lemma FieldAfterLeadingMarker(rest: string)
    requires !Contains(rest, Marker)
    ensures Contains(Marker + rest, Marker)
    ensures |Split(Marker + rest, Marker)| == 2 && Split(Marker + rest, Marker)[1] == rest
  {
    var text := Marker + rest;
    assert text[..|Marker|] == Marker;
    assert OccursAt(text, Marker, 0);
    assert Find(text, Marker) == Some(0);
    assert text[|Marker|..] == rest;
    FindIffContains(rest, Marker);
  }

  /** The first line of a text that has a line break. */
  lemma FirstLine(line: string, tail: string)
    requires '\n' !in line
    ensures Split(line + "\n" + tail, "\n")[0] == line
  {
    var s := line + "\n" + tail;
    assert OccursAt(s, "\n", |line|);
    forall j | 0 <= j < |line|
      ensures !OccursAt(s, "\n", j)
    {
      assert s[j..j + 1][0] == s[j] == line[j];
    }
    assert Find(s, "\n") == Some(|line|);
  }

  /** A page that starts with the marker followed by the worker's name on the
    * same line is named after that name, stripped, spaces made underscores. */
  lemma LabelOfLeadingMarkerLine(name: string, tail: string, pageIndex: nat)
    requires '\n' !in name && !Contains(name + "\n" + tail, Marker)
    ensures WorkerLabel(Marker + (name + "\n" + tail), pageIndex) == ReplaceChar(Strip(name), ' ', '_')
  {
    FieldAfterLeadingMarker(name + "\n" + tail);
    FirstLine(name, tail);
  }

  /** The page at index 1 without a marker is written as "pagina_2.pdf". */
  lemma SecondPageFallbackName(text: string)
    requires !Contains(text, Marker)
    ensures OutputFileName(text, 1) == "pagina_2.pdf"
  {
    assert NatToString(2) == "2";
  }

  /** A page whose text opens with "Trabajador: Ana Ruiz" on its own line is
    * written as "Ana_Ruiz.pdf", whatever its position. */
  lemma NamedPageExample(tail: string, pageIndex: nat)
    requires !Contains(" Ana Ruiz\n" + tail, Marker)
    ensures OutputFileName("Trabajador: Ana Ruiz\n" + tail, pageIndex) == "Ana_Ruiz.pdf"
  {
    var line := " Ana Ruiz";
    assert " Ana Ruiz\n" + tail == line + "\n" + tail;
    assert "Trabajador: Ana Ruiz\n" + tail == Marker + line + "\n" + tail;
    NamedPage(Marker, line, "Ana Ruiz", tail, pageIndex);
  }

  lemma NamedPage(marker: string, line: string, name: string, tail: string, pageIndex: nat)
    requires marker == Marker && line == " Ana Ruiz" && name == "Ana Ruiz"
    requires !Contains(line + "\n" + tail, Marker)
    ensures OutputFileName(marker + line + "\n" + tail, pageIndex) == "Ana_Ruiz.pdf"
  {
    var text := marker + line + "\n" + tail;
    assert text == Marker + (line + "\n" + tail);
    LabelOfLeadingMarkerLine(line, tail, pageIndex);
    SanitizedAnaRuiz(line, name);
    assert WorkerLabel(text, pageIndex) == "Ana_Ruiz";
    assert OutputFileName(text, pageIndex) == "Ana_Ruiz" + PdfSuffix;
  }

  /** The name of NamedPageExample, cleaned; the strings are parameters so
    * that each step unfolds once. */
  lemma SanitizedAnaRuiz(line: string, name: string)
    requires line == " Ana Ruiz" && name == "Ana Ruiz"
    ensures ReplaceChar(Strip(line), ' ', '_') == "Ana_Ruiz"
  {
    assert IsSpace(line[0]) && !IsSpace(line[1]) && !IsSpace(line[|line| - 1]);
    assert StripStart(line, 1) == 1;
    assert StripStart(line, 0) == 1;
    assert StripEnd(line, 1, |line|) == |line|;
    assert Strip(line) == line[1..] == name;
    var r := ReplaceChar(name, ' ', '_');
    assert |r| == 8;
    assert r[3] == '_';
    assert r == "Ana_Ruiz";
  }
}
