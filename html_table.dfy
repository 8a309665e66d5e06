/**
 * The pytest-html hooks that reshape the results table: the header hook
 * and the row hook edit the list of cells pytest-html passes in, adding a
 * Module, a Description and a Failure message column and replacing the
 * Links column by an Artifacts column.
 */
module HtmlTable {
  import opened Wrappers
  import opened PyStr
  import TestResults

  /** `list.insert(i, x)` for `i >= 0`: x lands at i, or at the end when i
      is past it; the cells before keep their places and the cells after
      move up by one. */
  function Inserted(xs: seq<string>, i: nat, x: string): (r: seq<string>)
    ensures |r| == |xs| + 1
    ensures var p := if i < |xs| then i else |xs|;
      && r[p] == x
      && (forall k :: 0 <= k < p ==> r[k] == xs[k])
      && (forall k :: p <= k < |xs| ==> r[k + 1] == xs[k])
  {
    if i >= |xs| then xs + [x] else xs[..i] + [x] + xs[i..]
  }

  /** Inserting at an index within the list, as slices. */
  lemma InsertedAt(xs: seq<string>, i: nat, x: string)
    requires i <= |xs|
    ensures Inserted(xs, i, x) == xs[..i] + [x] + xs[i..]
  {
    if i == |xs| {
      assert xs[..i] == xs && xs[i..] == [];
    }
  }

  /** The `cells` list pytest-html hands to the hooks, edited in place. */
  class CellList {
    var items: seq<string>

    constructor(cells: seq<string>)
      ensures items == cells
    {
      items := cells;
    }

    method Insert(i: nat, x: string)
      modifies this
      ensures items == Inserted(old(items), i, x)
    {
      items := Inserted(items, i, x);
    }

    /** `list.pop()`; the hooks only pop after inserting, so never on an
        empty list. */
    method Pop() returns (x: string)
      requires items != []
      modifies this
      ensures x == Last(old(items)) && items == old(items)[..|old(items)| - 1]
    {
      x := Last(items);
      items := items[..|items| - 1];
    }

    method Append(x: string)
      modifies this
      ensures items == old(items) + [x]
    {
      items := items + [x];
    }

    method SetItem(i: nat, x: string)
      requires i < |items|
      modifies this
      ensures items == old(items)[i := x]
    {
      items := items[i := x];
    }
  }

  const ModuleHeader := "<th>Module</th>"
  const DescriptionHeader := "<th>Description</th>"
  const FailureHeader := "<th>Failure message</th>"
  const ArtifactsHeader := "<th>Artifacts</th>"

  /** The header cells after `pytest_html_results_table_header`. */
  function HeaderCells(cells: seq<string>): seq<string> {
    var c := Inserted(Inserted(Inserted(cells, 1, ModuleHeader), 3, DescriptionHeader), 4, FailureHeader);
    c[..|c| - 1] + [ArtifactsHeader]
  }

  /** `pytest_html_results_table_header`. */
  method ResultsTableHeader(cells: CellList)
    modifies cells
    ensures cells.items == HeaderCells(old(cells.items))
  {
    cells.Insert(1, ModuleHeader);
    cells.Insert(3, DescriptionHeader);
    cells.Insert(4, FailureHeader);
    var _ := cells.Pop();
    cells.Append(ArtifactsHeader);
  }

  /** With at least three cells the new columns land at positions 1, 3 and
      4 and the last column (Links) gives way to Artifacts. */
  lemma HeaderLayout(cells: seq<string>)
    requires |cells| >= 3
    ensures HeaderCells(cells)
      == [cells[0], ModuleHeader, cells[1], DescriptionHeader, FailureHeader]
         + cells[2..|cells| - 1] + [ArtifactsHeader]
  {
    var c1 := Inserted(cells, 1, ModuleHeader);
    InsertedAt(cells, 1, ModuleHeader);
    var c2 := Inserted(c1, 3, DescriptionHeader);
    InsertedAt(c1, 3, DescriptionHeader);
    var c3 := Inserted(c2, 4, FailureHeader);
    InsertedAt(c2, 4, FailureHeader);
    assert c3 == [cells[0], ModuleHeader, cells[1], DescriptionHeader, FailureHeader] + cells[2..];
  }

  /** pytest-html's default header `Result, Test, Duration, Links` becomes
      the seven columns the report's style sheet sizes. */
  lemma DefaultHeader(result: string, test: string, duration: string, links: string)
    ensures HeaderCells([result, test, duration, links])
      == [result, ModuleHeader, test, DescriptionHeader, FailureHeader, duration, ArtifactsHeader]
  {
    HeaderLayout([result, test, duration, links]);
  }

  // ---------- paths ----------

  /** `p.rfind('/') + 1`: where the last path component starts. */
  function ComponentStart(p: string): (r: nat)
    ensures r <= |p|
    ensures '/' !in p[r..]
    ensures r > 0 ==> p[r - 1] == '/'
  {
    if p == [] then 0
    else if Last(p) == '/' then |p|
    else
      var r := ComponentStart(p[..|p| - 1]);
      assert p[r..] == p[..|p| - 1][r..] + [Last(p)];
      r
  }

  predicate AllSlashes(s: string) {
    forall k :: 0 <= k < |s| ==> s[k] == '/'
  }

  /** `posixpath.dirname`. */
  function Dirname(p: string): string {
    var head := p[..ComponentStart(p)];
    if head != [] && !AllSlashes(head) then RStripChar(head, '/') else head
  }

  /** `posixpath.basename`. */
  function Basename(p: string): (r: string)
    ensures '/' !in r
  {
    p[ComponentStart(p)..]
  }

  /** The text of the Module cell: the test file's directory name. */
  function ParentDirectory(nodeId: string): string {
    Basename(Dirname(Split(nodeId, "::")[0]))
  }

  /** A path ending in a slash-free component starts that component after
      its last slash. */
  lemma {:induction false} ComponentStartAfter(dir: string, name: string)
    requires (dir == [] || Last(dir) == '/') && '/' !in name
    ensures ComponentStart(dir + name) == |dir|
    decreases |name|
  {
    if name == [] {
      assert dir + name == dir;
    } else {
      var s := dir + name;
      assert s[..|s| - 1] == dir + name[..|name| - 1];
      ComponentStartAfter(dir, name[..|name| - 1]);
    }
  }

  /** For a node id `dir/parent/file::rest` the Module cell shows `parent`. */
  lemma ParentDirectoryOfNode(dir: string, parent: string, file: string, rest: string)
    requires dir == [] || Last(dir) == '/'
    requires parent != [] && '/' !in parent && '/' !in file
    requires ':' !in dir + parent + "/" + file
    ensures ParentDirectory(dir + parent + "/" + file + "::" + rest) == parent
  {
    var path := dir + parent + "/" + file;
    var nodeId := path + "::" + rest;
    forall j | 0 <= j < |path| ensures !OccursAt(nodeId, "::", j) {
      assert nodeId[j] == path[j];
      MismatchRulesOut(nodeId, "::", j, 0);
    }
    assert OccursAt(nodeId, "::", |path|);
    assert Split(nodeId, "::")[0] == path;
    var head := dir + parent + "/";
    assert path == head + file;
    ComponentStartAfter(head, file);
    assert path[..ComponentStart(path)] == head;
    assert head[|dir|] == parent[0];
    assert !AllSlashes(head);
    StripTrailingSlash(dir + parent);
    assert Dirname(path) == dir + parent;
    ComponentStartAfter(dir, parent);
  }

  /** Stripping the slashes from `d + "/"` gives `d` back when `d` does
      not end in a slash. */
  lemma StripTrailingSlash(d: string)
    requires d != [] && Last(d) != '/'
    ensures RStripChar(d + "/", '/') == d
  {
    var s := d + "/";
    var r := RStripChar(s, '/');
    assert s[|s| - 2] == Last(d);
    assert |r| == |d|;
    assert r == s[..|d|] == d;
  }

  // ---------- the row ----------

  /** What the row hook reads from a test report. Absent attributes are
      `None`; `failureMessage` is set by the report hook for failures. */
  datatype RowReport = RowReport(
    nodeId: string,
    description: Option<string>,
    outcome: TestResults.Outcome,
    failureMessage: Option<string>,
    longrepr: Option<string>,
    longreprText: Option<string>,
    sections: seq<(string, string)>)

  function Cell(text: string): string {
    "<td>" + text + "</td>"
  }

  /** The failure text for a row: the extracted message (or the raw
      `longrepr`) of a failed test, the text after `Skipped: ` of a skipped
      one, nothing for a passed one. */
  function FailureText(report: RowReport): string {
    if report.outcome == TestResults.Failed then
      if report.failureMessage.Some? then report.failureMessage.value
      else if report.longrepr.Some? then report.longrepr.value
      else ""
    else if report.outcome == TestResults.Skipped then
      if report.longreprText.Some? then Last(SplitOnce(report.longreprText.value, "Skipped: "))
      else ""
    else ""
  }

  /** Spaces become `&nbsp;` and newlines `<br>`. */
  function Escape(text: string): (r: string)
    ensures ' ' !in r && '\n' !in r
  {
    ReplaceChar(ReplaceChar(text, ' ', "&nbsp;"), '\n', "<br>")
  }

  /** Escaping works character by character, so it distributes over concatenation. */
  lemma EscapeAppend(a: string, b: string)
    ensures Escape(a + b) == Escape(a) + Escape(b)
  {
    ReplaceCharAppend(a, b, ' ', "&nbsp;");
    ReplaceCharAppend(ReplaceChar(a, ' ', "&nbsp;"), ReplaceChar(b, ' ', "&nbsp;"), '\n', "<br>");
  }

  /** A space becomes `&nbsp;`, a newline `<br>`, and any other character stays. */
  lemma EscapeOne(d: char)
    ensures Escape([d]) == if d == ' ' then "&nbsp;" else if d == '\n' then "<br>" else [d]
  {
    ReplaceCharOne(d, ' ', "&nbsp;");
    if d == ' ' {
      assert '\n' !in "&nbsp;";
      ReplaceCharAbsent("&nbsp;", '\n', "<br>");
    } else {
      ReplaceCharOne(d, '\n', "<br>");
    }
  }

  /** No section before index `i` is the artifacts section. */
  predicate NoArtifactsBefore(sections: seq<(string, string)>, i: int)
    requires 0 <= i <= |sections|
  {
    forall j :: 0 <= j < i ==> sections[j].0 != "Test Artifacts"
  }

  /** The content of the first `Test Artifacts` section, or nothing. */
  function ArtifactsHtml(sections: seq<(string, string)>): (r: string)
    ensures NoArtifactsBefore(sections, |sections|) ==> r == ""
    ensures forall i :: (0 <= i < |sections| && sections[i].0 == "Test Artifacts"
      && NoArtifactsBefore(sections, i)) ==> r == sections[i].1
  {
    if sections == [] then ""
    else if sections[0].0 == "Test Artifacts" then sections[0].1
    else
      var rest := sections[1..];
      var r := ArtifactsHtml(rest);
      assert NoArtifactsBefore(sections, |sections|) ==> NoArtifactsBefore(rest, |rest|);
      assert forall i :: 1 <= i <= |sections| && NoArtifactsBefore(sections, i) ==> NoArtifactsBefore(rest, i - 1);
      assert forall i :: 1 <= i < |sections| ==> rest[i - 1] == sections[i];
      r
  }

  /** The test-name cell: `nodeid.split('::')[2]` when there are three parts. */
  function NameCell(nodeId: string, current: string): string {
    var parts := Split(nodeId, "::");
    if Contains(nodeId, "::") && |parts| >= 3 then Cell(parts[2]) else current
  }

  function DescriptionText(report: RowReport): string {
    if report.description.Some? then report.description.value else ""
  }

  /** The failure cell's content: escaped unless empty. */
  function ShownFailure(report: RowReport): string {
    var text := FailureText(report);
    if text != "" then Escape(text) else text
  }

  function ArtifactsCell(report: RowReport): string {
    "<td class='links-col'>" + ArtifactsHtml(report.sections) + "</td>"
  }

  /** The row hook's edits, one function per statement group. */
  function WithModule(report: RowReport, cells: seq<string>): seq<string> {
    Inserted(cells, 1, Cell(ParentDirectory(report.nodeId)))
  }

  function WithName(report: RowReport, cells: seq<string>): seq<string> {
    if |cells| > 2 then cells[2 := NameCell(report.nodeId, cells[2])] else cells
  }

  function WithDescription(report: RowReport, cells: seq<string>): seq<string> {
    Inserted(cells, 3, Cell(DescriptionText(report)))
  }

  function WithFailure(report: RowReport, cells: seq<string>): seq<string> {
    Inserted(cells, 4, Cell(ShownFailure(report)))
  }

  function WithArtifacts(report: RowReport, cells: seq<string>): seq<string>
    requires cells != []
  {
    cells[..|cells| - 1] + [ArtifactsCell(report)]
  }

  /** The row cells after `pytest_html_results_table_row`. */
  function RowCells(report: RowReport, cells: seq<string>): seq<string> {
    var c := WithFailure(report, WithDescription(report, WithName(report, WithModule(report, cells))));
    WithArtifacts(report, c)
  }

  /** The loop over `report.sections` that looks for the artifacts. */
  method FindArtifacts(sections: seq<(string, string)>) returns (artifactsHtml: string)
    ensures artifactsHtml == ArtifactsHtml(sections)
  {
    artifactsHtml := "";
    var i := 0;
    while i < |sections|
      invariant 0 <= i <= |sections|
      invariant artifactsHtml == ""
      invariant ArtifactsHtml(sections[i..]) == ArtifactsHtml(sections)
    {
      if sections[i].0 == "Test Artifacts" {
        artifactsHtml := sections[i].1;
        break;
      }
      assert sections[i..][1..] == sections[i + 1..];
      i := i + 1;
    }
  }

  /** `pytest_html_results_table_row`. */
  method ResultsTableRow(report: RowReport, cells: CellList)
    modifies cells
    ensures cells.items == RowCells(report, old(cells.items))
  {
    AddModuleAndName(report, cells);
    AddDescriptionAndFailure(report, cells);
    ghost var c4 := cells.items;
    var _ := cells.Pop();
    var artifactsHtml := FindArtifacts(report.sections);
    cells.Append("<td class='links-col'>" + artifactsHtml + "</td>");
    assert cells.items == WithArtifacts(report, c4);
  }

  /** The row hook's first statements: the Module cell, then the test name. */
  method AddModuleAndName(report: RowReport, cells: CellList)
    modifies cells
    ensures cells.items == WithName(report, WithModule(report, old(cells.items)))
  {
    var testPath := Split(report.nodeId, "::")[0];
    var parentDirectory := Basename(Dirname(testPath));
    cells.Insert(1, Cell(parentDirectory));
    ghost var c1 := cells.items;
    if |cells.items| > 2 && Contains(report.nodeId, "::") {
      var testParts := Split(report.nodeId, "::");
      if |testParts| >= 3 {
        cells.SetItem(2, Cell(testParts[2]));
      }
    }
    assert cells.items == WithName(report, c1);
  }

  /** The row hook's middle statements: the Description and Failure
      message cells. */
  method AddDescriptionAndFailure(report: RowReport, cells: CellList)
    modifies cells
    ensures cells.items == WithFailure(report, WithDescription(report, old(cells.items)))
  {
    var description := if report.description.Some? then report.description.value else "";
    cells.Insert(3, Cell(description));
    var failureMessage := FailureText(report);
    if failureMessage != "" {
      failureMessage := Escape(failureMessage);
    }
    cells.Insert(4, Cell(failureMessage));
  }

  /** With at least three cells, a row gets the same shape as the header:
      Module at 1, the test name at 2, Description at 3, the escaped
      failure text at 4, the untouched middle columns, and Artifacts last. */
  lemma RowLayout(report: RowReport, cells: seq<string>)
    requires |cells| >= 3
    ensures RowCells(report, cells)
      == [cells[0], Cell(ParentDirectory(report.nodeId)), NameCell(report.nodeId, cells[1]),
          Cell(DescriptionText(report)), Cell(ShownFailure(report))]
         + cells[2..|cells| - 1] + [ArtifactsCell(report)]
  {
    var c1 := WithModule(report, cells);
    InsertedAt(cells, 1, Cell(ParentDirectory(report.nodeId)));
    assert c1 == [cells[0], Cell(ParentDirectory(report.nodeId))] + cells[1..];
    var c2 := WithName(report, c1);
    assert c2 == [cells[0], Cell(ParentDirectory(report.nodeId)), NameCell(report.nodeId, cells[1])] + cells[2..];
    var c3 := WithDescription(report, c2);
    InsertedAt(c2, 3, Cell(DescriptionText(report)));
    assert c3 == [cells[0], Cell(ParentDirectory(report.nodeId)), NameCell(report.nodeId, cells[1]),
                  Cell(DescriptionText(report))] + cells[2..];
    var c4 := WithFailure(report, c3);
    InsertedAt(c3, 4, Cell(ShownFailure(report)));
    assert c4 == [cells[0], Cell(ParentDirectory(report.nodeId)), NameCell(report.nodeId, cells[1]),
                  Cell(DescriptionText(report)), Cell(ShownFailure(report))] + cells[2..];
    assert c4[..|c4| - 1] == [cells[0], Cell(ParentDirectory(report.nodeId)), NameCell(report.nodeId, cells[1]),
                  Cell(DescriptionText(report)), Cell(ShownFailure(report))] + cells[2..|cells| - 1];
  }

  /** A row edited from as many cells as the header lines up with it:
      same length, and the Module, Description, Failure message and
      Artifacts columns hold the matching cells; the failure cell holds
      no raw space or newline. */
  lemma RowMatchesHeader(report: RowReport, header: seq<string>, cells: seq<string>)
    requires |header| == |cells| >= 3
    ensures var h := HeaderCells(header);
      var r := RowCells(report, cells);
      && |h| == |r| == |cells| + 3
      && h[1] == ModuleHeader && r[1] == Cell(ParentDirectory(report.nodeId))
      && h[3] == DescriptionHeader && r[3] == Cell(DescriptionText(report))
      && h[4] == FailureHeader && r[4] == Cell(ShownFailure(report))
      && ' ' !in ShownFailure(report) && '\n' !in ShownFailure(report)
      && h[|h| - 1] == ArtifactsHeader && r[|r| - 1] == ArtifactsCell(report)
  {
    HeaderLayout(header);
    RowLayout(report, cells);
    FramedIndex([header[0], ModuleHeader, header[1], DescriptionHeader, FailureHeader],
                header[2..|header| - 1], ArtifactsHeader);
    FramedIndex([cells[0], Cell(ParentDirectory(report.nodeId)), NameCell(report.nodeId, cells[1]),
                 Cell(DescriptionText(report)), Cell(ShownFailure(report))],
                cells[2..|cells| - 1], ArtifactsCell(report));
  }

  /** The cells of `front + middle + [last]` at the front and at the end. */
  lemma FramedIndex(front: seq<string>, middle: seq<string>, last: string)
    ensures var x := front + middle + [last];
      && |x| == |front| + |middle| + 1
      && (forall i :: 0 <= i < |front| ==> x[i] == front[i])
      && x[|x| - 1] == last
  {
  }
}
