/** A source file of the older `autodocs` package (`File`): its text, the
    definitions its line scanner records, the change of one docstring, and
    the rewriting of every recorded definition back into the text. */
module AutodocsFile {

  import opened Wrappers
  import opened Strings
  import opened PyDefinition
  import opened DefinitionTable
  import opened AutodocsScan
  import opened AutodocsWrite

  /** The table after `documentation[name].docstring = docstring`. */
  function WithDocumentation(t: Table<AutoDefinition>, name: string, docstring: string): (r: Table<AutoDefinition>)
    requires Valid(t) && name in t.entries
    ensures Valid(r) && r.order == t.order
    ensures r.entries.Keys == t.entries.Keys
    ensures r.entries[name] == t.entries[name].(docstring := Some(docstring))
    ensures forall n :: n in t.entries && n != name ==> r.entries[n] == t.entries[n]
  {
    Table(t.order, t.entries[name := t.entries[name].(docstring := Some(docstring))])
  }

  /** The text `save` writes: `_write_docstring` applied for each definition
      in turn, starting from the text read at construction. The writer is the
      corrected one, which rewrites at the header's own colon (see
      `AutodocsWrite.WriteCrossesDefinitions` for the writer as written). */
  function Render(text: string, ds: seq<AutoDefinition>): string {
    if ds == [] then text else WriteDocstringFixed(Render(text, ds[..|ds| - 1]), ds[|ds| - 1])
  }

  class File {
    const filePath: string
    /** The text the file held when it was read. */
    const content: string
    /** `documentation`, which is also the object `original_documentation`
        refers to. */
    var documentation: Table<AutoDefinition>

    ghost predicate Valid()
      reads this
    {
      DefinitionTable.Valid(documentation)
    }

    /** `__init__`: read the file and scan its lines. */
    constructor(filePath: string, content: string)
      ensures this.filePath == filePath && this.content == content
      ensures documentation == Scan(ReadLines(content))
      ensures Valid()
    {
      this.filePath := filePath;
      this.content := content;
      var defs := ScanForDocumentation(ReadLines(content));
      documentation := defs;
    }

    /** `get_docs` and `get_original_docs`: both return the one mapping, so a
        change made through either shows in the other. */
    function Documentation(): (r: Table<AutoDefinition>)
      reads this
      ensures r == documentation
    {
      documentation
    }

    /** `set_documentation`: a missing name fails with `KeyError`; otherwise
        only that entry's docstring changes. */
    method SetDocumentation(name: string, docstring: string) returns (r: Outcome)
      requires Valid()
      modifies this
      ensures Valid()
      ensures name !in old(documentation.entries) ==> r == Fail(KeyError(name)) && documentation == old(documentation)
      ensures name in old(documentation.entries) ==> r == Pass && documentation == WithDocumentation(old(documentation), name, docstring)
    {
      if name !in documentation.entries {
        return Fail(KeyError(name));
      }
      documentation := WithDocumentation(documentation, name, docstring);
      r := Pass;
    }

    /** `save` without the write: the text is threaded through
        `_write_docstring` for each definition in key order; the result is
        the file's own path and the text written there. */
    method Save() returns (r: (string, string))
      requires Valid()
      ensures r.0 == filePath
      ensures r.1 == Render(content, Values(documentation))
    {
      var lines := content;
      var values := Values(documentation);
      for t := 0 to |values|
        invariant lines == Render(content, values[..t])
      {
        assert values[..t + 1][..t] == values[..t];
        lines := WriteDocstringFixed(lines, values[t]);
      }
      assert values[..|values|] == values;
      r := (filePath, lines);
    }
  }

  /** The three lines of the file in the package's write test. */
  const Line1: string := "def test_func" + "()" + ":\n"
  const Line2: string := "    " + TQ + "This is a test function" + TQ + "\n"
  const Line3: string := "    pass\n"
  const TestLines: seq<string> := [Line1, Line2, Line3]

  /** The definition the scan records for `test_func` on those lines. */
  const ScannedTestFunc := AutoDefinition(Function, "test_func", Some(TQ + "This is a test function" + TQ), Some(2), Some(2))

  lemma LinePieces()
    ensures NoNewline("def test_func" + "()") && NoNewline("    " + TQ + "This is a test function" + TQ)
    ensures NoNewline("    pass") && Terminated(":\n") && Terminated("\n")
    ensures IsBlank("    ") && IsBlank("\n")
  {
    NoNewlineAppend("def test_func", "()");
    assert NoNewline("    " + TQ + "This is a test function" + TQ) by {
      NoNewlineAppend("    ", TQ);
      NoNewlineAppend("    " + TQ, "This is a test function");
      NoNewlineAppend("    " + TQ + "This is a test function", TQ);
    }
    assert Line3 == "    pass" + "\n";
  }

  lemma TestLinesTerminated()
    ensures forall k :: 0 <= k < |TestLines| ==> Terminated(TestLines[k])
  {
    LinePieces();
    TerminatedAppend("def test_func" + "()", ":\n");
    TerminatedAppend("    " + TQ + "This is a test function" + TQ, "\n");
    TerminatedAppend("    pass", "\n");
    assert Line3 == "    pass" + "\n";
  }

  lemma TestHeader()
    ensures DefLine(Line1) == Some(DefMatch(Function, "test_func"))
  {
    var m := DefMatch(Function, "test_func");
    assert Line1[0..3] == "def" && Line1[4..13] == "test_func";
    assert Line1[3] == ' ' && Line1[13] == '(';
    assert DefShapeAt(Line1, m, 0, 4);
    ShapeDefLine(Line1, m, 0, 4);
  }

  lemma TestOpening()
    ensures DocStart(Line2) && EndMatch(Line2)
    ensures StripJoined([Line2]) == TQ + "This is a test function" + TQ
  {
    LinePieces();
    assert TQAt(Line2, 4);
    SkipWhitespaceTo(Line2, 0, 4);
    EndsQuoted("    " + TQ + "This is a test function");
    assert Concat([Line2]) == Line2;
    StripQuoted("    ", "This is a test function", "\n");
  }

  lemma TestBody()
    ensures DefLine(Line3).None?
  {
    SkipWhitespaceTo(Line3, 0, 4);
    assert Line3[4] == 'p';
  }

  /** The scan of those lines records `test_func` with its one-line
      docstring, quotes included, on line 2 from start to end. */
  lemma TestScan()
    ensures Scan(TestLines) == Table(["test_func"], map["test_func" := ScannedTestFunc])
  {
    TestEntries();
    PutAllCons(Empty(), Entry(0, ScannedTestFunc, 2), []);
  }

  /** The pass over those lines yields one entry, for `test_func`, and
      resumes after its docstring on line 2. */
  lemma TestEntries()
    ensures Entries(TestLines) == [Entry(0, ScannedTestFunc, 2)] + []
  {
    TestEntryAt();
    TestBody();
    EntriesOfRecord(TestLines, 0, Entry(0, ScannedTestFunc, 2));
    EntriesOfSkip(TestLines, 2);
  }

  /** The pass at line 0 records `test_func` with the docstring on line 1. */
  lemma TestEntryAt()
    ensures EntryAt(TestLines, 0) == Some(Entry(0, ScannedTestFunc, 2))
  {
    var lines := TestLines;
    TestHeader();
    TestOpening();
    FirstEndAt(lines, 1);
    assert lines[1..2] == [Line2];
    EntryAtDocumented(lines, 0, DefMatch(Function, "test_func"), 1, 1, [Line2]);
  }

  /** `"".join` of the three lines, as `WriteReplacesNext` cuts the text. */
  lemma Regroup(l1: string, l2: string, l3: string, a: string, b: string, c: string, d: string, e: string)
    requires l2 == a + b + c + d + e
    ensures Concat([l1, l2, l3]) == l1 + a + b + c + d + e + l3
  {
    assert [l1, l2, l3][1..] == [l2, l3];
    assert [l2, l3][1..] == [l3];
    assert [l3][1..] == [];
    assert Concat([l3]) == l3;
    assert Concat([l2, l3]) == l2 + l3;
    assert Concat([l1, l2, l3]) == l1 + (l2 + l3);
  }

  /** The package's write test, end to end: reading the file, setting the
      docstring of `test_func` to `New docstring` and saving gives the
      expected text. */
  lemma TestSetAndSave()
    ensures ReadLines(Concat(TestLines)) == TestLines
    ensures "test_func" in Scan(TestLines).entries
    ensures Render(Concat(TestLines), Values(WithDocumentation(Scan(TestLines), "test_func", "New docstring")))
      == "def test_func" + "()" + ":" + "\n    " + TQ + "New docstring" + TQ + "\n" + "    pass\n"
  {
    TestLinesTerminated();
    ReadLinesConcat(TestLines);
    TestScan();
    TestSetValues();
    TestRenderOne();
  }

  /** After the change, the table holds `test_func` with the new docstring. */
  lemma TestSetValues()
    ensures "test_func" in Scan(TestLines).entries
    ensures Values(WithDocumentation(Scan(TestLines), "test_func", "New docstring")) == [TestFunc]
  {
    TestScan();
    var t := WithDocumentation(Scan(TestLines), "test_func", "New docstring");
    assert ScannedTestFunc.(docstring := Some("New docstring")) == TestFunc;
    assert t == Table(["test_func"], map["test_func" := TestFunc]);
  }

  /** Saving with that one definition writes the expected text. */
  lemma TestRenderOne()
    ensures Render(Concat(TestLines), [TestFunc])
      == "def test_func" + "()" + ":" + "\n    " + TQ + "New docstring" + TQ + "\n" + "    pass\n"
  {
    assert [TestFunc][..0] == [];
    assert Render(Concat(TestLines), [TestFunc]) == WriteDocstringFixed(Concat(TestLines), TestFunc);
    Regroup(Line1, Line2, Line3, "    ", TQ, "This is a test function", TQ, "\n");
    TestWriteFixed();
  }
}
