/** A source file of gpt4docs (`File`): its text, the definitions scanned
    from it, and the rendering of changed docstrings back into the text. */
module DocFile {

  import opened Wrappers
  import opened Strings
  import opened PyDefinition
  import opened DefinitionTable
  import opened DocScan
  import opened DocWrite

  /** A file system path as its sequence of segments. */
  type Path = seq<string>

  const PathRequired: string := "Path must be specified if overwrite is False"

  /** `_write_docstring` on the text itself: split into lines, rewrite, join. */
  function WriteText(text: string, d: Definition): string {
    Join(WriteDocstring(Split(text), d))
  }

  /** The render of `save`: `_write_docstring` applied for each definition in
      turn, starting from `text`. */
  function Render(text: string, ds: seq<Definition>): string {
    if ds == [] then text else WriteText(Render(text, ds[..|ds| - 1]), ds[|ds| - 1])
  }

  /** The same fold on the lines of the text. */
  function RenderLines(L: seq<string>, ds: seq<Definition>): seq<string> {
    if ds == [] then L else WriteDocstring(RenderLines(L, ds[..|ds| - 1]), ds[|ds| - 1])
  }

  /** Folding on the text and folding on its lines agree: each rewrite keeps
      the lines free of newlines, so splitting its joined result gives the
      lines back. */
  lemma {:induction false} RenderOnLines(text: string, ds: seq<Definition>)
    ensures NoNewlines(RenderLines(Split(text), ds)) && |RenderLines(Split(text), ds)| >= 1
    ensures Render(text, ds) == Join(RenderLines(Split(text), ds))
    decreases |ds|
  {
    if ds != [] {
      var front := ds[..|ds| - 1];
      var d := ds[|ds| - 1];
      RenderOnLines(text, front);
      var M := RenderLines(Split(text), front);
      SplitJoin(M);
      WriteDocstringNoNewlines(M, d);
    } else {
      JoinSplit(text);
    }
  }

  /** Definitions without a docstring leave the text as it is. */
  lemma {:induction false} RenderUndocumented(text: string, ds: seq<Definition>)
    requires forall t :: 0 <= t < |ds| ==> ds[t].docstring.None?
    ensures Render(text, ds) == text
    decreases |ds|
  {
    if ds != [] {
      RenderUndocumented(text, ds[..|ds| - 1]);
      JoinSplit(text);
    }
  }

  /** Rendering one definition whose docstring holds no `"` a second time
      gives the same text. */
  lemma RenderOnceIdempotent(text: string, d: Definition)
    requires d.docstring.Some?
    requires forall i :: 0 <= i < |d.docstring.value| ==> d.docstring.value[i] != '"'
    ensures Render(Render(text, [d]), [d]) == Render(text, [d])
  {
    assert [d][..0] == [];
    var L := Split(text);
    var W := WriteDocstring(L, d);
    assert Render(text, [d]) == Join(W);
    WriteDocstringNoNewlines(L, d);
    SplitJoin(W);
    WritePlainIdempotent(L, d);
  }

  // --------------------------------------- re-rendering an unchanged file

  /** A function with the one-line docstring `"""text"""`, line by line. */
  const OneLineLines: seq<string> := ["def f():", "    \"\"\"text\"\"\"", "    pass", ""]

  /** Its text: `def f():\n    """text"""\n    pass\n`. */
  const OneLine: string := Join(OneLineLines)

  /** The function as the scan records it: the docstring without its quotes. */
  const OneLineDef: Definition := Definition(Function, "f", Some("text"))

  /** The block the quoted docstring becomes: `"""`, `text`, `"""`, each
      indented by four spaces. */
  const Rewrapped: seq<string> := ["    " + TQ, "    " + "text", "    " + TQ]

  /** The lines `save` writes back: the docstring now spans three lines. */
  const RewrappedLines: seq<string> := ["def f():"] + Rewrapped + ["    pass", ""]

  /** A header token starts with the first letter of its keyword, so a
      position holding neither `d` nor `c` starts none. */
  lemma NoTokenAt(s: string, q: nat)
    requires q < |s| && s[q] != 'd' && s[q] != 'c'
    ensures forall k :: !TokenAt(s, q, k)
  {
    forall k ensures !TokenAt(s, q, k) {
      if q + |Keyword(k)| <= |s| {
        assert s[q..q + |Keyword(k)|][0] == s[q];
      }
    }
  }

  /** A position that does not hold a quote starts no `"""`. */
  lemma NoQuotesAt(s: string, c: nat)
    requires c < |s| && s[c] != '"'
    ensures !TQAt(s, c)
  {
    if c + 3 <= |s| {
      assert s[c..c + 3][0] == s[c];
    }
  }

  /** A line that starts with a visible character other than a space gets
      the full indentation in front. */
  lemma IndentFresh(w: nat, line: string)
    requires w > 0 && line != [] && line[0] != ' ' && !IsWhitespace(line[0])
    ensures IndentLine(w, line) == Spaces(w) + line
  {
    assert !IsBlank(line);
    assert !StartsWith(line, Spaces(w)) by {
      if |line| >= w { assert line[..w][0] == line[0]; }
    }
  }

  lemma OneLineNoNewlines()
    ensures NoNewlines(OneLineLines)
  {
  }

  /** The header on line 0: a function called `f` whose colon ends that line. */
  lemma OneLineHeader()
    ensures HeaderAt(OneLineLines, 0) == Some(Header(Function, "f", 0))
  {
    var s := OneLineLines[0];
    assert TokenAt(s, 0, Function) by { assert s[0..3] == "def"; }
    forall q, kd | 0 < q < |s| ensures !TokenAt(s, q, kd) {
      NoTokenAt(s, q);
    }
    assert LastToken(s, |s|) == Some((Function, 0));
    var after := s[4..];
    assert after == "f():";
    assert WordPrefixLength(after) == 1;
    assert after[..1] == "f";
    assert EndsWithColon(s);
    assert HeaderEnd(OneLineLines, 0) == Some(0);
  }

  /** A line of spaces, then `"""`: the block opens right after the spaces. */
  lemma QuotedLineOpens(pre: string, v: string)
    requires forall i :: 0 <= i < |pre| ==> pre[i] == ' '
    ensures LeadingSpaces(pre + TQ + v + TQ) == |pre| && TQAt(pre + TQ + v + TQ, |pre|)
  {
    var s := pre + TQ + v + TQ;
    assert forall i :: 0 <= i < |pre| ==> s[i] == ' ';
    assert s[|pre|] == '"';
    assert s[|pre|..|pre| + 3] == TQ;
  }

  /** After a text without quotes, the `"""` that follows is the first one. */
  lemma QuotedLineRest(a: string, v: string)
    requires forall i :: 0 <= i < |v| ==> v[i] != '"'
    ensures FindTQ(a + v + TQ, |a|) == Some(|a| + |v|)
    ensures (a + v + TQ)[|a|..|a| + |v|] == v
  {
    var s := a + v + TQ;
    var c := |a|;
    assert s[c..c + |v|] == v;
    assert s[c + |v|..c + |v| + 3] == TQ;
    forall q | c <= q < c + |v| ensures !TQAt(s, q) {
      assert s[q] == v[q - c];
      NoQuotesAt(s, q);
    }
    FindTQFirst(s, c, c + |v|);
  }

  /** Its docstring block: the quotes at columns 4 and 11 of line 1. */
  lemma OneLineBlock()
    ensures FindDocBlock(OneLineLines, 0) == Some(DocBlock(Pos(1, 4), Pos(1, 11)))
    ensures OneLineLines[1][7..11] == "text"
  {
    var L := OneLineLines;
    assert L[1] == "    " + TQ + "text" + TQ;
    QuotedLineOpens("    ", "text");
    QuotedLineRest("    " + TQ, "text");
    assert SkipEmpty(L, 1) == 1;
  }

  /** No other line starts a match. */
  lemma OneLineOthers()
    ensures HeaderAt(OneLineLines, 2).None? && HeaderAt(OneLineLines, 3).None?
  {
    var s := OneLineLines[2];
    forall q, kd | 0 <= q < |s| ensures !TokenAt(s, q, kd) {
      NoTokenAt(s, q);
    }
  }

  /** The match on line 0, with the docstring without its quotes. */
  lemma OneLineFoundAt()
    ensures FoundAt(OneLineLines, 0) ==
      Some(Found(0, Header(Function, "f", 0), Some(DocBlock(Pos(1, 4), Pos(1, 11))), Some("text")))
  {
    OneLineHeader();
    OneLineBlock();
  }

  /** `finditer` over four lines whose only match is on line 0 and ends on line 1. */
  lemma SingleMatch(cs: seq<Option<Found>>, f: Found)
    requires Steps(cs) && |cs| == 4 && cs[0] == Some(f) && LastLine(f) == 1
    requires cs[2].None? && cs[3].None?
    ensures MatchesFrom(cs, 0) == [f]
  {
    assert MatchesFrom(cs, 4) == [];
    assert MatchesFrom(cs, 3) == [];
    assert MatchesFrom(cs, 2) == [];
  }

  /** `finditer` yields that one match. */
  lemma OneLineMatches()
    ensures DefinitionsOf(Matches(OneLineLines)) == [OneLineDef]
  {
    OneLineFoundAt();
    OneLineOthers();
    var cs := Candidates(OneLineLines);
    var f := Found(0, Header(Function, "f", 0), Some(DocBlock(Pos(1, 4), Pos(1, 11))), Some("text"));
    SingleMatch(cs, f);
  }

  /** The scan finds exactly the function, with its docstring unquoted. */
  lemma OneLineScan()
    ensures Values(ScanDefs(Split(OneLine))) == [OneLineDef]
  {
    OneLineNoNewlines();
    SplitJoin(OneLineLines);
    OneLineMatches();
    assert [OneLineDef][..0] == [];
  }

  /** The full docstring: the text between delimiting lines. */
  lemma OneLineFull()
    ensures FullDocstring(OneLineDef) == Some(Join([TQ, "text", TQ]))
  {
    DelimitPlain("text");
    JoinThree(TQ, "text", TQ);
  }

  lemma JoinThree(a: string, b: string, c: string)
    ensures Join([a, b, c]) == a + "\n" + b + "\n" + c
  {
    var P := [a, b, c];
    assert Join(P[2..]) == c;
    assert Join(P[1..]) == b + "\n" + c;
  }

  /** Split into its lines. */
  lemma OneLineFullLines()
    ensures Split(Join([TQ, "text", TQ])) == [TQ, "text", TQ]
  {
    SplitJoin([TQ, "text", TQ]);
  }

  /** Each line of it is indented by the four columns the header sets. */
  lemma OneLineIndent()
    ensures IndentWidth(OneLineLines[0]) == 4
    ensures IndentBlock(4, [TQ, "text", TQ]) == Rewrapped
  {
    assert OneLineLines[0][0] != ' ';
    assert LeadingSpaces(OneLineLines[0]) == 0;
    assert Spaces(4) == "    ";
    IndentFresh(4, TQ);
    IndentFresh(4, "text");
    var B := IndentBlock(4, [TQ, "text", TQ]);
    assert B[0] == Rewrapped[0] && B[1] == Rewrapped[1] && B[2] == Rewrapped[2];
  }

  /** What follows the old block: the body of the function. */
  lemma OneLineFollowing()
    ensures Following(OneLineLines, 0) == ["    pass", ""]
  {
    OneLineBlock();
    assert SkipEmpty(OneLineLines, 2) == 2;
  }

  /** The specific pattern finds the header on line 0. */
  lemma OneLineFind()
    ensures FindNamed(OneLineLines, 0, OneLineDef.kind, OneLineDef.name) == Some(0)
    ensures HeaderEnd(OneLineLines, 0) == Some(0)
  {
    var L := OneLineLines;
    assert NamedTokenAt(L[0], 0, Function, "f") by { assert L[0][0..3] == "def"; }
    assert EndsWithColon(L[0]);
  }

  /** The rewrite of a definition found on line `h`, from its parts. */
  predicate WriteInputs(L: seq<string>, d: Definition, h: nat, j: nat, P: seq<string>, B: seq<string>, F: seq<string>) {
    d.docstring.Some? && FindNamed(L, 0, d.kind, d.name) == Some(h)
    && HeaderEnd(L, h) == Some(j) && j < |L| && L[..j + 1] == P
    && IndentBlock(IndentWidth(L[h]), Split(FullDocstring(d).value)) == B
    && Following(L, j) == F
  }

  lemma WriteParts(L: seq<string>, d: Definition, h: nat, j: nat, P: seq<string>, B: seq<string>, F: seq<string>)
    requires WriteInputs(L, d, h, j, P, B, F)
    ensures WriteDocstring(L, d) == P + B + ClassGap(d.kind) + F
  {
    WriteDocstringAt(L, d, h);
    InsertFromParts(L, h, FullDocstring(d).value, d.kind, j, P, IndentWidth(L[h]), F);
  }

  /** Writing the scanned definition back turns the one-line block into three lines. */
  lemma OneLineWrite()
    ensures WriteDocstring(OneLineLines, OneLineDef) == RewrappedLines
  {
    OneLineInputs();
    WriteParts(OneLineLines, OneLineDef, 0, 0, ["def f():"], Rewrapped, ["    pass", ""]);
    NoGap(["def f():"] + Rewrapped, ["    pass", ""]);
  }

  lemma OneLineInputs()
    ensures WriteInputs(OneLineLines, OneLineDef, 0, 0, ["def f():"], Rewrapped, ["    pass", ""])
  {
    OneLineFind();
    OneLineRewrapped();
    OneLineFollowing();
    assert OneLineLines[..1] == ["def f():"];
  }

  /** The block written for it: the docstring quoted on lines of their own. */
  lemma OneLineRewrapped()
    ensures IndentBlock(IndentWidth(OneLineLines[0]), Split(FullDocstring(OneLineDef).value)) == Rewrapped
  {
    OneLineFull();
    OneLineFullLines();
    OneLineIndent();
  }

  /** A function's docstring is followed by no extra line. */
  lemma NoGap(a: seq<string>, b: seq<string>)
    ensures a + ClassGap(Function) + b == a + b
  {
    assert a + [] == a;
  }

  /** Rendering a file with the definitions its own scan found is not the
      identity: the scan keeps a docstring without its quotes, and the rewrite
      quotes it again on lines of their own, so `"""text"""` becomes three
      lines. This is what `save` writes for a file whose docstrings were not
      changed. */
  lemma RerenderRewraps()
    ensures Render(OneLine, Values(ScanDefs(Split(OneLine)))) == Join(RewrappedLines)
    ensures Join(RewrappedLines) != OneLine
  {
    OneLineScan();
    OneLineRewritten();
    OneLineDiffers();
  }

  lemma OneLineRewritten()
    ensures Render(OneLine, [OneLineDef]) == Join(RewrappedLines)
  {
    OneLineNoNewlines();
    SplitJoin(OneLineLines);
    OneLineWrite();
    assert [OneLineDef][..0] == [];
  }

  /** The text written back has six lines where the original had four. */
  lemma OneLineDiffers()
    ensures Join(RewrappedLines) != OneLine
  {
    OneLineNoNewlines();
    SplitJoin(OneLineLines);
    assert NoNewlines(RewrappedLines);
    SplitJoin(RewrappedLines);
    assert |RewrappedLines| != |OneLineLines|;
  }

  /** Where `save` writes: the file's own path when overwriting, else the
      given path, which must then be present. */
  function SaveTarget(filePath: Path, path: Option<Path>, overwrite: bool): (r: Result<Path>)
    ensures overwrite ==> r == Ok(filePath)
    ensures !overwrite && path.Some? ==> r == Ok(path.value)
    ensures r.Err? <==> !overwrite && path.None?
    ensures r.Err? ==> r.error == ValueError(PathRequired)
  {
    if overwrite then Ok(filePath)
    else if path.None? then Err(ValueError(PathRequired))
    else Ok(path.value)
  }

  /** The table after `definitions[name].docstring = docstring`. */
  function WithDocstring(t: Table<Definition>, name: string, docstring: string): (r: Table<Definition>)
    requires Valid(t) && name in t.entries
    ensures Valid(r) && r.order == t.order
    ensures r.entries.Keys == t.entries.Keys
    ensures r.entries[name].kind == t.entries[name].kind && r.entries[name].name == t.entries[name].name
    ensures r.entries[name].docstring == Some(docstring)
    ensures forall n :: n in t.entries && n != name ==> r.entries[n] == t.entries[n]
  {
    Table(t.order, t.entries[name := t.entries[name].(docstring := Some(docstring))])
  }

  class File {
    const filePath: Path
    /** The text of the file, as `black` formatted it when it was read. */
    const content: string
    /** `definitions`, which is also the object `original_definitions` refers to. */
    var definitions: Table<Definition>

    ghost predicate Valid()
      reads this
    {
      DefinitionTable.Valid(definitions)
    }

    /** `__init__`: scan the content for definitions. */
    constructor(filePath: Path, content: string)
      ensures this.filePath == filePath && this.content == content
      ensures definitions == ScanDefs(Split(content))
      ensures Valid()
    {
      this.filePath := filePath;
      this.content := content;
      var defs := ScanForDefinitions(Split(content));
      ScanDefsKeys(Split(content));
      definitions := defs;
    }

    /** `get_original_docs`: the same mapping as `definitions`, so every change
        made through `definitions` shows here too. */
    function OriginalDefinitions(): (r: Table<Definition>)
      reads this
      ensures r == definitions
    {
      definitions
    }

    /** `set_docstring`: a missing name fails with `KeyError`; otherwise only
        that entry's docstring changes. */
    method SetDocstring(name: string, docstring: string) returns (r: Outcome)
      requires Valid()
      modifies this
      ensures Valid()
      ensures name !in old(definitions.entries) ==> r == Fail(KeyError(name)) && definitions == old(definitions)
      ensures name in old(definitions.entries) ==> r == Pass && definitions == WithDocstring(old(definitions), name, docstring)
      ensures OriginalDefinitions() == definitions
    {
      if name !in definitions.entries {
        return Fail(KeyError(name));
      }
      definitions := WithDocstring(definitions, name, docstring);
      r := Pass;
    }

    /** `set_definition`: the entry for the definition's name becomes the
        definition; every other entry is unchanged. */
    method SetDefinition(d: Definition)
      requires Valid()
      modifies this
      ensures Valid()
      ensures definitions == Put(old(definitions), d.name, d)
      ensures definitions.entries[d.name] == d
      ensures forall n :: n in old(definitions.entries) && n != d.name ==> definitions.entries[n] == old(definitions.entries[n])
    {
      definitions := Put(definitions, d.name, d);
    }

    /** `save` without the write: the text is threaded through
        `_write_docstring` for each definition in key order, then the target
        path is chosen; the result is the path and the text to write there. */
    method Save(path: Option<Path>, overwrite: bool) returns (r: Result<(Path, string)>)
      requires Valid()
      ensures r.Err? <==> !overwrite && path.None?
      ensures r.Err? ==> r.error == ValueError(PathRequired)
      ensures r.Ok? ==> r.value.0 == SaveTarget(filePath, path, overwrite).value
      ensures r.Ok? ==> r.value.1 == Render(content, Values(definitions))
    {
      var lines := content;
      var values := Values(definitions);
      for t := 0 to |values|
        invariant lines == Render(content, values[..t])
      {
        assert values[..t + 1][..t] == values[..t];
        lines := Join(WriteDocstring(Split(lines), values[t]));
      }
      assert values[..|values|] == values;
      var target := SaveTarget(filePath, path, overwrite);
      if target.Err? {
        return Err(target.error);
      }
      r := Ok((target.value, lines));
    }
  }
}
