/** The line scanner of the older `autodocs` package: an index-driven loop over
    the lines of a file, each keeping its newline as `readlines` returns it,
    that records every `def`/`class` line together with the triple-quoted
    docstring starting on the line right after it and the 1-based numbers of
    the docstring's first and last lines. */
module AutodocsScan {

  import opened Wrappers
  import opened Strings
  import opened PyDefinition
  import opened DefinitionTable

  /** `f.readlines()` on a text: the lines, each keeping its newline; only the
      last may lack one, and none is empty. */
  function ReadLines(s: string): (r: seq<string>)
    ensures Concat(r) == s
    ensures forall k :: 0 <= k < |r| ==> |r[k]| >= 1
    ensures forall k :: 0 <= k < |r| - 1 ==> r[k][|r[k]| - 1] == '\n'
    ensures forall k, i :: 0 <= k < |r| && 0 <= i < |r[k]| - 1 ==> r[k][i] != '\n'
    decreases |s|
  {
    if |s| == 0 then []
    else
      var rest := ReadLines(s[1..]);
      if s[0] == '\n' || rest == [] then
        LineAlone(s, rest);
        [[s[0]]] + rest
      else
        LineJoined(s, rest);
        [[s[0]] + rest[0]] + rest[1..]
  }

  /** The shape `readlines` gives its lines. */
  ghost predicate LinesShaped(r: seq<string>) {
    (forall k :: 0 <= k < |r| ==> |r[k]| >= 1)
    && (forall k :: 0 <= k < |r| - 1 ==> r[k][|r[k]| - 1] == '\n')
    && (forall k, i :: 0 <= k < |r| && 0 <= i < |r[k]| - 1 ==> r[k][i] != '\n')
  }

  /** A newline, or the last character, ends a line of its own. */
  lemma LineAlone(s: string, rest: seq<string>)
    requires |s| > 0 && Concat(rest) == s[1..] && LinesShaped(rest)
    requires s[0] == '\n' || rest == []
    ensures Concat([[s[0]]] + rest) == s && LinesShaped([[s[0]]] + rest)
  {
    assert ([[s[0]]] + rest)[1..] == rest;
    assert s == [s[0]] + s[1..];
  }

  /** Any other character starts the first of the following lines. */
  lemma LineJoined(s: string, rest: seq<string>)
    requires |s| > 0 && Concat(rest) == s[1..] && LinesShaped(rest)
    requires s[0] != '\n' && rest != []
    ensures Concat([[s[0]] + rest[0]] + rest[1..]) == s && LinesShaped([[s[0]] + rest[0]] + rest[1..])
  {
    var r := [[s[0]] + rest[0]] + rest[1..];
    assert r[1..] == rest[1..];
    assert Concat(rest) == rest[0] + Concat(rest[1..]);
    assert s == [s[0]] + s[1..];
  }

  /** A line as `readlines` returns it: not empty, ending with its only newline. */
  predicate Terminated(line: string) {
    |line| >= 1 && line[|line| - 1] == '\n' && NoNewline(line[..|line| - 1])
  }

  lemma TerminatedAppend(p: string, q: string)
    requires NoNewline(p) && Terminated(q)
    ensures Terminated(p + q)
  {
    var s := p + q;
    assert s[..|s| - 1] == p + q[..|q| - 1];
    NoNewlineAppend(p, q[..|q| - 1]);
  }

  /** `readlines` peels a terminated line off the front of a text. */
  lemma {:induction false} ReadLinesPrefix(line: string, t: string)
    requires Terminated(line)
    ensures ReadLines(line + t) == [line] + ReadLines(t)
    decreases |line|
  {
    var s := line + t;
    assert s[1..] == line[1..] + t;
    if |line| > 1 {
      assert line[0] == line[..|line| - 1][0];
      assert line[1..][..|line| - 2] == line[..|line| - 1][1..];
      ReadLinesPrefix(line[1..], t);
      assert [line[0]] + line[1..] == line;
    }
  }

  /** Reading the concatenation of terminated lines gives those lines back. */
  lemma {:induction false} ReadLinesConcat(ls: seq<string>)
    requires forall k :: 0 <= k < |ls| ==> Terminated(ls[k])
    ensures ReadLines(Concat(ls)) == ls
  {
    if ls != [] {
      ReadLinesConcat(ls[1..]);
      ReadLinesPrefix(ls[0], Concat(ls[1..]));
    }
  }

  /** The part of a match of `^\s*(def|class)\s+(\w+)\b` the scan keeps. */
  datatype DefMatch = DefMatch(kind: Kind, name: string)

  /** The alternation `(def|class)` at index `a` of `s`. */
  function KeywordAt(s: string, a: nat): (r: Option<Kind>)
    ensures r.Some? <==> Occurs(s, a, "def") || Occurs(s, a, "class")
    ensures r.Some? ==> Occurs(s, a, Keyword(r.value))
  {
    if Occurs(s, a, "def") then Some(Function)
    else if Occurs(s, a, "class") then Some(Class)
    else None
  }

  /** `def_line_re.match(line)`: leading whitespace, the keyword, at least one
      whitespace character, then the name, the longest run of word characters,
      which must not be empty. */
  function DefLine(line: string): (r: Option<DefMatch>)
  {
    var a := SkipWhitespace(line, 0);
    match KeywordAt(line, a)
    case None => None
    case Some(k) =>
      var p := a + |Keyword(k)|;
      var b := SkipWhitespace(line, p);
      var e := SkipWord(line, b);
      if b == p || e == b then None else Some(DefMatch(k, line[b..e]))
  }

  /** The regular expression `^\s*(def|class)\s+(\w+)\b` matches `line`, with
      its whitespace runs ending at `a` and `b`, capturing `m`. */
  ghost predicate DefShapeAt(line: string, m: DefMatch, a: nat, b: nat) {
    var p := a + |Keyword(m.kind)|;
    var e := b + |m.name|;
    p < b && e <= |line|
    && (forall i :: 0 <= i < a ==> IsWhitespace(line[i]))
    && Occurs(line, a, Keyword(m.kind))
    && (forall i :: p <= i < b ==> IsWhitespace(line[i]))
    && line[b..e] == m.name && |m.name| >= 1
    && (forall i :: b <= i < e ==> IsWordChar(line[i]))
    && (e == |line| || !IsWordChar(line[e]))
  }

  ghost predicate DefShape(line: string, m: DefMatch) {
    exists a: nat, b: nat :: DefShapeAt(line, m, a, b)
  }

  /** What `DefLine` captures is a match of the regular expression. */
  lemma DefLineShape(line: string)
    requires DefLine(line).Some?
    ensures DefShape(line, DefLine(line).value)
  {
    var a := SkipWhitespace(line, 0);
    var k := KeywordAt(line, a).value;
    var p := a + |Keyword(k)|;
    var b := SkipWhitespace(line, p);
    var e := SkipWord(line, b);
    var m := DefMatch(k, line[b..e]);
    assert DefLine(line) == Some(m);
    SkipWhitespaceSpec(line, 0);
    SkipWhitespaceSpec(line, p);
    SkipWordSpec(line, b);
    assert DefShapeAt(line, m, a, b);
  }

  /** A match of the regular expression is what `DefLine` captures. */
  lemma ShapeDefLine(line: string, m: DefMatch, a: nat, b: nat)
    requires DefShapeAt(line, m, a, b)
    ensures DefLine(line) == Some(m)
  {
    ShapeKeyword(line, m, a, b);
    ShapeName(line, m, a, b);
  }

  /** In a match, the leading whitespace ends at the keyword. */
  lemma ShapeKeyword(line: string, m: DefMatch, a: nat, b: nat)
    requires DefShapeAt(line, m, a, b)
    ensures SkipWhitespace(line, 0) == a && KeywordAt(line, a) == Some(m.kind)
  {
    var kw := Keyword(m.kind);
    assert line[a] == kw[0] by { assert line[a..a + |kw|][0] == line[a]; }
    SkipWhitespaceTo(line, 0, a);
    if m.kind == Class {
      assert line[a..a + 3][0] == 'c';
    }
  }

  /** In a match, the whitespace after the keyword ends at the name, and the
      name runs to its end. */
  lemma ShapeName(line: string, m: DefMatch, a: nat, b: nat)
    requires DefShapeAt(line, m, a, b)
    ensures SkipWhitespace(line, a + |Keyword(m.kind)|) == b && SkipWord(line, b) == b + |m.name|
  {
    assert line[b] == m.name[0];
    SkipWhitespaceTo(line, a + |Keyword(m.kind)|, b);
    SkipWordTo(line, b, b + |m.name|);
  }

  /** `DefLine` recognises exactly the lines the regular expression matches,
      and captures what it captures. */
  lemma DefLineSpec(line: string, m: DefMatch)
    ensures DefLine(line) == Some(m) <==> DefShape(line, m)
  {
    if DefLine(line) == Some(m) {
      DefLineShape(line);
    }
    if DefShape(line, m) {
      var a: nat, b: nat :| DefShapeAt(line, m, a, b);
      ShapeDefLine(line, m, a, b);
    }
  }

  /** `docstring_start_re.match(line)`: `"""` after the leading whitespace. */
  predicate DocStart(line: string) {
    TQAt(line, SkipWhitespace(line, 0))
  }

  /** `DocStart` holds exactly when a whitespace prefix is followed by `"""`. */
  lemma DocStartSpec(line: string)
    ensures DocStart(line) <==> exists a: nat :: TQAt(line, a) && (forall i :: 0 <= i < a ==> IsWhitespace(line[i]))
  {
    if exists a: nat :: TQAt(line, a) && (forall i :: 0 <= i < a ==> IsWhitespace(line[i])) {
      var a: nat :| TQAt(line, a) && (forall i :: 0 <= i < a ==> IsWhitespace(line[i]));
      assert line[a] == line[a..a + 3][0];
      SkipWhitespaceTo(line, 0, a);
    }
    SkipWhitespaceSpec(line, 0);
  }

  /** A match of `.*"""[\n?]` that covers `s[..e]`: no newline before the
      triple quote, which is followed by `\n` or `?`. */
  predicate EndsAt(s: string, e: nat) {
    4 <= e <= |s| && TQAt(s, e - 4) && (s[e - 1] == '\n' || s[e - 1] == '?') && NoNewline(s[..e - 4])
  }

  /** `docstring_end_re.match(s)` for `.*"""[\n?]$`: `$` matches at the end of
      the text or before a newline that ends it. */
  predicate EndMatch(s: string) {
    EndsAt(s, |s|) || (|s| >= 1 && s[|s| - 1] == '\n' && EndsAt(s, |s| - 1))
  }

  /** On a line as `readlines` returns it, the closing `"""` is recognised when
      the line ends with `"""\n`, `"""?` or `"""?\n`, and not otherwise (so a
      last line ending in a bare `"""` does not close a docstring). */
  lemma EndMatchLine(s: string)
    requires |s| >= 1 && NoNewline(s[..|s| - 1])
    ensures EndMatch(s) <==> EndsWith(s, TQ + "\n") || EndsWith(s, TQ + "?") || EndsWith(s, TQ + "?\n")
  {
    EndsAtWhole(s);
    EndsAtBeforeNewline(s);
  }

  /** A line ending with `"""` and its newline closes a docstring. */
  lemma EndsQuoted(p: string)
    requires NoNewline(p)
    ensures EndMatch(p + TQ + "\n")
  {
    var s := p + TQ + "\n";
    assert s[|s| - 4..|s| - 1] == TQ;
    assert s[..|s| - 4] == p;
  }

  /** The match covering the whole line: it ends with `"""\n` or `"""?`. */
  lemma EndsAtWhole(s: string)
    requires |s| >= 1 && NoNewline(s[..|s| - 1])
    ensures EndsAt(s, |s|) <==> EndsWith(s, TQ + "\n") || EndsWith(s, TQ + "?")
  {
    var n := |s|;
    if EndsWith(s, TQ + "\n") || EndsWith(s, TQ + "?") {
      assert s[n - 4..n - 1] == s[n - 4..][..3];
      assert s[..n - 4] == s[..n - 1][..n - 4];
    }
    if EndsAt(s, n) {
      assert s[n - 4..] == s[n - 4..n - 1] + [s[n - 1]];
    }
  }

  /** The match stopping before the final newline: the line ends with `"""?\n`
      (a `\n` in that place would be a second newline). */
  lemma EndsAtBeforeNewline(s: string)
    requires |s| >= 1 && NoNewline(s[..|s| - 1])
    ensures (s[|s| - 1] == '\n' && EndsAt(s, |s| - 1)) <==> EndsWith(s, TQ + "?\n")
  {
    var n := |s|;
    if EndsWith(s, TQ + "?\n") {
      assert s[n - 5..n - 2] == s[n - 5..][..3];
      assert s[..n - 5] == s[..n - 1][..n - 5];
    }
    if s[n - 1] == '\n' && EndsAt(s, n - 1) {
      assert s[n - 2] == s[..n - 1][n - 2];
      assert s[n - 5..] == s[n - 5..n - 2] + [s[n - 2]] + [s[n - 1]];
    }
  }

  /** A definition as the scan records it. `startLine` and `endLine` are the
      1-based numbers of the docstring's first and last lines. */
  datatype AutoDefinition = AutoDefinition(
    kind: Kind, name: string, docstring: Option<string>, startLine: Option<nat>, endLine: Option<nat>)

  /** The index the inner loop stops at: the first line at or after `k` that
      closes a docstring, or the number of lines when none does. */
  function FirstEnd(lines: seq<string>, k: nat): (r: nat)
    requires k <= |lines|
    ensures k <= r <= |lines|
    ensures r < |lines| ==> EndMatch(lines[r])
    decreases |lines| - k
  {
    if k == |lines| || EndMatch(lines[k]) then k else FirstEnd(lines, k + 1)
  }

  /** No line before the one `FirstEnd` finds closes the docstring. */
  lemma {:induction false} FirstEndSpec(lines: seq<string>, k: nat)
    requires k <= |lines|
    ensures forall t :: k <= t < FirstEnd(lines, k) ==> !EndMatch(lines[t])
    decreases |lines| - k
  {
    if k < |lines| && !EndMatch(lines[k]) {
      FirstEndSpec(lines, k + 1);
    }
  }

  /** An opening line that closes itself ends the search where it starts. */
  lemma FirstEndAt(lines: seq<string>, k: nat)
    requires k < |lines| && EndMatch(lines[k])
    ensures FirstEnd(lines, k) == k
  {
  }

  /** `"".join(docstring_lines).strip()`. */
  function StripJoined(ls: seq<string>): string {
    Strip(Concat(ls))
  }

  /** What one pass of the outer loop records on a header line `line`, and the
      index `next` the loop goes on from. */
  datatype Entry = Entry(line: nat, def: AutoDefinition, next: nat)

  /** The record a header `m` on line `h` gets when the next line opens a
      docstring, which the loop goes on after. */
  function DocumentedEntry(lines: seq<string>, h: nat, m: DefMatch): (en: Entry)
    requires h + 1 < |lines|
    ensures en.line == h && h + 1 < en.next <= |lines| + 1
  {
    var e := FirstEnd(lines, h + 1);
    var stop := if e < |lines| then e + 1 else e;
    Entry(h, AutoDefinition(m.kind, m.name, Some(StripJoined(lines[h + 1..stop])), Some(h + 2), Some(e + 1)), e + 1)
  }

  /** The pass of the outer loop at index `h`. */
  function EntryAt(lines: seq<string>, h: nat): (r: Option<Entry>)
    requires h < |lines|
    ensures r.Some? <==> DefLine(lines[h]).Some?
    ensures r.Some? ==> r.value.line == h && h < r.value.next <= |lines| + 1
  {
    match DefLine(lines[h])
    case None => None
    case Some(m) =>
      if h + 1 < |lines| && DocStart(lines[h + 1]) then Some(DocumentedEntry(lines, h, m))
      else Some(Entry(h, AutoDefinition(m.kind, m.name, None, None, None), h + 1))
  }

  /** A header records its own kind and name; the docstring and both line
      numbers are all present or all absent, and present exactly when the
      next line opens with `"""`. Without one, the loop goes on from the next
      line. */
  lemma EntryAtHeader(lines: seq<string>, h: nat)
    requires h < |lines| && DefLine(lines[h]).Some?
    ensures var en := EntryAt(lines, h).value;
      en.def.kind == DefLine(lines[h]).value.kind && en.def.name == DefLine(lines[h]).value.name
      && (en.def.docstring.Some? <==> h + 1 < |lines| && DocStart(lines[h + 1]))
      && (en.def.docstring.Some? <==> en.def.startLine.Some?)
      && (en.def.docstring.Some? <==> en.def.endLine.Some?)
      && (en.def.docstring.None? ==> en.next == h + 1)
  {
  }

  /** Line `e` is where a docstring opened on line `k` ends: the first line
      from `k` on that closes it, or one past the last line when none does. */
  ghost predicate ClosesAt(lines: seq<string>, k: nat, e: nat) {
    k <= e <= |lines|
    && (forall t :: k <= t < e ==> !EndMatch(lines[t]))
    && (e < |lines| ==> EndMatch(lines[e]))
  }

  /** The search for the closing line stops at the only index that closes
      the docstring with nothing closing it before. */
  lemma {:induction false} FirstEndUnique(lines: seq<string>, k: nat, e: nat)
    requires ClosesAt(lines, k, e)
    ensures e == FirstEnd(lines, k)
    decreases e - k
  {
    if k < e {
      FirstEndUnique(lines, k + 1, e);
    }
  }

  /** With a docstring, it starts on the line after the header (1-based
      `h + 2`) and ends on the line where it closes, so the end is never
      before the start, and an opening line that closes itself gives start
      equal to end; the loop goes on after the end. */
  lemma DocumentedLines(lines: seq<string>, h: nat, m: DefMatch)
    requires h + 1 < |lines|
    ensures var en := DocumentedEntry(lines, h, m);
      en.def.startLine == Some(h + 2) && en.def.endLine.Some? && en.def.docstring.Some?
      && en.def.startLine.value <= en.def.endLine.value
      && en.next == en.def.endLine.value
      && ClosesAt(lines, h + 1, en.def.endLine.value - 1)
      && (EndMatch(lines[h + 1]) ==> en.def.endLine == en.def.startLine)
  {
    FirstEndSpec(lines, h + 1);
    if EndMatch(lines[h + 1]) {
      FirstEndAt(lines, h + 1);
    }
  }

  /** The docstring is the stripped concatenation of the lines from the
      opening one through the closing one, quotes included. */
  lemma DocumentedText(lines: seq<string>, h: nat, m: DefMatch, e: nat)
    requires h + 1 < |lines| && ClosesAt(lines, h + 1, e)
    ensures DocumentedEntry(lines, h, m).def.docstring == Some(StripJoined(lines[h + 1..if e < |lines| then e + 1 else e]))
  {
    FirstEndUnique(lines, h + 1, e);
  }

  /** A header followed by an opening line gets the documented record. */
  lemma EntryAtOpening(lines: seq<string>, h: nat, m: DefMatch)
    requires h + 1 < |lines| && DefLine(lines[h]) == Some(m) && DocStart(lines[h + 1])
    ensures EntryAt(lines, h) == Some(DocumentedEntry(lines, h, m))
  {
  }

  /** The documented record, stated on what the inner loop leaves: the index
      `k` of the opening line, the index `e` it stopped at and the lines
      `ls` it gathered. */
  lemma DocumentedEntryIs(lines: seq<string>, h: nat, m: DefMatch, k: nat, e: nat, ls: seq<string>)
    requires k == h + 1 && k < |lines|
    requires e == FirstEnd(lines, k)
    requires ls == lines[k..if e < |lines| then e + 1 else e]
    ensures DocumentedEntry(lines, h, m) == Entry(h, AutoDefinition(m.kind, m.name, Some(StripJoined(ls)), Some(k + 1), Some(e + 1)), e + 1)
  {
  }

  /** The documented pass, stated on what the loop holds after it. */
  lemma EntryAtDocumented(lines: seq<string>, h: nat, m: DefMatch, k: nat, e: nat, ls: seq<string>)
    requires k == h + 1 && k < |lines| && DefLine(lines[h]) == Some(m) && DocStart(lines[k])
    requires e == FirstEnd(lines, k)
    requires ls == lines[k..if e < |lines| then e + 1 else e]
    ensures EntryAt(lines, h) == Some(Entry(h, AutoDefinition(m.kind, m.name, Some(StripJoined(ls)), Some(k + 1), Some(e + 1)), e + 1))
  {
    EntryAtOpening(lines, h, m);
    DocumentedEntryIs(lines, h, m, k, e, ls);
  }

  function Candidates(lines: seq<string>): (cs: seq<Option<Entry>>)
    ensures |cs| == |lines|
    ensures forall h :: 0 <= h < |lines| ==> cs[h] == EntryAt(lines, h)
    ensures Steps(cs)
  {
    seq(|lines|, h requires 0 <= h < |lines| => EntryAt(lines, h))
  }

  /** A candidate on line `x` is for line `x` and moves the loop forward. */
  ghost predicate Steps(cs: seq<Option<Entry>>) {
    forall x :: 0 <= x < |cs| && cs[x].Some? ==> cs[x].value.line == x && x < cs[x].value.next <= |cs| + 1
  }

  /** The passes of the outer loop that record something, from index `i` on. */
  function EntriesFrom(cs: seq<Option<Entry>>, i: nat): seq<Entry>
    requires Steps(cs) && i <= |cs| + 1
    decreases |cs| + 1 - i
  {
    if i >= |cs| then []
    else if cs[i].None? then EntriesFrom(cs, i + 1)
    else [cs[i].value] + EntriesFrom(cs, cs[i].value.next)
  }

  /** The passes of the outer loop that record something, from index `i` on,
      read off the lines directly. */
  function EntriesOf(lines: seq<string>, i: nat): seq<Entry>
    requires i <= |lines| + 1
    decreases |lines| + 1 - i
  {
    if i >= |lines| then []
    else match EntryAt(lines, i)
      case None => EntriesOf(lines, i + 1)
      case Some(en) => [en] + EntriesOf(lines, en.next)
  }

  function Entries(lines: seq<string>): seq<Entry> {
    EntriesOf(lines, 0)
  }

  /** Reading the entries off the lines and off their candidates agree. */
  lemma {:induction false} EntriesOfCandidates(lines: seq<string>, i: nat)
    requires i <= |lines| + 1
    ensures EntriesOf(lines, i) == EntriesFrom(Candidates(lines), i)
    decreases |lines| + 1 - i
  {
    if i < |lines| {
      var cs := Candidates(lines);
      if cs[i].None? {
        EntriesOfCandidates(lines, i + 1);
      } else {
        EntriesOfCandidates(lines, cs[i].value.next);
      }
    }
  }

  /** Every entry is the candidate of its own line, at or after `i`. */
  ghost predicate Sound(cs: seq<Option<Entry>>, i: nat, es: seq<Entry>) {
    forall t :: 0 <= t < |es| ==> i <= es[t].line < |cs| && cs[es[t].line] == Some(es[t])
  }

  /** Each entry's header comes at or after where the previous one let the loop
      go on. */
  ghost predicate Ordered(es: seq<Entry>) {
    forall t :: 0 <= t < |es| - 1 ==> es[t].next <= es[t + 1].line
  }

  /** Line `x` was consumed by an entry: skipped as part of its docstring. */
  ghost predicate Consumed(es: seq<Entry>, x: nat) {
    exists t :: 0 <= t < |es| && es[t].line < x < es[t].next
  }

  ghost predicate Recorded(es: seq<Entry>, x: nat) {
    exists t :: 0 <= t < |es| && es[t].line == x
  }

  /** Every header line from `i` on that no entry consumed is recorded. */
  ghost predicate Complete(cs: seq<Option<Entry>>, i: nat, es: seq<Entry>) {
    forall x :: i <= x < |cs| && cs[x].Some? && !Consumed(es, x) ==> Recorded(es, x)
  }

  lemma {:induction false} EntriesFromSound(cs: seq<Option<Entry>>, i: nat)
    requires Steps(cs) && i <= |cs| + 1
    ensures Sound(cs, i, EntriesFrom(cs, i))
    decreases |cs| + 1 - i
  {
    if i < |cs| {
      if cs[i].None? {
        EntriesFromSound(cs, i + 1);
      } else {
        var next := cs[i].value.next;
        EntriesFromSound(cs, next);
        var es := EntriesFrom(cs, i);
        forall t | 0 <= t < |es| ensures i <= es[t].line < |cs| && cs[es[t].line] == Some(es[t]) {
          if t > 0 {
            assert es[t] == EntriesFrom(cs, next)[t - 1];
          }
        }
      }
    }
  }

  lemma {:induction false} EntriesFromOrdered(cs: seq<Option<Entry>>, i: nat)
    requires Steps(cs) && i <= |cs| + 1
    ensures Ordered(EntriesFrom(cs, i))
    decreases |cs| + 1 - i
  {
    if i < |cs| {
      if cs[i].None? {
        EntriesFromOrdered(cs, i + 1);
      } else {
        var next := cs[i].value.next;
        EntriesFromOrdered(cs, next);
        EntriesFromSound(cs, next);
        var rest := EntriesFrom(cs, next);
        assert EntriesFrom(cs, i) == [cs[i].value] + rest;
        OrderedCons(cs[i].value, rest);
      }
    }
  }

  lemma OrderedCons(en: Entry, rest: seq<Entry>)
    requires Ordered(rest)
    requires |rest| > 0 ==> en.next <= rest[0].line
    ensures Ordered([en] + rest)
  {
    var es := [en] + rest;
    forall t | 0 <= t < |es| - 1 ensures es[t].next <= es[t + 1].line {
      assert es[t + 1] == rest[t];
      if t > 0 {
        assert es[t] == rest[t - 1];
      }
    }
  }

  lemma ConsumedCons(en: Entry, rest: seq<Entry>, x: nat)
    requires Consumed(rest, x)
    ensures Consumed([en] + rest, x)
  {
    var t :| 0 <= t < |rest| && rest[t].line < x < rest[t].next;
    assert ([en] + rest)[t + 1] == rest[t];
  }

  lemma {:induction false} EntriesFromComplete(cs: seq<Option<Entry>>, i: nat)
    requires Steps(cs) && i <= |cs| + 1
    ensures Complete(cs, i, EntriesFrom(cs, i))
    decreases |cs| + 1 - i
  {
    if i < |cs| {
      var es := EntriesFrom(cs, i);
      if cs[i].None? {
        EntriesFromComplete(cs, i + 1);
      } else {
        var next := cs[i].value.next;
        EntriesFromComplete(cs, next);
        var rest := EntriesFrom(cs, next);
        forall x | i <= x < |cs| && cs[x].Some? && !Consumed(es, x)
          ensures Recorded(es, x)
        {
          if x == i {
            assert es[0].line == x;
          } else {
            assert !(es[0].line < x < es[0].next);
            if Consumed(rest, x) {
              ConsumedCons(cs[i].value, rest, x);
            }
            var t :| 0 <= t < |rest| && rest[t].line == x;
            assert es[t + 1].line == x;
          }
        }
      }
    }
  }

  /** Every entry is what the pass at its header line records. */
  lemma EntriesSound(lines: seq<string>)
    ensures forall t :: 0 <= t < |Entries(lines)| ==>
      Entries(lines)[t].line < |lines| && EntryAt(lines, Entries(lines)[t].line) == Some(Entries(lines)[t])
  {
    EntriesOfCandidates(lines, 0);
    EntriesFromSound(Candidates(lines), 0);
  }

  /** Entries come in line order, each header at or after the line the
      previous pass went on from. */
  lemma EntriesOrdered(lines: seq<string>)
    ensures Ordered(Entries(lines))
    ensures forall t, u :: 0 <= t < u < |Entries(lines)| ==> Entries(lines)[t].next <= Entries(lines)[u].line
  {
    var es := Entries(lines);
    EntriesOfCandidates(lines, 0);
    EntriesFromOrdered(Candidates(lines), 0);
    EntriesSound(lines);
    forall t, u | 0 <= t < u < |es| ensures es[t].next <= es[u].line {
      OrderedApart(es, t, u);
    }
  }

  /** Every entry lets the loop go on past its own header. */
  lemma EntriesAdvance(lines: seq<string>)
    ensures forall t :: 0 <= t < |Entries(lines)| ==> Entries(lines)[t].line < Entries(lines)[t].next
  {
    var cs := Candidates(lines);
    EntriesOfCandidates(lines, 0);
    EntriesFromSound(cs, 0);
    var es := EntriesFrom(cs, 0);
    forall t | 0 <= t < |es| ensures es[t].line < es[t].next {
      var x := es[t].line;
      assert cs[x] == Some(es[t]);
    }
  }

  /** The lines a docstring consumed are never examined as headers. */
  lemma EntriesSkipDocstrings(lines: seq<string>)
    ensures forall t, x :: 0 <= t < |Entries(lines)| && Entries(lines)[t].line < x < Entries(lines)[t].next ==>
      !Recorded(Entries(lines), x)
  {
    var es := Entries(lines);
    EntriesOrdered(lines);
    EntriesAdvance(lines);
    forall t, x | 0 <= t < |es| && es[t].line < x < es[t].next ensures !Recorded(es, x) {
      forall u | 0 <= u < |es| ensures es[u].line != x {
        assert es[u].line < es[u].next;
      }
    }
  }

  /** Every header line not consumed by a docstring is recorded. */
  lemma EntriesComplete(lines: seq<string>)
    ensures forall x :: 0 <= x < |lines| && DefLine(lines[x]).Some? && !Consumed(Entries(lines), x) ==>
      Recorded(Entries(lines), x)
  {
    EntriesOfCandidates(lines, 0);
    EntriesFromComplete(Candidates(lines), 0);
  }

  /** In an ordered run of entries, a later header comes after wherever any
      earlier pass went on from. */
  lemma {:induction false} OrderedApart(es: seq<Entry>, t: nat, u: nat)
    requires Ordered(es) && t < u < |es|
    requires forall k :: 0 <= k < |es| ==> es[k].line < es[k].next
    ensures es[t].next <= es[u].line
    decreases u - t
  {
    if u > t + 1 {
      OrderedApart(es, t, u - 1);
    }
  }

  /** The table after `defs[name] = definition` for each entry in turn. */
  function PutAll(acc: Table<AutoDefinition>, es: seq<Entry>): (r: Table<AutoDefinition>)
    requires Valid(acc)
    ensures Valid(r)
    decreases |es|
  {
    if es == [] then acc else PutAll(Put(acc, es[0].def.name, es[0].def), es[1..])
  }

  /** `_scan_for_documentation` on the lines of a file. */
  function Scan(lines: seq<string>): Table<AutoDefinition> {
    PutAll(Empty(), Entries(lines))
  }

  ghost predicate EntryNamed(es: seq<Entry>, n: string) {
    exists t :: 0 <= t < |es| && es[t].def.name == n
  }

  /** `es[t]` is the last entry in `es` called `n`. */
  ghost predicate LastEntryNamed(es: seq<Entry>, t: int, n: string) {
    0 <= t < |es| && es[t].def.name == n && forall u :: t < u < |es| ==> es[u].def.name != n
  }

  /** The keys are those of the start table and the names of the entries; a
      name no entry carries keeps its value. */
  lemma {:induction false} PutAllKeys(acc: Table<AutoDefinition>, es: seq<Entry>)
    requires Valid(acc)
    ensures forall n :: n in PutAll(acc, es).entries <==> n in acc.entries || EntryNamed(es, n)
    ensures forall n :: n in acc.entries && !EntryNamed(es, n) ==> PutAll(acc, es).entries[n] == acc.entries[n]
    decreases |es|
  {
    if es != [] {
      var acc' := Put(acc, es[0].def.name, es[0].def);
      PutAllKeys(acc', es[1..]);
      forall n ensures EntryNamed(es, n) <==> n == es[0].def.name || EntryNamed(es[1..], n) {
        if EntryNamed(es[1..], n) {
          var t :| 0 <= t < |es[1..]| && es[1..][t].def.name == n;
          assert es[t + 1].def.name == n;
        }
        if EntryNamed(es, n) && n != es[0].def.name {
          var t :| 0 <= t < |es| && es[t].def.name == n;
          assert es[1..][t - 1].def.name == n;
        }
      }
    }
  }

  /** The last entry with a given name is the one the table keeps. */
  lemma {:induction false} PutAllLastWins(acc: Table<AutoDefinition>, es: seq<Entry>, t: nat, n: string)
    requires Valid(acc) && LastEntryNamed(es, t, n)
    ensures n in PutAll(acc, es).entries && PutAll(acc, es).entries[n] == es[t].def
    decreases |es|
  {
    var acc' := Put(acc, es[0].def.name, es[0].def);
    if t == 0 {
      PutAllKeys(acc', es[1..]);
    } else {
      assert LastEntryNamed(es[1..], t - 1, n) by {
        forall u | t - 1 < u < |es[1..]| ensures es[1..][u].def.name != n {
          assert es[1..][u] == es[u + 1];
        }
      }
      PutAllLastWins(acc', es[1..], t - 1, n);
    }
  }

  /** One key per recorded name, and each from a header line of the file. */
  lemma ScanKeys(lines: seq<string>)
    ensures forall n :: n in Scan(lines).entries <==> EntryNamed(Entries(lines), n)
    ensures forall n :: n in Scan(lines).entries ==>
      exists h :: 0 <= h < |lines| && DefLine(lines[h]).Some? && DefLine(lines[h]).value.name == n
  {
    var es := Entries(lines);
    PutAllKeys(Empty(), es);
    EntriesSound(lines);
    forall n | n in Scan(lines).entries
      ensures exists h :: 0 <= h < |lines| && DefLine(lines[h]).Some? && DefLine(lines[h]).value.name == n
    {
      var t :| 0 <= t < |es| && es[t].def.name == n;
      EntryAtHeader(lines, es[t].line);
    }
  }

  /** For a name recorded several times, the last record is kept. */
  lemma ScanLastWins(lines: seq<string>)
    ensures forall t, n :: LastEntryNamed(Entries(lines), t, n) ==>
      n in Scan(lines).entries && Scan(lines).entries[n] == Entries(lines)[t].def
  {
    var es := Entries(lines);
    forall t, n | LastEntryNamed(es, t, n) ensures n in Scan(lines).entries && Scan(lines).entries[n] == es[t].def {
      PutAllLastWins(Empty(), es, t, n);
    }
  }

  /** One pass of the outer loop, on the entries. */
  lemma EntriesOfSkip(lines: seq<string>, i: nat)
    requires i < |lines| && DefLine(lines[i]).None?
    ensures EntriesOf(lines, i) == EntriesOf(lines, i + 1)
  {
  }

  lemma EntriesOfRecord(lines: seq<string>, i: nat, en: Entry)
    requires i < |lines| && EntryAt(lines, i) == Some(en)
    ensures EntriesOf(lines, i) == [en] + EntriesOf(lines, en.next)
  {
  }

  /** The pass at `i` when the header is not followed by a docstring. */
  lemma EntryAtUndocumented(lines: seq<string>, i: nat, m: DefMatch)
    requires i < |lines| && DefLine(lines[i]) == Some(m)
    requires !(i + 1 < |lines| && DocStart(lines[i + 1]))
    ensures EntryAt(lines, i) == Some(Entry(i, AutoDefinition(m.kind, m.name, None, None, None), i + 1))
  {
  }

  /** One assignment of the loop, on the table. */
  lemma PutAllCons(acc: Table<AutoDefinition>, en: Entry, rest: seq<Entry>)
    requires Valid(acc)
    ensures PutAll(acc, [en] + rest) == PutAll(Put(acc, en.def.name, en.def), rest)
  {
    assert ([en] + rest)[1..] == rest;
  }

  /** The inner loop of `_scan_for_documentation`: from the opening line `k`,
      gather the lines up to the first that closes the docstring, and that
      one too when there is one; `i` is where the loop stopped. */
  method GatherDocstring(lines: seq<string>, k: nat) returns (docstringLines: seq<string>, i: nat)
    requires k < |lines|
    ensures ClosesAt(lines, k, i) && i == FirstEnd(lines, k)
    ensures docstringLines == lines[k..if i < |lines| then i + 1 else i]
  {
    docstringLines := [];
    i := k;
    while i < |lines| && !EndMatch(lines[i])
      invariant k <= i <= |lines|
      invariant docstringLines == lines[k..i]
      invariant forall t :: k <= t < i ==> !EndMatch(lines[t])
      decreases |lines| - i
    {
      docstringLines := docstringLines + [lines[i]];
      i := i + 1;
    }
    if i < |lines| && EndMatch(lines[i]) {
      assert lines[k..i + 1] == lines[k..i] + [lines[i]];
      docstringLines := docstringLines + [lines[i]];
    }
    FirstEndUnique(lines, k, i);
  }

  /** The body of the outer loop of `_scan_for_documentation` once line `h`
      matched a header: look for a docstring on the next line and gather it.
      `i` is the index the outer loop has reached before its own `i += 1`. */
  method ReadDefinition(lines: seq<string>, h: nat, found: DefMatch) returns (definition: AutoDefinition, i: nat)
    requires h < |lines| && DefLine(lines[h]) == Some(found)
    ensures EntryAt(lines, h) == Some(Entry(h, definition, i + 1))
  {
    i := h;
    if i + 1 < |lines| {
      var nextLine := lines[i + 1];
      if DocStart(nextLine) {
        i := i + 1;
        ghost var k := i;
        var docstringStartLine: Option<nat> := Some(i + 1);
        var docstringLines;
        docstringLines, i := GatherDocstring(lines, i);
        var docstring: Option<string> := Some(StripJoined(docstringLines));
        var docstringEndLine: Option<nat> := Some(i + 1);
        EntryAtDocumented(lines, h, found, k, i, docstringLines);
        return AutoDefinition(found.kind, found.name, docstring, docstringStartLine, docstringEndLine), i;
      }
    }
    EntryAtUndocumented(lines, h, found);
    definition := AutoDefinition(found.kind, found.name, None, None, None);
  }

  /** `cs` holds the candidate of every line; the link to `EntryAt` is only
      used where a pass has computed `EntryAt` itself. */
  ghost predicate CandidatesFor(lines: seq<string>, cs: seq<Option<Entry>>) {
    |cs| == |lines| && Steps(cs)
    && forall h {:trigger EntryAt(lines, h)} :: 0 <= h < |lines| ==> cs[h] == EntryAt(lines, h)
  }

  lemma CandidatesTable(lines: seq<string>) returns (cs: seq<Option<Entry>>)
    ensures CandidatesFor(lines, cs)
  {
    cs := Candidates(lines);
  }

  /** Any such table gives the entries `Scan` records. */
  lemma CandidatesScan(lines: seq<string>, cs: seq<Option<Entry>>)
    requires CandidatesFor(lines, cs)
    ensures Scan(lines) == PutAll(Empty(), EntriesFrom(cs, 0))
  {
    assert cs == Candidates(lines);
    EntriesOfCandidates(lines, 0);
  }

  lemma EntryAtNone(lines: seq<string>, i: nat)
    requires i < |lines| && DefLine(lines[i]).None?
    ensures EntryAt(lines, i).None?
  {
  }

  /** A pass that records `en` on the table. */
  lemma EntriesFromRecord(cs: seq<Option<Entry>>, acc: Table<AutoDefinition>, i: nat, en: Entry)
    requires Steps(cs) && Valid(acc) && i < |cs| && cs[i] == Some(en)
    ensures PutAll(acc, EntriesFrom(cs, i)) == PutAll(Put(acc, en.def.name, en.def), EntriesFrom(cs, en.next))
  {
    PutAllCons(acc, en, EntriesFrom(cs, en.next));
  }

  /** One pass of the outer loop of `_scan_for_documentation` at index `i`:
      the table after the pass and the index the next pass starts from. */
  method ScanLine(lines: seq<string>, ghost cs: seq<Option<Entry>>, defs: Table<AutoDefinition>, i: nat)
    returns (defs': Table<AutoDefinition>, next: nat)
    requires CandidatesFor(lines, cs) && Valid(defs) && i < |lines|
    ensures Valid(defs') && i < next <= |lines| + 1
    ensures PutAll(defs, EntriesFrom(cs, i)) == PutAll(defs', EntriesFrom(cs, next))
  {
    var found := DefLine(lines[i]);
    if found.Some? {
      assert cs[i] == EntryAt(lines, i);
      defs', next := RecordDefinition(lines, cs, defs, i, found.value);
    } else {
      SkipStep(lines, cs, defs, i);
      defs', next := defs, i + 1;
    }
  }

  /** A pass at a header: read the definition and record it under its name. */
  method RecordDefinition(lines: seq<string>, ghost cs: seq<Option<Entry>>, defs: Table<AutoDefinition>, i: nat, found: DefMatch)
    returns (defs': Table<AutoDefinition>, next: nat)
    requires |cs| == |lines| && Steps(cs) && Valid(defs) && i < |lines|
    requires DefLine(lines[i]) == Some(found) && cs[i] == EntryAt(lines, i)
    ensures Valid(defs') && i < next <= |lines| + 1
    ensures PutAll(defs, EntriesFrom(cs, i)) == PutAll(defs', EntriesFrom(cs, next))
  {
    var definition, last := ReadDefinition(lines, i, found);
    EntriesFromRecord(cs, defs, i, Entry(i, definition, last + 1));
    defs' := Put(defs, definition.name, definition);
    next := last + 1;
  }

  /** A pass at any other line records nothing. */
  lemma SkipStep(lines: seq<string>, cs: seq<Option<Entry>>, defs: Table<AutoDefinition>, i: nat)
    requires CandidatesFor(lines, cs) && Valid(defs) && i < |lines| && DefLine(lines[i]).None?
    ensures PutAll(defs, EntriesFrom(cs, i)) == PutAll(defs, EntriesFrom(cs, i + 1))
  {
    EntryAtNone(lines, i);
    assert cs[i] == EntryAt(lines, i);
  }

  /** `_scan_for_documentation`, as the loop the source runs. */
  method ScanForDocumentation(lines: seq<string>) returns (defs: Table<AutoDefinition>)
    ensures defs == Scan(lines)
  {
    ghost var cs := CandidatesTable(lines);
    defs := Empty();
    var i: nat := 0;
    while i < |lines|
      invariant i <= |lines| + 1
      invariant Valid(defs)
      invariant PutAll(Empty(), EntriesFrom(cs, 0)) == PutAll(defs, EntriesFrom(cs, i))
      decreases |lines| + 1 - i
    {
      defs, i := ScanLine(lines, cs, defs, i);
    }
    CandidatesScan(lines, cs);
  }
}
