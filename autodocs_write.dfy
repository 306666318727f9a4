/** The docstring writer of the older `autodocs` package. It works on the
    whole text of a file with two regular expressions that both begin with the
    literal `<type> <name>`:
    - `(?P<definition><type> <name>.*?:)\n\s*"""(?P<existing_doc>.*?)"""\n`
      under DOTALL, where the lazy `.*?` may run across lines;
    - `(?P<definition><type> <name>.*?:)\n`, where `.` stops at a newline.
    When the first one is found its match is rewritten; otherwise the second
    one's. Either way the `definition` group is followed by the new block
    `\n    """<docstring>"""\n`, with a fixed indent of four spaces. */
module AutodocsWrite {

  import opened Wrappers
  import opened Strings
  import opened PyDefinition
  import opened AutodocsScan

  /** `{definition.type} {definition.name}`: the literal text both patterns
      start with. */
  function Head(d: AutoDefinition): string {
    Keyword(d.kind) + " " + d.name
  }

  /** `{definition.docstring}` in the replacement: a missing docstring is
      written as `None`. */
  function DocText(d: AutoDefinition): string {
    match d.docstring
    case None => "None"
    case Some(v) => v
  }

  /** What the replacement puts after the `definition` group. */
  function Block(d: AutoDefinition): string {
    "\n    " + TQ + DocText(d) + TQ + "\n"
  }

  /** `Block` written out in place. */
  lemma {:induction false} BlockSplice(pre: string, d: AutoDefinition)
    ensures pre + Block(d) == pre + "\n    " + TQ + DocText(d) + TQ + "\n"
  {
  }

  /** A `:` at `c` followed by a newline. */
  predicate ColonNewline(s: string, c: nat) {
    c + 1 < |s| && s[c] == ':' && s[c + 1] == '\n'
  }

  /** `\n\s*"""(?P<existing_doc>.*?)"""\n` right after the colon at `c`: the
      index just past the match, if it matches. The greedy `\s*` can only stop
      at the end of the whitespace run, since `"` is not whitespace; the lazy
      `.*?` stops at the first `"""\n`. */
  function BlockClose(s: string, c: nat): (r: Option<nat>)
    requires ColonNewline(s, c)
    ensures r.Some? ==> c + 9 <= r.value <= |s|
  {
    var w := SkipWhitespace(s, c + 2);
    if !TQAt(s, w) then None
    else match FindClose(s, w + 3)
      case None => None
      case Some(q) => Some(q + 4)
  }

  /** `"""` followed by a newline at `q`, character by character. */
  predicate CloseAt(s: string, q: nat) {
    q + 4 <= |s| && s[q] == '"' && s[q + 1] == '"' && s[q + 2] == '"' && s[q + 3] == '\n'
  }

  /** The first `"""` followed by a newline at or after `from`. */
  function FindClose(s: string, from: nat): (r: Option<nat>)
    ensures r.Some? ==> from <= r.value && CloseAt(s, r.value)
    decreases |s| - from
  {
    if from + 4 > |s| then None
    else if CloseAt(s, from) then Some(from)
    else FindClose(s, from + 1)
  }

  /** `FindClose` finds the first closing, or there is none. */
  lemma {:induction false} FindCloseSpec(s: string, from: nat)
    ensures FindClose(s, from).Some? ==> forall q :: from <= q < FindClose(s, from).value ==> !CloseAt(s, q)
    ensures FindClose(s, from).None? ==> forall q :: from <= q ==> !CloseAt(s, q)
    decreases |s| - from
  {
    if from + 4 <= |s| && !CloseAt(s, from) {
      FindCloseSpec(s, from + 1);
    }
  }

  /** The docstring part of the pattern matches from the colon at `c` to `e`,
      with the opening quotes at `w`. */
  ghost predicate BlockAt(s: string, c: nat, w: nat, e: nat) {
    ColonNewline(s, c) && c + 2 <= w && w + 7 <= e <= |s|
    && (forall i :: c + 2 <= i < w ==> IsWhitespace(s[i]))
    && TQAt(s, w)
    && CloseAt(s, e - 4)
    && (forall q :: w + 3 <= q < e - 4 ==> !CloseAt(s, q))
  }

  /** `BlockClose` finds exactly the end of the only match from the colon. */
  lemma {:induction false} BlockCloseSpec(s: string, c: nat, e: nat)
    requires ColonNewline(s, c)
    ensures BlockClose(s, c) == Some(e) <==> exists w: nat :: BlockAt(s, c, w, e)
  {
    if BlockClose(s, c) == Some(e) {
      BlockCloseMatches(s, c);
    }
    if exists w: nat :: BlockAt(s, c, w, e) {
      var w: nat :| BlockAt(s, c, w, e);
      MatchBlockClose(s, c, w, e);
    }
  }

  lemma {:induction false} BlockCloseMatches(s: string, c: nat)
    requires ColonNewline(s, c) && BlockClose(s, c).Some?
    ensures BlockAt(s, c, SkipWhitespace(s, c + 2), BlockClose(s, c).value)
  {
    var w := SkipWhitespace(s, c + 2);
    SkipWhitespaceSpec(s, c + 2);
    FindCloseSpec(s, w + 3);
  }

  lemma {:induction false} MatchBlockClose(s: string, c: nat, w: nat, e: nat)
    requires BlockAt(s, c, w, e)
    ensures BlockClose(s, c) == Some(e)
  {
    assert s[w] == s[w..w + 3][0];
    SkipWhitespaceTo(s, c + 2, w);
    FindCloseSpec(s, w + 3);
  }

  /** The docstring part of the first pattern matches from the colon at `c`. */
  predicate Opens(s: string, c: nat) {
    ColonNewline(s, c) && BlockClose(s, c).Some?
  }

  /** The lazy `.*?:` of the first pattern, which DOTALL lets run across
      lines: the first colon at or after `c` from which the rest of the
      pattern matches, and where that match ends. */
  function ExistingFrom(s: string, c: nat): (r: Option<(nat, nat)>)
    ensures r.Some? ==> c <= r.value.0 && ColonNewline(s, r.value.0) && BlockClose(s, r.value.0) == Some(r.value.1)
    decreases |s| - c
  {
    if c + 1 >= |s| then None
    else if Opens(s, c) then Some((c, BlockClose(s, c).value))
    else ExistingFrom(s, c + 1)
  }

  /** `ExistingFrom` stops at the first colon that works. */
  lemma {:induction false} ExistingFromFirst(s: string, c0: nat)
    ensures ExistingFrom(s, c0).Some? ==>
      forall c: nat :: c0 <= c < ExistingFrom(s, c0).value.0 ==> !Opens(s, c)
    ensures ExistingFrom(s, c0).None? ==> forall c: nat :: c0 <= c ==> !Opens(s, c)
    decreases |s| - c0
  {
    if c0 + 1 >= |s| {
      assert forall c: nat :: c0 <= c ==> !ColonNewline(s, c);
    } else if !Opens(s, c0) {
      assert ExistingFrom(s, c0) == ExistingFrom(s, c0 + 1);
      ExistingFromFirst(s, c0 + 1);
    }
  }

  /** The first pattern matches with its literal at `i` and its colon at `c`. */
  ghost predicate ExistingAt(s: string, h: string, i: nat, c: nat) {
    Occurs(s, i, h) && i + |h| <= c && Opens(s, c)
  }

  /** `re.search` with the first pattern from index `i`: the leftmost start,
      its colon and the end of the match. */
  function ExistingSearch(s: string, h: string, i: nat): (r: Option<(nat, nat, nat)>)
    ensures r.Some? ==> i <= r.value.0 && ExistingAt(s, h, r.value.0, r.value.1)
    ensures r.Some? ==> BlockClose(s, r.value.1) == Some(r.value.2)
    decreases |s| - i
  {
    if i + |h| > |s| then None
    else if Occurs(s, i, h) && ExistingFrom(s, i + |h|).Some? then
      var m := ExistingFrom(s, i + |h|).value;
      Some((i, m.0, m.1))
    else ExistingSearch(s, h, i + 1)
  }

  /** A start the search passes over has no colon that works. */
  lemma {:induction false} PassedStart(s: string, h: string, i: nat)
    requires !(Occurs(s, i, h) && ExistingFrom(s, i + |h|).Some?)
    ensures forall c: nat :: !ExistingAt(s, h, i, c)
  {
    ExistingFromFirst(s, i + |h|);
  }

  /** At the start the search stops at, no earlier colon works. */
  lemma {:induction false} FoundStart(s: string, h: string, i: nat)
    requires Occurs(s, i, h) && ExistingFrom(s, i + |h|).Some?
    ensures forall c: nat :: c < ExistingFrom(s, i + |h|).value.0 ==> !ExistingAt(s, h, i, c)
  {
    ExistingFromFirst(s, i + |h|);
  }

  /** The search finds the leftmost start and, for it, the first colon. */
  lemma {:induction false} ExistingSearchFirst(s: string, h: string, i: nat)
    requires ExistingSearch(s, h, i).Some?
    ensures forall j: nat, c: nat :: i <= j < ExistingSearch(s, h, i).value.0 ==> !ExistingAt(s, h, j, c)
    ensures forall c: nat :: c < ExistingSearch(s, h, i).value.1 ==> !ExistingAt(s, h, ExistingSearch(s, h, i).value.0, c)
    decreases |s| - i
  {
    if Occurs(s, i, h) && ExistingFrom(s, i + |h|).Some? {
      FoundStart(s, h, i);
    } else {
      PassedStart(s, h, i);
      ExistingSearchFirst(s, h, i + 1);
    }
  }

  /** When the search finds nothing, the pattern matches nowhere. */
  lemma {:induction false} ExistingSearchNone(s: string, h: string, i: nat)
    requires ExistingSearch(s, h, i).None?
    ensures forall j: nat, c: nat :: i <= j ==> !ExistingAt(s, h, j, c)
    decreases |s| - i
  {
    if i + |h| <= |s| {
      PassedStart(s, h, i);
      ExistingSearchNone(s, h, i + 1);
    }
  }

  /** The lazy `.*?:` of the second pattern, where `.` does not match a
      newline: the colon must be the last character of the line. */
  function LineColonFrom(s: string, c: nat): (r: Option<nat>)
    ensures r.Some? ==> c <= r.value && ColonNewline(s, r.value)
    decreases |s| - c
  {
    if c + 1 >= |s| || s[c] == '\n' then None
    else if ColonNewline(s, c) then Some(c)
    else LineColonFrom(s, c + 1)
  }

  /** `LineColonFrom` finds the colon that ends the line, when it is one. */
  lemma {:induction false} LineColonFromSpec(s: string, c0: nat, c: nat)
    ensures LineColonFrom(s, c0) == Some(c) <==>
      c0 <= c && ColonNewline(s, c) && forall j :: c0 <= j < c ==> s[j] != '\n'
    decreases |s| - c0
  {
    if c0 + 1 < |s| && s[c0] != '\n' && !ColonNewline(s, c0) {
      LineColonFromSpec(s, c0 + 1, c);
    }
  }

  /** The second pattern matches with its literal at `i` and its colon at `c`. */
  ghost predicate HeaderLineAt(s: string, h: string, i: nat, c: nat) {
    Occurs(s, i, h) && i + |h| <= c && ColonNewline(s, c) && forall j :: i + |h| <= j < c ==> s[j] != '\n'
  }

  /** `re.sub` with the second pattern finds its first match from `i`. */
  function NoDocSearch(s: string, h: string, i: nat): (r: Option<(nat, nat)>)
    ensures r.Some? ==> i <= r.value.0 && Occurs(s, r.value.0, h)
    ensures r.Some? ==> LineColonFrom(s, r.value.0 + |h|) == Some(r.value.1)
    ensures r.Some? ==> r.value.0 + |h| <= r.value.1 && ColonNewline(s, r.value.1)
    decreases |s| - i
  {
    if i + |h| > |s| then None
    else if Occurs(s, i, h) && LineColonFrom(s, i + |h|).Some? then Some((i, LineColonFrom(s, i + |h|).value))
    else NoDocSearch(s, h, i + 1)
  }

  /** The search finds the leftmost match of the second pattern. */
  lemma {:induction false} NoDocSearchFirst(s: string, h: string, i: nat)
    ensures NoDocSearch(s, h, i).Some? ==> HeaderLineAt(s, h, NoDocSearch(s, h, i).value.0, NoDocSearch(s, h, i).value.1)
    ensures NoDocSearch(s, h, i).Some? ==>
      forall j: nat, c: nat :: i <= j < NoDocSearch(s, h, i).value.0 ==> !HeaderLineAt(s, h, j, c)
    ensures NoDocSearch(s, h, i).None? ==> forall j: nat, c: nat :: i <= j ==> !HeaderLineAt(s, h, j, c)
    decreases |s| - i
  {
    if i + |h| <= |s| {
      HeaderLineFrom(s, h, i);
      if !(Occurs(s, i, h) && LineColonFrom(s, i + |h|).Some?) {
        NoDocSearchFirst(s, h, i + 1);
        assert NoDocSearch(s, h, i) == NoDocSearch(s, h, i + 1);
      }
    }
  }

  /** At one position the second pattern matches exactly when the literal is
      there and its line ends with a colon. */
  lemma HeaderLineFrom(s: string, h: string, i: nat)
    ensures Occurs(s, i, h) && LineColonFrom(s, i + |h|).Some? ==> HeaderLineAt(s, h, i, LineColonFrom(s, i + |h|).value)
    ensures !(Occurs(s, i, h) && LineColonFrom(s, i + |h|).Some?) ==> forall c: nat :: !HeaderLineAt(s, h, i, c)
  {
    forall c: nat ensures LineColonFrom(s, i + |h|) == Some(c) <==>
      i + |h| <= c && ColonNewline(s, c) && forall j :: i + |h| <= j < c ==> s[j] != '\n'
    {
      LineColonFromSpec(s, i + |h|, c);
    }
  }

  /** `_write_docstring`: the first pattern's first match is rewritten when
      there is one, else the second pattern's; the `definition` group ends with
      the colon at index `c`. Only the first match is rewritten. */
  function WriteDocstring(s: string, d: AutoDefinition): string {
    match ExistingSearch(s, Head(d), 0)
    case Some(m) => s[..m.1 + 1] + Block(d) + s[m.2..]
    case None =>
      match NoDocSearch(s, Head(d), 0)
      case Some(m) => s[..m.1 + 1] + Block(d) + s[m.1 + 2..]
      case None => s
  }

  /** With a docstring block after a header colon, the leftmost such match,
      and for it the first colon, is replaced: everything up to the colon is
      kept, the new block follows, and the text after the old block is kept. */
  lemma {:induction false} WriteExisting(s: string, d: AutoDefinition, i: nat, c: nat)
    requires ExistingAt(s, Head(d), i, c)
    requires forall j: nat, c': nat :: j < i ==> !ExistingAt(s, Head(d), j, c')
    requires forall c': nat :: c' < c ==> !ExistingAt(s, Head(d), i, c')
    ensures WriteDocstring(s, d) == s[..c + 1] + Block(d) + s[BlockClose(s, c).value..]
  {
    var h := Head(d);
    if ExistingSearch(s, h, 0).None? {
      ExistingSearchNone(s, h, 0);
    }
    var m := ExistingSearch(s, h, 0).value;
    ExistingSearchFirst(s, h, 0);
    assert m.0 == i;
    assert m.1 == c;
  }

  /** Without any docstring block after a header colon, a block is inserted
      after the leftmost header line ending in `:`, and the whole rest of the
      text is kept. */
  lemma {:induction false} WriteInsert(s: string, d: AutoDefinition, i: nat, c: nat)
    requires forall j: nat, c': nat :: !ExistingAt(s, Head(d), j, c')
    requires HeaderLineAt(s, Head(d), i, c)
    requires forall j: nat, c': nat :: j < i ==> !HeaderLineAt(s, Head(d), j, c')
    ensures WriteDocstring(s, d) == s[..c + 1] + Block(d) + s[c + 2..]
  {
    var h := Head(d);
    NoExistingSearch(s, h);
    NoDocSearchAt(s, h, i, c);
    WriteAtHeader(s, d, (i, c));
  }

  /** Where the first pattern matches nowhere, its search finds nothing. */
  lemma {:induction false} NoExistingSearch(s: string, h: string)
    requires forall j: nat, c: nat :: !ExistingAt(s, h, j, c)
    ensures ExistingSearch(s, h, 0).None?
  {
  }

  /** The second pattern's search stops at its leftmost match. */
  lemma {:induction false} NoDocSearchAt(s: string, h: string, i: nat, c: nat)
    requires HeaderLineAt(s, h, i, c)
    requires forall j: nat, c': nat :: j < i ==> !HeaderLineAt(s, h, j, c')
    ensures NoDocSearch(s, h, 0) == Some((i, c))
  {
    NoDocSearchFirst(s, h, 0);
    var m := NoDocSearch(s, h, 0).value;
    assert HeaderLineAt(s, h, m.0, m.1);
    assert m.0 == i;
    LineColonFromSpec(s, i + |h|, c);
  }

  /** When neither pattern matches, the text is returned as it is. */
  lemma {:induction false} WriteUnmatched(s: string, d: AutoDefinition)
    requires forall j: nat, c: nat :: !ExistingAt(s, Head(d), j, c)
    requires forall j: nat, c: nat :: !HeaderLineAt(s, Head(d), j, c)
    ensures WriteDocstring(s, d) == s
  {
    NoDocSearchFirst(s, Head(d), 0);
  }

  /** A text in which `<type> <name>` never occurs is left unchanged. */
  lemma {:induction false} WriteNoHeader(s: string, d: AutoDefinition)
    requires forall i: nat :: !Occurs(s, i, Head(d))
    ensures WriteDocstring(s, d) == s
  {
    WriteUnmatched(s, d);
  }

  /** Whenever a pattern matches, the result keeps the text up to and
      including a colon after an occurrence of `<type> <name>`, and the new
      block comes right after that colon. */
  lemma {:induction false} WriteEmitsBlock(s: string, d: AutoDefinition)
    requires exists j: nat, c: nat :: ExistingAt(s, Head(d), j, c) || HeaderLineAt(s, Head(d), j, c)
    ensures exists i: nat, c: nat :: Emits(s, WriteDocstring(s, d), d, i, c)
  {
    SomeSearchFinds(s, d);
    WriteEmitsFound(s, d);
  }

  /** The same, once one of the two searches has found its match. */
  lemma {:induction false} WriteEmitsFound(s: string, d: AutoDefinition)
    requires ExistingSearch(s, Head(d), 0).Some? || NoDocSearch(s, Head(d), 0).Some?
    ensures exists i: nat, c: nat :: Emits(s, WriteDocstring(s, d), d, i, c)
  {
    var h := Head(d);
    match ExistingSearch(s, h, 0)
    case Some(m) =>
      EmitsSplice(s, d, m.0, m.1, s[m.2..]);
      WriteAtExisting(s, d, m);
      assert Emits(s, WriteDocstring(s, d), d, m.0, m.1);
    case None =>
      var m := NoDocSearch(s, h, 0).value;
      EmitsSplice(s, d, m.0, m.1, s[m.1 + 2..]);
      WriteAtHeader(s, d, m);
      assert Emits(s, WriteDocstring(s, d), d, m.0, m.1);
  }

  /** When a pattern matches anywhere, one of the two searches finds it. */
  lemma {:induction false} SomeSearchFinds(s: string, d: AutoDefinition)
    requires exists j: nat, c: nat :: ExistingAt(s, Head(d), j, c) || HeaderLineAt(s, Head(d), j, c)
    ensures ExistingSearch(s, Head(d), 0).Some? || NoDocSearch(s, Head(d), 0).Some?
  {
    if ExistingSearch(s, Head(d), 0).None? {
      ExistingSearchNone(s, Head(d), 0);
      NoDocSearchFirst(s, Head(d), 0);
    }
  }

  /** The writer once the first pattern's search has found `m`. */
  lemma {:induction false} WriteAtExisting(s: string, d: AutoDefinition, m: (nat, nat, nat))
    requires ExistingSearch(s, Head(d), 0) == Some(m)
    ensures m.1 + 1 <= m.2 <= |s|
    ensures WriteDocstring(s, d) == s[..m.1 + 1] + Block(d) + s[m.2..]
  {
    match ExistingSearch(s, Head(d), 0)
    case Some(m') =>
      assert m' == m;
  }

  /** The writer once only the second pattern's search has found `m`. */
  lemma {:induction false} WriteAtHeader(s: string, d: AutoDefinition, m: (nat, nat))
    requires ExistingSearch(s, Head(d), 0).None? && NoDocSearch(s, Head(d), 0) == Some(m)
    ensures m.1 + 2 <= |s|
    ensures WriteDocstring(s, d) == s[..m.1 + 1] + Block(d) + s[m.1 + 2..]
  {
    match NoDocSearch(s, Head(d), 0)
    case Some(m') =>
      assert m' == m;
  }

  /** The result `r` keeps the text up to and including a colon at `c` after
      an occurrence of `<type> <name>` at `i`, and the new block comes right
      after that colon. */
  ghost predicate Emits(s: string, r: string, d: AutoDefinition, i: nat, c: nat) {
    i + |Head(d)| <= c < |s| && c < |r|
    && r[..c + 1] == s[..c + 1] && Occurs(s, i, Head(d)) && s[c] == ':'
    && Occurs(r, c + 1, Block(d))
  }

  lemma {:induction false} EmitsSplice(s: string, d: AutoDefinition, i: nat, c: nat, tail: string)
    requires Occurs(s, i, Head(d)) && i + |Head(d)| <= c && ColonNewline(s, c)
    ensures Emits(s, s[..c + 1] + Block(d) + tail, d, i, c)
  {
    var r := s[..c + 1] + Block(d) + tail;
    assert r[..c + 1] == s[..c + 1];
    assert r[c + 1..c + 1 + |Block(d)|] == Block(d);
  }

  /** A colon ending a line, then a docstring block: the pattern's
      docstring part matches up to the end of the block. */
  lemma {:induction false} BlockAfter(p: string, ws: string, x: string, rest: string, s: string)
    requires forall j :: 0 <= j < |ws| ==> IsWhitespace(ws[j])
    requires forall j :: 0 <= j < |x| ==> x[j] != '"'
    requires s == p + ":\n" + ws + TQ + x + TQ + "\n" + rest
    ensures ColonNewline(s, |p|) && BlockClose(s, |p|) == Some(|p| + |ws| + |x| + 9)
  {
    var c := |p|;
    var w := c + 2 + |ws|;
    var e := w + 3 + |x| + 4;
    BlockAfterColon(p, ws, x, rest, s);
    BlockAfterQuotes(p, ws, x, rest, s);
    BlockAfterInside(p, ws, x, rest, s);
    assert BlockAt(s, c, w, e);
    MatchBlockClose(s, c, w, e);
  }

  /** In that text, the colon, the newline and the indentation. */
  lemma BlockAfterColon(p: string, ws: string, x: string, rest: string, s: string)
    requires forall j :: 0 <= j < |ws| ==> IsWhitespace(ws[j])
    requires s == p + ":\n" + ws + TQ + x + TQ + "\n" + rest
    ensures ColonNewline(s, |p|)
    ensures forall i :: |p| + 2 <= i < |p| + 2 + |ws| ==> IsWhitespace(s[i])
  {
    forall i | |p| + 2 <= i < |p| + 2 + |ws| ensures IsWhitespace(s[i]) {
      assert s[i] == ws[i - |p| - 2];
    }
  }

  /** In that text, the opening and the closing quotes. */
  lemma BlockAfterQuotes(p: string, ws: string, x: string, rest: string, s: string)
    requires s == p + ":\n" + ws + TQ + x + TQ + "\n" + rest
    ensures TQAt(s, |p| + 2 + |ws|) && CloseAt(s, |p| + 2 + |ws| + 3 + |x|)
  {
    var w := |p| + 2 + |ws|;
    var e := w + 3 + |x| + 4;
    assert s[w..w + 3] == TQ;
    assert s[e - 4..e] == TQ + "\n";
    assert s[e - 4] == s[e - 4..e][0] && s[e - 3] == s[e - 4..e][1];
    assert s[e - 2] == s[e - 4..e][2] && s[e - 1] == s[e - 4..e][3];
  }

  /** In that text, no closing quotes inside the docstring. */
  lemma BlockAfterInside(p: string, ws: string, x: string, rest: string, s: string)
    requires forall j :: 0 <= j < |x| ==> x[j] != '"'
    requires s == p + ":\n" + ws + TQ + x + TQ + "\n" + rest
    ensures forall q :: |p| + 2 + |ws| + 3 <= q < |p| + 2 + |ws| + 3 + |x| ==> !CloseAt(s, q)
  {
    var w := |p| + 2 + |ws|;
    forall q | w + 3 <= q < w + 3 + |x| ensures !CloseAt(s, q) {
      assert s[q] == x[q - w - 3];
    }
  }

  /** A colon ending a line, then a line whose first character after the
      indentation is not a quote: the docstring part does not match there. */
  lemma {:induction false} NoBlockAfter(p: string, ws: string, ch: char, more: string)
    requires forall j :: 0 <= j < |ws| ==> IsWhitespace(ws[j])
    requires !IsWhitespace(ch) && ch != '"'
    ensures ColonNewline(p + ":\n" + ws + [ch] + more, |p|)
    ensures BlockClose(p + ":\n" + ws + [ch] + more, |p|).None?
  {
    var s := p + ":\n" + ws + [ch] + more;
    var w := |p| + 2 + |ws|;
    assert s[w] == ch;
    forall i | |p| + 2 <= i < w ensures IsWhitespace(s[i]) {
      assert s[i] == ws[i - |p| - 2];
    }
    SkipWhitespaceTo(s, |p| + 2, w);
  }

  /** A header at the start, a docstring block after the colon at `c`, and no
      block after any earlier colon: the writer replaces that block. */
  lemma {:induction false} WriteAtFirstBlock(s: string, d: AutoDefinition, c: nat, e: nat, pre: string, post: string)
    requires Occurs(s, 0, Head(d)) && |Head(d)| <= c
    requires ColonNewline(s, c) && BlockClose(s, c) == Some(e)
    requires forall c': nat :: |Head(d)| <= c' < c && ColonNewline(s, c') ==> BlockClose(s, c').None?
    requires s[..c + 1] == pre && s[e..] == post
    ensures WriteDocstring(s, d) == pre + Block(d) + post
  {
    forall c': nat | c' < c ensures !ExistingAt(s, Head(d), 0, c') {
    }
    WriteExisting(s, d, 0, c);
  }

  /** The positions in the text of `WriteReplacesNext`. */
  lemma {:induction false} ReplacesNextText(h: string, params: string, ws: string, x: string, rest: string, s: string, c: nat, e: nat)
    requires forall j :: 0 <= j < |params| ==> params[j] != ':'
    requires forall j :: 0 <= j < |ws| ==> IsWhitespace(ws[j])
    requires forall j :: 0 <= j < |x| ==> x[j] != '"'
    requires s == h + params + ":\n" + ws + TQ + x + TQ + "\n" + rest
    requires c == |h| + |params| && e == c + |ws| + |x| + 9
    ensures Occurs(s, 0, h) && |h| <= c
    ensures ColonNewline(s, c) && BlockClose(s, c) == Some(e)
    ensures forall c': nat :: |h| <= c' < c && ColonNewline(s, c') ==> BlockClose(s, c').None?
    ensures s[..c + 1] == h + params + ":" && s[e..] == rest
  {
    var p := h + params;
    assert |p| == c;
    BlockAfter(p, ws, x, rest, s);
    BlockAfterCut(p, ws, x, rest, s);
    HeaderPrefix(h, params, s);
  }

  /** That text cut after the colon and after the block. */
  lemma BlockAfterCut(p: string, ws: string, x: string, rest: string, s: string)
    requires s == p + ":\n" + ws + TQ + x + TQ + "\n" + rest
    ensures s[..|p| + 1] == p + ":" && s[|p| + |ws| + |x| + 9..] == rest
  {
    assert s[..|p| + 1] == p + ":";
    assert s[|p| + |ws| + |x| + 9..] == rest;
  }

  /** A text that starts with `<type> <name>`, then a parameter list without
      a colon, then a colon: the header occurs at 0, and no colon comes before
      that one. */
  lemma {:induction false} HeaderPrefix(h: string, params: string, s: string)
    requires forall j :: 0 <= j < |params| ==> params[j] != ':'
    requires |h| + |params| < |s| && s[..|h| + |params| + 1] == h + params + ":"
    ensures Occurs(s, 0, h)
    ensures forall c': nat :: |h| <= c' < |h| + |params| ==> !ColonNewline(s, c')
  {
    var p := s[..|h| + |params| + 1];
    assert s[0..|h|] == p[0..|h|] == h;
    forall c': nat | |h| <= c' < |h| + |params| ensures !ColonNewline(s, c') {
      assert s[c'] == p[c'] == params[c' - |h|];
    }
  }

  /** A header with a parameter list, then a docstring block on the next
      lines: the block is replaced and all the text after it kept. */
  lemma {:induction false} WriteReplacesNext(d: AutoDefinition, params: string, ws: string, x: string, rest: string)
    requires forall j :: 0 <= j < |params| ==> params[j] != ':'
    requires forall j :: 0 <= j < |ws| ==> IsWhitespace(ws[j])
    requires forall j :: 0 <= j < |x| ==> x[j] != '"'
    ensures WriteDocstring(Head(d) + params + ":\n" + ws + TQ + x + TQ + "\n" + rest, d)
         == Head(d) + params + ":" + Block(d) + rest
  {
    var s := Head(d) + params + ":\n" + ws + TQ + x + TQ + "\n" + rest;
    var c := |Head(d)| + |params|;
    var e := c + |ws| + |x| + 9;
    ReplacesNextText(Head(d), params, ws, x, rest, s, c, e);
    WriteAtFirstBlock(s, d, c, e, Head(d) + params + ":", rest);
  }

  /** The rewrite of a one-line docstring in the package's own test; the texts
      are those of the test, cut into the pieces `WriteReplacesNext` names. */
  lemma {:induction false} TestWrite()
    ensures WriteDocstring("def test_func" + "()" + ":\n" + "    " + TQ + "This is a test function" + TQ + "\n" + "    pass\n", TestFunc)
      == "def test_func" + "()" + ":" + "\n    " + TQ + "New docstring" + TQ + "\n" + "    pass\n"
  {
    TestWriteParts();
    WriteReplacesNext(TestFunc, "()", "    ", "This is a test function", "    pass\n");
    BlockSplice("def test_func" + "()" + ":", TestFunc);
  }

  lemma {:induction false} TestWriteParts()
    ensures Head(TestFunc) == "def test_func" && DocText(TestFunc) == "New docstring"
    ensures forall j :: 0 <= j < |"()"| ==> "()"[j] != ':'
    ensures forall j :: 0 <= j < |"    "| ==> IsWhitespace("    "[j])
    ensures forall j :: 0 <= j < |"This is a test function"| ==> "This is a test function"[j] != '"'
  {
  }

  const TestFunc := AutoDefinition(Function, "test_func", Some("New docstring"), Some(2), Some(2))

  /** The positions in a text whose first header colon is not followed by a
      docstring block. */
  lemma {:induction false} InsertText(h: string, params: string, ws1: string, ch: char, more: string, s: string, c: nat)
    requires forall j :: 0 <= j < |params| ==> params[j] != ':'
    requires forall j :: 0 <= j < |ws1| ==> IsWhitespace(ws1[j])
    requires !IsWhitespace(ch) && ch != '"'
    requires s == h + params + ":\n" + ws1 + [ch] + more
    requires c == |h| + |params|
    ensures Occurs(s, 0, h) && |h| <= c
    ensures ColonNewline(s, c) && BlockClose(s, c).None?
    ensures forall c': nat :: |h| <= c' < c ==> !ColonNewline(s, c')
    ensures s[..c + 1] == h + params + ":" && s[c + 2..] == ws1 + [ch] + more
  {
    NoBlockAfter(h + params, ws1, ch, more);
    assert s[..c + 1] == h + params + ":";
    assert s[c + 2..] == ws1 + [ch] + more;
    assert s[0..|h|] == h;
    forall c': nat | |h| <= c' < c ensures !ColonNewline(s, c') {
      assert s[c'] == params[c' - |h|];
    }
  }

  /** A colon ending a line, then indentation and a character that can open
      neither more indentation nor the quotes: the docstring part does not
      match there. */
  lemma {:induction false} NoBlockAt(s: string, c: nat, w: nat)
    requires ColonNewline(s, c) && c + 2 <= w < |s|
    requires forall i :: c + 2 <= i < w ==> IsWhitespace(s[i])
    requires !IsWhitespace(s[w]) && s[w] != '"'
    ensures BlockClose(s, c).None?
  {
    SkipWhitespaceTo(s, c + 2, w);
  }

  /** The first line of the text of `WriteCrossesDefinitions`, its body, and
      the second header up to its colon: a colon ending a line only at `c1`. */
  lemma {:induction false} CrossingPrefix(h: string, params: string, ws1: string, ch: char, mid: string,
                       ws: string, x: string, rest: string, s: string, c1: nat, c2: nat)
    requires forall j :: 0 <= j < |params| ==> params[j] != ':'
    requires forall j :: 0 <= j < |ws1| ==> IsWhitespace(ws1[j])
    requires ch != ':'
    requires forall j :: 0 <= j < |mid| ==> mid[j] != ':'
    requires s == h + params + ":\n" + ws1 + [ch] + mid + ":\n" + ws + TQ + x + TQ + "\n" + rest
    requires c1 == |h| + |params| && c2 == c1 + 3 + |ws1| + |mid|
    ensures Occurs(s, 0, h)
    ensures ColonNewline(s, c1) && s[c1 + 2 + |ws1|] == ch
    ensures forall i :: c1 + 2 <= i < c1 + 2 + |ws1| ==> IsWhitespace(s[i])
    ensures forall c': nat :: |h| <= c' < c2 && ColonNewline(s, c') ==> c' == c1
  {
    assert s[0..|h|] == h;
    assert s[c1] == ':' && s[c1 + 1] == '\n' && s[c1 + 2 + |ws1|] == ch;
    forall i | c1 + 2 <= i < c1 + 2 + |ws1| ensures IsWhitespace(s[i]) {
      assert s[i] == ws1[i - c1 - 2];
    }
    forall c': nat | |h| <= c' < c2 && c' != c1 ensures s[c'] != ':' {
      if c' < c1 {
        assert s[c'] == params[c' - |h|];
      } else if c' == c1 + 1 {
        assert s[c'] == '\n';
      } else if c' < c1 + 2 + |ws1| {
        assert s[c'] == ws1[c' - c1 - 2];
      } else if c' == c1 + 2 + |ws1| {
        assert s[c'] == ch;
      } else {
        assert s[c'] == mid[c' - c1 - 3 - |ws1|];
      }
    }
  }

  /** The positions in the text of `WriteCrossesDefinitions`. */
  lemma {:induction false} CrossingText(h: string, params: string, ws1: string, ch: char, mid: string,
                     ws: string, x: string, rest: string, s: string, c2: nat, e: nat)
    requires forall j :: 0 <= j < |params| ==> params[j] != ':'
    requires forall j :: 0 <= j < |ws1| ==> IsWhitespace(ws1[j])
    requires !IsWhitespace(ch) && ch != '"' && ch != ':'
    requires forall j :: 0 <= j < |mid| ==> mid[j] != ':'
    requires forall j :: 0 <= j < |ws| ==> IsWhitespace(ws[j])
    requires forall j :: 0 <= j < |x| ==> x[j] != '"'
    requires s == h + params + ":\n" + ws1 + [ch] + mid + ":\n" + ws + TQ + x + TQ + "\n" + rest
    requires c2 == |h| + |params| + 3 + |ws1| + |mid| && e == c2 + |ws| + |x| + 9
    ensures Occurs(s, 0, h) && |h| <= c2
    ensures ColonNewline(s, c2) && BlockClose(s, c2) == Some(e)
    ensures forall c': nat :: |h| <= c' < c2 && ColonNewline(s, c') ==> BlockClose(s, c').None?
    ensures s[..c2 + 1] == h + params + ":\n" + ws1 + [ch] + mid + ":" && s[e..] == rest
  {
    var p2 := h + params + ":\n" + ws1 + [ch] + mid;
    var c1 := |h| + |params|;
    assert |p2| == c2;
    BlockAfter(p2, ws, x, rest, s);
    BlockAfterCut(p2, ws, x, rest, s);
    CrossingPrefix(h, params, ws1, ch, mid, ws, x, rest, s, c1, c2);
    NoBlockAt(s, c1, c1 + 2 + |ws1|);
  }

  /** As written, the lazy `.*?:` under DOTALL runs past a header whose colon
      is not followed by a docstring, through the body, to the colon of a later
      header that has one: the docstring of `d` replaces that later
      docstring, and the header of `d` gets none. */
  lemma {:induction false} WriteCrossesDefinitions(d: AutoDefinition, params: string, ws1: string, ch: char, mid: string,
                                ws: string, x: string, rest: string)
    requires forall j :: 0 <= j < |params| ==> params[j] != ':'
    requires forall j :: 0 <= j < |ws1| ==> IsWhitespace(ws1[j])
    requires !IsWhitespace(ch) && ch != '"' && ch != ':'
    requires forall j :: 0 <= j < |mid| ==> mid[j] != ':'
    requires forall j :: 0 <= j < |ws| ==> IsWhitespace(ws[j])
    requires forall j :: 0 <= j < |x| ==> x[j] != '"'
    ensures WriteDocstring(Head(d) + params + ":\n" + ws1 + [ch] + mid + ":\n" + ws + TQ + x + TQ + "\n" + rest, d)
         == Head(d) + params + ":\n" + ws1 + [ch] + mid + ":" + Block(d) + rest
  {
    var s := Head(d) + params + ":\n" + ws1 + [ch] + mid + ":\n" + ws + TQ + x + TQ + "\n" + rest;
    var c2 := |Head(d)| + |params| + 3 + |ws1| + |mid|;
    var e := c2 + |ws| + |x| + 9;
    CrossingText(Head(d), params, ws1, ch, mid, ws, x, rest, s, c2, e);
    WriteAtFirstBlock(s, d, c2, e, Head(d) + params + ":\n" + ws1 + [ch] + mid + ":", rest);
  }

  /** The text of the finding: `def a():`, a one-line body, then `def b():`
      with its docstring. */
  const Crossing: string := "def a" + "()" + ":\n" + "    " + ['p'] + "ass\ndef b()" + ":\n" + "    " + TQ + "b" + TQ + "\n" + ""

  /** The definition the finding writes: `a` with docstring `a`. */
  const DefA := AutoDefinition(Function, "a", Some("a"), None, None)

  lemma {:induction false} CrossingParts()
    ensures Head(DefA) == "def a" && DocText(DefA) == "a"
    ensures forall j :: 0 <= j < |"()"| ==> "()"[j] != ':'
    ensures forall j :: 0 <= j < |"    "| ==> IsWhitespace("    "[j])
    ensures !IsWhitespace('p')
    ensures forall j :: 0 <= j < |"ass\ndef b()"| ==> "ass\ndef b()"[j] != ':'
    ensures forall j :: 0 <= j < |"b"| ==> "b"[j] != '"'
  {
  }

  /** On that text `a`'s new docstring lands under `def b():`. */
  lemma {:induction false} WriteCrossesExample()
    ensures WriteDocstring(Crossing, DefA)
      == "def a" + "()" + ":\n" + "    " + ['p'] + "ass\ndef b()" + ":" + "\n    " + TQ + "a" + TQ + "\n" + ""
  {
    CrossingParts();
    WriteCrossesDefinitions(DefA, "()", "    ", 'p', "ass\ndef b()", "    ", "b", "");
    BlockSplice("def a" + "()" + ":\n" + "    " + ['p'] + "ass\ndef b()" + ":", DefA);
  }

  /** The first `:` followed by a newline at or after `c`. */
  function FirstColonFrom(s: string, c: nat): (r: Option<nat>)
    ensures r.Some? ==> c <= r.value && ColonNewline(s, r.value)
    decreases |s| - c
  {
    if c + 1 >= |s| then None
    else if ColonNewline(s, c) then Some(c)
    else FirstColonFrom(s, c + 1)
  }

  lemma {:induction false} FirstColonFromSpec(s: string, c0: nat, c: nat)
    ensures FirstColonFrom(s, c0) == Some(c) <==>
      c0 <= c && ColonNewline(s, c) && forall c' :: c0 <= c' < c ==> !ColonNewline(s, c')
    decreases |s| - c0
  {
    if c0 + 1 < |s| && !ColonNewline(s, c0) {
      FirstColonFromSpec(s, c0 + 1, c);
    }
  }

  /** The header `<type> <name>` at `i` ends with its own colon at `c`: the
      first `:` followed by a newline after the name. */
  ghost predicate HeaderColonAt(s: string, h: string, i: nat, c: nat) {
    Occurs(s, i, h) && i + |h| <= c && ColonNewline(s, c) && forall c' :: i + |h| <= c' < c ==> !ColonNewline(s, c')
  }

  /** The leftmost header from `i` on, with its colon. */
  function HeaderSearch(s: string, h: string, i: nat): (r: Option<(nat, nat)>)
    ensures r.Some? ==> i <= r.value.0 && Occurs(s, r.value.0, h)
    ensures r.Some? ==> FirstColonFrom(s, r.value.0 + |h|) == Some(r.value.1)
    decreases |s| - i
  {
    if i + |h| > |s| then None
    else if Occurs(s, i, h) && FirstColonFrom(s, i + |h|).Some? then Some((i, FirstColonFrom(s, i + |h|).value))
    else HeaderSearch(s, h, i + 1)
  }

  lemma {:induction false} HeaderSearchFirst(s: string, h: string, i: nat)
    ensures HeaderSearch(s, h, i).Some? ==> HeaderColonAt(s, h, HeaderSearch(s, h, i).value.0, HeaderSearch(s, h, i).value.1)
    ensures HeaderSearch(s, h, i).Some? ==>
      forall j: nat, c: nat :: i <= j < HeaderSearch(s, h, i).value.0 ==> !HeaderColonAt(s, h, j, c)
    ensures HeaderSearch(s, h, i).None? ==> forall j: nat, c: nat :: i <= j ==> !HeaderColonAt(s, h, j, c)
    decreases |s| - i
  {
    if i + |h| <= |s| {
      forall c: nat ensures HeaderColonAt(s, h, i, c) <==> Occurs(s, i, h) && FirstColonFrom(s, i + |h|) == Some(c) {
        FirstColonFromSpec(s, i + |h|, c);
      }
      if !(Occurs(s, i, h) && FirstColonFrom(s, i + |h|).Some?) {
        HeaderSearchFirst(s, h, i + 1);
      }
    }
  }

  /** The writer as evidently intended: find the header by its own colon, then
      replace the docstring block right after it if there is one, and insert a
      block there otherwise. */
  function WriteDocstringFixed(s: string, d: AutoDefinition): string {
    match HeaderSearch(s, Head(d), 0)
    case None => s
    case Some(m) => WriteAtColon(s, d, m.1)
  }

  /** The rewrite at the header's colon `c`: the block right after it is
      replaced when there is one, and a block is inserted otherwise. */
  function WriteAtColon(s: string, d: AutoDefinition, c: nat): string
    requires ColonNewline(s, c)
  {
    match BlockClose(s, c)
    case Some(e) => s[..c + 1] + Block(d) + s[e..]
    case None => s[..c + 1] + Block(d) + s[c + 2..]
  }

  /** The corrected writer rewrites at the leftmost header's own colon: the
      block right after it when there is one, or nothing, and keeps the rest. */
  lemma {:induction false} WriteFixedSpec(s: string, d: AutoDefinition, i: nat, c: nat)
    requires HeaderColonAt(s, Head(d), i, c)
    requires forall j: nat, c': nat :: j < i ==> !HeaderColonAt(s, Head(d), j, c')
    ensures BlockClose(s, c).Some? ==> WriteDocstringFixed(s, d) == s[..c + 1] + Block(d) + s[BlockClose(s, c).value..]
    ensures BlockClose(s, c).None? ==> WriteDocstringFixed(s, d) == s[..c + 1] + Block(d) + s[c + 2..]
  {
    HeaderSearchAt(s, Head(d), i, c);
    WriteFixedFound(s, d, i, c);
  }

  /** The corrected writer once the search has found the colon at `c`. */
  lemma WriteFixedFound(s: string, d: AutoDefinition, i: nat, c: nat)
    requires HeaderSearch(s, Head(d), 0) == Some((i, c))
    ensures BlockClose(s, c).Some? ==> WriteDocstringFixed(s, d) == s[..c + 1] + Block(d) + s[BlockClose(s, c).value..]
    ensures BlockClose(s, c).None? ==> WriteDocstringFixed(s, d) == s[..c + 1] + Block(d) + s[c + 2..]
  {
    assert WriteDocstringFixed(s, d) == WriteAtColon(s, d, c);
  }

  /** The search stops at the leftmost header and at its own colon. */
  lemma {:induction false} HeaderSearchAt(s: string, h: string, i: nat, c: nat)
    requires HeaderColonAt(s, h, i, c)
    requires forall j: nat, c': nat :: j < i ==> !HeaderColonAt(s, h, j, c')
    ensures HeaderSearch(s, h, 0) == Some((i, c))
  {
    HeaderSearchFirst(s, h, 0);
    var m := HeaderSearch(s, h, 0).value;
    assert HeaderColonAt(s, h, m.0, m.1);
    assert m.0 == i;
    FirstColonFromSpec(s, i + |h|, c);
  }

  /** Where the header's own colon is followed by a docstring, the two
      writers agree. */
  lemma {:induction false} WriteFixedAgrees(s: string, d: AutoDefinition, i: nat, c: nat)
    requires HeaderColonAt(s, Head(d), i, c) && BlockClose(s, c).Some?
    requires forall j: nat :: j < i ==> !Occurs(s, j, Head(d))
    ensures WriteDocstringFixed(s, d) == WriteDocstring(s, d)
  {
    WriteFixedSpec(s, d, i, c);
    WriteExisting(s, d, i, c);
  }

  /** The corrected writer on a header whose colon is not followed by a
      docstring inserts one right there, keeping the body and every later
      docstring. */
  lemma {:induction false} WriteFixedInserts(d: AutoDefinition, params: string, ws1: string, ch: char, more: string)
    requires forall j :: 0 <= j < |params| ==> params[j] != ':'
    requires forall j :: 0 <= j < |ws1| ==> IsWhitespace(ws1[j])
    requires !IsWhitespace(ch) && ch != '"'
    ensures WriteDocstringFixed(Head(d) + params + ":\n" + ws1 + [ch] + more, d)
         == Head(d) + params + ":" + Block(d) + ws1 + [ch] + more
  {
    var s := Head(d) + params + ":\n" + ws1 + [ch] + more;
    var c := |Head(d)| + |params|;
    InsertText(Head(d), params, ws1, ch, more, s, c);
    var pre := Head(d) + params + ":";
    WriteFixedAtColon(s, d, c, pre, ws1 + [ch] + more);
    Assoc(pre + Block(d), ws1 + [ch], more);
    Assoc(pre + Block(d), ws1, [ch]);
  }

  /** The corrected writer on a header whose first colon is not followed by a
      docstring block inserts the block right after that colon. */
  lemma {:induction false} WriteFixedAtColon(s: string, d: AutoDefinition, c: nat, pre: string, post: string)
    requires Occurs(s, 0, Head(d)) && |Head(d)| <= c
    requires ColonNewline(s, c) && BlockClose(s, c).None?
    requires forall c': nat :: |Head(d)| <= c' < c ==> !ColonNewline(s, c')
    requires s[..c + 1] == pre && s[c + 2..] == post
    ensures WriteDocstringFixed(s, d) == pre + Block(d) + post
  {
    WriteFixedSpec(s, d, 0, c);
  }

  /** A header with a parameter list, then a docstring block on the next
      lines: the corrected writer, like the one as written, replaces the
      block and keeps all the text after it. */
  lemma {:induction false} WriteFixedReplacesNext(d: AutoDefinition, params: string, ws: string, x: string, rest: string)
    requires forall j :: 0 <= j < |params| ==> params[j] != ':'
    requires forall j :: 0 <= j < |ws| ==> IsWhitespace(ws[j])
    requires forall j :: 0 <= j < |x| ==> x[j] != '"'
    ensures WriteDocstringFixed(Head(d) + params + ":\n" + ws + TQ + x + TQ + "\n" + rest, d)
         == Head(d) + params + ":" + Block(d) + rest
  {
    var s := Head(d) + params + ":\n" + ws + TQ + x + TQ + "\n" + rest;
    var c := |Head(d)| + |params|;
    var e := c + |ws| + |x| + 9;
    ReplacesNextText(Head(d), params, ws, x, rest, s, c, e);
    HeaderPrefix(Head(d), params, s);
    assert HeaderColonAt(s, Head(d), 0, c);
    WriteFixedAgrees(s, d, 0, c);
    WriteReplacesNext(d, params, ws, x, rest);
  }

  /** The package's write test holds for the corrected writer too. */
  lemma {:induction false} TestWriteFixed()
    ensures WriteDocstringFixed("def test_func" + "()" + ":\n" + "    " + TQ + "This is a test function" + TQ + "\n" + "    pass\n", TestFunc)
      == "def test_func" + "()" + ":" + "\n    " + TQ + "New docstring" + TQ + "\n" + "    pass\n"
  {
    TestWriteParts();
    WriteFixedReplacesNext(TestFunc, "()", "    ", "This is a test function", "    pass\n");
    BlockSplice("def test_func" + "()" + ":", TestFunc);
  }

  /** On the text of the finding, the corrected writer gives `a` its docstring
      and keeps `b`'s. */
  lemma {:induction false} WriteFixedExample()
    ensures WriteDocstringFixed(Crossing, DefA)
      == "def a" + "()" + ":" + "\n    " + TQ + "a" + TQ + "\n" + "    " + ['p'] + ("ass\ndef b()" + ":\n" + "    " + TQ + "b" + TQ + "\n" + "")
  {
    CrossingParts();
    var more := "ass\ndef b()" + ":\n" + "    " + TQ + "b" + TQ + "\n" + "";
    CrossingRegrouped(more);
    WriteFixedInserts(DefA, "()", "    ", 'p', more);
    BlockSplice("def a" + "()" + ":", DefA);
  }

  lemma {:induction false} CrossingRegrouped(more: string)
    requires more == "ass\ndef b()" + ":\n" + "    " + TQ + "b" + TQ + "\n" + ""
    ensures Crossing == "def a" + "()" + ":\n" + "    " + ['p'] + more
  {
  }
}
