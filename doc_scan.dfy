/** The definition scanner of gpt4docs (`File._scan_for_definitions`).

    The source finds definitions with one multi-line regular expression over
    the whole text. Here the text is its list of lines (`Strings.Split`) and the
    expression is restated as line-level recognisers:
    - a header starts on a line holding the token `\b(def|class) ` and runs to
      the first line, at or after it, that ends in `:` (`[\s\S]*?:$`);
    - the greedy `^.*` in front of the token makes the LAST token on the line
      decide kind and name; the name is the run of word characters after it;
    - after the header, empty lines are skipped (`\n*`); if the next line is
      spaces followed by `"""`, the docstring is everything up to the next
      `"""` (`[\s\S]*?`), possibly on a later line;
    - matches do not overlap: scanning resumes on the line after the last line
      a match touched. */
module DocScan {

  import opened Wrappers
  import opened Strings
  import opened PyDefinition
  import opened DefinitionTable

  /** The token `\b<keyword> ` starts at column `p` of `s`. */
  predicate TokenAt(s: string, p: nat, k: Kind) {
    var kw := Keyword(k);
    p + |kw| + 1 <= |s| && s[p..p + |kw|] == kw && s[p + |kw|] == ' '
    && (p == 0 || !IsWordChar(s[p - 1]))
  }

  /** The last header token starting before column `k`. */
  function LastToken(s: string, k: nat): (r: Option<(Kind, nat)>)
    requires k <= |s|
    ensures r.Some? ==> r.value.1 < k && TokenAt(s, r.value.1, r.value.0)
    ensures r.Some? ==> forall q, kd :: r.value.1 < q < k ==> !TokenAt(s, q, kd)
    ensures r.None? ==> forall q, kd :: 0 <= q < k ==> !TokenAt(s, q, kd)
    decreases k
  {
    if k == 0 then None
    else if TokenAt(s, k - 1, Class) then Some((Class, k - 1))
    else if TokenAt(s, k - 1, Function) then Some((Function, k - 1))
    else LastToken(s, k - 1)
  }

  predicate EndsWithColon(s: string) {
    |s| > 0 && s[|s| - 1] == ':'
  }

  /** The first line at or after `i` that ends in a colon (`[\s\S]*?:$`). */
  function HeaderEnd(L: seq<string>, i: nat): (r: Option<nat>)
    requires i <= |L|
    ensures r.Some? ==> i <= r.value < |L| && EndsWithColon(L[r.value])
    ensures r.Some? ==> forall t :: i <= t < r.value ==> !EndsWithColon(L[t])
    ensures r.None? ==> forall t :: i <= t < |L| ==> !EndsWithColon(L[t])
    decreases |L| - i
  {
    if i == |L| then None
    else if EndsWithColon(L[i]) then Some(i)
    else HeaderEnd(L, i + 1)
  }

  /** A recognised header: its kind, its name and the line holding its colon. */
  datatype Header = Header(kind: Kind, name: string, last: nat)

  /** The header the scan finds when a match starts on line `i`. */
  function HeaderAt(L: seq<string>, i: nat): (r: Option<Header>)
    requires i < |L|
    ensures r.Some? <==> LastToken(L[i], |L[i]|).Some? && HeaderEnd(L, i).Some?
    ensures r.Some? ==> r.value.last == HeaderEnd(L, i).value
    ensures r.Some? ==> r.value.kind == LastToken(L[i], |L[i]|).value.0
    ensures r.Some? ==> forall c :: 0 <= c < |r.value.name| ==> IsWordChar(r.value.name[c])
  {
    match LastToken(L[i], |L[i]|)
    case None => None
    case Some(tok) =>
      match HeaderEnd(L, i)
      case None => None
      case Some(j) =>
        var after := L[i][tok.1 + |Keyword(tok.0)| + 1..];
        Some(Header(tok.0, after[..WordPrefixLength(after)], j))
  }

  /** A line and column in the list of lines. */
  datatype Pos = Pos(line: nat, col: nat)

  /** The opening and closing `"""` of a docstring block. */
  datatype DocBlock = DocBlock(open: Pos, close: Pos)

  /** The first line at or after `j` that is not empty: `\n*` skips empty lines. */
  function SkipEmpty(L: seq<string>, j: nat): (m: nat)
    requires j <= |L|
    ensures j <= m <= |L|
    ensures forall t :: j <= t < m ==> L[t] == ""
    ensures m < |L| ==> L[m] != ""
    decreases |L| - j
  {
    if j == |L| || L[j] != "" then j else SkipEmpty(L, j + 1)
  }

  /** No `"""` starts between column `from` of line `k` and position `p`. */
  ghost predicate NoTQBefore(L: seq<string>, k: nat, from: nat, p: Pos) {
    forall t, c :: k <= t <= p.line && t < |L| && 0 <= c && (t == k ==> from <= c) && (t == p.line ==> c < p.col)
      ==> !TQAt(L[t], c)
  }

  /** No `"""` starts at or after column `from` of line `k`. */
  ghost predicate NoTQFrom(L: seq<string>, k: nat, from: nat) {
    forall t, c :: k <= t < |L| && 0 <= c && (t == k ==> from <= c) ==> !TQAt(L[t], c)
  }

  /** The first `"""` at or after column `from` of line `k` (`[\s\S]*?"""`). */
  function FindClose(L: seq<string>, k: nat, from: nat): (r: Option<Pos>)
    requires k <= |L|
    ensures r.Some? ==> k <= r.value.line < |L| && TQAt(L[r.value.line], r.value.col)
    ensures r.Some? && r.value.line == k ==> from <= r.value.col
    ensures r.Some? ==> NoTQBefore(L, k, from, r.value)
    ensures r.None? ==> NoTQFrom(L, k, from)
    decreases |L| - k
  {
    if k == |L| then None
    else
      match FindTQ(L[k], from)
      case Some(c) => Some(Pos(k, c))
      case None => FindClose(L, k + 1, 0)
  }

  /** The docstring block that follows a header ending on line `j`, if any
      (`( *"""(?P<docstring>[\s\S]*?)"""\n*)?`). */
  function FindDocBlock(L: seq<string>, j: nat): (r: Option<DocBlock>)
    requires j < |L|
    ensures r.Some? ==> r.value.open.line == SkipEmpty(L, j + 1) < |L|
    ensures r.Some? ==> r.value.open.col == LeadingSpaces(L[r.value.open.line])
    ensures r.Some? ==> TQAt(L[r.value.open.line], r.value.open.col)
    ensures r.Some? ==> FindClose(L, r.value.open.line, r.value.open.col + 3) == Some(r.value.close)
    ensures r.None? ==> var m := SkipEmpty(L, j + 1);
      m == |L| || !TQAt(L[m], LeadingSpaces(L[m])) || FindClose(L, m, LeadingSpaces(L[m]) + 3).None?
  {
    var m := SkipEmpty(L, j + 1);
    if m < |L| && TQAt(L[m], LeadingSpaces(L[m])) then
      match FindClose(L, m, LeadingSpaces(L[m]) + 3)
      case None => None
      case Some(p) => Some(DocBlock(Pos(m, LeadingSpaces(L[m])), p))
    else None
  }

  /** The positions of a block lie in `L` and the closing quotes follow the opening ones. */
  ghost predicate BlockIn(L: seq<string>, b: DocBlock) {
    b.open.line <= b.close.line < |L|
    && TQAt(L[b.open.line], b.open.col) && TQAt(L[b.close.line], b.close.col)
    && (b.open.line == b.close.line ==> b.open.col + 3 <= b.close.col)
  }

  lemma FoundBlockIn(L: seq<string>, j: nat)
    requires j < |L| && FindDocBlock(L, j).Some?
    ensures BlockIn(L, FindDocBlock(L, j).value)
    ensures FindDocBlock(L, j).value.open.line > j
  {
  }

  /** The text between the opening and the closing quotes of a block. */
  function Interior(L: seq<string>, b: DocBlock): string
    requires BlockIn(L, b)
  {
    var m := b.open.line;
    var k := b.close.line;
    if m == k then L[m][b.open.col + 3..b.close.col]
    else Join([L[m][b.open.col + 3..]] + L[m + 1..k] + [L[k][..b.close.col]])
  }

  /** One match of the scan: where it starts, its header, its docstring block. */
  datatype Found = Found(line: nat, header: Header, block: Option<DocBlock>, docstring: Option<string>)

  /** The last line a match touches. */
  function LastLine(f: Found): nat {
    if f.block.Some? then f.block.value.close.line else f.header.last
  }

  /** The match that starts on line `i`, if one does. */
  function FoundAt(L: seq<string>, i: nat): (r: Option<Found>)
    requires i < |L|
    ensures r.Some? ==> r.value.line == i && i <= LastLine(r.value) < |L|
  {
    match HeaderAt(L, i)
    case None => None
    case Some(h) =>
      var b := FindDocBlock(L, h.last);
      if b.Some? then
        FoundBlockIn(L, h.last);
        Some(Found(i, h, b, Some(Interior(L, b.value))))
      else Some(Found(i, h, None, None))
  }

  /** A match starts on a line exactly when a header is recognised there; its
      docstring is present exactly when a docstring block follows the header,
      and is then the interior of that block. */
  lemma FoundAtSpec(L: seq<string>, i: nat)
    requires i < |L|
    ensures FoundAt(L, i).Some? <==> HeaderAt(L, i).Some?
    ensures FoundAt(L, i).Some? ==> var f := FoundAt(L, i).value;
      && f.header == HeaderAt(L, i).value
      && f.block == FindDocBlock(L, f.header.last)
      && (f.docstring.None? <==> f.block.None?)
      && (f.block.Some? ==> BlockIn(L, f.block.value) && f.docstring == Some(Interior(L, f.block.value)))
  {
    if HeaderAt(L, i).Some? && FindDocBlock(L, HeaderAt(L, i).value.last).Some? {
      FoundBlockIn(L, HeaderAt(L, i).value.last);
    }
  }

  /** The match that would start on each line, were the scan to reach it. */
  function Candidates(L: seq<string>): (cs: seq<Option<Found>>)
    ensures |cs| == |L|
    ensures forall h :: 0 <= h < |L| ==> cs[h] == FoundAt(L, h)
    ensures Steps(cs)
  {
    seq(|L|, h requires 0 <= h < |L| => FoundAt(L, h))
  }

  /** A candidate on line `x` starts on `x` and ends on a line of the text. */
  ghost predicate Steps(cs: seq<Option<Found>>) {
    forall x :: 0 <= x < |cs| && cs[x].Some? ==> cs[x].value.line == x && x <= LastLine(cs[x].value) < |cs|
  }

  /** The matches taken from line `i` on: a candidate is taken, and the scan
      resumes after its last line; a line without one is passed over. */
  function MatchesFrom(cs: seq<Option<Found>>, i: nat): seq<Found>
    requires Steps(cs) && i <= |cs|
    decreases |cs| - i
  {
    if i == |cs| then []
    else if cs[i].None? then MatchesFrom(cs, i + 1)
    else [cs[i].value] + MatchesFrom(cs, LastLine(cs[i].value) + 1)
  }

  /** `re.finditer(re_definitions, content)`. */
  function Matches(L: seq<string>): seq<Found> {
    MatchesFrom(Candidates(L), 0)
  }

  /** Every match in `ms` is the candidate of its own line, at or after `i`. */
  ghost predicate Sound(cs: seq<Option<Found>>, i: nat, ms: seq<Found>) {
    forall t :: 0 <= t < |ms| ==> i <= ms[t].line < |cs| && cs[ms[t].line] == Some(ms[t])
  }

  /** The matches come in text order and do not overlap. */
  ghost predicate Ordered(ms: seq<Found>) {
    forall t :: 0 <= t < |ms| - 1 ==> LastLine(ms[t]) < ms[t + 1].line
  }

  /** Line `h` lies strictly inside the span of one of the matches in `ms`. */
  ghost predicate Covered(ms: seq<Found>, h: nat) {
    exists t :: 0 <= t < |ms| && ms[t].line < h <= LastLine(ms[t])
  }

  /** Some match in `ms` starts on line `h`. */
  ghost predicate StartsMatch(ms: seq<Found>, h: nat) {
    exists t :: 0 <= t < |ms| && ms[t].line == h
  }

  /** Every line from `i` on that has a candidate, and that no match in `ms`
      swallowed, starts a match in `ms`. */
  ghost predicate Complete(cs: seq<Option<Found>>, i: nat, ms: seq<Found>) {
    forall h :: i <= h < |cs| && cs[h].Some? && !Covered(ms, h) ==> StartsMatch(ms, h)
  }

  lemma {:induction false} MatchesFromSound(cs: seq<Option<Found>>, i: nat)
    requires Steps(cs) && i <= |cs|
    ensures Sound(cs, i, MatchesFrom(cs, i))
    decreases |cs| - i
  {
    if i < |cs| {
      if cs[i].None? {
        MatchesFromSound(cs, i + 1);
      } else {
        var next := LastLine(cs[i].value) + 1;
        MatchesFromSound(cs, next);
        var ms := MatchesFrom(cs, i);
        forall t | 0 <= t < |ms| ensures i <= ms[t].line < |cs| && cs[ms[t].line] == Some(ms[t]) {
          if t > 0 {
            assert ms[t] == MatchesFrom(cs, next)[t - 1];
          }
        }
      }
    }
  }

  lemma {:induction false} MatchesFromOrdered(cs: seq<Option<Found>>, i: nat)
    requires Steps(cs) && i <= |cs|
    ensures Ordered(MatchesFrom(cs, i))
    decreases |cs| - i
  {
    if i < |cs| {
      if cs[i].None? {
        MatchesFromOrdered(cs, i + 1);
      } else {
        var next := LastLine(cs[i].value) + 1;
        MatchesFromOrdered(cs, next);
        MatchesFromSound(cs, next);
        var rest := MatchesFrom(cs, next);
        var ms := MatchesFrom(cs, i);
        forall t | 0 <= t < |ms| - 1 ensures LastLine(ms[t]) < ms[t + 1].line {
          assert ms[t + 1] == rest[t];
          if t > 0 {
            assert ms[t] == rest[t - 1];
          }
        }
      }
    }
  }

  lemma CoveredCons(f: Found, rest: seq<Found>, h: nat)
    requires Covered(rest, h)
    ensures Covered([f] + rest, h)
  {
    var t :| 0 <= t < |rest| && rest[t].line < h <= LastLine(rest[t]);
    assert ([f] + rest)[t + 1] == rest[t];
  }

  lemma {:induction false} MatchesFromComplete(cs: seq<Option<Found>>, i: nat)
    requires Steps(cs) && i <= |cs|
    ensures Complete(cs, i, MatchesFrom(cs, i))
    decreases |cs| - i
  {
    if i < |cs| {
      var ms := MatchesFrom(cs, i);
      if cs[i].None? {
        MatchesFromComplete(cs, i + 1);
      } else {
        var next := LastLine(cs[i].value) + 1;
        MatchesFromComplete(cs, next);
        var rest := MatchesFrom(cs, next);
        forall h | i <= h < |cs| && cs[h].Some? && !Covered(ms, h)
          ensures StartsMatch(ms, h)
        {
          if h == i {
            assert ms[0].line == h;
          } else {
            assert !(ms[0].line < h <= LastLine(ms[0]));
            if Covered(rest, h) {
              CoveredCons(cs[i].value, rest, h);
            }
            var t :| 0 <= t < |rest| && rest[t].line == h;
            assert ms[t + 1].line == h;
          }
        }
      }
    }
  }

  /** The scan is sound, ordered and complete: every match is the match
      recognised on its own line; matches come in text order without
      overlapping, so lines inside a captured docstring are never examined
      as headers; and every header line that no earlier match swallowed gives
      a match, so there is one match per header. */
  lemma MatchesSpec(L: seq<string>)
    ensures forall t :: 0 <= t < |Matches(L)| ==>
      Matches(L)[t].line < |L| && FoundAt(L, Matches(L)[t].line) == Some(Matches(L)[t])
    ensures Ordered(Matches(L))
    ensures forall h :: 0 <= h < |L| && FoundAt(L, h).Some? && !Covered(Matches(L), h) ==>
      StartsMatch(Matches(L), h)
  {
    var cs := Candidates(L);
    MatchesFromSound(cs, 0);
    MatchesFromOrdered(cs, 0);
    MatchesFromComplete(cs, 0);
  }

  function DefinitionOf(f: Found): Definition {
    Definition(f.header.kind, f.header.name, f.docstring)
  }

  function DefinitionsOf(ms: seq<Found>): (r: seq<Definition>)
    ensures |r| == |ms|
    ensures forall t :: 0 <= t < |ms| ==> r[t] == DefinitionOf(ms[t])
  {
    seq(|ms|, t requires 0 <= t < |ms| => DefinitionOf(ms[t]))
  }

  /** The mapping `_scan_for_definitions` returns. */
  function ScanDefs(L: seq<string>): Table<Definition> {
    FromSeq(DefinitionsOf(Matches(L)))
  }

  /** Some match in `ms` has a header called `n`. */
  ghost predicate MatchNamed(ms: seq<Found>, n: string) {
    exists t :: 0 <= t < |ms| && ms[t].header.name == n
  }

  /** `ms[t]` is the last match in `ms` whose header is called `n`. */
  ghost predicate LastMatchNamed(ms: seq<Found>, t: int, n: string) {
    0 <= t < |ms| && ms[t].header.name == n && forall t' :: t < t' < |ms| ==> ms[t'].header.name != n
  }

  /** The entry for `n` in `table` is the definition of the last match called `n`. */
  ghost predicate FromLastMatch(ms: seq<Found>, table: Table<Definition>, n: string)
    requires n in table.entries
  {
    exists t :: LastMatchNamed(ms, t, n) && table.entries[n] == DefinitionOf(ms[t])
  }

  lemma CollectKeys(ms: seq<Found>)
    ensures Valid(FromSeq(DefinitionsOf(ms)))
    ensures forall n :: n in FromSeq(DefinitionsOf(ms)).entries <==> MatchNamed(ms, n)
  {
    var ds := DefinitionsOf(ms);
    FromSeqKeys(ds);
    forall n ensures Named(ds, n) <==> MatchNamed(ms, n) {
      if Named(ds, n) {
        var k :| 0 <= k < |ds| && ds[k].name == n;
        assert ms[k].header.name == n;
      }
      if MatchNamed(ms, n) {
        var k :| 0 <= k < |ms| && ms[k].header.name == n;
        assert ds[k].name == n;
      }
    }
  }

  lemma CollectLastWins(ms: seq<Found>)
    ensures forall n :: n in FromSeq(DefinitionsOf(ms)).entries ==> FromLastMatch(ms, FromSeq(DefinitionsOf(ms)), n)
  {
    var ds := DefinitionsOf(ms);
    var table := FromSeq(ds);
    FromSeqLastWins(ds);
    forall n | n in table.entries ensures FromLastMatch(ms, table, n) {
      var k :| LastNamed(ds, k, n) && table.entries[n] == ds[k];
      assert ds[k] == DefinitionOf(ms[k]);
      forall t' | k < t' < |ms| ensures ms[t'].header.name != n {
        assert ds[t'].name == ms[t'].header.name;
      }
      assert LastMatchNamed(ms, k, n);
    }
  }

  /** The scan result holds one entry per distinct name among the matches. */
  lemma ScanDefsKeys(L: seq<string>)
    ensures Valid(ScanDefs(L))
    ensures forall n :: n in ScanDefs(L).entries <==> MatchNamed(Matches(L), n)
  {
    CollectKeys(Matches(L));
  }

  /** For a name found several times, the entry is the definition recognised
      at the later match: its kind, name and docstring. */
  lemma ScanDefsLastWins(L: seq<string>)
    ensures forall n :: n in ScanDefs(L).entries ==> FromLastMatch(Matches(L), ScanDefs(L), n)
  {
    var ms := Matches(L);
    CollectLastWins(ms);
    assert ScanDefs(L) == FromSeq(DefinitionsOf(ms));
  }

  /** `_scan_for_definitions`: a loop over the matches filling the table. */
  method ScanForDefinitions(L: seq<string>) returns (defs: Table<Definition>)
    ensures defs == ScanDefs(L)
  {
    var ms := Matches(L);
    var ds := DefinitionsOf(ms);
    defs := Empty();
    for t := 0 to |ms|
      invariant defs == FromSeq(ds[..t])
    {
      assert ds[..t + 1][..t] == ds[..t];
      defs := Put(defs, ms[t].header.name, DefinitionOf(ms[t]));
    }
    assert ds[..|ms|] == ds;
  }
}
