/** The docstring writer of gpt4docs (`File._handle_indentation` and
    `File._write_docstring`).

    The writer looks up the first header of the requested kind whose name
    follows the keyword (the name is matched as a literal prefix, exactly as
    the source's pattern does), keeps the header, drops the empty lines and
    the docstring block that follow it, and puts the delimited docstring in
    their place, indented four columns deeper than the header's first line. */
module DocWrite {

  import opened Wrappers
  import opened Strings
  import opened PyDefinition
  import opened DocScan

  // ---------------------------------------------------------------- indentation

  /** The width of a written docstring: four more than the leading spaces of
      the header's first line. */
  function IndentWidth(header: string): (w: nat)
    ensures 4 <= w <= |header| + 4
    ensures forall c :: 0 <= c < w - 4 ==> header[c] == ' '
    ensures w - 4 == |header| || header[w - 4] != ' '
  {
    4 + LeadingSpaces(header)
  }

  /** One line of the indented docstring. */
  function IndentLine(w: nat, line: string): string {
    if IsBlank(line) then ""
    else if StartsWith(line, Spaces(w)) then line
    else Spaces(w) + line
  }

  /** A blank line becomes empty, a line already indented by `w` is kept, any
      other line gets exactly `w` spaces in front; so every result line is
      empty or indented by at least `w`, and ends with the original text. */
  lemma IndentLineSpec(w: nat, line: string)
    ensures IsBlank(line) ==> IndentLine(w, line) == ""
    ensures !IsBlank(line) && StartsWith(line, Spaces(w)) ==> IndentLine(w, line) == line
    ensures !IsBlank(line) && !StartsWith(line, Spaces(w)) ==> IndentLine(w, line) == Spaces(w) + line
    ensures IndentLine(w, line) == "" <==> IsBlank(line)
    ensures IndentLine(w, line) != "" ==> StartsWith(IndentLine(w, line), Spaces(w)) && EndsWith(IndentLine(w, line), line)
  {
    var r := IndentLine(w, line);
    if !IsBlank(line) {
      var i :| 0 <= i < |line| && !IsWhitespace(line[i]);
      assert r != "" by {
        if r == line {
        } else {
          assert r[w + i] == line[i];
        }
      }
      if !StartsWith(line, Spaces(w)) {
        assert (Spaces(w) + line)[..w] == Spaces(w);
        assert (Spaces(w) + line)[w..] == line;
      }
    }
  }

  /** Indenting twice is indenting once. */
  lemma IndentLineIdempotent(w: nat, line: string)
    ensures IndentLine(w, IndentLine(w, line)) == IndentLine(w, line)
  {
    IndentLineSpec(w, line);
    var r := IndentLine(w, line);
    if r != "" {
      IndentLineSpec(w, r);
    } else {
      assert IsBlank(r);
    }
  }

  lemma IndentLineNoNewline(w: nat, line: string)
    requires NoNewline(line)
    ensures NoNewline(IndentLine(w, line))
  {
    if !IsBlank(line) && !StartsWith(line, Spaces(w)) {
      var r := Spaces(w) + line;
      forall i | 0 <= i < |r| ensures r[i] != '\n' {
        if i >= w {
          assert r[i] == line[i - w];
        }
      }
    }
  }

  /** `_handle_indentation` on the lines of a full docstring. */
  function IndentBlock(w: nat, ls: seq<string>): (r: seq<string>)
    ensures |r| == |ls|
    ensures forall t :: 0 <= t < |ls| ==> r[t] == IndentLine(w, ls[t])
  {
    seq(|ls|, t requires 0 <= t < |ls| => IndentLine(w, ls[t]))
  }

  /** Indenting a block twice is indenting it once, and its lines stay free of
      newlines. */
  lemma IndentBlockIdempotent(w: nat, ls: seq<string>)
    ensures IndentBlock(w, IndentBlock(w, ls)) == IndentBlock(w, ls)
  {
    var r := IndentBlock(w, ls);
    forall t | 0 <= t < |ls| ensures IndentBlock(w, r)[t] == r[t] {
      IndentLineIdempotent(w, ls[t]);
    }
  }

  lemma IndentBlockNoNewlines(w: nat, ls: seq<string>)
    requires NoNewlines(ls)
    ensures NoNewlines(IndentBlock(w, ls))
  {
    forall t | 0 <= t < |ls| ensures NoNewline(IndentBlock(w, ls)[t]) {
      IndentLineNoNewline(w, ls[t]);
    }
  }

  /** `_handle_indentation`: the loop over the lines of the full docstring.
      The joined result splits back into the indented lines, one per
      original line. */
  method HandleIndentation(header: string, full: string) returns (block: string)
    ensures Split(block) == IndentBlock(IndentWidth(header), Split(full))
    ensures block == Join(IndentBlock(IndentWidth(header), Split(full)))
  {
    var w := IndentWidth(header);
    var parts := Split(full);
    var indented: seq<string> := [];
    for t := 0 to |parts|
      invariant |indented| == t
      invariant forall s :: 0 <= s < t ==> indented[s] == IndentLine(w, parts[s])
    {
      if IsBlank(parts[t]) {
        indented := indented + [""];
      } else if StartsWith(parts[t], Spaces(w)) {
        indented := indented + [parts[t]];
      } else {
        indented := indented + [Spaces(w) + parts[t]];
      }
    }
    assert indented == IndentBlock(w, parts);
    block := Join(indented);
    IndentBlockNoNewlines(w, parts);
    SplitJoin(indented);
  }

  // ------------------------------------------------------------ finding a header

  /** The token `\b<keyword> ` at column `p` of `s`, followed by `name`. */
  predicate NamedTokenAt(s: string, p: nat, k: Kind, name: string) {
    TokenAt(s, p, k) && StartsWith(s[p + |Keyword(k)| + 1..], name)
  }

  /** A named token starts at or after column `p` of `s`. */
  predicate NamedTokenFrom(s: string, p: nat, k: Kind, name: string)
    decreases |s| - p
  {
    p < |s| && (NamedTokenAt(s, p, k, name) || NamedTokenFrom(s, p + 1, k, name))
  }

  predicate HasNamedToken(s: string, k: Kind, name: string) {
    NamedTokenFrom(s, 0, k, name)
  }

  lemma {:induction false} NamedTokenFromSpec(s: string, p: nat, k: Kind, name: string)
    ensures NamedTokenFrom(s, p, k, name) <==> exists q :: p <= q < |s| && NamedTokenAt(s, q, k, name)
    decreases |s| - p
  {
    if p < |s| {
      NamedTokenFromSpec(s, p + 1, k, name);
      if NamedTokenAt(s, p, k, name) {
        assert p <= p < |s| && NamedTokenAt(s, p, k, name);
      }
      if exists q :: p <= q < |s| && NamedTokenAt(s, q, k, name) {
        var q :| p <= q < |s| && NamedTokenAt(s, q, k, name);
        if q > p {
          assert p + 1 <= q < |s| && NamedTokenAt(s, q, k, name);
        }
      }
    }
  }

  /** The line holds the token `\b<keyword> ` followed by `name` somewhere. */
  lemma HasNamedTokenSpec(s: string, k: Kind, name: string)
    ensures HasNamedToken(s, k, name) <==> exists p :: 0 <= p < |s| && NamedTokenAt(s, p, k, name)
  {
    NamedTokenFromSpec(s, 0, k, name);
  }

  /** A match of the specific pattern starts on line `h`: the line holds the
      named token and some line at or after it ends in a colon. */
  predicate NamedHeaderAt(L: seq<string>, h: nat, k: Kind, name: string)
    requires h < |L|
  {
    HasNamedToken(L[h], k, name) && HeaderEnd(L, h).Some?
  }

  /** `re.search` of the specific pattern from line `i`: the first line that
      starts a match. */
  function FindNamed(L: seq<string>, i: nat, k: Kind, name: string): (r: Option<nat>)
    requires i <= |L|
    ensures r.Some? ==> i <= r.value < |L| && NamedHeaderAt(L, r.value, k, name)
    ensures r.Some? ==> forall t :: i <= t < r.value ==> !NamedHeaderAt(L, t, k, name)
    ensures r.None? ==> forall t :: i <= t < |L| ==> !NamedHeaderAt(L, t, k, name)
    decreases |L| - i
  {
    if i == |L| then None
    else if NamedHeaderAt(L, i, k, name) then Some(i)
    else FindNamed(L, i + 1, k, name)
  }

  /** A line that starts a match and no line before it does is what the search finds. */
  lemma FindNamedFirst(L: seq<string>, h: nat, k: Kind, name: string)
    requires h < |L| && NamedHeaderAt(L, h, k, name)
    requires forall t :: 0 <= t < h ==> !NamedHeaderAt(L, t, k, name)
    ensures FindNamed(L, 0, k, name) == Some(h)
  {
  }

  // ----------------------------------------------------- the text after a match

  /** `r` is what follows text consumed up to the end of a line and the empty
      lines after it: an empty remainder, or one that starts with a non-empty line. */
  ghost predicate Resumes(r: seq<string>) {
    r == [""] || (|r| >= 1 && r[0] != "")
  }

  /** The lines left after `\n*` consumed the line breaks from line `j` on. */
  function RestFrom(L: seq<string>, j: nat): (r: seq<string>)
    requires j <= |L|
    ensures Resumes(r)
    ensures SkipEmpty(L, j) < |L| ==> r == L[SkipEmpty(L, j)..]
    ensures SkipEmpty(L, j) == |L| ==> r == [""]
  {
    var m := SkipEmpty(L, j);
    if m < |L| then L[m..] else [""]
  }

  /** The lines left after a docstring block and the line breaks that follow
      it: the rest of the closing line when text follows the quotes there. */
  function RestAfter(L: seq<string>, b: DocBlock): (r: seq<string>)
    requires BlockIn(L, b)
    ensures Resumes(r)
    ensures b.close.col + 3 < |L[b.close.line]| ==> r == [L[b.close.line][b.close.col + 3..]] + L[b.close.line + 1..]
    ensures b.close.col + 3 == |L[b.close.line]| ==> r == RestFrom(L, b.close.line + 1)
  {
    var k := b.close.line;
    var e := b.close.col + 3;
    if e < |L[k]| then [L[k][e..]] + L[k + 1..] else RestFrom(L, k + 1)
  }

  /** What follows a match whose header ends on line `j`. */
  function Following(L: seq<string>, j: nat): (r: seq<string>)
    requires j < |L|
    ensures Resumes(r)
    ensures FindDocBlock(L, j).None? ==> r == RestFrom(L, j + 1)
    ensures FindDocBlock(L, j).Some? ==> BlockIn(L, FindDocBlock(L, j).value) && r == RestAfter(L, FindDocBlock(L, j).value)
  {
    match FindDocBlock(L, j)
    case None => RestFrom(L, j + 1)
    case Some(b) =>
      FoundBlockIn(L, j);
      RestAfter(L, b)
  }

  /** The empty line a class docstring is followed by. */
  function ClassGap(k: Kind): (r: seq<string>)
    ensures k == Class ==> r == [""]
    ensures k == Function ==> r == []
  {
    if k == Class then [""] else []
  }

  // ------------------------------------------------------------------ writing

  /** `_write_docstring` on the lines of the text: nothing changes without a
      docstring or without a matching header. */
  function WriteDocstring(L: seq<string>, d: Definition): (r: seq<string>)
    ensures d.docstring.None? ==> r == L
    ensures FindNamed(L, 0, d.kind, d.name).None? ==> r == L
  {
    match FullDocstring(d)
    case None => L
    case Some(full) =>
      match FindNamed(L, 0, d.kind, d.name)
      case None => L
      case Some(h) => Insert(L, h, full, d.kind)
  }

  /** The rewrite done on a match at line `h`, with the full docstring `full`. */
  function Insert(L: seq<string>, h: nat, full: string, k: Kind): seq<string>
    requires h < |L| && HeaderEnd(L, h).Some?
  {
    var j := HeaderEnd(L, h).value;
    L[..j + 1] + IndentBlock(IndentWidth(L[h]), Split(full)) + ClassGap(k) + Following(L, j)
  }

  /** On a match at line `h`, the text is rewritten there. */
  lemma WriteDocstringAt(L: seq<string>, d: Definition, h: nat)
    requires d.docstring.Some? && FindNamed(L, 0, d.kind, d.name) == Some(h)
    ensures h <= HeaderEnd(L, h).value < |L|
    ensures WriteDocstring(L, d) == Insert(L, h, FullDocstring(d).value, d.kind)
  {
  }

  /** The rewrite as text: everything up to and including the header (the
      `definition` group), a line break, the indented full docstring, a line
      break, one more for a class, then the text after the old block, whose
      empty lines and docstring are gone. */
  lemma InsertText(L: seq<string>, h: nat, full: string, k: Kind)
    requires h < |L| && HeaderEnd(L, h).Some?
    ensures var j := HeaderEnd(L, h).value;
      var D := IndentBlock(IndentWidth(L[h]), Split(full));
      Join(Insert(L, h, full, k)) == Join(L[..j + 1]) + "\n" + Join(D) + "\n" + (if k == Class then "\n" else "") + Join(Following(L, j))
  {
    var j := HeaderEnd(L, h).value;
    var D := IndentBlock(IndentWidth(L[h]), Split(full));
    var R := Following(L, j);
    assert Insert(L, h, full, k) == L[..j + 1] + D + ClassGap(k) + R;
    SpliceJoin(L[..j + 1], D, k, R);
  }

  /** The text of a header, a docstring block, a gap and a rest. */
  lemma SpliceJoin(P: seq<string>, D: seq<string>, k: Kind, R: seq<string>)
    requires |P| >= 1 && |D| >= 1 && |R| >= 1
    ensures Join(P + D + ClassGap(k) + R) == Join(P) + "\n" + Join(D) + "\n" + (if k == Class then "\n" else "") + Join(R)
  {
    var g := ClassGap(k);
    var m := if k == Class then "\n" else "";
    Assoc4(P, D, g, R);
    JoinAppend(P, D + (g + R));
    JoinAppend(D, g + R);
    if k == Class {
      JoinCons("", R);
      assert g + R == [""] + R;
      assert "" + "\n" + Join(R) == m + Join(R);
    } else {
      assert g + R == R;
      assert Join(R) == m + Join(R);
    }
    JoinRegroup(Join(P), Join(D), m, Join(R));
  }

  /** The joined pieces, regrouped. */
  lemma JoinRegroup(a: string, b: string, m: string, r: string)
    ensures a + "\n" + (b + "\n" + (m + r)) == a + "\n" + b + "\n" + m + r
  {
  }

  // ------------------------------------------------------------ re-rendering

  /** The lines of a full docstring hold exactly two triple quotes: one that
      opens the first line and one that ends the last line (on a single line,
      the two do not overlap). */
  ghost predicate QuotedOnce(F: seq<string>) {
    && |F| >= 1
    && TQAt(F[0], 0)
    && |F[|F| - 1]| >= 3 && TQAt(F[|F| - 1], |F[|F| - 1]| - 3)
    && (|F| == 1 ==> |F[0]| >= 6)
    && forall t, c :: 0 <= t < |F| && TQAt(F[t], c) ==> (t == 0 && c == 0) || (t == |F| - 1 && c == |F[t]| - 3)
  }

  /** A line that does not start with a space is not already indented. */
  lemma IndentLineShift(w: nat, s: string)
    requires w >= 1 && |s| >= 1 && s[0] == '"'
    ensures IndentLine(w, s) == Spaces(w) + s
    ensures LeadingSpaces(Spaces(w) + s) == w
  {
    assert !IsWhitespace(s[0]);
    assert !StartsWith(s, Spaces(w));
    var r := Spaces(w) + s;
    assert r[w] == '"';
  }

  /** Indenting moves triple quotes and creates none. */
  lemma IndentLineQuotes(w: nat, s: string, c: nat)
    requires TQAt(IndentLine(w, s), c)
    ensures (IndentLine(w, s) == s && TQAt(s, c)) || (IndentLine(w, s) == Spaces(w) + s && c >= w && TQAt(s, c - w))
  {
    var r := IndentLine(w, s);
    if r != s {
      assert r == Spaces(w) + s;
      assert r[c] == '"' by { assert r[c..c + 3][0] == r[c]; }
      assert c >= w;
      assert r[c..c + 3] == s[c - w..c - w + 3];
    }
  }

  /** The first indented line of a docstring quoted once: `w` spaces, then
      the opening quotes. */
  lemma IndentedFirst(w: nat, F: seq<string>)
    requires w >= 4 && QuotedOnce(F)
    ensures IndentBlock(w, F)[0] == Spaces(w) + F[0]
    ensures LeadingSpaces(IndentBlock(w, F)[0]) == w && TQAt(IndentBlock(w, F)[0], w)
    ensures |F| == 1 ==> w + 3 <= |IndentBlock(w, F)[0]| - 3
  {
    assert F[0][0] == '"' by { assert F[0][0..3] == TQ; }
    IndentLineShift(w, F[0]);
    assert (Spaces(w) + F[0])[w..w + 3] == F[0][0..3];
  }

  /** The last indented line of a docstring quoted once ends with the closing quotes. */
  lemma IndentedLast(w: nat, F: seq<string>)
    requires w >= 4 && QuotedOnce(F)
    ensures var D := IndentBlock(w, F);
      |D[|D| - 1]| >= 3 && TQAt(D[|D| - 1], |D[|D| - 1]| - 3)
  {
    var D := IndentBlock(w, F);
    assert D[|D| - 1] == IndentLine(w, F[|F| - 1]);
    IndentLineEnds(w, F[|F| - 1]);
  }

  /** Indenting a line that ends with triple quotes keeps them at its end. */
  lemma IndentLineEnds(w: nat, s: string)
    requires |s| >= 3 && TQAt(s, |s| - 3)
    ensures |IndentLine(w, s)| >= 3 && TQAt(IndentLine(w, s), |IndentLine(w, s)| - 3)
  {
    var d := IndentLine(w, s);
    assert !IsBlank(s) by {
      assert s[|s| - 3..|s|] == TQ;
      assert s[|s| - 1] == '"';
    }
    if d != s {
      assert d == Spaces(w) + s;
      assert d[|d| - 3..] == s[|s| - 3..];
    }
  }

  /** Indenting a docstring quoted once leaves exactly the two quotes, the
      opening one right after the `w` spaces of the first line. */
  lemma IndentedQuotes(w: nat, F: seq<string>)
    requires w >= 4 && QuotedOnce(F)
    ensures var D := IndentBlock(w, F);
      forall t, c :: 0 <= t < |D| && TQAt(D[t], c) ==> (t == 0 && c == w) || (t == |D| - 1 && c == |D[t]| - 3)
  {
    var D := IndentBlock(w, F);
    IndentedFirst(w, F);
    forall t, c | 0 <= t < |D| && TQAt(D[t], c)
      ensures (t == 0 && c == w) || (t == |D| - 1 && c == |D[t]| - 3)
    {
      IndentLineQuotes(w, F[t], c);
    }
  }

  /** The search for closing quotes finds the first triple quote. */
  lemma {:induction false} FindCloseAt(L: seq<string>, k: nat, from: nat, p: Pos)
    requires k <= p.line < |L| && TQAt(L[p.line], p.col)
    requires p.line == k ==> from <= p.col
    requires NoTQBefore(L, k, from, p)
    ensures FindClose(L, k, from) == Some(p)
    decreases p.line - k
  {
    if p.line == k {
      match FindTQ(L[k], from)
      case None =>
      case Some(c) =>
    } else {
      assert FindTQ(L[k], from).None?;
      FindCloseAt(L, k + 1, 0, p);
    }
  }

  /** A colon line at or after `t` gives a header end from `t`. */
  lemma HeaderEndExists(L: seq<string>, t: nat, j: nat)
    requires t <= j < |L| && EndsWithColon(L[j])
    ensures HeaderEnd(L, t).Some? && HeaderEnd(L, t).value <= j
  {
  }

  /** A header end depends only on the lines up to it. */
  lemma HeaderEndPrefix(L: seq<string>, L': seq<string>, h: nat, j: nat)
    requires h <= j < |L| && j < |L'| && L'[..j + 1] == L[..j + 1]
    requires HeaderEnd(L, h) == Some(j)
    ensures HeaderEnd(L', h) == Some(j)
  {
    assert forall t :: h <= t <= j ==> L'[t] == L[..j + 1][t];
    HeaderEndExists(L', h, j);
  }

  /** A line before a colon line starts a match exactly when it holds the
      named token, whatever the other lines are. */
  lemma NamedHeaderBefore(L: seq<string>, t: nat, j: nat, k: Kind, name: string)
    requires t <= j < |L| && EndsWithColon(L[j])
    ensures NamedHeaderAt(L, t, k, name) <==> HasNamedToken(L[t], k, name)
  {
    HeaderEndExists(L, t, j);
  }

  /** A text that keeps every line up to the end of the first matching
      header has no match on a line before it. */
  lemma NoEarlierMatch(L: seq<string>, L': seq<string>, h: nat, k: Kind, name: string, t: nat)
    requires FindNamed(L, 0, k, name) == Some(h)
    requires HeaderEnd(L, h).value < |L'| && L'[..HeaderEnd(L, h).value + 1] == L[..HeaderEnd(L, h).value + 1]
    requires t < h
    ensures !NamedHeaderAt(L', t, k, name)
  {
    var j := HeaderEnd(L, h).value;
    assert L'[j] == L[..j + 1][j];
    assert L'[t] == L[..j + 1][t];
    NamedHeaderBefore(L, t, j, k, name);
    NamedHeaderBefore(L', t, j, k, name);
  }

  /** ... so that header is its first match too. */
  lemma FindNamedPrefix(L: seq<string>, L': seq<string>, h: nat, k: Kind, name: string)
    requires FindNamed(L, 0, k, name) == Some(h)
    requires HeaderEnd(L, h).value < |L'| && L'[..HeaderEnd(L, h).value + 1] == L[..HeaderEnd(L, h).value + 1]
    ensures HeaderEnd(L', h) == HeaderEnd(L, h)
    ensures FindNamed(L', 0, k, name) == Some(h)
  {
    var j := HeaderEnd(L, h).value;
    HeaderEndPrefix(L, L', h, j);
    assert L'[h] == L[..j + 1][h];
    forall t | 0 <= t < h ensures !NamedHeaderAt(L', t, k, name) {
      NoEarlierMatch(L, L', h, k, name, t);
    }
    FindNamedFirst(L', h, k, name);
  }

  /** The rewrite keeps every line up to the end of the header, so the same
      header is found again at the same line and with the same end. */
  lemma InsertKeepsHeader(L: seq<string>, h: nat, full: string, k: Kind, name: string, j: nat)
    requires FindNamed(L, 0, k, name) == Some(h) && HeaderEnd(L, h) == Some(j)
    ensures h <= j < |Insert(L, h, full, k)|
    ensures Insert(L, h, full, k)[..j + 1] == L[..j + 1] && Insert(L, h, full, k)[h] == L[h]
    ensures HeaderEnd(Insert(L, h, full, k), h) == Some(j)
    ensures FindNamed(Insert(L, h, full, k), 0, k, name) == Some(h)
  {
    InsertPrefix(L, h, full, k, j);
    FindNamedPrefix(L, Insert(L, h, full, k), h, k, name);
  }

  /** The rewrite keeps the lines up to the end of the header. */
  lemma InsertPrefix(L: seq<string>, h: nat, full: string, k: Kind, j: nat)
    requires h < |L| && HeaderEnd(L, h) == Some(j)
    ensures j < |Insert(L, h, full, k)| && Insert(L, h, full, k)[..j + 1] == L[..j + 1]
    ensures Insert(L, h, full, k)[h] == L[h]
  {
    var A := L[..j + 1];
    InsertFromParts(L, h, full, k, j, A, IndentWidth(L[h]), Following(L, j));
    PrefixKept(Insert(L, h, full, k), A, IndentBlock(IndentWidth(L[h]), Split(full)), ClassGap(k), Following(L, j));
    assert A[h] == L[h];
  }

  /** `P + D + G + R` starts with `P`. */
  lemma PrefixKept<T>(X: seq<T>, P: seq<T>, D: seq<T>, G: seq<T>, R: seq<T>)
    requires X == P + D + G + R
    ensures |P| <= |X| && X[..|P|] == P
    ensures forall i :: 0 <= i < |P| ==> X[i] == P[i]
  {
  }

  /** Lines that are all empty followed by a remainder of that form are
      consumed by `\n*` down to the remainder. */
  lemma RestFromGap(L: seq<string>, x: nat, g: seq<string>, R: seq<string>)
    requires x <= |L| && L[x..] == g + R && Resumes(R)
    requires forall t :: 0 <= t < |g| ==> g[t] == ""
    ensures RestFrom(L, x) == R
  {
    var m := SkipEmpty(L, x);
    assert forall t :: x <= t < x + |g| ==> L[t] == g[t - x];
    if R[0] != "" {
      assert L[x + |g|] == R[0];
      assert m == x + |g|;
      assert L[m..] == L[x..][|g|..];
    } else {
      assert R == [""];
      forall t | x <= t < |L| ensures L[t] == "" {
        assert L[t] == (g + R)[t - x];
      }
      assert m == |L|;
    }
  }

  /** Lines holding an indented docstring quoted once, right after line `j`:
      the first one opens the block at column `w`. */
  lemma IndentedBlockOpens(L: seq<string>, j: nat, w: nat, F: seq<string>)
    requires w >= 4 && QuotedOnce(F)
    requires j + 1 + |F| <= |L| && L[j + 1..j + 1 + |F|] == IndentBlock(w, F)
    ensures SkipEmpty(L, j + 1) == j + 1
    ensures LeadingSpaces(L[j + 1]) == w && TQAt(L[j + 1], w)
  {
    IndentedFirst(w, F);
    assert L[j + 1] == IndentBlock(w, F)[0];
  }

  /** ... and no triple quote follows the opening one before the closing
      quotes at the end of the block's last line. */
  lemma IndentedBlockCloses(L: seq<string>, j: nat, w: nat, F: seq<string>)
    requires w >= 4 && QuotedOnce(F)
    requires j + 1 + |F| <= |L| && L[j + 1..j + 1 + |F|] == IndentBlock(w, F)
    ensures |L[j + |F|]| >= 3 && TQAt(L[j + |F|], |L[j + |F|]| - 3)
    ensures j + |F| == j + 1 ==> w + 3 <= |L[j + |F|]| - 3
    ensures NoTQBefore(L, j + 1, w + 3, Pos(j + |F|, |L[j + |F|]| - 3))
  {
    IndentedLastLine(L, j, w, F);
    IndentedNoTQ(L, j, w, F);
  }

  /** The last line of the indented block ends with the closing quotes, after
      the opening ones when the block is a single line. */
  lemma IndentedLastLine(L: seq<string>, j: nat, w: nat, F: seq<string>)
    requires w >= 4 && QuotedOnce(F)
    requires j + 1 + |F| <= |L| && L[j + 1..j + 1 + |F|] == IndentBlock(w, F)
    ensures |L[j + |F|]| >= 3 && TQAt(L[j + |F|], |L[j + |F|]| - 3)
    ensures |F| == 1 ==> w + 3 <= |L[j + |F|]| - 3
  {
    var D := IndentBlock(w, F);
    assert L[j + |F|] == D[|D| - 1];
    IndentedLast(w, F);
    if |F| == 1 {
      IndentedFirst(w, F);
      assert D[|D| - 1] == D[0];
    }
  }

  /** Between its two quotes the indented block holds no other. */
  lemma IndentedNoTQ(L: seq<string>, j: nat, w: nat, F: seq<string>)
    requires w >= 4 && QuotedOnce(F)
    requires j + 1 + |F| <= |L| && L[j + 1..j + 1 + |F|] == IndentBlock(w, F)
    ensures |L[j + |F|]| >= 3 && NoTQBefore(L, j + 1, w + 3, Pos(j + |F|, |L[j + |F|]| - 3))
  {
    var D := IndentBlock(w, F);
    var e := j + |F|;
    assert L[e] == D[|D| - 1];
    IndentedLast(w, F);
    IndentedQuotes(w, F);
    forall t, c | j + 1 <= t <= e && t < |L| && 0 <= c && (t == j + 1 ==> w + 3 <= c) && (t == e ==> c < |L[e]| - 3)
      ensures !TQAt(L[t], c)
    {
      assert L[t] == D[t - j - 1];
    }
  }

  /** Such lines are the docstring block found after a header ending on `j`. */
  lemma IndentedBlockFound(L: seq<string>, j: nat, w: nat, F: seq<string>)
    requires w >= 4 && QuotedOnce(F)
    requires j + 1 + |F| <= |L| && L[j + 1..j + 1 + |F|] == IndentBlock(w, F)
    ensures FindDocBlock(L, j).Some?
    ensures FindDocBlock(L, j).value.open == Pos(j + 1, w)
    ensures FindDocBlock(L, j).value.close.line == j + |F|
    ensures FindDocBlock(L, j).value.close.col + 3 == |L[j + |F|]|
  {
    IndentedBlockOpens(L, j, w, F);
    IndentedBlockCloses(L, j, w, F);
    var p := Pos(j + |F|, |L[j + |F|]| - 3);
    FindCloseAt(L, j + 1, w + 3, p);
    FindDocBlockAt(L, j, j + 1, w, p);
  }

  /** The block found after line `j`, from where it opens and closes. */
  lemma FindDocBlockAt(L: seq<string>, j: nat, m: nat, col: nat, p: Pos)
    requires j < |L| && SkipEmpty(L, j + 1) == m < |L|
    requires LeadingSpaces(L[m]) == col && TQAt(L[m], col) && FindClose(L, m, col + 3) == Some(p)
    ensures FindDocBlock(L, j) == Some(DocBlock(Pos(m, col), p))
  {
  }

  /** The pieces of `P + D + G + R`, cut at the ends of `P` and `D`. */
  lemma SliceParts<T>(P: seq<T>, D: seq<T>, G: seq<T>, R: seq<T>, X: seq<T>)
    requires X == P + D + G + R
    ensures X[|P|..|P| + |D|] == D && X[|P| + |D|..] == G + R
  {
  }

  /** An indented docstring quoted once right after line `j`, then empty
      lines `g` and a remainder `R`: what follows the block is `R`. */
  lemma FollowingSliced(L: seq<string>, j: nat, w: nat, F: seq<string>, g: seq<string>, R: seq<string>)
    requires w >= 4 && QuotedOnce(F) && Resumes(R)
    requires forall t :: 0 <= t < |g| ==> g[t] == ""
    requires j + 1 + |F| <= |L| && L[j + 1..j + 1 + |F|] == IndentBlock(w, F)
    requires L[j + 1 + |F|..] == g + R
    ensures j < |L| && Following(L, j) == R
  {
    IndentedBlockFound(L, j, w, F);
    FollowingAt(L, j, j + |F|, g, R);
  }

  /** When the block found after line `j` closes at the end of line `e`,
      and empty lines then `R` follow it, `R` is what follows. */
  lemma FollowingAt(L: seq<string>, j: nat, e: nat, g: seq<string>, R: seq<string>)
    requires j < |L| && FindDocBlock(L, j).Some?
    requires FindDocBlock(L, j).value.close.line == e
    requires FindDocBlock(L, j).value.close.col + 3 == |L[e]|
    requires Resumes(R) && forall t :: 0 <= t < |g| ==> g[t] == ""
    requires e + 1 <= |L| && L[e + 1..] == g + R
    ensures Following(L, j) == R
  {
    FollowingClosed(L, j, e);
    RestFromGap(L, e + 1, g, R);
  }

  /** A block whose closing quotes end line `e` is followed by what `\n*`
      leaves after that line. */
  lemma FollowingClosed(L: seq<string>, j: nat, e: nat)
    requires j < |L| && FindDocBlock(L, j).Some?
    requires FindDocBlock(L, j).value.close.line == e
    requires FindDocBlock(L, j).value.close.col + 3 == |L[e]|
    ensures e < |L| && Following(L, j) == RestFrom(L, e + 1)
  {
    var b := FindDocBlock(L, j).value;
    FoundBlockIn(L, j);
    assert Following(L, j) == RestAfter(L, b);
  }

  /** The rewrite cut at the ends of the written block. */
  lemma InsertSlicesAt(L: seq<string>, h: nat, full: string, k: Kind, j: nat, F: seq<string>)
    requires h < |L| && HeaderEnd(L, h) == Some(j) && F == Split(full)
    ensures j + 1 + |F| <= |Insert(L, h, full, k)|
    ensures Insert(L, h, full, k)[j + 1..j + 1 + |F|] == IndentBlock(IndentWidth(L[h]), F)
    ensures Insert(L, h, full, k)[j + 1 + |F|..] == ClassGap(k) + Following(L, j)
  {
    var D := IndentBlock(IndentWidth(L[h]), F);
    var R := Following(L, j);
    InsertFromParts(L, h, full, k, j, L[..j + 1], IndentWidth(L[h]), R);
    SliceParts(L[..j + 1], D, ClassGap(k), R, Insert(L, h, full, k));
  }

  /** The block written by `Insert` is the docstring block found after the
      header, and what follows it is what followed the old block. */
  lemma InsertFollowing(L: seq<string>, h: nat, full: string, k: Kind, j: nat)
    requires h < |L| && HeaderEnd(L, h) == Some(j) && QuotedOnce(Split(full))
    ensures j < |Insert(L, h, full, k)| && Following(Insert(L, h, full, k), j) == Following(L, j)
  {
    var F := Split(full);
    var L' := Insert(L, h, full, k);
    InsertSlicesAt(L, h, full, k, j, F);
    FollowingSliced(L', j, IndentWidth(L[h]), F, ClassGap(k), Following(L, j));
  }

  /** Re-rendering a definition whose full docstring holds only its own two
      triple quotes changes nothing: the second pass finds the same header,
      recognises the block the first pass wrote and writes it again. */
  lemma WriteDocstringIdempotent(L: seq<string>, d: Definition)
    requires d.docstring.Some? && QuotedOnce(Split(FullDocstring(d).value))
    ensures WriteDocstring(WriteDocstring(L, d), d) == WriteDocstring(L, d)
  {
    match FindNamed(L, 0, d.kind, d.name)
    case None =>
    case Some(h) =>
      WriteDocstringAt(L, d, h);
      RewriteAgain(L, d, h, FullDocstring(d).value);
  }

  /** The second pass over the rewrite at line `h` rewrites it to itself. */
  lemma RewriteAgain(L: seq<string>, d: Definition, h: nat, full: string)
    requires d.docstring.Some? && FullDocstring(d) == Some(full) && QuotedOnce(Split(full))
    requires FindNamed(L, 0, d.kind, d.name) == Some(h) && h < |L| && HeaderEnd(L, h).Some?
    ensures WriteDocstring(Insert(L, h, full, d.kind), d) == Insert(L, h, full, d.kind)
  {
    var L' := Insert(L, h, full, d.kind);
    var j := HeaderEnd(L, h).value;
    InsertKeepsHeader(L, h, full, d.kind, d.name, j);
    InsertFollowing(L, h, full, d.kind, j);
    WriteDocstringAt(L', d, h);
    InsertFromParts(L, h, full, d.kind, j, L[..j + 1], IndentWidth(L[h]), Following(L, j));
    InsertFromParts(L', h, full, d.kind, j, L[..j + 1], IndentWidth(L[h]), Following(L, j));
  }

  /** The rewrite at a header whose lines up to its end are `A`, whose
      indentation is `w` and after whose block come the lines `R`. */
  lemma InsertFromParts(L: seq<string>, h: nat, full: string, k: Kind, j: nat, A: seq<string>, w: nat, R: seq<string>)
    requires h < |L| && HeaderEnd(L, h) == Some(j)
    requires L[..j + 1] == A && IndentWidth(L[h]) == w && Following(L, j) == R
    ensures Insert(L, h, full, k) == A + IndentBlock(w, Split(full)) + ClassGap(k) + R
  {
    assert Insert(L, h, full, k) == L[..j + 1] + IndentBlock(IndentWidth(L[h]), Split(full)) + ClassGap(k) + Following(L, j);
  }

  /** A docstring value with no `"` gets both delimiters. */
  lemma DelimitPlain(v: string)
    requires forall i :: 0 <= i < |v| ==> v[i] != '"'
    ensures Delimit(v) == TQ + "\n" + v + "\n" + TQ
  {
    assert !StartsWith(v, TQ) by { if |v| >= 3 { assert v[..3][0] == v[0]; } }
    assert !EndsWith(v, TQ) by { if |v| >= 3 { assert v[|v| - 3..][2] == v[|v| - 1]; } }
    assert "\"\"\"\n" + v + "\n\"\"\"" == TQ + "\n" + v + "\n" + TQ;
  }

  lemma JoinBetween(V: seq<string>)
    requires |V| >= 1
    ensures Join([TQ] + V + [TQ]) == TQ + "\n" + Join(V) + "\n" + TQ
  {
    JoinAppend([TQ], V);
    JoinAppend([TQ] + V, [TQ]);
  }

  /** A docstring value with no `"` is delimited onto lines of its own. */
  lemma PlainLines(v: string)
    requires forall i :: 0 <= i < |v| ==> v[i] != '"'
    ensures Split(Delimit(v)) == [TQ] + Split(v) + [TQ]
  {
    var V := Split(v);
    var X := [TQ] + V + [TQ];
    DelimitJoin(v, X);
    NoNewlinesBetween(V);
    SplitJoin(X);
  }

  lemma DelimitJoin(v: string, X: seq<string>)
    requires forall i :: 0 <= i < |v| ==> v[i] != '"'
    requires X == [TQ] + Split(v) + [TQ]
    ensures Delimit(v) == Join(X)
  {
    DelimitPlain(v);
    JoinSplit(v);
    JoinBetween(Split(v));
  }

  lemma NoNewlinesBetween(V: seq<string>)
    requires NoNewlines(V)
    ensures NoNewlines([TQ] + V + [TQ])
  {
    var X := [TQ] + V + [TQ];
    assert NoNewline(TQ);
    forall k | 0 <= k < |X| ensures NoNewline(X[k]) {
      if 0 < k < |X| - 1 {
        assert X[k] == V[k - 1];
      }
    }
  }

  /** Lines with no `"` between two lone triple quotes are quoted once. */
  lemma BetweenQuotes(V: seq<string>)
    requires forall t, i :: 0 <= t < |V| && 0 <= i < |V[t]| ==> V[t][i] != '"'
    ensures QuotedOnce([TQ] + V + [TQ])
  {
    var F := [TQ] + V + [TQ];
    forall t: int, c: nat | 0 <= t < |F| && TQAt(F[t], c)
      ensures (t == 0 && c == 0) || (t == |F| - 1 && c == |F[t]| - 3)
    {
      assert F[t][c] == F[t][c..c + 3][0];
    }
  }

  /** A docstring value without any `"` is delimited into lines quoted once. */
  lemma PlainQuotedOnce(v: string)
    requires forall i :: 0 <= i < |v| ==> v[i] != '"'
    ensures QuotedOnce(Split(Delimit(v)))
  {
    PlainLines(v);
    SplitAvoids(v, '"');
    BetweenQuotes(Split(v));
  }

  /** Rendering the same plain docstring twice gives the text of rendering it once. */
  lemma WritePlainIdempotent(L: seq<string>, d: Definition)
    requires d.docstring.Some?
    requires forall i :: 0 <= i < |d.docstring.value| ==> d.docstring.value[i] != '"'
    ensures WriteDocstring(WriteDocstring(L, d), d) == WriteDocstring(L, d)
  {
    PlainQuotedOnce(d.docstring.value);
    WriteDocstringIdempotent(L, d);
  }

  // --------------------------------------------------------- text and lines

  lemma FollowingNoNewlines(L: seq<string>, j: nat)
    requires j < |L| && NoNewlines(L)
    ensures NoNewlines(Following(L, j))
  {
    var R := Following(L, j);
    match FindDocBlock(L, j)
    case None =>
    case Some(b) =>
      var k := b.close.line;
      var e := b.close.col + 3;
      if e < |L[k]| {
        assert NoNewline(L[k]);
        assert NoNewline(L[k][e..]);
        assert R == [L[k][e..]] + L[k + 1..];
        forall t | 0 <= t < |R| ensures NoNewline(R[t]) {
          if t > 0 {
            assert R[t] == L[k + t];
          }
        }
      }
  }

  /** The rewrite keeps the text a list of newline-free lines, so it can be
      read back as the text it stands for, whichever the definition. */
  lemma WriteDocstringNoNewlines(L: seq<string>, d: Definition)
    requires |L| >= 1 && NoNewlines(L)
    ensures |WriteDocstring(L, d)| >= 1 && NoNewlines(WriteDocstring(L, d))
  {
    match FullDocstring(d)
    case None =>
    case Some(full) =>
      match FindNamed(L, 0, d.kind, d.name)
      case None =>
      case Some(h) =>
        var j := HeaderEnd(L, h).value;
        var D := IndentBlock(IndentWidth(L[h]), Split(full));
        var g := ClassGap(d.kind);
        var R := Following(L, j);
        IndentBlockNoNewlines(IndentWidth(L[h]), Split(full));
        FollowingNoNewlines(L, j);
        assert WriteDocstring(L, d) == L[..j + 1] + D + g + R;
        NoNewlinesSplice(L[..j + 1], D, g, R);
  }

  lemma NoNewlinesSplice(P: seq<string>, D: seq<string>, g: seq<string>, R: seq<string>)
    requires NoNewlines(P) && NoNewlines(D) && NoNewlines(R)
    requires forall t :: 0 <= t < |g| ==> g[t] == ""
    ensures NoNewlines(P + D + g + R)
  {
    var X := P + D + g + R;
    forall t | 0 <= t < |X| ensures NoNewline(X[t]) {
      if t < |P| {
        assert X[t] == P[t];
      } else if t < |P| + |D| {
        assert X[t] == D[t - |P|];
      } else if t < |P| + |D| + |g| {
        assert X[t] == g[t - |P| - |D|];
      } else {
        assert X[t] == R[t - |P| - |D| - |g|];
      }
    }
  }
}
