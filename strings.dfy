/** Character and string helpers shared by the scanners: Python's `split("\n")`,
    `"\n".join`, `strip()`, `readlines()` and the character classes the regular
    expressions of the source use. */
module Strings {

  import opened Wrappers

  /** The triple-quote delimiter of a Python docstring. */
  const TQ: string := "\"\"\""

  predicate StartsWith(s: string, p: string) {
    |p| <= |s| && s[..|p|] == p
  }

  predicate EndsWith(s: string, p: string) {
    |p| <= |s| && s[|s| - |p|..] == p
  }

  /** `\s` of Python's `re` and the characters `str.strip()` removes (ASCII part). */
  predicate IsWhitespace(c: char) {
    c == ' ' || c == '\t' || c == '\n' || c == '\r' || c == '\U{000B}' || c == '\U{000C}'
    || ('\U{001C}' <= c <= '\U{001F}')
  }

  /** `\w` of Python's `re` (ASCII part). */
  predicate IsWordChar(c: char) {
    ('a' <= c <= 'z') || ('A' <= c <= 'Z') || ('0' <= c <= '9') || c == '_'
  }

  /** `line.strip() == ""`. */
  predicate IsBlank(s: string) {
    forall i :: 0 <= i < |s| ==> IsWhitespace(s[i])
  }

  predicate NoNewline(s: string) {
    forall i :: 0 <= i < |s| ==> s[i] != '\n'
  }

  predicate NoNewlines(ls: seq<string>) {
    forall k :: 0 <= k < |ls| ==> NoNewline(ls[k])
  }

  /** `" " * n`. */
  function Spaces(n: nat): (r: string)
    ensures |r| == n
    ensures forall i :: 0 <= i < n ==> r[i] == ' '
  {
    if n == 0 then "" else Spaces(n - 1) + " "
  }

  /** Length of the match of `^ *`. */
  function LeadingSpaces(s: string): (r: nat)
    ensures r <= |s|
    ensures forall i :: 0 <= i < r ==> s[i] == ' '
    ensures r == |s| || s[r] != ' '
  {
    if |s| == 0 || s[0] != ' ' then 0 else 1 + LeadingSpaces(s[1..])
  }

  /** Where a run of whitespace (`\s*`) starting at `i` ends. */
  function SkipWhitespace(s: string, i: nat): (r: nat)
    requires i <= |s|
    ensures i <= r <= |s|
    ensures r == |s| || !IsWhitespace(s[r])
    decreases |s| - i
  {
    if i == |s| || !IsWhitespace(s[i]) then i else SkipWhitespace(s, i + 1)
  }

  /** Everything `SkipWhitespace` skips is whitespace. */
  lemma {:induction false} SkipWhitespaceSpec(s: string, i: nat)
    requires i <= |s|
    ensures forall k :: i <= k < SkipWhitespace(s, i) ==> IsWhitespace(s[k])
    decreases |s| - i
  {
    if i < |s| && IsWhitespace(s[i]) {
      SkipWhitespaceSpec(s, i + 1);
    }
  }

  /** A run of whitespace from `i` that stops at `a` is what `SkipWhitespace`
      skips. */
  lemma {:induction false} SkipWhitespaceTo(s: string, i: nat, a: nat)
    requires i <= a <= |s|
    requires forall k :: i <= k < a ==> IsWhitespace(s[k])
    requires a == |s| || !IsWhitespace(s[a])
    ensures SkipWhitespace(s, i) == a
    decreases a - i
  {
    if i < a {
      SkipWhitespaceTo(s, i + 1, a);
    }
  }

  /** Where a run of word characters (`\w*`) starting at `i` ends. */
  function SkipWord(s: string, i: nat): (r: nat)
    requires i <= |s|
    ensures i <= r <= |s|
    ensures r == |s| || !IsWordChar(s[r])
    decreases |s| - i
  {
    if i == |s| || !IsWordChar(s[i]) then i else SkipWord(s, i + 1)
  }

  /** Everything `SkipWord` skips is a word character. */
  lemma {:induction false} SkipWordSpec(s: string, i: nat)
    requires i <= |s|
    ensures forall k :: i <= k < SkipWord(s, i) ==> IsWordChar(s[k])
    decreases |s| - i
  {
    if i < |s| && IsWordChar(s[i]) {
      SkipWordSpec(s, i + 1);
    }
  }

  /** A run of word characters from `i` that stops at `e` is what `SkipWord`
      skips. */
  lemma {:induction false} SkipWordTo(s: string, i: nat, e: nat)
    requires i <= e <= |s|
    requires forall k :: i <= k < e ==> IsWordChar(s[k])
    requires e == |s| || !IsWordChar(s[e])
    ensures SkipWord(s, i) == e
    decreases e - i
  {
    if i < e {
      SkipWordTo(s, i + 1, e);
    }
  }

  /** Length of the longest prefix made of word characters (`\w*`). */
  function WordPrefixLength(s: string): (r: nat)
    ensures r <= |s|
    ensures forall i :: 0 <= i < r ==> IsWordChar(s[i])
    ensures r == |s| || !IsWordChar(s[r])
  {
    if |s| == 0 || !IsWordChar(s[0]) then 0 else 1 + WordPrefixLength(s[1..])
  }

  /** Python's `s.split("\n")`: the pieces between newlines, always at least one. */
  function Split(s: string): (r: seq<string>)
    ensures |r| >= 1
    ensures NoNewlines(r)
  {
    if |s| == 0 then [""]
    else
      var rest := Split(s[1..]);
      if s[0] == '\n' then [""] + rest else [[s[0]] + rest[0]] + rest[1..]
  }

  /** Python's `"\n".join(ls)`. */
  function Join(ls: seq<string>): string {
    if |ls| == 0 then "" else if |ls| == 1 then ls[0] else ls[0] + "\n" + Join(ls[1..])
  }

  lemma JoinCons(a: string, t: seq<string>)
    ensures Join([a] + t) == if t == [] then a else a + "\n" + Join(t)
  {
    assert ([a] + t)[1..] == t;
  }

  lemma Assoc<T>(a: seq<T>, b: seq<T>, c: seq<T>)
    ensures a + b + c == a + (b + c)
  {
  }

  lemma Assoc4<T>(a: seq<T>, b: seq<T>, c: seq<T>, d: seq<T>)
    ensures a + b + c + d == a + (b + (c + d))
  {
  }

  /** Joining two non-empty runs of lines puts one newline between them. */
  lemma {:induction false} JoinAppend(a: seq<string>, b: seq<string>)
    requires |a| >= 1 && |b| >= 1
    ensures Join(a + b) == Join(a) + "\n" + Join(b)
    decreases |a|
  {
    if |a| == 1 {
      assert a == [a[0]];
      JoinCons(a[0], b);
    } else {
      JoinAppend(a[1..], b);
      assert a + b == [a[0]] + (a[1..] + b);
      assert a == [a[0]] + a[1..];
      JoinCons(a[0], a[1..] + b);
      JoinCons(a[0], a[1..]);
    }
  }

  /** Joining the pieces of a split gives the text back. */
  lemma {:induction false} JoinSplit(s: string)
    ensures Join(Split(s)) == s
  {
    if |s| > 0 {
      var rest := Split(s[1..]);
      JoinSplit(s[1..]);
      if s[0] == '\n' {
        JoinCons("", rest);
        assert s == "\n" + s[1..];
      } else {
        JoinCons(rest[0], rest[1..]);
        assert rest == [rest[0]] + rest[1..];
        JoinCons([s[0]] + rest[0], rest[1..]);
        assert s == [s[0]] + s[1..];
      }
    }
  }

  /** Splitting a join of newline-free lines gives the lines back, so a text and
      its lines determine each other. */
  lemma {:induction false} SplitJoin(ls: seq<string>)
    requires |ls| >= 1 && NoNewlines(ls)
    ensures Split(Join(ls)) == ls
  {
    if |ls| == 1 {
      SplitNoNewline(ls[0]);
    } else {
      SplitJoin(ls[1..]);
      SplitAppend(ls[0], Join(ls[1..]));
      assert ls == [ls[0]] + ls[1..];
    }
  }

  lemma {:induction false} SplitNoNewline(s: string)
    requires NoNewline(s)
    ensures Split(s) == [s]
  {
    if |s| > 0 {
      SplitNoNewline(s[1..]);
      assert [s[0]] + s[1..] == s;
    }
  }

  lemma {:induction false} SplitAppend(a: string, b: string)
    requires NoNewline(a)
    ensures Split(a + "\n" + b) == [a] + Split(b)
  {
    if |a| == 0 {
      assert a + "\n" + b == "\n" + b;
      assert ("\n" + b)[1..] == b;
    } else {
      assert (a + "\n" + b)[1..] == a[1..] + "\n" + b;
      SplitAppend(a[1..], b);
      assert [a[0]] + a[1..] == a;
    }
  }

  /** A character absent from a text is absent from each of its lines. */
  lemma {:induction false} SplitAvoids(s: string, ch: char)
    requires forall i :: 0 <= i < |s| ==> s[i] != ch
    ensures forall t, i :: 0 <= t < |Split(s)| && 0 <= i < |Split(s)[t]| ==> Split(s)[t][i] != ch
    decreases |s|
  {
    if |s| > 0 {
      SplitAvoids(s[1..], ch);
    }
  }

  /** Python's `str.lstrip()`, `str.rstrip()` and `str.strip()`: drop leading,
      trailing or both runs of whitespace. */
  function LStrip(s: string): string {
    if |s| == 0 || !IsWhitespace(s[0]) then s else LStrip(s[1..])
  }

  function RStrip(s: string): string {
    if |s| == 0 || !IsWhitespace(s[|s| - 1]) then s else RStrip(s[..|s| - 1])
  }

  function Strip(s: string): string {
    RStrip(LStrip(s))
  }

  /** `lstrip()` keeps a suffix, after a blank prefix, that does not start
      with whitespace. */
  lemma {:induction false} LStripSpec(s: string)
    ensures |LStrip(s)| <= |s| && LStrip(s) == s[|s| - |LStrip(s)|..]
    ensures IsBlank(s[..|s| - |LStrip(s)|])
    ensures |LStrip(s)| == 0 || !IsWhitespace(LStrip(s)[0])
  {
    if |s| > 0 && IsWhitespace(s[0]) {
      var t := s[1..];
      LStripSpec(t);
      var r := LStrip(t);
      assert LStrip(s) == r;
      assert s[|s| - |r|..] == t[|t| - |r|..];
      assert s[..|s| - |r|] == [s[0]] + t[..|t| - |r|];
    }
  }

  /** `rstrip()` keeps a prefix, before a blank suffix, that does not end with
      whitespace. */
  lemma {:induction false} RStripSpec(s: string)
    ensures |RStrip(s)| <= |s| && RStrip(s) == s[..|RStrip(s)|]
    ensures IsBlank(s[|RStrip(s)|..])
    ensures |RStrip(s)| == 0 || !IsWhitespace(RStrip(s)[|RStrip(s)| - 1])
  {
    if |s| > 0 && IsWhitespace(s[|s| - 1]) {
      var t := s[..|s| - 1];
      RStripSpec(t);
      var r := RStrip(t);
      assert s[..|r|] == t[..|r|];
      assert s[|r|..] == t[|r|..] + [s[|s| - 1]];
    }
  }

  lemma NoNewlineAppend(a: string, b: string)
    requires NoNewline(a) && NoNewline(b)
    ensures NoNewline(a + b)
  {
    forall i | 0 <= i < |a + b| ensures (a + b)[i] != '\n' {
      if i >= |a| {
        assert (a + b)[i] == b[i - |a|];
      }
    }
  }

  /** `strip()` on a triple-quoted text between two blank runs keeps the
      quoted text. */
  lemma StripQuoted(ws: string, x: string, tail: string)
    requires IsBlank(ws) && IsBlank(tail)
    ensures Strip(ws + TQ + x + TQ + tail) == TQ + x + TQ
  {
    assert ws + TQ + x + TQ + tail == ws + (TQ + x + TQ + tail);
    LStripPrefix(ws, TQ + x + TQ + tail);
    var q := TQ + x + TQ;
    assert q[|q| - 1] == '"';
    RStripSuffix(q, tail);
  }

  /** `lstrip()` drops a blank prefix in front of a non-whitespace character. */
  lemma {:induction false} LStripPrefix(ws: string, t: string)
    requires IsBlank(ws) && |t| >= 1 && !IsWhitespace(t[0])
    ensures LStrip(ws + t) == t
    decreases |ws|
  {
    if |ws| == 0 {
      assert ws + t == t;
    } else {
      assert (ws + t)[1..] == ws[1..] + t;
      LStripPrefix(ws[1..], t);
    }
  }

  /** `rstrip()` drops a blank suffix after a non-whitespace character. */
  lemma {:induction false} RStripSuffix(t: string, ws: string)
    requires IsBlank(ws) && |t| >= 1 && !IsWhitespace(t[|t| - 1])
    ensures RStrip(t + ws) == t
    decreases |ws|
  {
    if |ws| == 0 {
      assert t + ws == t;
    } else {
      assert (t + ws)[..|t + ws| - 1] == t + ws[..|ws| - 1];
      RStripSuffix(t, ws[..|ws| - 1]);
    }
  }

  /** What `strip()` keeps: the text between a blank prefix and a blank suffix,
      neither starting nor ending with whitespace. */
  lemma StripSpec(s: string)
    ensures exists a, b :: 0 <= a <= b <= |s| && Strip(s) == s[a..b] && IsBlank(s[..a]) && IsBlank(s[b..])
    ensures |Strip(s)| == 0 || (!IsWhitespace(Strip(s)[0]) && !IsWhitespace(Strip(s)[|Strip(s)| - 1]))
  {
    var l := LStrip(s);
    LStripSpec(s);
    var r := RStrip(l);
    RStripSpec(l);
    var a := |s| - |l|;
    assert r == s[a..a + |r|];
    assert s[a + |r|..] == l[|r|..];
  }

  /** `"".join(ls)`. */
  function Concat(ls: seq<string>): string {
    if |ls| == 0 then "" else ls[0] + Concat(ls[1..])
  }

  /** True when a triple quote starts at column `c` of `s`. */
  predicate TQAt(s: string, c: nat) {
    c + 3 <= |s| && s[c..c + 3] == TQ
  }

  /** True when `p` occurs in `s` starting at index `i`. */
  predicate Occurs(s: string, i: nat, p: string) {
    i + |p| <= |s| && s[i..i + |p|] == p
  }

  /** `s.find(p, from)`: the first index at or after `from` where `p` occurs. */
  function Find(s: string, p: string, from: nat): (r: Option<nat>)
    ensures r.Some? ==> from <= r.value && Occurs(s, r.value, p)
    decreases |s| - from
  {
    if from + |p| > |s| then None
    else if s[from..from + |p|] == p then Some(from)
    else Find(s, p, from + 1)
  }

  /** `find` returns the first occurrence, and -1 only when there is none. */
  lemma {:induction false} FindSpec(s: string, p: string, from: nat)
    ensures Find(s, p, from).Some? ==> forall i :: from <= i < Find(s, p, from).value ==> !Occurs(s, i, p)
    ensures Find(s, p, from).None? ==> forall i :: from <= i ==> !Occurs(s, i, p)
    decreases |s| - from
  {
    if from + |p| <= |s| && s[from..from + |p|] != p {
      FindSpec(s, p, from + 1);
    }
  }

  /** First column at or after `from` where a triple quote starts. */
  function FindTQ(s: string, from: nat): (r: Option<nat>)
    ensures r.Some? ==> from <= r.value && TQAt(s, r.value)
    ensures r.Some? ==> forall c :: from <= c < r.value ==> !TQAt(s, c)
    ensures r.None? ==> forall c :: from <= c ==> !TQAt(s, c)
    decreases |s| - from
  {
    if from + 3 > |s| then None
    else if s[from..from + 3] == TQ then Some(from)
    else FindTQ(s, from + 1)
  }

  /** The first `"""` at or after `from` is found. */
  lemma FindTQFirst(s: string, from: nat, e: nat)
    requires from <= e && TQAt(s, e)
    requires forall q :: from <= q < e ==> !TQAt(s, q)
    ensures FindTQ(s, from) == Some(e)
  {
    var r := FindTQ(s, from);
    assert r.Some?;
    assert !(r.value < e);
    assert !(r.value > e);
  }
}
