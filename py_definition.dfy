/** The definition record of gpt4docs: a function or class found in a source
    file, its name and its docstring (without the triple quotes). */
module PyDefinition {

  import opened Wrappers
  import opened Strings

  /** `PyDefinitionTypeEnum`: exactly two kinds. */
  datatype Kind = Function | Class

  /** The keyword that introduces a definition of this kind (the enum's value). */
  function Keyword(k: Kind): (r: string)
    ensures k == Function <==> r == "def"
    ensures k == Class <==> r == "class"
  {
    match k
    case Function => "def"
    case Class => "class"
  }

  /** The keyword recognised by a regular expression: the inverse of `Keyword`. */
  function KindOf(keyword: string): (r: Option<Kind>)
    ensures r.Some? <==> keyword == "def" || keyword == "class"
    ensures r.Some? ==> Keyword(r.value) == keyword
  {
    if keyword == "def" then Some(Function)
    else if keyword == "class" then Some(Class)
    else None
  }

  lemma KindKeywordRoundTrip(k: Kind)
    ensures KindOf(Keyword(k)) == Some(k)
  {
  }

  datatype Definition = Definition(kind: Kind, name: string, docstring: Option<string>)

  /** The delimiting done by `full_docstring` on a present value: an opening
      `"""` line is added when the value does not start with one, a closing
      one when it does not end with one. */
  function Delimit(value: string): (r: string)
    ensures StartsWith(r, TQ) && EndsWith(r, TQ)
    ensures StartsWith(value, TQ) && EndsWith(value, TQ) ==> r == value
    ensures !StartsWith(value, TQ) && !EndsWith(value, TQ) ==> r == "\"\"\"\n" + value + "\n\"\"\""
    ensures StartsWith(value, TQ) && !EndsWith(value, TQ) ==> r == value + "\n\"\"\""
    ensures !StartsWith(value, TQ) && EndsWith(value, TQ) ==> r == "\"\"\"\n" + value
  {
    var withOpen := if StartsWith(value, TQ) then value else "\"\"\"\n" + value;
    assert EndsWith(withOpen, TQ) <==> EndsWith(value, TQ) by {
      if !StartsWith(value, TQ) {
        if |value| >= 3 {
          assert withOpen[|withOpen| - 3..] == value[|value| - 3..];
        } else {
          assert withOpen[|withOpen| - 3 + (3 - |value|) - 1] == '\n';
        }
      }
    }
    var closed := if EndsWith(withOpen, TQ) then withOpen else withOpen + "\n\"\"\"";
    assert closed[..3] == withOpen[..3];
    closed
  }

  /** `full_docstring`: absent exactly when the docstring is absent. */
  function FullDocstring(d: Definition): (r: Option<string>)
    ensures r.None? <==> d.docstring.None?
    ensures r.Some? ==> StartsWith(r.value, TQ) && EndsWith(r.value, TQ)
    ensures r.Some? ==> r.value == Delimit(d.docstring.value)
  {
    match d.docstring
    case None => None
    case Some(v) => Some(Delimit(v))
  }

  /** Delimiting is idempotent: a value already delimited is left alone. */
  lemma DelimitIdempotent(value: string)
    ensures Delimit(Delimit(value)) == Delimit(value)
  {
  }
}
