/** The `Dict[str, PyDefinition]` of a source file: a mapping from name to
    definition that, like a Python dict, remembers the order in which its keys
    were first inserted. */
module DefinitionTable {

  import opened PyDefinition

  datatype Table<V> = Table(order: seq<string>, entries: map<string, V>)

  /** The keys in `order` are distinct and are exactly the keys of `entries`. */
  ghost predicate Valid<V>(t: Table<V>) {
    (forall a, b :: 0 <= a < b < |t.order| ==> t.order[a] != t.order[b])
    && (forall n :: n in t.entries <==> n in t.order)
  }

  function Empty<V>(): (r: Table<V>)
    ensures Valid(r) && r.entries == map[] && r.order == []
  {
    Table([], map[])
  }

  /** `d[key] = value`: an existing key keeps its place, a new key goes last. */
  function Put<V>(t: Table<V>, key: string, value: V): (r: Table<V>)
    requires Valid(t)
    ensures Valid(r)
    ensures r.entries == t.entries[key := value]
    ensures key in t.entries ==> r.order == t.order
    ensures key !in t.entries ==> r.order == t.order + [key]
  {
    if key in t.entries then Table(t.order, t.entries[key := value])
    else Table(t.order + [key], t.entries[key := value])
  }

  /** `d.values()`, in key order. */
  function Values<V>(t: Table<V>): (r: seq<V>)
    requires Valid(t)
    ensures |r| == |t.order|
    ensures forall k :: 0 <= k < |r| ==> r[k] == t.entries[t.order[k]]
  {
    seq(|t.order|, k requires 0 <= k < |t.order| => t.entries[t.order[k]])
  }

  /** The table obtained by assigning `defs[d.name] = d` for each `d` in turn. */
  function FromSeq(ds: seq<Definition>): (r: Table<Definition>)
    ensures Valid(r)
  {
    if ds == [] then Empty() else Put(FromSeq(ds[..|ds| - 1]), ds[|ds| - 1].name, ds[|ds| - 1])
  }

  /** Some definition in `ds` is called `n`. */
  ghost predicate Named(ds: seq<Definition>, n: string) {
    exists k :: 0 <= k < |ds| && ds[k].name == n
  }

  /** `ds[k]` is the last definition in `ds` called `n`. */
  ghost predicate LastNamed(ds: seq<Definition>, k: int, n: string) {
    0 <= k < |ds| && ds[k].name == n && forall k' :: k < k' < |ds| ==> ds[k'].name != n
  }

  /** One entry per distinct name. */
  lemma {:induction false} FromSeqKeys(ds: seq<Definition>)
    ensures forall n :: n in FromSeq(ds).entries <==> Named(ds, n)
  {
    if ds != [] {
      var front := ds[..|ds| - 1];
      FromSeqKeys(front);
      forall n ensures n in FromSeq(ds).entries <==> Named(ds, n) {
        if Named(front, n) {
          var k :| 0 <= k < |front| && front[k].name == n;
          assert ds[k] == front[k];
        }
        if Named(ds, n) && n != ds[|ds| - 1].name {
          var k :| 0 <= k < |ds| && ds[k].name == n;
          assert k < |front| && front[k] == ds[k];
        }
      }
    }
  }

  /** For a name given to several definitions, the later one wins. */
  lemma {:induction false} FromSeqLastWins(ds: seq<Definition>)
    ensures forall n :: n in FromSeq(ds).entries ==>
      exists k :: LastNamed(ds, k, n) && FromSeq(ds).entries[n] == ds[k]
  {
    if ds != [] {
      var front := ds[..|ds| - 1];
      var last := ds[|ds| - 1];
      FromSeqLastWins(front);
      var before := FromSeq(front);
      var r := FromSeq(ds);
      assert r.entries == before.entries[last.name := last];
      forall n | n in r.entries
        ensures exists k :: LastNamed(ds, k, n) && r.entries[n] == ds[k]
      {
        if n == last.name {
          assert LastNamed(ds, |ds| - 1, n);
        } else {
          var k :| LastNamed(front, k, n) && before.entries[n] == front[k];
          LastNamedExtend(ds, k, n);
        }
      }
    }
  }

  /** A name other than the last definition's keeps its last definition
      when the sequence grows by one. */
  lemma LastNamedExtend(ds: seq<Definition>, k: int, n: string)
    requires |ds| > 0 && LastNamed(ds[..|ds| - 1], k, n) && ds[|ds| - 1].name != n
    ensures LastNamed(ds, k, n) && ds[k] == ds[..|ds| - 1][k]
  {
    var front := ds[..|ds| - 1];
    forall k' | k < k' < |ds| ensures ds[k'].name != n {
      if k' < |front| {
        assert ds[k'] == front[k'];
      }
    }
  }
}
