/** The variables of an element instance and of its enclosing scopes
    (`VariablesState`): a scope's variables are the VARIABLES pairs keyed
    by (scope, name), and a scope's parent is its ELEMENT_INSTANCE_CHILD_PARENT
    entry. The document of a scope holds every variable visible from it,
    an inner scope's variable hiding an outer one of the same name. */
module VariablesState {

  import opened Wrappers
  import opened Bytes
  import opened Tables

  /** The parent of a scope without one. */
  const NO_PARENT: int := -1

  /** ELEMENT_INSTANCE_CHILD_PARENT: child key to parent key. */
  type ChildParent = Table<int, int>

  /** VARIABLES: (scope key, variable name) to the variable's value. */
  type Variables = Table<(int, string), Bytes>

  /** Variables by name, as a document lists them. */
  type Named = seq<(string, Bytes)>

  /** `getParent(key)`: the stored parent, or NO_PARENT. */
  function GetParent(cp: ChildParent, key: int): (r: int)
    ensures (forall i :: 0 <= i < |cp| ==> cp[i].0 != key) ==> r == NO_PARENT
    ensures r != NO_PARENT ==> (key, r) in cp
    ensures UniqueKeys(cp) ==> forall i :: 0 <= i < |cp| && cp[i].0 == key ==> r == cp[i].1
  {
    forall i | 0 <= i < |cp| && UniqueKeys(cp) && cp[i].0 == key ensures Lookup(cp, key) == Some(cp[i].1) {
      LookupStored(cp, i);
    }
    match Lookup(cp, key)
    case Some(parent) => parent
    case None => NO_PARENT
  }

  /** The scopes the do-while loop of `visitVariables` goes through: the
      scope itself, then each parent while it is not negative. The local
      visit never reports completion, so the loop ends only there. */
  predicate IsChain(cp: ChildParent, scope: int, chain: seq<int>) {
    |chain| > 0 && chain[0] == scope
    && (forall k :: 0 < k < |chain| ==> chain[k] >= 0 && GetParent(cp, chain[k - 1]) == chain[k])
    && GetParent(cp, chain[|chain| - 1]) < 0
  }

  /** The scope chain, found within `fuel` steps; none when the parents
      lead round in a circle longer than that, where the loop would not
      end. */
  function Chain(cp: ChildParent, scope: int, fuel: nat): (r: Option<seq<int>>)
    ensures r.Some? ==> IsChain(cp, scope, r.value) && |r.value| <= fuel
    decreases fuel
  {
    if fuel == 0 then None
    else
      var parent := GetParent(cp, scope);
      if parent < 0 then Some([scope])
      else
        match Chain(cp, parent, fuel - 1)
        case None => None
        case Some(rest) =>
          var chain := [scope] + rest;
          assert IsChain(cp, scope, chain) by {
            forall k | 1 < k < |chain| ensures chain[k] >= 0 && GetParent(cp, chain[k - 1]) == chain[k] {
              assert chain[k] == rest[k - 1] && chain[k - 1] == rest[k - 2];
            }
            assert chain[|chain| - 1] == rest[|rest| - 1];
          }
          Some(chain)
  }

  /** Enough fuel finds the chain, and the chain is the only one. */
  lemma {:induction false} ChainFound(cp: ChildParent, scope: int, chain: seq<int>, fuel: nat)
    requires IsChain(cp, scope, chain) && |chain| <= fuel
    ensures Chain(cp, scope, fuel) == Some(chain)
    decreases |chain|
  {
    if |chain| > 1 {
      var rest := chain[1..];
      assert chain[1] >= 0 && GetParent(cp, chain[0]) == chain[1];
      assert IsChain(cp, chain[1], rest) by {
        forall k | 0 < k < |rest| ensures rest[k] >= 0 && GetParent(cp, rest[k - 1]) == rest[k] {
          assert rest[k - 1] == chain[k] && rest[k] == chain[k + 1];
        }
        assert rest[|rest| - 1] == chain[|chain| - 1];
      }
      ChainFound(cp, chain[1], rest, fuel - 1);
      assert chain == [scope] + rest;
    } else {
      assert chain == [scope];
    }
  }

  /** The value a variable has in a scope chain: its value in the innermost
      scope that has one. */
  function Innermost(vars: Variables, chain: seq<int>, name: string): (r: Option<Bytes>)
    ensures r.None? <==> forall k :: 0 <= k < |chain| ==> Lookup(Prefixed(vars, chain[k]), name).None?
  {
    if |chain| == 0 then None
    else
      var rest := Innermost(vars, chain[1..], name);
      assert forall k :: 0 < k < |chain| ==> chain[k] == chain[1..][k - 1];
      match Lookup(Prefixed(vars, chain[0]), name)
      case Some(v) => Some(v)
      case None => rest
  }

  /** The first of two lookups that finds something. */
  function Either(a: Option<Bytes>, b: Option<Bytes>): Option<Bytes> {
    if a.Some? then a else b
  }

  /** No name is listed twice. */
  predicate Distinct(d: Named) {
    forall i, j :: 0 <= i < j < |d| ==> d[i].0 != d[j].0
  }

  /** One scope's walk: each variable the filter lets through (its name is
      not collected yet) is written and its name collected. */
  function Add(acc: Named, locals: Named): (r: Named)
    decreases |locals|
  {
    if |locals| == 0 then acc
    else Add(if Lookup(acc, locals[0].0).Some? then acc else acc + [locals[0]], locals[1..])
  }

  lemma LookupAppend(acc: Named, e: (string, Bytes), name: string)
    ensures Lookup(acc + [e], name) == Either(Lookup(acc, name), if e.0 == name then Some(e.1) else None)
  {
    if |acc| > 0 {
      assert (acc + [e])[1..] == acc[1..] + [e];
      LookupAppend(acc[1..], e, name);
    } else {
      assert (acc + [e])[1..] == [];
    }
  }

  /** After a scope's walk, a name is found with its collected value, or
      else with its first value in the scope; names stay distinct. */
  lemma {:induction false} AddLookup(acc: Named, locals: Named, name: string)
    requires Distinct(acc)
    ensures Distinct(Add(acc, locals))
    ensures Lookup(Add(acc, locals), name) == Either(Lookup(acc, name), Lookup(locals, name))
    decreases |locals|
  {
    if |locals| > 0 {
      var e := locals[0];
      var next := if Lookup(acc, e.0).Some? then acc else acc + [e];
      if Lookup(acc, e.0).None? {
        LookupAppend(acc, e, name);
        forall i | 0 <= i < |acc| ensures acc[i].0 != e.0 {
          assert Lookup(acc, e.0).None?;
        }
      }
      AddLookup(next, locals[1..], name);
    }
  }

  /** The walk over a scope chain, each scope adding to the variables
      collected so far. */
  function Collect(vars: Variables, chain: seq<int>, acc: Named): (r: Named)
    decreases |chain|
  {
    if |chain| == 0 then acc
    else Collect(vars, chain[1..], Add(acc, Prefixed(vars, chain[0])))
  }

  lemma {:induction false} CollectLookup(vars: Variables, chain: seq<int>, acc: Named, name: string)
    requires Distinct(acc)
    ensures Distinct(Collect(vars, chain, acc))
    ensures Lookup(Collect(vars, chain, acc), name) == Either(Lookup(acc, name), Innermost(vars, chain, name))
    decreases |chain|
  {
    if |chain| > 0 {
      var next := Add(acc, Prefixed(vars, chain[0]));
      AddLookup(acc, Prefixed(vars, chain[0]), name);
      CollectLookup(vars, chain[1..], next, name);
    }
  }

  /** The set of collected names. */
  function NameSet(d: Named): set<string> {
    set k | 0 <= k < |d| :: d[k].0
  }

  lemma {:induction false} NameSetSize(d: Named)
    requires Distinct(d)
    ensures |NameSet(d)| == |d|
  {
    if |d| > 0 {
      var n := |d| - 1;
      var init := d[..n];
      assert NameSet(d) == NameSet(init) + {d[n].0} by {
        forall x | x in NameSet(d) ensures x in NameSet(init) + {d[n].0} {
          var k :| 0 <= k < |d| && d[k].0 == x;
          if k < n { assert init[k] == d[k]; }
        }
        forall x | x in NameSet(init) ensures x in NameSet(d) {
          var k :| 0 <= k < |init| && init[k].0 == x;
          assert d[k] == init[k];
        }
      }
      assert d[n].0 !in NameSet(init) by {
        forall k | 0 <= k < |init| ensures init[k].0 != d[n].0 {
          assert init[k] == d[k];
        }
      }
      assert Distinct(init) by {
        forall i, j | 0 <= i < j < |init| ensures init[i].0 != init[j].0 {
          assert init[i] == d[i] && init[j] == d[j];
        }
      }
      NameSetSize(init);
    }
  }

  /** The document: the map header's count and the variables written. */
  datatype Document = Document(count: nat, entries: Named)

  /** `getVariablesAsDocument(scopeKey)`: the variables visible from the
      scope, each written once with its innermost value, under a header
      counting the collected names. None when the parent chain does not end
      within `fuel` steps. */
  function VariablesAsDocument(cp: ChildParent, vars: Variables, scope: int, fuel: nat): (r: Option<Document>)
    ensures r.None? <==> Chain(cp, scope, fuel).None?
    ensures r.Some? ==>
              var chain := Chain(cp, scope, fuel).value;
              && r.value.count == |r.value.entries|
              && Distinct(r.value.entries)
              && forall name :: Lookup(r.value.entries, name) == Innermost(vars, chain, name)
  {
    match Chain(cp, scope, fuel)
    case None => None
    case Some(chain) =>
      var entries := Collect(vars, chain, []);
      forall name ensures Lookup(entries, name) == Innermost(vars, chain, name) {
        CollectLookup(vars, chain, [], name);
      }
      CollectLookup(vars, chain, [], "");
      NameSetSize(entries);
      Some(Document(|NameSet(entries)|, entries))
  }

  /** A variable of the scope itself hides every variable of the same
      name further out: the document holds the scope's own value. */
  lemma Shadowing(cp: ChildParent, vars: Variables, scope: int, fuel: nat, j: nat)
    requires UniqueKeys(vars) && j < |vars| && vars[j].0.0 == scope
    requires Chain(cp, scope, fuel).Some?
    ensures Lookup(VariablesAsDocument(cp, vars, scope, fuel).value.entries, vars[j].0.1) == Some(vars[j].1)
  {
    var name := vars[j].0.1;
    var locals := Prefixed(vars, scope);
    assert (name, vars[j].1) in locals;
    var found := Lookup(locals, name);
    assert (name, found.value) in locals;
    var i :| 0 <= i < |vars| && vars[i].0.0 == scope && (name, found.value) == (vars[i].0.1, vars[i].1);
    assert vars[i].0 == vars[j].0;
  }
}
