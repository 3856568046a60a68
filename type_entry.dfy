/**
  One node of the symbol graph: a type's properties (an insertion-ordered
  map from property name to property type), its optional supertype and its
  set of literal values.
 */
module TypeEntries {
  import opened Wrappers

  /** The abstract value of a TypeEntry at one moment. */
  datatype EntryValue = EntryValue(
    properties: map<string, string>,
    propertyOrder: seq<string>,  // key order of the JavaScript Map
    supertype: Option<string>,
    literals: set<string>)
  {
    /** The key order lists every property exactly once. */
    ghost predicate Valid()
    {
      && (forall i, j :: 0 <= i < j < |propertyOrder| ==> propertyOrder[i] != propertyOrder[j])
      && (forall i :: 0 <= i < |propertyOrder| ==> propertyOrder[i] in properties)
      && (forall k :: k in properties ==> k in propertyOrder)
    }

    /** `properties.set(name, typeName)`: the last write wins and an existing key keeps its place. */
    function WithProperty(name: string, typeName: string): (e: EntryValue)
      ensures name in e.properties && e.properties[name] == typeName
      ensures forall k :: k != name ==> (k in e.properties <==> k in properties)
      ensures forall k :: k != name && k in properties ==> e.properties[k] == properties[k]
      ensures name in properties ==> e.propertyOrder == propertyOrder
      ensures name !in properties ==> e.propertyOrder == propertyOrder + [name]
      ensures e.supertype == supertype && e.literals == literals
    {
      EntryValue(properties[name := typeName],
                 if name in properties then propertyOrder else propertyOrder + [name],
                 supertype, literals)
    }

    /** `literals.add(value)`. */
    function WithLiteral(value: string): (e: EntryValue)
      ensures e.literals == literals + {value}
      ensures e.properties == properties && e.propertyOrder == propertyOrder
      ensures e.supertype == supertype
    {
      EntryValue(properties, propertyOrder, supertype, literals + {value})
    }
  }

  const Empty := EntryValue(map[], [], None, {})

  /** Setting a property keeps the key order a duplicate-free listing of the keys. */
  lemma WithPropertyKeepsValid(e: EntryValue, name: string, typeName: string)
    requires e.Valid()
    ensures e.WithProperty(name, typeName).Valid()
  {
  }

  /** Re-registering a property overwrites its type and does not move it. */
  lemma LastWriteWins(e: EntryValue, name: string, first: string, second: string)
    ensures e.WithProperty(name, first).WithProperty(name, second) == e.WithProperty(name, second)
  {
  }

  /** Adding a literal twice is the same as adding it once. */
  lemma AddLiteralIdempotent(e: EntryValue, value: string)
    ensures e.WithLiteral(value).WithLiteral(value) == e.WithLiteral(value)
  {
  }

  /** Properties and literals are independent: the two updates commute. */
  lemma PropertyAndLiteralCommute(e: EntryValue, name: string, typeName: string, value: string)
    ensures e.WithProperty(name, typeName).WithLiteral(value) == e.WithLiteral(value).WithProperty(name, typeName)
  {
  }

  /** The names of a sequence of `(name, type)` registrations. */
  function Names(regs: seq<(string, string)>): (r: seq<string>)
    ensures |r| == |regs|
    ensures forall i :: 0 <= i < |r| ==> r[i] == regs[i].0
  {
    if regs == [] then [] else [regs[0].0] + Names(regs[1..])
  }

  /** Successive `addProperty(name, type)` calls, one per registration. */
  function RegisterAll(e: EntryValue, regs: seq<(string, string)>): EntryValue
    decreases |regs|
  {
    if regs == [] then e else RegisterAll(e.WithProperty(regs[0].0, regs[0].1), regs[1..])
  }

  /** The registered names are pairwise distinct and none is a property of e yet. */
  ghost predicate FreshNames(e: EntryValue, regs: seq<(string, string)>)
  {
    && (forall i :: 0 <= i < |regs| ==> regs[i].0 !in e.properties)
    && (forall i, j :: 0 <= i < j < |regs| ==> regs[i].0 != regs[j].0)
  }

  lemma FreshNamesTail(e: EntryValue, regs: seq<(string, string)>)
    requires FreshNames(e, regs) && regs != []
    ensures FreshNames(e.WithProperty(regs[0].0, regs[0].1), regs[1..])
  {
    var e', rest := e.WithProperty(regs[0].0, regs[0].1), regs[1..];
    forall i | 0 <= i < |rest|
      ensures rest[i].0 !in e'.properties
    {
      assert rest[i] == regs[i + 1] && regs[0].0 != regs[i + 1].0;
    }
    forall i, j | 0 <= i < j < |rest|
      ensures rest[i].0 != rest[j].0
    {
      assert rest[i] == regs[i + 1] && rest[j] == regs[j + 1];
    }
  }

  /** Registering new, distinct properties one after another lists them in registration order. */
  lemma {:induction false} OrderOfRegistration(e: EntryValue, regs: seq<(string, string)>)
    requires FreshNames(e, regs)
    ensures RegisterAll(e, regs).propertyOrder == e.propertyOrder + Names(regs)
    decreases |regs|
  {
    if regs != [] {
      var e', rest := e.WithProperty(regs[0].0, regs[0].1), regs[1..];
      FreshNamesTail(e, regs);
      OrderOfRegistration(e', rest);
      NewNameOrder(e, regs);
    }
  }

  /** A first registration of a new name puts it in front of the names still to come. */
  lemma NewNameOrder(e: EntryValue, regs: seq<(string, string)>)
    requires regs != [] && regs[0].0 !in e.properties
    ensures e.WithProperty(regs[0].0, regs[0].1).propertyOrder + Names(regs[1..]) == e.propertyOrder + Names(regs)
  {
    assert Names(regs) == [regs[0].0] + Names(regs[1..]);
  }

  /** Registering distinct names gives each the type it was registered with; other properties keep theirs. */
  lemma {:induction false} TypesOfRegistration(e: EntryValue, regs: seq<(string, string)>)
    requires forall i, j :: 0 <= i < j < |regs| ==> regs[i].0 != regs[j].0
    ensures forall i :: 0 <= i < |regs| ==>
              regs[i].0 in RegisterAll(e, regs).properties && RegisterAll(e, regs).properties[regs[i].0] == regs[i].1
    ensures forall k :: k in e.properties && k !in Names(regs) ==>
              k in RegisterAll(e, regs).properties && RegisterAll(e, regs).properties[k] == e.properties[k]
    decreases |regs|
  {
    if regs != [] {
      var e', rest := e.WithProperty(regs[0].0, regs[0].1), regs[1..];
      forall i, j | 0 <= i < j < |rest|
        ensures rest[i].0 != rest[j].0
      {
        assert rest[i] == regs[i + 1] && rest[j] == regs[j + 1];
      }
      TypesOfRegistration(e', rest);
      var r := RegisterAll(e, regs);
      assert r == RegisterAll(e', rest);
      forall i | 0 <= i < |regs|
        ensures regs[i].0 in r.properties && r.properties[regs[i].0] == regs[i].1
      {
        if i == 0 {
          assert regs[0].0 !in Names(rest) by {
            forall k | 0 <= k < |rest|
              ensures Names(rest)[k] != regs[0].0
            {
              assert rest[k] == regs[k + 1];
            }
          }
        } else {
          assert regs[i] == rest[i - 1];
        }
      }
      forall k | k in e.properties && k !in Names(regs)
        ensures k in r.properties && r.properties[k] == e.properties[k]
      {
        assert Names(regs) == [regs[0].0] + Names(rest);
      }
    }
  }

  /** Any sequence of registrations keeps the key order a duplicate-free listing of the keys. */
  lemma {:induction false} RegisterAllKeepsValid(e: EntryValue, regs: seq<(string, string)>)
    requires e.Valid()
    ensures RegisterAll(e, regs).Valid()
    decreases |regs|
  {
    if regs != [] {
      WithPropertyKeepsValid(e, regs[0].0, regs[0].1);
      RegisterAllKeepsValid(e.WithProperty(regs[0].0, regs[0].1), regs[1..]);
    }
  }

  /** `class TypeEntry`: the fields are updated in place by its two methods. */
  class TypeEntry {
    var properties: map<string, string>
    var propertyOrder: seq<string>
    var supertype: Option<string>
    var literals: set<string>

    function Value(): EntryValue
      reads this
    {
      EntryValue(properties, propertyOrder, supertype, literals)
    }

    ghost predicate Valid()
      reads this
    {
      Value().Valid()
    }

    /** A new entry: no properties, no supertype, no literals. */
    constructor ()
      ensures Valid() && Value() == Empty
    {
      properties, propertyOrder := map[], [];
      supertype, literals := None, {};
    }

    /** `addProperty(value, type = "")`. */
    method AddProperty(value: string, typeName: string := "")
      modifies this
      ensures Value() == old(Value()).WithProperty(value, typeName)
      ensures old(Valid()) ==> Valid()
    {
      ghost var before := Value();
      if value !in properties {
        propertyOrder := propertyOrder + [value];
      }
      properties := properties[value := typeName];
      if before.Valid() {
        WithPropertyKeepsValid(before, value, typeName);
      }
    }

    /** `addLiteral(value)`. */
    method AddLiteral(value: string)
      modifies this
      ensures Value() == old(Value()).WithLiteral(value)
      ensures old(Valid()) ==> Valid()
    {
      literals := literals + {value};
    }
  }
}
