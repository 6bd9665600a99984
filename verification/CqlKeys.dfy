/** The keys of a config map's data: walked in any order, then sorted. */
module CqlKeys {
  import opened Text

  /** The keys of the data in the only order sort.Strings leaves them. */
  ghost predicate InOrder(keys: seq<string>, data: map<string, string>) {
    Sorted(keys) && multiset(keys) == multiset(data.Keys)
  }

  lemma OrderIsUnique(keys: seq<string>, others: seq<string>, data: map<string, string>)
    requires InOrder(keys, data) && InOrder(others, data)
    ensures keys == others
  {
    SortedIsUnique(keys, others);
  }

  lemma InOrderMembers(keys: seq<string>, data: map<string, string>)
    requires InOrder(keys, data)
    ensures (forall k :: k in keys <==> k in data) && |keys| == |data|
  {
    hide Sorted;
    forall k ensures k in keys <==> k in data {
      assert k in keys <==> k in multiset(keys);
      assert k in data.Keys <==> k in multiset(data.Keys);
    }
    assert |keys| == |multiset(keys)| == |multiset(data.Keys)| == |data.Keys|;
  }

  lemma TakeOut(rest: set<string>, k: string)
    requires k in rest
    ensures multiset(rest) == multiset{k} + multiset(rest - {k})
  {
  }

  lemma {:induction false} SomeOrder(names: set<string>) returns (keys: seq<string>)
    ensures multiset(keys) == multiset(names)
  {
    if names == {} {
      keys := [];
    } else {
      var k :| k in names;
      var rest := SomeOrder(names - {k});
      TakeOut(names, k);
      keys := rest + [k];
    }
  }

  lemma OrderExists(data: map<string, string>)
    ensures exists keys :: InOrder(keys, data)
  {
    hide Sorted, SortStrings;
    var keys := SomeOrder(data.Keys);
    SortStringsSorts(keys);
    assert InOrder(SortStrings(keys), data);
  }

  ghost function OrderedKeys(data: map<string, string>): (keys: seq<string>)
    ensures InOrder(keys, data) && (forall k :: k in keys <==> k in data) && |keys| == |data|
  {
    OrderExists(data);
    var keys :| InOrder(keys, data);
    InOrderMembers(keys, data);
    keys
  }

  /** Gathering the keys in any order and sorting them gives the one order. */
  method SortedKeys(data: map<string, string>) returns (names: seq<string>)
    ensures names == OrderedKeys(data)
  {
    hide SortStrings, Sorted;
    names := [];
    var rest := data.Keys;
    while rest != {}
      invariant multiset(names) + multiset(rest) == multiset(data.Keys)
      decreases |rest|
    {
      var k :| k in rest;
      TakeOut(rest, k);
      rest := rest - {k};
      names := names + [k];
    }
    SortStringsSorts(names);
    names := SortStrings(names);
    OrderIsUnique(names, OrderedKeys(data), data);
  }
}
