/** What the checksum of a config map tells apart: controllers/cql_configmaps.go:41-46. The hash is
    taken over the data as fmt.Sprintf("%v") writes it. */
module CqlChecksum {
  import opened CqlKeys
  import opened Text
  import TextFacts = TextLemmas

  function Entries(keys: seq<string>, data: map<string, string>): string
    requires forall k :: k in keys ==> k in data
  {
    if keys == [] then ""
    else keys[0] + (":" + (data[keys[0]] + if |keys| == 1 then "" else " " + Entries(keys[1..], data)))
  }

  /** fmt.Sprintf("%v", data): the entries in the order of their keys. */
  ghost function Shown(data: map<string, string>): string {
    "map[" + (Entries(OrderedKeys(data), data) + "]")
  }

  /** Kubernetes admits letters, digits, dashes, underscores and dots in a key. */
  predicate KeyChar(c: char) {
    'a' <= c <= 'z' || 'A' <= c <= 'Z' || '0' <= c <= '9' || c in "-_."
  }

  predicate ValidKey(k: string) {
    k != "" && forall i :: 0 <= i < |k| ==> KeyChar(k[i])
  }

  ghost predicate ValidData(data: map<string, string>) {
    forall k :: k in data ==> ValidKey(k)
  }

  /** Other data has the same text, so an edit from one to the other goes unnoticed. */
  ghost predicate Ambiguous(data: map<string, string>) {
    exists other :: ValidData(other) && other != data && Shown(other) == Shown(data)
  }

  /** The value holds what reads as the entry of a later key. */
  ghost predicate HoldsEntryAfter(key: string, value: string) {
    exists k :: ValidKey(k) && LexLess(key, k) && HoldsEntry(value, k)
  }

  ghost predicate HoldsEntry(value: string, k: string) {
    exists i :: 0 <= i <= |value| && " " + (k + ":") <= value[i..]
  }

  /******* Merging the last two entries *******/

  /** The data with its last entry written into the value of the one before. */
  function Merged(keys: seq<string>, data: map<string, string>): map<string, string>
    requires |keys| >= 2 && forall k :: k in keys ==> k in data
  {
    var last, previous := keys[|keys| - 1], keys[|keys| - 2];
    (data - {last})[previous := data[previous] + (" " + (last + (":" + data[last])))]
  }

  lemma {:induction false} MergeKeepsEntries(keys: seq<string>, data: map<string, string>, merged: map<string, string>)
    requires |keys| >= 2 && Distinct(keys) && forall k :: k in keys ==> k in data
    requires forall k :: k in keys[..|keys| - 1] ==> k in merged
    requires forall i :: 0 <= i < |keys| - 2 ==> merged[keys[i]] == data[keys[i]]
    requires merged[keys[|keys| - 2]] == data[keys[|keys| - 2]] + (" " + (keys[|keys| - 1] + (":" + data[keys[|keys| - 1]])))
    ensures Entries(keys[..|keys| - 1], merged) == Entries(keys, data)
  {
    var init := keys[..|keys| - 1];
    if |keys| == 2 {
      assert Entries(keys[1..], data) == keys[1] + (":" + data[keys[1]]);
      assert init == [keys[0]];
    } else {
      assert keys[1..][..|keys| - 2] == init[1..];
      MergeKeepsEntries(keys[1..], data, merged);
    }
  }

  lemma {:induction false} CountedOnceIsDistinct(xs: seq<string>)
    requires forall x :: multiset(xs)[x] <= 1
    ensures Distinct(xs)
  {
    if xs != [] {
      assert xs == [xs[0]] + xs[1..];
      assert multiset(xs) == multiset{xs[0]} + multiset(xs[1..]);
      forall x ensures multiset(xs[1..])[x] <= 1 {
        assert multiset(xs)[x] <= 1;
      }
      assert multiset(xs)[xs[0]] <= 1;
      CountedOnceIsDistinct(xs[1..]);
      assert xs[0] !in xs[1..];
    }
  }

  lemma OrderedKeysDistinct(data: map<string, string>)
    ensures Distinct(OrderedKeys(data))
  {
    hide Sorted;
    CountedOnceIsDistinct(OrderedKeys(data));
  }

  lemma {:induction false} SortedInit(keys: seq<string>)
    requires Sorted(keys) && keys != []
    ensures Sorted(keys[..|keys| - 1])
  {
    var init := keys[..|keys| - 1];
    if |keys| > 1 {
      SortedInit(keys[1..]);
      assert init[1..] == keys[1..][..|keys| - 2];
      assert forall y :: y in init[1..] ==> y in keys[1..];
    }
  }

  lemma InitInOrder(keys: seq<string>, data: map<string, string>, merged: map<string, string>)
    requires |keys| >= 2 && InOrder(keys, data) && keys[|keys| - 1] in data && merged.Keys == data.Keys - {keys[|keys| - 1]}
    ensures InOrder(keys[..|keys| - 1], merged)
  {
    var init, last := keys[..|keys| - 1], keys[|keys| - 1];
    SortedInit(keys);
    hide Sorted;
    assert keys == init + [last];
    TakeOut(data.Keys, last);
    assert multiset(keys) == multiset(init) + multiset{last};
    assert multiset(init) == multiset(data.Keys) - multiset{last} == multiset(merged.Keys);
  }

  lemma MergedKeys(keys: seq<string>, data: map<string, string>)
    requires |keys| >= 2 && Distinct(keys) && forall k :: k in keys <==> k in data
    ensures Merged(keys, data).Keys == data.Keys - {keys[|keys| - 1]} && Merged(keys, data) != data
    ensures forall k :: k in keys[..|keys| - 1] ==> k in Merged(keys, data)
  {
    var merged := Merged(keys, data);
    assert keys[|keys| - 2] in data;
    forall k | k in keys[..|keys| - 1] ensures k in data && k != keys[|keys| - 1] {
      assert k in keys;
    }
    assert keys[|keys| - 1] !in merged && keys[|keys| - 1] in data;
  }

  /** With two entries or more there is always other data of the same text. */
  lemma SeveralEntriesAreAmbiguous(data: map<string, string>)
    requires ValidData(data) && |data| >= 2
    ensures Ambiguous(data)
  {
    hide InOrder, Entries;
    var keys := OrderedKeys(data);
    OrderedKeysDistinct(data);
    var merged, init := Merged(keys, data), keys[..|keys| - 1];
    MergedKeys(keys, data);
    InitInOrder(keys, data, merged);
    OrderIsUnique(init, OrderedKeys(merged), merged);
    SameEntriesKept(keys, data);
    assert Shown(merged) == Shown(data);
    assert ValidData(merged);
  }

  lemma SameEntriesKept(keys: seq<string>, data: map<string, string>)
    requires |keys| >= 2 && Distinct(keys) && (forall k :: k in keys <==> k in data)
    requires forall k :: k in keys[..|keys| - 1] ==> k in Merged(keys, data)
    ensures Entries(keys[..|keys| - 1], Merged(keys, data)) == Entries(keys, data)
  {
    MergeKeepsEntries(keys, data, Merged(keys, data));
  }

  /******* A single entry *******/

  lemma OnlyKey(data: map<string, string>, key: string)
    requires data.Keys == {key}
    ensures OrderedKeys(data) == [key] && Entries([key], data) == key + (":" + data[key])
  {
    assert |data.Keys| == 1;
    var keys := OrderedKeys(data);
    assert keys[0] in keys;
  }

  lemma TwoKeys(data: map<string, string>, k: string, l: string)
    requires data.Keys == {k, l} && LexLess(k, l)
    ensures Entries(OrderedKeys(data), data) == k + (":" + (data[k] + (" " + (l + (":" + data[l])))))
  {
    var keys := [k, l];
    assert keys[1..] == [l] && Sorted([l]) && Sorted(keys);
    assert multiset(keys) == multiset{k, l} == multiset({k, l});
    assert InOrder(keys, data);
    OrderIsUnique(keys, OrderedKeys(data), data);
    assert Entries([l], data) == l + (":" + data[l]);
  }

  lemma HeldEntrySplits(data: map<string, string>, key: string)
    requires ValidData(data) && data.Keys == {key} && HoldsEntryAfter(key, data[key])
    ensures Ambiguous(data)
  {
    hide LexLess, InOrder;
    var value := data[key];
    var k :| ValidKey(k) && LexLess(key, k) && HoldsEntry(value, k);
    var i :| 0 <= i <= |value| && " " + (k + ":") <= value[i..];
    var rest := value[i + |k| + 2..];
    assert value == value[..i] + (" " + (k + (":" + rest)));
    var other := map[key := value[..i], k := rest];
    DifferentKeys(key, k);
    OnlyKey(data, key);
    TwoKeys(other, key, k);
    assert other.Keys == {key, k};
    assert ValidData(other) && k !in data;
  }

  lemma DifferentKeys(key: string, k: string)
    requires LexLess(key, k)
    ensures key != k
  {
  }

  /** For example: an edit from one of these to the other is never executed. */
  lemma DifferentScriptsSameChecksum()
    ensures var a, b := map["a" := "x b:y"], map["a" := "x", "b" := "y"];
            a != b && Shown(a) == Shown(b)
  {
    hide InOrder;
    var a, b := map["a" := "x b:y"], map["a" := "x", "b" := "y"];
    assert LexLess("a", "b") by {
      assert "a"[0] < "b"[0];
    }
    DifferentKeys("a", "b");
    OnlyKey(a, "a");
    TwoKeys(b, "a", "b");
    assert b.Keys == {"a", "b"} && "b" in b && "b" !in a;
    assert "x" + (" " + ("b" + (":" + "y"))) == "x b:y";
  }

  /** The text begins with the first key and a colon. */
  lemma EntriesStart(data: map<string, string>)
    requires ValidData(data) && |data| >= 1
    ensures var keys := OrderedKeys(data);
            Entries(keys, data) != "" && Find(Entries(keys, data), ':') == |keys[0]| && keys[0] <= Entries(keys, data)
  {
    var keys := OrderedKeys(data);
    assert keys[0] in keys && ValidKey(keys[0]);
    var rest := ":" + (data[keys[0]] + if |keys| == 1 then "" else " " + Entries(keys[1..], data));
    assert Entries(keys, data) == keys[0] + rest;
    assert ':' !in keys[0] by {
      assert !KeyChar(':');
    }
    TextFacts.FindConcat(keys[0], rest, ':');
    assert Find(rest, ':') == 0;
  }

  lemma SameTextSameEntries(a: map<string, string>, b: map<string, string>)
    requires Shown(a) == Shown(b)
    ensures Entries(OrderedKeys(a), a) == Entries(OrderedKeys(b), b)
  {
    var x, y := Entries(OrderedKeys(a), a), Entries(OrderedKeys(b), b);
    assert x + "]" == Shown(a)[4..] == Shown(b)[4..] == y + "]";
    assert x == (x + "]")[..|x + "]"| - 1] && y == (y + "]")[..|y + "]"| - 1];
  }

  /** Other data with the text of a single entry must have split its value. */
  lemma OtherDataSplits(data: map<string, string>, key: string, other: map<string, string>)
    requires ValidData(data) && data.Keys == {key} && ValidData(other) && other != data && Shown(other) == Shown(data)
    ensures HoldsEntryAfter(key, data[key])
  {
    var keys := OrderedKeys(other);
    SameTextSameEntries(other, data);
    OnlyKey(data, key);
    EntriesStart(data);
    NotEmpty(other, data);
    EntriesStart(other);
    var text := Entries(keys, other);
    assert keys[0] == text[..|keys[0]|] == key;
    var tail := if |keys| == 1 then "" else " " + Entries(keys[1..], other);
    assert data[key] == text[|key| + 1..] == other[key] + tail;
    OneKeyIsData(data, key, other);
    LaterEntry(other, key, data[key]);
  }

  lemma NotEmpty(other: map<string, string>, data: map<string, string>)
    requires Entries(OrderedKeys(other), other) == Entries(OrderedKeys(data), data) != ""
    ensures |other| >= 1
  {
  }

  lemma OneKeyIsData(data: map<string, string>, key: string, other: map<string, string>)
    requires data.Keys == {key} && OrderedKeys(other) != [] && OrderedKeys(other)[0] == key
    requires |other| == 1 ==> key in other && other[key] == data[key]
    ensures |other| == 1 ==> other == data
  {
    if |other| == 1 {
      var k := TheKey(other);
      assert OrderedKeys(other)[0] in OrderedKeys(other);
    }
  }

  /** The second entry stands inside the value. */
  lemma LaterEntry(other: map<string, string>, key: string, value: string)
    requires ValidData(other) && |other| >= 2 && OrderedKeys(other)[0] == key
    requires value == other[key] + (" " + Entries(OrderedKeys(other)[1..], other))
    ensures HoldsEntryAfter(key, value)
  {
    var keys := OrderedKeys(other);
    OrderedKeysDistinct(other);
    var k := keys[1];
    assert k in keys && k in keys[1..] && ValidKey(k) && LexLess(key, k);
    var rest := other[k] + if |keys| == 2 then "" else " " + Entries(keys[2..], other);
    assert keys[1..][1..] == keys[2..];
    assert Entries(keys[1..], other) == k + (":" + rest);
    assert value[|other[key]|..] == " " + (k + (":" + rest)) == " " + (k + ":") + rest;
    assert HoldsEntry(value, k);
  }

  /** The exact condition: the text determines the data unless there are two entries or more, or the
      only value holds what reads as the entry of a later key. */
  lemma AmbiguousExactlyWhen(data: map<string, string>)
    requires ValidData(data)
    ensures Ambiguous(data) <==> |data| >= 2 || exists key :: data.Keys == {key} && HoldsEntryAfter(key, data[key])
  {
    hide Shown, HoldsEntryAfter;
    if |data| >= 2 {
      SeveralEntriesAreAmbiguous(data);
    } else if |data| == 1 {
      var key := TheKey(data);
      if HoldsEntryAfter(key, data[key]) {
        HeldEntrySplits(data, key);
      }
      if Ambiguous(data) {
        var other :| ValidData(other) && other != data && Shown(other) == Shown(data);
        OtherDataSplits(data, key, other);
      }
    } else {
      NoEntries(data);
    }
  }

  lemma TheKey(data: map<string, string>) returns (key: string)
    requires |data| == 1
    ensures data.Keys == {key}
  {
    key :| key in data;
    assert |data.Keys - {key}| == 0;
  }

  lemma NoEntries(data: map<string, string>)
    requires |data| == 0
    ensures !Ambiguous(data)
  {
    forall other | ValidData(other) && Shown(other) == Shown(data) ensures other == data {
      SameTextSameEntries(other, data);
      if |other| >= 1 {
        EntriesStart(other);
      }
    }
  }
}
