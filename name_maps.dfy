/** `get_file_id_list`, `get_dir_id_list` and the `(name, url)` list of `down_dir_by_url`: a
    listing turned into a dict keyed by name (a repeated name keeps the value of its last entry),
    then read back in sorted key order. Python orders strings by comparing code points, the
    shorter string first when one is a prefix of the other. */
module NameMaps {

  /** Python's `<` on `str`. */
  predicate StrLess(a: string, b: string)
    decreases |a|
  {
    if a == [] then b != []
    else if b == [] then false
    else a[0] < b[0] || (a[0] == b[0] && StrLess(a[1..], b[1..]))
  }

  lemma {:induction false} StrLessIrreflexive(a: string)
    ensures !StrLess(a, a)
    decreases |a|
  {
    if a != [] {
      StrLessIrreflexive(a[1..]);
    }
  }

  lemma {:induction false} StrLessTransitive(a: string, b: string, c: string)
    requires StrLess(a, b) && StrLess(b, c)
    ensures StrLess(a, c)
    decreases |a|
  {
    if a != [] && a[0] == b[0] && b[0] == c[0] {
      StrLessTransitive(a[1..], b[1..], c[1..]);
    }
  }

  lemma {:induction false} StrLessTotal(a: string, b: string)
    requires a != b
    ensures StrLess(a, b) || StrLess(b, a)
    decreases |a|
  {
    if a != [] && b != [] && a[0] == b[0] {
      assert a == [a[0]] + a[1..] && b == [b[0]] + b[1..];
      StrLessTotal(a[1..], b[1..]);
    }
  }

  /** Strictly increasing, hence also free of repeats. */
  predicate Ascending(keys: seq<string>) {
    forall i, j :: 0 <= i < j < |keys| ==> StrLess(keys[i], keys[j])
  }

  /** `keys` with `x` put in its place; nothing changes when `x` is there already. */
  function Insert(x: string, keys: seq<string>): seq<string>
    decreases |keys|
  {
    if keys == [] then [x]
    else if x == keys[0] then keys
    else if StrLess(x, keys[0]) then [x] + keys
    else [keys[0]] + Insert(x, keys[1..])
  }

  lemma {:induction false} InsertMembers(x: string, keys: seq<string>)
    ensures forall k :: k in Insert(x, keys) <==> k in keys || k == x
    decreases |keys|
  {
    if keys != [] && x != keys[0] && !StrLess(x, keys[0]) {
      InsertMembers(x, keys[1..]);
      assert keys == [keys[0]] + keys[1..];
    }
  }

  lemma {:induction false} InsertAscending(x: string, keys: seq<string>)
    requires Ascending(keys)
    ensures Ascending(Insert(x, keys))
    decreases |keys|
  {
    if keys == [] || x == keys[0] {
    } else if StrLess(x, keys[0]) {
      forall j | 0 < j < |keys| ensures StrLess(x, keys[j]) {
        StrLessTransitive(x, keys[0], keys[j]);
      }
    } else {
      StrLessTotal(x, keys[0]);
      var rest := Insert(x, keys[1..]);
      InsertAscending(x, keys[1..]);
      InsertMembers(x, keys[1..]);
      forall k | k in rest ensures StrLess(keys[0], k) {
        if k != x {
          var j :| 0 <= j < |keys[1..]| && keys[1..][j] == k;
          assert keys[j + 1] == k;
        }
      }
      var r := [keys[0]] + rest;
      forall i, j | 0 <= i < j < |r| ensures StrLess(r[i], r[j]) {
        if i == 0 {
          assert r[j] in rest;
        } else {
          assert r[i] == rest[i - 1] && r[j] == rest[j - 1];
        }
      }
    }
  }

  /** `sorted()` of the names. */
  function SortKeys(names: seq<string>): seq<string>
    decreases |names|
  {
    if names == [] then []
    else Insert(names[|names| - 1], SortKeys(names[..|names| - 1]))
  }

  /** The sorted keys are in strictly increasing order and are exactly the names. */
  lemma {:induction false} SortKeysSpec(names: seq<string>)
    ensures Ascending(SortKeys(names))
    ensures forall k :: k in SortKeys(names) <==> k in names
    decreases |names|
  {
    if names != [] {
      var init := names[..|names| - 1];
      SortKeysSpec(init);
      InsertAscending(names[|names| - 1], SortKeys(init));
      InsertMembers(names[|names| - 1], SortKeys(init));
      assert names == init + [names[|names| - 1]];
    }
  }

  function Names<V>(entries: seq<(string, V)>): (r: seq<string>)
    ensures |r| == |entries| && forall i :: 0 <= i < |r| ==> r[i] == entries[i].0
  {
    seq(|entries|, i requires 0 <= i < |entries| => entries[i].0)
  }

  /** The dict comprehension `{name: value for ...}` over the entries, in order. */
  function LastWins<V>(entries: seq<(string, V)>): (m: map<string, V>)
    ensures forall k :: k in m <==> k in Names(entries)
    decreases |entries|
  {
    if entries == [] then map[]
    else
      var init := entries[..|entries| - 1];
      assert Names(entries) == Names(init) + [entries[|entries| - 1].0];
      LastWins(init)[entries[|entries| - 1].0 := entries[|entries| - 1].1]
  }

  /** Entry `i` is the last one named `k`. */
  predicate LastOf<V>(entries: seq<(string, V)>, i: int, k: string) {
    0 <= i < |entries| && entries[i].0 == k && forall j :: i < j < |entries| ==> entries[j].0 != k
  }

  /** A key's value is the value of the last entry with that name. */
  lemma {:induction false} LastWinsValue<V>(entries: seq<(string, V)>, k: string)
    requires k in LastWins(entries)
    ensures exists i :: LastOf(entries, i, k) && entries[i].1 == LastWins(entries)[k]
    decreases |entries|
  {
    var last := entries[|entries| - 1];
    var init := entries[..|entries| - 1];
    LastWinsStep(entries);
    if last.0 != k {
      assert k in LastWins(init) && LastWins(entries)[k] == LastWins(init)[k];
      LastWinsValue(init, k);
      var i :| LastOf(init, i, k) && init[i].1 == LastWins(init)[k];
      LastOfExtended(init, last, i, k);
      assert init + [last] == entries;
    } else {
      assert LastOf(entries, |entries| - 1, k);
    }
  }

  lemma LastWinsStep<V>(entries: seq<(string, V)>)
    requires entries != []
    ensures LastWins(entries)
      == LastWins(entries[..|entries| - 1])[entries[|entries| - 1].0 := entries[|entries| - 1].1]
  {
  }

  lemma LastOfExtended<V>(init: seq<(string, V)>, last: (string, V), i: int, k: string)
    requires LastOf(init, i, k) && last.0 != k
    ensures LastOf(init + [last], i, k) && (init + [last])[i] == init[i]
  {
  }

  /** `{key: info.get(key) for key in sorted(info.keys())}`, as its items in order. */
  function SortedMap<V>(entries: seq<(string, V)>): (r: seq<(string, V)>)
  {
    var m := LastWins(entries);
    var keys := SortKeys(Names(entries));
    SortKeysSpec(Names(entries));
    seq(|keys|, i requires 0 <= i < |keys| => (keys[i], m[keys[i]]))
  }

  /** The items are in strictly increasing name order, name exactly the names of the
      entries, and each carries the value of the last entry with its name. */
  lemma SortedMapSpec<V>(entries: seq<(string, V)>)
    ensures Ascending(Names(SortedMap(entries)))
    ensures forall n :: n in Names(SortedMap(entries)) <==> n in Names(entries)
    ensures forall p :: 0 <= p < |SortedMap(entries)| ==>
      exists i :: LastOf(entries, i, SortedMap(entries)[p].0) && entries[i] == SortedMap(entries)[p]
  {
    var r := SortedMap(entries);
    var keys := SortKeys(Names(entries));
    SortKeysSpec(Names(entries));
    assert Names(r) == keys;
    forall p | 0 <= p < |r|
      ensures exists i :: LastOf(entries, i, r[p].0) && entries[i] == r[p]
    {
      assert keys[p] in keys;
      LastWinsValue(entries, keys[p]);
    }
  }

  /** Two entries with one name: the later value is kept and the name is listed once. */
  lemma LaterDuplicateWins<V>(a: string, x: V, y: V)
    ensures SortedMap([(a, x), (a, y)]) == [(a, y)]
  {
    var e := [(a, x), (a, y)];
    assert Names(e) == [a, a];
    assert [a, a][..1] == [a];
    assert SortKeys([a]) == [a];
    assert SortKeys([a, a]) == [a];
  }

  /** A name that is a prefix of another sorts first, whatever the order of the entries. */
  lemma PrefixSortsFirst<V>(x: V, y: V)
    ensures SortedMap([("ab", x), ("a", y)]) == [("a", y), ("ab", x)]
  {
    var e := [("ab", x), ("a", y)];
    assert Names(e) == ["ab", "a"];
    assert ["ab", "a"][..1] == ["ab"];
    assert SortKeys(["ab"]) == ["ab"];
    assert "a" != "ab" && StrLess("a", "ab");
    assert Insert("a", ["ab"]) == ["a", "ab"];
    assert SortKeys(["ab", "a"]) == ["a", "ab"];
    assert e[..1] == [("ab", x)];
    assert LastWins([("ab", x)]) == map["ab" := x];
    assert LastWins(e) == map["ab" := x]["a" := y];
  }
}
