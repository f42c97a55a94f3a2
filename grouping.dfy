/**
 * Per-user grouping of a table. A table is a key column (the user of each
 * row) beside a value column; a group is the subsequence of values whose
 * rows carry one key, kept in row order, as a groupby on the user column
 * hands it to the per-user stages.
 */
module Grouping {
  import opened Base

  /** How many rows carry key u. */
  function CountKey<K(==)>(keys: seq<K>, u: K): nat
    decreases |keys|
  {
    if keys == [] then 0
    else CountKey(keys[..|keys| - 1], u) + (if keys[|keys| - 1] == u then 1 else 0)
  }

  /** The values of the rows whose key is u, in row order. */
  function Group<K(==), V>(keys: seq<K>, values: seq<V>, u: K): (g: seq<V>)
    requires |keys| == |values|
    ensures |g| == CountKey(keys, u)
    decreases |keys|
  {
    if keys == [] then []
    else
      var n := |keys| - 1;
      Group(keys[..n], values[..n], u) + (if keys[n] == u then [values[n]] else [])
  }

  /** The position of row r inside its own group: how many earlier rows share its key. */
  function PosInGroup<K(==)>(keys: seq<K>, r: nat): nat
    requires r < |keys|
  {
    CountKey(keys[..r], keys[r])
  }

  /** The group of a prefix of the table is a prefix of the group. */
  lemma {:induction false} GroupOfPrefix<K, V>(keys: seq<K>, values: seq<V>, n: nat, u: K)
    requires |keys| == |values| && n <= |keys|
    ensures Group(keys[..n], values[..n], u) <= Group(keys, values, u)
    decreases |keys| - n
  {
    if n < |keys| {
      var m := |keys| - 1;
      assert keys[..m][..n] == keys[..n] && values[..m][..n] == values[..n];
      GroupOfPrefix(keys[..m], values[..m], n, u);
    } else {
      assert keys[..n] == keys && values[..n] == values;
    }
  }

  /**
   * Row r sits at position PosInGroup(keys, r) of its group, and the group up
   * to and including that position is exactly the group of the rows 0..r.
   */
  lemma RowInGroup<K, V>(keys: seq<K>, values: seq<V>, r: nat)
    requires |keys| == |values| && r < |keys|
    ensures var g := Group(keys, values, keys[r]);
            var p := PosInGroup(keys, r);
            && p < |g|
            && g[p] == values[r]
            && g[..p + 1] == Group(keys[..r + 1], values[..r + 1], keys[r])
  {
    var prefix := Group(keys[..r + 1], values[..r + 1], keys[r]);
    assert keys[..r + 1][..r] == keys[..r] && values[..r + 1][..r] == values[..r];
    assert prefix == Group(keys[..r], values[..r], keys[r]) + [values[r]];
    GroupOfPrefix(keys, values, r + 1, keys[r]);
  }

  /**
   * The order in which a groupby visits the users: every user of the table
   * exactly once (pandas sorts the keys; the model only needs them distinct
   * and complete).
   */
  ghost predicate IsGroupOrder<K>(keys: seq<K>, users: seq<K>) {
    && Distinct(users)
    && (forall r :: 0 <= r < |keys| ==> keys[r] in users)
    && (forall i :: 0 <= i < |users| ==> users[i] in keys)
  }

  /** The groups one after another, in the order users lists them. */
  function ConcatGroups<K(==), V>(keys: seq<K>, values: seq<V>, users: seq<K>): seq<V>
    requires |keys| == |values|
    decreases |users|
  {
    if users == [] then []
    else ConcatGroups(keys, values, users[..|users| - 1]) + Group(keys, values, users[|users| - 1])
  }

  /** Adding a row adds its value to its own group only. */
  lemma GroupSnoc<K, V>(keys: seq<K>, values: seq<V>, k: K, v: V, u: K)
    requires |keys| == |values|
    ensures Group(keys + [k], values + [v], u) == Group(keys, values, u) + (if k == u then [v] else [])
  {
    assert (keys + [k])[..|keys|] == keys && (values + [v])[..|values|] == values;
  }

  /** Adding a row adds its value once to the concatenation, when its user is listed. */
  lemma {:induction false} ConcatGroupsSnoc<K, V>(keys: seq<K>, values: seq<V>, users: seq<K>, k: K, v: V)
    requires |keys| == |values| && Distinct(users)
    ensures multiset(ConcatGroups(keys + [k], values + [v], users))
      == multiset(ConcatGroups(keys, values, users)) + (if k in users then multiset{v} else multiset{})
    decreases |users|
  {
    if users != [] {
      var init, last := users[..|users| - 1], users[|users| - 1];
      ConcatGroupsSnoc(keys, values, init, k, v);
      GroupSnoc(keys, values, k, v, last);
      var inInit: multiset<V> := if k in init then multiset{v} else multiset{};
      var isLast: multiset<V> := if k == last then multiset{v} else multiset{};
      ListedOnce(users, k);
      AddBags(ConcatGroups(keys + [k], values + [v], init), Group(keys + [k], values + [v], last),
        ConcatGroups(keys, values, init), Group(keys, values, last), inInit, isLast);
    }
  }

  /** A user of a distinct list is either among the earlier ones or the last, not both. */
  lemma ListedOnce<K>(users: seq<K>, k: K)
    requires users != [] && Distinct(users)
    ensures var init, last := users[..|users| - 1], users[|users| - 1];
      && (k in users <==> k in init || k == last)
      && !(k in init && k == last)
  {
    assert users == users[..|users| - 1] + [users[|users| - 1]];
  }

  /** Bags of two concatenations, each side grown by its own bag. */
  lemma AddBags<V>(a': seq<V>, b': seq<V>, a: seq<V>, b: seq<V>, x: multiset<V>, y: multiset<V>)
    requires multiset(a') == multiset(a) + x && multiset(b') == multiset(b) + y
    ensures multiset(a' + b') == multiset(a + b) + (x + y)
  {
  }

  /**
   * Concatenating the groups over the group order loses no row and repeats
   * none: the result is a permutation of the value column.
   */
  lemma {:induction false} ConcatGroupsPermutes<K, V>(keys: seq<K>, values: seq<V>, users: seq<K>)
    requires |keys| == |values| && Distinct(users)
    requires forall r :: 0 <= r < |keys| ==> keys[r] in users
    ensures multiset(ConcatGroups(keys, values, users)) == multiset(values)
    decreases |keys|
  {
    if keys == [] {
      EmptyGroups(keys, values, users);
    } else {
      var n := |keys| - 1;
      assert keys == keys[..n] + [keys[n]] && values == values[..n] + [values[n]];
      ConcatGroupsPermutes(keys[..n], values[..n], users);
      ConcatGroupsSnoc(keys[..n], values[..n], users, keys[n], values[n]);
    }
  }

  lemma {:induction false} EmptyGroups<K, V>(keys: seq<K>, values: seq<V>, users: seq<K>)
    requires |keys| == |values| && keys == []
    ensures ConcatGroups(keys, values, users) == []
    decreases |users|
  {
    if users != [] {
      EmptyGroups(keys, values, users[..|users| - 1]);
    }
  }
}
