/**
 * The table operations the pipeline borrows from pandas, on rows kept as
 * sequences: boolean-mask filtering, `set_index(...).to_dict()` /
 * `drop_duplicates(keep='last')` (the last row for a key wins), and
 * `groupby(...)` collecting each key's values.
 */
module Tables {

  // ---------------------------------------------------------------------
  // Filtering: df[mask]
  // ---------------------------------------------------------------------

  /** The rows of `xs` satisfying `p`, in their original order. */
  function Filter<T>(xs: seq<T>, p: T -> bool): (r: seq<T>)
    ensures |r| <= |xs|
  {
    if xs == [] then []
    else Filter(xs[..|xs| - 1], p) + (if p(xs[|xs| - 1]) then [xs[|xs| - 1]] else [])
  }

  /** A row is kept exactly when it is in the input and satisfies the mask. */
  lemma {:induction false} FilterMembers<T>(xs: seq<T>, p: T -> bool)
    ensures forall x :: x in Filter(xs, p) <==> x in xs && p(x)
  {
    if xs != [] {
      var init := xs[..|xs| - 1];
      FilterMembers(init, p);
      assert xs == init + [xs[|xs| - 1]];
    }
  }

  /** Filtering commutes with concatenation, so the kept rows stay in order. */
  lemma {:induction false} FilterAppend<T>(a: seq<T>, b: seq<T>, p: T -> bool)
    ensures Filter(a + b, p) == Filter(a, p) + Filter(b, p)
  {
    if b == [] {
      assert a + b == a;
    } else {
      var b' := b[..|b| - 1];
      var last := b[|b| - 1];
      FilterAppend(a, b', p);
      assert (a + b)[..|a + b| - 1] == a + b';
      assert (a + b)[|a + b| - 1] == last;
    }
  }

  /** A mask every row satisfies removes nothing. */
  lemma {:induction false} FilterAll<T>(xs: seq<T>, p: T -> bool)
    requires forall k :: 0 <= k < |xs| ==> p(xs[k])
    ensures Filter(xs, p) == xs
  {
    if xs != [] {
      var init := xs[..|xs| - 1];
      FilterAll(init, p);
      assert init + [xs[|xs| - 1]] == xs;
    }
  }

  // ---------------------------------------------------------------------
  // Row-wise maps: Series.apply
  // ---------------------------------------------------------------------

  /** `f` applied to every row, in order. */
  function Map<A, B>(xs: seq<A>, f: A -> B): (ys: seq<B>)
    ensures |ys| == |xs|
    ensures forall i :: 0 <= i < |xs| ==> ys[i] == f(xs[i])
  {
    seq(|xs|, i requires 0 <= i < |xs| => f(xs[i]))
  }

  /** A mask that only looks at what the map keeps can be applied before
      the map instead of after it. */
  lemma {:induction false} FilterMap<A, B>(xs: seq<A>, f: A -> B, p: A -> bool, q: B -> bool)
    requires forall x :: q(f(x)) == p(x)
    ensures Filter(Map(xs, f), q) == Map(Filter(xs, p), f)
  {
    if xs != [] {
      var init := xs[..|xs| - 1];
      var last := xs[|xs| - 1];
      FilterMap(init, f, p, q);
      assert Map(xs, f)[..|xs| - 1] == Map(init, f);
      var kept := Filter(init, p);
      if p(last) {
        assert Filter(xs, p) == kept + [last];
        assert Map(kept + [last], f) == Map(kept, f) + [f(last)];
      } else {
        assert Filter(xs, p) == kept;
      }
    }
  }

  // ---------------------------------------------------------------------
  // Dictionaries built from rows: the last row for a key wins
  // ---------------------------------------------------------------------

  /** `dict(pairs)`: later pairs overwrite earlier ones with the same key. */
  function LastWins<K, V>(pairs: seq<(K, V)>): map<K, V> {
    if pairs == [] then map[]
    else
      var last := pairs[|pairs| - 1];
      LastWins(pairs[..|pairs| - 1])[last.0 := last.1]
  }

  /** The keys of the dictionary are exactly the keys of the rows. */
  lemma {:induction false} LastWinsKeys<K, V>(pairs: seq<(K, V)>)
    ensures forall k :: k in LastWins(pairs) <==> exists i :: 0 <= i < |pairs| && pairs[i].0 == k
  {
    if pairs != [] {
      var init := pairs[..|pairs| - 1];
      var last := pairs[|pairs| - 1];
      LastWinsKeys(init);
      forall k ensures k in LastWins(pairs) <==> exists i :: 0 <= i < |pairs| && pairs[i].0 == k {
        if k == last.0 {
          assert pairs[|pairs| - 1].0 == k;
        } else {
          if k in LastWins(init) {
            var i :| 0 <= i < |init| && init[i].0 == k;
            assert pairs[i] == init[i];
          }
          if exists i :: 0 <= i < |pairs| && pairs[i].0 == k {
            var i :| 0 <= i < |pairs| && pairs[i].0 == k;
            assert init[i] == pairs[i];
          }
        }
      }
    }
  }

  /** The value stored for a key is the value of the last row with that key. */
  lemma {:induction false} LastWinsValue<K, V>(pairs: seq<(K, V)>, i: nat)
    requires i < |pairs|
    requires forall j :: i < j < |pairs| ==> pairs[j].0 != pairs[i].0
    ensures pairs[i].0 in LastWins(pairs) && LastWins(pairs)[pairs[i].0] == pairs[i].1
  {
    var init := pairs[..|pairs| - 1];
    if i < |pairs| - 1 {
      forall j | i < j < |init| ensures init[j].0 != init[i].0 {
        assert init[j] == pairs[j];
      }
      LastWinsValue(init, i);
      assert init[i] == pairs[i];
    }
  }

  /** A key with no row is not in the dictionary; one with a row maps to
      the value of its last row. */
  lemma LastWinsLookup<K, V>(pairs: seq<(K, V)>, k: K)
    ensures k !in LastWins(pairs) <==> forall i :: 0 <= i < |pairs| ==> pairs[i].0 != k
    ensures k in LastWins(pairs) ==>
              exists i :: 0 <= i < |pairs| && pairs[i].0 == k && LastWins(pairs)[k] == pairs[i].1
                          && forall j :: i < j < |pairs| ==> pairs[j].0 != k
  {
    LastWinsKeys(pairs);
    if k in LastWins(pairs) {
      var i := LastIndexOf(pairs, k);
      LastWinsValue(pairs, i);
    }
  }

  /** Every row paired with its key. */
  function KeyedBy<K, V>(xs: seq<V>, key: V -> K): (pairs: seq<(K, V)>)
    ensures |pairs| == |xs|
    ensures forall i :: 0 <= i < |xs| ==> pairs[i] == (key(xs[i]), xs[i])
  {
    seq(|xs|, i requires 0 <= i < |xs| => (key(xs[i]), xs[i]))
  }

  /** `drop_duplicates(subset=key, keep='last')` as a dictionary: a key is
      present exactly when some row has it, and then it holds the last
      such row. */
  lemma LastWinsBy<K, V>(xs: seq<V>, key: V -> K, k: K)
    ensures var d := LastWins(KeyedBy(xs, key));
            && (k !in d <==> forall j :: 0 <= j < |xs| ==> key(xs[j]) != k)
            && (k in d ==> exists j :: 0 <= j < |xs| && key(xs[j]) == k && d[k] == xs[j]
                                       && forall l :: j < l < |xs| ==> key(xs[l]) != k)
  {
    var pairs := KeyedBy(xs, key);
    LastWinsLookup(pairs, k);
    if k in LastWins(pairs) {
      var j :| 0 <= j < |pairs| && pairs[j].0 == k && LastWins(pairs)[k] == pairs[j].1
               && forall l :: j < l < |pairs| ==> pairs[l].0 != k;
      assert key(xs[j]) == k && LastWins(pairs)[k] == xs[j];
    }
  }

  /** The index of the last row with key `k`. */
  ghost function LastIndexOf<K, V>(pairs: seq<(K, V)>, k: K): (i: nat)
    requires exists i :: 0 <= i < |pairs| && pairs[i].0 == k
    ensures i < |pairs| && pairs[i].0 == k
    ensures forall j :: i < j < |pairs| ==> pairs[j].0 != k
  {
    if pairs[|pairs| - 1].0 == k then |pairs| - 1
    else
      var init := pairs[..|pairs| - 1];
      assert exists i :: 0 <= i < |init| && init[i].0 == k by {
        var i :| 0 <= i < |pairs| && pairs[i].0 == k;
        assert init[i] == pairs[i];
      }
      LastIndexOf(init, k)
  }

  // ---------------------------------------------------------------------
  // Sums
  // ---------------------------------------------------------------------

  /** `sum(vs)`. */
  function Total(vs: seq<real>): real {
    if vs == [] then 0.0 else Total(vs[..|vs| - 1]) + vs[|vs| - 1]
  }

  /** The sum of a non-empty list of positive values is positive. */
  lemma {:induction false} TotalPositive(vs: seq<real>)
    requires vs != [] && forall k :: 0 <= k < |vs| ==> vs[k] > 0.0
    ensures Total(vs) > 0.0
  {
    var init := vs[..|vs| - 1];
    if init != [] {
      TotalPositive(init);
    }
  }

  /** The value column of a keyed table. */
  function ValueColumn<K>(rows: seq<(K, real)>): (vs: seq<real>)
    ensures |vs| == |rows|
    ensures forall k :: 0 <= k < |rows| ==> vs[k] == rows[k].1
  {
    seq(|rows|, k requires 0 <= k < |rows| => rows[k].1)
  }

  // ---------------------------------------------------------------------
  // groupby: each key with its values, in input order
  // ---------------------------------------------------------------------

  /** One group of `groupby`: a key and the values of its rows. */
  datatype Group<K> = Group(key: K, values: seq<real>)

  /** The values of the rows with key `k`, in input order. */
  function ValuesFor<K(==)>(rows: seq<(K, real)>, k: K): seq<real> {
    if rows == [] then []
    else
      var last := rows[|rows| - 1];
      ValuesFor(rows[..|rows| - 1], k) + (if last.0 == k then [last.1] else [])
  }

  /** Adds value `v` to the group of key `k`, opening a new group at the end
      when there is none yet. */
  function AddTo<K(==)>(groups: seq<Group<K>>, k: K, v: real): seq<Group<K>> {
    if groups == [] then [Group(k, [v])]
    else if groups[0].key == k then [Group(k, groups[0].values + [v])] + groups[1..]
    else [groups[0]] + AddTo(groups[1..], k, v)
  }

  /** `groupby(key)`, keeping the values of each key. */
  function GroupBy<K(==)>(rows: seq<(K, real)>): seq<Group<K>> {
    if rows == [] then []
    else
      var last := rows[|rows| - 1];
      AddTo(GroupBy(rows[..|rows| - 1]), last.0, last.1)
  }

  predicate DistinctKeys<K(==)>(groups: seq<Group<K>>) {
    forall i, j :: 0 <= i < j < |groups| ==> groups[i].key != groups[j].key
  }

  predicate HasKey<K(==)>(groups: seq<Group<K>>, k: K) {
    exists i :: 0 <= i < |groups| && groups[i].key == k
  }

  /** Adding to an existing group extends that group's values and touches
      nothing else; adding a new key appends a one-value group. */
  lemma {:induction false} AddToSpec<K>(groups: seq<Group<K>>, k: K, v: real)
    requires DistinctKeys(groups)
    ensures !HasKey(groups, k) ==> AddTo(groups, k, v) == groups + [Group(k, [v])]
    ensures forall i :: 0 <= i < |groups| && groups[i].key == k ==>
              AddTo(groups, k, v) == groups[i := Group(k, groups[i].values + [v])]
  {
    if groups != [] {
      var rest := groups[1..];
      assert DistinctKeys(rest) by {
        forall i, j | 0 <= i < j < |rest| ensures rest[i].key != rest[j].key {
          assert rest[i] == groups[i + 1] && rest[j] == groups[j + 1];
        }
      }
      AddToSpec(rest, k, v);
      if groups[0].key != k {
        if !HasKey(groups, k) {
          assert !HasKey(rest, k) by {
            forall i | 0 <= i < |rest| ensures rest[i].key != k {
              assert rest[i] == groups[i + 1];
            }
          }
          assert [groups[0]] + (rest + [Group(k, [v])]) == groups + [Group(k, [v])];
        }
        forall i | 0 <= i < |groups| && groups[i].key == k
          ensures AddTo(groups, k, v) == groups[i := Group(k, groups[i].values + [v])]
        {
          assert rest[i - 1] == groups[i];
          assert [groups[0]] + rest[i - 1 := Group(k, groups[i].values + [v])]
              == groups[i := Group(k, groups[i].values + [v])];
        }
      } else {
        forall i | 0 <= i < |groups| && groups[i].key == k
          ensures AddTo(groups, k, v) == groups[i := Group(k, groups[i].values + [v])]
        {
          assert i == 0;
        }
      }
    }
  }

  /** The groups have pairwise distinct keys. */
  lemma {:induction false} GroupByDistinct<K>(rows: seq<(K, real)>)
    ensures DistinctKeys(GroupBy(rows))
  {
    if rows != [] {
      var init := rows[..|rows| - 1];
      var last := rows[|rows| - 1];
      var gs := GroupBy(init);
      GroupByDistinct(init);
      AddToSpec(gs, last.0, last.1);
      if HasKey(gs, last.0) {
        var i :| 0 <= i < |gs| && gs[i].key == last.0;
        assert GroupBy(rows) == gs[i := Group(last.0, gs[i].values + [last.1])];
      } else {
        assert GroupBy(rows) == gs + [Group(last.0, [last.1])];
      }
    }
  }

  /** Adding a value gives the key a group and changes no other key's presence. */
  lemma AddToKeys<K>(gs: seq<Group<K>>, k: K, v: real)
    requires DistinctKeys(gs)
    ensures forall x :: HasKey(AddTo(gs, k, v), x) <==> HasKey(gs, x) || x == k
  {
    AddToSpec(gs, k, v);
    var gs' := AddTo(gs, k, v);
    forall x ensures HasKey(gs', x) <==> HasKey(gs, x) || x == k {
      if HasKey(gs, k) {
        var j :| 0 <= j < |gs| && gs[j].key == k;
        assert gs'[j].key == k;
        if HasKey(gs', x) {
          var i :| 0 <= i < |gs'| && gs'[i].key == x;
          if i != j { assert gs[i] == gs'[i]; }
        }
        if HasKey(gs, x) {
          var i :| 0 <= i < |gs| && gs[i].key == x;
          if i != j { assert gs'[i] == gs[i]; }
        }
      } else {
        assert gs'[|gs|].key == k;
        if HasKey(gs', x) {
          var i :| 0 <= i < |gs'| && gs'[i].key == x;
          if i < |gs| { assert gs[i] == gs'[i]; }
        }
        if HasKey(gs, x) {
          var i :| 0 <= i < |gs| && gs[i].key == x;
          assert gs'[i] == gs[i];
        }
      }
    }
  }

  /** There is a group for a key exactly when some row has that key. */
  lemma {:induction false} GroupByKeys<K>(rows: seq<(K, real)>)
    ensures forall k :: HasKey(GroupBy(rows), k) <==> exists i :: 0 <= i < |rows| && rows[i].0 == k
  {
    if rows != [] {
      var init := rows[..|rows| - 1];
      var last := rows[|rows| - 1];
      GroupByKeys(init);
      GroupByDistinct(init);
      AddToKeys(GroupBy(init), last.0, last.1);
      forall k ensures HasKey(GroupBy(rows), k) <==> exists i :: 0 <= i < |rows| && rows[i].0 == k {
        if exists i :: 0 <= i < |init| && init[i].0 == k {
          var i :| 0 <= i < |init| && init[i].0 == k;
          assert rows[i] == init[i];
        }
        if exists i :: 0 <= i < |rows| && rows[i].0 == k {
          var i :| 0 <= i < |rows| && rows[i].0 == k;
          if i < |init| { assert init[i] == rows[i]; }
        }
      }
    }
  }

  /** One more row extends its key's values and leaves the others alone. */
  lemma ValuesForSnoc<K>(rows: seq<(K, real)>, k: K, v: real, x: K)
    ensures ValuesFor(rows + [(k, v)], x) == ValuesFor(rows, x) + (if x == k then [v] else [])
  {
    assert (rows + [(k, v)])[..|rows|] == rows;
  }

  /** Adding a row's value to the groups keeps every group equal to the
      values of its key. */
  lemma AddToValues<K>(gs: seq<Group<K>>, rows: seq<(K, real)>, k: K, v: real)
    requires DistinctKeys(gs)
    requires forall g :: g in gs ==> g.values == ValuesFor(rows, g.key)
    requires !HasKey(gs, k) ==> ValuesFor(rows, k) == []
    ensures forall g :: g in AddTo(gs, k, v) ==> g.values == ValuesFor(rows + [(k, v)], g.key)
  {
    AddToSpec(gs, k, v);
    var gs' := AddTo(gs, k, v);
    forall g | g in gs' ensures g.values == ValuesFor(rows + [(k, v)], g.key) {
      ValuesForSnoc(rows, k, v, g.key);
      var i :| 0 <= i < |gs'| && gs'[i] == g;
      if HasKey(gs, k) {
        var j :| 0 <= j < |gs| && gs[j].key == k;
        if i != j {
          assert gs[i] == g;
          assert g.key != k;
        } else {
          assert gs[j] in gs;
        }
      } else if i < |gs| {
        assert gs[i] == g;
        assert g.key != k;
      } else {
        assert g == Group(k, [v]);
      }
    }
  }

  /** A group's values are exactly the values of the rows with its key. */
  lemma {:induction false} GroupByValues<K>(rows: seq<(K, real)>)
    ensures forall g :: g in GroupBy(rows) ==> g.values == ValuesFor(rows, g.key)
  {
    if rows != [] {
      var init := rows[..|rows| - 1];
      var last := rows[|rows| - 1];
      GroupByValues(init);
      GroupByDistinct(init);
      GroupByKeys(init);
      if !HasKey(GroupBy(init), last.0) {
        ValuesForAbsent(init, last.0);
      }
      AddToValues(GroupBy(init), init, last.0, last.1);
      assert init + [(last.0, last.1)] == rows;
    }
  }

  /** A key that no row has collects no values. */
  lemma {:induction false} ValuesForAbsent<K>(rows: seq<(K, real)>, k: K)
    requires forall i :: 0 <= i < |rows| ==> rows[i].0 != k
    ensures ValuesFor(rows, k) == []
  {
    if rows != [] {
      ValuesForAbsent(rows[..|rows| - 1], k);
    }
  }

  /** A key that some row has collects at least one value. */
  lemma {:induction false} ValuesForPresent<K>(rows: seq<(K, real)>, k: K)
    requires exists i :: 0 <= i < |rows| && rows[i].0 == k
    ensures ValuesFor(rows, k) != []
  {
    var init := rows[..|rows| - 1];
    if rows[|rows| - 1].0 != k {
      var i :| 0 <= i < |rows| && rows[i].0 == k;
      assert init[i] == rows[i];
      ValuesForPresent(init, k);
    }
  }

  /** Each value of a key's group is the value of some row with that key. */
  lemma {:induction false} ValuesForMembers<K>(rows: seq<(K, real)>, k: K)
    ensures forall v :: v in ValuesFor(rows, k) ==> exists i :: 0 <= i < |rows| && rows[i] == (k, v)
  {
    if rows != [] {
      var init := rows[..|rows| - 1];
      ValuesForMembers(init, k);
      forall v | v in ValuesFor(rows, k) ensures exists i :: 0 <= i < |rows| && rows[i] == (k, v) {
        if v in ValuesFor(init, k) {
          var i :| 0 <= i < |init| && init[i] == (k, v);
          assert rows[i] == init[i];
        } else {
          assert rows[|rows| - 1] == (k, v);
        }
      }
    }
  }

  /** The values gathered for a key in a table of positive values are positive. */
  lemma ValuesForPositive<K>(rows: seq<(K, real)>, k: K)
    requires forall i :: 0 <= i < |rows| ==> rows[i].1 > 0.0
    ensures forall i :: 0 <= i < |ValuesFor(rows, k)| ==> ValuesFor(rows, k)[i] > 0.0
  {
    var vs := ValuesFor(rows, k);
    ValuesForMembers(rows, k);
    forall i | 0 <= i < |vs| ensures vs[i] > 0.0 {
      assert vs[i] in vs;
      var j :| 0 <= j < |rows| && rows[j] == (k, vs[i]);
      assert rows[j].1 == vs[i];
    }
  }

  /** The sum of all the groups' values. */
  function GroupsTotal<K>(groups: seq<Group<K>>): real {
    if groups == [] then 0.0
    else GroupsTotal(groups[..|groups| - 1]) + Total(groups[|groups| - 1].values)
  }

  /** Replacing one group changes the grand total by the difference of its sums. */
  lemma {:induction false} GroupsTotalUpdate<K>(groups: seq<Group<K>>, i: nat, g: Group<K>)
    requires i < |groups|
    ensures GroupsTotal(groups[i := g]) == GroupsTotal(groups) - Total(groups[i].values) + Total(g.values)
  {
    var n := |groups|;
    var gs' := groups[i := g];
    assert gs'[..n - 1] == if i == n - 1 then groups[..n - 1] else groups[..n - 1][i := g];
    if i < n - 1 {
      GroupsTotalUpdate(groups[..n - 1], i, g);
    }
  }

  /** Adding a value to the groups adds it to their grand total. */
  lemma AddToTotal<K>(gs: seq<Group<K>>, k: K, v: real)
    requires DistinctKeys(gs)
    ensures GroupsTotal(AddTo(gs, k, v)) == GroupsTotal(gs) + v
  {
    AddToSpec(gs, k, v);
    if HasKey(gs, k) {
      var j :| 0 <= j < |gs| && gs[j].key == k;
      GroupsTotalUpdate(gs, j, Group(k, gs[j].values + [v]));
      assert (gs[j].values + [v])[..|gs[j].values|] == gs[j].values;
    } else {
      var gs' := gs + [Group(k, [v])];
      assert gs'[..|gs'| - 1] == gs;
      assert [v][..0] == [];
      assert Total([v]) == v;
      assert GroupsTotal(gs') == GroupsTotal(gs) + Total([v]);
    }
  }

  /** Grouping loses no value and counts none twice: the groups' sums add
      up to the sum of the whole value column. */
  lemma {:induction false} GroupByTotal<K>(rows: seq<(K, real)>)
    ensures GroupsTotal(GroupBy(rows)) == Total(ValueColumn(rows))
  {
    if rows != [] {
      var init := rows[..|rows| - 1];
      var last := rows[|rows| - 1];
      GroupByTotal(init);
      GroupByDistinct(init);
      AddToTotal(GroupBy(init), last.0, last.1);
      assert ValueColumn(rows)[..|rows| - 1] == ValueColumn(init);
    }
  }
}
