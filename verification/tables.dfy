/** The tabular side of a GeoDataFrame: rows that carry one geometry and a
    map from column name to a string cell that may be null, plus the pandas
    operations the core uses on them: `dropna`, `groupby(...).size()`,
    `nunique` and a left `merge` on one key. */
module Tables {
  import opened Wrappers
  import opened Spatial

  /** One record: its geometry and its named cells (`None` is a null cell). */
  datatype Row<G> = Row(geometry: G, cells: map<string, Option<string>>)

  /** A table: its column names and its rows, in index order. */
  datatype Table<G> = Table(columns: set<string>, rows: seq<Row<G>>)

  /** The value in column `c` of `r`; a cell the row does not carry reads as null. */
  function Cell<G>(r: Row<G>, c: string): Option<string>
  {
    if c in r.cells then r.cells[c] else None
  }

  /** Squared distances from `p` to the centroid of each region, in table
      order: the series whose `idxmin` the proximity stages read. */
  function Distances<G>(p: Coord, regions: seq<Row<G>>, centroid: G -> Coord): (d: seq<int>)
    ensures |d| == |regions|
  {
    seq(|regions|, j requires 0 <= j < |regions| => SqDist(p, centroid(regions[j].geometry)))
  }

  /** Column `c` of `t`, top to bottom. */
  function Column<G>(t: Table<G>, c: string): seq<Option<string>>
  {
    seq(|t.rows|, i requires 0 <= i < |t.rows| => Cell(t.rows[i], c))
  }

  /** A column of six rows is determined by its six cells. */
  lemma ColumnOfSix<G>(t: Table<G>, c: string, e0: Option<string>, e1: Option<string>, e2: Option<string>,
                       e3: Option<string>, e4: Option<string>, e5: Option<string>)
    requires |t.rows| == 6
    requires Cell(t.rows[0], c) == e0 && Cell(t.rows[1], c) == e1 && Cell(t.rows[2], c) == e2
    requires Cell(t.rows[3], c) == e3 && Cell(t.rows[4], c) == e4 && Cell(t.rows[5], c) == e5
    ensures Column(t, c) == [e0, e1, e2, e3, e4, e5]
  {
  }

  /** The geometry column of `t`, top to bottom. */
  function Geometries<G>(t: Table<G>): seq<G>
  {
    seq(|t.rows|, i requires 0 <= i < |t.rows| => t.rows[i].geometry)
  }

  /** `t` with column `c` set to `vals`, row by row (`t[c] = vals`): a new
      column when `c` was absent, an overwrite when it was present. */
  function WithColumn<G>(t: Table<G>, c: string, vals: seq<Option<string>>): (r: Table<G>)
    requires |vals| == |t.rows|
    ensures r.columns == t.columns + {c} && |r.rows| == |t.rows|
    ensures forall i | 0 <= i < |t.rows| :: r.rows[i].geometry == t.rows[i].geometry && Cell(r.rows[i], c) == vals[i]
    ensures forall i, c' | 0 <= i < |t.rows| && c' != c :: Cell(r.rows[i], c') == Cell(t.rows[i], c')
  {
    Table(t.columns + {c}, seq(|t.rows|, i requires 0 <= i < |t.rows| => Row(t.rows[i].geometry, t.rows[i].cells[c := vals[i]])))
  }

  /** How many entries of `s` are not null (`notna().sum()`). */
  function NumPresent<T>(s: seq<Option<T>>): nat
  {
    if |s| == 0 then 0
    else NumPresent(s[..|s| - 1]) + (if s[|s| - 1].Some? then 1 else 0)
  }

  /** `dropna()`: the non-null entries of `s`, in order. */
  function Present<T(!new)>(s: seq<Option<T>>): (r: seq<T>)
    ensures |r| == NumPresent(s)
    ensures forall x :: x in r <==> Some(x) in s
  {
    if |s| == 0 then []
    else
      var r := Present(s[..|s| - 1]);
      assert s == s[..|s| - 1] + [s[|s| - 1]];
      if s[|s| - 1].Some? then r + [s[|s| - 1].value] else r
  }

  /** A column has no null entry exactly when `notna().sum()` equals its
      length, so a null count of zero means full coverage. */
  lemma {:induction false} NumPresentFull<T>(s: seq<Option<T>>)
    ensures NumPresent(s) <= |s|
    ensures NumPresent(s) == |s| <==> forall i | 0 <= i < |s| :: s[i].Some?
  {
    if |s| > 0 {
      NumPresentFull(s[..|s| - 1]);
      assert s == s[..|s| - 1] + [s[|s| - 1]];
    }
  }

  /** Two columns null on the same rows have the same number of non-null
      entries. */
  lemma {:induction false} NumPresentSame<A, B>(s: seq<Option<A>>, u: seq<Option<B>>)
    requires |s| == |u|
    requires forall i | 0 <= i < |s| :: s[i].Some? <==> u[i].Some?
    ensures NumPresent(s) == NumPresent(u)
  {
    if |s| > 0 {
      NumPresentSame(s[..|s| - 1], u[..|u| - 1]);
    }
  }

  /** Number of occurrences of `x` in `s`. */
  function Count<T(==)>(x: T, s: seq<T>): nat
  {
    if |s| == 0 then 0
    else Count(x, s[..|s| - 1]) + (if s[|s| - 1] == x then 1 else 0)
  }

  lemma {:induction false} CountPositive<T>(x: T, s: seq<T>)
    ensures Count(x, s) > 0 <==> x in s
  {
    if |s| > 0 {
      CountPositive(x, s[..|s| - 1]);
      assert s == s[..|s| - 1] + [s[|s| - 1]];
    }
  }

  /** Counting a value among the non-null entries is counting its cell. */
  lemma {:induction false} CountPresent<T(!new)>(x: T, s: seq<Option<T>>)
    ensures Count(x, Present(s)) == Count(Some(x), s)
  {
    if |s| > 0 {
      var p := s[..|s| - 1];
      var last := s[|s| - 1];
      CountPresent(x, p);
      if last.Some? {
        assert Present(s) == Present(p) + [last.value];
        assert (Present(p) + [last.value])[..|Present(p)|] == Present(p);
      }
    }
  }

  predicate NoDup<T(==)>(s: seq<T>)
  {
    forall i, j | 0 <= i < j < |s| :: s[i] != s[j]
  }

  /** The distinct values of `s` in order of first appearance: the groups
      `groupby` forms over a column with nulls dropped. */
  function Distinct<T(==,!new)>(s: seq<T>): (d: seq<T>)
    ensures NoDup(d)
    ensures forall x :: x in d <==> x in s
  {
    if |s| == 0 then []
    else
      var d := Distinct(s[..|s| - 1]);
      assert s == s[..|s| - 1] + [s[|s| - 1]];
      if s[|s| - 1] in d then d else d + [s[|s| - 1]]
  }

  /** The number of distinct values (`nunique`) is the number of elements
      of the set of values. */
  lemma {:induction false} DistinctSize<T(!new)>(s: seq<T>)
    ensures |Distinct(s)| == |set x | x in s|
  {
    var d := Distinct(s);
    NoDupCard(d);
    assert (set x | x in d) == (set x | x in s);
  }

  /** Keeping the first of each value never lengthens a sequence. */
  lemma {:induction false} DistinctNoLonger<T(!new)>(s: seq<T>)
    ensures |Distinct(s)| <= |s|
  {
    if |s| > 0 {
      DistinctNoLonger(s[..|s| - 1]);
    }
  }

  lemma {:induction false} NoDupCard<T>(d: seq<T>)
    requires NoDup(d)
    ensures |set x | x in d| == |d|
  {
    if |d| > 0 {
      var p := d[..|d| - 1];
      assert NoDup(p);
      NoDupCard(p);
      assert d == p + [d[|d| - 1]];
      assert d[|d| - 1] !in p;
      assert (set x | x in d) == (set x | x in p) + {d[|d| - 1]};
    }
  }

  function Sum(ns: seq<int>): int
  {
    if |ns| == 0 then 0 else Sum(ns[..|ns| - 1]) + ns[|ns| - 1]
  }

  /** Group sizes of `s` for the groups named in `keys`, in key order. */
  function CountsOf<T(==)>(keys: seq<T>, s: seq<T>): seq<int>
  {
    seq(|keys|, j requires 0 <= j < |keys| => Count(keys[j], s))
  }

  /** Appending one value to the grouped column adds one to the total over
      a duplicate-free key list when the value is one of its keys. */
  lemma {:induction false} SumCountsStep<T>(keys: seq<T>, s: seq<T>, x: T)
    requires NoDup(keys)
    ensures Sum(CountsOf(keys, s + [x])) == Sum(CountsOf(keys, s)) + (if x in keys then 1 else 0)
  {
    if |keys| > 0 {
      var p := keys[..|keys| - 1];
      var last := keys[|keys| - 1];
      assert NoDup(p);
      SumCountsStep(p, s, x);
      assert CountsOf(keys, s + [x])[..|keys| - 1] == CountsOf(p, s + [x]);
      assert CountsOf(keys, s)[..|keys| - 1] == CountsOf(p, s);
      assert (s + [x])[..|s + [x]| - 1] == s;
      assert keys == p + [last];
      assert x in keys <==> x in p || x == last;
      assert x == last ==> x !in p;
    }
  }

  /** The sizes of the groups of a column add up to its length: no value is
      counted twice and none is lost. */
  lemma {:induction false} DistinctCountsSum<T(!new)>(s: seq<T>)
    ensures Sum(CountsOf(Distinct(s), s)) == |s|
  {
    if |s| > 0 {
      var t := s[..|s| - 1];
      var x := s[|s| - 1];
      assert s == t + [x];
      DistinctCountsSum(t);
      var dt := Distinct(t);
      SumCountsStep(dt, t, x);
      if x !in dt {
        assert Distinct(s) == dt + [x];
        assert CountsOf(Distinct(s), s)[..|dt|] == CountsOf(dt, s);
        CountPositive(x, t);
        assert Count(x, s) == 1;
      }
    }
  }

  /** The right rows whose key equals `k` (a null key matches nothing). */
  function Matches<R(!new)>(k: Option<string>, right: seq<R>, key: R -> string): (m: seq<R>)
    ensures forall r :: r in m <==> r in right && k == Some(key(r))
  {
    if |right| == 0 then []
    else
      var m := Matches(k, right[..|right| - 1], key);
      var r := right[|right| - 1];
      assert right == right[..|right| - 1] + [r];
      if k == Some(key(r)) then m + [r] else m
  }

  /** pandas `merge(how='left')` on one key column: each left row, in order,
      paired with every matching right row in right order, or kept once with
      no partner when none matches. */
  function LeftJoin<L, R(!new)>(left: seq<L>, right: seq<R>, lkey: L -> Option<string>, rkey: R -> string): seq<(L, Option<R>)>
  {
    if |left| == 0 then []
    else
      var l := left[|left| - 1];
      var m := Matches(lkey(l), right, rkey);
      LeftJoin(left[..|left| - 1], right, lkey, rkey)
        + (if |m| == 0 then [(l, None)] else seq(|m|, i requires 0 <= i < |m| => (l, Some(m[i]))))
  }

  /** A left join never loses a left row: the output is at least as long as
      the left table, and every left row is the left part of some output row,
      and every output row's left part is a left row. */
  lemma {:induction false} LeftJoinKeepsLeft<L(!new), R(!new)>(left: seq<L>, right: seq<R>, lkey: L -> Option<string>, rkey: R -> string)
    ensures |LeftJoin(left, right, lkey, rkey)| >= |left|
    ensures forall l :: l in left <==> exists o :: o in LeftJoin(left, right, lkey, rkey) && o.0 == l
  {
    if |left| > 0 {
      var p := left[..|left| - 1];
      var l := left[|left| - 1];
      var m := Matches(lkey(l), right, rkey);
      LeftJoinKeepsLeft(p, right, lkey, rkey);
      var block := if |m| == 0 then [(l, None)] else seq(|m|, i requires 0 <= i < |m| => (l, Some(m[i])));
      assert LeftJoin(left, right, lkey, rkey) == LeftJoin(p, right, lkey, rkey) + block;
      assert block[0].0 == l;
      assert forall o | o in block :: o.0 == l;
      assert left == p + [l];
    }
  }

  /** With unique right keys (as `groupby` output and a dict's keys are), the
      left join is one-to-one: row `i` of the output is left row `i`, paired
      with the right row carrying its key if there is one. */
  lemma {:induction false} LeftJoinUnique<L, R(!new)>(left: seq<L>, right: seq<R>, lkey: L -> Option<string>, rkey: R -> string)
    requires forall i, j | 0 <= i < j < |right| :: rkey(right[i]) != rkey(right[j])
    ensures |LeftJoin(left, right, lkey, rkey)| == |left|
    ensures forall i | 0 <= i < |left| ::
      && LeftJoin(left, right, lkey, rkey)[i].0 == left[i]
      && (LeftJoin(left, right, lkey, rkey)[i].1.Some? <==> exists r :: r in right && lkey(left[i]) == Some(rkey(r)))
      && (LeftJoin(left, right, lkey, rkey)[i].1.Some? ==>
            && LeftJoin(left, right, lkey, rkey)[i].1.value in right
            && lkey(left[i]) == Some(rkey(LeftJoin(left, right, lkey, rkey)[i].1.value)))
  {
    if |left| > 0 {
      var p := left[..|left| - 1];
      var l := left[|left| - 1];
      var m := Matches(lkey(l), right, rkey);
      LeftJoinUnique(p, right, lkey, rkey);
      MatchesAtMostOne(lkey(l), right, rkey);
      var out := LeftJoin(left, right, lkey, rkey);
      assert out == LeftJoin(p, right, lkey, rkey) + (if |m| == 0 then [(l, None)] else [(l, Some(m[0]))]);
      assert |m| > 0 ==> m[0] in m;
    }
  }

  /** Under unique right keys, the merge is a lookup: row `i` of the output
      is left row `i` paired with the right row that carries its key, or with
      nothing when no right row does. */
  lemma LeftJoinLookup<L, R(!new)>(left: seq<L>, right: seq<R>, lkey: L -> Option<string>, rkey: R -> string)
    requires forall i, j | 0 <= i < j < |right| :: rkey(right[i]) != rkey(right[j])
    ensures |LeftJoin(left, right, lkey, rkey)| == |left|
    ensures forall i | 0 <= i < |left| :: LeftJoin(left, right, lkey, rkey)[i].0 == left[i]
    ensures forall i, r | 0 <= i < |left| && r in right && lkey(left[i]) == Some(rkey(r)) ::
      LeftJoin(left, right, lkey, rkey)[i].1 == Some(r)
    ensures forall i | 0 <= i < |left| && (forall r | r in right :: lkey(left[i]) != Some(rkey(r))) ::
      LeftJoin(left, right, lkey, rkey)[i].1.None?
  {
    LeftJoinUnique(left, right, lkey, rkey);
    var out := LeftJoin(left, right, lkey, rkey);
    forall i, r | 0 <= i < |left| && r in right && lkey(left[i]) == Some(rkey(r))
      ensures out[i].1 == Some(r)
    {
      var x := out[i].1.value;
      var a :| 0 <= a < |right| && right[a] == r;
      var b :| 0 <= b < |right| && right[b] == x;
      assert !(a < b) && !(b < a);
    }
  }

  lemma {:induction false} MatchesAtMostOne<R(!new)>(k: Option<string>, right: seq<R>, key: R -> string)
    requires forall i, j | 0 <= i < j < |right| :: key(right[i]) != key(right[j])
    ensures |Matches(k, right, key)| <= 1
  {
    if |right| > 0 {
      var p := right[..|right| - 1];
      var r := right[|right| - 1];
      MatchesAtMostOne(k, p, key);
      if k == Some(key(r)) {
        forall q | q in p
          ensures k != Some(key(q))
        {
          var i :| 0 <= i < |p| && p[i] == q;
          assert right[i] == q;
        }
        NoMatches(k, p, key);
      }
    }
  }

  lemma {:induction false} NoMatches<R(!new)>(k: Option<string>, right: seq<R>, key: R -> string)
    requires forall q | q in right :: k != Some(key(q))
    ensures Matches(k, right, key) == []
  {
    if |right| > 0 {
      NoMatches(k, right[..|right| - 1], key);
    }
  }
}
