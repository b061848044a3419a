/**
 * Sequence operations that stand for the array methods of the client
 * (`filter`, `find`, `slice`) and for the row selections of the server's
 * queries (`WHERE`, `ORDER BY ... DESC`, `UPDATE ... WHERE id = ...`).
 * A table or a fetched list is a `seq` of rows in its stored order.
 */
module Tables {
  import opened Wrappers

  /** The elements of `rows` that satisfy `keep`, in their original order. */
  function Filter<T>(rows: seq<T>, keep: T -> bool): (r: seq<T>)
    ensures |r| <= |rows|
    ensures forall i :: 0 <= i < |r| ==> r[i] in rows && keep(r[i])
    ensures forall i :: 0 <= i < |rows| && keep(rows[i]) ==> rows[i] in r
  {
    if rows == [] then []
    else
      var tail := Filter(rows[1..], keep);
      assert rows == [rows[0]] + rows[1..];
      if keep(rows[0]) then [rows[0]] + tail else tail
  }

  /** Where the `i`-th kept row sits in `rows`. */
  function FilterSource<T>(rows: seq<T>, keep: T -> bool, i: nat): (r: nat)
    requires i < |Filter(rows, keep)|
    ensures r < |rows| && rows[r] == Filter(rows, keep)[i]
    decreases |rows|
  {
    var tail := Filter(rows[1..], keep);
    if keep(rows[0]) then
      assert Filter(rows, keep) == [rows[0]] + tail;
      if i == 0 then 0 else 1 + FilterSource(rows[1..], keep, i - 1)
    else
      assert Filter(rows, keep) == tail;
      1 + FilterSource(rows[1..], keep, i)
  }

  /** Later kept rows come from later positions. */
  lemma {:induction false} FilterSourceIncreasing<T>(rows: seq<T>, keep: T -> bool, i: nat, j: nat)
    requires i < j < |Filter(rows, keep)|
    ensures FilterSource(rows, keep, i) < FilterSource(rows, keep, j)
    decreases |rows|
  {
    var tail := Filter(rows[1..], keep);
    if keep(rows[0]) {
      assert Filter(rows, keep) == [rows[0]] + tail;
      if i > 0 {
        FilterSourceIncreasing(rows[1..], keep, i - 1, j - 1);
      }
    } else {
      assert Filter(rows, keep) == tail;
      FilterSourceIncreasing(rows[1..], keep, i, j);
    }
  }

  /** The filter keeps the order of the rows it keeps. */
  lemma FilterOrder<T>(rows: seq<T>, keep: T -> bool, i: nat, j: nat)
    requires i < j < |Filter(rows, keep)|
    ensures exists a, b :: 0 <= a < b < |rows| && rows[a] == Filter(rows, keep)[i] && rows[b] == Filter(rows, keep)[j]
  {
    FilterSourceIncreasing(rows, keep, i, j);
    var a, b := FilterSource(rows, keep, i), FilterSource(rows, keep, j);
    assert 0 <= a < b < |rows| && rows[a] == Filter(rows, keep)[i] && rows[b] == Filter(rows, keep)[j];
  }

  /**
   * The index of the first element of `rows` that satisfies `p`, or `|rows|`
   * when there is none (where JavaScript's `findIndex` answers -1).
   */
  function FirstIndex<T>(rows: seq<T>, p: T -> bool): (k: nat)
    ensures k <= |rows|
    ensures forall j :: 0 <= j < k ==> !p(rows[j])
    ensures k < |rows| ==> p(rows[k])
  {
    if rows == [] then 0
    else if p(rows[0]) then 0
    else 1 + FirstIndex(rows[1..], p)
  }

  /** `Array.prototype.find`: the first element that satisfies `p`, if any. */
  function FindFirst<T>(rows: seq<T>, p: T -> bool): (r: Option<T>)
    ensures r.None? <==> forall j :: 0 <= j < |rows| ==> !p(rows[j])
    ensures r.Some? ==> FirstIndex(rows, p) < |rows| && rows[FirstIndex(rows, p)] == r.value && p(r.value)
  {
    var k := FirstIndex(rows, p);
    if k < |rows| then Some(rows[k]) else None
  }

  /** Finding in a filtered list by the filter's own predicate is finding in the whole list. */
  lemma {:induction false} FindFirstAfterFilter<T>(rows: seq<T>, p: T -> bool)
    ensures FindFirst(Filter(rows, p), p) == FindFirst(rows, p)
  {
    if rows != [] {
      FindFirstAfterFilter(rows[1..], p);
      if !p(rows[0]) {
        assert FindFirst(rows, p) == FindFirst(rows[1..], p) by {
          assert FirstIndex(rows, p) == 1 + FirstIndex(rows[1..], p);
        }
      }
    }
  }

  /** The first `n` elements, or all of them when there are fewer (`slice(0, n)`). */
  function Take<T>(rows: seq<T>, n: nat): (r: seq<T>)
    ensures |r| == if |rows| < n then |rows| else n
    ensures r <= rows
  {
    if |rows| <= n then rows else rows[..n]
  }

  /** `rows` ordered so that `key` never increases from one row to the next. */
  predicate SortedDesc<T>(rows: seq<T>, key: T -> int)
  {
    forall i, j :: 0 <= i < j < |rows| ==> key(rows[i]) >= key(rows[j])
  }

  /** Dropping the head of a descending list leaves a descending list. */
  lemma SortedDescTail<T>(rows: seq<T>, key: T -> int)
    requires |rows| > 0 && SortedDesc(rows, key)
    ensures SortedDesc(rows[1..], key)
  {
    forall i, j | 0 <= i < j < |rows[1..]| ensures key(rows[1..][i]) >= key(rows[1..][j]) {
      assert rows[1..][i] == rows[i + 1] && rows[1..][j] == rows[j + 1];
    }
  }

  /** A head no smaller than any element of a descending list extends it. */
  lemma SortedDescCons<T>(h: T, rows: seq<T>, key: T -> int)
    requires SortedDesc(rows, key)
    requires forall k :: 0 <= k < |rows| ==> key(h) >= key(rows[k])
    ensures SortedDesc([h] + rows, key)
  {
    var r := [h] + rows;
    forall i, j | 0 <= i < j < |r| ensures key(r[i]) >= key(r[j]) {
      assert r[j] == rows[j - 1];
      if i > 0 {
        assert r[i] == rows[i - 1];
      }
    }
  }

  /**
   * The head of a descending list bounds every element of the list's tail
   * with one smaller element added.
   */
  lemma HeadBoundsInsert<T>(x: T, rows: seq<T>, tail: seq<T>, key: T -> int)
    requires |rows| > 0 && SortedDesc(rows, key) && key(x) < key(rows[0])
    requires multiset(tail) == multiset(rows[1..]) + multiset{x}
    ensures forall k :: 0 <= k < |tail| ==> key(rows[0]) >= key(tail[k])
  {
    forall k | 0 <= k < |tail| ensures key(rows[0]) >= key(tail[k]) {
      var y := tail[k];
      assert y in multiset(tail);
      if y != x {
        assert y in multiset(rows[1..]);
        var j :| 0 <= j < |rows[1..]| && rows[1..][j] == y;
        assert rows[j + 1] == y;
      }
    }
  }

  /** Inserts `x` into a list that is already in descending key order. */
  function InsertDesc<T>(x: T, rows: seq<T>, key: T -> int): (r: seq<T>)
    requires SortedDesc(rows, key)
    ensures SortedDesc(r, key)
    ensures multiset(r) == multiset(rows) + multiset{x}
  {
    if rows == [] || key(x) >= key(rows[0]) then
      [x] + rows
    else
      SortedDescTail(rows, key);
      var tail := InsertDesc(x, rows[1..], key);
      assert rows == [rows[0]] + rows[1..];
      HeadBoundsInsert(x, rows, tail, key);
      SortedDescCons(rows[0], tail, key);
      [rows[0]] + tail
  }

  /**
   * `ORDER BY key DESC`: the rows rearranged into descending key order.
   * Rows with equal keys may come in any order in SQL; this function fixes one.
   */
  function SortDesc<T>(rows: seq<T>, key: T -> int): (r: seq<T>)
    ensures SortedDesc(r, key)
    ensures multiset(r) == multiset(rows)
  {
    if rows == [] then []
    else
      assert rows == [rows[0]] + rows[1..];
      InsertDesc(rows[0], SortDesc(rows[1..], key), key)
  }

  /** Every row whose key is `id` replaced by `f` of itself (`UPDATE ... SET ... WHERE id = ...`). */
  function MapWhere<T>(rows: seq<T>, key: T -> int, id: int, f: T -> T): (r: seq<T>)
    ensures |r| == |rows|
    ensures forall i :: 0 <= i < |rows| ==> r[i] == if key(rows[i]) == id then f(rows[i]) else rows[i]
  {
    if rows == [] then []
    else [if key(rows[0]) == id then f(rows[0]) else rows[0]] + MapWhere(rows[1..], key, id, f)
  }

  /** No two elements of `xs` are equal. */
  predicate Distinct<T(==)>(xs: seq<T>)
  {
    forall i, j :: 0 <= i < j < |xs| ==> xs[i] != xs[j]
  }

  /** No two rows agree on `proj` (a `unique()` column, or the primary key). */
  predicate Unique<T, K(==)>(rows: seq<T>, proj: T -> K)
  {
    forall i, j :: 0 <= i < j < |rows| ==> proj(rows[i]) != proj(rows[j])
  }

  /** Dropping rows keeps a unique column unique. */
  lemma {:induction false} FilterUnique<T, K>(rows: seq<T>, keep: T -> bool, proj: T -> K)
    requires Unique(rows, proj)
    ensures Unique(Filter(rows, keep), proj)
  {
    if rows != [] {
      FilterUnique(rows[1..], keep, proj);
      var tail := Filter(rows[1..], keep);
      forall k | 0 <= k < |tail| ensures proj(rows[0]) != proj(tail[k]) {
        var j :| 0 <= j < |rows[1..]| && rows[1..][j] == tail[k];
        assert rows[j + 1] == tail[k];
      }
    }
  }

  /** The rows whose key is not `id` (`DELETE ... WHERE id = ...` leaves these). */
  function Without<T>(rows: seq<T>, key: T -> int, id: int): (r: seq<T>)
    ensures |r| <= |rows|
    ensures forall i :: 0 <= i < |r| ==> r[i] in rows && key(r[i]) != id
    ensures forall i :: 0 <= i < |rows| && key(rows[i]) != id ==> rows[i] in r
  {
    Filter(rows, x => key(x) != id)
  }

  /** Deleting by key keeps every unique column unique. */
  lemma WithoutUnique<T, K>(rows: seq<T>, key: T -> int, id: int, proj: T -> K)
    requires Unique(rows, proj)
    ensures Unique(Without(rows, key, id), proj)
  {
    FilterUnique(rows, x => key(x) != id, proj);
  }

  /** The position of the first row whose key is `id`, or `|rows|`. */
  function IndexOfKey<T>(rows: seq<T>, key: T -> int, id: int): (k: nat)
    ensures k <= |rows|
    ensures forall j :: 0 <= j < k ==> key(rows[j]) != id
    ensures k < |rows| ==> key(rows[k]) == id
  {
    FirstIndex(rows, x => key(x) == id)
  }

  /** The first row whose key is `id` (`SELECT ... WHERE id = ...`, then `[row]`). */
  function FindKey<T>(rows: seq<T>, key: T -> int, id: int): (r: Option<T>)
    ensures r.None? <==> forall j :: 0 <= j < |rows| ==> key(rows[j]) != id
    ensures r.Some? ==> IndexOfKey(rows, key, id) < |rows| && r.value == rows[IndexOfKey(rows, key, id)]
  {
    var k := IndexOfKey(rows, key, id);
    if k < |rows| then Some(rows[k]) else None
  }

  /** With unique keys, the row found by key is the only row with that key. */
  lemma UniqueKeyAt<T>(rows: seq<T>, key: T -> int, id: int, i: int)
    requires Unique(rows, key)
    requires 0 <= i < |rows| && key(rows[i]) == id
    ensures IndexOfKey(rows, key, id) == i
  {
    var k := IndexOfKey(rows, key, id);
    if k < i {
      assert key(rows[k]) == key(rows[i]);
    }
  }

  /**
   * With unique keys, updating every row with key `id` is updating the one row
   * found by that key, and leaves every other row as it was.
   */
  lemma MapWhereUnique<T>(rows: seq<T>, key: T -> int, id: int, f: T -> T)
    requires Unique(rows, key)
    ensures var k := IndexOfKey(rows, key, id);
      MapWhere(rows, key, id, f) == if k < |rows| then rows[k := f(rows[k])] else rows
  {
    var k := IndexOfKey(rows, key, id);
    var r := MapWhere(rows, key, id, f);
    if k < |rows| {
      forall i | 0 <= i < |rows| ensures r[i] == rows[k := f(rows[k])][i] {
        if key(rows[i]) == id { UniqueKeyAt(rows, key, id, i); }
      }
    } else {
      forall i | 0 <= i < |rows| ensures r[i] == rows[i] { }
    }
  }

  /** Every key is below `next` and no key repeats: the state of a `serial` primary key. */
  predicate KeysBelow<T>(rows: seq<T>, key: T -> int, next: int)
  {
    Unique(rows, key) && forall i :: 0 <= i < |rows| ==> key(rows[i]) < next
  }

  /** A row inserted with the next serial value keeps the keys unique and below the advanced sequence. */
  lemma AppendKeysBelow<T>(rows: seq<T>, key: T -> int, next: int, x: T)
    requires KeysBelow(rows, key, next) && key(x) == next
    ensures KeysBelow(rows + [x], key, next + 1)
  {
  }

  /** Some row has key `id`. */
  predicate HasKey<T>(rows: seq<T>, key: T -> int, id: int)
  {
    exists j :: 0 <= j < |rows| && key(rows[j]) == id
  }

  /** Appending a row keeps a unique column unique exactly when no row already holds the new value. */
  lemma UniqueAppend<T, K>(rows: seq<T>, proj: T -> K, x: T)
    requires Unique(rows, proj)
    ensures Unique(rows + [x], proj) <==> forall i :: 0 <= i < |rows| ==> proj(rows[i]) != proj(x)
  {
    if Unique(rows + [x], proj) {
      forall i | 0 <= i < |rows| ensures proj(rows[i]) != proj(x) {
        assert (rows + [x])[i] == rows[i] && (rows + [x])[|rows|] == x;
      }
    }
  }

  /** Overwriting row `k` keeps a unique column unique exactly when no other row holds the new value. */
  lemma UniqueUpdate<T, K>(rows: seq<T>, proj: T -> K, k: nat, x: T)
    requires Unique(rows, proj) && k < |rows|
    ensures Unique(rows[k := x], proj) <==> forall i :: 0 <= i < |rows| && i != k ==> proj(rows[i]) != proj(x)
  {
    var r := rows[k := x];
    if Unique(r, proj) {
      forall i | 0 <= i < |rows| && i != k ensures proj(rows[i]) != proj(x) {
        assert r[i] == rows[i] && r[k] == x;
        if i < k { assert proj(r[i]) != proj(r[k]); } else { assert proj(r[k]) != proj(r[i]); }
      }
    }
  }

  /** Overwriting a row with one of the same key keeps the keys as they were. */
  lemma KeysBelowUpdate<T>(rows: seq<T>, key: T -> int, next: int, k: nat, x: T)
    requires KeysBelow(rows, key, next) && k < |rows| && key(x) == key(rows[k])
    ensures KeysBelow(rows[k := x], key, next)
  {
    var r := rows[k := x];
    forall i, j | 0 <= i < j < |r| ensures key(r[i]) != key(r[j]) {
      assert key(r[i]) == key(rows[i]) && key(r[j]) == key(rows[j]);
    }
  }
}
