/**
 * Insertion-ordered maps, the shape of a PHP array: the entries are kept in
 * the order their keys were first assigned, assigning to an existing key
 * replaces its value in place, and assigning to a new key appends.
 * Rendering and legends depend on this order, so every breakdown and every
 * series in the model is one of these rather than a Dafny `map`.
 */
module OrderedMaps {

  datatype Option<T> = None | Some(value: T)

  /** A PHP array: a sequence of (key, value) entries in insertion order. */
  type OMap<K, V> = seq<(K, V)>

  function Keys<K(==), V>(m: OMap<K, V>): seq<K>
  {
    seq(|m|, i requires 0 <= i < |m| => m[i].0)
  }

  /** No key occurs twice: every OMap built by `Put` from `[]` has this shape. */
  ghost predicate DistinctKeys<K, V>(m: OMap<K, V>)
  {
    forall i, j :: 0 <= i < j < |m| ==> m[i].0 != m[j].0
  }

  /** Keys strictly ascending, as left behind by PHP's `ksort` on distinct keys. */
  ghost predicate StrictlyIncreasing<V>(m: OMap<int, V>)
  {
    forall i, j :: 0 <= i < j < |m| ==> m[i].0 < m[j].0
  }

  /** `$m[$k]`: the value stored under `k`, if any. */
  function Get<K(==), V>(m: OMap<K, V>, k: K): (r: Option<V>)
    ensures r.Some? <==> k in Keys(m)
  {
    if m == [] then None
    else if m[0].0 == k then
      assert Keys(m)[0] == k;
      Some(m[0].1)
    else
      assert Keys(m) == [m[0].0] + Keys(m[1..]);
      Get(m[1..], k)
  }

  /** `$m[$k] ?? $default`. */
  function GetOr<K(==), V>(m: OMap<K, V>, k: K, default: V): V
  {
    match Get(m, k)
    case Some(v) => v
    case None => default
  }

  /** The assignment `$m[$k] = $v`: replaces the value in place, or appends a new entry. */
  function Put<K(==), V>(m: OMap<K, V>, k: K, v: V): OMap<K, V>
  {
    if m == [] then [(k, v)]
    else if m[0].0 == k then [(k, v)] + m[1..]
    else [m[0]] + Put(m[1..], k, v)
  }

  /** An assignment keeps the key order and appends a key it has not seen. */
  lemma {:induction false} PutKeyOrder<K, V>(m: OMap<K, V>, k: K, v: V)
    ensures Keys(Put(m, k, v)) == if k in Keys(m) then Keys(m) else Keys(m) + [k]
  {
    if m != [] {
      assert Keys(m) == [m[0].0] + Keys(m[1..]);
      if m[0].0 == k {
        assert Keys(Put(m, k, v)) == Keys(m);
      } else {
        PutKeyOrder(m[1..], k, v);
        assert Keys(Put(m, k, v)) == [m[0].0] + Keys(Put(m[1..], k, v));
      }
    }
  }

  /** An assignment keeps the key order and appends a key it has not seen; keys stay distinct. */
  lemma PutKeys<K, V>(m: OMap<K, V>, k: K, v: V)
    ensures Keys(Put(m, k, v)) == if k in Keys(m) then Keys(m) else Keys(m) + [k]
    ensures DistinctKeys(m) ==> DistinctKeys(Put(m, k, v))
  {
    PutKeyOrder(m, k, v);
    var r := Put(m, k, v);
    if DistinctKeys(m) {
      forall i, j | 0 <= i < j < |r| ensures r[i].0 != r[j].0 {
        assert r[i].0 == Keys(r)[i] && r[j].0 == Keys(r)[j];
        if j < |m| {
          assert Keys(r)[i] == m[i].0 && Keys(r)[j] == m[j].0;
        } else {
          assert Keys(r)[i] == m[i].0 && Keys(r)[j] == k;
        }
      }
    }
  }

  /** After `$m[$k] = $v`, reading `k` gives `v` and every other key reads as before. */
  lemma {:induction false} GetPut<K, V>(m: OMap<K, V>, k: K, v: V, k': K)
    ensures Get(Put(m, k, v), k') == if k' == k then Some(v) else Get(m, k')
  {
    if m != [] && m[0].0 != k {
      GetPut(m[1..], k, v, k');
    }
  }

  lemma {:induction false} PutAbsent<K, V>(m: OMap<K, V>, k: K, v: V)
    requires k !in Keys(m)
    ensures Put(m, k, v) == m + [(k, v)]
  {
    if m != [] {
      assert Keys(m) == [m[0].0] + Keys(m[1..]);
      PutAbsent(m[1..], k, v);
      assert [m[0]] + (m[1..] + [(k, v)]) == m + [(k, v)];
    }
  }

  lemma {:induction false} PutPresent<K, V>(m: OMap<K, V>, i: nat, v: V)
    requires DistinctKeys(m) && i < |m|
    ensures Put(m, m[i].0, v) == m[i := (m[i].0, v)]
  {
    if i > 0 {
      PutPresent(m[1..], i - 1, v);
      assert [m[0]] + m[1..][i - 1 := (m[i].0, v)] == m[i := (m[i].0, v)];
    }
  }

  lemma {:induction false} GetFound<K, V>(m: OMap<K, V>, k: K)
    requires k in Keys(m)
    ensures exists i :: 0 <= i < |m| && m[i].0 == k && m[i].1 == Get(m, k).value
  {
    if m[0].0 != k {
      assert Keys(m) == [m[0].0] + Keys(m[1..]);
      GetFound(m[1..], k);
      var i :| 0 <= i < |m| - 1 && m[1..][i].0 == k && m[1..][i].1 == Get(m, k).value;
      assert m[i + 1].0 == k;
    }
  }

  /** With distinct keys, the lookup finds exactly the entries of the sequence. */
  lemma GetAt<K, V>(m: OMap<K, V>, i: nat)
    requires DistinctKeys(m) && i < |m|
    ensures Get(m, m[i].0) == Some(m[i].1)
  {
    assert m[i].0 in Keys(m);
    GetFound(m, m[i].0);
  }

  /** The sum of the values, as PHP's loop `foreach ($m as $x) $sum += $x;` computes it. */
  function SumValues<K>(m: OMap<K, int>): int
  {
    if m == [] then 0 else SumValues(m[..|m| - 1]) + m[|m| - 1].1
  }

  lemma {:induction false} SumValuesAppend<K>(a: OMap<K, int>, b: OMap<K, int>)
    ensures SumValues(a + b) == SumValues(a) + SumValues(b)
  {
    if b != [] {
      var ab := a + b;
      assert ab[..|ab| - 1] == a + b[..|b| - 1];
      assert ab[|ab| - 1] == b[|b| - 1];
      SumValuesAppend(a, b[..|b| - 1]);
      assert SumValues(ab) == SumValues(a + b[..|b| - 1]) + b[|b| - 1].1;
    } else {
      assert a + b == a;
    }
  }

  // ---------------------------------------------------------------------
  // Two-level arrays `$values[$row][$col] = $x`, built cell by cell.

  /** `$m[$row][$col] = $x`: creates the row when it is missing. */
  function SetCell<R(==), C(==), V>(m: OMap<R, OMap<C, V>>, row: R, col: C, x: V): OMap<R, OMap<C, V>>
  {
    Put(m, row, Put(GetOr(m, row, []), col, x))
  }

  /** `$m[$row][$col]`, or None when either level is missing. */
  function Lookup2<R(==), C(==), V>(m: OMap<R, OMap<C, V>>, row: R, col: C): Option<V>
  {
    match Get(m, row)
    case None => None
    case Some(inner) => Get(inner, col)
  }

  /** The cells (row, column, value) assigned one after the other. */
  function WriteCells<R(==), C(==), V>(m: OMap<R, OMap<C, V>>, cells: seq<(R, C, V)>): OMap<R, OMap<C, V>>
  {
    if cells == [] then m
    else
      var c := cells[|cells| - 1];
      SetCell(WriteCells(m, cells[..|cells| - 1]), c.0, c.1, c.2)
  }

  lemma WriteCellsSnoc<R, C, V>(m: OMap<R, OMap<C, V>>, cells: seq<(R, C, V)>, c: (R, C, V))
    ensures WriteCells(m, cells + [c]) == SetCell(WriteCells(m, cells), c.0, c.1, c.2)
  {
    assert (cells + [c])[..|cells|] == cells;
  }

  /** The value of the last cell written at (row, col), an independent reading of `WriteCells`. */
  function LastWrite<R(==), C(==), V>(cells: seq<(R, C, V)>, row: R, col: C): Option<V>
  {
    if cells == [] then None
    else if cells[|cells| - 1].0 == row && cells[|cells| - 1].1 == col then Some(cells[|cells| - 1].2)
    else LastWrite(cells[..|cells| - 1], row, col)
  }

  lemma SetCellLookup<R, C, V>(m: OMap<R, OMap<C, V>>, row: R, col: C, x: V, r: R, c: C)
    ensures Lookup2(SetCell(m, row, col, x), r, c) == if r == row && c == col then Some(x) else Lookup2(m, r, c)
  {
    var inner := GetOr(m, row, []);
    GetPut(m, row, Put(inner, col, x), r);
    GetPut(inner, col, x, c);
  }

  /** Reading a cell after a run of assignments gives the last value written there, else the old one. */
  lemma {:induction false} WriteCellsLookup<R, C, V>(m: OMap<R, OMap<C, V>>, cells: seq<(R, C, V)>, row: R, col: C)
    ensures Lookup2(WriteCells(m, cells), row, col) ==
            match LastWrite(cells, row, col)
            case Some(x) => Some(x)
            case None => Lookup2(m, row, col)
  {
    if cells != [] {
      var c := cells[|cells| - 1];
      WriteCellsLookup(m, cells[..|cells| - 1], row, col);
      SetCellLookup(WriteCells(m, cells[..|cells| - 1]), c.0, c.1, c.2, row, col);
    }
  }

  lemma {:induction false} LastWriteAppend<R, C, V>(a: seq<(R, C, V)>, b: seq<(R, C, V)>, row: R, col: C)
    ensures LastWrite(a + b, row, col) == if LastWrite(b, row, col).Some? then LastWrite(b, row, col) else LastWrite(a, row, col)
  {
    if b != [] {
      var ab := a + b;
      assert ab[..|ab| - 1] == a + b[..|b| - 1];
      assert ab[|ab| - 1] == b[|b| - 1];
      LastWriteAppend(a, b[..|b| - 1], row, col);
    } else {
      assert a + b == a;
    }
  }
}
