/** Reading a whole table: `SELECT *` without `ORDER BY` returns every row once, in an order
    the model leaves open. */
module Table {
  import opened Uuid

  method Rows<V(==)>(m: map<UUID, V>) returns (rows: seq<V>, ghost order: seq<UUID>)
    ensures |rows| == |m|
    ensures forall v :: v in rows <==> v in m.Values
    ensures |order| == |m|
    ensures forall i :: 0 <= i < |order| ==> order[i] in m && rows[i] == m[order[i]]
    ensures forall i, j :: 0 <= i < j < |order| ==> order[i] != order[j]
    ensures forall k :: k in m ==> k in order
  {
    var left := m.Keys;
    rows, order := [], [];
    while left != {}
      invariant left <= m.Keys
      invariant |rows| == |order| && |order| + |left| == |m|
      invariant forall i :: 0 <= i < |order| ==> order[i] in m && order[i] !in left && rows[i] == m[order[i]]
      invariant forall i, j :: 0 <= i < j < |order| ==> order[i] != order[j]
      invariant forall k :: k in m ==> k in left || k in order
      decreases left
    {
      var k :| k in left;
      rows := rows + [m[k]];
      order := order + [k];
      left := left - {k};
    }
    forall v ensures v in rows <==> v in m.Values {
      if v in m.Values {
        var k :| k in m && m[k] == v;
        var i :| 0 <= i < |order| && order[i] == k;
        assert rows[i] == v;
      }
    }
  }

  /** The rows of a table whose values carry their own key are pairwise distinct. */
  lemma DistinctRows<V>(m: map<UUID, V>, rows: seq<V>, order: seq<UUID>, key: V -> UUID)
    requires forall k :: k in m ==> key(m[k]) == k
    requires |rows| == |order|
    requires forall i :: 0 <= i < |order| ==> order[i] in m && rows[i] == m[order[i]]
    requires forall i, j :: 0 <= i < j < |order| ==> order[i] != order[j]
    ensures forall i, j :: 0 <= i < j < |rows| ==> rows[i] != rows[j]
  {
    forall i, j | 0 <= i < j < |rows| ensures rows[i] != rows[j] {
      assert key(rows[i]) == order[i] && key(rows[j]) == order[j];
    }
  }
}
