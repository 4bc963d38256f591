/** Generic operations on an in-memory table: a sequence of rows in storage order. Every table of
    the database is one of these; the LINQ operators and the change-tracker operations the
    controllers apply to a table are written once here. */
module Tables {
  import opened Entities

  /** LINQ Where: the rows that satisfy keep, in their original order. */
  function Where<T>(rows: seq<T>, keep: T -> bool): (r: seq<T>)
    ensures |r| <= |rows|
  {
    if rows == [] then []
    else
      var init := Where(rows[..|rows| - 1], keep);
      if keep(rows[|rows| - 1]) then init + [rows[|rows| - 1]] else init
  }

  /** A row survives Where exactly when it is in the table and satisfies the predicate. */
  lemma {:induction false} WhereMembers<T>(rows: seq<T>, keep: T -> bool, x: T)
    ensures x in Where(rows, keep) <==> x in rows && keep(x)
  {
    if rows != [] {
      var n := |rows| - 1;
      assert rows == rows[..n] + [rows[n]];
      WhereMembers(rows[..n], keep, x);
    }
  }

  /** Every row of the result satisfies the predicate. */
  lemma {:induction false} WhereAllKept<T>(rows: seq<T>, keep: T -> bool)
    ensures forall i :: 0 <= i < |Where(rows, keep)| ==> keep(Where(rows, keep)[i])
  {
    if rows != [] {
      WhereAllKept(rows[..|rows| - 1], keep);
    }
  }

  /** Where splits a table in two: the rows kept and the rows dropped together are the table. */
  lemma {:induction false} WherePartition<T>(rows: seq<T>, keep: T -> bool, drop: T -> bool)
    requires forall x :: drop(x) == !keep(x)
    ensures multiset(Where(rows, keep)) + multiset(Where(rows, drop)) == multiset(rows)
    ensures |Where(rows, keep)| + |Where(rows, drop)| == |rows|
  {
    if rows != [] {
      var n := |rows| - 1;
      assert rows == rows[..n] + [rows[n]];
      WherePartition(rows[..n], keep, drop);
    }
  }

  /** Where distributes over appending rows (a row added by an insert lands at the end). */
  lemma {:induction false} WhereAppend<T>(a: seq<T>, b: seq<T>, keep: T -> bool)
    ensures Where(a + b, keep) == Where(a, keep) + Where(b, keep)
  {
    if b == [] {
      assert a + b == a;
    } else {
      var n := |b| - 1;
      assert (a + b)[..|a + b| - 1] == a + b[..n];
      WhereAppend(a, b[..n], keep);
    }
  }

  /** A filter that every row passes keeps the whole table. */
  lemma {:induction false} WhereEverything<T>(rows: seq<T>, keep: T -> bool)
    requires forall i :: 0 <= i < |rows| ==> keep(rows[i])
    ensures Where(rows, keep) == rows
  {
    if rows != [] {
      var n := |rows| - 1;
      WhereEverything(rows[..n], keep);
      assert rows == rows[..n] + [rows[n]];
    }
  }

  /** A filter that no row passes leaves nothing. */
  lemma {:induction false} WhereNothing<T>(rows: seq<T>, keep: T -> bool)
    requires forall i :: 0 <= i < |rows| ==> !keep(rows[i])
    ensures Where(rows, keep) == []
  {
    if rows != [] {
      WhereNothing(rows[..|rows| - 1], keep);
    }
  }

  /** The foreach loop that removes every row of a table matching a condition (the loop in the
      source calls Remove on each matched row); what stays is the table filtered by `keep`. */
  method KeepWhere<T>(rows: seq<T>, keep: T -> bool) returns (r: seq<T>)
    ensures r == Where(rows, keep)
  {
    r := [];
    var i := 0;
    while i < |rows|
      invariant 0 <= i <= |rows|
      invariant r == Where(rows[..i], keep)
    {
      assert rows[..i + 1][..i] == rows[..i];
      if keep(rows[i]) {
        r := r + [rows[i]];
      }
      i := i + 1;
    }
    assert rows[..i] == rows;
  }

  /** Hands every row whose owner is `from` over to `to`, leaving the order and every other row
      alone: the change a foreach loop assigning an owner field makes to a table. */
  function Reassign<T>(rows: seq<T>, owner: T -> string, withOwner: (T, string) -> T, from: string, to: string): (r: seq<T>)
    ensures |r| == |rows|
  {
    if rows == [] then []
    else
      var init := Reassign(rows[..|rows| - 1], owner, withOwner, from, to);
      var last := rows[|rows| - 1];
      init + [if owner(last) == from then withOwner(last, to) else last]
  }

  /** Row by row: an owned row is handed over, every other row is untouched. */
  lemma {:induction false} ReassignAt<T>(rows: seq<T>, owner: T -> string, withOwner: (T, string) -> T, from: string, to: string, i: int)
    requires 0 <= i < |rows|
    ensures Reassign(rows, owner, withOwner, from, to)[i] ==
            if owner(rows[i]) == from then withOwner(rows[i], to) else rows[i]
  {
    if i < |rows| - 1 {
      ReassignAt(rows[..|rows| - 1], owner, withOwner, from, to, i);
    }
  }

  /** The foreach loop itself: visits the table in order and reassigns the owned rows. */
  method ReassignEach<T>(rows: seq<T>, owner: T -> string, withOwner: (T, string) -> T, from: string, to: string)
    returns (r: seq<T>)
    ensures r == Reassign(rows, owner, withOwner, from, to)
  {
    r := [];
    var i := 0;
    while i < |rows|
      invariant 0 <= i <= |rows|
      invariant r == Reassign(rows[..i], owner, withOwner, from, to)
    {
      assert rows[..i + 1][..i] == rows[..i];
      var row := rows[i];
      if owner(row) == from {
        row := withOwner(row, to);
      }
      r := r + [row];
      i := i + 1;
    }
    assert rows[..i] == rows;
  }

  /** After the hand-over no row is owned by `from` (when the owner field is the one written). */
  lemma ReassignLeavesNone<T>(rows: seq<T>, owner: T -> string, withOwner: (T, string) -> T, from: string, to: string)
    requires from != to
    requires forall x, o :: owner(withOwner(x, o)) == o
    ensures forall i :: 0 <= i < |rows| ==> owner(Reassign(rows, owner, withOwner, from, to)[i]) != from
  {
    forall i | 0 <= i < |rows|
      ensures owner(Reassign(rows, owner, withOwner, from, to)[i]) != from
    {
      ReassignAt(rows, owner, withOwner, from, to, i);
    }
  }

  /** A table in which nobody is owned by `from` is left exactly as it was; the source skips
      the loop and the save in that case, and the model agrees. */
  lemma {:induction false} ReassignNoOwned<T>(rows: seq<T>, owner: T -> string, withOwner: (T, string) -> T, from: string, to: string)
    requires forall i :: 0 <= i < |rows| ==> owner(rows[i]) != from
    ensures Reassign(rows, owner, withOwner, from, to) == rows
  {
    if rows != [] {
      var n := |rows| - 1;
      ReassignNoOwned(rows[..n], owner, withOwner, from, to);
      assert rows == rows[..n] + [rows[n]];
    }
  }

  /** The position of the first row whose key is `id`, or -1: FindAsync / FirstOrDefault by key. */
  function IndexOf<T, K(==)>(rows: seq<T>, key: T -> K, id: K): (r: int)
    ensures -1 <= r < |rows|
    ensures r == -1 <==> forall i :: 0 <= i < |rows| ==> key(rows[i]) != id
    ensures r >= 0 ==> key(rows[r]) == id && forall i :: 0 <= i < r ==> key(rows[i]) != id
  {
    if rows == [] then -1
    else if key(rows[0]) == id then 0
    else
      var k := IndexOf(rows[1..], key, id);
      if k == -1 then -1 else k + 1
  }

  /** The primary-key property of a table: no two rows share a key. */
  ghost predicate UniqueKeys<T, K>(rows: seq<T>, key: T -> K) {
    forall i, j :: 0 <= i < j < |rows| ==> key(rows[i]) != key(rows[j])
  }

  /** Removing the row at a position: the change tracker's Remove of a found entity. */
  function RemoveAt<T>(rows: seq<T>, i: int): (r: seq<T>)
    requires 0 <= i < |rows|
    ensures |r| == |rows| - 1
    ensures forall j :: 0 <= j < i ==> r[j] == rows[j]
    ensures forall j :: i <= j < |r| ==> r[j] == rows[j + 1]
  {
    rows[..i] + rows[i + 1..]
  }

  /** Removing a row keeps the keys unique. */
  lemma UniqueAfterRemoveAt<T, K>(rows: seq<T>, key: T -> K, j: int)
    requires 0 <= j < |rows| && UniqueKeys(rows, key)
    ensures UniqueKeys(RemoveAt(rows, j), key)
  {
    var r := RemoveAt(rows, j);
    forall a, b | 0 <= a < b < |r| ensures key(r[a]) != key(r[b]) {
      var a' := if a < j then a else a + 1;
      var b' := if b < j then b else b + 1;
      assert r[a] == rows[a'] && r[b] == rows[b'];
    }
  }

  /** Appending a row under a key no row has keeps the keys unique. */
  lemma UniqueAfterAppend<T, K>(rows: seq<T>, key: T -> K, x: T)
    requires UniqueKeys(rows, key)
    requires forall i :: 0 <= i < |rows| ==> key(rows[i]) != key(x)
    ensures UniqueKeys(rows + [x], key)
  {
    var r := rows + [x];
    forall a, b | 0 <= a < b < |r| ensures key(r[a]) != key(r[b]) {
      assert r[a] == rows[a];
    }
  }

  /** Removing one row lowers a filtered count by one when the row passes the filter, and leaves
      it alone otherwise. */
  lemma WhereRemoveAtCount<T>(rows: seq<T>, keep: T -> bool, j: int)
    requires 0 <= j < |rows|
    ensures |Where(RemoveAt(rows, j), keep)| == |Where(rows, keep)| - (if keep(rows[j]) then 1 else 0)
  {
    assert rows == rows[..j] + ([rows[j]] + rows[j + 1..]);
    WhereAppend(rows[..j], [rows[j]] + rows[j + 1..], keep);
    WhereAppend([rows[j]], rows[j + 1..], keep);
    WhereAppend(rows[..j], rows[j + 1..], keep);
    assert [rows[j]][..0] == [];
  }

  /** Adding one row raises a filtered count by one when the row passes the filter. */
  lemma WhereAddCount<T>(rows: seq<T>, keep: T -> bool, x: T)
    ensures |Where(rows + [x], keep)| == |Where(rows, keep)| + (if keep(x) then 1 else 0)
  {
    WhereAppend(rows, [x], keep);
    assert [x][..0] == [];
  }

  /** The first row under a key that no earlier row has is found at its position. */
  lemma {:induction false} IndexOfAppended<T, K>(rows: seq<T>, key: T -> K, x: T)
    requires forall i :: 0 <= i < |rows| ==> key(rows[i]) != key(x)
    ensures IndexOf(rows + [x], key, key(x)) == |rows|
  {
    if rows != [] {
      assert (rows + [x])[1..] == rows[1..] + [x];
      IndexOfAppended(rows[1..], key, x);
    }
  }

  /** Removing the last row of rows + [x] gives back rows. */
  lemma RemoveLast<T>(rows: seq<T>, x: T)
    ensures RemoveAt(rows + [x], |rows|) == rows
  {
    assert (rows + [x])[..|rows|] == rows;
  }

  /** A Put action on a table: Entry(x).State = Modified, then SaveChanges. A path id that
      differs from the body's key is refused before anything happens; an update that finds no row
      under the key fails in the store and the action answers NotFound; otherwise the body
      replaces the stored row wholesale. */
  function Update<T>(rows: seq<T>, key: T -> int, id: int, x: T): (r: (Status, seq<T>))
    ensures r.0 == BadRequest <==> id != key(x)
    ensures r.0 == NotFound <==> id == key(x) && forall i :: 0 <= i < |rows| ==> key(rows[i]) != id
    ensures r.0 == Ok || r.0 == BadRequest || r.0 == NotFound
    ensures r.0 != Ok ==> r.1 == rows
    ensures r.0 == Ok ==> exists k :: 0 <= k < |rows| && key(rows[k]) == id && r.1 == rows[k := x]
  {
    if id != key(x) then (BadRequest, rows)
    else
      var k := IndexOf(rows, key, id);
      if k < 0 then (NotFound, rows) else (Ok, rows[k := x])
  }

  /** An update never changes which keys the table holds, so unique keys stay unique. */
  lemma UpdateKeepsKeys<T>(rows: seq<T>, key: T -> int, id: int, x: T)
    requires UniqueKeys(rows, key)
    ensures UniqueKeys(Update(rows, key, id, x).1, key)
    ensures forall i :: 0 <= i < |rows| ==> key(Update(rows, key, id, x).1[i]) == key(rows[i])
  {
  }

  /** Removing the row found under a key keeps every row under another key, and with unique keys
      leaves no row under that key. */
  lemma RemoveFoundKeepsOthers<T, K>(rows: seq<T>, key: T -> K, id: K)
    requires IndexOf(rows, key, id) >= 0
    ensures forall x :: x in rows && key(x) != id ==> x in RemoveAt(rows, IndexOf(rows, key, id))
    ensures UniqueKeys(rows, key) ==> forall x :: x in RemoveAt(rows, IndexOf(rows, key, id)) ==> key(x) != id
  {
    var k := IndexOf(rows, key, id);
    var r := RemoveAt(rows, k);
    forall x | x in rows && key(x) != id ensures x in r {
      var i :| 0 <= i < |rows| && rows[i] == x;
      assert r[if i < k then i else i - 1] == x;
    }
    if UniqueKeys(rows, key) {
      forall x | x in r ensures key(x) != id {
        var i :| 0 <= i < |r| && r[i] == x;
        assert x == rows[if i < k then i else i + 1];
      }
    }
  }

  /** Removing a row adds none. */
  lemma RemoveAtSubset<T>(rows: seq<T>, k: int)
    requires 0 <= k < |rows|
    ensures forall x :: x in RemoveAt(rows, k) ==> x in rows
  {
    var r := RemoveAt(rows, k);
    forall x | x in r ensures x in rows {
      var i :| 0 <= i < |r| && r[i] == x;
      assert x == rows[if i < k then i else i + 1];
    }
  }

  /** Overwriting a row with one under the same key does not move any lookup. */
  lemma {:induction false} IndexOfAfterReplace<T, K>(rows: seq<T>, key: T -> K, k: int, x: T, id: K)
    requires 0 <= k < |rows| && key(x) == key(rows[k])
    ensures IndexOf(rows[k := x], key, id) == IndexOf(rows, key, id)
  {
    if k > 0 {
      assert rows[k := x][1..] == rows[1..][k - 1 := x];
      IndexOfAfterReplace(rows[1..], key, k - 1, x, id);
    }
  }

  // ---------------------------------------------------------------------------------------------
  // Identity keys: every stored key was handed out before the generator reached `bound`

  /** Every row's key lies in [1, bound): an identity column starting at 1 has handed it out
      before reaching `bound`. */
  ghost predicate KeysBelow<T>(rows: seq<T>, key: T -> int, bound: int) {
    forall i :: 0 <= i < |rows| ==> 1 <= KeyAt(rows, key, i) < bound
  }

  /** The key of the row at position i. KeysBelow quantifies over this term rather than over
      `rows[i]`, so that it is only instantiated where a proof asks for a row's key. */
  function KeyAt<T>(rows: seq<T>, key: T -> int, i: int): int
    requires 0 <= i < |rows|
  {
    key(rows[i])
  }

  /** Keys below a bound are fresh for the bound itself: no row has it. */
  lemma BoundIsFresh<T>(rows: seq<T>, key: T -> int, bound: int)
    requires KeysBelow(rows, key, bound)
    ensures forall i :: 0 <= i < |rows| ==> key(rows[i]) != bound && key(rows[i]) >= 0
  {
    forall i | 0 <= i < |rows| ensures key(rows[i]) != bound && key(rows[i]) >= 0 {
      assert KeyAt(rows, key, i) == key(rows[i]);
    }
  }

  /** Appending a row under the bound's key and moving the bound on keeps the keys below it. */
  lemma {:induction false} KeysBelowAppend<T>(rows: seq<T>, key: T -> int, bound: int, x: T)
    requires KeysBelow(rows, key, bound) && bound >= 1 && key(x) == bound
    ensures KeysBelow(rows + [x], key, bound + 1)
  {
    var r := rows + [x];
    forall i | 0 <= i < |r| ensures 1 <= KeyAt(r, key, i) < bound + 1 {
      if i < |rows| {
        assert r[i] == rows[i] && KeyAt(rows, key, i) == key(rows[i]);
      }
    }
  }

  /** A table whose rows keep their keys position by position keeps its keys below the bound. */
  lemma {:induction false} KeysBelowSameKeys<T>(rows: seq<T>, rows': seq<T>, key: T -> int, bound: int)
    requires KeysBelow(rows, key, bound)
    requires |rows'| == |rows| && forall i :: 0 <= i < |rows| ==> key(rows'[i]) == key(rows[i])
    ensures KeysBelow(rows', key, bound)
  {
    forall i | 0 <= i < |rows'| ensures 1 <= KeyAt(rows', key, i) < bound {
      assert key(rows'[i]) == key(rows[i]) == KeyAt(rows, key, i);
    }
  }

  /** Removing a row keeps the keys below the bound. */
  lemma {:induction false} KeysBelowRemoveAt<T>(rows: seq<T>, key: T -> int, bound: int, k: int)
    requires KeysBelow(rows, key, bound) && 0 <= k < |rows|
    ensures KeysBelow(RemoveAt(rows, k), key, bound)
  {
    var r := RemoveAt(rows, k);
    forall i | 0 <= i < |r| ensures 1 <= KeyAt(r, key, i) < bound {
      if i < k {
        assert r[i] == rows[i] && KeyAt(rows, key, i) == key(r[i]);
      } else {
        assert r[i] == rows[i + 1] && KeyAt(rows, key, i + 1) == key(r[i]);
      }
    }
  }

  /** A table holding only rows of another keeps that table's keys below the bound. */
  lemma {:induction false} KeysBelowMembers<T>(rows: seq<T>, rows': seq<T>, key: T -> int, bound: int)
    requires KeysBelow(rows, key, bound)
    requires forall x :: x in rows' ==> x in rows
    ensures KeysBelow(rows', key, bound)
  {
    forall i | 0 <= i < |rows'| ensures 1 <= KeyAt(rows', key, i) < bound {
      assert rows'[i] in rows;
      var j :| 0 <= j < |rows| && rows[j] == rows'[i];
      assert KeyAt(rows, key, j) == KeyAt(rows', key, i);
    }
  }

  /** Filtering keeps the keys below the bound. */
  lemma {:induction false} KeysBelowWhere<T>(rows: seq<T>, key: T -> int, bound: int, keep: T -> bool)
    requires KeysBelow(rows, key, bound)
    ensures KeysBelow(Where(rows, keep), key, bound)
  {
    var r := Where(rows, keep);
    forall i | 0 <= i < |r| ensures 1 <= KeyAt(r, key, i) < bound {
      WhereMembers(rows, keep, r[i]);
      var j :| 0 <= j < |rows| && rows[j] == r[i];
      assert KeyAt(rows, key, j) == KeyAt(r, key, i);
    }
  }
}
