/** The delete-with-children shape that DeleteComment and DeleteForumAnswer share: find the parent
    row by key (NotFound when there is none), remove its child rows with RemoveRange and save, then
    remove the parent and save again. */
module Cascade {
  import opened Entities
  import opened Tables

  /** Some parent row has the key. */
  predicate HasKey<P>(parents: seq<P>, pkey: P -> int, id: int) {
    exists i :: 0 <= i < |parents| && pkey(parents[i]) == id
  }

  /** A row that is in the table makes its key present. */
  lemma KeyOfMember<P>(parents: seq<P>, pkey: P -> int, p: P)
    requires p in parents
    ensures HasKey(parents, pkey, pkey(p))
  {
    var i :| 0 <= i < |parents| && parents[i] == p;
  }

  /** Referential integrity: every child row names a parent row that exists. */
  ghost predicate Attached<P, C>(parents: seq<P>, children: seq<C>, pkey: P -> int, parentOf: C -> int) {
    forall c :: c in children ==> HasKey(parents, pkey, parentOf(c))
  }

  /** The first save: the children of parent `id` are removed (Where(...) then RemoveRange), and a
      child row survives exactly when it belongs to another parent. */
  function DropChildren<C(!new)>(children: seq<C>, parentOf: C -> int, id: int): (r: seq<C>)
    ensures |r| <= |children|
    ensures forall c :: c in r <==> c in children && parentOf(c) != id
  {
    var other := (c: C) => parentOf(c) != id;
    assert forall c :: c in Where(children, other) <==> c in children && parentOf(c) != id by {
      forall c ensures c in Where(children, other) <==> c in children && parentOf(c) != id {
        WhereMembers(children, other, c);
      }
    }
    Where(children, other)
  }

  /** The RemoveRange loop over the child table. */
  method DropChildrenEach<C(!new)>(children: seq<C>, parentOf: C -> int, id: int) returns (r: seq<C>)
    ensures r == DropChildren(children, parentOf, id)
  {
    r := KeepWhere(children, (c: C) => parentOf(c) != id);
  }

  /** The whole action: NotFound with nothing changed when no parent has the key; otherwise the
      parent found is removed and so are its children. */
  function DeleteWithChildren<P, C(!new)>(parents: seq<P>, children: seq<C>, pkey: P -> int, parentOf: C -> int, id: int)
    : (r: (Status, seq<P>, seq<C>))
    ensures r.0 == Ok || r.0 == NotFound
    ensures r.0 == NotFound <==> !HasKey(parents, pkey, id)
    ensures r.0 == NotFound ==> r.1 == parents && r.2 == children
    ensures r.0 == Ok ==> |r.1| == |parents| - 1 && r.2 == DropChildren(children, parentOf, id)
  {
    var k := IndexOf(parents, pkey, id);
    if k < 0 then (NotFound, parents, children)
    else (Ok, RemoveAt(parents, k), DropChildren(children, parentOf, id))
  }

  /** A successful delete removes exactly the parent asked for and its children: every other
      parent and every child of another parent stays, and with unique parent keys no parent under
      the id is left. */
  lemma DeleteWithChildrenExactly<P, C(!new)>(parents: seq<P>, children: seq<C>, pkey: P -> int, parentOf: C -> int, id: int)
    requires DeleteWithChildren(parents, children, pkey, parentOf, id).0 == Ok
    ensures var r := DeleteWithChildren(parents, children, pkey, parentOf, id);
            && (forall p :: p in parents && pkey(p) != id ==> p in r.1)
            && (UniqueKeys(parents, pkey) ==> forall p :: p in r.1 ==> pkey(p) != id)
            && (forall c :: c in r.2 <==> c in children && parentOf(c) != id)
  {
    RemoveFoundKeepsOthers(parents, pkey, id);
  }

  /** After the first save, before the parent goes, the children left still have their parents:
      the intermediate state the two-save sequence exposes is consistent. */
  lemma DropChildrenKeepsAttached<P, C(!new)>(parents: seq<P>, children: seq<C>, pkey: P -> int, parentOf: C -> int, id: int)
    requires Attached(parents, children, pkey, parentOf)
    ensures Attached(parents, DropChildren(children, parentOf, id), pkey, parentOf)
  {
  }

  /** The delete keeps referential integrity: no child is left pointing at the removed parent. */
  lemma DeleteWithChildrenKeepsAttached<P, C(!new)>(parents: seq<P>, children: seq<C>, pkey: P -> int, parentOf: C -> int, id: int)
    requires Attached(parents, children, pkey, parentOf) && UniqueKeys(parents, pkey)
    ensures var r := DeleteWithChildren(parents, children, pkey, parentOf, id);
            Attached(r.1, r.2, pkey, parentOf)
  {
    var r := DeleteWithChildren(parents, children, pkey, parentOf, id);
    if r.0 == Ok {
      RemoveFoundKeepsOthers(parents, pkey, id);
      assert r.1 == RemoveAt(parents, IndexOf(parents, pkey, id));
      forall c | c in r.2 ensures HasKey(r.1, pkey, parentOf(c)) {
        var i :| 0 <= i < |parents| && pkey(parents[i]) == parentOf(c);
        assert parents[i] in parents;
        KeyOfMember(r.1, pkey, parents[i]);
      }
    }
  }
}
