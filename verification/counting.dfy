/** Counting children by their parent reference. A collection's parent
    references are projected to a `map<Id, Id>` from child id to parent id;
    the live children of a parent are the keys mapped to it. */
module Counting {
  import opened Fields

  /** The children in `parents` that reference `p`. */
  function ChildrenOf(parents: map<Id, Id>, p: Id): set<Id> {
    set k | k in parents && parents[k] == p
  }

  /** How many children in `parents` reference `p`. */
  function Count(parents: map<Id, Id>, p: Id): nat {
    |ChildrenOf(parents, p)|
  }

  /** A new child adds one to its parent's count and nothing to any other. */
  lemma CountInsert(parents: map<Id, Id>, k: Id, q: Id, p: Id)
    requires k !in parents
    ensures Count(parents[k := q], p) == Count(parents, p) + (if q == p then 1 else 0)
  {
    var before, after := ChildrenOf(parents, p), ChildrenOf(parents[k := q], p);
    if q == p {
      assert after == before + {k};
    } else {
      assert after == before;
    }
  }

  /** Removing a child takes one from its parent's count and nothing from any
      other. */
  lemma CountRemove(parents: map<Id, Id>, k: Id, p: Id)
    requires k in parents
    ensures Count(parents - {k}, p) + (if parents[k] == p then 1 else 0) == Count(parents, p)
  {
    var before, after := ChildrenOf(parents, p), ChildrenOf(parents - {k}, p);
    if parents[k] == p {
      assert before == after + {k};
    } else {
      assert after == before;
    }
  }

  /** A parent with a count of zero has no children at all; a child's parent
      has a count of at least one. */
  lemma CountZero(parents: map<Id, Id>, p: Id)
    ensures Count(parents, p) == 0 <==> forall k :: k in parents ==> parents[k] != p
  {
    if Count(parents, p) != 0 {
      var k :| k in ChildrenOf(parents, p);
    }
    if exists k :: k in parents && parents[k] == p {
      var k :| k in parents && parents[k] == p;
      assert k in ChildrenOf(parents, p);
    }
  }
}
