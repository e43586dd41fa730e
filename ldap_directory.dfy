/** The directory as a tree of entries, the server side of `delete`.

    A DN is modelled by its sequence of RDNs read from the top of the tree
    down: `cn=a,ou=b,dc=c` is ["dc=c", "ou=b", "cn=a"].  An entry's parent
    is its path without the last RDN, and an entry lies below another when
    the other's path is a proper prefix of its own. */
module LdapDirectory {
  import opened Php

  type Path = seq<string>

  /** The entries at or below `top`. */
  function Subtree(entries: set<Path>, top: Path): (s: set<Path>)
    ensures s <= entries
    ensures top in entries <==> top in s
    ensures forall d :: d in s ==> top <= d
  {
    set d | d in entries && top <= d
  }

  /** The entries exactly one level below `top`. */
  function Children(entries: set<Path>, top: Path): (s: set<Path>)
    ensures s <= Subtree(entries, top)
    ensures top !in s
  {
    set c | c in entries && |c| == |top| + 1 && top <= c
  }

  /** Every entry's parent is there, up to the entries just under the
      root. */
  ghost predicate Closed(entries: set<Path>) {
    forall p :: p in entries && |p| > 1 ==> p[..|p| - 1] in entries
  }

  /** In a tree every entry below `top` hangs under one of `top`'s children. */
  lemma {:induction false} UnderAChild(entries: set<Path>, top: Path, d: Path)
    requires Closed(entries) && d in entries && top < d
    ensures d[..|top| + 1] in Children(entries, top)
    decreases |d|
  {
    if |d| > |top| + 1 {
      var parent := d[..|d| - 1];
      assert parent in entries;
      assert top < parent;
      UnderAChild(entries, top, parent);
      assert parent[..|top| + 1] == d[..|top| + 1];
    } else {
      assert d[..|top| + 1] == d;
    }
  }

  /** Everything below a child of `top` starts with that child. */
  lemma ChildSubtreePrefix(entries: set<Path>, top: Path, c: Path)
    requires c in Children(entries, top)
    ensures forall d :: d in Subtree(entries, c) ==> |d| > |top| && d[..|top| + 1] == c
  {
    forall d | d in Subtree(entries, c) ensures |d| > |top| && d[..|top| + 1] == c {
      assert d[..|c|] == c;
    }
  }

  /** Removing entries that hang under other children of `top` leaves the
      subtree of child `c` as it was. */
  lemma ChildSubtreeUntouched(entries: set<Path>, gone: set<Path>, top: Path, c: Path, todo: set<Path>)
    requires c in todo && |c| == |top| + 1
    requires forall d :: d in gone ==> |d| > |top| && d[..|top| + 1] !in todo
    ensures Subtree(entries - gone, c) == Subtree(entries, c)
  {
    forall d | d in Subtree(entries, c) ensures d !in gone {
      assert d[..|top| + 1] == c;
    }
  }

  /** In a tree, an entry's subtree is the entry and its children's
      subtrees; once those are gone the entry is a leaf. */
  lemma SubtreeOfChildren(entries: set<Path>, top: Path, gone: set<Path>)
    requires Closed(entries) && top in entries
    requires gone <= Subtree(entries, top) - {top}
    requires forall c :: c in Children(entries, top) ==> Subtree(entries, c) <= gone
    ensures Subtree(entries, top) == gone + {top}
    ensures Children(entries - gone, top) == {}
  {
    forall d | d in Subtree(entries, top) && d != top ensures d in gone {
      UnderAChild(entries, top, d);
      assert d in Subtree(entries, d[..|top| + 1]);
    }
    forall x | x in Children(entries, top) ensures x in gone {
      assert x in Subtree(entries, x);
    }
  }

  /** The directory server, as far as `delete` sees it. */
  class Directory {
    var entries: set<Path>

    /** The server keeps its entries a tree. */
    ghost predicate Valid()
      reads this
    {
      Closed(entries)
    }

    constructor(entries: set<Path>)
      requires Closed(entries)
      ensures this.entries == entries
      ensures Valid()
    {
      this.entries := entries;
    }

    /** One-level search under `dn`: fails when `dn` does not exist,
        otherwise the children of `dn`. */
    method ListChildren(dn: Path) returns (kids: Option<set<Path>>)
      ensures dn !in entries ==> kids == None
      ensures dn in entries ==> kids == Some(Children(entries, dn))
    {
      if dn in entries {
        kids := Some(Children(entries, dn));
      } else {
        kids := None;
      }
    }

    /** Deletion of one entry: the server refuses an entry that does not
        exist or still has children, and otherwise removes exactly it. */
    method DeleteEntry(dn: Path) returns (ok: bool)
      requires Valid()
      modifies this
      ensures Valid()
      ensures ok <==> dn in old(entries) && Children(old(entries), dn) == {}
      ensures entries == if ok then old(entries) - {dn} else old(entries)
    {
      ok := dn in entries && Children(entries, dn) == {};
      if ok {
        LeafRemovalKeepsClosed(entries, dn);
        entries := entries - {dn};
      }
    }
  }

  /** Closed trees stay closed when a leaf goes. */
  lemma LeafRemovalKeepsClosed(entries: set<Path>, leaf: Path)
    requires Closed(entries) && Children(entries, leaf) == {}
    ensures Closed(entries - {leaf})
  {
    forall p | p in entries - {leaf} && |p| > 1 ensures p[..|p| - 1] in entries - {leaf} {
      assert p !in Children(entries, leaf);
    }
  }
}
