/**
 * The property-tree store of the configuration console: the six operations
 * of `NodeService` over an abstract ZooKeeper tree.
 *
 * A tree is a map from path to node data. The Curator client is replaced
 * by that map plus one flag, `online`: when the backend is unreachable every
 * call throws inside `NodeService`, the exception is caught and logged, and
 * the caller sees `false`, an empty list or `null` with nothing changed.
 */
module NodeService {

  import opened Optional

  /** A ZooKeeper path as its node names: `/u1/v1/g1` is `["u1", "v1", "g1"]`, `/` is `[]`. */
  type Path = seq<string>

  datatype Store = Store(nodes: map<Path, string>, online: bool)

  /** What a mutating call returns: the store afterwards and the reported success. */
  datatype Reply = Reply(store: Store, ok: bool)

  /** ZooKeeper node names are never empty. */
  predicate NamesNonEmpty(p: Path) {
    forall i | 0 <= i < |p| :: p[i] != ""
  }

  /** A well-formed tree: the root exists and every node's parent exists. */
  ghost predicate Valid(s: Store) {
    && [] in s.nodes
    && (forall p | p in s.nodes :: NamesNonEmpty(p))
    && (forall p, c | p + [c] in s.nodes :: p in s.nodes)
  }

  /** A well-formed tree is closed under prefixes: every ancestor of a node exists. */
  lemma {:induction false} PrefixClosed(s: Store, p: Path, i: nat)
    requires Valid(s) && p in s.nodes && i <= |p|
    ensures p[..i] in s.nodes
    decreases |p| - i
  {
    if i < |p| {
      PrefixClosed(s, p, i + 1);
      assert p[..i + 1] == p[..i] + [p[i]];
    } else {
      assert p[..i] == p;
    }
  }

  /** The data `createProperty` stores: a null or empty value becomes an empty node. */
  function Data(value: Option<string>): string {
    if value.Some? then value.value else ""
  }

  /**
   * `t` is `s` after writing `v` at `p` with `creatingParentsIfNeeded`:
   * `p` holds `v`, every other existing node keeps its data, and the only
   * new nodes are `p` and its missing ancestors, which are created empty.
   */
  ghost predicate WrittenAt(s: Store, t: Store, p: Path, v: string) {
    && t.online == s.online
    && p in t.nodes && t.nodes[p] == v
    && (forall q | q in s.nodes && q != p :: q in t.nodes && t.nodes[q] == s.nodes[q])
    && (forall q | q in t.nodes && q !in s.nodes && q != p :: q < p && t.nodes[q] == "")
    && (p !in s.nodes ==> forall i | 0 <= i < |p| :: p[..i] in t.nodes)
  }

  /** Writing a path with non-empty names keeps a tree well formed. */
  lemma WrittenAtValid(s: Store, t: Store, p: Path, v: string)
    requires Valid(s) && NamesNonEmpty(p) && WrittenAt(s, t, p, v)
    ensures Valid(t)
  {
    forall a, c | a + [c] in t.nodes ensures a in t.nodes {
      var q := a + [c];
      assert a == q[..|q| - 1];
      if q !in s.nodes {
        if q == p {
          assert p[..|p| - 1] in t.nodes;
        } else {
          assert q == p[..|q|];
          assert a == p[..|q| - 1];
          if p in s.nodes {
            PrefixClosed(s, p, |q| - 1);
          }
        }
      }
    }
    forall q | q in t.nodes ensures NamesNonEmpty(q) {
      if q !in s.nodes && q != p {
        assert q == p[..|q|];
      }
    }
  }

  /** The ancestors of `p`, `p` itself included: exactly its prefixes. */
  function Ancestors(p: Path): (r: set<Path>)
    ensures forall q :: q in r <==> q <= p
  {
    if |p| == 0 then {[]}
    else
      var r := Ancestors(p[..|p| - 1]) + {p};
      forall q ensures q in r <==> q <= p {
        if q <= p && q != p {
          assert |q| < |p| && q <= p[..|p| - 1];
        }
      }
      r
  }

  /** The map of `s` with `v` written at `p` and empty ancestors created where missing. */
  function WithAncestors(nodes: map<Path, string>, p: Path, v: string): (m: map<Path, string>)
    ensures WrittenAt(Store(nodes, true), Store(m, true), p, v)
  {
    var m := map q | q in nodes.Keys + Ancestors(p) :: if q == p then v else if q in nodes then nodes[q] else "";
    assert forall i | 0 <= i < |p| :: p[..i] in m by {
      forall i | 0 <= i < |p| ensures p[..i] in m {
        assert p[..i] <= p;
      }
    }
    assert p <= p;
    m
  }

  /** The names of the children of `p`. */
  function Children(s: Store, p: Path): (r: set<string>)
    ensures forall c :: c in r <==> p + [c] in s.nodes
  {
    var r := set q | q in s.nodes && |q| == |p| + 1 && q[..|p|] == p :: q[|p|];
    assert forall c :: c in r <==> p + [c] in s.nodes by {
      forall c ensures c in r <==> p + [c] in s.nodes {
        if c in r {
          var q :| q in s.nodes && |q| == |p| + 1 && q[..|p|] == p && q[|p|] == c;
          assert q == p + [c];
        }
        if p + [c] in s.nodes {
          assert (p + [c])[..|p|] == p;
        }
      }
    }
    r
  }

  /**
   * `listChildren`: `None` (Java's `null`) when the path is absent or the
   * backend fails, otherwise the children's names, possibly none.
   */
  function ListChildren(s: Store, p: Path): (r: Option<set<string>>)
    ensures r.Some? <==> s.online && p in s.nodes
    ensures r.Some? ==> forall c :: c in r.value <==> p + [c] in s.nodes
  {
    if s.online && p in s.nodes then Some(Children(s, p)) else None
  }

  /**
   * `findProperties`: one `(name, data)` pair per child of `p`; empty when
   * `p` is absent or the backend fails.
   */
  function FindProperties(s: Store, p: Path): (r: map<string, string>)
    ensures forall c :: c in r <==> s.online && p in s.nodes && p + [c] in s.nodes
    ensures forall c | c in r :: r[c] == s.nodes[p + [c]]
  {
    if s.online && p in s.nodes then
      map c | c in Children(s, p) :: s.nodes[p + [c]]
    else
      map[]
  }

  /** `getValue`: the data at `p`, or `None` when `p` is absent or the backend fails. */
  function GetValue(s: Store, p: Path): (r: Option<string>)
    ensures r.Some? <==> s.online && p in s.nodes
    ensures r.Some? ==> r.value == s.nodes[p]
  {
    if s.online && p in s.nodes then Some(s.nodes[p]) else None
  }

  /**
   * `createProperty(node, value)`: creates `p` with its missing ancestors
   * and reports success only when `p` did not exist; an existing path or a
   * backend failure reports failure and changes nothing.
   */
  function CreateProperty(s: Store, p: Path, value: Option<string>): (r: Reply)
    ensures r.ok <==> s.online && p !in s.nodes
    ensures !r.ok ==> r.store == s
    ensures r.ok ==> WrittenAt(s, r.store, p, Data(value))
    ensures Valid(s) && NamesNonEmpty(p) ==> Valid(r.store)
  {
    if !s.online || p in s.nodes then
      Reply(s, false)
    else
      var t := Store(WithAncestors(s.nodes, p, Data(value)), s.online);
      assert Valid(s) && NamesNonEmpty(p) ==> Valid(t) by {
        if Valid(s) && NamesNonEmpty(p) {
          WrittenAtValid(s, t, p, Data(value));
        }
      }
      Reply(t, true)
  }

  /** `createProperty(node)`: the one-argument overload creates an empty node. */
  function CreateNode(s: Store, p: Path): (r: Reply)
    ensures r.ok <==> s.online && p !in s.nodes
    ensures !r.ok ==> r.store == s
    ensures r.ok ==> WrittenAt(s, r.store, p, "")
    ensures Valid(s) && NamesNonEmpty(p) ==> Valid(r.store)
  {
    CreateProperty(s, p, None)
  }

  /**
   * `updateProperty`: an upsert. Overwrites `p` if it exists, otherwise
   * creates it with its ancestors. A null value fails inside the `try`
   * (before any write), as does a backend failure.
   */
  function UpdateProperty(s: Store, p: Path, value: Option<string>): (r: Reply)
    ensures r.ok <==> s.online && value.Some?
    ensures !r.ok ==> r.store == s
    ensures r.ok ==> WrittenAt(s, r.store, p, value.value)
    ensures Valid(s) && NamesNonEmpty(p) ==> Valid(r.store)
  {
    if !s.online then
      Reply(s, false)
    else if p in s.nodes then
      if value.None? then Reply(s, false)
      else
        var t := Store(s.nodes[p := value.value], s.online);
        assert Valid(s) ==> Valid(t);
        Reply(t, true)
    else if value.None? then
      Reply(s, false)
    else
      var t := Store(WithAncestors(s.nodes, p, value.value), s.online);
      assert Valid(s) && NamesNonEmpty(p) ==> Valid(t) by {
        if Valid(s) && NamesNonEmpty(p) {
          WrittenAtValid(s, t, p, value.value);
        }
      }
      Reply(t, true)
  }

  /**
   * `deleteProperty`: removes `p` and everything below it when `p` exists
   * (`deletingChildrenIfNeeded`); an absent path or a backend failure is a
   * no-op. The tree root itself always survives.
   */
  function DeleteProperty(s: Store, p: Path): (r: Store)
    ensures r.online == s.online
    ensures !s.online || p !in s.nodes ==> r == s
    ensures s.online && p in s.nodes ==> forall q | p <= q && q != [] :: q !in r.nodes
    ensures forall q | q in s.nodes && !(p <= q) :: q in r.nodes && r.nodes[q] == s.nodes[q]
    ensures forall q | q in r.nodes :: q in s.nodes && r.nodes[q] == s.nodes[q]
    ensures Valid(s) ==> Valid(r)
  {
    if !s.online || p !in s.nodes then
      s
    else
      var t := Store(map q | q in s.nodes && (q == [] || !(p <= q)) :: s.nodes[q], s.online);
      assert Valid(s) ==> Valid(t) by {
        if Valid(s) {
          forall a, c | a + [c] in t.nodes ensures a in t.nodes {
            assert a <= a + [c];
          }
        }
      }
      t
  }

  /** Creating an absent path succeeds and stores the data; creating it again fails and changes nothing. */
  lemma CreateOnlyOnce(s: Store, p: Path, v: Option<string>, w: Option<string>)
    requires s.online && p !in s.nodes
    ensures CreateProperty(s, p, v).ok
    ensures GetValue(CreateProperty(s, p, v).store, p) == Some(Data(v))
    ensures !CreateProperty(CreateProperty(s, p, v).store, p, w).ok
    ensures CreateProperty(CreateProperty(s, p, v).store, p, w).store == CreateProperty(s, p, v).store
  {
  }

  /** Two updates leave the second value, whether or not the path existed before. */
  lemma LastUpdateWins(s: Store, p: Path, v1: string, v2: string)
    requires s.online
    ensures GetValue(UpdateProperty(UpdateProperty(s, p, Some(v1)).store, p, Some(v2)).store, p) == Some(v2)
  {
  }

  /** After deleting a path, listing or reading below it finds nothing. */
  lemma DeletedPathIsGone(s: Store, p: Path)
    requires p != []
    ensures ListChildren(DeleteProperty(s, p), p).None?
    ensures FindProperties(DeleteProperty(s, p), p) == map[]
    ensures GetValue(DeleteProperty(s, p), p).None?
  {
  }

  /**
   * A freshly created node has no children: listing it gives an empty set,
   * which is told apart from the `None` an absent path gives.
   */
  lemma {:induction false} NewNodeHasNoChildren(s: Store, p: Path, v: Option<string>)
    requires Valid(s) && s.online && p !in s.nodes
    ensures ListChildren(s, p).None?
    ensures ListChildren(CreateProperty(s, p, v).store, p) == Some({})
  {
    var t := CreateProperty(s, p, v).store;
    forall c ensures p + [c] !in t.nodes {
      var q := p + [c];
      assert q[..|q| - 1] == p;
      assert !(q < p);
    }
    assert Children(t, p) == {};
  }
}
