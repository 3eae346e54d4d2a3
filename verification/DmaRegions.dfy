/**
 * The tree of DMA regions of a port, keyed by bus address:
 * drivers/fpga/intel/dma-region.c, lines 127-265.
 */
module DmaRegions {
  import opened Common

  datatype Region = Region(iova: nat, length: nat, inUse: bool)
  {
    function End(): nat { iova + length }
    function Pages(): nat { length / PAGE_SIZE }
  }

  datatype Tree = Leaf | Node(left: Tree, region: Region, right: Tree)

  /** dma_region_check_iova, with its 64-bit sums. */
  predicate CheckIova(r: Region, iova: nat, size: nat)
  {
    && (size != 0 || r.iova == iova)
    && r.iova <= iova
    && (r.length + r.iova) % U64 >= (iova + size) % U64
  }

  /** What a matching region is meant to be: it starts at the query, or contains it. */
  predicate Covers(r: Region, iova: nat, size: nat)
  {
    if size == 0 then r.iova == iova else r.iova <= iova && iova + size <= r.End()
  }

  function Elems(t: Tree): set<Region>
  {
    match t
    case Leaf => {}
    case Node(l, r, h) => Elems(l) + {r} + Elems(h)
  }

  /** Strict order by bus address: every key left of a node is smaller, every key right larger. */
  ghost predicate Ordered(t: Tree)
  {
    match t
    case Leaf => true
    case Node(l, r, h) =>
      && Ordered(l) && Ordered(h)
      && (forall x :: x in Elems(l) ==> x.iova < r.iova)
      && (forall x :: x in Elems(h) ==> r.iova < x.iova)
  }

  /** Regions of positive length that do not wrap around the 64-bit address space. */
  ghost predicate Sane(s: set<Region>)
  {
    forall r :: r in s ==> 0 < r.length && r.End() < U64
  }

  predicate Apart(a: Region, b: Region)
  {
    a.End() <= b.iova || b.End() <= a.iova
  }

  ghost predicate Disjoint(s: set<Region>)
  {
    forall a, b :: a in s && b in s && a != b ==> Apart(a, b)
  }

  // ----- search

  function Search(t: Tree, iova: nat, size: nat): Option<Region>
  {
    match t
    case Leaf => None
    case Node(l, r, h) =>
      if CheckIova(r, iova, size) then Some(r)
      else if iova < r.iova then Search(l, iova, size)
      else if iova > r.iova then Search(h, iova, size)
      else None
  }

  /** For a query that does not wrap, the 64-bit check on a sane region is interval containment. */
  lemma CheckIovaMeans(r: Region, iova: nat, size: nat)
    requires r.End() < U64 && iova + size < U64
    ensures CheckIova(r, iova, size) <==> Covers(r, iova, size)
  {
  }

  /** Whatever the search returns is stored and covers the query. */
  lemma {:induction false} SearchSound(t: Tree, iova: nat, size: nat)
    requires Sane(Elems(t)) && iova + size < U64
    ensures var f := Search(t, iova, size);
            f.Some? ==> f.value in Elems(t) && Covers(f.value, iova, size)
  {
    match t
    case Leaf =>
    case Node(l, r, h) =>
      SearchSound(l, iova, size);
      SearchSound(h, iova, size);
      CheckIovaMeans(r, iova, size);
  }

  /** Over disjoint regions the walk down one path misses nothing. */
  lemma {:induction false} SearchFinds(t: Tree, iova: nat, size: nat, w: Region)
    requires Ordered(t) && Sane(Elems(t)) && Disjoint(Elems(t)) && iova + size < U64
    requires w in Elems(t) && Covers(w, iova, size)
    ensures Search(t, iova, size) == Some(w)
  {
    match t
    case Node(l, r, h) =>
      CheckIovaMeans(r, iova, size);
      CheckIovaMeans(w, iova, size);
      assert r in Elems(t);
      if r != w {
        assert Apart(r, w);
        if iova < r.iova {
          assert w in Elems(l);
          SearchFinds(l, iova, size, w);
        } else {
          assert w in Elems(h);
          SearchFinds(h, iova, size, w);
        }
      }
  }

  /** The index agrees with the plain question "is there a stored region that covers this?". */
  lemma SearchIff(t: Tree, iova: nat, size: nat)
    requires Ordered(t) && Sane(Elems(t)) && Disjoint(Elems(t)) && iova + size < U64
    ensures Search(t, iova, size).Some? <==> exists w :: w in Elems(t) && Covers(w, iova, size)
    ensures forall w :: w in Elems(t) && Covers(w, iova, size) ==> Search(t, iova, size) == Some(w)
  {
    SearchSound(t, iova, size);
    forall w | w in Elems(t) && Covers(w, iova, size) ensures Search(t, iova, size) == Some(w) {
      SearchFinds(t, iova, size, w);
    }
  }

  /** Looking up an exact start needs no disjointness: order alone makes it find the region. */
  lemma {:induction false} SearchStart(t: Tree, w: Region)
    requires Ordered(t) && Sane(Elems(t)) && w in Elems(t)
    ensures Search(t, w.iova, 0) == Some(w)
  {
    match t
    case Node(l, r, h) =>
      assert r in Elems(t);
      CheckIovaMeans(r, w.iova, 0);
      if w.iova < r.iova {
        SearchStart(l, w);
      } else if w.iova > r.iova {
        SearchStart(h, w);
      }
  }

  /** A query that wraps to a small sum matches a region it is not inside of. */
  lemma WrappingQueryMatches()
    ensures var r := Region(4096, 4096, false);
            var t := Node(Leaf, r, Leaf);
            && Ordered(t) && Sane(Elems(t)) && Disjoint(Elems(t))
            && Search(t, 8192, U64 - 8192) == Some(r) && !Covers(r, 8192, U64 - 8192)
  {
  }

  /** A query whose end wraps looks, to the 64-bit check, as if it ended inside the region. */
  predicate WrapsInto(r: Region, iova: nat, size: nat)
  {
    iova + size >= U64 && r.iova <= iova && iova + size - U64 <= r.End()
  }

  /** The 64-bit check means containment exactly for the queries that do not wrap into the region. */
  lemma CheckIovaIff(r: Region, iova: nat, size: nat)
    requires r.End() < U64 && iova < U64 && size < U64
    ensures (CheckIova(r, iova, size) <==> Covers(r, iova, size)) <==> !WrapsInto(r, iova, size)
  {
  }

  lemma {:induction false} SearchWraps(t: Tree, iova: nat, size: nat, w: Region)
    requires Ordered(t) && Sane(Elems(t)) && Disjoint(Elems(t)) && iova < U64 && size < U64
    requires w in Elems(t) && WrapsInto(w, iova, size)
    ensures Search(t, iova, size).Some?
  {
    match t
    case Node(l, r, h) =>
      CheckIovaIff(r, iova, size);
      assert r in Elems(t);
      if !CheckIova(r, iova, size) {
        assert Apart(r, w);
        if iova < r.iova {
          assert w in Elems(l);
          SearchWraps(l, iova, size, w);
        } else {
          assert w in Elems(h);
          SearchWraps(h, iova, size, w);
        }
      }
  }

  lemma {:induction false} SearchFoundChecks(t: Tree, iova: nat, size: nat)
    ensures var f := Search(t, iova, size);
            f.Some? ==> f.value in Elems(t) && CheckIova(f.value, iova, size)
  {
    match t
    case Leaf =>
    case Node(l, _, h) =>
      SearchFoundChecks(l, iova, size);
      SearchFoundChecks(h, iova, size);
  }

  /**
   * For every 64-bit query the index agrees with the plain question exactly when the query does
   * not wrap into a stored region. afu_port_umsg_set_addr checks for the wrap before it asks.
   */
  lemma SearchAgreesIff(t: Tree, iova: nat, size: nat)
    requires Ordered(t) && Sane(Elems(t)) && Disjoint(Elems(t)) && iova < U64 && size < U64
    ensures (Search(t, iova, size).Some? <==> exists w :: w in Elems(t) && Covers(w, iova, size)) <==>
            forall r :: r in Elems(t) ==> !WrapsInto(r, iova, size)
  {
    if iova + size < U64 {
      SearchIff(t, iova, size);
    } else {
      SearchFoundChecks(t, iova, size);
      var f := Search(t, iova, size);
      if f.Some? {
        CheckIovaIff(f.value, iova, size);
      }
      forall w | w in Elems(t) && WrapsInto(w, iova, size) ensures f.Some? {
        SearchWraps(t, iova, size, w);
      }
    }
  }

  // ----- insertion

  /** Where the descent of afu_dma_region_add links the new node; None is -EEXIST. */
  function Insert(t: Tree, n: Region): Option<Tree>
  {
    match t
    case Leaf => Some(Node(Leaf, n, Leaf))
    case Node(l, r, h) =>
      if CheckIova(r, n.iova, n.length) then None
      else if n.iova < r.iova then
        var l' := Insert(l, n);
        if l'.None? then None else Some(Node(l'.value, r, h))
      else if n.iova > r.iova then
        var h' := Insert(h, n);
        if h'.None? then None else Some(Node(l, r, h'.value))
      else None
  }

  lemma {:induction false} InsertElems(t: Tree, n: Region)
    ensures Insert(t, n).Some? ==> Elems(Insert(t, n).value) == Elems(t) + {n}
  {
    match t
    case Leaf =>
    case Node(l, r, h) =>
      InsertElems(l, n);
      InsertElems(h, n);
  }

  /** An accepted region starts where no stored one does, and the order stays strict. */
  lemma {:induction false} InsertOrdered(t: Tree, n: Region)
    requires Ordered(t)
    ensures Insert(t, n).Some? ==> Ordered(Insert(t, n).value) && forall x :: x in Elems(t) ==> x.iova != n.iova
  {
    match t
    case Leaf =>
    case Node(l, r, h) =>
      InsertElems(l, n);
      InsertElems(h, n);
      InsertOrdered(l, n);
      InsertOrdered(h, n);
  }

  /**
   * Over disjoint regions a new region is refused exactly when a stored one contains it or starts
   * where it starts. Partial overlap is not refused: disjointness is a promise of the DMA mapping
   * service, not of this check.
   */
  lemma {:induction false} InsertRefusesIff(t: Tree, n: Region)
    requires Ordered(t) && Sane(Elems(t)) && Disjoint(Elems(t)) && 0 < n.length && n.End() < U64
    ensures Insert(t, n).None? <==>
            exists r :: r in Elems(t) && (Covers(r, n.iova, n.length) || r.iova == n.iova)
  {
    match t
    case Leaf =>
    case Node(l, r, h) =>
      CheckIovaMeans(r, n.iova, n.length);
      assert r in Elems(t);
      InsertRefusesIff(l, n);
      InsertRefusesIff(h, n);
      if n.iova < r.iova {
        forall x | x in Elems(h) ensures !Covers(x, n.iova, n.length) && x.iova != n.iova { }
      } else if n.iova > r.iova {
        forall x | x in Elems(l) ensures !Covers(x, n.iova, n.length) && x.iova != n.iova {
          assert x in Elems(t) && Apart(x, r);
        }
      }
  }

  /** A partially overlapping region is accepted. */
  lemma OverlapAccepted()
    ensures var t := Node(Leaf, Region(0x1000, 0x3000, false), Leaf);
            var n := Region(0x2000, 0x3000, false);
            Insert(t, n).Some? && !Disjoint(Elems(Insert(t, n).value))
  {
    var t := Node(Leaf, Region(0x1000, 0x3000, false), Leaf);
    var n := Region(0x2000, 0x3000, false);
    var u := Insert(t, n).value;
    assert n in Elems(u) && t.region in Elems(u) && !Apart(n, t.region);
  }

  // ----- rebalancing, removal and marking

  /** One rotation somewhere in the tree; rebalancing is any sequence of these. */
  datatype Turn = Turn(path: seq<bool>, toRight: bool)

  function RotateAt(t: Tree, path: seq<bool>, toRight: bool): Tree
    decreases |path|
  {
    match t
    case Leaf => t
    case Node(l, r, h) =>
      if path != [] then
        if path[0] then Node(l, r, RotateAt(h, path[1..], toRight)) else Node(RotateAt(l, path[1..], toRight), r, h)
      else if toRight && l.Node? then
        Node(l.left, l.region, Node(l.right, r, h))
      else if !toRight && h.Node? then
        Node(Node(l, r, h.left), h.region, h.right)
      else t
  }

  function Rebalance(t: Tree, turns: seq<Turn>): Tree
    decreases |turns|
  {
    if turns == [] then t
    else Rebalance(RotateAt(t, turns[0].path, turns[0].toRight), turns[1..])
  }

  function Join(l: Tree, h: Tree): Tree
  {
    match l
    case Leaf => h
    case Node(a, r, b) => Node(a, r, Join(b, h))
  }

  /** rb_erase of the node that starts at `iova`. */
  function Delete(t: Tree, iova: nat): Tree
  {
    match t
    case Leaf => Leaf
    case Node(l, r, h) =>
      if iova < r.iova then Node(Delete(l, iova), r, h)
      else if iova > r.iova then Node(l, r, Delete(h, iova))
      else Join(l, h)
  }

  /** Sets the in_use flag of the region that starts at `iova`. */
  function Mark(t: Tree, iova: nat, inUse: bool): Tree
  {
    match t
    case Leaf => Leaf
    case Node(l, r, h) =>
      if iova < r.iova then Node(Mark(l, iova, inUse), r, h)
      else if iova > r.iova then Node(l, r, Mark(h, iova, inUse))
      else Node(l, r.(inUse := inUse), h)
  }

  function PageTotal(t: Tree): nat
  {
    match t
    case Leaf => 0
    case Node(l, r, h) => PageTotal(l) + r.Pages() + PageTotal(h)
  }

  lemma {:induction false} RotateKeeps(t: Tree, path: seq<bool>, toRight: bool)
    requires Ordered(t)
    ensures Elems(RotateAt(t, path, toRight)) == Elems(t)
    ensures Ordered(RotateAt(t, path, toRight))
    ensures PageTotal(RotateAt(t, path, toRight)) == PageTotal(t)
    decreases |path|
  {
    match t
    case Leaf =>
    case Node(l, r, h) =>
      if path != [] {
        if path[0] { RotateKeeps(h, path[1..], toRight); } else { RotateKeeps(l, path[1..], toRight); }
      }
  }

  /** No rebalancing changes what is stored or its order. */
  lemma {:induction false} RebalanceKeeps(t: Tree, turns: seq<Turn>)
    requires Ordered(t)
    ensures Elems(Rebalance(t, turns)) == Elems(t)
    ensures Ordered(Rebalance(t, turns))
    ensures PageTotal(Rebalance(t, turns)) == PageTotal(t)
    decreases |turns|
  {
    if turns != [] {
      RotateKeeps(t, turns[0].path, turns[0].toRight);
      RebalanceKeeps(RotateAt(t, turns[0].path, turns[0].toRight), turns[1..]);
    }
  }

  lemma {:induction false} JoinKeeps(l: Tree, h: Tree)
    requires Ordered(l) && Ordered(h)
    requires forall a, b :: a in Elems(l) && b in Elems(h) ==> a.iova < b.iova
    ensures Elems(Join(l, h)) == Elems(l) + Elems(h)
    ensures Ordered(Join(l, h))
    ensures PageTotal(Join(l, h)) == PageTotal(l) + PageTotal(h)
  {
    match l
    case Leaf =>
    case Node(a, r, b) => JoinKeeps(b, h);
  }

  /** Removal takes out exactly the region with that start and keeps the order. */
  lemma {:induction false} DeleteElems(t: Tree, w: Region)
    requires Ordered(t) && w in Elems(t)
    ensures Elems(Delete(t, w.iova)) == Elems(t) - {w}
    ensures Ordered(Delete(t, w.iova))
    ensures PageTotal(Delete(t, w.iova)) == PageTotal(t) - w.Pages()
  {
    match t
    case Node(l, r, h) =>
      if w.iova < r.iova {
        DeleteElems(l, w);
      } else if w.iova > r.iova {
        DeleteElems(h, w);
      } else {
        JoinKeeps(l, h);
      }
  }

  lemma {:induction false} InsertPages(t: Tree, n: Region)
    ensures Insert(t, n).Some? ==> PageTotal(Insert(t, n).value) == PageTotal(t) + n.Pages()
  {
    match t
    case Leaf =>
    case Node(l, r, h) =>
      InsertPages(l, n);
      InsertPages(h, n);
  }

  /** Marking changes the flag of one region and nothing else. */
  lemma {:induction false} MarkElems(t: Tree, w: Region, inUse: bool)
    requires Ordered(t) && w in Elems(t)
    ensures Elems(Mark(t, w.iova, inUse)) == Elems(t) - {w} + {w.(inUse := inUse)}
  {
    match t
    case Node(l, r, h) =>
      if w.iova < r.iova {
        MarkElems(l, w, inUse);
        assert w !in Elems(h) && w != r;
      } else if w.iova > r.iova {
        MarkElems(h, w, inUse);
        assert w !in Elems(l) && w != r;
      } else {
        assert w !in Elems(l) && w !in Elems(h) && w == r;
      }
  }

  lemma {:induction false} MarkOrdered(t: Tree, w: Region, inUse: bool)
    requires Ordered(t) && w in Elems(t)
    ensures Ordered(Mark(t, w.iova, inUse))
  {
    match t
    case Node(l, r, h) =>
      if w.iova < r.iova {
        MarkOrdered(l, w, inUse);
        MarkElems(l, w, inUse);
      } else if w.iova > r.iova {
        MarkOrdered(h, w, inUse);
        MarkElems(h, w, inUse);
      }
  }

  lemma {:induction false} MarkPages(t: Tree, iova: nat, inUse: bool)
    ensures PageTotal(Mark(t, iova, inUse)) == PageTotal(t)
  {
    match t
    case Leaf =>
    case Node(l, r, h) =>
      MarkPages(l, iova, inUse);
      MarkPages(h, iova, inUse);
  }

  // ----- the operations on the tree held by a port

  /** The subtree reached by a path, and the tree with that subtree replaced. */
  function At(t: Tree, path: seq<bool>): Tree
  {
    if path == [] || t.Leaf? then t
    else if path[0] then At(t.right, path[1..])
    else At(t.left, path[1..])
  }

  function Graft(t: Tree, path: seq<bool>, sub: Tree): Tree
    decreases |path|
  {
    if path == [] || t.Leaf? then sub
    else if path[0] then Node(t.left, t.region, Graft(t.right, path[1..], sub))
    else Node(Graft(t.left, path[1..], sub), t.region, t.right)
  }

  lemma {:induction false} GraftStep(t: Tree, path: seq<bool>, right: bool, sub: Tree)
    requires At(t, path).Node?
    ensures var n := At(t, path);
            && At(t, path + [right]) == (if right then n.right else n.left)
            && Graft(t, path + [right], sub) ==
               Graft(t, path, if right then Node(n.left, n.region, sub) else Node(sub, n.region, n.right))
    decreases |path|
  {
    if path != [] {
      assert (path + [right])[1..] == path[1..] + [right];
      GraftStep(if path[0] then t.right else t.left, path[1..], right, sub);
    }
  }

  /** afu_dma_region_find: the walk down one path of the tree. */
  method FindRegion(root: Tree, iova: nat, size: nat) returns (found: Option<Region>)
    ensures found == Search(root, iova, size)
  {
    var node := root;
    while node.Node?
      invariant Search(root, iova, size) == Search(node, iova, size)
      decreases node
    {
      if CheckIova(node.region, iova, size) {
        return Some(node.region);
      }
      if iova < node.region.iova {
        node := node.left;
      } else if iova > node.region.iova {
        node := node.right;
      } else {
        break;
      }
    }
    return None;
  }

  /**
   * afu_dma_region_add on the tree a port holds; `turns` is what rb_insert_color does after the
   * new node is linked.
   */
  method AddRegion(root: Tree, region: Region, turns: seq<Turn>) returns (ret: int, root': Tree)
    requires Ordered(root)
    ensures ret == (if Insert(root, region).None? then -EEXIST else 0)
    ensures ret != 0 ==> root' == root
    ensures ret == 0 ==>
            && Elems(root') == Elems(root) + {region} && Ordered(root')
            && PageTotal(root') == PageTotal(root) + region.Pages()
  {
    var node, path := root, [];
    while node.Node?
      invariant node == At(root, path)
      invariant Insert(root, region) ==
                var sub := Insert(node, region);
                if sub.None? then None else Some(Graft(root, path, sub.value))
      decreases node
    {
      if CheckIova(node.region, region.iova, region.length) {
        return -EEXIST, root;
      }
      ghost var sub := Insert(if region.iova < node.region.iova then node.left else node.right, region);
      if region.iova < node.region.iova {
        GraftStep(root, path, false, if sub.Some? then sub.value else Leaf);
        node, path := node.left, path + [false];
      } else if region.iova > node.region.iova {
        GraftStep(root, path, true, if sub.Some? then sub.value else Leaf);
        node, path := node.right, path + [true];
      } else {
        return -EEXIST, root;
      }
    }
    InsertElems(root, region);
    InsertOrdered(root, region);
    InsertPages(root, region);
    var linked := Graft(root, path, Node(Leaf, region, Leaf));
    RebalanceKeeps(linked, turns);
    return 0, Rebalance(linked, turns);
  }

  /** afu_dma_region_remove; `turns` is what rb_erase does after the node is out. */
  method RemoveRegion(root: Tree, region: Region, turns: seq<Turn>) returns (root': Tree)
    requires Ordered(root) && region in Elems(root)
    ensures Elems(root') == Elems(root) - {region} && Ordered(root')
    ensures PageTotal(root') == PageTotal(root) - region.Pages()
  {
    DeleteElems(root, region);
    RebalanceKeeps(Delete(root, region.iova), turns);
    root' := Rebalance(Delete(root, region.iova), turns);
  }
}
