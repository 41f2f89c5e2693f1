/** The non-rendering logic of the organisation-chart view: flattening the
    nested manager chain into a top-down list, splitting the siblings into a
    left and a right half, and which box is drawn as the active one. */
module OrgChartView {
  import opened Wrappers
  import opened Users

  /** Number of nested `manager` links below `c`. */
  function Height(c: Option<OrgNode>): nat
  {
    match c
    case None => 0
    case Some(n) => 1 + Height(n.manager)
  }

  /** Every node of the chain below `c` sits strictly closer to the top than
      `c` itself, so the node owning the chain is never part of it. */
  lemma {:induction false} ChainIsBelow(c: Option<OrgNode>)
    ensures |ChainNodes(c)| == Height(c)
    ensures forall n :: n in ChainNodes(c) ==> Height(Some(n)) <= Height(c)
  {
    match c
    case None =>
    case Some(m) =>
      ChainIsBelow(m.manager);
      assert ChainNodes(c) == [m] + ChainNodes(m.manager);
  }

  /** The chain below `root`, topmost ancestor first: the backend's
      direct-manager-first list reversed. */
  function TopDown(root: OrgNode): (chain: seq<OrgNode>)
    ensures |chain| == |ChainNodes(root.manager)| == Height(root.manager)
    ensures forall i :: 0 <= i < |chain| ==>
      chain[i] == ChainNodes(root.manager)[|chain| - 1 - i]
  {
    ChainIsBelow(root.manager);
    var up := ChainNodes(root.manager);
    seq(|up|, i requires 0 <= i < |up| => up[|up| - 1 - i])
  }

  /** `flattenManagerChain`: walk `manager` links from the root and put
      each one in front of what was collected so far. */
  method FlattenManagerChain(node: OrgNode) returns (chain: seq<OrgNode>)
    ensures chain == TopDown(node)
    ensures |chain| == Height(node.manager)
    ensures node.manager.None? ==> chain == []
    ensures node !in chain
    ensures chain != [] ==> chain[|chain| - 1] == node.manager.value && chain[0].manager.None?
    ensures forall i :: 0 <= i < |chain| - 1 ==> chain[i + 1].manager == Some(chain[i])
  {
    ghost var up := ChainNodes(node.manager);
    chain := [];
    var current := node.manager;
    while current.Some?
      invariant |chain| <= |up|
      invariant ChainNodes(current) == up[|chain|..]
      invariant forall i :: 0 <= i < |chain| ==> chain[i] == up[|chain| - 1 - i]
      invariant chain != [] ==> chain[0].manager == current
      invariant forall i :: 0 <= i < |chain| - 1 ==> chain[i + 1].manager == Some(chain[i])
      decreases |ChainNodes(current)|
    {
      var c := current.value;
      assert up[|chain|..] == [c] + ChainNodes(c.manager);
      assert up[|chain| + 1..] == up[|chain|..][1..];
      chain := [c] + chain;
      current := c.manager;
    }
    ChainIsBelow(node.manager);
    assert chain == TopDown(node);
    if chain != [] {
      assert up[0] == node.manager.value;
    }
    forall i | 0 <= i < |chain|
      ensures chain[i] != node
    {
      assert up[|chain| - 1 - i] in up;
    }
  }

  /** `Math.ceil(n / 2)` on a non-negative integer length. */
  function CeilHalf(n: nat): (h: nat)
    ensures h <= n && n - h <= h <= n - h + 1
  {
    (n + 1) / 2
  }

  /** The two slices the view draws to the left and to the right of the
      active user. */
  function SplitSiblings(siblings: seq<OrgNode>): (halves: (seq<OrgNode>, seq<OrgNode>))
    ensures halves.0 + halves.1 == siblings
    ensures |halves.0| == |halves.1| || |halves.0| == |halves.1| + 1
  {
    var k := CeilHalf(|siblings|);
    (siblings[..k], siblings[k..])
  }

  /** One drawn box and the `isActive` flag it is drawn with. */
  datatype Tile = Tile(node: OrgNode, isActive: bool)

  /** The boxes of nodes drawn with `isActive={false}`, in order. */
  function Passive(nodes: seq<OrgNode>): (tiles: seq<Tile>)
    ensures |tiles| == |nodes|
    ensures forall i :: 0 <= i < |tiles| ==> tiles[i] == Tile(nodes[i], false)
  {
    seq(|nodes|, i requires 0 <= i < |nodes| => Tile(nodes[i], false))
  }

  /** `tiles` draws `chain` top-down, then the first `CeilHalf(|s|)` of the
      siblings `s`, then `root` as the one active box, then the rest of `s`,
      each sibling once and in its original order. */
  predicate LaidOut(tiles: seq<Tile>, chain: seq<OrgNode>, s: seq<OrgNode>, root: OrgNode)
  {
    var k := CeilHalf(|s|);
    && |tiles| == |chain| + |s| + 1
    && forall i :: 0 <= i < |tiles| ==>
         tiles[i] == (if i < |chain| then Tile(chain[i], false)
                      else if i < |chain| + k then Tile(s[i - |chain|], false)
                      else if i == |chain| + k then Tile(root, true)
                      else Tile(s[i - |chain| - 1], false))
  }

  /** The boxes in drawing order: the chain top-down, then the left
      siblings, the root and the right siblings. Exactly one box, the
      root's, is drawn active. */
  function RenderOrder(root: OrgNode): (tiles: seq<Tile>)
    ensures LaidOut(tiles, TopDown(root), root.siblings, root)
  {
    var chain := TopDown(root);
    var halves := SplitSiblings(root.siblings);
    TilesLayout(chain, root.siblings, root);
    Passive(chain) + Passive(halves.0) + [Tile(root, true)] + Passive(halves.1)
  }

  /** Concatenating the chain, the left half, the root and the right half
      lays the boxes out as `LaidOut` describes. */
  lemma TilesLayout(chain: seq<OrgNode>, s: seq<OrgNode>, root: OrgNode)
    ensures var halves := SplitSiblings(s);
      LaidOut(Passive(chain) + Passive(halves.0) + [Tile(root, true)] + Passive(halves.1), chain, s, root)
  {
    var halves, k := SplitSiblings(s), CeilHalf(|s|);
    assert halves.0 == s[..k] && halves.1 == s[k..];
    var a := Passive(chain) + Passive(halves.0);
    var tiles := a + [Tile(root, true)] + Passive(halves.1);
    forall i | 0 <= i < |tiles|
      ensures tiles[i] == (if i < |chain| then Tile(chain[i], false)
                           else if i < |chain| + k then Tile(s[i - |chain|], false)
                           else if i == |chain| + k then Tile(root, true)
                           else Tile(s[i - |chain| - 1], false))
    {
      if i < |chain| {
        assert tiles[i] == a[i] == Passive(chain)[i];
      } else if i < |a| {
        assert tiles[i] == a[i] == Passive(halves.0)[i - |chain|];
      } else if i > |a| {
        assert tiles[i] == Passive(halves.1)[i - |a| - 1];
        assert halves.1[i - |a| - 1] == s[i - |chain| - 1];
      }
    }
  }

  /** The only box drawn with `isActive={true}` is the root's, placed right
      after the chain and the left half of the siblings. */
  lemma OnlyRootIsActive(root: OrgNode)
    ensures var tiles, at := RenderOrder(root), |TopDown(root)| + CeilHalf(|root.siblings|);
      && at < |tiles| && tiles[at] == Tile(root, true)
      && forall i :: 0 <= i < |tiles| ==> (tiles[i].isActive <==> i == at)
  {
    var tiles, at := RenderOrder(root), |TopDown(root)| + CeilHalf(|root.siblings|);
    assert tiles[at] == Tile(root, true);
  }

  /** Pairing with the assembled chart: the flattened chain of a chart built
      from `users` has at most six nodes, none active, ends on the
      subject's direct manager and goes down by `manager` references. */
  lemma FlattenedChartFollowsManagers(users: seq<User>, username: string, root: OrgNode)
    requires GetOrgChart(users, username) == Some(root)
    ensures var chain := TopDown(root);
      && |chain| <= MaxDepth + 1
      && (forall i :: 0 <= i < |chain| ==> !chain[i].isActiveUser)
      && (chain != [] ==>
            chain[|chain| - 1].distinguishedName == GetByUsername(users, username).value.manager)
      && (forall i :: 0 < i < |chain| ==>
            GetByDistinguishedName(users, chain[i].distinguishedName).Some? &&
            chain[i - 1].distinguishedName ==
            GetByDistinguishedName(users, chain[i].distinguishedName).value.manager)
  {
    var subject := GetByUsername(users, username).value;
    assert root.manager == BuildManagerChain(users, subject.manager, 0);
    FlattenedChainFollowsManagers(users, subject.manager, root);
  }

  /** The same for any node whose chain was built from the distinguished
      name `dn`. */
  lemma FlattenedChainFollowsManagers(users: seq<User>, dn: string, root: OrgNode)
    requires root.manager == BuildManagerChain(users, dn, 0)
    ensures var chain := TopDown(root);
      && |chain| <= MaxDepth + 1
      && (forall i :: 0 <= i < |chain| ==> !chain[i].isActiveUser)
      && (chain != [] ==> chain[|chain| - 1].distinguishedName == dn)
      && (forall i :: 0 < i < |chain| ==>
            GetByDistinguishedName(users, chain[i].distinguishedName).Some? &&
            chain[i - 1].distinguishedName ==
            GetByDistinguishedName(users, chain[i].distinguishedName).value.manager)
  {
    ChainIsLinked(users, dn, 0);
    ChainNodesResolve(users, dn, 0);
    var chain := TopDown(root);
    var up := ChainNodes(root.manager);
    forall i | 0 <= i < |chain|
      ensures !chain[i].isActiveUser
    {
      assert up[|chain| - 1 - i] in up;
    }
    ReversedChainIsLinked(users, up, chain);
  }

  /** Reading a manager-linked list of nodes backwards, each node's
      predecessor is the manager of that node's directory entry. */
  lemma ReversedChainIsLinked(users: seq<User>, up: seq<OrgNode>, chain: seq<OrgNode>)
    requires |chain| == |up|
    requires forall i :: 0 <= i < |chain| ==> chain[i] == up[|up| - 1 - i]
    requires forall j :: 0 <= j < |up| - 1 ==>
      GetByDistinguishedName(users, up[j].distinguishedName).Some? &&
      up[j + 1].distinguishedName == GetByDistinguishedName(users, up[j].distinguishedName).value.manager
    ensures forall i :: 0 < i < |chain| ==>
      GetByDistinguishedName(users, chain[i].distinguishedName).Some? &&
      chain[i - 1].distinguishedName ==
      GetByDistinguishedName(users, chain[i].distinguishedName).value.manager
  {
    forall i | 0 < i < |chain|
      ensures GetByDistinguishedName(users, chain[i].distinguishedName).Some?
      ensures chain[i - 1].distinguishedName ==
              GetByDistinguishedName(users, chain[i].distinguishedName).value.manager
    {
      var j := |chain| - 1 - i;
      assert chain[i] == up[j] && chain[i - 1] == up[j + 1];
    }
  }
}
