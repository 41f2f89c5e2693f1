/** The user directory table and the organisation-chart assembly of
    `UserRepository`.

    A string field that the source may leave `null` is the empty string
    here. The org-chart code only tests such fields with
    `string.IsNullOrEmpty`, or compares them with a value already known to
    be non-empty, so there the two cases never behave differently. The
    username lookups and `UpdateAsync` compare a stored username with their
    argument, and for an empty argument the store does not match a `null`
    username while this model does. */
module Users {
  import opened Wrappers
  import opened Queries

  /** The value of a stored photo. */
  type Bytes = seq<bv8>

  /** A user record as the repository reads it. `manager` is the
      distinguished name of the user's manager ("" for none). */
  datatype User = User(
    username: string,
    fullName: string,
    employeeId: string,
    title: string,
    department: string,
    distinguishedName: string,
    manager: string,
    photo: Option<Bytes>)

  /** One box of the organisation chart, built per request. `manager` wraps
      the next node up the chain; `None` stands for a `null` manager. */
  datatype OrgNode = OrgNode(
    username: string,
    fullName: string,
    title: string,
    department: string,
    distinguishedName: string,
    isActiveUser: bool,
    manager: Option<OrgNode>,
    siblings: seq<OrgNode>)

  /** Deepest `depth` at which a manager is still resolved: the chain is cut
      when `depth > MaxDepth`, so depths 0 through 5 give up to six nodes. */
  const MaxDepth: nat := 5

  /** The node carries the identity fields of the user it was built from. */
  ghost predicate Describes(u: User, n: OrgNode)
  {
    && n.username == u.username
    && n.fullName == u.fullName
    && n.title == u.title
    && n.department == u.department
    && n.distinguishedName == u.distinguishedName
  }

  /** The manager chain hanging below `c`, direct manager first. */
  function ChainNodes(c: Option<OrgNode>): seq<OrgNode>
  {
    match c
    case None => []
    case Some(n) => [n] + ChainNodes(n.manager)
  }

  /** `GetByUsernameAsync`: the first user with this username. */
  function GetByUsername(users: seq<User>, username: string): (r: Option<User>)
    ensures r.Some? ==> r.value in users && r.value.username == username
    ensures r.None? <==> forall u :: u in users ==> u.username != username
    ensures r.Some? ==> (exists k :: 0 <= k < |users| && users[k] == r.value && forall j :: 0 <= j < k ==> users[j].username != username)
  {
    First(users, (u: User) => u.username == username)
  }

  /** `GetPhotoByUsernameAsync`: the photo of the first user with this
      username; none when there is no such user or it has no photo. */
  function GetPhotoByUsername(users: seq<User>, username: string): (r: Option<Bytes>)
    ensures r.Some? ==> exists u :: u in users && u.username == username && u.photo == r
    ensures (forall u :: u in users ==> u.username != username) ==> r.None?
    ensures GetByUsername(users, username).Some? ==> r == GetByUsername(users, username).value.photo
  {
    match GetByUsername(users, username)
    case None => None
    case Some(u) => u.photo
  }

  /** The first user whose distinguished name is `dn`. */
  function GetByDistinguishedName(users: seq<User>, dn: string): (r: Option<User>)
    ensures r.Some? ==> r.value in users && r.value.distinguishedName == dn
    ensures r.None? <==> forall u :: u in users ==> u.distinguishedName != dn
    ensures r.Some? ==> (exists k :: 0 <= k < |users| && users[k] == r.value && forall j :: 0 <= j < k ==> users[j].distinguishedName != dn)
  {
    First(users, (u: User) => u.distinguishedName == dn)
  }

  /** The local `BuildManagerChain(managerDn, depth)`: resolve the manager
      reference and recurse on that manager's own reference one level
      deeper. An empty reference, a depth past the cutoff or a reference
      that matches nobody ends the chain without an error. */
  function BuildManagerChain(users: seq<User>, managerDn: string, depth: nat): (r: Option<OrgNode>)
    ensures depth > MaxDepth ==> r.None?
    ensures depth <= MaxDepth + 1 ==> |ChainNodes(r)| <= MaxDepth + 1 - depth
    ensures forall n :: n in ChainNodes(r) ==> !n.isActiveUser && n.siblings == []
    decreases MaxDepth + 1 - depth
  {
    if managerDn == "" || depth > MaxDepth then None
    else match GetByDistinguishedName(users, managerDn)
      case None => None
      case Some(mgr) =>
        Some(OrgNode(mgr.username, mgr.fullName, mgr.title, mgr.department, mgr.distinguishedName,
                     false, BuildManagerChain(users, mgr.manager, depth + 1), []))
  }

  /** The reference a chain ends on: `dn` itself for an empty chain,
      otherwise the manager reference of the user behind the last node. */
  ghost function DanglingRef(users: seq<User>, dn: string, nodes: seq<OrgNode>): string
  {
    if nodes == [] then dn
    else match GetByDistinguishedName(users, nodes[|nodes| - 1].distinguishedName)
      case None => ""
      case Some(u) => u.manager
  }

  /** One resolved hop: the chain from `dn` is the node for the user `dn`
      names, followed by that user's own chain one level deeper. */
  lemma ChainUnfolds(users: seq<User>, dn: string, depth: nat)
    requires dn != "" && depth <= MaxDepth
    requires GetByDistinguishedName(users, dn).Some?
    ensures var mgr := GetByDistinguishedName(users, dn).value;
      var nodes := ChainNodes(BuildManagerChain(users, dn, depth));
      && nodes != []
      && Describes(mgr, nodes[0])
      && nodes[1..] == ChainNodes(BuildManagerChain(users, mgr.manager, depth + 1))
  {
  }

  /** The first node is the user `dn` names, and every node describes the
      user its own distinguished name resolves to. */
  lemma {:induction false} ChainNodesResolve(users: seq<User>, dn: string, depth: nat)
    ensures var nodes := ChainNodes(BuildManagerChain(users, dn, depth));
      && (nodes != [] ==> nodes[0].distinguishedName == dn)
      && (forall i :: 0 <= i < |nodes| ==>
            nodes[i].distinguishedName != "" &&
            GetByDistinguishedName(users, nodes[i].distinguishedName).Some? &&
            Describes(GetByDistinguishedName(users, nodes[i].distinguishedName).value, nodes[i]))
    decreases MaxDepth + 1 - depth
  {
    if dn != "" && depth <= MaxDepth && GetByDistinguishedName(users, dn).Some? {
      var mgr := GetByDistinguishedName(users, dn).value;
      ChainUnfolds(users, dn, depth);
      ChainNodesResolve(users, mgr.manager, depth + 1);
      var nodes := ChainNodes(BuildManagerChain(users, dn, depth));
      forall i | 0 <= i < |nodes|
        ensures nodes[i].distinguishedName != ""
        ensures GetByDistinguishedName(users, nodes[i].distinguishedName).Some?
        ensures Describes(GetByDistinguishedName(users, nodes[i].distinguishedName).value, nodes[i])
      {
        if i == 0 {
          assert nodes[0].distinguishedName == dn;
        } else {
          assert nodes[i] == nodes[1..][i - 1];
        }
      }
    }
  }

  /** Linkage: each node after the first is the one named by the `manager`
      reference of the user behind the node before it. */
  lemma {:induction false} ChainIsLinked(users: seq<User>, dn: string, depth: nat)
    ensures var nodes := ChainNodes(BuildManagerChain(users, dn, depth));
      forall i :: 0 <= i < |nodes| - 1 ==>
        GetByDistinguishedName(users, nodes[i].distinguishedName).Some? &&
        nodes[i + 1].distinguishedName ==
        GetByDistinguishedName(users, nodes[i].distinguishedName).value.manager
    decreases MaxDepth + 1 - depth
  {
    if dn != "" && depth <= MaxDepth && GetByDistinguishedName(users, dn).Some? {
      var mgr := GetByDistinguishedName(users, dn).value;
      ChainUnfolds(users, dn, depth);
      ChainIsLinked(users, mgr.manager, depth + 1);
      ChainNodesResolve(users, mgr.manager, depth + 1);
      var nodes := ChainNodes(BuildManagerChain(users, dn, depth));
      forall i | 0 <= i < |nodes| - 1
        ensures GetByDistinguishedName(users, nodes[i].distinguishedName).Some?
        ensures nodes[i + 1].distinguishedName ==
                GetByDistinguishedName(users, nodes[i].distinguishedName).value.manager
      {
        if i == 0 {
          assert nodes[0].distinguishedName == dn;
        } else {
          assert nodes[i] == nodes[1..][i - 1] && nodes[i + 1] == nodes[1..][i];
        }
      }
    }
  }

  /** A chain shorter than the cutoff allows ended on a dangling
      reference: the reference after its last node is empty or names nobody.
      The nodes built before it are kept. */
  lemma {:induction false} ChainStopsOnlyWhenDangling(users: seq<User>, dn: string, depth: nat)
    requires depth <= MaxDepth + 1
    ensures var nodes := ChainNodes(BuildManagerChain(users, dn, depth));
      |nodes| < MaxDepth + 1 - depth ==>
        var last := DanglingRef(users, dn, nodes);
        last == "" || GetByDistinguishedName(users, last).None?
    decreases MaxDepth + 1 - depth
  {
    if dn != "" && depth <= MaxDepth && GetByDistinguishedName(users, dn).Some? {
      var mgr := GetByDistinguishedName(users, dn).value;
      ChainUnfolds(users, dn, depth);
      ChainStopsOnlyWhenDangling(users, mgr.manager, depth + 1);
      var nodes := ChainNodes(BuildManagerChain(users, dn, depth));
      DanglingRefSkipsFirst(users, dn, mgr, nodes);
    }
  }

  /** The reference a chain ends on is the one its tail ends on. */
  lemma DanglingRefSkipsFirst(users: seq<User>, dn: string, mgr: User, nodes: seq<OrgNode>)
    requires nodes != [] && nodes[0].distinguishedName == dn
    requires GetByDistinguishedName(users, dn) == Some(mgr)
    ensures DanglingRef(users, dn, nodes) == DanglingRef(users, mgr.manager, nodes[1..])
  {
    if |nodes| > 1 {
      assert nodes[|nodes| - 1] == nodes[1..][|nodes[1..]| - 1];
    }
  }

  /** The cutoff is what ends a cycle: a user who is their own manager gets
      a chain of exactly `MaxDepth + 1` (six) copies of themselves. */
  lemma {:induction false} SelfManagedChainIsCut(users: seq<User>, u: User, depth: nat)
    requires u.distinguishedName != "" && u.manager == u.distinguishedName
    requires GetByDistinguishedName(users, u.distinguishedName) == Some(u)
    requires depth <= MaxDepth + 1
    ensures |ChainNodes(BuildManagerChain(users, u.manager, depth))| == MaxDepth + 1 - depth
    decreases MaxDepth + 1 - depth
  {
    if depth <= MaxDepth {
      SelfManagedChainIsCut(users, u, depth + 1);
    }
  }

  /** The node a sibling becomes: no manager and no siblings of its own. */
  function SiblingNode(u: User): (n: OrgNode)
    ensures Describes(u, n)
  {
    OrgNode(u.username, u.fullName, u.title, u.department, u.distinguishedName, false, None, [])
  }

  /** The users who count as siblings for `manager` and `username`. */
  function Peers(users: seq<User>, manager: string, username: string): (peers: seq<User>)
    ensures forall u :: u in peers ==> u in users && u.manager == manager && u.username != username
    ensures forall u :: u in users && u.manager == manager && u.username != username ==> u in peers
  {
    Filter(users, (u: User) => u.manager == manager && u.username != username)
  }

  /** The sibling query: when `manager` is non-empty, every other user
      (username different from `username`) with that same manager, in
      collection order, as manager-less nodes. */
  function Siblings(users: seq<User>, manager: string, username: string): (r: seq<OrgNode>)
    ensures manager == "" ==> r == []
    ensures forall n :: n in r ==> !n.isActiveUser && n.manager.None? && n.siblings == []
    ensures forall n :: n in r ==> n.username != username
    ensures forall n :: n in r ==>
      exists u :: u in users && u.manager == manager && u.username != username && n == SiblingNode(u)
    ensures forall u :: u in users && manager != "" && u.manager == manager && u.username != username ==>
      SiblingNode(u) in r
    ensures manager != "" ==> |r| == |Peers(users, manager, username)|
    ensures manager != "" ==>
      forall i :: 0 <= i < |r| ==> r[i] == SiblingNode(Peers(users, manager, username)[i])
  {
    if manager == "" then []
    else
      var peers := Peers(users, manager, username);
      var r := seq(|peers|, i requires 0 <= i < |peers| => SiblingNode(peers[i]));
      SiblingsOfPeers(peers, r, users, manager, username);
      r
  }

  /** The sibling nodes built one-for-one from the peers are exactly the
      nodes of the qualifying users. */
  lemma SiblingsOfPeers(peers: seq<User>, r: seq<OrgNode>, users: seq<User>, manager: string, username: string)
    requires peers == Peers(users, manager, username)
    requires |r| == |peers| && forall i :: 0 <= i < |r| ==> r[i] == SiblingNode(peers[i])
    ensures forall n :: n in r ==>
      exists u :: u in users && u.manager == manager && u.username != username && n == SiblingNode(u)
    ensures forall u :: u in users && u.manager == manager && u.username != username ==>
      SiblingNode(u) in r
  {
    forall n | n in r
      ensures exists u :: u in users && u.manager == manager && u.username != username && n == SiblingNode(u)
    {
      var i :| 0 <= i < |r| && r[i] == n;
      assert peers[i] in peers;
    }
    forall u | u in users && u.manager == manager && u.username != username
      ensures SiblingNode(u) in r
    {
      assert u in peers;
      var i :| 0 <= i < |peers| && peers[i] == u;
      assert r[i] == SiblingNode(u);
    }
  }

  /** `GetOrgChartAsync`: the subject's node, marked as the active user,
      with its manager chain from depth 0 and its siblings. An unknown
      username gives `None`, which is different from a subject with no
      manager. */
  function GetOrgChart(users: seq<User>, username: string): (r: Option<OrgNode>)
    ensures r.None? <==> forall u :: u in users ==> u.username != username
    ensures r.Some? ==>
      var subject := GetByUsername(users, username).value;
      && Describes(subject, r.value)
      && r.value.username == username
      && r.value.isActiveUser
      && (subject.manager == "" ==> r.value.manager.None? && r.value.siblings == [])
      && (r.value.manager.Some? ==> r.value.manager.value.distinguishedName == subject.manager)
      && |ChainNodes(r.value.manager)| <= MaxDepth + 1
      && (forall n :: n in ChainNodes(r.value.manager) ==> !n.isActiveUser && n.siblings == [])
      && (forall n :: n in r.value.siblings ==> !n.isActiveUser && n.username != username)
    ensures r.Some? ==>
      var subject := GetByUsername(users, username).value;
      && r.value.manager == BuildManagerChain(users, subject.manager, 0)
      && r.value.siblings == Siblings(users, subject.manager, username)
  {
    match GetByUsername(users, username)
    case None => None
    case Some(subject) =>
      Some(OrgNode(subject.username, subject.fullName, subject.title, subject.department,
                   subject.distinguishedName, true,
                   BuildManagerChain(users, subject.manager, 0),
                   Siblings(users, subject.manager, username)))
  }

  /** The user collection, for the two operations that write it. */
  class UserRepository {
    var users: seq<User>

    constructor (initial: seq<User>)
      ensures users == initial
    {
      users := initial;
    }

    /** `CreateAsync`: insert the record and hand it back. */
    method Create(user: User) returns (created: User)
      modifies this
      ensures created == user
      ensures users == old(users) + [user]
    {
      users := users + [user];
      created := user;
    }

    /** `UpdateAsync`: replace the first record with the same username, if
        any, and hand the argument back whether or not anything matched. */
    method Update(user: User) returns (updated: User)
      modifies this
      ensures updated == user
      ensures match FirstIndex(old(users), (u: User) => u.username == user.username)
        case None => users == old(users)
        case Some(k) => users == old(users)[k := user]
    {
      var k := FirstIndex(users, (u: User) => u.username == user.username);
      if k.Some? {
        users := users[k.value := user];
      }
      updated := user;
    }
  }
}
