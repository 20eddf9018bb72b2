// Redirect resolution and the grouping of root literals into commands with
// aliases.
module CommandAliases {
  import opened Widths
  import opened CommandGraph

  // ----- redirects ---------------------------------------------------------

  predicate Redirects(g: Graph, n: int) {
    InGraph(g, n) && InGraph(g, g[n].redirect)
  }

  // The node that a chain of redirects ends at, or where it meets itself.
  function Resolve(g: Graph, n: int, visited: set<int>): int
    decreases AllNodes(g) - visited
  {
    if !InGraph(g, n) || n in visited then n
    else if !Redirects(g, n) then n
    else
      assert n in AllNodes(g) - visited && n !in AllNodes(g) - (visited + {n});
      Resolve(g, g[n].redirect, visited + {n})
  }

  method ResolveJavaCommandRedirect(g: Graph, start: int) returns (node: int)
    ensures node == Resolve(g, start, {})
  {
    node := start;
    var visited: set<int> := {};
    while InGraph(g, node) && node !in visited
      invariant Resolve(g, node, visited) == Resolve(g, start, {})
      decreases AllNodes(g) - visited
    {
      assert node in AllNodes(g) - visited && node !in AllNodes(g) - (visited + {node});
      visited := visited + {node};
      var redirect := g[node].redirect;
      if redirect < 0 || redirect >= |g| {
        return node;
      }
      node := redirect;
    }
  }

  // Distinct nodes, each redirecting to the next.
  predicate Chain(g: Graph, trail: seq<int>) {
    && (forall i | 0 <= i < |trail| :: Redirects(g, trail[i]))
    && (forall i | 0 <= i < |trail| - 1 :: g[trail[i]].redirect == trail[i + 1])
    && (forall i, j | 0 <= i < j < |trail| :: trail[i] != trail[j])
  }

  function Members(s: seq<int>): set<int> {
    set x | x in s
  }

  // Resolution walks a chain of redirects from n to its result. It stops at a
  // node without a redirect or at the first node it meets again.
  lemma {:induction false} ResolveChain(g: Graph, n: int, trail: seq<int>) returns (full: seq<int>)
    requires Chain(g, trail) && (trail != [] ==> g[trail[|trail| - 1]].redirect == n)
    ensures Chain(g, full) && trail <= full
    ensures var r := Resolve(g, n, Members(trail));
            if full == [] then r == n
            else if |full| == |trail| then r == n && g[full[|full| - 1]].redirect == r
            else full[|trail|] == n && g[full[|full| - 1]].redirect == r
    ensures var r := Resolve(g, n, Members(trail)); Redirects(g, r) ==> r in full
    decreases AllNodes(g) - Members(trail)
  {
    if Redirects(g, n) && n !in trail {
      assert n in AllNodes(g) - Members(trail);
      assert Members(trail + [n]) == Members(trail) + {n};
      full := ResolveChain(g, g[n].redirect, trail + [n]);
    } else {
      full := trail;
    }
  }

  // Along a cycle of redirects, resolution comes back to its start.
  lemma {:induction false} ResolveCycle(g: Graph, cycle: seq<int>, k: nat)
    requires Chain(g, cycle) && k < |cycle| && g[cycle[|cycle| - 1]].redirect == cycle[0]
    ensures Resolve(g, cycle[k], Members(cycle[..k])) == cycle[0]
    decreases |cycle| - k
  {
    assert cycle[k] !in cycle[..k];
    assert Members(cycle[..k + 1]) == Members(cycle[..k]) + {cycle[k]} by {
      assert cycle[..k + 1] == cycle[..k] + [cycle[k]];
    }
    if k + 1 < |cycle| {
      ResolveCycle(g, cycle, k + 1);
    } else {
      assert cycle[0] in cycle[..k + 1];
    }
  }

  // Resolving twice is resolving once, on cycles too.
  lemma ResolveIsIdempotent(g: Graph, n: int)
    ensures Resolve(g, Resolve(g, n, {}), {}) == Resolve(g, n, {})
  {
    var r := Resolve(g, n, {});
    assert Members([]) == {};
    var full := ResolveChain(g, n, []);
    if Redirects(g, r) {
      var i :| 0 <= i < |full| && full[i] == r;
      var cycle := full[i..];
      assert cycle[|cycle| - 1] == full[|full| - 1];
      ResolveCycle(g, cycle, 0);
      assert cycle[..0] == [];
    }
  }

  function FollowRedirects(g: Graph, n: int, k: nat): int
    decreases k
  {
    if k == 0 || !Redirects(g, n) then n else FollowRedirects(g, g[n].redirect, k - 1)
  }

  lemma {:induction false} ChainIsFollowed(g: Graph, full: seq<int>, i: nat, r: int)
    requires Chain(g, full) && i < |full| && g[full[|full| - 1]].redirect == r
    ensures FollowRedirects(g, full[i], |full| - i) == r
    decreases |full| - i
  {
    if i + 1 < |full| { ChainIsFollowed(g, full, i + 1, r); }
  }

  // The result is reached from the start by following redirects.
  lemma ResolveIsReached(g: Graph, n: int)
    ensures exists k: nat :: FollowRedirects(g, n, k) == Resolve(g, n, {})
  {
    assert Members([]) == {};
    var full := ResolveChain(g, n, []);
    if full == [] {
      assert FollowRedirects(g, n, 0) == n;
    } else {
      ChainIsFollowed(g, full, 0, Resolve(g, n, {}));
    }
  }

  // ----- where resolution ends -----------------------------------------------

  // The node that i redirects lead to.
  lemma {:induction false} ChainFollows(g: Graph, full: seq<int>, i: nat, r: int)
    requires Chain(g, full) && i <= |full| && full != [] && g[full[|full| - 1]].redirect == r
    ensures FollowRedirects(g, full[0], i) == if i < |full| then full[i] else r
    decreases |full|
  {
    if i > 0 {
      if |full| == 1 {
        assert FollowRedirects(g, g[full[0]].redirect, 0) == r;
      } else {
        var rest := full[1..];
        assert rest[|rest| - 1] == full[|full| - 1];
        ChainFollows(g, rest, i - 1, r);
      }
    }
  }

  // Resolution ends after some number of redirects, none of which meets a node
  // twice, at the first node that has no further redirect inside the graph or
  // was met before.
  lemma ResolveExact(g: Graph, n: int) returns (k: nat)
    ensures Resolve(g, n, {}) == FollowRedirects(g, n, k)
    ensures forall i | 0 <= i < k :: 0 <= FollowRedirects(g, n, i) < |g|
              && 0 <= g[FollowRedirects(g, n, i)].redirect < |g|
    ensures forall i, j | 0 <= i < j < k :: FollowRedirects(g, n, i) != FollowRedirects(g, n, j)
    ensures var r := Resolve(g, n, {});
            0 <= r < |g| && 0 <= g[r].redirect < |g| ==> exists i | 0 <= i < k :: FollowRedirects(g, n, i) == r
  {
    assert Members([]) == {};
    var full := ResolveChain(g, n, []);
    k := |full|;
    if full != [] {
      forall i | 0 <= i <= k
        ensures FollowRedirects(g, n, i) == if i < k then full[i] else Resolve(g, n, {})
      {
        ChainFollows(g, full, i, Resolve(g, n, {}));
      }
      hide FollowRedirects, Resolve;
      if Redirects(g, Resolve(g, n, {})) {
        var i :| 0 <= i < k && full[i] == Resolve(g, n, {});
      }
    }
  }

  // ----- groups ------------------------------------------------------------

  // A literal's flags; those that matter also have a name.
  lemma LiteralExact(g: Graph, c: int)
    ensures IsLiteral(g, c) <==> 0 <= c < |g| && g[c].flags % 4 == 1
    ensures Eligible(g, c) <==> 0 <= c < |g| && g[c].flags % 4 == 1 && g[c].name != ""
  {}

  // A literal belongs to the node that its redirects resolve to, if it has a
  // redirect and the root lists that node as a literal, and to itself otherwise.
  lemma OwnerExact(g: Graph, children: seq<Int32>, c: int)
    requires 0 <= c < |g|
    ensures var target := Resolve(g, c, {});
            Owner(g, children, c)
            == if g[c].redirect >= 0 && target in children && 0 <= target < |g| && g[target].flags % 4 == 1
               then target else c
  {
    hide Resolve;
  }

  predicate IsLiteral(g: Graph, c: int) {
    InGraph(g, c) && g[c].Kind() == NODE_LITERAL
  }

  predicate Eligible(g: Graph, c: int) {
    IsLiteral(g, c) && g[c].name != ""
  }

  // The command that a root literal belongs to.
  function Owner(g: Graph, children: seq<Int32>, c: int): int
    requires InGraph(g, c)
  {
    if g[c].redirect >= 0 then
      var target := Resolve(g, c, {});
      if target in children && IsLiteral(g, target) then target else c
    else c
  }

  // A command and the other root literals that resolve to it.
  datatype Group = Group(owner: int, aliases: seq<int>)

  function FindGroup(groups: seq<Group>, owner: int): (i: nat)
    ensures i <= |groups|
    ensures i < |groups| ==> groups[i].owner == owner
    ensures i == |groups| ==> forall k | 0 <= k < |groups| :: groups[k].owner != owner
  {
    if groups == [] then 0
    else if groups[0].owner == owner then 0
    else 1 + FindGroup(groups[1..], owner)
  }

  function AddToGroup(groups: seq<Group>, owner: int, c: int): seq<Group> {
    var i := FindGroup(groups, owner);
    var alias := if c != owner then [c] else [];
    if i < |groups| then groups[i := Group(owner, groups[i].aliases + alias)]
    else groups + [Group(owner, alias)]
  }

  // The groups after the first k children of the root.
  function GroupsAfter(g: Graph, children: seq<Int32>, k: nat): seq<Group>
    requires k <= |children|
  {
    if k == 0 then []
    else
      var before, c := GroupsAfter(g, children, k - 1), children[k - 1];
      if Eligible(g, c) then AddToGroup(before, Owner(g, children, c), c) else before
  }

  // All the groups of a root's children.
  function RootGroups(g: Graph, children: seq<Int32>): seq<Group> {
    GroupsAfter(g, children, |children|)
  }

  // A child is in the group: as its command or as an alias.
  predicate InGroup(group: Group, c: int) {
    c == group.owner || c in group.aliases
  }

  ghost predicate OwnerSeen(g: Graph, children: seq<Int32>, k: nat, owner: int)
    requires k <= |children|
  {
    exists m | 0 <= m < k :: Eligible(g, children[m]) && Owner(g, children, children[m]) == owner
  }

  ghost predicate ChildGrouped(g: Graph, children: seq<Int32>, groups: seq<Group>, c: int)
    requires Eligible(g, c)
  {
    exists i | 0 <= i < |groups| :: groups[i].owner == Owner(g, children, c) && InGroup(groups[i], c)
  }

  // How often a node occurs.
  function Times(s: seq<int>, c: int): nat {
    multiset(s)[c]
  }

  lemma TimesAppend(s: seq<int>, last: int, c: int)
    ensures Times(s + [last], c) == Times(s, c) + if c == last then 1 else 0
  {}

  // How often a node is an alias of a command: as often as it is listed, if it
  // is another literal that resolves there.
  function AliasTimes(g: Graph, children: seq<Int32>, seen: seq<int>, owner: int, a: int): nat {
    if Eligible(g, a) && a != owner && Owner(g, children, a) == owner then Times(seen, a) else 0
  }

  ghost predicate AliasesExact(g: Graph, children: seq<Int32>, seen: seq<int>, group: Group) {
    forall a :: Times(group.aliases, a) == AliasTimes(g, children, seen, group.owner, a)
  }

  predicate DistinctOwners(groups: seq<Group>) {
    forall i, j | 0 <= i < j < |groups| :: groups[i].owner != groups[j].owner
  }

  lemma AddKeepsOwnersDistinct(groups: seq<Group>, owner: int, c: int)
    requires DistinctOwners(groups)
    ensures DistinctOwners(AddToGroup(groups, owner, c))
  {}

  // What the groups say about the first k children.
  ghost predicate Grouped(g: Graph, children: seq<Int32>, k: nat, groups: seq<Group>)
    requires k <= |children|
  {
    && DistinctOwners(groups)
    && (forall i | 0 <= i < |groups| :: OwnerSeen(g, children, k, groups[i].owner))
    && (forall i | 0 <= i < |groups| :: AliasesExact(g, children, children[..k], groups[i]))
    && (forall m | 0 <= m < k && Eligible(g, children[m]) :: ChildGrouped(g, children, groups, children[m]))
  }

  // A further child changes the aliases of the command that it is placed with.
  lemma AliasesAfterChild(g: Graph, children: seq<Int32>, k: nat, group: Group, more: seq<int>)
    requires k < |children| && AliasesExact(g, children, children[..k], group)
    requires var c := children[k];
             more == if Eligible(g, c) && c != group.owner && Owner(g, children, c) == group.owner then [c] else []
    ensures AliasesExact(g, children, children[..k + 1], Group(group.owner, group.aliases + more))
  {
    hide Owner, Eligible;
    var c := children[k];
    var after := Group(group.owner, group.aliases + more);
    assert children[..k + 1] == children[..k] + [c];
    forall a ensures Times(after.aliases, a) == AliasTimes(g, children, children[..k + 1], group.owner, a) {
      assert Times(group.aliases, a) == AliasTimes(g, children, children[..k], group.owner, a);
      TimesAppend(children[..k], c, a);
      if more == [] {
        assert after.aliases == group.aliases;
      } else {
        TimesAppend(group.aliases, c, a);
      }
    }
  }

  lemma ChildStaysGrouped(g: Graph, children: seq<Int32>, groups: seq<Group>, owner: int, c: int, earlier: int)
    requires Eligible(g, earlier) && ChildGrouped(g, children, groups, earlier)
    ensures ChildGrouped(g, children, AddToGroup(groups, owner, c), earlier)
  {
    var i :| 0 <= i < |groups| && groups[i].owner == Owner(g, children, earlier) && InGroup(groups[i], earlier);
    assert InGroup(AddToGroup(groups, owner, c)[i], earlier);
  }

  lemma NoAliasYet(g: Graph, children: seq<Int32>, k: nat, groups: seq<Group>, owner: int)
    requires k <= |children| && Grouped(g, children, k, groups) && FindGroup(groups, owner) == |groups|
    ensures AliasesExact(g, children, children[..k], Group(owner, []))
  {
    hide Owner, Eligible, AliasesExact;
    forall a ensures AliasTimes(g, children, children[..k], owner, a) == 0 {
      if Times(children[..k], a) > 0 && Eligible(g, a) {
        assert a in children[..k];
        var m :| 0 <= m < k && children[m] == a;
        assert ChildGrouped(g, children, groups, children[m]);
      }
    }
    NoTimes(g, children, children[..k], owner);
  }

  lemma NoTimes(g: Graph, children: seq<Int32>, seen: seq<int>, owner: int)
    requires forall a :: AliasTimes(g, children, seen, owner, a) == 0
    ensures AliasesExact(g, children, seen, Group(owner, []))
  {
    hide AliasTimes;
  }

  lemma AddedGroupsExact(g: Graph, children: seq<Int32>, k: nat, groups: seq<Group>)
    requires k < |children| && Grouped(g, children, k, groups) && Eligible(g, children[k])
    ensures var after := AddToGroup(groups, Owner(g, children, children[k]), children[k]);
            forall i | 0 <= i < |after| ::
              OwnerSeen(g, children, k + 1, after[i].owner) && AliasesExact(g, children, children[..k + 1], after[i])
  {
    var c := children[k];
    var owner := Owner(g, children, c);
    var after := AddToGroup(groups, owner, c);
    var alias := if c != owner then [c] else [];
    hide Owner, Eligible, ChildGrouped, AliasesExact;
    forall i | 0 <= i < |after|
      ensures OwnerSeen(g, children, k + 1, after[i].owner)
      ensures AliasesExact(g, children, children[..k + 1], after[i])
    {
      if i == |groups| {
        assert Owner(g, children, children[k]) == owner;
        NoAliasYet(g, children, k, groups, owner);
        AliasesAfterChild(g, children, k, Group(owner, []), alias);
        assert [] + alias == alias;
      } else {
        assert OwnerSeen(g, children, k, groups[i].owner);
        AliasesAfterChild(g, children, k, groups[i], if groups[i].owner == owner then alias else []);
        assert groups[i].aliases + [] == groups[i].aliases;
      }
    }
  }

  lemma AddedChildrenGrouped(g: Graph, children: seq<Int32>, k: nat, groups: seq<Group>)
    requires k < |children| && Grouped(g, children, k, groups) && Eligible(g, children[k])
    ensures var after := AddToGroup(groups, Owner(g, children, children[k]), children[k]);
            forall m | 0 <= m < k + 1 && Eligible(g, children[m]) :: ChildGrouped(g, children, after, children[m])
  {
    var c := children[k];
    var owner := Owner(g, children, c);
    var after := AddToGroup(groups, owner, c);
    hide Owner, Eligible, AliasesExact, OwnerSeen;
    forall m | 0 <= m < k + 1 && Eligible(g, children[m])
      ensures ChildGrouped(g, children, after, children[m])
    {
      if m < k {
        ChildStaysGrouped(g, children, groups, owner, c, children[m]);
      } else {
        assert InGroup(after[FindGroup(groups, owner)], c);
      }
    }
  }

  lemma AddKeepsGrouped(g: Graph, children: seq<Int32>, k: nat, groups: seq<Group>)
    requires k < |children| && Grouped(g, children, k, groups) && Eligible(g, children[k])
    ensures Grouped(g, children, k + 1, AddToGroup(groups, Owner(g, children, children[k]), children[k]))
  {
    AddedGroupsExact(g, children, k, groups);
    AddedChildrenGrouped(g, children, k, groups);
    AddKeepsOwnersDistinct(groups, Owner(g, children, children[k]), children[k]);
    hide Owner, Eligible, AliasesExact, OwnerSeen, ChildGrouped, Distinct, DistinctOwners, AddToGroup, FindGroup;
  }

  lemma SkipKeepsGrouped(g: Graph, children: seq<Int32>, k: nat, groups: seq<Group>)
    requires k < |children| && Grouped(g, children, k, groups) && !Eligible(g, children[k])
    ensures Grouped(g, children, k + 1, groups)
  {
    hide Owner, Eligible, AliasesExact;
    forall i | 0 <= i < |groups|
      ensures OwnerSeen(g, children, k + 1, groups[i].owner) && AliasesExact(g, children, children[..k + 1], groups[i])
    {
      assert OwnerSeen(g, children, k, groups[i].owner);
      AliasesAfterChild(g, children, k, groups[i], []);
      assert groups[i].aliases + [] == groups[i].aliases;
    }
  }

  lemma {:induction false} GroupsAreGrouped(g: Graph, children: seq<Int32>, k: nat)
    requires k <= |children|
    ensures Grouped(g, children, k, GroupsAfter(g, children, k))
  {
    hide Grouped, AddToGroup, GroupsAfter, Owner, Eligible;
    if k > 0 {
      GroupsAfterChild(g, children, k - 1);
      GroupsAreGrouped(g, children, k - 1);
      if Eligible(g, children[k - 1]) {
        AddKeepsGrouped(g, children, k - 1, GroupsAfter(g, children, k - 1));
      } else {
        SkipKeepsGrouped(g, children, k - 1, GroupsAfter(g, children, k - 1));
      }
    } else {
      NoneGrouped(g, children);
    }
  }

  lemma NoneGrouped(g: Graph, children: seq<Int32>)
    ensures Grouped(g, children, 0, GroupsAfter(g, children, 0))
  {}

  lemma GroupsAfterChild(g: Graph, children: seq<Int32>, k: nat)
    requires k < |children|
    ensures GroupsAfter(g, children, k + 1)
            == if Eligible(g, children[k])
               then AddToGroup(GroupsAfter(g, children, k), Owner(g, children, children[k]), children[k])
               else GroupsAfter(g, children, k)
  {
    hide AddToGroup, Owner;
  }

  // An owner owns itself.
  lemma OwnerOwnsItself(g: Graph, children: seq<Int32>, c: int)
    requires InGraph(g, c)
    ensures InGraph(g, Owner(g, children, c))
    ensures Owner(g, children, Owner(g, children, c)) == Owner(g, children, c)
    ensures Owner(g, children, c) == c || (Owner(g, children, c) in children && IsLiteral(g, Owner(g, children, c)))
  {
    ResolveIsIdempotent(g, c);
  }

  // The groups partition the root's literals, whatever the root lists. Every
  // owner is a literal child that belongs to itself, and has one group. An alias
  // is a named literal that resolves to its owner, and is listed with it as
  // often as the root lists it. Every named literal is in exactly one group.
  lemma GroupsPartition(g: Graph, children: seq<Int32>)
    ensures var groups := RootGroups(g, children);
            && (forall i | 0 <= i < |groups| :: OwnerSound(g, children, groups[i].owner))
            && DistinctOwners(groups)
            && (forall i | 0 <= i < |groups| :: AliasesExact(g, children, children, groups[i]))
            && (forall c | c in children && Eligible(g, c) :: ChildGrouped(g, children, groups, c))
            && (forall i, j, c | 0 <= i < |groups| && 0 <= j < |groups|
                  && InGroup(groups[i], c) && InGroup(groups[j], c) :: i == j)
  {
    var groups := RootGroups(g, children);
    GroupsAreGrouped(g, children, |children|);
    assert children[..|children|] == children;
    OwnersAreSound(g, children, groups);
    hide Owner, Eligible, RootGroups, AliasesExact, ChildGrouped;
    forall c | c in children && Eligible(g, c) ensures ChildGrouped(g, children, groups, c) {
      var m :| 0 <= m < |children| && children[m] == c;
    }
    forall i, c | 0 <= i < |groups| && InGroup(groups[i], c)
      ensures InGraph(g, c) && Owner(g, children, c) == groups[i].owner
    {
      if c != groups[i].owner { AliasResolves(g, children, groups[i], c); }
    }
    forall i, j, c | 0 <= i < |groups| && 0 <= j < |groups| && InGroup(groups[i], c) && InGroup(groups[j], c)
      ensures i == j
    {
      assert InGraph(g, c) && groups[i].owner == groups[j].owner;
    }
  }

  // A command's node is a literal child of the root, and belongs to itself.
  predicate OwnerSound(g: Graph, children: seq<Int32>, owner: int) {
    owner in children && IsLiteral(g, owner) && Owner(g, children, owner) == owner
  }

  lemma OwnersAreSound(g: Graph, children: seq<Int32>, groups: seq<Group>)
    requires Grouped(g, children, |children|, groups)
    ensures forall i | 0 <= i < |groups| :: OwnerSound(g, children, groups[i].owner)
  {
    forall i | 0 <= i < |groups| ensures OwnerSound(g, children, groups[i].owner) {
      assert OwnerSeen(g, children, |children|, groups[i].owner);
      SeenOwnerIsSound(g, children, groups[i].owner);
    }
  }

  lemma SeenOwnerIsSound(g: Graph, children: seq<Int32>, owner: int)
    requires OwnerSeen(g, children, |children|, owner)
    ensures OwnerSound(g, children, owner)
  {
    var m :| 0 <= m < |children| && Eligible(g, children[m]) && Owner(g, children, children[m]) == owner;
    OwnerOwnsItself(g, children, children[m]);
  }

  lemma AliasResolves(g: Graph, children: seq<Int32>, group: Group, a: int)
    requires AliasesExact(g, children, children, group) && a in group.aliases
    ensures a in children && Eligible(g, a) && a != group.owner && Owner(g, children, a) == group.owner
  {
    hide Owner;
    assert Times(group.aliases, a) > 0;
    assert AliasTimes(g, children, children, group.owner, a) > 0;
  }
}
