// The names a client is shown: commands and their aliases.
module CommandNames {
  import opened Widths
  import opened CommandGraph
  import opened CommandAliases
  import opened CommandBuilder

  // The nodes of the groups, one group after the other.
  function Flat(groups: seq<Group>): seq<int> {
    if groups == [] then [] else [groups[0].owner] + groups[0].aliases + Flat(groups[1..])
  }

  // The named literals among the children, in order.
  function Literals(g: Graph, children: seq<Int32>): seq<int> {
    if children == [] then []
    else (if Eligible(g, children[0]) then [children[0] as int] else []) + Literals(g, children[1..])
  }

  function ListedNames(commands: seq<ListedCommand>): seq<string> {
    if commands == [] then []
    else [commands[0].name] + (if commands[0].aliases.Some? then commands[0].aliases.value else [])
         + ListedNames(commands[1..])
  }

  // ----- how often each node is shown ----------------------------------------

  lemma TimesConcat(a: seq<int>, b: seq<int>, c: int)
    ensures Times(a + b, c) == Times(a, c) + Times(b, c)
  {}

  lemma FlatOf(group: Group, rest: seq<Group>, c: int)
    ensures Times(Flat([group] + rest), c)
            == (if c == group.owner then 1 else 0) + Times(group.aliases, c) + Times(Flat(rest), c)
  {
    assert ([group] + rest)[1..] == rest;
    TimesConcat([group.owner] + group.aliases, Flat(rest), c);
    TimesConcat([group.owner], group.aliases, c);
  }

  lemma {:induction false} FlatAppended(groups: seq<Group>, last: Group, c: int)
    ensures Times(Flat(groups + [last]), c)
            == Times(Flat(groups), c) + (if c == last.owner then 1 else 0) + Times(last.aliases, c)
  {
    hide Times;
    if groups == [] {
      assert groups + [last] == [last] + [];
      FlatOf(last, [], c);
    } else {
      assert groups + [last] == [groups[0]] + (groups[1..] + [last]) && groups == [groups[0]] + groups[1..];
      FlatAppended(groups[1..], last, c);
      FlatOf(groups[0], groups[1..] + [last], c);
      FlatOf(groups[0], groups[1..], c);
    }
  }

  lemma {:induction false} FlatUpdated(groups: seq<Group>, i: nat, more: seq<int>, c: int)
    requires i < |groups|
    ensures Times(Flat(groups[i := Group(groups[i].owner, groups[i].aliases + more)]), c)
            == Times(Flat(groups), c) + Times(more, c)
  {
    hide Times;
    var updated := Group(groups[i].owner, groups[i].aliases + more);
    assert groups == [groups[0]] + groups[1..];
    FlatOf(groups[0], groups[1..], c);
    if i == 0 {
      assert groups[0 := updated] == [updated] + groups[1..];
      FlatOf(updated, groups[1..], c);
      TimesConcat(groups[0].aliases, more, c);
    } else {
      assert groups[i := updated] == [groups[0]] + groups[1..][i - 1 := updated];
      FlatUpdated(groups[1..], i - 1, more, c);
      FlatOf(groups[0], groups[1..][i - 1 := updated], c);
    }
  }

  // Placing a child shows its owner, if it is new, and the child as an alias.
  lemma FlatAfterAdd(groups: seq<Group>, owner: int, child: int, c: int)
    ensures Times(Flat(AddToGroup(groups, owner, child)), c)
            == Times(Flat(groups), c) + (if c == owner && FindGroup(groups, owner) == |groups| then 1 else 0)
               + (if child != owner && c == child then 1 else 0)
  {
    var i, alias := FindGroup(groups, owner), if child != owner then [child] else [];
    if i < |groups| {
      FlatUpdated(groups, i, alias, c);
    } else {
      FlatAppended(groups, Group(owner, alias), c);
    }
  }

  lemma {:induction false} FoundIfSeen(g: Graph, children: seq<Int32>, k: nat, owner: int)
    requires k <= |children|
    ensures FindGroup(GroupsAfter(g, children, k), owner) < |GroupsAfter(g, children, k)|
            <==> OwnerSeen(g, children, k, owner)
  {
    if k > 0 {
      var c := children[k - 1];
      GroupsAfterChild(g, children, k - 1);
      FoundIfSeen(g, children, k - 1, owner);
      SeenStep(g, children, k - 1, owner);
      hide Owner, FindGroup, AddToGroup, GroupsAfter, OwnerSeen;
      if Eligible(g, c) {
        FoundAfterAdd(GroupsAfter(g, children, k - 1), Owner(g, children, c), c, owner);
      }
    }
  }

  lemma FoundAfterAdd(groups: seq<Group>, owner: int, c: int, o: int)
    ensures var after := AddToGroup(groups, owner, c);
            FindGroup(after, o) < |after| <==> FindGroup(groups, o) < |groups| || o == owner
  {
    FindAfterAdd(groups, owner, c, o);
  }

  lemma SeenStep(g: Graph, children: seq<Int32>, k: nat, owner: int)
    requires k < |children|
    ensures OwnerSeen(g, children, k + 1, owner)
            <==> OwnerSeen(g, children, k, owner)
                 || (Eligible(g, children[k]) && Owner(g, children, children[k]) == owner)
  {
    hide Owner;
    if OwnerSeen(g, children, k, owner) {
      var m :| 0 <= m < k && Eligible(g, children[m]) && Owner(g, children, children[m]) == owner;
    }
  }

  // How often a node is shown after the first k children, as a command or as an
  // alias: once if a named literal belongs to it, and as often as it was listed
  // if it belongs to another.
  ghost function ShownTimes(g: Graph, children: seq<Int32>, k: nat, c: int): nat
    requires k <= |children|
  {
    (if OwnerSeen(g, children, k, c) then 1 else 0)
    + if Eligible(g, c) && Owner(g, children, c) != c then Times(children[..k], c) else 0
  }

  // How often the next child shows a node: as a new owner, and as an alias.
  ghost function Adds(g: Graph, children: seq<Int32>, k: nat, c: int): nat
    requires k < |children|
  {
    var child := children[k];
    if !Eligible(g, child) then 0
    else
      var owner := Owner(g, children, child);
      (if c == owner && !OwnerSeen(g, children, k, c) then 1 else 0) + if child != owner && c == child then 1 else 0
  }

  lemma ShownStep(g: Graph, children: seq<Int32>, k: nat, c: int)
    requires k < |children|
    ensures ShownTimes(g, children, k + 1, c) == ShownTimes(g, children, k, c) + Adds(g, children, k, c)
  {
    hide Owner, Times, OwnerSeen;
    SeenStep(g, children, k, c);
    TimesAppend(children[..k], children[k], c);
    assert children[..k + 1] == children[..k] + [children[k]];
  }

  lemma FlatStep(g: Graph, children: seq<Int32>, k: nat, c: int)
    requires k < |children|
    ensures Times(Flat(GroupsAfter(g, children, k + 1)), c)
            == Times(Flat(GroupsAfter(g, children, k)), c) + Adds(g, children, k, c)
  {
    hide Owner, FindGroup, AddToGroup, Times, Flat, GroupsAfter, OwnerSeen;
    var child := children[k];
    GroupsAfterChild(g, children, k);
    FoundIfSeen(g, children, k, c);
    if Eligible(g, child) {
      FlatAfterAdd(GroupsAfter(g, children, k), Owner(g, children, child), child, c);
    }
  }

  // The law for every graph and every list of children.
  lemma {:induction false} ShownExactly(g: Graph, children: seq<Int32>, k: nat, c: int)
    requires k <= |children|
    ensures Times(Flat(GroupsAfter(g, children, k)), c) == ShownTimes(g, children, k, c)
  {
    hide Times, Flat, ShownTimes, GroupsAfter, Adds;
    if k > 0 {
      ShownExactly(g, children, k - 1, c);
      FlatStep(g, children, k - 1, c);
      ShownStep(g, children, k - 1, c);
    } else {
      NothingShown(g, children, c);
    }
  }

  lemma NothingShown(g: Graph, children: seq<Int32>, c: int)
    ensures Times(Flat(GroupsAfter(g, children, 0)), c) == 0 && ShownTimes(g, children, 0, c) == 0
  {
    hide Owner;
  }

  lemma {:induction false} LiteralTimes(g: Graph, children: seq<Int32>, c: int)
    ensures Times(Literals(g, children), c) == if Eligible(g, c) then Times(children, c) else 0
  {
    hide Eligible;
    if children != [] {
      LiteralTimes(g, children[1..], c);
      assert children == [children[0]] + children[1..];
    }
  }

  // ----- the order of groups and aliases -------------------------------------

  // The literals that belong to another command, in order.
  function Belonging(g: Graph, children: seq<Int32>, listed: seq<Int32>, owner: int): seq<int> {
    if listed == [] then []
    else
      (if Eligible(g, listed[0]) && listed[0] != owner && Owner(g, children, listed[0]) == owner
       then [listed[0] as int] else [])
      + Belonging(g, children, listed[1..], owner)
  }

  lemma {:induction false} BelongingLast(g: Graph, children: seq<Int32>, listed: seq<Int32>, c: Int32, owner: int)
    ensures Belonging(g, children, listed + [c], owner)
            == Belonging(g, children, listed, owner)
               + if Eligible(g, c) && c != owner && Owner(g, children, c) == owner then [c as int] else []
  {
    hide Owner, Eligible;
    if listed == [] {
      assert (listed + [c])[1..] == [];
    } else {
      assert (listed + [c])[1..] == listed[1..] + [c];
      BelongingLast(g, children, listed[1..], c, owner);
    }
  }

  // The groups are in the order of the first child that belongs to each, and
  // the aliases in the order of the children.
  ghost predicate Ordered(g: Graph, children: seq<Int32>, k: nat, groups: seq<Group>)
    requires k <= |children|
  {
    && (forall i | 0 <= i < |groups| :: OwnerSeen(g, children, k, groups[i].owner))
    && (forall i | 0 <= i < |groups| :: groups[i].aliases == Belonging(g, children, children[..k], groups[i].owner))
    && (forall i, j | 0 <= i < j < |groups| :: SeenBefore(g, children, k, groups[i].owner, groups[j].owner))
  }

  // A child belongs to the first owner before any belongs to the second.
  ghost predicate SeenBefore(g: Graph, children: seq<Int32>, k: nat, first: int, second: int)
    requires k <= |children|
  {
    exists m | 0 <= m < k :: BelongsTo(g, children, m, first) && !OwnerSeen(g, children, m + 1, second)
  }

  predicate BelongsTo(g: Graph, children: seq<Int32>, m: nat, owner: int)
    requires m < |children|
  {
    Eligible(g, children[m]) && Owner(g, children, children[m]) == owner
  }

  lemma SeenGrows(g: Graph, children: seq<Int32>, k: nat, first: int, second: int)
    requires k < |children|
    ensures SeenBefore(g, children, k, first, second) ==> SeenBefore(g, children, k + 1, first, second)
  {
    hide BelongsTo, OwnerSeen;
  }

  // Whoever was seen was seen before one that was not.
  lemma SeenBeforeNew(g: Graph, children: seq<Int32>, k: nat, first: int, second: int)
    requires k <= |children| && OwnerSeen(g, children, k, first) && !OwnerSeen(g, children, k, second)
    ensures SeenBefore(g, children, k, first, second)
  {
    hide Owner;
    var m :| 0 <= m < k && Eligible(g, children[m]) && Owner(g, children, children[m]) == first;
    assert BelongsTo(g, children, m, first);
  }

  lemma NobodyBelongs(g: Graph, children: seq<Int32>, k: nat, owner: int)
    requires k <= |children| && !OwnerSeen(g, children, k, owner)
    ensures Belonging(g, children, children[..k], owner) == []
    decreases k
  {
    if k > 0 {
      SeenStep(g, children, k - 1, owner);
      NobodyBelongs(g, children, k - 1, owner);
      BelongingLast(g, children, children[..k - 1], children[k - 1], owner);
      assert children[..k] == children[..k - 1] + [children[k - 1]];
      hide Owner, Belonging;
    }
  }

  lemma PlacedAliases(groups: seq<Group>, owner: int, c: int, i: nat)
    requires DistinctOwners(groups) && i < |AddToGroup(groups, owner, c)|
    ensures var after := AddToGroup(groups, owner, c);
            after[i].aliases == (if i < |groups| then groups[i].aliases else [])
                                + if after[i].owner == owner && c != owner then [c] else []
  {
    if i < |groups| { assert groups[i].aliases + [] == groups[i].aliases; }
  }

  lemma OrderStep(g: Graph, children: seq<Int32>, k: nat)
    requires k < |children| && Ordered(g, children, k, GroupsAfter(g, children, k))
    ensures Ordered(g, children, k + 1, GroupsAfter(g, children, k + 1))
  {
    hide Owner, SeenBefore, Belonging, GroupsAfter, OwnerSeen, BelongsTo;
    var groups, after, c := GroupsAfter(g, children, k), GroupsAfter(g, children, k + 1), children[k];
    GroupsAreGrouped(g, children, k);
    GroupsAfterChild(g, children, k);
    assert children[..k + 1] == children[..k] + [c];
    forall i | 0 <= i < |after|
      ensures OwnerSeen(g, children, k + 1, after[i].owner)
      ensures after[i].aliases == Belonging(g, children, children[..k + 1], after[i].owner)
    {
      var owner := after[i].owner;
      SeenStep(g, children, k, owner);
      BelongingLast(g, children, children[..k], c, owner);
      FoundIfSeen(g, children, k, owner);
      if i == |groups| { NobodyBelongs(g, children, k, owner); }
      if Eligible(g, c) { PlacedAliases(groups, Owner(g, children, c), c, i); }
    }
    forall i, j | 0 <= i < j < |after| ensures SeenBefore(g, children, k + 1, after[i].owner, after[j].owner) {
      SeenGrows(g, children, k, after[i].owner, after[j].owner);
      if j == |groups| {
        FoundIfSeen(g, children, k, after[j].owner);
        assert after[i].owner == groups[i].owner;
        SeenBeforeNew(g, children, k, after[i].owner, after[j].owner);
      } else {
        assert after[i].owner == groups[i].owner && after[j].owner == groups[j].owner;
      }
    }
  }

  lemma {:induction false} GroupsInOrder(g: Graph, children: seq<Int32>, k: nat)
    requires k <= |children|
    ensures Ordered(g, children, k, GroupsAfter(g, children, k))
  {
    if k > 0 {
      GroupsInOrder(g, children, k - 1);
      OrderStep(g, children, k - 1);
    }
  }

  // ----- names instead of nodes ----------------------------------------------

  function Without<T>(s: seq<T>, i: nat): seq<T>
    requires i < |s|
  {
    s[..i] + s[i + 1..]
  }

  lemma RemovedFromBag<T>(s: seq<T>, i: nat)
    requires i < |s|
    ensures multiset(s) == multiset(Without(s, i)) + multiset{s[i]}
  {
    assert s == s[..i] + [s[i]] + s[i + 1..];
  }

  lemma Cancel<T>(a: multiset<T>, b: multiset<T>, x: T)
    requires a + multiset{x} == b + multiset{x}
    ensures a == b
  {
    assert a == a + multiset{x} - multiset{x};
    assert b == b + multiset{x} - multiset{x};
  }

  lemma NamesWithout(g: Graph, nodes: seq<int>, i: nat)
    requires AllInGraph(g, nodes) && i < |nodes|
    ensures AllInGraph(g, Without(nodes, i)) && NamesOf(g, Without(nodes, i)) == Without(NamesOf(g, nodes), i)
  {}

  lemma BagMember<T>(a: seq<T>, b: seq<T>) returns (i: nat)
    requires a != [] && multiset(a) == multiset(b)
    ensures i < |b| && b[i] == a[0]
  {
    assert a[0] in multiset(a) && a[0] in b;
    i :| 0 <= i < |b| && b[i] == a[0];
  }

  // Permuted nodes have permuted names.
  lemma {:induction false} NamesPermute(g: Graph, a: seq<int>, b: seq<int>)
    requires AllInGraph(g, a) && AllInGraph(g, b) && multiset(a) == multiset(b)
    ensures multiset(NamesOf(g, a)) == multiset(NamesOf(g, b))
    decreases |a|
  {
    if a == [] {
      assert |b| == |multiset(b)| == 0;
    } else {
      var i := BagMember(a, b);
      NamesWithout(g, a, 0);
      NamesWithout(g, b, i);
      RemovedFromBag(a, 0);
      RemovedFromBag(b, i);
      RemovedFromBag(NamesOf(g, a), 0);
      RemovedFromBag(NamesOf(g, b), i);
      hide AllInGraph, Without;
      Cancel(multiset(Without(a, 0)), multiset(Without(b, i)), a[0]);
      NamesPermute(g, Without(a, 0), Without(b, i));
    }
  }

  lemma NamesJoin(g: Graph, owner: int, aliases: seq<int>, rest: seq<int>)
    requires InGraph(g, owner) && AllInGraph(g, aliases) && AllInGraph(g, rest)
    ensures AllInGraph(g, [owner] + aliases + rest)
    ensures NamesOf(g, [owner] + aliases + rest) == [g[owner].name] + NamesOf(g, aliases) + NamesOf(g, rest)
  {}

  lemma {:induction false} NamesOfGroups(g: Graph, groups: seq<Group>)
    requires AllGroupsInGraph(g, groups)
    ensures AllInGraph(g, Flat(groups))
    ensures ListedNames(CommandsFor(g, groups)) == NamesOf(g, Flat(groups))
  {
    if groups != [] {
      var head, rest := groups[0], groups[1..];
      NamesOfGroups(g, rest);
      assert CommandsFor(g, groups) == [CommandOf(g, head)] + CommandsFor(g, rest);
      NamesJoin(g, head.owner, head.aliases, Flat(rest));
      assert head.aliases == [] ==> NamesOf(g, head.aliases) == [];
      hide NamesOf, AllInGraph, CommandsFor, Overloads, NonEmptyOverloads;
    }
  }

  // The listed names are those of the nodes of the groups, whatever the graph.
  lemma NamesExact(g: Graph, root: int)
    requires InGraph(g, root)
    ensures var groups := RootGroups(g, g[root].children);
            && AllInGraph(g, Flat(groups))
            && (groups == [] ==> CommandsOf(g, root) == [HELP])
            && (groups != [] ==> ListedNames(CommandsOf(g, root)) == NamesOf(g, Flat(groups)))
  {
    hide RootGroups, CommandOf, Overloads;
    var groups := RootGroups(g, g[root].children);
    RootGroupsInGraph(g, g[root].children);
    NamesOfGroups(g, groups);
    assert groups != [] ==> CommandsOf(g, root) == CommandsFor(g, groups);
  }

  // Every command has the name of its group's node and the names of its
  // aliases, if any. Its overloads are the first 256 of the node's, or a single
  // one without parameters if the node has none.
  lemma CommandsExact(g: Graph, root: int, i: nat)
    requires InGraph(g, root) && i < |RootGroups(g, g[root].children)|
    ensures var group, commands := RootGroups(g, g[root].children)[i], CommandsOf(g, root);
            var overloads := Overloads(g, group.owner, [], {});
            && |commands| == |RootGroups(g, g[root].children)| && 0 <= group.owner < |g|
            && commands[i].name == g[group.owner].name
            && (commands[i].aliases.None? <==> group.aliases == [])
            && (group.aliases != [] ==>
                  |commands[i].aliases.value| == |group.aliases|
                  && forall j | 0 <= j < |group.aliases| ::
                       0 <= group.aliases[j] < |g| && commands[i].aliases.value[j] == g[group.aliases[j]].name)
            && (overloads == [] ==> commands[i].overloads == [[]])
            && (overloads != [] ==> commands[i].overloads == overloads[..Min(256, |overloads|)])
  {
    hide RootGroups, Overloads;
    RootGroupsInGraph(g, g[root].children);
    assert GroupInGraph(g, RootGroups(g, g[root].children)[i]);
    assert CommandsOf(g, root) == CommandsFor(g, RootGroups(g, g[root].children));
  }

  // Without groups there is the help command, with one overload and no aliases.
  lemma HelpExact(g: Graph, root: int)
    requires InGraph(g, root) && RootGroups(g, g[root].children) == []
    ensures CommandsOf(g, root) == [Command("help", [[]], None)]
  {
    hide RootGroups;
  }

  // ----- when every name is shown exactly as often as it is listed ---------------

  // No literal that belongs to itself is listed twice, and none belongs to a
  // literal without a name.
  predicate Tidy(g: Graph, children: seq<Int32>) {
    forall c | c in children && Eligible(g, c) ::
      && g[Owner(g, children, c)].name != ""
      && (Owner(g, children, c) == c ==> Times(children, c) == 1)
  }

  lemma SeenIsOwner(g: Graph, children: seq<Int32>, c: int)
    ensures OwnerSeen(g, children, |children|, c)
            <==> exists a :: a in children && Eligible(g, a) && Owner(g, children, a) == c
    ensures OwnerSeen(g, children, |children|, c) ==> OwnerSound(g, children, c)
  {
    hide Owner, OwnerSound;
    if OwnerSeen(g, children, |children|, c) {
      SeenOwnerIsSound(g, children, c);
      var m :| 0 <= m < |children| && Eligible(g, children[m]) && Owner(g, children, children[m]) == c;
      assert children[m] in children;
    }
    if a :| a in children && Eligible(g, a) && Owner(g, children, a) == c {
      var m :| 0 <= m < |children| && children[m] == a;
    }
  }

  // A tidy root shows each literal as often as it lists it.
  lemma TidyTimes(g: Graph, children: seq<Int32>, c: int)
    requires Tidy(g, children)
    ensures ShownTimes(g, children, |children|, c) == if Eligible(g, c) then Times(children, c) else 0
  {
    hide Owner;
    assert children[..|children|] == children;
    SeenIsOwner(g, children, c);
  }

  // Without unnamed owners no literal is shown more often than it is listed.
  lemma NamedTimes(g: Graph, children: seq<Int32>, c: int)
    requires forall a | a in children && Eligible(g, a) :: g[Owner(g, children, a)].name != ""
    ensures ShownTimes(g, children, |children|, c) <= if Eligible(g, c) then Times(children, c) else 0
  {
    hide Owner;
    assert children[..|children|] == children;
    SeenIsOwner(g, children, c);
  }

  lemma LiteralsAreEligible(g: Graph, children: seq<Int32>)
    ensures forall c :: c in Literals(g, children) <==> c in children && Eligible(g, c)
    ensures AllInGraph(g, Literals(g, children))
  {
    hide Eligible;
    forall c ensures c in Literals(g, children) <==> c in children && Eligible(g, c) {
      LiteralTimes(g, children, c);
    }
    var literals := Literals(g, children);
    forall i | 0 <= i < |literals| ensures InGraph(g, literals[i]) {
      assert literals[i] in literals;
      EligibleInGraph(g, literals[i]);
    }
  }

  lemma EligibleInGraph(g: Graph, c: int)
    requires Eligible(g, c)
    ensures InGraph(g, c) && g[c].name != ""
  {}

  lemma SameTimesSameBag(a: seq<int>, b: seq<int>)
    requires forall c :: Times(a, c) == Times(b, c)
    ensures multiset(a) == multiset(b)
  {
    forall c ensures multiset(a)[c] == multiset(b)[c] {
      assert Times(a, c) == Times(b, c);
    }
  }

  lemma SubBagOfSameSize<T>(a: multiset<T>, b: multiset<T>)
    requires a <= b && |a| == |b|
    ensures a == b
  {
    assert b == a + (b - a);
  }

  lemma FewerTimesSmallerBag(a: seq<int>, b: seq<int>)
    requires forall c :: Times(a, c) <= Times(b, c)
    ensures multiset(a) <= multiset(b)
  {
    forall c ensures multiset(a)[c] <= multiset(b)[c] {
      assert Times(a, c) <= Times(b, c);
    }
  }

  lemma ShownAtRoot(g: Graph, children: seq<Int32>, c: int)
    ensures Times(Flat(RootGroups(g, children)), c) == ShownTimes(g, children, |children|, c)
  {
    ShownExactly(g, children, |children|, c);
  }

  lemma TidyShowsLiterals(g: Graph, children: seq<Int32>)
    requires Tidy(g, children)
    ensures multiset(Flat(RootGroups(g, children))) == multiset(Literals(g, children))
  {
    hide Tidy, RootGroups, Flat, Literals, ShownTimes, Times;
    forall c ensures Times(Flat(RootGroups(g, children)), c) == Times(Literals(g, children), c) {
      ShownAtRoot(g, children, c);
      TidyTimes(g, children, c);
      LiteralTimes(g, children, c);
    }
    SameTimesSameBag(Flat(RootGroups(g, children)), Literals(g, children));
  }

  // The owner of a named literal is shown.
  lemma OwnerIsShown(g: Graph, children: seq<Int32>, a: int)
    requires a in children && Eligible(g, a)
    ensures Owner(g, children, a) in Flat(RootGroups(g, children))
    ensures OwnerSeen(g, children, |children|, Owner(g, children, a))
  {
    hide Flat, RootGroups, Owner;
    var owner := Owner(g, children, a);
    SeenIsOwner(g, children, owner);
    ShownAtRoot(g, children, owner);
    assert Times(Flat(RootGroups(g, children)), owner) > 0;
  }

  lemma SharedName(g: Graph, a: seq<int>, b: seq<int>, c: int) returns (d: int)
    requires AllInGraph(g, a) && AllInGraph(g, b) && c in a
    requires multiset(NamesOf(g, a)) == multiset(NamesOf(g, b))
    ensures d in b && InGraph(g, c) && InGraph(g, d) && g[d].name == g[c].name
  {
    var i :| 0 <= i < |a| && a[i] == c;
    assert NamesOf(g, a)[i] == g[c].name && g[c].name in multiset(NamesOf(g, a));
    assert g[c].name in NamesOf(g, b);
    var j :| 0 <= j < |b| && NamesOf(g, b)[j] == g[c].name;
    d := b[j];
  }

  lemma OwnersAreNamed(g: Graph, children: seq<Int32>)
    requires AllInGraph(g, Flat(RootGroups(g, children))) && AllInGraph(g, Literals(g, children))
    requires multiset(NamesOf(g, Flat(RootGroups(g, children)))) == multiset(NamesOf(g, Literals(g, children)))
    ensures forall a | a in children && Eligible(g, a) :: g[Owner(g, children, a)].name != ""
  {
    hide Flat, RootGroups, Literals, NamesOf, Resolve, OwnerSeen;
    LiteralsAreEligible(g, children);
    forall a | a in children && Eligible(g, a) ensures g[Owner(g, children, a)].name != "" {
      OwnerIsShown(g, children, a);
      var d := SharedName(g, Flat(RootGroups(g, children)), Literals(g, children), Owner(g, children, a));
      EligibleInGraph(g, d);
    }
  }

  lemma SameNamesMeanTidy(g: Graph, children: seq<Int32>)
    requires AllInGraph(g, Flat(RootGroups(g, children))) && AllInGraph(g, Literals(g, children))
    requires multiset(NamesOf(g, Flat(RootGroups(g, children)))) == multiset(NamesOf(g, Literals(g, children)))
    ensures Tidy(g, children)
  {
    hide Flat, RootGroups, Literals, Owner, Times;
    var flat, literals := Flat(RootGroups(g, children)), Literals(g, children);
    OwnersAreNamed(g, children);
    SameSize(g, flat, literals);
    forall c ensures Times(flat, c) <= Times(literals, c) {
      ShownAtRoot(g, children, c);
      NamedTimes(g, children, c);
      LiteralTimes(g, children, c);
    }
    FewerTimesSmallerBag(flat, literals);
    SubBagOfSameSize(multiset(flat), multiset(literals));
    forall c | c in children && Eligible(g, c) && Owner(g, children, c) == c ensures Times(children, c) == 1 {
      OwnerIsShown(g, children, c);
      ShownAtRoot(g, children, c);
      LiteralTimes(g, children, c);
      SameBagSameTimes(flat, literals, c);
    }
  }

  lemma SameBagSameTimes(a: seq<int>, b: seq<int>, c: int)
    requires multiset(a) == multiset(b)
    ensures Times(a, c) == Times(b, c)
  {}

  lemma SameSize(g: Graph, a: seq<int>, b: seq<int>)
    requires AllInGraph(g, a) && AllInGraph(g, b) && multiset(NamesOf(g, a)) == multiset(NamesOf(g, b))
    ensures |multiset(a)| == |multiset(b)|
  {
    assert |NamesOf(g, a)| == |multiset(NamesOf(g, a))| == |multiset(NamesOf(g, b))| == |NamesOf(g, b)|;
  }

  // The names of the commands and of their aliases are exactly the names of the
  // root's literals, each as often as the root lists it, if and only if no
  // literal that belongs to itself is listed twice and none belongs to a literal
  // without a name.
  lemma NamesAsListed(g: Graph, root: int)
    requires InGraph(g, root)
    ensures var literals := Literals(g, g[root].children);
            && AllInGraph(g, literals)
            && (if literals == [] then CommandsOf(g, root) == [HELP]
                else multiset(ListedNames(CommandsOf(g, root))) == multiset(NamesOf(g, literals))
                     <==> Tidy(g, g[root].children))
  {
    hide Flat, RootGroups, Literals, Tidy, NamesOf, CommandsOf, ListedNames;
    var children := g[root].children;
    var groups, literals := RootGroups(g, children), Literals(g, children);
    LiteralsAreEligible(g, children);
    NamesExact(g, root);
    GroupsIfLiterals(g, children);
    if groups != [] {
      if Tidy(g, children) {
        TidyShowsLiterals(g, children);
        NamesPermute(g, Flat(groups), literals);
      } else if multiset(NamesOf(g, Flat(groups))) == multiset(NamesOf(g, literals)) {
        SameNamesMeanTidy(g, children);
      }
    }
  }

  lemma GroupsIfLiterals(g: Graph, children: seq<Int32>)
    ensures RootGroups(g, children) == [] <==> Literals(g, children) == []
  {
    hide RootGroups, Owner;
    var groups, literals := RootGroups(g, children), Literals(g, children);
    LiteralsAreEligible(g, children);
    if literals != [] {
      assert literals[0] in literals;
      OwnerIsShown(g, children, literals[0]);
    }
    if groups != [] {
      assert groups[0].owner in Flat(groups);
      ShownAtRoot(g, children, groups[0].owner);
      SomeLiteral(g, children, groups[0].owner);
    }
  }

  // Whatever is shown comes from a named literal.
  lemma SomeLiteral(g: Graph, children: seq<Int32>, c: int)
    requires ShownTimes(g, children, |children|, c) > 0
    ensures exists a :: a in children && Eligible(g, a)
  {
    hide Owner;
    assert children[..|children|] == children;
    if OwnerSeen(g, children, |children|, c) {
      SeenIsOwner(g, children, c);
    } else {
      assert c in children && Eligible(g, c);
    }
  }

  predicate AllLiteralsNamed(g: Graph, children: seq<Int32>) {
    forall c | c in children && IsLiteral(g, c) :: g[c].name != ""
  }

  // In particular, with distinct children and named literals every name is shown
  // exactly once.
  lemma EveryNameOnce(g: Graph, root: int)
    requires InGraph(g, root) && Distinct(g[root].children) && AllLiteralsNamed(g, g[root].children)
    ensures var literals := Literals(g, g[root].children);
            && AllInGraph(g, literals) && Distinct(literals)
            && (if literals == [] then CommandsOf(g, root) == [HELP]
                else multiset(ListedNames(CommandsOf(g, root))) == multiset(NamesOf(g, literals)))
  {
    var children := g[root].children;
    DistinctLiterals(g, children);
    NamesAsListed(g, root);
    hide CommandsOf, ListedNames, NamesOf, Literals, Owner;
    forall c | c in children && Eligible(g, c)
      ensures g[Owner(g, children, c)].name != "" && (Owner(g, children, c) == c ==> Times(children, c) == 1)
    {
      OwnerOwnsItself(g, children, c);
      DistinctTimes(children, c);
    }
  }

  lemma {:induction false} DistinctTimes(s: seq<int>, c: int)
    requires Distinct(s)
    ensures Times(s, c) == if c in s then 1 else 0
  {
    if s != [] {
      DistinctTimes(s[1..], c);
      assert s == [s[0]] + s[1..];
    }
  }

  lemma {:induction false} DistinctLiterals(g: Graph, children: seq<Int32>)
    requires Distinct(children)
    ensures Distinct(Literals(g, children))
    ensures forall c :: c in Literals(g, children) <==> c in children && Eligible(g, c)
  {
    if children != [] { DistinctLiterals(g, children[1..]); }
  }

  // ----- concrete graphs -----------------------------------------------------

  function Literal(name: string, redirect: Int32): Node {
    Node(NODE_LITERAL, [], redirect, name, "")
  }

  // The root lists node 1, and node 2 which redirects to it.
  function TwoLiterals(children: seq<Int32>, name: string): Graph {
    [Node(0, children, -1, "", ""), Literal(name, -1), Literal("b", 1)]
  }

  lemma TwoLiteralOwners(children: seq<Int32>, name: string)
    requires 1 in children
    ensures var g := TwoLiterals(children, name);
            && Owner(g, children, 1) == 1 && Owner(g, children, 2) == 1
            && Eligible(g, 2) && (Eligible(g, 1) <==> name != "")
  {
    var g := TwoLiterals(children, name);
    assert Resolve(g, 1, {2}) == 1;
    assert Resolve(g, 2, {}) == Resolve(g, 1, {} + {2});
    assert {} + {2} == {2};
  }

  lemma AddToOnlyGroup(aliases: seq<int>, c: int)
    ensures AddToGroup([Group(1, aliases)], 1, c) == [Group(1, aliases + if c != 1 then [c] else [])]
    ensures AddToGroup([], 1, c) == [Group(1, if c != 1 then [c] else [])]
  {}

  lemma PlaceChildOfOne(g: Graph, children: seq<Int32>, k: nat, aliases: seq<int>, after: seq<int>)
    requires k < |children| && Eligible(g, children[k]) && Owner(g, children, children[k]) == 1
    requires GroupsAfter(g, children, k) == [Group(1, aliases)]
    requires after == aliases + if children[k] != 1 then [children[k]] else []
    ensures GroupsAfter(g, children, k + 1) == [Group(1, after)]
  {
    hide Owner, Eligible, AddToGroup;
    GroupsAfterChild(g, children, k);
    AddToOnlyGroup(aliases, children[k]);
  }

  // An alias that is listed twice is shown twice.
  lemma DuplicateAliasIsKept()
    ensures RootGroups(TwoLiterals([1, 2, 2], "a"), [1, 2, 2]) == [Group(1, [2, 2])]
  {
    var children: seq<Int32> := [1, 2, 2];
    var g := TwoLiterals(children, "a");
    TwoLiteralOwners(children, "a");
    hide Owner, Eligible, AddToGroup;
    GroupsAfterChild(g, children, 0);
    AddToOnlyGroup([], 1);
    PlaceChildOfOne(g, children, 1, [], [2]);
    PlaceChildOfOne(g, children, 2, [2], [2, 2]);
  }

  // A command that is listed twice is shown once, so the names are not those
  // of the list.
  lemma DuplicateCommandIsDropped()
    ensures RootGroups(TwoLiterals([1, 1], "a"), [1, 1]) == [Group(1, [])]
    ensures !Tidy(TwoLiterals([1, 1], "a"), [1, 1])
  {
    var children: seq<Int32> := [1, 1];
    var g := TwoLiterals(children, "a");
    TwoLiteralOwners(children, "a");
    hide Owner, Eligible, AddToGroup;
    GroupsAfterChild(g, children, 0);
    AddToOnlyGroup([], 1);
    PlaceChildOfOne(g, children, 1, [], []);
    assert children[0] == 1 && Times(children, 1) == 2;
  }

  // A literal without a name becomes a command when another belongs to it.
  lemma UnnamedOwnerIsShown()
    ensures RootGroups(TwoLiterals([1, 2], ""), [1, 2]) == [Group(1, [2])]
    ensures !Tidy(TwoLiterals([1, 2], ""), [1, 2])
  {
    var children: seq<Int32> := [1, 2];
    var g := TwoLiterals(children, "");
    TwoLiteralOwners(children, "");
    hide Owner, Eligible;
    GroupsAfterChild(g, children, 0);
    GroupsAfterChild(g, children, 1);
    AddToOnlyGroup([], 2);
    assert children[0] == 1 && children[1] == 2;
    assert 2 in children && g[Owner(g, children, 2)].name == "";
  }
}
