// The projection of a Java command graph onto Bedrock commands, step by step.
module CommandBuilder {
  import opened Widths
  import opened EnumTables
  import opened CommandGraph
  import opened CommandAliases

  // ----- what indexed parameters stand for ----------------------------------

  predicate Resolvable(path: seq<Indexed>, count: nat) {
    forall i | 0 <= i < |path| :: path[i].ptype.Enum? ==> path[i].ptype.values < count
  }

  function Listing(parameter: Indexed, lists: seq<seq<string>>): Listed
    requires parameter.ptype.Enum? ==> parameter.ptype.values < |lists|
  {
    Parameter(parameter.name,
              match parameter.ptype
              case Enum(index) => ParameterType<seq<string>>.Enum(lists[index])
              case Basic(b) => ParameterType<seq<string>>.Basic(b))
  }

  function PathListing(path: seq<Indexed>, lists: seq<seq<string>>): (r: seq<Listed>)
    requires Resolvable(path, |lists|)
    ensures |r| == |path|
  {
    seq(|path|, i requires 0 <= i < |path| => Listing(path[i], lists))
  }

  predicate AllResolvable(paths: seq<seq<Indexed>>, count: nat) {
    forall i | 0 <= i < |paths| :: Resolvable(paths[i], count)
  }

  function PathsListing(paths: seq<seq<Indexed>>, lists: seq<seq<string>>): (r: seq<seq<Listed>>)
    requires AllResolvable(paths, |lists|)
    ensures |r| == |paths|
  {
    seq(|paths|, i requires 0 <= i < |paths| => PathListing(paths[i], lists))
  }

  // What was said before the tables grew is still said.
  lemma ListingIsStable(paths: seq<seq<Indexed>>, lists: seq<seq<string>>, more: seq<seq<string>>)
    requires lists <= more && AllResolvable(paths, |lists|)
    ensures AllResolvable(paths, |more|) && PathsListing(paths, more) == PathsListing(paths, lists)
  {
    forall i | 0 <= i < |paths|
      ensures Resolvable(paths[i], |more|) && PathListing(paths[i], more) == PathListing(paths[i], lists)
    {
      assert Resolvable(paths[i], |lists|);
      PathIsStable(paths[i], lists, more);
    }
  }

  lemma PathIsStable(path: seq<Indexed>, lists: seq<seq<string>>, more: seq<seq<string>>)
    requires lists <= more && Resolvable(path, |lists|)
    ensures Resolvable(path, |more|) && PathListing(path, more) == PathListing(path, lists)
  {}

  // Capping a part first makes no difference.
  lemma CapTwice<T>(a: seq<T>, b: seq<T>, c: seq<T>)
    ensures Cap(Cap(a + b) + c) == Cap(a + (b + c))
    ensures Cap(Cap(a)) == Cap(a)
  {
    assert a + (b + c) == (a + b) + c;
  }

  lemma CapNothing<T>(a: seq<T>)
    requires |a| <= MAX_OVERLOADS
    ensures Cap(a + []) == a
  {
    assert a + [] == a;
  }

  lemma CapFull<T>(a: seq<T>, b: seq<T>)
    requires |a| == MAX_OVERLOADS
    ensures Cap(a + b) == a
  {}

  // Collecting the first child and then the others collects them all.
  lemma NextChild(g: Graph, here: seq<seq<Listed>>, children: seq<Int32>, siblings: seq<string>, listed: seq<Listed>,
                  visited: set<int>)
    requires children != []
    ensures var after := if IsStep(g, children[0]) then
                           Cap(here + Overloads(g, children[0],
                                                listed + [StepParameter(g, siblings, children[0])], visited))
                         else here;
            Cap(after + ChildOverloads(g, children[1..], siblings, listed, visited))
            == Cap(here + ChildOverloads(g, children, siblings, listed, visited))
  {
    hide Overloads, StepParameter, Cap;
    var rest := ChildOverloads(g, children[1..], siblings, listed, visited);
    if IsStep(g, children[0]) {
      CapTwice(here, Overloads(g, children[0], listed + [StepParameter(g, siblings, children[0])], visited), rest);
    } else {
      assert [] + rest == rest;
    }
  }

  lemma NoChildren(g: Graph, siblings: seq<string>, listed: seq<Listed>, visited: set<int>)
    ensures ChildOverloads(g, [], siblings, listed, visited) == []
  {}

  // ----- the depth-first collection ------------------------------------------

  class Collector {
    const g: Graph
    const table: EnumTable
    var overloads: seq<seq<Indexed>>
    var visited: set<int>

    constructor (g: Graph, table: EnumTable)
      ensures this.g == g && this.table == table && overloads == [] && visited == {}
    {
      this.g := g;
      this.table := table;
      overloads := [];
      visited := {};
    }

    ghost predicate Valid()
      reads this, table
    {
      table.Valid() && |overloads| <= MAX_OVERLOADS && AllResolvable(overloads, |table.Lists()|)
    }

    ghost function Collected(): seq<seq<Listed>>
      reads this, table
      requires Valid()
    {
      PathsListing(overloads, table.Lists())
    }

    // The parameter for a child, its enum interned.
    method StepFor(child: int, literalEnum: nat, ghost siblings: seq<string>) returns (parameter: Indexed)
      requires Valid() && IsStep(g, child)
      requires g[child].Kind() == NODE_LITERAL ==>
                 literalEnum < |table.Lists()| && table.Lists()[literalEnum] == siblings
      modifies table
      ensures Valid() && old(table.Lists()) <= table.Lists()
      ensures Collected() == old(Collected())
      ensures parameter.ptype.Enum? ==> parameter.ptype.values < |table.Lists()|
      ensures Listing(parameter, table.Lists()) == StepParameter(g, siblings, child)
    {
      ghost var before := table.Lists();
      if g[child].Kind() == NODE_LITERAL {
        parameter := Parameter(g[child].name, ParameterType<nat>.Enum(literalEnum));
      } else if g[child].parser == "brigadier:bool" {
        var index := table.AddEnum(BOOLEANS);
        parameter := Parameter(g[child].name, ParameterType<nat>.Enum(index));
      } else {
        parameter := Parameter(g[child].name, ParameterType<nat>.Basic(BasicTypeOf(g[child].parser)));
      }
      ListingIsStable(overloads, before, table.Lists());
    }

    method LiteralValues(children: seq<Int32>) returns (values: seq<string>)
      ensures values == LiteralNames(g, children)
    {
      values := [];
      for i := 0 to |children|
        invariant values + LiteralNames(g, children[i..]) == LiteralNames(g, children)
      {
        if InGraph(g, children[i]) && g[children[i]].Kind() == NODE_LITERAL {
          values := values + [g[children[i]].name];
        }
      }
    }

    // The overloads that a node adds: the first of them up to the limit, in the
    // order of the enumeration; the visited nodes are as before.
    method Collect(n: int, path: seq<Indexed>)
      requires Valid() && Resolvable(path, |table.Lists()|)
      modifies this, table
      ensures Valid() && visited == old(visited) && old(table.Lists()) <= table.Lists()
      ensures Collected() == Cap(old(Collected())
                + Overloads(g, n, PathListing(path, old(table.Lists())), old(visited)))
      decreases AllNodes(g) - visited, 0
    {
      ghost var lists, before, listed := table.Lists(), Collected(), PathListing(path, table.Lists());
      if |overloads| >= MAX_OVERLOADS {
        CapFull(before, Overloads(g, n, listed, visited));
        return;
      }
      if |path| > MAX_PATH_DEPTH || !InGraph(g, n) || n in visited {
        assert before + [] == before;
        return;
      }
      assert n in AllNodes(g) - visited && n !in AllNodes(g) - (visited + {n});
      var node := g[n];
      ghost var entered := visited;
      visited := visited + {n};
      if node.redirect >= 0 {
        if node.redirect < |g| && node.redirect !in visited {
          Collect(node.redirect, path);
        } else {
          assert before + [] == before;
        }
        visited := visited - {n};
        assert visited == entered;
        return;
      }
      if node.Executable() {
        overloads := overloads + [path];
        assert Collected() == before + [listed];
      }
      CollectChildren(node.children, path);
      visited := visited - {n};
      assert visited == entered;
      CapTwice(before, if node.Executable() then [listed] else [],
               ChildOverloads(g, node.children, LiteralNames(g, node.children), listed, entered + {n}));
    }

    method CollectChild(child: int, path: seq<Indexed>, literalEnum: nat, ghost siblings: seq<string>)
      requires Valid() && Resolvable(path, |table.Lists()|) && IsStep(g, child)
      requires g[child].Kind() == NODE_LITERAL ==>
                 literalEnum < |table.Lists()| && table.Lists()[literalEnum] == siblings
      modifies this, table
      ensures Valid() && visited == old(visited) && old(table.Lists()) <= table.Lists()
      ensures Collected() == Cap(old(Collected())
                + Overloads(g, child, PathListing(path, old(table.Lists())) + [StepParameter(g, siblings, child)],
                            old(visited)))
      decreases AllNodes(g) - visited, 1
    {
      hide Overloads;
      ghost var lists := table.Lists();
      var parameter := StepFor(child, literalEnum, siblings);
      PathIsStable(path, lists, table.Lists());
      assert PathListing(path + [parameter], table.Lists())
          == PathListing(path, lists) + [StepParameter(g, siblings, child)];
      Collect(child, path + [parameter]);
    }

    // The literal siblings share one enum; without any there is none.
    method InternSiblings(siblings: seq<string>) returns (literalEnum: nat)
      requires Valid()
      modifies table
      ensures Valid() && old(table.Lists()) <= table.Lists() && Collected() == old(Collected())
      ensures siblings != [] ==> literalEnum < |table.Lists()| && table.Lists()[literalEnum] == siblings
    {
      literalEnum := 0;
      ghost var lists := table.Lists();
      if |siblings| != 0 {
        literalEnum := table.AddEnum(siblings);
        ListingIsStable(overloads, lists, table.Lists());
      }
    }

    method CollectChildren(children: seq<Int32>, path: seq<Indexed>)
      requires Valid() && Resolvable(path, |table.Lists()|)
      modifies this, table
      ensures Valid() && visited == old(visited) && old(table.Lists()) <= table.Lists()
      ensures Collected() == Cap(old(Collected())
                + ChildOverloads(g, children, LiteralNames(g, children), PathListing(path, old(table.Lists())),
                                 old(visited)))
      decreases AllNodes(g) - visited, 2
    {
      hide Overloads, StepParameter, PathListing, PathsListing, LiteralNames, Cap, ChildOverloads;
      ghost var lists, before, listed := table.Lists(), Collected(), PathListing(path, table.Lists());
      var siblings := LiteralValues(children);
      var literalEnum := InternSiblings(siblings);
      ghost var wanted := Cap(before + ChildOverloads(g, children, siblings, listed, visited));
      for i := 0 to |children|
        invariant Valid() && visited == old(visited) && lists <= table.Lists()
        invariant siblings != [] ==> literalEnum < |table.Lists()| && table.Lists()[literalEnum] == siblings
        invariant wanted == Cap(Collected() + ChildOverloads(g, children[i..], siblings, listed, visited))
      {
        NextChild(g, Collected(), children[i..], siblings, listed, visited);
        assert children[i..][1..] == children[i + 1..];
        var child := children[i];
        if !IsStep(g, child) { continue; }
        if g[child].Kind() == NODE_LITERAL { LiteralIsNamed(g, children, i); }
        PathIsStable(path, lists, table.Lists());
        CollectChild(child, path, literalEnum, siblings);
      }
      assert children[|children|..] == [];
      NoChildren(g, siblings, listed, visited);
      CapNothing(Collected());
    }

    static lemma {:induction false} LiteralIsNamed(g: Graph, children: seq<Int32>, i: nat)
      requires i < |children| && InGraph(g, children[i]) && g[children[i]].Kind() == NODE_LITERAL
      ensures LiteralNames(g, children) != []
    {
      if i > 0 { LiteralIsNamed(g, children[1..], i - 1); }
    }
  }

  // ----- the whole projection ----------------------------------------------

  // A command with its aliases' enum, by index or by list.
  datatype Command<E> = Command(name: string, overloads: seq<seq<Parameter<E>>>, aliases: Option<E>)

  type ListedCommand = Command<seq<string>>
  type IndexedCommand = Command<nat>

  const HELP: ListedCommand := Command("help", [[]], None)

  predicate AllInGraph(g: Graph, nodes: seq<int>) {
    forall i | 0 <= i < |nodes| :: InGraph(g, nodes[i])
  }

  function NamesOf(g: Graph, nodes: seq<int>): seq<string>
    requires AllInGraph(g, nodes)
  {
    seq(|nodes|, i requires 0 <= i < |nodes| && InGraph(g, nodes[i]) => g[nodes[i]].name)
  }

  predicate GroupInGraph(g: Graph, group: Group) {
    InGraph(g, group.owner) && AllInGraph(g, group.aliases)
  }

  function NonEmptyOverloads(overloads: seq<seq<Listed>>): seq<seq<Listed>> {
    if overloads == [] then [[]] else overloads
  }

  // The command that a group becomes.
  function CommandOf(g: Graph, group: Group): ListedCommand
    requires GroupInGraph(g, group)
  {
    Command(g[group.owner].name,
            NonEmptyOverloads(Cap(Overloads(g, group.owner, [], {}))),
            if group.aliases == [] then None else Some(NamesOf(g, group.aliases)))
  }

  lemma {:induction false} GroupsInGraph(g: Graph, children: seq<Int32>, k: nat)
    requires k <= |children|
    ensures forall i | 0 <= i < |GroupsAfter(g, children, k)| :: GroupInGraph(g, GroupsAfter(g, children, k)[i])
  {
    if k > 0 {
      GroupsInGraph(g, children, k - 1);
      if Eligible(g, children[k - 1]) {
        OwnerOwnsItself(g, children, children[k - 1]);
        hide Owner;
      }
    }
  }

  predicate AllGroupsInGraph(g: Graph, groups: seq<Group>) {
    forall i | 0 <= i < |groups| :: GroupInGraph(g, groups[i])
  }

  lemma RootGroupsInGraph(g: Graph, children: seq<Int32>)
    ensures AllGroupsInGraph(g, RootGroups(g, children))
  {
    GroupsInGraph(g, children, |children|);
  }

  function CommandsFor(g: Graph, groups: seq<Group>): (r: seq<ListedCommand>)
    requires AllGroupsInGraph(g, groups)
    ensures |r| == |groups|
  {
    seq(|groups|, i requires 0 <= i < |groups| => CommandOf(g, groups[i]))
  }

  // The commands for the root's literals, or a single help command.
  function CommandsOf(g: Graph, root: int): seq<ListedCommand>
    requires InGraph(g, root)
  {
    var children := g[root].children;
    RootGroupsInGraph(g, children);
    var groups := RootGroups(g, children);
    if groups == [] then [HELP]
    else CommandsFor(g, groups)
  }

  predicate CommandResolvable(command: IndexedCommand, count: nat) {
    AllResolvable(command.overloads, count) && (command.aliases.Some? ==> command.aliases.value < count)
  }

  function CommandListing(command: IndexedCommand, lists: seq<seq<string>>): ListedCommand
    requires CommandResolvable(command, |lists|)
  {
    Command(command.name, PathsListing(command.overloads, lists),
            if command.aliases.Some? then Some(lists[command.aliases.value]) else None)
  }

  lemma CommandIsStable(command: IndexedCommand, lists: seq<seq<string>>, more: seq<seq<string>>)
    requires lists <= more && CommandResolvable(command, |lists|)
    ensures CommandResolvable(command, |more|) && CommandListing(command, more) == CommandListing(command, lists)
  {
    ListingIsStable(command.overloads, lists, more);
  }

  predicate CommandsResolvable(commands: seq<IndexedCommand>, count: nat) {
    forall i | 0 <= i < |commands| :: CommandResolvable(commands[i], count)
  }

  function CommandsListing(commands: seq<IndexedCommand>, lists: seq<seq<string>>): seq<ListedCommand>
    requires CommandsResolvable(commands, |lists|)
  {
    seq(|commands|, i requires 0 <= i < |commands| => CommandListing(commands[i], lists))
  }

  lemma CommandsAreStable(commands: seq<IndexedCommand>, lists: seq<seq<string>>, more: seq<seq<string>>)
    requires lists <= more && CommandsResolvable(commands, |lists|)
    ensures CommandsResolvable(commands, |more|) && CommandsListing(commands, more) == CommandsListing(commands, lists)
  {
    hide CommandResolvable, CommandListing;
    forall i | 0 <= i < |commands|
      ensures CommandResolvable(commands[i], |more|)
      ensures CommandListing(commands[i], more) == CommandListing(commands[i], lists)
    {
      CommandIsStable(commands[i], lists, more);
    }
  }

  lemma {:induction false} FindInUpdated(groups: seq<Group>, i: nat, aliases: seq<int>, o: int)
    requires i < |groups|
    ensures FindGroup(groups[i := Group(groups[i].owner, aliases)], o) == FindGroup(groups, o)
  {
    var after := groups[i := Group(groups[i].owner, aliases)];
    if i == 0 {
      assert after[1..] == groups[1..];
    } else {
      assert after[1..] == groups[1..][i - 1 := Group(groups[i].owner, aliases)];
      FindInUpdated(groups[1..], i - 1, aliases, o);
    }
  }

  lemma {:induction false} FindInExtended(groups: seq<Group>, last: Group, o: int)
    ensures FindGroup(groups + [last], o)
            == if FindGroup(groups, o) == |groups| && o != last.owner then |groups| + 1 else FindGroup(groups, o)
  {
    if groups == [] {
      assert (groups + [last])[1..] == [];
    } else {
      assert (groups + [last])[1..] == groups[1..] + [last];
      FindInExtended(groups[1..], last, o);
    }
  }

  // Placing a child moves no group.
  lemma FindAfterAdd(groups: seq<Group>, owner: int, c: int, o: int)
    ensures FindGroup(AddToGroup(groups, owner, c), o)
            == if o != owner && FindGroup(groups, o) == |groups| then |AddToGroup(groups, owner, c)|
               else FindGroup(groups, o)
  {
    var i := FindGroup(groups, owner);
    var alias := if c != owner then [c] else [];
    if i < |groups| {
      FindInUpdated(groups, i, groups[i].aliases + alias, o);
    } else {
      FindInExtended(groups, Group(owner, alias), o);
    }
  }

  // A group while it is being built holds its aliases' names.
  datatype NamedGroup = NamedGroup(nodeIndex: int, aliases: seq<string>)

  ghost predicate NamesGroups(g: Graph, named: seq<NamedGroup>, groups: seq<Group>) {
    |named| == |groups| && forall i | 0 <= i < |named| ::
      GroupInGraph(g, groups[i]) && named[i] == NamedGroup(groups[i].owner, NamesOf(g, groups[i].aliases))
  }

  class Projection {
    const table: EnumTable
    var commands: seq<IndexedCommand>

    constructor ()
      ensures fresh(table) && table.Valid() && table.Lists() == [] && commands == []
    {
      table := new EnumTable();
      commands := [];
    }

    ghost predicate Valid()
      reads this, table
    {
      table.Valid() && CommandsResolvable(commands, |table.Lists()|)
    }

    ghost function Listing(): seq<ListedCommand>
      reads this, table
      requires Valid()
    {
      CommandsListing(commands, table.Lists())
    }

    static method GroupChildren(g: Graph, children: seq<Int32>) returns (named: seq<NamedGroup>)
      ensures NamesGroups(g, named, RootGroups(g, children))
    {
      var rootLiterals := RootLiterals(g, children);
      named := [];
      var groupIndexes: map<int, nat> := map[];
      for k := 0 to |children|
        invariant NamesGroups(g, named, GroupsAfter(g, children, k))
        invariant IndexesGroups(groupIndexes, GroupsAfter(g, children, k))
      {
        var childIndex := children[k];
        if !Eligible(g, childIndex) { continue; }
        var child := g[childIndex];
        var owner: int := childIndex;
        if child.redirect >= 0 {
          var redirected := ResolveJavaCommandRedirect(g, childIndex);
          if redirected in rootLiterals {
            owner := redirected;
          }
        }
        assert owner == Owner(g, children, childIndex);
        named, groupIndexes := PlaceChild(g, named, groupIndexes, owner, childIndex, GroupsAfter(g, children, k));
      }
    }

    static method RootLiterals(g: Graph, children: seq<Int32>) returns (literals: set<int>)
      ensures forall n :: n in literals <==> n in children && IsLiteral(g, n)
    {
      literals := {};
      for k := 0 to |children|
        invariant forall n :: n in literals <==> n in children[..k] && IsLiteral(g, n)
      {
        assert children[..k + 1] == children[..k] + [children[k]];
        if IsLiteral(g, children[k]) {
          literals := literals + {children[k] as int};
        }
      }
      assert children[..|children|] == children;
    }

    // The index of a group is found under its owner.
    ghost static predicate IndexesGroups(groupIndexes: map<int, nat>, groups: seq<Group>) {
      && (forall o :: o in groupIndexes <==> FindGroup(groups, o) < |groups|)
      && (forall o | o in groupIndexes :: groupIndexes[o] == FindGroup(groups, o))
    }

    static method PlaceChild(g: Graph, named: seq<NamedGroup>, groupIndexes: map<int, nat>, owner: int, child: int,
                             ghost groups: seq<Group>)
      returns (named': seq<NamedGroup>, groupIndexes': map<int, nat>)
      requires NamesGroups(g, named, groups) && InGraph(g, owner) && InGraph(g, child)
      requires IndexesGroups(groupIndexes, groups)
      ensures NamesGroups(g, named', AddToGroup(groups, owner, child))
      ensures IndexesGroups(groupIndexes', AddToGroup(groups, owner, child))
    {
      named', groupIndexes' := named, groupIndexes;
      ghost var after := AddToGroup(groups, owner, child);
      forall o
        ensures FindGroup(after, o)
                == if o != owner && FindGroup(groups, o) == |groups| then |after| else FindGroup(groups, o)
      {
        FindAfterAdd(groups, owner, child, o);
      }
      hide FindGroup;
      if owner !in groupIndexes' {
        groupIndexes' := groupIndexes'[owner := |named'|];
        named' := named' + [NamedGroup(owner, [])];
      }
      var groupIndex := groupIndexes'[owner];
      if child != owner {
        named' := named'[groupIndex := named'[groupIndex].(aliases := named'[groupIndex].aliases + [g[child].name])];
      }
      assert forall i | 0 <= i < |groups| && i != groupIndex :: after[i] == groups[i];
    }

    // The overloads of a command; a command always has at least one.
    method OverloadsFor(g: Graph, n: int) returns (overloads: seq<seq<Indexed>>)
      requires Valid()
      modifies table
      ensures table.Valid() && old(table.Lists()) <= table.Lists() && AllResolvable(overloads, |table.Lists()|)
      ensures PathsListing(overloads, table.Lists()) == NonEmptyOverloads(Cap(Overloads(g, n, [], {})))
    {
      hide Overloads;
      ghost var lists := table.Lists();
      var collector := new Collector(g, table);
      assert collector.Collected() == [];
      collector.Collect(n, []);
      overloads := collector.overloads;
      assert PathListing([], lists) == [];
      ghost var wanted := Overloads(g, n, [], {});
      assert [] + wanted == wanted;
      if |overloads| == 0 {
        overloads := [[]];
        assert PathsListing(overloads, table.Lists()) == [[]];
      }
    }

    // The enum of a command's aliases, if it has any.
    method AliasesFor(aliases: seq<string>) returns (enum: Option<nat>)
      requires table.Valid()
      modifies table
      ensures table.Valid() && old(table.Lists()) <= table.Lists()
      ensures enum.Some? <==> aliases != []
      ensures enum.Some? ==> enum.value < |table.Lists()| && table.Lists()[enum.value] == aliases
    {
      enum := None;
      if |aliases| != 0 {
        var index := table.AddEnum(aliases);
        enum := Some(index);
      }
    }

    method AddCommand(g: Graph, group: NamedGroup, ghost source: Group)
      requires Valid() && GroupInGraph(g, source)
      requires group == NamedGroup(source.owner, NamesOf(g, source.aliases))
      modifies this, table
      ensures Valid()
      ensures Listing() == old(Listing()) + [CommandOf(g, source)]
    {
      hide Overloads, PathsListing, AllResolvable, CommandsResolvable;
      ghost var lists, before := table.Lists(), commands;
      var overloads := OverloadsFor(g, group.nodeIndex);
      ghost var middle := table.Lists();
      var aliases := AliasesFor(group.aliases);
      ListingIsStable(overloads, middle, table.Lists());
      CommandsAreStable(before, lists, table.Lists());
      var command: IndexedCommand := Command(g[group.nodeIndex].name, overloads, aliases);
      assert CommandListing(command, table.Lists()) == CommandOf(g, source);
      commands := commands + [command];
      ListingExtended(before, command, table.Lists());
    }

    static lemma ListingExtended(before: seq<IndexedCommand>, command: IndexedCommand, lists: seq<seq<string>>)
      requires CommandsResolvable(before, |lists|) && CommandResolvable(command, |lists|)
      ensures CommandsResolvable(before + [command], |lists|)
      ensures CommandsListing(before + [command], lists)
              == CommandsListing(before, lists) + [CommandListing(command, lists)]
    {
      hide CommandResolvable, CommandListing;
    }

    // The commands of the packet are those of the graph: every root literal is
    // a command or an alias, and every command lists its first 256 overloads.
    method Build(g: Graph, rootIndex: int) returns (skipped: nat)
      requires Valid() && commands == []
      modifies this, table
      ensures Valid()
      ensures InGraph(g, rootIndex) ==> skipped == 0 && Listing() == CommandsOf(g, rootIndex)
      ensures !InGraph(g, rootIndex) ==> skipped == 1 && Listing() == []
    {
      hide CommandOf;
      if rootIndex < 0 || rootIndex >= |g| {
        return 1;
      }
      var children := g[rootIndex].children;
      var named := GroupChildren(g, children);
      RootGroupsInGraph(g, children);
      ghost var groups := RootGroups(g, children);
      ghost var all := CommandsFor(g, groups);
      assert Listing() == all[..0];
      for k := 0 to |named|
        invariant Valid() && Listing() == all[..k]
      {
        AddCommand(g, named[k], groups[k]);
        assert all[..k + 1] == all[..k] + [CommandOf(g, groups[k])];
      }
      assert all[..|named|] == all;
      if |commands| == 0 {
        commands := [Command("help", [[]], None)];
        HelpListing(table.Lists());
      }
      return 0;
    }

    lemma HelpListing(lists: seq<seq<string>>)
      ensures CommandsResolvable([Command("help", [[]], None)], |lists|)
      ensures CommandsListing([Command("help", [[]], None)], lists) == [HELP]
    {
      var help: IndexedCommand := Command("help", [[]], None);
      assert PathsListing(help.overloads, lists) == [[]];
    }
  }
}
