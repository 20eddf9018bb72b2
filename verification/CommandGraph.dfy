// The Brigadier command graph, which may contain cycles and redirects, and the
// overloads that a node stands for.
module CommandGraph {
  import opened Widths

  const NODE_LITERAL := 1
  const NODE_ARGUMENT := 2
  const MAX_OVERLOADS := 256
  const MAX_PATH_DEPTH := 32

  datatype Node = Node(flags: UInt8, children: seq<Int32>, redirect: Int32, name: string, parser: string) {
    // The two low flag bits.
    function Kind(): nat { flags % 4 }

    predicate Executable() { flags / 4 % 2 == 1 }
  }

  type Graph = seq<Node>

  predicate InGraph(g: Graph, n: int) {
    0 <= n < |g|
  }

  // ----- parameters --------------------------------------------------------

  datatype BasicType =
    | TextArgument | FloatArgument | IntArgument | TargetArgument | BlockPositionArgument
    | PositionArgument | MessageArgument | JsonArgument | OperatorArgument | FilepathArgument

  // An enum is given by its index in the packet's tables, or by its list.
  datatype ParameterType<E> = Enum(values: E) | Basic(basic: BasicType)

  datatype Parameter<E> = Parameter(name: string, ptype: ParameterType<E>)

  type Listed = Parameter<seq<string>>
  type Indexed = Parameter<nat>

  const BOOLEANS := ["false", "true"]

  function BasicTypeOf(parser: string): BasicType {
    if parser in ["brigadier:float", "brigadier:double", "minecraft:angle", "minecraft:rotation",
                   "minecraft:float_range"] then FloatArgument
    else if parser in ["brigadier:integer", "brigadier:long", "minecraft:int_range", "minecraft:time"] then IntArgument
    else if parser in ["minecraft:entity", "minecraft:game_profile"] then TargetArgument
    else if parser == "minecraft:block_pos" then BlockPositionArgument
    else if parser in ["minecraft:column_pos", "minecraft:vec2", "minecraft:vec3"] then PositionArgument
    else if parser == "minecraft:message" then MessageArgument
    else if parser in ["minecraft:component", "minecraft:style", "minecraft:nbt", "minecraft:nbt_tag",
                        "minecraft:nbt_path"] then JsonArgument
    else if parser == "minecraft:operation" then OperatorArgument
    else if parser in ["minecraft:function", "minecraft:resource_location"] then FilepathArgument
    else TextArgument
  }

  function ArgumentParameter(node: Node): Listed {
    Parameter(node.name, if node.parser == "brigadier:bool" then Enum(BOOLEANS) else Basic(BasicTypeOf(node.parser)))
  }

  // The names of the literal nodes among the children, in order.
  function LiteralNames(g: Graph, children: seq<Int32>): seq<string> {
    if children == [] then []
    else if InGraph(g, children[0]) && g[children[0]].Kind() == NODE_LITERAL then
      [g[children[0]].name] + LiteralNames(g, children[1..])
    else LiteralNames(g, children[1..])
  }

  // Only literals and arguments become parameters.
  predicate IsStep(g: Graph, child: int) {
    InGraph(g, child) && (g[child].Kind() == NODE_LITERAL || g[child].Kind() == NODE_ARGUMENT)
  }

  // The parameter for a child; a literal's enum lists its literal siblings.
  function StepParameter(g: Graph, siblings: seq<string>, child: int): Listed
    requires IsStep(g, child)
  {
    if g[child].Kind() == NODE_LITERAL then Parameter(g[child].name, Enum(siblings))
    else ArgumentParameter(g[child])
  }

  // ----- the enumeration ---------------------------------------------------

  function AllNodes(g: Graph): set<int> {
    set n | 0 <= n < |g| && InGraph(g, n)
  }

  // The overloads of a node in preorder: paths that visit no node twice, that
  // follow a redirect without a parameter, and that have at most 32 parameters.
  function Overloads(g: Graph, n: int, path: seq<Listed>, visited: set<int>): seq<seq<Listed>>
    decreases AllNodes(g) - visited, 1, 0
  {
    if |path| > MAX_PATH_DEPTH || !InGraph(g, n) || n in visited then []
    else
      var node := g[n];
      assert n in AllNodes(g) - visited && n !in AllNodes(g) - (visited + {n});
      if node.redirect >= 0 then
        if InGraph(g, node.redirect) && node.redirect !in visited + {n} then
          Overloads(g, node.redirect, path, visited + {n})
        else []
      else
        (if node.Executable() then [path] else [])
        + ChildOverloads(g, node.children, LiteralNames(g, node.children), path, visited + {n})
  }

  function ChildOverloads(g: Graph, children: seq<Int32>, siblings: seq<string>, path: seq<Listed>,
                          visited: set<int>): seq<seq<Listed>>
    decreases AllNodes(g) - visited, 2, |children|
  {
    if children == [] then []
    else
      (if IsStep(g, children[0]) then
         Overloads(g, children[0], path + [StepParameter(g, siblings, children[0])], visited)
       else [])
      + ChildOverloads(g, children[1..], siblings, path, visited)
  }

  function Cap<T>(s: seq<T>): seq<T> {
    if |s| <= MAX_OVERLOADS then s else s[..MAX_OVERLOADS]
  }

  // ----- overloads are exactly the simple paths ------------------------------

  // One step of a path: the redirect if there is one, else a child.
  predicate Follows(g: Graph, a: int, b: int)
    requires InGraph(g, a)
  {
    if g[a].redirect >= 0 then b == g[a].redirect && InGraph(g, b)
    else b in g[a].children && IsStep(g, b)
  }

  // A walk that meets no node twice and none of the visited ones.
  predicate SimpleWalk(g: Graph, walk: seq<int>, visited: set<int>) {
    && |walk| > 0
    && (forall i | 0 <= i < |walk| :: InGraph(g, walk[i]) && walk[i] !in visited)
    && (forall i, j | 0 <= i < j < |walk| :: walk[i] != walk[j])
    && (forall i | 0 <= i < |walk| - 1 :: Follows(g, walk[i], walk[i + 1]))
  }

  // The walk ends at an executable node that is not a redirect.
  predicate Accepting(g: Graph, walk: seq<int>, visited: set<int>) {
    && SimpleWalk(g, walk, visited)
    && g[walk[|walk| - 1]].redirect < 0
    && g[walk[|walk| - 1]].Executable()
  }

  // The parameters that a walk collects.
  function WalkParameters(g: Graph, walk: seq<int>): seq<Listed>
    requires SimpleWalk(g, walk, {})
  {
    if |walk| == 1 then []
    else
      assert Follows(g, walk[0], walk[1]);
      assert SimpleWalk(g, walk[1..], {}) by { TailWalk(g, walk, {}); }
      (if g[walk[0]].redirect >= 0 then []
       else [StepParameter(g, LiteralNames(g, g[walk[0]].children), walk[1])])
      + WalkParameters(g, walk[1..])
  }

  lemma TailWalk(g: Graph, walk: seq<int>, visited: set<int>)
    requires SimpleWalk(g, walk, visited) && |walk| > 1
    ensures SimpleWalk(g, walk[1..], visited + {walk[0]}) && SimpleWalk(g, walk[1..], {})
  {
    forall i | 0 <= i < |walk[1..]| - 1 ensures Follows(g, walk[1..][i], walk[1..][i + 1]) {
      assert Follows(g, walk[i + 1], walk[i + 2]);
    }
  }

  lemma SimpleAnywhere(g: Graph, walk: seq<int>, visited: set<int>)
    requires SimpleWalk(g, walk, visited)
    ensures SimpleWalk(g, walk, {})
  {}

  // An overload that some accepting walk from n stands for.
  ghost predicate Realised(g: Graph, n: int, path: seq<Listed>, visited: set<int>, o: seq<Listed>) {
    exists walk :: Accepting(g, walk, visited) && walk[0] == n
                   && SimpleWalk(g, walk, {}) && o == path + WalkParameters(g, walk) && |o| <= MAX_PATH_DEPTH
  }

  lemma ExtendWalk(g: Graph, n: int, rest: seq<int>, visited: set<int>) returns (walk: seq<int>)
    requires InGraph(g, n) && n !in visited && Accepting(g, rest, visited + {n}) && Follows(g, n, rest[0])
    ensures walk == [n] + rest && Accepting(g, walk, visited) && SimpleWalk(g, walk, {}) && SimpleWalk(g, rest, {})
    ensures WalkParameters(g, walk)
            == (if g[n].redirect >= 0 then [] else [StepParameter(g, LiteralNames(g, g[n].children), rest[0])])
               + WalkParameters(g, rest)
  {
    walk := [n] + rest;
    SimpleAnywhere(g, rest, visited + {n});
    forall i | 0 <= i < |walk| - 1 ensures Follows(g, walk[i], walk[i + 1]) {
      if i > 0 { assert Follows(g, rest[i - 1], rest[i]); }
    }
    assert walk[1..] == rest;
  }

  // What is realised after one step is realised from the node itself.
  lemma RealisedThroughStep(g: Graph, n: int, next: int, path: seq<Listed>, step: seq<Listed>, visited: set<int>,
                            o: seq<Listed>)
    requires InGraph(g, n) && n !in visited && Follows(g, n, next)
    requires step == if g[n].redirect >= 0 then [] else [StepParameter(g, LiteralNames(g, g[n].children), next)]
    requires Realised(g, next, path + step, visited + {n}, o)
    ensures Realised(g, n, path, visited, o)
  {
    hide StepParameter, LiteralNames;
    var rest :| Accepting(g, rest, visited + {n}) && rest[0] == next
                && SimpleWalk(g, rest, {}) && o == path + step + WalkParameters(g, rest) && |o| <= MAX_PATH_DEPTH;
    var walk := ExtendWalk(g, n, rest, visited);
    assert o == path + WalkParameters(g, walk);
  }

  lemma {:induction false} OverloadsAreRealised(g: Graph, n: int, path: seq<Listed>, visited: set<int>, o: seq<Listed>)
    requires o in Overloads(g, n, path, visited)
    ensures Realised(g, n, path, visited, o)
    decreases AllNodes(g) - visited, 1, 0
  {
    hide Realised, StepParameter, LiteralNames;
    var node := g[n];
    assert n in AllNodes(g) - visited && n !in AllNodes(g) - (visited + {n});
    if node.redirect >= 0 {
      OverloadsAreRealised(g, node.redirect, path, visited + {n}, o);
      assert path + [] == path;
      RealisedThroughStep(g, n, node.redirect, path, [], visited, o);
    } else if node.Executable() && o == path {
      RealisedHere(g, n, path, visited);
    } else {
      ChildOverloadsAreRealised(g, n, 0, path, visited, o);
    }
  }

  lemma RealisedHere(g: Graph, n: int, path: seq<Listed>, visited: set<int>)
    requires InGraph(g, n) && n !in visited && g[n].redirect < 0 && g[n].Executable() && |path| <= MAX_PATH_DEPTH
    ensures Realised(g, n, path, visited, path)
  {
    var walk := [n];
    assert Accepting(g, walk, visited) && SimpleWalk(g, walk, {}) && WalkParameters(g, walk) == [];
    assert path == path + [];
  }

  lemma {:induction false} ChildOverloadsAreRealised(g: Graph, n: int, k: nat, path: seq<Listed>, visited: set<int>,
                                                     o: seq<Listed>)
    requires InGraph(g, n) && n !in visited && g[n].redirect < 0 && k <= |g[n].children|
    requires o in ChildOverloads(g, g[n].children[k..], LiteralNames(g, g[n].children), path, visited + {n})
    ensures Realised(g, n, path, visited, o)
    decreases AllNodes(g) - visited, 0, |g[n].children| - k
  {
    hide Realised, StepParameter, LiteralNames;
    assert n in AllNodes(g) - visited && n !in AllNodes(g) - (visited + {n});
    var children, siblings := g[n].children, LiteralNames(g, g[n].children);
    assert children[k..][1..] == children[k + 1..];
    var child := children[k];
    if o in ChildOverloads(g, children[k + 1..], siblings, path, visited + {n}) {
      ChildOverloadsAreRealised(g, n, k + 1, path, visited, o);
    } else {
      var step := [StepParameter(g, siblings, child)];
      OverloadsAreRealised(g, child, path + step, visited + {n}, o);
      RealisedThroughStep(g, n, child, path, step, visited, o);
    }
  }

  lemma {:induction false} ChildOverloadsInclude(g: Graph, children: seq<Int32>, siblings: seq<string>,
                                                 path: seq<Listed>, visited: set<int>, child: Int32, o: seq<Listed>)
    requires child in children && IsStep(g, child)
    requires o in Overloads(g, child, path + [StepParameter(g, siblings, child)], visited)
    ensures o in ChildOverloads(g, children, siblings, path, visited)
  {
    if children[0] != child {
      assert child in children[1..];
      ChildOverloadsInclude(g, children[1..], siblings, path, visited, child, o);
    }
  }

  lemma {:induction false} WalksAreListed(g: Graph, walk: seq<int>, path: seq<Listed>, visited: set<int>)
    requires Accepting(g, walk, visited) && SimpleWalk(g, walk, {})
    requires |path + WalkParameters(g, walk)| <= MAX_PATH_DEPTH
    ensures path + WalkParameters(g, walk) in Overloads(g, walk[0], path, visited)
    decreases |walk|
  {
    var n := walk[0];
    var node := g[n];
    if |walk| == 1 {
      assert path + WalkParameters(g, walk) == path;
    } else {
      var rest := walk[1..];
      assert Follows(g, walk[0], walk[1]);
      TailWalk(g, walk, visited);
      assert rest[|rest| - 1] == walk[|walk| - 1];
      if node.redirect >= 0 {
        assert WalkParameters(g, walk) == WalkParameters(g, rest);
        WalksAreListed(g, rest, path, visited + {n});
      } else {
        var siblings := LiteralNames(g, node.children);
        var parameter := StepParameter(g, siblings, walk[1]);
        assert path + WalkParameters(g, walk) == path + [parameter] + WalkParameters(g, rest);
        WalksAreListed(g, rest, path + [parameter], visited + {n});
        ChildOverloadsInclude(g, node.children, siblings, path, visited + {n}, walk[1], path + WalkParameters(g, walk));
      }
    }
  }

  // The enumeration lists exactly the parameter lists of simple walks from the
  // node that end at an executable node and have at most 32 parameters.
  lemma OverloadsExact(g: Graph, n: int, o: seq<Listed>)
    ensures o in Overloads(g, n, [], {}) <==> Realised(g, n, [], {}, o)
  {
    if o in Overloads(g, n, [], {}) {
      OverloadsAreRealised(g, n, [], {}, o);
    }
    if Realised(g, n, [], {}, o) {
      var walk :| Accepting(g, walk, {}) && walk[0] == n
                  && SimpleWalk(g, walk, {}) && o == [] + WalkParameters(g, walk) && |o| <= MAX_PATH_DEPTH;
      WalksAreListed(g, walk, [], {});
    }
  }
}
