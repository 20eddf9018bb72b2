// What the parameters of an overload say, in terms of the nodes' own flags,
// names and parsers.
module CommandParameters {
  import opened Widths
  import opened CommandGraph
  import opened CommandRoutes

  // ----- literals ----------------------------------------------------------

  predicate IsLiteralNode(g: Graph, c: int) {
    0 <= c < |g| && g[c].flags % 4 == 1
  }

  predicate IsArgumentNode(g: Graph, c: int) {
    0 <= c < |g| && g[c].flags % 4 == 2
  }

  predicate Ascends(positions: seq<nat>) {
    forall i, j | 0 <= i < j < |positions| :: positions[i] < positions[j]
  }

  // The positions are those of the literals among the children, in order.
  ghost predicate LiteralPositions(g: Graph, children: seq<Int32>, positions: seq<nat>) {
    && Ascends(positions)
    && forall k: nat :: k in positions <==> k < |children| && IsLiteralNode(g, children[k])
  }

  // The names are those of the literals among the children, in order.
  ghost predicate NamesLiterals(g: Graph, children: seq<Int32>, names: seq<string>) {
    exists positions :: LiteralPositions(g, children, positions) && NamesAt(g, children, positions, names)
  }

  predicate NamesAt(g: Graph, children: seq<Int32>, positions: seq<nat>, names: seq<string>) {
    && |names| == |positions|
    && forall i | 0 <= i < |positions| ::
         positions[i] < |children| && IsLiteralNode(g, children[positions[i]])
         && names[i] == g[children[positions[i]]].name
  }

  lemma {:induction false} LiteralNamesAt(g: Graph, children: seq<Int32>) returns (positions: seq<nat>)
    ensures LiteralPositions(g, children, positions) && NamesAt(g, children, positions, LiteralNames(g, children))
  {
    positions := [];
    if children != [] {
      hide LiteralPositions, NamesAt, Shifted;
      var rest := LiteralNamesAt(g, children[1..]);
      Shift(g, children, rest, LiteralNames(g, children[1..]));
      positions := Shifted(rest);
      if IsLiteralNode(g, children[0]) {
        PutFirst(g, children, positions, LiteralNames(g, children[1..]));
        positions := [0] + positions;
      } else {
        NotFirst(g, children, positions);
      }
    } else {
      NoPositions(g);
    }
  }

  lemma NoPositions(g: Graph)
    ensures LiteralPositions(g, [], []) && NamesAt(g, [], [], [])
  {}

  function Shifted(positions: seq<nat>): (r: seq<nat>)
    ensures |r| == |positions|
  {
    seq(|positions|, i requires 0 <= i < |positions| => positions[i] + 1)
  }

  // Positions in the rest of the list, seen from its start.
  ghost predicate LaterPositions(g: Graph, children: seq<Int32>, positions: seq<nat>) {
    && Ascends(positions)
    && forall k: nat :: k in positions <==> 0 < k < |children| && IsLiteralNode(g, children[k])
  }

  lemma Shift(g: Graph, children: seq<Int32>, rest: seq<nat>, names: seq<string>)
    requires children != [] && LiteralPositions(g, children[1..], rest) && NamesAt(g, children[1..], rest, names)
    ensures LaterPositions(g, children, Shifted(rest)) && NamesAt(g, children, Shifted(rest), names)
  {
    var later := Shifted(rest);
    forall k: nat ensures k in later <==> 0 < k < |children| && IsLiteralNode(g, children[k]) {
      if k in later {
        var i :| 0 <= i < |later| && later[i] == k;
        assert rest[i] in rest;
      }
      if 0 < k < |children| && IsLiteralNode(g, children[k]) {
        assert k - 1 in rest;
        var i :| 0 <= i < |rest| && rest[i] == k - 1;
        assert later[i] == k;
      }
    }
  }

  lemma PutFirst(g: Graph, children: seq<Int32>, later: seq<nat>, names: seq<string>)
    requires children != [] && IsLiteralNode(g, children[0])
    requires LaterPositions(g, children, later) && NamesAt(g, children, later, names)
    ensures LiteralPositions(g, children, [0] + later)
    ensures NamesAt(g, children, [0] + later, [g[children[0]].name] + names)
  {
    var positions := [0] + later;
    assert forall i | 0 <= i < |later| :: later[i] in later && later[i] > 0;
    assert forall k :: k in positions <==> k == 0 || k in later;
  }

  lemma NotFirst(g: Graph, children: seq<Int32>, later: seq<nat>)
    requires children != [] && !IsLiteralNode(g, children[0]) && LaterPositions(g, children, later)
    ensures LiteralPositions(g, children, later)
  {}

  lemma LiteralNamesExact(g: Graph, children: seq<Int32>)
    ensures NamesLiterals(g, children, LiteralNames(g, children))
  {
    var positions := LiteralNamesAt(g, children);
  }

  // ----- one parameter -----------------------------------------------------

  const FLOATS := {"brigadier:float", "brigadier:double", "minecraft:angle", "minecraft:rotation",
                   "minecraft:float_range"}
  const INTEGERS := {"brigadier:integer", "brigadier:long", "minecraft:int_range", "minecraft:time"}
  const TARGETS := {"minecraft:entity", "minecraft:game_profile"}
  const POSITIONS := {"minecraft:column_pos", "minecraft:vec2", "minecraft:vec3"}
  const JSONS := {"minecraft:component", "minecraft:style", "minecraft:nbt", "minecraft:nbt_tag",
                  "minecraft:nbt_path"}
  const FILEPATHS := {"minecraft:function", "minecraft:resource_location"}

  // The parsers of each basic type.
  predicate Parses(parser: string, basic: BasicType) {
    match basic
    case FloatArgument => parser in FLOATS
    case IntArgument => parser in INTEGERS
    case TargetArgument => parser in TARGETS
    case BlockPositionArgument => parser == "minecraft:block_pos"
    case PositionArgument => parser in POSITIONS
    case MessageArgument => parser == "minecraft:message"
    case JsonArgument => parser in JSONS
    case OperatorArgument => parser == "minecraft:operation"
    case FilepathArgument => parser in FILEPATHS
    case TextArgument =>
      parser !in FLOATS + INTEGERS + TARGETS + POSITIONS + JSONS + FILEPATHS
      && parser !in {"minecraft:block_pos", "minecraft:message", "minecraft:operation"}
  }

  lemma BasicTypesExact(parser: string)
    ensures Parses(parser, BasicTypeOf(parser))
  {}

  // The parameter of a step from a node to its child: named like the child; for
  // a literal the enum of the literal children, for a boolean that of the two
  // values, and otherwise the parser's type.
  ghost predicate ParameterOf(g: Graph, n: int, child: int, parameter: Listed)
    requires 0 <= n < |g|
  {
    && (IsLiteralNode(g, child) || IsArgumentNode(g, child))
    && parameter.name == g[child].name
    && if IsLiteralNode(g, child) then
         parameter.ptype.Enum? && NamesLiterals(g, g[n].children, parameter.ptype.values)
       else if g[child].parser == "brigadier:bool" then
         parameter.ptype == Enum(["false", "true"])
       else parameter.ptype.Basic? && Parses(g[child].parser, parameter.ptype.basic)
  }

  lemma StepParameterExact(g: Graph, n: int, child: int)
    requires 0 <= n < |g| && IsStep(g, child)
    ensures ParameterOf(g, n, child, StepParameter(g, LiteralNames(g, g[n].children), child))
  {
    LiteralNamesExact(g, g[n].children);
    hide NamesLiterals, LiteralNames;
    BasicTypesExact(g[child].parser);
    hide BasicTypeOf, Parses;
  }

  // ----- the parameters of an overload -----------------------------------------

  function Concat(parts: seq<seq<Listed>>): seq<Listed> {
    if parts == [] then [] else parts[0] + Concat(parts[1..])
  }

  // Each hop's parameters: none for a redirect, and one for a child.
  ghost predicate PartsOf(g: Graph, walk: seq<int>, parts: seq<seq<Listed>>) {
    && |parts| == |walk| - 1
    && forall i | 0 <= i < |parts| :: PartOf(g, walk[i], walk[i + 1], parts[i])
  }

  ghost predicate PartOf(g: Graph, n: int, next: int, part: seq<Listed>) {
    && 0 <= n < |g|
    && if g[n].redirect >= 0 then part == [] else |part| == 1 && ParameterOf(g, n, next, part[0])
  }

  // The parameters of an overload are those of its route's hops, in order: one
  // for each child that the route enters and none for its redirects.
  lemma {:induction false} OverloadParameters(g: Graph, n: int, route: Route, visited: set<int>)
    returns (parts: seq<seq<Listed>>)
    requires IsRoute(g, n, route, visited)
    ensures PartsOf(g, RouteNodes(g, n, route), parts) && RouteParameters(g, n, route) == Concat(parts)
    decreases |route|
  {
    parts := [];
    if route != [] {
      hide PartOf, LiteralNames, StepParameter;
      var next := Next(g, n, route[0]).value;
      var rest := OverloadParameters(g, next, route[1..], visited + {n});
      HopPart(g, n, next);
      parts := [HopParameter(g, n, next)] + rest;
      assert parts[1..] == rest;
      assert RouteNodes(g, n, route) == [n] + RouteNodes(g, next, route[1..]);
    }
  }

  lemma HopPart(g: Graph, n: int, next: int)
    requires InGraph(g, n) && (g[n].redirect < 0 ==> IsStep(g, next))
    ensures PartOf(g, n, next, HopParameter(g, n, next))
  {
    hide ParameterOf, LiteralNames, StepParameter;
    if g[n].redirect < 0 { StepParameterExact(g, n, next); }
  }

  // ----- walks -------------------------------------------------------------

  // Accepting walks in terms of the nodes: every hop is the node's redirect, or
  // one of its children that is a literal or an argument; the end is executable
  // and no redirect; no node is met twice.
  lemma AcceptingExact(g: Graph, walk: seq<int>)
    ensures Accepting(g, walk, {})
            <==> && |walk| > 0
                 && (forall i | 0 <= i < |walk| :: 0 <= walk[i] < |g|)
                 && (forall i, j | 0 <= i < j < |walk| :: walk[i] != walk[j])
                 && (forall i | 0 <= i < |walk| - 1 ::
                       if g[walk[i]].redirect >= 0 then walk[i + 1] == g[walk[i]].redirect
                       else walk[i + 1] in g[walk[i]].children
                            && (IsLiteralNode(g, walk[i + 1]) || IsArgumentNode(g, walk[i + 1])))
                 && g[walk[|walk| - 1]].redirect < 0 && g[walk[|walk| - 1]].flags / 4 % 2 == 1
  {
    if Accepting(g, walk, {}) {
      forall i | 0 <= i < |walk| - 1
        ensures if g[walk[i]].redirect >= 0 then walk[i + 1] == g[walk[i]].redirect
                else walk[i + 1] in g[walk[i]].children
                     && (IsLiteralNode(g, walk[i + 1]) || IsArgumentNode(g, walk[i + 1]))
      {
        assert Follows(g, walk[i], walk[i + 1]);
      }
    }
  }
}
