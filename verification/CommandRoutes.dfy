// The order and the multiplicity of overloads: each is listed once for every
// route through the graph, in preorder.
module CommandRoutes {
  import opened Widths
  import opened CommandGraph

  // A route gives, at each node, the position of the child that is followed; a
  // redirect has the single position 0.
  type Route = seq<nat>

  function Next(g: Graph, n: int, k: nat): Option<int>
    requires InGraph(g, n)
  {
    if g[n].redirect >= 0 then
      if k == 0 && InGraph(g, g[n].redirect) then Some(g[n].redirect) else None
    else if k < |g[n].children| && IsStep(g, g[n].children[k]) then Some(g[n].children[k])
    else None
  }

  // The route leads to an executable node and meets no node twice.
  predicate IsRoute(g: Graph, n: int, route: Route, visited: set<int>)
    decreases |route|
  {
    && InGraph(g, n) && n !in visited
    && if route == [] then g[n].redirect < 0 && g[n].Executable()
       else Next(g, n, route[0]).Some? && IsRoute(g, Next(g, n, route[0]).value, route[1..], visited + {n})
  }

  // The parameter of one hop; a redirect has none.
  function HopParameter(g: Graph, n: int, next: int): seq<Listed>
    requires InGraph(g, n) && (g[n].redirect < 0 ==> IsStep(g, next))
  {
    if g[n].redirect >= 0 then [] else [StepParameter(g, LiteralNames(g, g[n].children), next)]
  }

  function RouteParameters(g: Graph, n: int, route: Route): seq<Listed>
    decreases |route|
  {
    if route == [] || !InGraph(g, n) || Next(g, n, route[0]).None? then []
    else
      var next := Next(g, n, route[0]).value;
      HopParameter(g, n, next) + RouteParameters(g, next, route[1..])
  }

  function RouteNodes(g: Graph, n: int, route: Route): (walk: seq<int>)
    ensures |walk| > 0 && walk[0] == n
    decreases |route|
  {
    if route == [] || !InGraph(g, n) || Next(g, n, route[0]).None? then [n]
    else [n] + RouteNodes(g, Next(g, n, route[0]).value, route[1..])
  }

  // Preorder: a route comes before its extensions, and children in order.
  predicate Before(a: Route, b: Route) {
    b != [] && (a == [] || a[0] < b[0] || (a[0] == b[0] && Before(a[1..], b[1..])))
  }

  predicate Ascending(routes: seq<Route>) {
    forall i, j | 0 <= i < j < |routes| :: Before(routes[i], routes[j])
  }

  // ----- the routes, as the search meets them --------------------------------

  function Prefixed(k: nat, routes: seq<Route>): (r: seq<Route>)
    ensures |r| == |routes|
  {
    seq(|routes|, i requires 0 <= i < |routes| => [k] + routes[i])
  }

  function Routes(g: Graph, n: int, used: nat, visited: set<int>): seq<Route>
    decreases AllNodes(g) - visited, 1, 0
  {
    if used > MAX_PATH_DEPTH || !InGraph(g, n) || n in visited then []
    else
      var node := g[n];
      assert n in AllNodes(g) - visited && n !in AllNodes(g) - (visited + {n});
      if node.redirect >= 0 then
        if InGraph(g, node.redirect) && node.redirect !in visited + {n} then
          Prefixed(0, Routes(g, node.redirect, used, visited + {n}))
        else []
      else
        (if node.Executable() then [[]] else []) + ChildRoutes(g, n, 0, used, visited + {n})
  }

  function ChildRoutes(g: Graph, n: int, k: nat, used: nat, visited: set<int>): seq<Route>
    requires InGraph(g, n) && k <= |g[n].children|
    decreases AllNodes(g) - visited, 2, |g[n].children| - k
  {
    var children := g[n].children;
    if k == |children| then []
    else
      (if IsStep(g, children[k]) then Prefixed(k, Routes(g, children[k], used + 1, visited)) else [])
      + ChildRoutes(g, n, k + 1, used, visited)
  }

  // ----- each overload belongs to a route ------------------------------------

  // What the routes from a node say after a path.
  function Along(g: Graph, n: int, path: seq<Listed>, routes: seq<Route>): (r: seq<seq<Listed>>)
    ensures |r| == |routes|
  {
    seq(|routes|, i requires 0 <= i < |routes| => path + RouteParameters(g, n, routes[i]))
  }

  lemma AlongHop(g: Graph, n: int, k: nat, path: seq<Listed>, routes: seq<Route>)
    requires InGraph(g, n) && Next(g, n, k).Some?
    ensures var next := Next(g, n, k).value;
            Along(g, n, path, Prefixed(k, routes)) == Along(g, next, path + HopParameter(g, n, next), routes)
  {
    hide HopParameter;
    var next := Next(g, n, k).value;
    forall i | 0 <= i < |routes|
      ensures path + RouteParameters(g, n, [k] + routes[i])
              == (path + HopParameter(g, n, next)) + RouteParameters(g, next, routes[i])
    {
      assert ([k] + routes[i])[1..] == routes[i];
    }
  }

  lemma AlongConcat(g: Graph, n: int, path: seq<Listed>, a: seq<Route>, b: seq<Route>)
    ensures Along(g, n, path, a + b) == Along(g, n, path, a) + Along(g, n, path, b)
  {
    hide RouteParameters;
  }

  lemma AlongHere(g: Graph, n: int, path: seq<Listed>)
    ensures Along(g, n, path, [[]]) == [path] && Along(g, n, path, []) == []
  {
    assert path + [] == path;
  }

  lemma {:induction false} OverloadsFollowRoutes(g: Graph, n: int, path: seq<Listed>, visited: set<int>)
    ensures Overloads(g, n, path, visited) == Along(g, n, path, Routes(g, n, |path|, visited))
    decreases AllNodes(g) - visited, 1, 0
  {
    hide Along, LiteralNames, StepParameter, Prefixed;
    AlongHere(g, n, path);
    if |path| <= MAX_PATH_DEPTH && InGraph(g, n) && n !in visited {
      var node := g[n];
      assert n in AllNodes(g) - visited && n !in AllNodes(g) - (visited + {n});
      if node.redirect >= 0 {
        if InGraph(g, node.redirect) && node.redirect !in visited + {n} {
          OverloadsFollowRoutes(g, node.redirect, path, visited + {n});
          AlongHop(g, n, 0, path, Routes(g, node.redirect, |path|, visited + {n}));
          assert path + [] == path;
        }
      } else {
        ChildOverloadsFollowRoutes(g, n, 0, path, visited + {n});
        assert node.children[0..] == node.children;
        AlongConcat(g, n, path, if node.Executable() then [[]] else [], ChildRoutes(g, n, 0, |path|, visited + {n}));
      }
    }
  }

  lemma {:induction false} ChildOverloadsFollowRoutes(g: Graph, n: int, k: nat, path: seq<Listed>, visited: set<int>)
    requires InGraph(g, n) && g[n].redirect < 0 && k <= |g[n].children|
    ensures ChildOverloads(g, g[n].children[k..], LiteralNames(g, g[n].children), path, visited)
            == Along(g, n, path, ChildRoutes(g, n, k, |path|, visited))
    decreases AllNodes(g) - visited, 2, |g[n].children| - k
  {
    hide Along, LiteralNames, StepParameter, Prefixed;
    AlongHere(g, n, path);
    var children, siblings := g[n].children, LiteralNames(g, g[n].children);
    if k < |children| {
      assert children[k..][1..] == children[k + 1..];
      ChildOverloadsFollowRoutes(g, n, k + 1, path, visited);
      var here: seq<Route> := [];
      if IsStep(g, children[k]) {
        var step := path + [StepParameter(g, siblings, children[k])];
        OverloadsFollowRoutes(g, children[k], step, visited);
        here := Prefixed(k, Routes(g, children[k], |path| + 1, visited));
        AlongHop(g, n, k, path, Routes(g, children[k], |path| + 1, visited));
      }
      AlongConcat(g, n, path, here, ChildRoutes(g, n, k + 1, |path|, visited));
    }
  }

  // ----- the routes are all there ----------------------------------------------

  predicate Fits(g: Graph, n: int, route: Route, used: nat) {
    used + |RouteParameters(g, n, route)| <= MAX_PATH_DEPTH
  }

  lemma PrefixedMembers(k: nat, routes: seq<Route>, r: Route)
    ensures r in Prefixed(k, routes) <==> r != [] && r[0] == k && r[1..] in routes
  {
    if r != [] && r[0] == k && r[1..] in routes {
      var i :| 0 <= i < |routes| && routes[i] == r[1..];
      assert Prefixed(k, routes)[i] == r;
    }
    if r in Prefixed(k, routes) {
      var i :| 0 <= i < |routes| && Prefixed(k, routes)[i] == r;
      assert r[1..] == routes[i];
    }
  }

  lemma {:induction false} RoutesExact(g: Graph, n: int, used: nat, visited: set<int>, r: Route)
    ensures r in Routes(g, n, used, visited) <==> IsRoute(g, n, r, visited) && Fits(g, n, r, used)
    decreases AllNodes(g) - visited, 1, 0
  {
    hide LiteralNames, StepParameter, Prefixed;
    if used <= MAX_PATH_DEPTH && InGraph(g, n) && n !in visited {
      var node := g[n];
      assert n in AllNodes(g) - visited && n !in AllNodes(g) - (visited + {n});
      if node.redirect >= 0 {
        if InGraph(g, node.redirect) && node.redirect !in visited + {n} {
          PrefixedMembers(0, Routes(g, node.redirect, used, visited + {n}), r);
          if r != [] { RoutesExact(g, node.redirect, used, visited + {n}, r[1..]); }
        }
      } else {
        ChildRoutesExact(g, n, 0, used, visited + {n}, r);
      }
    }
  }

  lemma {:induction false} ChildRoutesExact(g: Graph, n: int, k: nat, used: nat, visited: set<int>, r: Route)
    requires InGraph(g, n) && g[n].redirect < 0 && k <= |g[n].children|
    ensures r in ChildRoutes(g, n, k, used, visited)
            <==> r != [] && k <= r[0] && Next(g, n, r[0]).Some?
                 && IsRoute(g, Next(g, n, r[0]).value, r[1..], visited)
                 && Fits(g, Next(g, n, r[0]).value, r[1..], used + 1)
    decreases AllNodes(g) - visited, 2, |g[n].children| - k
  {
    hide IsRoute, Fits, Prefixed;
    var children := g[n].children;
    if k < |children| {
      ChildRoutesExact(g, n, k + 1, used, visited, r);
      if IsStep(g, children[k]) {
        PrefixedMembers(k, Routes(g, children[k], used + 1, visited), r);
        if r != [] { RoutesExact(g, children[k], used + 1, visited, r[1..]); }
      }
    }
  }

  // ----- in preorder -------------------------------------------------------

  lemma PrefixedAscends(k: nat, routes: seq<Route>)
    requires Ascending(routes)
    ensures Ascending(Prefixed(k, routes))
  {
    var r := Prefixed(k, routes);
    forall i, j | 0 <= i < j < |r| ensures Before(r[i], r[j]) {
      assert r[i][1..] == routes[i] && r[j][1..] == routes[j];
    }
  }

  lemma ConcatAscends(a: seq<Route>, b: seq<Route>)
    requires Ascending(a) && Ascending(b)
    requires forall x, y | x in a && y in b :: Before(x, y)
    ensures Ascending(a + b)
  {
    forall i, j | 0 <= i < j < |a + b| ensures Before((a + b)[i], (a + b)[j]) {
      if i < |a| <= j { assert a[i] in a && b[j - |a|] in b; }
    }
  }

  lemma {:induction false} RoutesAscend(g: Graph, n: int, used: nat, visited: set<int>)
    ensures Ascending(Routes(g, n, used, visited))
    decreases AllNodes(g) - visited, 1, 0
  {
    hide Ascending, Prefixed;
    FewAscend();
    if used <= MAX_PATH_DEPTH && InGraph(g, n) && n !in visited {
      var node := g[n];
      assert n in AllNodes(g) - visited && n !in AllNodes(g) - (visited + {n});
      if node.redirect >= 0 {
        if InGraph(g, node.redirect) && node.redirect !in visited + {n} {
          RoutesAscend(g, node.redirect, used, visited + {n});
          PrefixedAscends(0, Routes(g, node.redirect, used, visited + {n}));
        }
      } else {
        ChildRoutesAscend(g, n, 0, used, visited + {n});
        ConcatAscends(if node.Executable() then [[]] else [], ChildRoutes(g, n, 0, used, visited + {n}));
      }
    }
  }

  lemma FewAscend()
    ensures Ascending([]) && Ascending([[]])
  {}

  lemma {:induction false} ChildRoutesAscend(g: Graph, n: int, k: nat, used: nat, visited: set<int>)
    requires InGraph(g, n) && k <= |g[n].children|
    ensures Ascending(ChildRoutes(g, n, k, used, visited))
    ensures forall r | r in ChildRoutes(g, n, k, used, visited) :: r != [] && k <= r[0]
    decreases AllNodes(g) - visited, 2, |g[n].children| - k
  {
    hide Ascending, Prefixed;
    FewAscend();
    var children := g[n].children;
    if k < |children| {
      ChildRoutesAscend(g, n, k + 1, used, visited);
      var here: seq<Route> := [];
      if IsStep(g, children[k]) {
        RoutesAscend(g, children[k], used + 1, visited);
        here := Prefixed(k, Routes(g, children[k], used + 1, visited));
        PrefixedAscends(k, Routes(g, children[k], used + 1, visited));
        forall r | r in here ensures r != [] && r[0] == k {
          PrefixedMembers(k, Routes(g, children[k], used + 1, visited), r);
        }
      }
      ConcatAscends(here, ChildRoutes(g, n, k + 1, used, visited));
    }
  }

  lemma {:induction false} BeforeIsStrict(a: Route, b: Route)
    ensures !(Before(a, b) && Before(b, a))
  {
    if a != [] && b != [] { BeforeIsStrict(a[1..], b[1..]); }
  }

  // An ascending list is determined by its members, so listing every route once
  // and in order leaves no choice.
  lemma {:induction false} AscendingIsUnique(a: seq<Route>, b: seq<Route>)
    requires Ascending(a) && Ascending(b) && forall r :: r in a <==> r in b
    ensures a == b
  {
    if a != [] || b != [] {
      SameFirst(a, b);
      RestMembers(a);
      RestMembers(b);
      assert forall r :: r in a[1..] <==> r in b[1..];
      AscendingIsUnique(a[1..], b[1..]);
      assert a == [a[0]] + a[1..] && b == [b[0]] + b[1..];
    }
  }

  lemma SameFirst(a: seq<Route>, b: seq<Route>)
    requires a != [] || b != []
    requires Ascending(a) && Ascending(b) && forall r :: r in a <==> r in b
    ensures a != [] && b != [] && a[0] == b[0]
  {
    assert (a != [] ==> a[0] in a) && (b != [] ==> b[0] in b);
    if a != [] && b != [] { BeforeIsStrict(a[0], b[0]); }
  }

  lemma RestMembers(a: seq<Route>)
    requires a != [] && Ascending(a)
    ensures forall r :: r in a[1..] <==> r in a && r != a[0]
  {
    BeforeIsStrict(a[0], a[0]);
    assert a == [a[0]] + a[1..];
  }

  // ----- the main result -----------------------------------------------------

  // A route is a simple walk, and its parameters are the walk's.
  lemma {:induction false} RouteIsWalk(g: Graph, n: int, route: Route, visited: set<int>)
    requires IsRoute(g, n, route, visited)
    ensures var walk := RouteNodes(g, n, route);
            && Accepting(g, walk, visited) && SimpleWalk(g, walk, {})
            && WalkParameters(g, walk) == RouteParameters(g, n, route)
    decreases |route|
  {
    hide LiteralNames, StepParameter, Accepting, SimpleWalk, WalkParameters;
    if route == [] {
      RouteEnds(g, n, visited);
    } else {
      var next := Next(g, n, route[0]).value;
      RouteIsWalk(g, next, route[1..], visited + {n});
      assert Follows(g, n, next);
      var walk := ExtendWalk(g, n, RouteNodes(g, next, route[1..]), visited);
    }
  }

  lemma RouteEnds(g: Graph, n: int, visited: set<int>)
    requires IsRoute(g, n, [], visited)
    ensures Accepting(g, [n], visited) && SimpleWalk(g, [n], {}) && WalkParameters(g, [n]) == []
  {}

  // The overloads of a node are the parameter lists of its routes with at most
  // 32 parameters: one for each route, in preorder.
  lemma OverloadsInOrder(g: Graph, n: int) returns (routes: seq<Route>)
    ensures Ascending(routes)
    ensures forall r :: r in routes <==> IsRoute(g, n, r, {}) && |RouteParameters(g, n, r)| <= 32
    ensures Overloads(g, n, [], {})
            == seq(|routes|, i requires 0 <= i < |routes| => RouteParameters(g, n, routes[i]))
  {
    hide Overloads, Routes, RouteParameters, IsRoute;
    routes := Routes(g, n, 0, {});
    RoutesAscend(g, n, 0, {});
    OverloadsFollowRoutes(g, n, [], {});
    forall r ensures r in routes <==> IsRoute(g, n, r, {}) && |RouteParameters(g, n, r)| <= MAX_PATH_DEPTH {
      RoutesExact(g, n, 0, {}, r);
    }
    forall i | 0 <= i < |routes| ensures [] + RouteParameters(g, n, routes[i]) == RouteParameters(g, n, routes[i]) {}
  }
}
