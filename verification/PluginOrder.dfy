/** Ordering plugins by their dependencies: a depth-first search that reports missing plugins and cycles. */
module PluginOrder {
  import opened Prelude
  import StableSort

  datatype Plugin = Plugin(name: string, dependsOn: Option<seq<string>>)

  datatype Error = Cycle(path: seq<string>) | Missing(plugin: string, dependency: string)

  datatype Result = Ordered(plugins: seq<Plugin>) | Failed(error: Error)

  function Dependencies(p: Plugin): seq<string> {
    if p.dependsOn.Some? then p.dependsOn.value else []
  }

  function Names(plugins: seq<Plugin>): set<string> {
    set p | p in plugins :: p.name
  }

  /** {plugin.name: plugin for plugin in plugins}: of equal names the last one counts. */
  function PluginMap(plugins: seq<Plugin>): (m: map<string, Plugin>)
    ensures m.Keys == Names(plugins)
    ensures forall name :: name in m ==> m[name].name == name && m[name] in plugins
  {
    if plugins == [] then map[]
    else
      var n := |plugins| - 1;
      assert plugins == plugins[..n] + [plugins[n]];
      NamesOfAppend(plugins[..n], plugins[n]);
      PluginMap(plugins[..n])[plugins[n].name := plugins[n]]
  }

  ghost predicate DistinctNames(plugins: seq<Plugin>) {
    forall i, j :: 0 <= i < j < |plugins| ==> plugins[i].name != plugins[j].name
  }

  /** A plugin named a lists plugin b, and b exists. */
  ghost predicate Edge(g: seq<Plugin>, a: string, b: string) {
    (exists p :: p in g && p.name == a && b in Dependencies(p)) && b in Names(g)
  }

  ghost predicate IsWalk(g: seq<Plugin>, path: seq<string>) {
    forall i :: 0 <= i < |path| - 1 ==> Edge(g, path[i], path[i + 1])
  }

  /** A walk of at least one step that ends where it starts. */
  ghost predicate IsCycle(g: seq<Plugin>, path: seq<string>) {
    |path| >= 2 && path[0] == path[|path| - 1] && IsWalk(g, path)
  }

  ghost predicate Acyclic(g: seq<Plugin>) {
    forall path :: !IsCycle(g, path)
  }

  ghost predicate AllPresent(g: seq<Plugin>) {
    forall p, b :: p in g && b in Dependencies(p) ==> b in Names(g)
  }

  /** The error names a dependency that is really missing, or a real cycle. */
  ghost predicate IsGenuine(g: seq<Plugin>, e: Error) {
    match e
    case Missing(a, b) => (exists p :: p in g && p.name == a && b in Dependencies(p)) && b !in Names(g)
    case Cycle(path) => IsCycle(g, path)
  }

  /** Every plugin of the list stands after all of its dependencies. */
  ghost predicate AfterDependencies(order: seq<Plugin>) {
    forall i, d :: 0 <= i < |order| && d in Dependencies(order[i]) ==> d in Names(order[..i])
  }

  /** Of plugins with equal names only the first and the last can be chosen. */
  ghost predicate IsChoice(g: seq<Plugin>, p: Plugin) {
    && p in g
    && (|| p == PluginMap(g)[p.name]
        || exists i :: 0 <= i < |g| && g[i] == p && p.name !in Names(g[..i]))
  }

  // ----- which of several plugins with one name is chosen -----

  /** The visits from p, which stop at the names in stops, come along the path. */
  ghost predicate IsSearchPath(m: map<string, Plugin>, stops: set<string>, p: Plugin, path: seq<string>) {
    && path != [] && path[0] in Dependencies(p)
    && (forall k :: 0 <= k < |path| ==> path[k] in m && path[k] !in stops)
    && forall k :: 0 <= k < |path| - 1 ==> path[k + 1] in Dependencies(m[path[k]])
  }

  ghost predicate IsFound(m: map<string, Plugin>, stops: set<string>, p: Plugin, name: string) {
    exists path :: IsSearchPath(m, stops, p, path) && path[|path| - 1] == name
  }

  /** What a visit of p by the loop adds: p itself, unless its name was seen, and the last plugin of every new name that
      the search finds from it. */
  ghost function WithVisit(m: map<string, Plugin>, seen: map<string, Plugin>, p: Plugin): map<string, Plugin> {
    if p.name in seen then seen
    else seen + (map name | name in m && IsFound(m, seen.Keys + {p.name}, p, name) :: m[name]) + map[p.name := p]
  }

  /** The chosen plugins after the first i visits of the loop. */
  ghost function ChosenUpTo(g: seq<Plugin>, i: nat): map<string, Plugin>
    requires i <= |g|
  {
    if i == 0 then map[] else WithVisit(PluginMap(g), ChosenUpTo(g, i - 1), g[i - 1])
  }

  ghost function Chosen(g: seq<Plugin>): map<string, Plugin> {
    ChosenUpTo(g, |g|)
  }

  ghost predicate ChosenEdge(c: map<string, Plugin>, a: string, b: string) {
    a in c && b in Dependencies(c[a])
  }

  ghost predicate IsChosenWalk(c: map<string, Plugin>, path: seq<string>) {
    forall i :: 0 <= i < |path| - 1 ==> ChosenEdge(c, path[i], path[i + 1])
  }

  ghost predicate IsChosenCycle(c: map<string, Plugin>, path: seq<string>) {
    |path| >= 2 && path[0] == path[|path| - 1] && IsChosenWalk(c, path)
  }

  /** No chosen plugin depends on a missing name or on itself. */
  ghost predicate IsResolvable(c: map<string, Plugin>) {
    (forall a, b :: ChosenEdge(c, a, b) ==> b in c) && forall path :: !IsChosenCycle(c, path)
  }

  /** The error names a dependency of a chosen plugin that is missing, or a cycle of chosen plugins. */
  ghost predicate IsChosenError(g: seq<Plugin>, c: map<string, Plugin>, e: Error) {
    match e
    case Missing(a, b) => ChosenEdge(c, a, b) && b !in Names(g)
    case Cycle(path) => IsChosenCycle(c, path)
  }

  /** During the visit of root: what the search finds is chosen, the last one of its name. */
  ghost predicate IsSearched(m: map<string, Plugin>, base: set<string>, root: string, c: map<string, Plugin>) {
    && (forall name :: name in c ==> c[name].name == name && name in m)
    && forall a, b :: ChosenEdge(c, a, b) && a !in base && b in m ==>
         b in c && (b in base || b == root || c[b] == m[b])
  }

  lemma VisitAdds(m: map<string, Plugin>, seen: map<string, Plugin>, p: Plugin)
    ensures var c := WithVisit(m, seen, p);
            && p.name in c && (if p.name in seen then c == seen else c[p.name] == p)
            && (forall name :: name in seen ==> name in c && c[name] == seen[name])
            && forall name :: name in c && name !in seen && name != p.name ==>
                 name in m && c[name] == m[name] && IsFound(m, seen.Keys + {p.name}, p, name)
    ensures p.name !in seen ==>
              forall name :: name in m && IsFound(m, seen.Keys + {p.name}, p, name) ==> name in WithVisit(m, seen, p)
  {
    forall name | IsFound(m, seen.Keys + {p.name}, p, name) ensures name !in seen && name != p.name {}
  }

  lemma VisitIsSearched(m: map<string, Plugin>, seen: map<string, Plugin>, p: Plugin)
    requires p.name in m && p.name !in seen
    requires forall name :: name in m ==> m[name].name == name
    requires forall name :: name in seen ==> seen[name].name == name && name in m
    ensures IsSearched(m, seen.Keys, p.name, WithVisit(m, seen, p))
  {
    hide WithVisit;
    VisitAdds(m, seen, p);
    var c, stops := WithVisit(m, seen, p), seen.Keys + {p.name};
    forall a, b | ChosenEdge(c, a, b) && a !in seen && b in m && b !in stops ensures b in c && c[b] == m[b] {
      var path: seq<string> := [];
      if a != p.name {
        path :| IsSearchPath(m, stops, p, path) && path[|path| - 1] == a;
      }
      assert IsSearchPath(m, stops, p, path + [b]);
      assert (path + [b])[|path + [b]| - 1] == b;
    }
  }

  lemma VisitedIsSearched(m: map<string, Plugin>, seen: map<string, Plugin>, p: Plugin)
    requires p.name in seen && forall name :: name in seen ==> seen[name].name == name && name in m
    ensures IsSearched(m, seen.Keys, p.name, WithVisit(m, seen, p))
  {}

  /** Once p has been visited with all that its search appended, every name of the visit is there. */
  lemma {:induction false} PathIsOrdered(m: map<string, Plugin>, seen: map<string, Plugin>, p: Plugin,
                                         order: seq<Plugin>, path: seq<string>)
    requires p.name !in seen && IsSearchPath(m, seen.Keys + {p.name}, p, path)
    requires IsPartialOrder(WithVisit(m, seen, p), order) && p.name in Names(order)
    ensures path[|path| - 1] in Names(order)
    decreases |path|
  {
    hide IsPartialOrder, Names, WithVisit;
    VisitAdds(m, seen, p);
    var c, stops, last := WithVisit(m, seen, p), seen.Keys + {p.name}, path[|path| - 1];
    if |path| == 1 {
      DependenciesAreOrdered(c, order, p.name, last);
    } else {
      var front := path[..|path| - 1];
      assert IsSearchPath(m, stops, p, front);
      PathIsOrdered(m, seen, p, order, front);
      assert front[|front| - 1] == path[|path| - 2] && IsFound(m, stops, p, path[|path| - 2]);
      DependenciesAreOrdered(c, order, path[|path| - 2], last);
    }
  }

  lemma DependenciesAreOrdered(c: map<string, Plugin>, order: seq<Plugin>, a: string, b: string)
    requires IsPartialOrder(c, order) && a in Names(order) && a in c && b in Dependencies(c[a])
    ensures b in Names(order)
  {
    var q :| q in order && q.name == a;
    var i :| 0 <= i < |order| && order[i] == q;
    assert b in Names(order[..i]);
    var r :| r in order[..i] && r.name == b;
    assert r in order;
  }

  lemma VisitIsComplete(m: map<string, Plugin>, seen: map<string, Plugin>, p: Plugin, order: seq<Plugin>)
    requires IsPartialOrder(WithVisit(m, seen, p), order) && p.name in Names(order) && seen.Keys <= Names(order)
    ensures WithVisit(m, seen, p).Keys == Names(order)
  {
    hide DistinctNames, WithVisit, AfterDependencies;
    VisitAdds(m, seen, p);
    var c := WithVisit(m, seen, p);
    forall name | name in c ensures name in Names(order) {
      if name !in seen && name != p.name {
        var path :| IsSearchPath(m, seen.Keys + {p.name}, p, path) && path[|path| - 1] == name;
        PathIsOrdered(m, seen, p, order, path);
      }
    }
    forall q | q in order ensures q.name in c {}
  }

  lemma {:induction false} ChosenIsChoice(g: seq<Plugin>, i: nat)
    requires i <= |g|
    ensures forall name :: name in ChosenUpTo(g, i) ==>
              ChosenUpTo(g, i)[name].name == name && IsChoice(g, ChosenUpTo(g, i)[name])
    ensures forall k :: 0 <= k < i ==> g[k].name in ChosenUpTo(g, i)
  {
    hide PluginMap, WithVisit, IsFound, IsChoice;
    if i > 0 {
      ChosenIsChoice(g, i - 1);
      VisitAdds(PluginMap(g), ChosenUpTo(g, i - 1), g[i - 1]);
      FirstIsChoice(g, i - 1, ChosenUpTo(g, i - 1).Keys);
      LastIsChoice(g);
    }
  }

  lemma LastIsChoice(g: seq<Plugin>)
    ensures forall name :: name in PluginMap(g) ==>
              PluginMap(g)[name].name == name && IsChoice(g, PluginMap(g)[name])
  {
    hide PluginMap;
  }

  /** Later visits do not change what was chosen. */
  lemma {:induction false} ChosenStays(g: seq<Plugin>, i: nat, j: nat, name: string)
    requires i <= j <= |g| && name in ChosenUpTo(g, i)
    ensures name in ChosenUpTo(g, j) && ChosenUpTo(g, j)[name] == ChosenUpTo(g, i)[name]
    decreases j
  {
    hide PluginMap, WithVisit, IsFound;
    if i < j {
      ChosenStays(g, i, j - 1, name);
      VisitAdds(PluginMap(g), ChosenUpTo(g, j - 1), g[j - 1]);
    }
  }

  /** Where names are distinct, there is nothing to choose. */
  lemma DistinctAreChosen(g: seq<Plugin>)
    requires DistinctNames(g)
    ensures Chosen(g) == PluginMap(g)
  {
    hide PluginMap, Chosen;
    var c := ChosenUpTo(g, |g|);
    ChosenIsChoice(g, |g|);
    forall name | name in c ensures name in PluginMap(g) && c[name] == PluginMap(g)[name] {
      OnlyOneChoice(g, c[name], PluginMap(g)[name]);
    }
    forall name | name in PluginMap(g) ensures name in c {
      var k :| 0 <= k < |g| && g[k] == PluginMap(g)[name];
    }
    ChosenIs(g);
  }

  lemma ChosenIs(g: seq<Plugin>)
    ensures Chosen(g) == ChosenUpTo(g, |g|)
  {}

  lemma OnlyOneChoice(g: seq<Plugin>, p: Plugin, q: Plugin)
    requires DistinctNames(g) && p in g && q in g && p.name == q.name
    ensures p == q
  {
    var i :| 0 <= i < |g| && g[i] == p;
    var j :| 0 <= j < |g| && g[j] == q;
  }

  // ----- the search -----

  /** Chosen plugins with different names, each after its dependencies. */
  ghost predicate IsPartialOrder(c: map<string, Plugin>, order: seq<Plugin>) {
    && DistinctNames(order)
    && (forall p :: p in order ==> p.name in c && c[p.name] == p)
    && AfterDependencies(order)
  }

  /** The names being visited: a walk of distinct chosen plugins, none of them finished. */
  ghost predicate IsStack(c: map<string, Plugin>, stack: seq<string>, visited: set<string>) {
    && IsChosenWalk(c, stack)
    && (forall i :: 0 <= i < |stack| ==> stack[i] in c && stack[i] !in visited)
    && (forall i, j :: 0 <= i < j < |stack| ==> stack[i] != stack[j])
  }

  lemma NamesOfAppend(order: seq<Plugin>, p: Plugin)
    ensures Names(order + [p]) == Names(order) + {p.name}
  {
    forall name ensures name in Names(order + [p]) <==> name in Names(order) + {p.name} {
      if name in Names(order) {
        var q :| q in order && q.name == name;
        assert q in order + [p];
      }
      assert p in order + [p];
    }
  }

  lemma AppendFinished(c: map<string, Plugin>, order: seq<Plugin>, p: Plugin)
    requires IsPartialOrder(c, order) && p.name in c && c[p.name] == p && p.name !in Names(order)
    requires forall d :: d in Dependencies(p) ==> d in Names(order)
    ensures IsPartialOrder(c, order + [p])
  {
    var all := order + [p];
    forall i, d | 0 <= i < |all| && d in Dependencies(all[i]) ensures d in Names(all[..i]) {
      if i < |order| {
        assert all[..i] == order[..i];
      } else {
        assert all[..i] == order;
      }
    }
    forall i, j | 0 <= i < j < |all| ensures all[i].name != all[j].name {
      assert all[i] in order;
    }
  }

  lemma PushName(c: map<string, Plugin>, stack: seq<string>, visited: set<string>, name: string)
    requires IsStack(c, stack, visited) && name in c && name !in visited && name !in stack
    requires stack != [] ==> ChosenEdge(c, stack[|stack| - 1], name)
    ensures IsStack(c, stack + [name], visited)
    ensures Elements(stack + [name]) == Elements(stack) + {name}
  {
    hide ChosenEdge;
  }

  lemma PopName(c: map<string, Plugin>, stack: seq<string>, visited: set<string>)
    requires stack != [] && IsStack(c, stack, visited)
    ensures IsStack(c, stack[..|stack| - 1], visited)
    ensures stack[|stack| - 1] !in stack[..|stack| - 1] && stack[|stack| - 1] !in visited
  {
    hide ChosenEdge;
  }

  lemma FinishOther(c: map<string, Plugin>, stack: seq<string>, visited: set<string>, name: string)
    requires IsStack(c, stack, visited) && name !in stack
    ensures IsStack(c, stack, visited + {name})
  {}

  lemma CloseCycle(c: map<string, Plugin>, stack: seq<string>, visited: set<string>, name: string, start: nat)
    requires IsStack(c, stack, visited) && start < |stack| && stack[start] == name
    requires ChosenEdge(c, stack[|stack| - 1], name)
    ensures IsChosenCycle(c, stack[start..] + [name])
  {
    hide ChosenEdge;
    var path := stack[start..] + [name];
    forall i | 0 <= i < |path| - 1 ensures ChosenEdge(c, path[i], path[i + 1]) {
      assert path[i] == stack[start + i];
      if i < |path| - 2 {
        assert path[i + 1] == stack[start + i + 1];
      }
    }
  }

  /** visiting.index(name) */
  function IndexOf(names: seq<string>, name: string): (i: nat)
    requires name in names
    ensures i < |names| && names[i] == name && name !in names[..i]
  {
    if names[0] == name then 0 else 1 + IndexOf(names[1..], name)
  }

  /** The closure of resolve_plugin_order: the search and its three collections. In a visit from the loop, root is its
      plugin, base are the names seen before, and chosen the plugins chosen when it ends. */
  class Resolver {
    ghost const plugins: seq<Plugin>
    const pluginMap: map<string, Plugin>
    var visited: set<string>
    var visiting: seq<string>
    var orderedPlugins: seq<Plugin>
    ghost var base: set<string>
    ghost var root: string
    ghost var chosen: map<string, Plugin>

    constructor (plugins: seq<Plugin>)
      ensures this.plugins == plugins && visited == {} && visiting == [] && orderedPlugins == [] && chosen == map[]
      ensures Valid()
    {
      this.plugins := plugins;
      this.pluginMap := PluginMap(plugins);
      visited, visiting, orderedPlugins := {}, [], [];
      base, root, chosen := {}, "", map[];
    }

    ghost predicate Valid()
      reads this
    {
      && pluginMap == PluginMap(plugins)
      && IsSearched(pluginMap, base, root, chosen)
      && IsPartialOrder(chosen, orderedPlugins)
      && visited == Names(orderedPlugins) && base <= visited
      && IsStack(chosen, visiting, visited)
      && (visiting != [] ==> visiting[0] == root)
    }

    /** The names whose visit may still begin. */
    ghost function Unseen(): set<string>
      reads this
    {
      Names(plugins) - visited - Elements(visiting)
    }

    /** A name that is neither finished nor open is about to be searched, with this plugin. */
    ghost predicate IsNext(plugin: Plugin)
      reads this
    {
      plugin.name !in visited && plugin.name !in visiting ==>
        && plugin.name in chosen && chosen[plugin.name] == plugin && plugin.name in pluginMap
        && (visiting == [] ==> plugin.name == root)
    }

    /** Without an error, the plugin and all it depends on are appended in order; an error is a real one. */
    method Visit(plugin: Plugin) returns (error: Option<Error>)
      requires Valid() && IsNext(plugin)
      requires visiting != [] ==> ChosenEdge(chosen, visiting[|visiting| - 1], plugin.name)
      modifies `visited, `visiting, `orderedPlugins
      ensures error.Some? ==> IsChosenError(plugins, chosen, error.value)
      ensures error.None? ==>
                && Valid() && visiting == old(visiting)
                && old(orderedPlugins) <= orderedPlugins && old(visited) <= visited
                && plugin.name in visited
      decreases Unseen(), 1
    {
      hide IsPartialOrder, IsStack, IsChosenCycle, ChosenEdge, Names, PluginMap, IsSearched;
      if plugin.name in visited {
        return None;
      }
      if plugin.name in visiting {
        var start := IndexOf(visiting, plugin.name);
        CloseCycle(chosen, visiting, visited, plugin.name, start);
        return Some(Cycle(visiting[start..] + [plugin.name]));
      }
      if plugin.dependsOn.Some? {
        PushName(chosen, visiting, visited, plugin.name);
        visiting := visiting + [plugin.name];
        assert Unseen() < old(Unseen()) by { assert plugin.name in old(Unseen()); }
        error := VisitDependencies(plugin);
        if error.Some? {
          return;
        }
        assert visiting[|visiting| - 1] == plugin.name;
        PopName(chosen, visiting, visited);
        visiting := visiting[..|visiting| - 1];
      }
      AppendFinished(chosen, orderedPlugins, plugin);
      NamesOfAppend(orderedPlugins, plugin);
      FinishOther(chosen, visiting, visited, plugin.name);
      visited := visited + {plugin.name};
      orderedPlugins := orderedPlugins + [plugin];
      error := None;
    }

    /** The loop over plugin.depends_on, with the plugin on top of the names being visited. */
    method VisitDependencies(plugin: Plugin) returns (error: Option<Error>)
      requires Valid() && plugin.name in chosen && chosen[plugin.name] == plugin
      requires visiting != [] && visiting[|visiting| - 1] == plugin.name
      modifies `visited, `visiting, `orderedPlugins
      ensures error.Some? ==> IsChosenError(plugins, chosen, error.value)
      ensures error.None? ==>
                && Valid() && visiting == old(visiting)
                && old(orderedPlugins) <= orderedPlugins && old(visited) <= visited
                && forall d :: d in Dependencies(plugin) ==> d in visited
      decreases Unseen(), 2
    {
      hide IsPartialOrder, IsStack, Names, PluginMap, IsSearched, IsChosenCycle;
      var dependencies := Dependencies(plugin);
      for i := 0 to |dependencies|
        invariant Valid() && visiting == old(visiting)
        invariant old(orderedPlugins) <= orderedPlugins && old(visited) <= visited
        invariant forall k :: 0 <= k < i ==> dependencies[k] in visited
      {
        var depName := dependencies[i];
        assert depName in Dependencies(plugin);
        if depName !in pluginMap {
          return Some(Missing(plugin.name, depName));
        }
        assert Unseen() <= old(Unseen());
        SearchGoesOn(pluginMap, base, root, chosen, visiting, visited, depName);
        error := Visit(pluginMap[depName]);
        if error.Some? {
          return;
        }
      }
      error := None;
    }
  }

  lemma SearchGoesOn(m: map<string, Plugin>, base: set<string>, root: string, c: map<string, Plugin>,
                     stack: seq<string>, visited: set<string>, name: string)
    requires IsSearched(m, base, root, c) && IsStack(c, stack, visited) && base <= visited
    requires stack != [] && stack[0] == root && ChosenEdge(c, stack[|stack| - 1], name) && name in m
    ensures name !in visited && name !in stack ==> name in c && c[name] == m[name]
  {}

  /** Exactly the lists whose chosen plugins depend on no missing name and not on themselves have an order, and it has
      each of them once. That is so whenever nothing in the list does; for distinct names all plugins are chosen, and
      the order is a permutation. */
  method ResolvePluginOrder(plugins: seq<Plugin>) returns (r: Result)
    ensures r.Ordered? <==> IsResolvable(Chosen(plugins))
    ensures r.Failed? ==> IsChosenError(plugins, Chosen(plugins), r.error) && IsGenuine(plugins, r.error)
    ensures r.Ordered? ==> IsPartialOrder(Chosen(plugins), r.plugins) && Names(r.plugins) == Names(plugins)
    ensures r.Ordered? ==> forall p :: p in r.plugins ==> IsChoice(plugins, p)
    ensures r.Ordered? ==> AllPresent(r.plugins) && Acyclic(r.plugins)
    ensures AllPresent(plugins) && Acyclic(plugins) ==> r.Ordered?
    ensures DistinctNames(plugins) ==> (r.Ordered? <==> AllPresent(plugins) && Acyclic(plugins))
    ensures DistinctNames(plugins) && r.Ordered? ==> multiset(r.plugins) == multiset(plugins)
  {
    hide IsPartialOrder, IsStack, AllPresent, Acyclic, IsGenuine, PluginMap, IsChoice, DistinctNames, AfterDependencies;
    hide IsChosenError, IsResolvable, WithVisit, IsSearched, Names, ChosenEdge;
    var resolver := new Resolver(plugins);
    for i := 0 to |plugins|
      invariant resolver.Valid() && resolver.visiting == [] && resolver.plugins == plugins
      invariant resolver.chosen == ChosenUpTo(plugins, i) && resolver.visited == resolver.chosen.Keys
    {
      ghost var seen := resolver.chosen;
      resolver.base, resolver.root, resolver.chosen := seen.Keys, plugins[i].name, ChosenUpTo(plugins, i + 1);
      NextVisit(plugins, i, resolver.orderedPlugins);
      var error := resolver.Visit(plugins[i]);
      if error.Some? {
        ErrorStays(plugins, i + 1, error.value);
        ChosenErrorRefutes(plugins, error.value);
        return Failed(error.value);
      }
      VisitEnds(plugins, i, resolver.orderedPlugins);
    }
    r := Ordered(resolver.orderedPlugins);
    ChosenIs(plugins);
    OrderSettles(plugins, r.plugins);
  }

  lemma NextVisit(plugins: seq<Plugin>, i: nat, order: seq<Plugin>)
    requires i < |plugins| && IsPartialOrder(ChosenUpTo(plugins, i), order)
    requires Names(order) == ChosenUpTo(plugins, i).Keys
    ensures var c := ChosenUpTo(plugins, i + 1);
            && IsSearched(PluginMap(plugins), ChosenUpTo(plugins, i).Keys, plugins[i].name, c)
            && IsPartialOrder(c, order) && IsStack(c, [], Names(order))
            && (plugins[i].name !in Names(order) ==>
                  plugins[i].name in c && c[plugins[i].name] == plugins[i] && plugins[i].name in PluginMap(plugins))
  {
    hide PluginMap, DistinctNames, IsFound, AfterDependencies, WithVisit, IsSearched, IsChoice;
    var seen := ChosenUpTo(plugins, i);
    ChosenIsChoice(plugins, i);
    ChoicesAreListed(plugins, i);
    assert plugins[i] in plugins;
    VisitAdds(PluginMap(plugins), seen, plugins[i]);
    if plugins[i].name !in seen {
      VisitIsSearched(PluginMap(plugins), seen, plugins[i]);
    } else {
      VisitedIsSearched(PluginMap(plugins), seen, plugins[i]);
    }
  }

  lemma ChoicesAreListed(plugins: seq<Plugin>, i: nat)
    requires i <= |plugins|
    ensures forall name :: name in ChosenUpTo(plugins, i) ==> name in PluginMap(plugins)
  {
    hide PluginMap;
    ChosenIsChoice(plugins, i);
  }

  lemma VisitEnds(plugins: seq<Plugin>, i: nat, order: seq<Plugin>)
    requires i < |plugins| && IsPartialOrder(ChosenUpTo(plugins, i + 1), order) && plugins[i].name in Names(order)
    requires ChosenUpTo(plugins, i).Keys <= Names(order)
    ensures Names(order) == ChosenUpTo(plugins, i + 1).Keys
  {
    hide PluginMap, IsPartialOrder, WithVisit, Names;
    VisitIsComplete(PluginMap(plugins), ChosenUpTo(plugins, i), plugins[i], order);
  }

  lemma WalkStays(plugins: seq<Plugin>, i: nat, path: seq<string>)
    requires i <= |plugins| && IsChosenWalk(ChosenUpTo(plugins, i), path)
    ensures IsChosenWalk(Chosen(plugins), path)
  {
    forall k | 0 <= k < |path| - 1 ensures ChosenEdge(Chosen(plugins), path[k], path[k + 1]) {
      assert ChosenEdge(ChosenUpTo(plugins, i), path[k], path[k + 1]);
      ChosenStays(plugins, i, |plugins|, path[k]);
    }
  }

  lemma ErrorStays(plugins: seq<Plugin>, i: nat, e: Error)
    requires i <= |plugins| && IsChosenError(plugins, ChosenUpTo(plugins, i), e)
    ensures IsChosenError(plugins, Chosen(plugins), e)
  {
    hide Names;
    match e
    case Cycle(path) => WalkStays(plugins, i, path);
    case Missing(a, b) => ChosenStays(plugins, i, |plugins|, a);
  }

  /** Chosen plugins are plugins of the list. */
  lemma ChosenErrorRefutes(plugins: seq<Plugin>, e: Error)
    requires IsChosenError(plugins, Chosen(plugins), e)
    ensures IsGenuine(plugins, e) && !(AllPresent(plugins) && Acyclic(plugins)) && !IsResolvable(Chosen(plugins))
  {
    hide PluginMap, ChosenUpTo;
    var c := Chosen(plugins);
    ChosenIsChoice(plugins, |plugins|);
    match e
    case Cycle(path) => ChosenCycleIsCycle(c, plugins, path);
    case Missing(a, b) =>
      assert c[a] in plugins;
      NamesAreChosen(plugins);
  }

  lemma ChosenCycleIsCycle(c: map<string, Plugin>, g: seq<Plugin>, path: seq<string>)
    requires IsChosenCycle(c, path) && forall name :: name in c ==> c[name] in g && c[name].name == name
    ensures IsCycle(g, path)
  {
    forall i | 0 <= i < |path| - 1 ensures Edge(g, path[i], path[i + 1]) {
      assert ChosenEdge(c, path[i], path[i + 1]);
      var next := if i + 1 < |path| - 1 then i + 1 else 0;
      assert path[next] == path[i + 1] && ChosenEdge(c, path[next], path[next + 1]);
    }
  }

  /** What a complete order says about the list. */
  lemma OrderSettles(plugins: seq<Plugin>, order: seq<Plugin>)
    requires IsPartialOrder(Chosen(plugins), order) && Names(order) == Chosen(plugins).Keys
    ensures Names(order) == Names(plugins) && forall p :: p in order ==> IsChoice(plugins, p)
    ensures AllPresent(order) && Acyclic(order) && IsResolvable(Chosen(plugins))
    ensures DistinctNames(plugins) ==>
              AllPresent(plugins) && Acyclic(plugins) && multiset(order) == multiset(plugins)
  {
    hide PluginMap, ChosenUpTo, Acyclic, IsChoice, IsChosenCycle, IsCycle;
    var c := Chosen(plugins);
    ChosenIsChoice(plugins, |plugins|);
    ChosenIs(plugins);
    NamesAreChosen(plugins);
    CompleteOrderIsAcyclic(order);
    forall name | name in c ensures c[name] in order && c[name].name == name {
      var p :| p in order && p.name == name;
    }
    forall path ensures !IsChosenCycle(c, path) {
      if IsChosenCycle(c, path) {
        ChosenCycleIsCycle(c, order, path);
        NoCycle(order, path);
      }
    }
    forall a, b | ChosenEdge(c, a, b) ensures b in c {
      assert c[a] in order;
    }
    if DistinctNames(plugins) {
      CompleteOrderIsPermutation(plugins, order);
    }
  }

  lemma NoCycle(g: seq<Plugin>, path: seq<string>)
    requires Acyclic(g)
    ensures !IsCycle(g, path)
  {}

  lemma NamesAreChosen(plugins: seq<Plugin>)
    ensures Names(plugins) == ChosenUpTo(plugins, |plugins|).Keys
  {
    hide PluginMap, ChosenUpTo;
    ChosenIsChoice(plugins, |plugins|);
    forall p | p in plugins ensures p.name in ChosenUpTo(plugins, |plugins|) {
      var k :| 0 <= k < |plugins| && plugins[k] == p;
    }
    forall name | name in ChosenUpTo(plugins, |plugins|) ensures name in Names(plugins) {
      assert ChosenUpTo(plugins, |plugins|)[name] in plugins;
    }
  }

  lemma FirstIsChoice(plugins: seq<Plugin>, i: nat, visited: set<string>)
    requires i < |plugins| && forall k :: 0 <= k < i ==> plugins[k].name in visited
    ensures plugins[i].name in Names(plugins)
    ensures plugins[i].name !in visited ==> IsChoice(plugins, plugins[i])
  {
    hide PluginMap;
    assert plugins[i] in plugins;
    if plugins[i].name !in visited {
      forall p | p in plugins[..i] ensures p.name != plugins[i].name {
        var k :| 0 <= k < i && plugins[k] == p;
      }
    }
  }

  /** An order with every plugin after its dependencies leaves no dependency missing and no cycle. */
  lemma CompleteOrderIsAcyclic(order: seq<Plugin>)
    requires DistinctNames(order) && AfterDependencies(order)
    ensures AllPresent(order) && Acyclic(order)
  {
    forall p, b | p in order && b in Dependencies(p) ensures b in Names(order) {
      var i :| 0 <= i < |order| && order[i] == p;
      var q :| q in order[..i] && q.name == b;
      assert q in order;
    }
    forall path ensures !IsCycle(order, path) {
      if IsCycle(order, path) {
        assert Edge(order, path[0], path[1]);
        var p :| p in order && p.name == path[0];
        var i :| 0 <= i < |order| && order[i] == p;
        var k := WalkDescends(order, path, i, |path| - 1);
        assert false;
      }
    }
  }

  lemma EdgeDescends(order: seq<Plugin>, a: string, b: string, i: nat) returns (j: nat)
    requires DistinctNames(order) && AfterDependencies(order)
    requires Edge(order, a, b) && i < |order| && order[i].name == a
    ensures j < i && order[j].name == b
  {
    var p :| p in order && p.name == a && b in Dependencies(p);
    var k :| 0 <= k < |order| && order[k] == p;
    assert k == i;
    var q :| q in order[..i] && q.name == b;
    j :| 0 <= j < i && order[j] == q;
  }

  /** Along a walk the positions in the order strictly decrease. */
  lemma {:induction false} WalkDescends(order: seq<Plugin>, path: seq<string>, i: nat, n: nat) returns (k: nat)
    requires DistinctNames(order) && AfterDependencies(order) && 1 <= n < |path| && IsWalk(order, path)
    requires i < |order| && order[i].name == path[0]
    ensures k < i && order[k].name == path[n]
    decreases n
  {
    hide Edge, AfterDependencies;
    assert Edge(order, path[n - 1], path[n]);
    var before := i;
    if n > 1 {
      before := WalkDescends(order, path, i, n - 1);
    }
    k := EdgeDescends(order, path[n - 1], path[n], before);
  }

  /** For distinct names the conditions on the order and on the list are the same. */
  lemma CompleteOrderIsPermutation(plugins: seq<Plugin>, order: seq<Plugin>)
    requires DistinctNames(plugins) && DistinctNames(order) && Names(order) == Names(plugins)
    requires forall p :: p in order ==> IsChoice(plugins, p)
    ensures multiset(order) == multiset(plugins)
    ensures AllPresent(plugins) && Acyclic(plugins) <==> AllPresent(order) && Acyclic(order)
  {
    forall p ensures p in order <==> p in plugins {
      if p in plugins {
        assert p.name in Names(order);
        var q :| q in order && q.name == p.name;
        assert IsChoice(plugins, q);
        var i :| 0 <= i < |plugins| && plugins[i] == p;
        var j :| 0 <= j < |plugins| && plugins[j] == q;
      }
      if p in order {
        assert IsChoice(plugins, p);
      }
    }
    SameMembersSameMultiset(order, plugins);
    SameMembersSameGraph(order, plugins);
  }

  lemma SameMembersSameGraph(a: seq<Plugin>, b: seq<Plugin>)
    requires forall p :: p in a <==> p in b
    ensures AllPresent(a) && Acyclic(a) <==> AllPresent(b) && Acyclic(b)
  {
    assert Names(a) == Names(b);
    forall x, y ensures Edge(a, x, y) <==> Edge(b, x, y) {}
    forall path ensures IsCycle(a, path) <==> IsCycle(b, path) {
      hide Edge;
    }
  }

  lemma SameMembersSameMultiset(a: seq<Plugin>, b: seq<Plugin>)
    requires DistinctNames(a) && DistinctNames(b)
    requires forall p :: p in a <==> p in b
    ensures multiset(a) == multiset(b)
  {
    StableSort.DistinctCounts(a);
    StableSort.DistinctCounts(b);
    forall p ensures multiset(a)[p] == multiset(b)[p] {
      assert p in a <==> p in multiset(a);
      assert p in b <==> p in multiset(b);
    }
  }
}
