/**
 * What the proxy DynamicRepository builds guarantees: one override per
 * interface method, bound to it and carrying its signature and query; the
 * build errors and which method raises them; and the dictionary a call
 * hands to the executor.
 */
module DynamicRepositoryProperties {
  import opened Wrappers
  import opened Text
  import opened Values
  import opened DynamicRepository

  // ---------------------------------------------------------------------
  // The parameter dictionary
  // ---------------------------------------------------------------------

  /** The names that are keys of the dictionary after Add(names[i], args[i]) for every i. */
  function NameSet(names: seq<string>): set<string>
  {
    set i | 0 <= i < |names| :: names[i]
  }

  lemma DistinctSnoc(names: seq<string>)
    requires |names| > 0
    ensures Distinct(names) <==> Distinct(names[..|names| - 1]) && Last(names) !in NameSet(names[..|names| - 1])
  {
    var front := names[..|names| - 1];
    if Distinct(front) && Last(names) !in NameSet(front) {
      forall i, j | 0 <= i < j < |names| ensures names[i] != names[j] {
        if j < |names| - 1 {
          assert names[i] == front[i] && names[j] == front[j];
        } else {
          assert names[i] == front[i] && names[i] in NameSet(front);
        }
      }
    }
    if Distinct(names) {
      forall i, j | 0 <= i < j < |front| ensures front[i] != front[j] {
        assert front[i] == names[i] && front[j] == names[j];
      }
      forall i | 0 <= i < |front| ensures front[i] != Last(names) {
        assert front[i] == names[i];
      }
    }
  }

  lemma NameSetSnoc(names: seq<string>)
    requires |names| > 0
    ensures NameSet(names) == NameSet(names[..|names| - 1]) + {names[|names| - 1]}
  {
    var n := |names| - 1;
    var front := names[..n];
    forall x | x in NameSet(names) ensures x in NameSet(front) + {names[n]} {
      var i :| 0 <= i < |names| && names[i] == x;
      if i < n {
        assert front[i] == x;
      }
    }
    forall x | x in NameSet(front) ensures x in NameSet(names) {
      var i :| 0 <= i < |front| && front[i] == x;
      assert names[i] == x;
    }
  }

  /**
   * The dictionary is built exactly when the parameter names are distinct;
   * then its keys are the names and the i-th name maps to the i-th argument.
   */
  lemma {:induction false} ParameterMapPairs(names: seq<string>, args: seq<Value>)
    requires |names| == |args|
    ensures ParameterMap(names, args).Success? <==> Distinct(names)
    ensures ParameterMap(names, args).Success? ==>
      && ParameterMap(names, args).value.Keys == NameSet(names)
      && forall i :: 0 <= i < |names| ==> ParameterMap(names, args).value[names[i]] == args[i]
    decreases |names|
  {
    if names != [] {
      var n := |names| - 1;
      var front := names[..n];
      ParameterMapPairs(front, args[..n]);
      DistinctSnoc(names);
      NameSetSnoc(names);
      if ParameterMap(names, args).Success? {
        var m := ParameterMap(front, args[..n]).value;
        assert ParameterMap(names, args).value == m[names[n] := args[n]];
        forall i | 0 <= i < |names| ensures m[names[n] := args[n]][names[i]] == args[i] {
          if i < n {
            assert names[i] == front[i] && args[i] == args[..n][i];
            assert names[i] in NameSet(front);
          }
        }
      }
    }
  }

  /** Add is called in declaration order, so the first repeated name is the one reported. */
  lemma {:induction false} ParameterMapFirstDuplicate(names: seq<string>, args: seq<Value>)
    requires |names| == |args| && ParameterMap(names, args).Failure?
    ensures exists j :: 0 <= j < |names| && Distinct(names[..j]) && names[j] in NameSet(names[..j])
                        && ParameterMap(names, args).error == DuplicateKey(names[j])
    decreases |names|
  {
    var n := |names| - 1;
    var front := names[..n];
    ParameterMapPairs(front, args[..n]);
    if ParameterMap(front, args[..n]).Failure? {
      ParameterMapFirstDuplicate(front, args[..n]);
      var j :| 0 <= j < |front| && Distinct(front[..j]) && front[j] in NameSet(front[..j])
               && ParameterMap(front, args[..n]).error == DuplicateKey(front[j]);
      assert names[..j] == front[..j] && names[j] == front[j];
    } else {
      assert names[..n] == front;
    }
  }

  // ---------------------------------------------------------------------
  // Building the proxy type
  // ---------------------------------------------------------------------

  /** No other interface method has the name of method k. */
  predicate UniqueName(methods: seq<MethodInfo>, k: nat)
    requires k < |methods|
  {
    forall j :: 0 <= j < |methods| && j != k ==> methods[j].name != methods[k].name
  }

  /** Method k has a Query attribute, a non-void return type and a name no other method has. */
  predicate Definable(methods: seq<MethodInfo>, k: nat)
    requires k < |methods|
  {
    methods[k].query.Some? && methods[k].returnType.Returns? && UniqueName(methods, k)
  }

  /**
   * Defining method k succeeds exactly when it has a Query attribute, does
   * not return void and its name is not overloaded; the override then copies
   * its signature and query and is bound to method k itself. The attribute
   * is checked first, then the return type, then the name; MethodNotFound
   * never arises.
   */
  lemma DefineOverrideSpec(iface: InterfaceType, k: nat)
    requires k < |iface.methods|
    ensures var m := iface.methods[k];
      && (DefineOverride(iface, k).Success? <==> Definable(iface.methods, k))
      && (DefineOverride(iface, k).Success? ==>
            DefineOverride(iface, k).value
              == Override(m.name, m.returnType.typeName, ParameterTypes(m.parameters), ParameterNames(m.parameters), m.query.value, k))
      && (DefineOverride(iface, k).Failure? ==>
            DefineOverride(iface, k).error
              == if m.query.None? then MissingQuery(m.name)
                 else if m.returnType.Void? then VoidReturn(m.name)
                 else AmbiguousMethod(m.name))
  {
    var methods := iface.methods;
    var name := methods[k].name;
    var first := IndexOf(methods, name);
    assert first <= k;
    if UniqueName(methods, k) {
      assert first == k;
    } else {
      var j :| 0 <= j < |methods| && j != k && methods[j].name == name;
      assert first <= j;
      assert exists j' :: first < j' < |methods| && methods[j'].name == name by {
        if first < j {
          assert first < j < |methods| && methods[j].name == name;
        } else {
          assert first < k < |methods| && methods[k].name == name;
        }
      }
    }
  }

  /** The first n methods are defined one override each, in order, when each of them can be. */
  lemma {:induction false} DefineOverridesSuccess(iface: InterfaceType, n: nat)
    requires n <= |iface.methods|
    ensures DefineOverrides(iface, n).Success? <==> forall k :: 0 <= k < n ==> DefineOverride(iface, k).Success?
    ensures DefineOverrides(iface, n).Success? ==>
      && |DefineOverrides(iface, n).value| == n
      && forall k :: 0 <= k < n ==> DefineOverrides(iface, n).value[k] == DefineOverride(iface, k).value
    decreases n
  {
    if n > 0 {
      DefineOverridesSuccess(iface, n - 1);
      var previous := DefineOverrides(iface, n - 1);
      var last := DefineOverride(iface, n - 1);
      if previous.Success? && last.Success? {
        assert DefineOverrides(iface, n).value == previous.value + [last.value];
      }
    }
  }

  /** Otherwise the error of the first method that cannot be defined is raised. */
  lemma {:induction false} DefineOverridesFailure(iface: InterfaceType, n: nat)
    requires n <= |iface.methods| && DefineOverrides(iface, n).Failure?
    ensures exists k :: (
      && 0 <= k < n && DefineOverride(iface, k).Failure?
      && (forall j :: 0 <= j < k ==> DefineOverride(iface, j).Success?)
      && DefineOverrides(iface, n).error == DefineOverride(iface, k).error)
    decreases n
  {
    var previous := DefineOverrides(iface, n - 1);
    if previous.Failure? {
      DefineOverridesFailure(iface, n - 1);
    } else {
      DefineOverridesSuccess(iface, n - 1);
      assert DefineOverride(iface, n - 1).Failure?;
    }
  }

  /**
   * CreateRepository succeeds exactly when every interface method has a
   * Query attribute and a non-void return type, and no method name is
   * overloaded.
   */
  lemma BuildSucceeds(iface: InterfaceType, service: Option<DapperLogger>)
    ensures Build(iface, service).Success?
        <==> (forall k :: 0 <= k < |iface.methods| ==> iface.methods[k].query.Some?)
             && (forall k :: 0 <= k < |iface.methods| ==> iface.methods[k].returnType.Returns?)
             && Distinct(MethodNames(iface.methods))
  {
    var methods := iface.methods;
    DefineOverridesSuccess(iface, |methods|);
    forall k | 0 <= k < |methods| {
      DefineOverrideSpec(iface, k);
    }
    var names := MethodNames(methods);
    if Distinct(names) {
      forall k | 0 <= k < |methods| ensures UniqueName(methods, k) {
        forall j | 0 <= j < |methods| && j != k ensures methods[j].name != methods[k].name {
          if j < k {
            assert names[j] != names[k];
          } else {
            assert names[k] != names[j];
          }
        }
      }
    }
    if forall k :: 0 <= k < |methods| ==> UniqueName(methods, k) {
      forall i, j | 0 <= i < j < |names| ensures names[i] != names[j] {
        assert UniqueName(methods, i);
      }
    }
  }

  /**
   * A built proxy is named after the interface with "Proxy" appended,
   * implements it, holds the resolved DapperLogger, and has exactly one
   * override per interface method, with that method's name, return type,
   * parameter types and names and query, bound to that method.
   */
  lemma BuildMatchesInterface(iface: InterfaceType, service: Option<DapperLogger>)
    requires Build(iface, service).Success?
    ensures var proxy := Build(iface, service).value;
      && proxy.typeName == iface.name + "Proxy"
      && proxy.interfaceName == iface.name
      && proxy.dapper == service
      && |proxy.overrides| == |iface.methods|
      && forall k :: 0 <= k < |iface.methods| ==>
           var m := iface.methods[k];
           && m.query.Some? && m.returnType.Returns?
           && proxy.overrides[k] == Override(m.name, m.returnType.typeName, ParameterTypes(m.parameters),
                                             ParameterNames(m.parameters), m.query.value, k)
  {
    DefineOverridesSuccess(iface, |iface.methods|);
    forall k | 0 <= k < |iface.methods| {
      DefineOverrideSpec(iface, k);
    }
  }

  /**
   * A failed build reports the first interface method that cannot be
   * defined: MissingQuery when it has no Query attribute, VoidReturn when it
   * has one but returns void, AmbiguousMethod when its name is overloaded.
   */
  lemma BuildFirstError(iface: InterfaceType, service: Option<DapperLogger>)
    requires Build(iface, service).Failure?
    ensures exists k :: (
      && 0 <= k < |iface.methods|
      && (forall j :: 0 <= j < k ==> Definable(iface.methods, j))
      && !Definable(iface.methods, k)
      && Build(iface, service).error
           == if iface.methods[k].query.None? then MissingQuery(iface.methods[k].name)
              else if iface.methods[k].returnType.Void? then VoidReturn(iface.methods[k].name)
              else AmbiguousMethod(iface.methods[k].name))
  {
    DefineOverridesFailure(iface, |iface.methods|);
    var k :| 0 <= k < |iface.methods| && DefineOverride(iface, k).Failure?
      && (forall j :: 0 <= j < k ==> DefineOverride(iface, j).Success?)
      && DefineOverrides(iface, |iface.methods|).error == DefineOverride(iface, k).error;
    DefineOverrideSpec(iface, k);
    forall j | 0 <= j < k ensures Definable(iface.methods, j) {
      DefineOverrideSpec(iface, j);
    }
  }

  /**
   * A repository method declared void cannot be proxied, even with a query:
   * Execute is instantiated with the method's return type.
   */
  lemma VoidMethodRejected(query: string)
    ensures Build(InterfaceType("IRepository", [MethodInfo("Delete", [], Void, Some(query))]), None)
         == Failure(VoidReturn("Delete"))
  {
    var iface := InterfaceType("IRepository", [MethodInfo("Delete", [], Void, Some(query))]);
    assert DefineOverride(iface, 0) == Failure(VoidReturn("Delete"));
    assert DefineOverrides(iface, 1) == Failure(VoidReturn("Delete"));
  }

  // ---------------------------------------------------------------------
  // Calling a built proxy
  // ---------------------------------------------------------------------

  /**
   * Calling method k of a built proxy with one argument per parameter (whose
   * names the C# compiler keeps distinct) gives the executor a dictionary
   * whose keys are the parameter names, the i-th name mapped to the i-th
   * argument, together with the proxy's DapperLogger, the method's query
   * and its return type.
   */
  lemma CallReachesExecutor(iface: InterfaceType, service: Option<DapperLogger>, k: nat, args: seq<Value>)
    requires Build(iface, service).Success?
    requires k < |iface.methods| && |args| == |iface.methods[k].parameters|
    requires Distinct(ParameterNames(iface.methods[k].parameters))
    ensures var proxy := Build(iface, service).value;
      var names := ParameterNames(iface.methods[k].parameters);
      && k < |proxy.overrides|
      && proxy.overrides[k].parameterNames == names
      && ParameterMap(names, args).Success?
      && ParameterMap(names, args).value.Keys == NameSet(names)
      && (forall i :: 0 <= i < |names| ==> ParameterMap(names, args).value[names[i]] == args[i])
      && proxy.dapper == service
      && iface.methods[k].query.Some?
      && proxy.overrides[k].query == iface.methods[k].query.value
      && iface.methods[k].returnType.Returns?
      && proxy.overrides[k].returnType == iface.methods[k].returnType.typeName
  {
    BuildMatchesInterface(iface, service);
    ParameterMapPairs(ParameterNames(iface.methods[k].parameters), args);
  }
}
