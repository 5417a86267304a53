/**
 * DynamicRepository: the proxy type synthesised for a repository interface
 * and what each of its generated methods does when called. The emitted IL
 * is not modelled; its behaviour is: a proxy named after the interface
 * holding the DapperLogger it was constructed with, and for every interface
 * method one override that packs its arguments into a name-to-value
 * dictionary and hands it, with the method's query, to the executor.
 */
module DynamicRepository {
  import opened Wrappers
  import opened Text
  import opened Values

  /** What reflection reports about one parameter of an interface method. */
  datatype ParameterInfo = ParameterInfo(name: string, parameterType: string)

  /** The declared return type of an interface method: void, or the name of a type. */
  datatype ReturnType = Void | Returns(typeName: string)

  /** An interface method, with the text of its Query attribute if it has one. */
  datatype MethodInfo = MethodInfo(name: string, parameters: seq<ParameterInfo>, returnType: ReturnType, query: Option<string>)

  /** A repository interface: its name and its methods in the order GetMethods lists them. */
  datatype InterfaceType = InterfaceType(name: string, methods: seq<MethodInfo>)

  /** Stands for the DapperLogger service instance (database access, not modelled). */
  datatype DapperLogger = DapperLogger(id: nat)

  /**
   * A method the proxy type defines; returnType is the type argument its
   * body passes to Execute, target the index of the interface method it
   * overrides.
   */
  datatype Override = Override(
    name: string,
    returnType: string,
    parameterTypes: seq<string>,
    parameterNames: seq<string>,
    query: string,
    target: nat)

  /** The constructed proxy: its type, the interface it implements, the _dapper field and its methods. */
  datatype Proxy = Proxy(typeName: string, interfaceName: string, dapper: Option<DapperLogger>, overrides: seq<Override>)

  datatype BuildError =
    | MissingQuery(methodName: string)     // GetCustomAttributes(typeof(QueryAttribute))[0] on an empty array
    | VoidReturn(methodName: string)       // MakeGenericMethod(typeof(void)): ArgumentException
    | AmbiguousMethod(methodName: string)  // Type.GetMethod(name): AmbiguousMatchException on overloads
    | MethodNotFound(methodName: string)   // Type.GetMethod(name) returned null

  datatype InvokeError = DuplicateKey(name: string)  // Dictionary.Add with a key already present

  /** What a generated method hands to SqlExecuteQuery.Execute<ReturnType>. */
  datatype Request = Request(dapper: Option<DapperLogger>, parameters: map<string, Value>, query: string, returnType: string)

  function ParameterTypes(ps: seq<ParameterInfo>): (types: seq<string>)
    ensures |types| == |ps| && forall i :: 0 <= i < |ps| ==> types[i] == ps[i].parameterType
  {
    seq(|ps|, i requires 0 <= i < |ps| => ps[i].parameterType)
  }

  function ParameterNames(ps: seq<ParameterInfo>): (names: seq<string>)
    ensures |names| == |ps| && forall i :: 0 <= i < |ps| ==> names[i] == ps[i].name
  {
    seq(|ps|, i requires 0 <= i < |ps| => ps[i].name)
  }

  predicate Distinct(names: seq<string>)
  {
    forall i, j :: 0 <= i < j < |names| ==> names[i] != names[j]
  }

  /** The names of the interface methods, in order. */
  function MethodNames(methods: seq<MethodInfo>): seq<string>
  {
    seq(|methods|, i requires 0 <= i < |methods| => methods[i].name)
  }

  // ---------------------------------------------------------------------
  // Building the proxy type
  // ---------------------------------------------------------------------

  /** The index of the first method named name, or |methods| when there is none. */
  function IndexOf(methods: seq<MethodInfo>, name: string): (k: nat)
    ensures k <= |methods|
    ensures k < |methods| ==> methods[k].name == name
    ensures forall j :: 0 <= j < k ==> methods[j].name != name
  {
    if methods == [] then 0
    else if methods[0].name == name then 0
    else 1 + IndexOf(methods[1..], name)
  }

  /** Type.GetMethod(name): the one method with that name, an error when there are none or several. */
  function GetMethod(methods: seq<MethodInfo>, name: string): Result<nat, BuildError>
  {
    var k := IndexOf(methods, name);
    if k == |methods| then Failure(MethodNotFound(name))
    else if exists j :: k < j < |methods| && methods[j].name == name then Failure(AmbiguousMethod(name))
    else Success(k)
  }

  /** The override defined for interface method k, or the exception its definition raises. */
  function DefineOverride(iface: InterfaceType, k: nat): Result<Override, BuildError>
    requires k < |iface.methods|
  {
    var m := iface.methods[k];
    if m.query.None? then Failure(MissingQuery(m.name))
    else if m.returnType.Void? then Failure(VoidReturn(m.name))
    else match GetMethod(iface.methods, m.name)
      case Failure(e) => Failure(e)
      case Success(target) =>
        Success(Override(m.name, m.returnType.typeName, ParameterTypes(m.parameters), ParameterNames(m.parameters), m.query.value, target))
  }

  /** The overrides of the first n interface methods, stopping at the first exception. */
  function DefineOverrides(iface: InterfaceType, n: nat): Result<seq<Override>, BuildError>
    requires n <= |iface.methods|
  {
    if n == 0 then Success([])
    else match DefineOverrides(iface, n - 1)
      case Failure(e) => Failure(e)
      case Success(overrides) =>
        match DefineOverride(iface, n - 1)
        case Failure(e) => Failure(e)
        case Success(o) => Success(overrides + [o])
  }

  /** The proxy CreateRepository returns for iface, given the DapperLogger the service provider resolves. */
  function Build(iface: InterfaceType, service: Option<DapperLogger>): Result<Proxy, BuildError>
  {
    match DefineOverrides(iface, |iface.methods|)
    case Failure(e) => Failure(e)
    case Success(overrides) => Success(Proxy(iface.name + "Proxy", iface.name, service, overrides))
  }

  method CreateRepository(iface: InterfaceType, service: Option<DapperLogger>) returns (r: Result<Proxy, BuildError>)
    ensures r == Build(iface, service)
  {
    var overrides: seq<Override> := [];
    for k := 0 to |iface.methods|
      invariant DefineOverrides(iface, k) == Success(overrides)
    {
      var m := iface.methods[k];
      if m.query.None? {
        DefineOverridesFailureStays(iface, k + 1);
        return Failure(MissingQuery(m.name));
      }
      var queryString := m.query.value;
      if m.returnType.Void? {
        DefineOverridesFailureStays(iface, k + 1);
        return Failure(VoidReturn(m.name));
      }
      var implementMethod := GetMethod(iface.methods, m.name);
      if implementMethod.Failure? {
        DefineOverridesFailureStays(iface, k + 1);
        return Failure(implementMethod.error);
      }
      overrides := overrides + [Override(m.name, m.returnType.typeName, ParameterTypes(m.parameters),
                                         ParameterNames(m.parameters), queryString, implementMethod.value)];
    }
    r := Success(Proxy(iface.name + "Proxy", iface.name, service, overrides));
  }

  /** Once the definition of a method fails, building the type fails the same way. */
  lemma {:induction false} DefineOverridesFailureStays(iface: InterfaceType, k: nat)
    requires k <= |iface.methods| && DefineOverrides(iface, k).Failure?
    ensures DefineOverrides(iface, |iface.methods|) == DefineOverrides(iface, k)
    decreases |iface.methods| - k
  {
    if k < |iface.methods| {
      DefineOverridesFailureStays(iface, k + 1);
    }
  }

  // ---------------------------------------------------------------------
  // Calling a generated method
  // ---------------------------------------------------------------------

  /** The dictionary filled by Add(names[i], args[i]) in declaration order. */
  function ParameterMap(names: seq<string>, args: seq<Value>): Result<map<string, Value>, InvokeError>
    requires |names| == |args|
  {
    if names == [] then Success(map[])
    else match ParameterMap(names[..|names| - 1], args[..|args| - 1])
      case Failure(e) => Failure(e)
      case Success(dictionary) =>
        if Last(names) in dictionary then Failure(DuplicateKey(Last(names)))
        else Success(dictionary[Last(names) := Last(args)])
  }

  /** The dictionary the generated method builds on each call, one Add per parameter. */
  method BuildParameters(names: seq<string>, args: seq<Value>) returns (r: Result<map<string, Value>, InvokeError>)
    requires |names| == |args|
    ensures r == ParameterMap(names, args)
  {
    var dictionaryParams: map<string, Value> := map[];
    for paramIndex := 0 to |names|
      invariant ParameterMap(names[..paramIndex], args[..paramIndex]) == Success(dictionaryParams)
    {
      assert names[..paramIndex + 1][..paramIndex] == names[..paramIndex];
      assert args[..paramIndex + 1][..paramIndex] == args[..paramIndex];
      var paramNameLocal := names[paramIndex];
      if paramNameLocal in dictionaryParams {
        ParameterMapFailureStays(names, args, paramIndex + 1);
        return Failure(DuplicateKey(paramNameLocal));
      }
      dictionaryParams := dictionaryParams[paramNameLocal := args[paramIndex]];
    }
    assert names[..|names|] == names && args[..|args|] == args;
    r := Success(dictionaryParams);
  }

  lemma {:induction false} ParameterMapFailureStays(names: seq<string>, args: seq<Value>, k: nat)
    requires |names| == |args| && k <= |names|
    requires ParameterMap(names[..k], args[..k]).Failure?
    ensures ParameterMap(names, args) == ParameterMap(names[..k], args[..k])
    decreases |names| - k
  {
    if k < |names| {
      assert names[..k + 1][..k] == names[..k];
      assert args[..k + 1][..k] == args[..k];
      ParameterMapFailureStays(names, args, k + 1);
    } else {
      assert names[..k] == names && args[..k] == args;
    }
  }

  /**
   * A call of override k: the arguments packed into a fresh dictionary,
   * then the executor's result for (_dapper, dictionary, query) returned
   * as it is.
   */
  method Invoke<R>(proxy: Proxy, k: nat, args: seq<Value>, execute: Request -> R) returns (r: Result<R, InvokeError>)
    requires k < |proxy.overrides| && |args| == |proxy.overrides[k].parameterNames|
    ensures var o := proxy.overrides[k];
      match ParameterMap(o.parameterNames, args)
      case Success(dictionary) => r == Success(execute(Request(proxy.dapper, dictionary, o.query, o.returnType)))
      case Failure(e) => r == Failure(e)
  {
    var o := proxy.overrides[k];
    var dictionaryParams := BuildParameters(o.parameterNames, args);
    if dictionaryParams.Failure? {
      return Failure(dictionaryParams.error);
    }
    var queryString := o.query;
    r := Success(execute(Request(proxy.dapper, dictionaryParams.value, queryString, o.returnType)));
  }
}
