/**
 * CustomDynamicParameters: the argument table that Dapper fills through Add,
 * and the rewriting of a command's SQL text in which every placeholder
 * token (":name" or ":name.property") is replaced by a literal rendered from
 * the table.
 *
 * The functions below are the specification of one rendering; the class
 * holds the table and the imperative rendering loop, proved equal to it.
 */
module DynamicParameters {
  import opened Wrappers
  import opened Text
  import opened Values
  import opened Json

  /** The exceptions the renderer can raise. */
  datatype Error =
    | DuplicateParameter(name: string)  // Dictionary.Add: the key is already present
    | ParameterNotFound(name: string)   // Dictionary indexer: KeyNotFoundException
    | NullReference                     // GetType() called on a null argument
    | ParamNotValid                     // SqlParameterException("Param not valid")
    | CannotConvert(property: string)   // SqlParameterException("Cannot convert data type is ...")

  // ---------------------------------------------------------------------
  // Placeholder discovery
  // ---------------------------------------------------------------------

  /** The characters the SQL text is split on to find placeholders. */
  const Separators: set<char> := {' ', ',', '(', ')'}

  predicate IsPlaceholder(piece: string)
  {
    |piece| > 0 && piece[0] == ':'
  }

  /** What discovery yields: a placeholder with no separator in it. */
  predicate IsToken(t: string)
  {
    IsPlaceholder(t) && NoneIn(t, Separators)
  }

  /** Array.FindAll(pieces, piece => piece.StartsWith(':')), order kept. */
  function Placeholders(pieces: seq<string>): (tokens: seq<string>)
    ensures forall i :: 0 <= i < |tokens| ==> tokens[i] in pieces && IsPlaceholder(tokens[i])
    ensures forall i :: 0 <= i < |pieces| && IsPlaceholder(pieces[i]) ==> pieces[i] in tokens
  {
    if pieces == [] then []
    else (if IsPlaceholder(pieces[0]) then [pieces[0]] else []) + Placeholders(pieces[1..])
  }

  /** The placeholder tokens of the original SQL text, in order, repeats kept. */
  function Tokens(sql: string): (tokens: seq<string>)
    ensures forall i :: 0 <= i < |tokens| ==> IsPlaceholder(tokens[i])
  {
    Placeholders(SplitOn(sql, Separators))
  }

  /** No placeholder found in the text holds a separator. */
  lemma TokensAreTokens(sql: string)
    ensures forall i :: 0 <= i < |Tokens(sql)| ==> IsToken(Tokens(sql)[i])
  {
  }

  /** The query text starts with "Insert", in any letter case. */
  predicate IsInsert(q: string)
  {
    StartsWithIgnoreCase(q, "Insert")
  }

  /** queryParam.Replace(",", ""): the token with its commas removed. */
  function StripCommas(token: string): (t: string)
    requires IsPlaceholder(token)
    ensures IsPlaceholder(t)
  {
    assert token == [token[0]] + token[1..];
    ReplaceAllKeepsPrefix([token[0]], token[1..], ",", "");
    ReplaceAll(token, ",", "")
  }

  /** queryParamTmp: the token as searched for in the current query text q. */
  function Working(q: string, token: string): (t: string)
    requires IsPlaceholder(token)
    ensures IsPlaceholder(t)
  {
    if IsInsert(q) then StripCommas(token) else token
  }

  /** The token has the two-part form ":root.property". */
  predicate IsTwoPart(t: string)
  {
    |SplitOn(t, {'.'})| > 1
  }

  /** The argument name a token refers to. */
  function RootName(t: string): string
  {
    var parts := SplitOn(t, {'.'});
    if |parts| > 1 then Last(SplitOn(parts[0], {':'})) else Last(SplitOn(t, {':'}))
  }

  /** The property named by a two-part token: the text after its last '.'. */
  function PropertyName(t: string): string
  {
    Last(SplitOn(t, {'.'}))
  }

  // ---------------------------------------------------------------------
  // Literals
  // ---------------------------------------------------------------------

  /** A single-quoted SQL literal: the JSON form between quotes, every '"' removed. */
  function QuotedLiteral(v: Value): string
  {
    ReplaceAll("'" + Serialize(v) + "'", "\"", "")
  }

  /**
   * An SQL value list: the JSON form with every occurrence of its first
   * character turned into '(' and then every occurrence of its last
   * character into ')'.
   */
  function ListLiteral(v: Value): string
  {
    var json := Serialize(v);
    var parenthesised := ReplaceChar(json, json[0], '(');
    ReplaceChar(parenthesised, parenthesised[|parenthesised| - 1], ')')
  }

  /** How one property appears in an expanded INSERT row. */
  function RowEntry(p: Property): string
  {
    if p.value.Null? then "null"
    else if p.declared == StringType then "'" + ToText(p.value) + "'"
    else ToText(p.value)
  }

  /**
   * The row built from an object's properties in declaration order: a ','
   * is written before an entry whenever the row so far is not empty, and a
   * property of array or generic type stops the expansion.
   */
  function InsertData(props: seq<Property>): (r: Result<string, Error>)
    ensures r.Failure? ==> r.error.CannotConvert?
    decreases |props|
  {
    if props == [] then Success("")
    else match InsertData(props[..|props| - 1])
      case Failure(e) => Failure(e)
      case Success(data) =>
        var p := Last(props);
        var sofar := if |data| != 0 then data + "," else data;
        if p.declared == ArrayOrGeneric then Failure(CannotConvert(p.name))
        else Success(sofar + RowEntry(p))
  }

  /** ReplaceInsertData: an object expands into a row, and only in an INSERT statement. */
  function InsertExpansion(q: string, props: seq<Property>, t: string): Result<string, Error>
    requires |t| > 0
  {
    if !IsInsert(q) then Failure(ParamNotValid)
    else match InsertData(props)
      case Failure(e) => Failure(e)
      case Success(row) => Success(ReplaceAll(q, t, row))
  }

  // ---------------------------------------------------------------------
  // Rendering
  // ---------------------------------------------------------------------

  /** A ":root.property" token t rendered into q: the property's value, quoted when it is declared a string. */
  function RenderProperty(table: map<string, Value>, q: string, t: string): Result<string, Error>
    requires IsPlaceholder(t)
  {
    var root := RootName(t);
    if root !in table then Failure(ParameterNotFound(root))
    else
      var owner := table[root];
      if owner.Null? then Failure(NullReference)
      else match FindProperty(owner, PropertyName(t))
        case Some(p) =>
          if p.declared == StringType then Success(ReplaceAll(q, t, QuotedLiteral(p.value)))
          else Success(ReplaceAll(q, t, Serialize(p.value)))
        case None => Success(ReplaceAll(q, t, Serialize(Null)))
  }

  /**
   * A ":root" token rendered into q, where t is the token as searched for:
   * numbers and booleans in JSON, strings quoted, lists parenthesised,
   * objects expanded into an INSERT row.
   */
  function RenderArgument(table: map<string, Value>, q: string, token: string, t: string): Result<string, Error>
    requires IsPlaceholder(token) && IsPlaceholder(t)
  {
    var root := RootName(t);
    if root !in table then Failure(ParameterNotFound(root))
    else
      var v := table[root];
      match v
      case Num(_) => Success(ReplaceAll(q, t, Serialize(v)))
      case Bool(_) => Success(ReplaceAll(q, t, Serialize(v)))
      case Text(_) => Success(ReplaceAll(q, token, QuotedLiteral(v)))
      case Seq(_, _) => Success(ReplaceAll(q, token, ListLiteral(v)))
      case Obj(_, props) => InsertExpansion(q, props, t)
      case Null => Failure(NullReference)
  }

  /** The query text after the token is rendered into q, or the exception raised. */
  function RenderToken(table: map<string, Value>, q: string, token: string): Result<string, Error>
    requires IsPlaceholder(token)
  {
    var t := Working(q, token);
    if IsTwoPart(t) then RenderProperty(table, q, t) else RenderArgument(table, q, token, t)
  }

  /** The tokens rendered one after the other into q; the first exception ends it. */
  function RenderTokens(table: map<string, Value>, q: string, tokens: seq<string>): Result<string, Error>
    requires forall i :: 0 <= i < |tokens| ==> IsPlaceholder(tokens[i])
    decreases |tokens|
  {
    if tokens == [] then Success(q)
    else match RenderToken(table, q, tokens[0])
      case Failure(e) => Failure(e)
      case Success(next) => RenderTokens(table, next, tokens[1..])
  }

  /** The SQL text with its placeholders, found once in the original text, rendered. */
  function Render(table: map<string, Value>, sql: string): Result<string, Error>
  {
    RenderTokens(table, sql, Tokens(sql))
  }

  /** The value Add stores: a C# null becomes the string "null". */
  function Stored(value: Value): (v: Value)
    ensures !v.Null?
    ensures value.Null? ==> v == Text("null")
    ensures !value.Null? ==> v == value
  {
    if value.Null? then Text("null") else value
  }

  /** A pass that succeeds hands its query on to the remaining tokens. */
  lemma RenderTokensStep(table: map<string, Value>, q: string, tokens: seq<string>, next: string)
    requires |tokens| > 0 && forall i :: 0 <= i < |tokens| ==> IsPlaceholder(tokens[i])
    requires RenderToken(table, q, tokens[0]) == Success(next)
    ensures RenderTokens(table, q, tokens) == RenderTokens(table, next, tokens[1..])
  {
  }

  /** A pass that fails ends the rendering with its error. */
  lemma RenderTokensStop(table: map<string, Value>, q: string, tokens: seq<string>, e: Error)
    requires |tokens| > 0 && forall i :: 0 <= i < |tokens| ==> IsPlaceholder(tokens[i])
    requires RenderToken(table, q, tokens[0]) == Failure(e)
    ensures RenderTokens(table, q, tokens) == Failure(e)
  {
  }

  /** No argument in the table is null. */
  predicate NoNulls(table: map<string, Value>)
  {
    forall name :: name in table ==> !table[name].Null?
  }

  lemma {:induction false} RenderTokensNoNull(table: map<string, Value>, q: string, tokens: seq<string>)
    requires forall i :: 0 <= i < |tokens| ==> IsPlaceholder(tokens[i])
    requires NoNulls(table)
    ensures RenderTokens(table, q, tokens) != Failure(NullReference)
    decreases |tokens|
  {
    if tokens != [] {
      var step := RenderToken(table, q, tokens[0]);
      if step.Success? {
        RenderTokensNoNull(table, step.value, tokens[1..]);
      }
    }
  }

  /**
   * A table filled through Add holds no null (Add stores "null" for it),
   * so rendering from it never dereferences a null argument.
   */
  lemma RenderNoNull(table: map<string, Value>, sql: string)
    requires NoNulls(table)
    ensures Render(table, sql) != Failure(NullReference)
  {
    RenderTokensNoNull(table, sql, Tokens(sql));
  }

  // ---------------------------------------------------------------------
  // The objects
  // ---------------------------------------------------------------------

  /** The part of IDbCommand the renderer touches. */
  class Command {
    var commandText: string

    constructor (commandText: string)
      ensures this.commandText == commandText
    {
      this.commandText := commandText;
    }
  }

  class CustomDynamicParameters {
    var parameters: map<string, Value>

    ghost predicate Valid()
      reads this
    {
      NoNulls(parameters)
    }

    constructor ()
      ensures Valid() && parameters == map[]
    {
      parameters := map[];
    }

    /** Dictionary.Add(name, value ?? "null"): a name may be added once. */
    method Add(name: string, value: Value) returns (r: Outcome<Error>)
      requires Valid()
      modifies this
      ensures Valid()
      ensures name in old(parameters) ==> r == Fail(DuplicateParameter(name)) && parameters == old(parameters)
      ensures name !in old(parameters) ==> r == Pass && parameters == old(parameters)[name := Stored(value)]
    {
      if name in parameters {
        return Fail(DuplicateParameter(name));
      }
      parameters := parameters[name := if value.Null? then Text("null") else value];
      r := Pass;
    }

    /**
     * The command text is replaced only once the whole rendering has
     * succeeded; a dictionary filled through Add never makes it fail on a
     * null argument.
     */
    method AddParameters(command: Command) returns (r: Outcome<Error>)
      requires Valid()
      modifies command
      ensures var rendered := Render(parameters, old(command.commandText));
        && (rendered.Success? ==> r == Pass && command.commandText == rendered.value)
        && (rendered.Failure? ==> r == Fail(rendered.error) && command.commandText == old(command.commandText))
      ensures r != Fail(NullReference)
    {
      RenderNoNull(parameters, command.commandText);
      var sqlWithValue := ReplaceParametersInSql(command.commandText);
      if sqlWithValue.Failure? {
        return Fail(sqlWithValue.error);
      }
      command.commandText := sqlWithValue.value;
      r := Pass;
    }

    /**
     * The placeholders are found once in the original text, then rendered
     * into the query one after the other; the first exception ends it.
     */
    method ReplaceParametersInSql(originalSql: string) returns (r: Result<string, Error>)
      ensures r == Render(parameters, originalSql)
    {
      var query := originalSql;
      var queryParams := Tokens(originalSql);
      for i := 0 to |queryParams|
        invariant RenderTokens(parameters, query, queryParams[i..]) == Render(parameters, originalSql)
      {
        assert queryParams[i..][0] == queryParams[i] && queryParams[i..][1..] == queryParams[i + 1..];
        var next := ReplaceParameter(query, queryParams[i]);
        if next.Failure? {
          RenderTokensStop(parameters, query, queryParams[i..], next.error);
          return Failure(next.error);
        }
        RenderTokensStep(parameters, query, queryParams[i..], next.value);
        query := next.value;
      }
      return Success(query);
    }

    /**
     * One pass of the loop of ReplaceParametersInSql. In a statement that
     * starts with "Insert" the token is searched for with its commas
     * removed; a token with a '.' in it names a property, any other an
     * argument.
     */
    method ReplaceParameter(query: string, queryParam: string) returns (r: Result<string, Error>)
      requires IsPlaceholder(queryParam)
      ensures var t := Working(query, queryParam);
        && (IsTwoPart(t) ==> r == RenderProperty(parameters, query, t))
        && (!IsTwoPart(t) ==> r == RenderArgument(parameters, query, queryParam, t))
      ensures r == RenderToken(parameters, query, queryParam)
    {
      var queryParamTmp := queryParam;
      if IsInsert(query) {
        queryParamTmp := StripCommas(queryParamTmp);
      }
      var param := SplitOn(queryParamTmp, {'.'});
      if |param| > 1 {
        r := ReplaceProperty(query, queryParamTmp);
      } else {
        r := ReplaceArgument(query, queryParam, queryParamTmp);
      }
    }

    /**
     * A ":root.property" token: an unknown root is ParameterNotFound, a null
     * root a NullReference; otherwise the token is replaced by the
     * property's value, quoted when it is declared a string, and by "null"
     * when the root has no such property.
     */
    method ReplaceProperty(query: string, queryParamTmp: string) returns (r: Result<string, Error>)
      requires IsPlaceholder(queryParamTmp)
      ensures var root := RootName(queryParamTmp);
        && (root !in parameters ==> r == Failure(ParameterNotFound(root)))
        && (root in parameters && parameters[root].Null? ==> r == Failure(NullReference))
        && (root in parameters && !parameters[root].Null? ==>
              var property := FindProperty(parameters[root], PropertyName(queryParamTmp));
              && (property.None? ==> r == Success(ReplaceAll(query, queryParamTmp, "null")))
              && (property.Some? && property.value.declared == StringType ==>
                    r == Success(ReplaceAll(query, queryParamTmp, QuotedLiteral(property.value.value))))
              && (property.Some? && property.value.declared != StringType ==>
                    r == Success(ReplaceAll(query, queryParamTmp, Serialize(property.value.value)))))
      ensures r == RenderProperty(parameters, query, queryParamTmp)
    {
      var param := SplitOn(queryParamTmp, {'.'});
      var rootName := RootName(queryParamTmp);
      if rootName !in parameters {
        return Failure(ParameterNotFound(rootName));
      }
      var parameterObject := parameters[rootName];
      if parameterObject.Null? {
        return Failure(NullReference);
      }
      var property := FindProperty(parameterObject, Last(param));
      if property.Some? && property.value.declared == StringType {
        return Success(ReplaceAll(query, queryParamTmp, QuotedLiteral(property.value.value)));
      }
      var paramValue := if property.Some? then property.value.value else Null;
      r := Success(ReplaceAll(query, queryParamTmp, Serialize(paramValue)));
    }

    /**
     * A ":root" token, searched for as queryParamTmp: an unknown or null
     * argument is an error; a number or boolean is written as JSON in place
     * of queryParamTmp; a string, quoted, and a list, parenthesised, in
     * place of the token as found (queryParam); an object is expanded into
     * an INSERT row, and is ParamNotValid in any other statement.
     */
    method ReplaceArgument(query: string, queryParam: string, queryParamTmp: string) returns (r: Result<string, Error>)
      requires IsPlaceholder(queryParam) && IsPlaceholder(queryParamTmp)
      ensures var root := RootName(queryParamTmp);
        && (root !in parameters ==> r == Failure(ParameterNotFound(root)))
        && (root in parameters ==>
              var v := parameters[root];
              && (v.Null? ==> r == Failure(NullReference))
              && (v.Num? ==> r == Success(ReplaceAll(query, queryParamTmp, IntText(v.n))))
              && (v.Bool? ==> r == Success(ReplaceAll(query, queryParamTmp, if v.b then "true" else "false")))
              && (v.Text? ==> r == Success(ReplaceAll(query, queryParam, QuotedLiteral(v))))
              && (v.Seq? ==> r == Success(ReplaceAll(query, queryParam, ListLiteral(v))))
              && (v.Obj? && !IsInsert(query) ==> r == Failure(ParamNotValid))
              && (v.Obj? && IsInsert(query) && InsertData(v.props).Failure? ==> r == Failure(InsertData(v.props).error))
              && (v.Obj? && IsInsert(query) && InsertData(v.props).Success? ==>
                    r == Success(ReplaceAll(query, queryParamTmp, InsertData(v.props).value))))
      ensures r == RenderArgument(parameters, query, queryParam, queryParamTmp)
    {
      var name := RootName(queryParamTmp);
      if name !in parameters {
        return Failure(ParameterNotFound(name));
      }
      var parameter := parameters[name];
      if parameter.Null? {
        return Failure(NullReference);
      }
      if parameter.Num? || parameter.Bool? {
        return Success(ReplaceAll(query, queryParamTmp, Serialize(parameter)));
      }
      if parameter.Text? {
        return Success(ReplaceAll(query, queryParam, QuotedLiteral(parameter)));
      }
      if parameter.Seq? {
        var listString := Serialize(parameter);
        listString := ReplaceChar(listString, listString[0], '(');
        listString := ReplaceChar(listString, listString[|listString| - 1], ')');
        return Success(ReplaceAll(query, queryParam, listString));
      }
      r := ReplaceInsertData(query, parameter.props, queryParamTmp);
    }
  }

  /** The object's properties written out as a row in place of the token. */
  method ReplaceInsertData(query: string, props: seq<Property>, queryParam: string) returns (r: Result<string, Error>)
    requires |queryParam| > 0
    ensures r == InsertExpansion(query, props, queryParam)
  {
    if !IsInsert(query) {
      return Failure(ParamNotValid);
    }
    var insertData := "";
    for i := 0 to |props|
      invariant InsertData(props[..i]) == Success(insertData)
    {
      assert props[..i + 1][..i] == props[..i] && Last(props[..i + 1]) == props[i];
      ghost var before := insertData;
      if |insertData| != 0 {
        insertData := insertData + ",";
      }
      var property := props[i];
      assert insertData == if |before| != 0 then before + "," else before;
      if property.declared == ArrayOrGeneric {
        InsertDataFailureStays(props, i + 1);
        return Failure(CannotConvert(property.name));
      }
      if property.value.Null? {
        insertData := insertData + "null";
        continue;
      }
      if property.declared == StringType {
        insertData := insertData + ("'" + ToText(property.value) + "'");
        continue;
      }
      insertData := insertData + ToText(property.value);
    }
    assert props[..|props|] == props;
    r := Success(ReplaceAll(query, queryParam, insertData));
  }

  /** Once a prefix of the properties fails, the whole expansion fails the same way. */
  lemma {:induction false} InsertDataFailureStays(props: seq<Property>, k: nat)
    requires k <= |props| && InsertData(props[..k]).Failure?
    ensures InsertData(props) == InsertData(props[..k])
    decreases |props| - k
  {
    if k < |props| {
      assert props[..k + 1][..k] == props[..k];
      InsertDataFailureStays(props, k + 1);
    } else {
      assert props[..k] == props;
    }
  }
}
