/**
 * What the rendering of a command text guarantees, and where it surprises:
 * placeholder names, the literals written for each kind of argument, the
 * INSERT row, and the error a rendering can end in.
 */
module DynamicParametersProperties {
  import opened Wrappers
  import opened Text
  import opened Values
  import opened Json
  import opened DynamicParameters

  // ---------------------------------------------------------------------
  // Placeholders
  // ---------------------------------------------------------------------

  /** Every character of every piece comes from the split text. */
  lemma {:induction false} PiecesComeFromText(s: string, seps: set<char>)
    ensures forall i, c :: 0 <= i < |SplitOn(s, seps)| && c in SplitOn(s, seps)[i] ==> c in s
    decreases |s|
  {
    if s != [] {
      PiecesComeFromText(s[1..], seps);
      var rest := SplitOn(s[1..], seps);
      var pieces := SplitOn(s, seps);
      forall i, c | 0 <= i < |pieces| && c in pieces[i] ensures c in s {
        assert s == [s[0]] + s[1..];
        if s[0] in seps {
          assert pieces[i] == if i == 0 then [] else rest[i - 1];
        } else if i == 0 {
          assert pieces[0] == [s[0]] + rest[0];
        } else {
          assert pieces[i] == rest[i];
        }
      }
    }
  }

  /** A text without ':' has no placeholder, and renders to itself whatever the arguments. */
  lemma RenderWithoutMarker(table: map<string, Value>, sql: string)
    requires ':' !in sql
    ensures Tokens(sql) == []
    ensures Render(table, sql) == Success(sql)
  {
    var pieces := SplitOn(sql, Separators);
    PiecesComeFromText(sql, Separators);
    forall i | 0 <= i < |pieces| ensures !IsPlaceholder(pieces[i]) {
      if |pieces[i]| > 0 {
        assert pieces[i][0] in pieces[i];
      }
    }
    NoPlaceholders(pieces);
  }

  lemma {:induction false} NoPlaceholders(pieces: seq<string>)
    requires forall i :: 0 <= i < |pieces| ==> !IsPlaceholder(pieces[i])
    ensures Placeholders(pieces) == []
    decreases |pieces|
  {
    if pieces != [] {
      NoPlaceholders(pieces[1..]);
    }
  }

  /** The text after the last ':' of ":name" is name. */
  lemma ColonRoot(name: string)
    requires NoneIn(name, {':'})
    ensures Last(SplitOn(":" + name, {':'})) == name
  {
    SplitOnSingle(name, {':'});
    assert ":" + name == [] + [':'] + name;
    SplitOnAtSeparator([], ':', name, {':'});
  }

  /** A placeholder ":name" refers to the argument name. */
  lemma RootNameOfSimple(name: string)
    requires NoneIn(name, {':', '.'})
    ensures !IsTwoPart(":" + name)
    ensures RootName(":" + name) == name
  {
    assert NoneIn(":" + name, {'.'});
    SplitOnSingle(":" + name, {'.'});
    ColonRoot(name);
  }

  /** The root of a two-part token is the text after the last ':' of its first part. */
  lemma RootNameOfTwoPart(t: string)
    requires IsTwoPart(t)
    ensures RootName(t) == Last(SplitOn(SplitOn(t, {'.'})[0], {':'}))
  {
  }

  /**
   * A placeholder ":name.path" refers to argument name, and to the property
   * named by the last '.'-segment of path: segments in between are skipped.
   */
  lemma RootNameOfPath(name: string, path: string)
    requires NoneIn(name, {':', '.'})
    ensures IsTwoPart(":" + name + "." + path)
    ensures RootName(":" + name + "." + path) == name
    ensures PropertyName(":" + name + "." + path) == Last(SplitOn(path, {'.'}))
  {
    var head := ":" + name;
    assert NoneIn(head, {'.'});
    PathParts(head, path);
    RootNameOfTwoPart(head + "." + path);
    ColonRoot(name);
    PropertyNameOfPath(head, path);
  }

  lemma PropertyNameOfPath(head: string, path: string)
    requires SplitOn(head + "." + path, {'.'}) == [head] + SplitOn(path, {'.'})
    ensures PropertyName(head + "." + path) == Last(SplitOn(path, {'.'}))
  {
    LastConcat([head], SplitOn(path, {'.'}));
  }

  /** A '.' after a head without one: the head, then the segments of the rest. */
  lemma PathParts(head: string, path: string)
    requires NoneIn(head, {'.'})
    ensures SplitOn(head + "." + path, {'.'}) == [head] + SplitOn(path, {'.'})
  {
    assert head + "." + path == head + ['.'] + path;
    SplitOnAtSeparator(head, '.', path, {'.'});
    SplitOnSingle(head, {'.'});
  }

  /** The comma stripping of INSERT statements leaves every discovered token as it is. */
  lemma WorkingToken(q: string, t: string)
    requires IsToken(t)
    ensures Working(q, t) == t
  {
    if IsInsert(q) {
      assert ',' in Separators;
      ReplaceAllCharAbsent(t, ',', "");
    }
  }

  lemma {:induction false} PlaceholdersConcat(a: seq<string>, b: seq<string>)
    ensures Placeholders(a + b) == Placeholders(a) + Placeholders(b)
    decreases |a|
  {
    if a == [] {
      assert a + b == b;
    } else {
      assert (a + b)[1..] == a[1..] + b;
      PlaceholdersConcat(a[1..], b);
    }
  }

  /**
   * A text with a single placeholder t, set off by separators from text
   * without ':', has t as its only token.
   */
  lemma OnePlaceholder(pre: string, c: char, t: string, suffix: string)
    requires c in Separators && IsToken(t) && ':' !in pre && ':' !in suffix
    requires suffix == [] || suffix[0] in Separators
    ensures Tokens(pre + [c] + t + suffix) == [t]
  {
    RenderWithoutMarker(map[], pre);
    assert pre + [c] + t + suffix == pre + [c] + (t + suffix);
    SplitOnAtSeparator(pre, c, t + suffix, Separators);
    SplitOnSingle(t, Separators);
    var rest: seq<string>;
    if suffix == [] {
      assert t + suffix == t;
      rest := [];
    } else {
      assert t + suffix == t + [suffix[0]] + suffix[1..];
      SplitOnAtSeparator(t, suffix[0], suffix[1..], Separators);
      assert ':' !in suffix[1..];
      RenderWithoutMarker(map[], suffix[1..]);
      rest := SplitOn(suffix[1..], Separators);
    }
    assert SplitOn(t + suffix, Separators) == [t] + rest;
    PlaceholdersConcat(SplitOn(pre, Separators), [t] + rest);
    PlaceholdersConcat([t], rest);
    assert Placeholders([t]) == [t];
  }

  /** Replacing that placeholder touches nothing around it. */
  lemma OnePlaceholderReplaced(pre: string, c: char, t: string, suffix: string, literal: string)
    requires IsPlaceholder(t) && ':' !in pre && c != ':' && ':' !in suffix
    ensures ReplaceAll(pre + [c] + t + suffix, t, literal) == pre + [c] + literal + suffix
  {
    var a := pre + [c];
    ReplaceAllKeepsPrefix(a, t + suffix, t, literal);
    assert a + (t + suffix) == pre + [c] + t + suffix;
    ReplaceAllFirst([], t, suffix, literal);
    assert [] + t + suffix == t + suffix;
    ReplaceAllKeepsPrefix(suffix, [], t, literal);
    assert suffix + [] == suffix;
  }

  // ---------------------------------------------------------------------
  // One step
  // ---------------------------------------------------------------------

  /** A step that succeeds replaces every occurrence of the token by one literal and changes nothing else. */
  lemma StepIsReplacement(table: map<string, Value>, q: string, t: string)
    requires IsToken(t) && RenderToken(table, q, t).Success?
    ensures exists literal :: RenderToken(table, q, t).value == ReplaceAll(q, t, literal)
  {
    WorkingToken(q, t);
    var v := table[RootName(t)];
    var literal;
    if IsTwoPart(t) {
      var found := FindProperty(v, PropertyName(t));
      if found.Some? && found.value.declared == StringType {
        literal := QuotedLiteral(found.value.value);
      } else if found.Some? {
        literal := Serialize(found.value.value);
      } else {
        literal := Serialize(Null);
      }
    } else if v.Text? {
      literal := QuotedLiteral(v);
    } else if v.Seq? {
      literal := ListLiteral(v);
    } else if v.Obj? {
      literal := InsertData(v.props).value;
    } else {
      literal := Serialize(v);
    }
    assert RenderToken(table, q, t).value == ReplaceAll(q, t, literal);
  }

  /**
   * A one-part placeholder ":name" renders the argument name by its kind:
   * numbers and booleans as JSON, strings quoted, lists parenthesised,
   * objects expanded into an INSERT row, and a null argument is an error.
   */
  lemma ArgumentToken(table: map<string, Value>, q: string, name: string)
    requires NoneIn(name, {':', '.'}) && NoneIn(name, Separators) && name in table
    ensures var t := ":" + name;
      var v := table[name];
      && (v.Num? ==> RenderToken(table, q, t) == Success(ReplaceAll(q, t, IntText(v.n))))
      && (v.Bool? ==> RenderToken(table, q, t) == Success(ReplaceAll(q, t, if v.b then "true" else "false")))
      && (v.Text? ==> RenderToken(table, q, t) == Success(ReplaceAll(q, t, QuotedLiteral(v))))
      && (v.Seq? ==> RenderToken(table, q, t) == Success(ReplaceAll(q, t, ListLiteral(v))))
      && (v.Obj? ==> RenderToken(table, q, t) == InsertExpansion(q, v.props, t))
      && (v.Null? ==> RenderToken(table, q, t) == Failure(NullReference))
  {
    var t := ":" + name;
    assert NoneIn(t, Separators);
    WorkingToken(q, t);
    RootNameOfSimple(name);
  }

  /**
   * A two-part placeholder ":name.prop" renders the property prop of
   * argument name: quoted when it is declared a string, JSON otherwise, and
   * "null" when the argument has no such property.
   */
  lemma PropertyToken(table: map<string, Value>, q: string, name: string, prop: string)
    requires NoneIn(name, {':', '.'}) && NoneIn(name, Separators) && NoneIn(prop, {'.'}) && NoneIn(prop, Separators)
    requires name in table && !table[name].Null?
    ensures var t := ":" + name + "." + prop;
      match FindProperty(table[name], prop)
      case None => RenderToken(table, q, t) == Success(ReplaceAll(q, t, "null"))
      case Some(p) =>
        && (p.declared == StringType ==> RenderToken(table, q, t) == Success(ReplaceAll(q, t, QuotedLiteral(p.value))))
        && (p.declared != StringType ==> RenderToken(table, q, t) == Success(ReplaceAll(q, t, Serialize(p.value))))
  {
    var t := ":" + name + "." + prop;
    assert NoneIn(t, Separators) by {
      assert forall k :: 0 <= k < |t| ==> t[k] == ':' || t[k] == '.' || t[k] in name || t[k] in prop;
    }
    WorkingToken(q, t);
    RootNameOfPath(name, prop);
    SplitOnSingle(prop, {'.'});
  }

  /**
   * ParamNotValid is raised exactly for a one-part placeholder whose
   * argument is an object, in a statement that does not start with "Insert".
   */
  lemma ParamNotValidOnlyForObjects(table: map<string, Value>, q: string, t: string)
    requires IsToken(t)
    ensures RenderToken(table, q, t) == Failure(ParamNotValid)
        <==> RootName(t) in table && !IsTwoPart(t) && table[RootName(t)].Obj? && !IsInsert(q)
  {
    WorkingToken(q, t);
  }

  /** A text starting with "Insert" has no ':' among its first six characters. */
  lemma InsertHasNoMarker(q: string)
    requires IsInsert(q)
    ensures ':' !in q[..6]
  {
    forall k | 0 <= k < 6 ensures q[..6][k] != ':' {
      assert LowerAscii(q[k]) == LowerAscii("Insert"[k]);
    }
  }

  /** Replacing a placeholder keeps an INSERT statement an INSERT statement. */
  lemma InsertKept(q: string, p: string, r: string)
    requires IsInsert(q) && IsPlaceholder(p)
    ensures IsInsert(ReplaceAll(q, p, r))
  {
    InsertHasNoMarker(q);
    assert q == q[..6] + q[6..];
    ReplaceAllKeepsPrefix(q[..6], q[6..], p, r);
    var n := ReplaceAll(q, p, r);
    assert n[..6] == q[..6];
    forall k | 0 <= k < 6 ensures LowerAscii(n[k]) == LowerAscii("Insert"[k]) {
      assert n[k] == n[..6][k];
    }
  }

  // ---------------------------------------------------------------------
  // Whole renderings
  // ---------------------------------------------------------------------

  /** Each placeholder of a successful rendering names an argument of the table. */
  lemma {:induction false} RenderTokensBindsEveryRoot(table: map<string, Value>, q: string, tokens: seq<string>)
    requires forall i :: 0 <= i < |tokens| ==> IsPlaceholder(tokens[i])
    requires forall i :: 0 <= i < |tokens| ==> NoneIn(tokens[i], Separators)
    requires RenderTokens(table, q, tokens).Success?
    ensures forall i :: 0 <= i < |tokens| ==> RootName(tokens[i]) in table
    decreases |tokens|
  {
    if tokens != [] {
      WorkingToken(q, tokens[0]);
      var next := RenderToken(table, q, tokens[0]).value;
      RenderTokensBindsEveryRoot(table, next, tokens[1..]);
      forall i | 1 <= i < |tokens| ensures RootName(tokens[i]) in table {
        assert tokens[i] == tokens[1..][i - 1];
      }
    }
  }

  lemma RenderBindsEveryRoot(table: map<string, Value>, sql: string)
    requires Render(table, sql).Success?
    ensures forall t :: t in Tokens(sql) ==> RootName(t) in table
  {
    RenderTokensBindsEveryRoot(table, sql, Tokens(sql));
  }

  /** When the first placeholder names no argument, rendering stops at once with its name. */
  lemma RenderFirstMissing(table: map<string, Value>, sql: string)
    requires Tokens(sql) != [] && RootName(Tokens(sql)[0]) !in table
    ensures Render(table, sql) == Failure(ParameterNotFound(RootName(Tokens(sql)[0])))
  {
    WorkingToken(sql, Tokens(sql)[0]);
  }

  lemma {:induction false} RenderTokensInsert(table: map<string, Value>, q: string, tokens: seq<string>)
    requires forall i :: 0 <= i < |tokens| ==> IsPlaceholder(tokens[i])
    requires forall i :: 0 <= i < |tokens| ==> NoneIn(tokens[i], Separators)
    requires IsInsert(q)
    ensures RenderTokens(table, q, tokens) != Failure(ParamNotValid)
    decreases |tokens|
  {
    if tokens != [] {
      var t := tokens[0];
      ParamNotValidOnlyForObjects(table, q, t);
      var step := RenderToken(table, q, t);
      if step.Success? {
        StepIsReplacement(table, q, t);
        var literal :| step.value == ReplaceAll(q, t, literal);
        InsertKept(q, t, literal);
        RenderTokensInsert(table, step.value, tokens[1..]);
      }
    }
  }

  /** An INSERT statement stays one through every substitution, so it never raises ParamNotValid. */
  lemma RenderInsert(table: map<string, Value>, sql: string)
    requires IsInsert(sql)
    ensures Render(table, sql) != Failure(ParamNotValid)
  {
    RenderTokensInsert(table, sql, Tokens(sql));
  }

  /**
   * Placeholders are replaced by plain text search, so a placeholder that
   * is a prefix of a later one rewrites the later one too: with a = 1 and
   * ab = 2, ":a :ab" renders as "1 1b".
   */
  lemma PrefixPlaceholderClobbers()
    ensures Render(map["a" := Num(1), "ab" := Num(2)], ":a :ab") == Success("1 1b")
  {
    var table := map["a" := Num(1), "ab" := Num(2)];
    var sql := ":a :ab";
    ClobberTokens();
    ClobberFirstStep();
    ClobberSecondStep();
    assert [":a", ":ab"][1..] == [":ab"];
    assert RenderTokens(table, "1 1b", [":ab"]) == RenderTokens(table, "1 1b", []);
    assert RenderTokens(table, sql, [":a", ":ab"]) == RenderTokens(table, "1 1b", [":ab"]);
  }

  lemma ClobberFirstStep()
    ensures RenderToken(map["a" := Num(1), "ab" := Num(2)], ":a :ab", ":a") == Success("1 1b")
  {
    assert NoneIn(":a", Separators);
    WorkingToken(":a :ab", ":a");
    RootNameOfSimple("a");
    assert Serialize(Num(1)) == "1";
    ClobberFirst();
  }

  lemma ClobberSecondStep()
    ensures RenderToken(map["a" := Num(1), "ab" := Num(2)], "1 1b", ":ab") == Success("1 1b")
  {
    assert NoneIn(":ab", Separators);
    WorkingToken("1 1b", ":ab");
    RootNameOfSimple("ab");
    assert forall i :: !OccursAt("1 1b", ":ab", i);
    ReplaceAllAbsent("1 1b", ":ab", "2");
  }

  /** Two placeholders separated by a blank are the template's tokens, in order. */
  lemma TwoTokens(t1: string, t2: string)
    requires IsToken(t1) && IsToken(t2)
    ensures Tokens(t1 + [' '] + t2) == [t1, t2]
  {
    SplitOnAtSeparator(t1, ' ', t2, Separators);
    SplitOnSingle(t1, Separators);
    SplitOnSingle(t2, Separators);
    assert [t1] + [t2] == [t1, t2];
    assert [t1, t2][1..] == [t2];
    assert [t2][1..] == [];
    assert Placeholders([t2]) == [t2];
  }

  lemma ClobberTokens()
    ensures Tokens(":a :ab") == [":a", ":ab"]
  {
    assert ":a :ab" == ":a" + [' '] + ":ab";
    TwoTokens(":a", ":ab");
  }

  lemma ClobberFirst()
    ensures ReplaceAll(":a :ab", ":a", "1") == "1 1b"
  {
    assert ReplaceAll("b", ":a", "1") == "b";
    assert ReplaceAll(":ab", ":a", "1") == "1b";
    assert ReplaceAll(" :ab", ":a", "1") == " 1b";
  }

  // ---------------------------------------------------------------------
  // Literals
  // ---------------------------------------------------------------------

  /** Removing '"' from a text that starts and ends with '\'' keeps those ends. */
  lemma QuotedEnds(j: string)
    ensures ReplaceAll("'" + j + "'", "\"", "") == "'" + ReplaceAll(j, "\"", "") + "'"
  {
    ReplaceAllCharConcat("'" + j, "'", '"', "");
    ReplaceAllCharConcat("'", j, '"', "");
    assert ReplaceAll("'", "\"", "") == "'";
  }

  /** A quoted literal is the JSON form between single quotes, with no '"' left in it. */
  lemma QuotedLiteralShape(v: Value)
    ensures var l := QuotedLiteral(v);
      && l == "'" + ReplaceAll(Serialize(v), "\"", "") + "'"
      && |l| >= 2 && l[0] == '\'' && Last(l) == '\''
      && '"' !in l
  {
    QuotedEnds(Serialize(v));
    ReplaceAllCharRemoves("'" + Serialize(v) + "'", '"', "");
  }

  /**
   * A string of characters JSON leaves alone is written between single
   * quotes as it is. Single quotes inside it are not doubled.
   */
  lemma QuotedPlainText(s: string)
    requires forall i :: 0 <= i < |s| ==> IsPlain(s[i])
    ensures QuotedLiteral(Text(s)) == "'" + s + "'"
  {
    EscapePlain(s);
    var j := Serialize(Text(s));
    assert j == "\"" + s + "\"";
    QuotedEnds(j);
    assert ReplaceAll(j, "\"", "") == s by {
      ReplaceAllCharConcat("\"" + s, "\"", '"', "");
      ReplaceAllCharConcat("\"", s, '"', "");
      ReplaceAllCharAbsent(s, '"', "");
      assert ReplaceAll("\"", "\"", "") == "";
    }
  }

  lemma QuotedExample()
    ensures QuotedLiteral(Text("Ann")) == "'Ann'"
  {
    QuotedPlainText("Ann");
  }

  /**
   * A single quote inside a string is not doubled: the literal for a'b
   * closes its quotes after a.
   */
  lemma QuotedApostrophe(a: string, b: string)
    requires forall i :: 0 <= i < |a| ==> IsPlain(a[i])
    requires forall i :: 0 <= i < |b| ==> IsPlain(b[i])
    ensures QuotedLiteral(Text(a + "'" + b)) == "'" + a + "'" + b + "'"
  {
    var s := a + "'" + b;
    forall i | 0 <= i < |s| ensures IsPlain(s[i]) {
      if i < |a| {
        assert s[i] == a[i];
      } else if i > |a| {
        assert s[i] == b[i - |a| - 1];
      }
    }
    QuotedPlainText(s);
  }

  /** Numbers contribute neither '[' nor ']' to a JSON array. */
  lemma {:induction false} NumbersHaveNoBrackets(elems: seq<Value>)
    requires forall i :: 0 <= i < |elems| ==> elems[i].Num?
    ensures '[' !in SerializeElements(elems) && ']' !in SerializeElements(elems)
    decreases |elems|
  {
    if elems != [] {
      IntTextChars(elems[0].n);
      if |elems| > 1 {
        NumbersHaveNoBrackets(elems[1..]);
      }
    }
  }

  lemma IntTextChars(n: int)
    ensures forall k :: 0 <= k < |IntText(n)| ==> IntText(n)[k] == '-' || IsDigit(IntText(n)[k])
  {
    if n < 0 {
      var t := NatText(-n);
      assert forall k :: 1 <= k < |IntText(n)| ==> IntText(n)[k] == t[k - 1];
    }
  }

  /** A list argument becomes its JSON array with '[' and ']' turned into '(' and ')'. */
  lemma ListLiteralBrackets(typeName: string, elems: seq<Value>)
    ensures var json := Serialize(Seq(typeName, elems));
      ListLiteral(Seq(typeName, elems)) == ReplaceChar(ReplaceChar(json, '[', '('), ']', ')')
  {
    var json := Serialize(Seq(typeName, elems));
    assert json[0] == '[';
    var parenthesised := ReplaceChar(json, '[', '(');
    assert parenthesised[|parenthesised| - 1] == ']';
  }

  /** A list of numbers becomes a parenthesised, comma-separated SQL list. */
  lemma ListOfNumbers(typeName: string, elems: seq<Value>)
    requires forall i :: 0 <= i < |elems| ==> elems[i].Num?
    ensures ListLiteral(Seq(typeName, elems)) == "(" + SerializeElements(elems) + ")"
  {
    ListLiteralBrackets(typeName, elems);
    NumbersHaveNoBrackets(elems);
    var body := SerializeElements(elems);
    var json := "[" + body + "]";
    assert Serialize(Seq(typeName, elems)) == json;
    Rebracket(body, '[', ']', '(', ')');
  }

  lemma ListExample()
    ensures ListLiteral(Seq("Int32[]", [Num(1), Num(2), Num(3)])) == "(1,2,3)"
  {
    ListOfNumbers("Int32[]", [Num(1), Num(2), Num(3)]);
    assert SerializeElements([Num(1), Num(2), Num(3)]) == "1,2,3";
  }

  // ---------------------------------------------------------------------
  // INSERT rows
  // ---------------------------------------------------------------------

  /** The entries joined with ',' between each two. */
  function Join(entries: seq<string>): (row: string)
    ensures |entries| > 0 && |entries[0]| > 0 ==> |row| > 0
  {
    if entries == [] then ""
    else if |entries| == 1 then entries[0]
    else entries[0] + "," + Join(entries[1..])
  }

  lemma {:induction false} JoinSnoc(entries: seq<string>, e: string)
    requires |entries| > 0
    ensures Join(entries + [e]) == Join(entries) + "," + e
    decreases |entries|
  {
    if |entries| == 1 {
      assert entries + [e] == [entries[0], e];
    } else {
      assert (entries + [e])[1..] == entries[1..] + [e];
      JoinSnoc(entries[1..], e);
    }
  }

  function RowEntries(props: seq<Property>): (entries: seq<string>)
    ensures |entries| == |props|
    ensures forall i :: 0 <= i < |props| ==> entries[i] == RowEntry(props[i])
  {
    seq(|props|, i requires 0 <= i < |props| => RowEntry(props[i]))
  }

  /** The row fails exactly when some property is of array or generic type, naming the first one. */
  lemma {:induction false} InsertDataFails(props: seq<Property>)
    ensures InsertData(props).Success? <==> forall i :: 0 <= i < |props| ==> props[i].declared != ArrayOrGeneric
    ensures InsertData(props).Failure? ==>
      exists i :: 0 <= i < |props| && props[i].declared == ArrayOrGeneric
        && (forall j :: 0 <= j < i ==> props[j].declared != ArrayOrGeneric)
        && InsertData(props).error == CannotConvert(props[i].name)
    decreases |props|
  {
    if props != [] {
      var front := props[..|props| - 1];
      InsertDataFails(front);
      assert forall i :: 0 <= i < |front| ==> front[i] == props[i];
      if InsertData(front).Failure? {
        var i :| 0 <= i < |front| && front[i].declared == ArrayOrGeneric
          && (forall j :: 0 <= j < i ==> front[j].declared != ArrayOrGeneric)
          && InsertData(front).error == CannotConvert(front[i].name);
        assert props[i] == front[i];
      }
    }
  }

  /** One more entry: a ',' first unless the row so far is empty. */
  lemma JoinStep(entries: seq<string>, e: string)
    requires |entries| > 0 ==> |entries[0]| > 0
    ensures Join(entries + [e]) == (if |Join(entries)| != 0 then Join(entries) + "," else Join(entries)) + e
  {
    if entries == [] {
      assert entries + [e] == [e];
      assert [] + e == e;
    } else {
      JoinSnoc(entries, e);
    }
  }

  lemma RowEntriesSnoc(props: seq<Property>)
    requires |props| > 0
    ensures RowEntries(props) == RowEntries(props[..|props| - 1]) + [RowEntry(Last(props))]
  {
  }

  /**
   * When no entry is empty and none fails, the row is the entries in
   * declaration order joined with ','.
   */
  lemma {:induction false} InsertDataJoins(props: seq<Property>)
    requires forall i :: 0 <= i < |props| ==> props[i].declared != ArrayOrGeneric
    requires forall i :: 0 <= i < |props| ==> |RowEntry(props[i])| > 0
    ensures InsertData(props) == Success(Join(RowEntries(props)))
    decreases |props|
  {
    if props != [] {
      var front := props[..|props| - 1];
      assert forall i :: 0 <= i < |front| ==> front[i] == props[i];
      InsertDataJoins(front);
      RowEntriesSnoc(props);
      var entries := RowEntries(front);
      assert |entries| > 0 ==> entries[0] == RowEntry(props[0]);
      JoinStep(entries, RowEntry(Last(props)));
    }
  }

  /**
   * The separator is decided by whether the row so far is empty, not by
   * whether an entry came before: an empty first entry loses its comma.
   */
  lemma InsertDataEmptyFirst(p: Property, q: Property)
    requires p.declared != ArrayOrGeneric && q.declared != ArrayOrGeneric
    requires RowEntry(p) == []
    ensures InsertData([p, q]) == Success(RowEntry(q))
  {
    assert [p][..0] == [];
    assert InsertData([p]) == Success([] + RowEntry(p));
    assert [p, q][..1] == [p];
    assert InsertData([p, q]) == Success([] + RowEntry(q));
    assert [] + RowEntry(q) == RowEntry(q);
  }

  lemma InsertDataExample()
    ensures InsertData([Property("Name", StringType, Text("Bob")), Property("Age", OtherType, Num(30))])
         == Success("'Bob',30")
  {
    var props := [Property("Name", StringType, Text("Bob")), Property("Age", OtherType, Num(30))];
    InsertDataJoins(props);
    assert RowEntry(props[0]) == "'Bob'";
    assert IntText(30) == "30";
    assert RowEntry(props[1]) == "30";
    assert RowEntries(props) == ["'Bob'", "30"];
    assert ["'Bob'", "30"][1..] == ["30"];
    assert Join(["'Bob'", "30"]) == "'Bob'" + "," + "30" == "'Bob',30";
  }

  // ---------------------------------------------------------------------
  // Whole templates
  // ---------------------------------------------------------------------

  /** A template whose only placeholder renders to Success(x) renders as x. */
  lemma SingleTokenRender(table: map<string, Value>, sql: string, t: string)
    requires IsPlaceholder(t) && Tokens(sql) == [t]
    ensures Render(table, sql) == RenderToken(table, sql, t)
  {
    assert Tokens(sql)[1..] == [];
    match RenderToken(table, sql, t)
    case Failure(_) =>
    case Success(next) =>
      assert RenderTokens(table, next, []) == Success(next);
  }

  /**
   * A template with one placeholder ":name", set off by separators from
   * text without ':', is the text around it with the argument's literal in
   * its place, or the error the argument raises.
   */
  lemma ArgumentTemplate(table: map<string, Value>, pre: string, c: char, name: string, suffix: string)
    requires c in Separators && ':' !in pre && ':' !in suffix && (suffix == [] || suffix[0] in Separators)
    requires NoneIn(name, {':', '.'}) && NoneIn(name, Separators) && name in table
    ensures var sql := pre + [c] + ":" + name + suffix;
      var v := table[name];
      && (v.Num? ==> Render(table, sql) == Success(pre + [c] + IntText(v.n) + suffix))
      && (v.Bool? ==> Render(table, sql) == Success(pre + [c] + (if v.b then "true" else "false") + suffix))
      && (v.Text? ==> Render(table, sql) == Success(pre + [c] + QuotedLiteral(v) + suffix))
      && (v.Seq? ==> Render(table, sql) == Success(pre + [c] + ListLiteral(v) + suffix))
      && (v.Obj? && IsInsert(sql) && InsertData(v.props).Success? ==>
            Render(table, sql) == Success(pre + [c] + InsertData(v.props).value + suffix))
      && (v.Obj? && IsInsert(sql) && InsertData(v.props).Failure? ==> Render(table, sql) == Failure(InsertData(v.props).error))
      && (v.Obj? && !IsInsert(sql) ==> Render(table, sql) == Failure(ParamNotValid))
      && (v.Null? ==> Render(table, sql) == Failure(NullReference))
  {
    var t := ":" + name;
    var sql := pre + [c] + t + suffix;
    assert pre + [c] + ":" + name + suffix == sql;
    assert NoneIn(t, Separators);
    OnePlaceholder(pre, c, t, suffix);
    SingleTokenRender(table, sql, t);
    ArgumentToken(table, sql, name);
    var v := table[name];
    var literal := match v
      case Num(n) => IntText(n)
      case Bool(b) => if b then "true" else "false"
      case Text(_) => QuotedLiteral(v)
      case Seq(_, _) => ListLiteral(v)
      case Obj(_, props) => if InsertData(props).Success? then InsertData(props).value else ""
      case Null => "";
    OnePlaceholderReplaced(pre, c, t, suffix, literal);
  }

  /**
   * A template with one placeholder ":name.prop" is the text around it
   * with the property's literal in its place.
   */
  lemma PropertyTemplate(table: map<string, Value>, pre: string, c: char, name: string, prop: string, suffix: string)
    requires c in Separators && ':' !in pre && ':' !in suffix && (suffix == [] || suffix[0] in Separators)
    requires NoneIn(name, {':', '.'}) && NoneIn(name, Separators) && NoneIn(prop, {'.'}) && NoneIn(prop, Separators)
    requires name in table
    ensures var sql := pre + [c] + ":" + name + "." + prop + suffix;
      var owner := table[name];
      && (owner.Null? ==> Render(table, sql) == Failure(NullReference))
      && (!owner.Null? && FindProperty(owner, prop).None? ==> Render(table, sql) == Success(pre + [c] + "null" + suffix))
      && (!owner.Null? && FindProperty(owner, prop).Some? && FindProperty(owner, prop).value.declared == StringType ==>
            Render(table, sql) == Success(pre + [c] + QuotedLiteral(FindProperty(owner, prop).value.value) + suffix))
      && (!owner.Null? && FindProperty(owner, prop).Some? && FindProperty(owner, prop).value.declared != StringType ==>
            Render(table, sql) == Success(pre + [c] + Serialize(FindProperty(owner, prop).value.value) + suffix))
  {
    var t := ":" + name + "." + prop;
    var sql := pre + [c] + t + suffix;
    assert pre + [c] + ":" + name + "." + prop + suffix == sql;
    assert NoneIn(t, Separators) by {
      assert forall k :: 0 <= k < |t| ==> t[k] == ':' || t[k] == '.' || t[k] in name || t[k] in prop;
    }
    OnePlaceholder(pre, c, t, suffix);
    SingleTokenRender(table, sql, t);
    var owner := table[name];
    if owner.Null? {
      WorkingToken(sql, t);
      RootNameOfPath(name, prop);
    } else {
      PropertyToken(table, sql, name, prop);
      var literal := match FindProperty(owner, prop)
        case None => "null"
        case Some(p) => if p.declared == StringType then QuotedLiteral(p.value) else Serialize(p.value);
      OnePlaceholderReplaced(pre, c, t, suffix, literal);
    }
  }

  // ---------------------------------------------------------------------
  // A rendered text can still hold ':'
  // ---------------------------------------------------------------------

  /**
   * A placeholder not preceded by ' ', ',', '(' or ')' is never found: a
   * text with no separator that does not itself start with ':' renders
   * unchanged, whatever ':' it holds.
   */
  lemma UnseparatedMarkerKept(table: map<string, Value>, sql: string)
    requires NoneIn(sql, Separators) && (sql == [] || sql[0] != ':')
    ensures Tokens(sql) == []
    ensures Render(table, sql) == Success(sql)
  {
    SplitOnSingle(sql, Separators);
    assert SplitOn(sql, Separators) == [sql];
    assert Placeholders([sql]) == [] + Placeholders([sql][1..]);
  }

  /** "x=:a" keeps its placeholder although a is bound. */
  lemma UnseparatedMarkerExample()
    ensures Render(map["a" := Num(1)], "x=:a") == Success("x=:a")
  {
    UnseparatedMarkerKept(map["a" := Num(1)], "x=:a");
  }

  /**
   * A string argument made of characters JSON leaves alone is written
   * between single quotes as it is.
   */
  lemma PlainTextArgumentQuoted(table: map<string, Value>, pre: string, c: char, name: string, suffix: string, text: string)
    requires c in Separators && ':' !in pre && ':' !in suffix && (suffix == [] || suffix[0] in Separators)
    requires NoneIn(name, {':', '.'}) && NoneIn(name, Separators)
    requires name in table && table[name] == Text(text)
    requires forall i :: 0 <= i < |text| ==> IsPlain(text[i])
    ensures Render(table, pre + [c] + ":" + name + suffix) == Success(pre + [c] + "'" + text + "'" + suffix)
  {
    ArgumentTemplate(table, pre, c, name, suffix);
    QuotedPlainText(text);
    QuotedInPlace(pre + [c], text, suffix);
  }

  lemma QuotedInPlace(before: string, text: string, after: string)
    ensures before + ("'" + text + "'") + after == before + "'" + text + "'" + after
  {
  }

  /** So a ':' in such an argument survives the rendering. */
  lemma MarkerInArgumentKept(table: map<string, Value>, pre: string, c: char, name: string, suffix: string, text: string)
    requires c in Separators && ':' !in pre && ':' !in suffix && (suffix == [] || suffix[0] in Separators)
    requires NoneIn(name, {':', '.'}) && NoneIn(name, Separators)
    requires name in table && table[name] == Text(text)
    requires forall i :: 0 <= i < |text| ==> IsPlain(text[i])
    ensures Render(table, pre + [c] + ":" + name + suffix) == Success(pre + [c] + "'" + text + "'" + suffix)
    ensures ':' in text ==> ':' in Render(table, pre + [c] + ":" + name + suffix).value
  {
    PlainTextArgumentQuoted(table, pre, c, name, suffix, text);
    if ':' in text {
      var i :| 0 <= i < |text| && text[i] == ':';
      var rendered := pre + [c] + "'" + text + "'" + suffix;
      assert rendered[|pre| + 2 + i] == ':';
    }
  }

  /** An argument ":b" bound to a leaves ':' in the rendering of " :a". */
  lemma MarkerInArgumentExample()
    ensures Render(map["a" := Text(":b")], " :a") == Success(" ':b'")
  {
    MarkerInArgumentKept(map["a" := Text(":b")], [], ' ', "a", [], ":b");
    assert [] + [' '] + ":" + "a" + [] == " :a";
    assert [] + [' '] + "'" + ":b" + "'" + [] == " ':b'";
  }
}
