# Dynamic repositories and SQL parameter rendering, in Dafny

DynamicLayerArchitectureForNetCore lets an application declare a
repository as a C# interface whose methods carry a `[Query("…")]`
attribute. At start-up, `DynamicRepository.CreateRepository` emits a proxy
class for the interface. Each generated method packs its arguments into a
name-to-value dictionary and hands it, with the method's query and the
`DapperLogger` the proxy was built with, to the query executor. Before a
command reaches the database, `CustomDynamicParameters` rewrites its text:
every `:name` and `:name.Property` placeholder becomes a SQL literal built
from the argument of that name.

This project models both halves and proves what they do.

- `text.dfy` (module `Text`) holds the .NET string operations the renderer
  relies on:
  - `String.Split(char[])` as `SplitOn`;
  - `StringBuilder.Replace(string, string)` as `ReplaceAll`;
  - `StringBuilder.Replace(char, char)` as `ReplaceChar`;
  - `StartsWith("Insert", InvariantCultureIgnoreCase)` as
    `StartsWithIgnoreCase`.
- `values.dfy` (module `Values`) holds the boxed arguments:
  - the values are integers, booleans, strings, collections, plain objects
    with declared property types, and null;
  - `Type.GetProperty` is `FindProperty`;
  - `Object.ToString` is `ToText`;
  - the decimal form of integers is `IntText`.
- `json.dfy` (module `Json`) is a stand-in for
  `JsonConvert.SerializeObject` with default settings, limited to those
  values. Strings are escaped as section 7 of RFC 8259 describes.
- `dynamic_parameters.dfy` (module `DynamicParameters`) contains:
  - the class `CustomDynamicParameters`, whose dictionary is a `map` field
    updated by `Add`;
  - `AddParameters`, which writes the rendered text into a `Command`;
  - the loop of `ReplaceParametersInSql` and the loop of
    `ReplaceInsertData`.

  `ReplaceParametersInSql` is proved equal to the specification function
  `Render`. The three methods that make up one pass of its loop are proved
  equal to `RenderToken`, `RenderProperty` and `RenderArgument`, and
  `ReplaceInsertData` to `InsertExpansion`. `Add` and `AddParameters` are
  specified by the new state they leave: the dictionary, and the command
  text.
- `dynamic_parameters_properties.dfy` holds what those functions
  guarantee, and where they surprise.
- `dynamic_repository.dfy` (module `DynamicRepository`) contains:
  - the proxy type that `CreateRepository` builds, with one `Override` per
    interface method;
  - the loop that builds that type;
  - the call of a generated method (`Invoke`), with the query executor
    passed in as a function.
- `dynamic_repository_properties.dfy` holds what the built proxy and its
  calls guarantee.

Errors that the C# code raises as exceptions are modelled as values:
- `Failure(…)` of a `Result`;
- `Fail(…)` of an `Outcome`.

The code behaves as follows, and the model follows it:
- The text is split only on `' '`, `','`, `'('` and `')'`, not on all
  whitespace. A placeholder followed by a newline or a `;` keeps that
  character and is looked up with it.
- The comma stripping of INSERT statements is a no-op: a token obtained by
  splitting on `','` contains no comma (`WorkingToken`).
- A missing property of `:name.prop` is rendered as `null`. The code uses
  `?.GetValue` and serializes the resulting null, so it raises no "property
  not found" error (`PropertyToken`).
- Of `:name.a.b`, only the last segment `b` is looked up on the argument
  (`RootNameOfPath`).
- A list literal replaces every occurrence of the JSON text's first and
  last characters, not only the two ends (`ListLiteral`).
- An object argument outside an INSERT statement raises "Param not
  valid" (`ParamNotValid`).
- Overloaded interface method names make `Type.GetMethod(name)` throw, so
  the proxy cannot be built (`AmbiguousMethod`).
- An interface method declared `void` cannot be proxied either:
  `Execute` is instantiated with the method's return type, and
  `MakeGenericMethod(typeof(void))` throws (`VoidReturn`,
  `VoidMethodRejected`).
- Placeholders are substituted by plain text search, one after the other.
  A placeholder that is a prefix of a later one rewrites that one too
  (`PrefixPlaceholderClobbers`). A single quote inside a string argument
  is not doubled (`QuotedApostrophe`).
- A successful rendering can still contain ':'. A ':' inside a string
  argument is copied into the text (`MarkerInArgumentKept`: ":b" bound to
  `a` renders " :a" as " ':b'"). A placeholder not preceded by ' ', ',',
  '(' or ')' is never found, so "x=:a" stays "x=:a" (`UnseparatedMarkerKept`).

## Model

Members marked "defined by its body" carry no contract of their own; they
are the reference definitions the methods are proved equal to, and the
lemmas named in the row state what they guarantee.

| member | source | states |
|---|---|---|
| Text.SplitOn | DynamicLayerArchitectureForNetCore/Config/SqlConfig/CustomDynamicParameters.cs:32-33 | splitting always yields at least one piece, and no piece contains a separator |
| Text.SplitOnWeave | DynamicLayerArchitectureForNetCore/Config/SqlConfig/CustomDynamicParameters.cs:32-33 | splitting loses nothing: putting the separators back between the pieces gives the original text, with one piece more than separators |
| Text.SplitOnSingle | DynamicLayerArchitectureForNetCore/Config/SqlConfig/CustomDynamicParameters.cs:42-44 | a text splits into one piece exactly when it has no separator, and that piece is the text |
| Text.FirstPieceIsPrefix | DynamicLayerArchitectureForNetCore/Config/SqlConfig/CustomDynamicParameters.cs:47 | the first piece is the prefix up to the first separator; a second piece exists exactly when that separator does |
| Text.LastPieceIsSuffix | DynamicLayerArchitectureForNetCore/Config/SqlConfig/CustomDynamicParameters.cs:49 | the last piece is the suffix after the last separator; it follows a separator exactly when there are several pieces |
| Text.SplitOnAtSeparator | DynamicLayerArchitectureForNetCore/Config/SqlConfig/CustomDynamicParameters.cs:32-33 | splitting a + [c] + b at a separator c gives the pieces of a followed by the pieces of b |
| Text.ReplaceAllAbsent | DynamicLayerArchitectureForNetCore/Config/SqlConfig/CustomDynamicParameters.cs:65 | replacing a pattern that does not occur leaves the text unchanged |
| Text.ReplaceAllCharAbsent | DynamicLayerArchitectureForNetCore/Config/SqlConfig/CustomDynamicParameters.cs:40 | a one-character pattern absent from the text occurs nowhere in it, and replacing it changes nothing |
| Text.ReplaceAllKeepsPrefix | DynamicLayerArchitectureForNetCore/Config/SqlConfig/CustomDynamicParameters.cs:65 | text before the first character of the pattern can start no occurrence, so it is kept as it is |
| Text.ReplaceAllFirst | DynamicLayerArchitectureForNetCore/Config/SqlConfig/CustomDynamicParameters.cs:65 | the first occurrence is replaced, the text before it is kept, and the search resumes after it |
| Text.ReplaceAllCharConcat | DynamicLayerArchitectureForNetCore/Config/SqlConfig/CustomDynamicParameters.cs:55 | removing or replacing a single character works on each part of a text independently |
| Text.ReplaceAllCharRemoves | DynamicLayerArchitectureForNetCore/Config/SqlConfig/CustomDynamicParameters.cs:55 | after the replacement no occurrence of the character is left, unless the replacement itself contains it |
| Text.ReplaceCharIsReplaceAll | DynamicLayerArchitectureForNetCore/Config/SqlConfig/CustomDynamicParameters.cs:80-81 | the character overload of Replace agrees with the string overload on one-character patterns |
| Text.Rebracket | DynamicLayerArchitectureForNetCore/Config/SqlConfig/CustomDynamicParameters.cs:80-81 | rewriting the opening and then the closing delimiter of a text whose body contains neither swaps exactly those two characters |
| Values.FindProperty | DynamicLayerArchitectureForNetCore/Config/SqlConfig/CustomDynamicParameters.cs:48-50 | a property is found only on an object, and then it is one of its properties with that name; none is found exactly when no property has that name |
| Values.NatText | DynamicLayerArchitectureForNetCore/Config/SqlConfig/CustomDynamicParameters.cs:65 | a decimal form is non-empty, all digits, and has no leading zero |
| Values.NatTextRoundTrip | DynamicLayerArchitectureForNetCore/Config/SqlConfig/CustomDynamicParameters.cs:65 | the digits of n read back as n |
| Values.IntTextRoundTrip | DynamicLayerArchitectureForNetCore/Config/SqlConfig/CustomDynamicParameters.cs:65 | the decimal form of any integer, negative ones with '-', reads back as that integer |
| Json.HexRoundTrip | DynamicLayerArchitectureForNetCore/Config/SqlConfig/CustomDynamicParameters.cs:72 | the four-digit hexadecimal form of a \u escape reads back as the character code |
| Json.EscapeRoundTrip | DynamicLayerArchitectureForNetCore/Config/SqlConfig/CustomDynamicParameters.cs:72 | escaping a string for JSON loses nothing: reading the escapes back gives the original string |
| Json.EscapePlain | DynamicLayerArchitectureForNetCore/Config/SqlConfig/CustomDynamicParameters.cs:72 | characters that need no escape are written as they are |
| Json.Serialize | DynamicLayerArchitectureForNetCore/Config/SqlConfig/CustomDynamicParameters.cs:58 | every value serializes to a non-empty text |
| Json.SerializeText | DynamicLayerArchitectureForNetCore/Config/SqlConfig/CustomDynamicParameters.cs:72 | a string serializes to a double-quoted text whose inside reads back as the string |
| Json.SerializeNum | DynamicLayerArchitectureForNetCore/Config/SqlConfig/CustomDynamicParameters.cs:65 | a number serializes to a text that reads back as the number |
| DynamicParameters.Placeholders | DynamicLayerArchitectureForNetCore/Config/SqlConfig/CustomDynamicParameters.cs:32-33 | the kept pieces are exactly the pieces that start with ':' |
| DynamicParameters.Tokens | DynamicLayerArchitectureForNetCore/Config/SqlConfig/CustomDynamicParameters.cs:32-33 | every token found in a command text starts with ':' |
| DynamicParameters.TokensAreTokens | DynamicLayerArchitectureForNetCore/Config/SqlConfig/CustomDynamicParameters.cs:32-33 | no token found in a command text contains a separator |
| DynamicParameters.StripCommas | DynamicLayerArchitectureForNetCore/Config/SqlConfig/CustomDynamicParameters.cs:38-41 | removing commas keeps a placeholder a placeholder |
| DynamicParameters.Working | DynamicLayerArchitectureForNetCore/Config/SqlConfig/CustomDynamicParameters.cs:37-41 | the token a loop pass works with is still a placeholder, in INSERT statements and elsewhere |
| DynamicParameters.InsertData | DynamicLayerArchitectureForNetCore/Config/SqlConfig/CustomDynamicParameters.cs:99-122 | building a row can fail only with the "cannot convert" error |
| DynamicParameters.Stored | DynamicLayerArchitectureForNetCore/Config/SqlConfig/CustomDynamicParameters.cs:19 | the stored value is never null: null becomes the string "null", anything else is kept |
| DynamicParameters.InsertDataFailureStays | DynamicLayerArchitectureForNetCore/Config/SqlConfig/CustomDynamicParameters.cs:103-106 | once a property cannot be converted, building the whole row fails with that error |
| DynamicParameters.CustomDynamicParameters.constructor | DynamicLayerArchitectureForNetCore/Config/SqlConfig/CustomDynamicParameters.cs:15 | a new parameter set has an empty dictionary, which holds no null |
| DynamicParameters.CustomDynamicParameters.Add | DynamicLayerArchitectureForNetCore/Config/SqlConfig/CustomDynamicParameters.cs:17-20 | a new name is stored with its value, a null as "null"; a name already present fails and leaves the dictionary unchanged; the dictionary never holds null |
| DynamicParameters.CustomDynamicParameters.AddParameters | DynamicLayerArchitectureForNetCore/Config/SqlConfig/CustomDynamicParameters.cs:22-27 | the command text becomes the rendering of its old text; when rendering fails, the error is returned and the text is left as it was; a dictionary filled through Add never makes it fail with a null reference |
| DynamicParameters.CustomDynamicParameters.ReplaceParametersInSql | DynamicLayerArchitectureForNetCore/Config/SqlConfig/CustomDynamicParameters.cs:29-90 | the result is Render: the tokens found once in the original text, substituted in order into the text built so far, stopping at the first error |
| DynamicParameters.CustomDynamicParameters.ReplaceParameter | DynamicLayerArchitectureForNetCore/Config/SqlConfig/CustomDynamicParameters.cs:35-87 | one loop pass equals RenderToken: in an INSERT statement the token is searched for without its commas; a token with a '.' goes to the property branch, any other to the argument branch |
| DynamicParameters.CustomDynamicParameters.ReplaceProperty | DynamicLayerArchitectureForNetCore/Config/SqlConfig/CustomDynamicParameters.cs:44-61 | the two-part branch equals RenderProperty: an unknown root is ParameterNotFound, a null root NullReference; otherwise the token is replaced by the property's value, quoted when declared a string, JSON when not, and "null" when the root has no such property |
| DynamicParameters.CustomDynamicParameters.ReplaceArgument | DynamicLayerArchitectureForNetCore/Config/SqlConfig/CustomDynamicParameters.cs:62-86 | the one-part branch equals RenderArgument: an unknown argument is ParameterNotFound, a null one NullReference; a number becomes its decimal digits and a boolean "true" or "false"; a string is quoted and a list parenthesised in place of the token as found; an object becomes an INSERT row, or ParamNotValid outside INSERT |
| DynamicParameters.ReplaceInsertData | DynamicLayerArchitectureForNetCore/Config/SqlConfig/CustomDynamicParameters.cs:92-124 | the result equals InsertExpansion: "Param not valid" outside an INSERT statement, otherwise the row built by InsertData substituted for every occurrence of the token |
| DynamicParametersProperties.PiecesComeFromText | DynamicLayerArchitectureForNetCore/Config/SqlConfig/CustomDynamicParameters.cs:32-33 | every character of every piece occurs in the split text |
| DynamicParametersProperties.RenderWithoutMarker | DynamicLayerArchitectureForNetCore/Config/SqlConfig/CustomDynamicParameters.cs:29-90 | a text without ':' has no placeholder and renders to itself, whatever the arguments |
| DynamicParametersProperties.ColonRoot | DynamicLayerArchitectureForNetCore/Config/SqlConfig/CustomDynamicParameters.cs:62 | the text after the last ':' of ":name" is name |
| DynamicParametersProperties.RootNameOfSimple | DynamicLayerArchitectureForNetCore/Config/SqlConfig/CustomDynamicParameters.cs:42-44 | a placeholder ":name" is one-part and refers to the argument name |
| DynamicParametersProperties.RootNameOfPath | DynamicLayerArchitectureForNetCore/Config/SqlConfig/CustomDynamicParameters.cs:42-50 | ":name.path" is two-part, refers to argument name, and looks up the property named by the last '.'-segment of path |
| DynamicParametersProperties.WorkingToken | DynamicLayerArchitectureForNetCore/Config/SqlConfig/CustomDynamicParameters.cs:37-41 | the comma stripping of INSERT statements leaves every discovered token unchanged |
| DynamicParametersProperties.OnePlaceholder | DynamicLayerArchitectureForNetCore/Config/SqlConfig/CustomDynamicParameters.cs:32-33 | a placeholder set off by separators, in text without ':', is the only token found |
| DynamicParametersProperties.OnePlaceholderReplaced | DynamicLayerArchitectureForNetCore/Config/SqlConfig/CustomDynamicParameters.cs:65 | substituting that placeholder leaves the text around it untouched |
| DynamicParametersProperties.TwoTokens | DynamicLayerArchitectureForNetCore/Config/SqlConfig/CustomDynamicParameters.cs:32-33 | two placeholders separated by a blank are found in text order |
| DynamicParametersProperties.StepIsReplacement | DynamicLayerArchitectureForNetCore/Config/SqlConfig/CustomDynamicParameters.cs:44-86 | a successful loop pass replaces every occurrence of the token by a single literal and changes nothing else |
| DynamicParametersProperties.ArgumentToken | DynamicLayerArchitectureForNetCore/Config/SqlConfig/CustomDynamicParameters.cs:62-86 | ":name" renders by the argument's kind: numbers and booleans as JSON, strings quoted, lists parenthesised, objects as an INSERT row; a null argument is an error |
| DynamicParametersProperties.PropertyToken | DynamicLayerArchitectureForNetCore/Config/SqlConfig/CustomDynamicParameters.cs:44-58 | ":name.prop" renders the property quoted when it is declared a string, as JSON otherwise, and as null when there is no such property |
| DynamicParametersProperties.ParamNotValidOnlyForObjects | DynamicLayerArchitectureForNetCore/Config/SqlConfig/CustomDynamicParameters.cs:86-97 | "Param not valid" is raised exactly for a one-part token whose argument is an object, in a statement that does not start with "Insert" |
| DynamicParametersProperties.InsertHasNoMarker | DynamicLayerArchitectureForNetCore/Config/SqlConfig/CustomDynamicParameters.cs:38 | the first six characters of an INSERT statement contain no ':' |
| DynamicParametersProperties.InsertKept | DynamicLayerArchitectureForNetCore/Config/SqlConfig/CustomDynamicParameters.cs:94 | substituting a placeholder keeps an INSERT statement an INSERT statement |
| DynamicParametersProperties.RenderTokensBindsEveryRoot | DynamicLayerArchitectureForNetCore/Config/SqlConfig/CustomDynamicParameters.cs:47 | every token of a successful rendering names an argument in the dictionary |
| DynamicParametersProperties.RenderBindsEveryRoot | DynamicLayerArchitectureForNetCore/Config/SqlConfig/CustomDynamicParameters.cs:62 | every placeholder of a successfully rendered text names an argument in the dictionary |
| DynamicParametersProperties.RenderFirstMissing | DynamicLayerArchitectureForNetCore/Config/SqlConfig/CustomDynamicParameters.cs:62 | when the first placeholder names no argument, rendering stops at once with that name |
| DynamicParameters.RenderTokensNoNull | DynamicLayerArchitectureForNetCore/Config/SqlConfig/CustomDynamicParameters.cs:48 | rendering from a dictionary without null never dereferences null |
| DynamicParameters.RenderNoNull | DynamicLayerArchitectureForNetCore/Config/SqlConfig/CustomDynamicParameters.cs:19 | a dictionary filled through Add holds no null, so its renderings never dereference one |
| DynamicParametersProperties.RenderTokensInsert | DynamicLayerArchitectureForNetCore/Config/SqlConfig/CustomDynamicParameters.cs:94-97 | in an INSERT statement, no loop pass raises "Param not valid" |
| DynamicParametersProperties.RenderInsert | DynamicLayerArchitectureForNetCore/Config/SqlConfig/CustomDynamicParameters.cs:94-97 | rendering an INSERT statement never raises "Param not valid" |
| DynamicParametersProperties.PrefixPlaceholderClobbers | DynamicLayerArchitectureForNetCore/Config/SqlConfig/CustomDynamicParameters.cs:65 | with a = 1 and ab = 2, ":a :ab" renders as "1 1b": a placeholder that is a prefix of a later one rewrites it |
| DynamicParametersProperties.QuotedLiteralShape | DynamicLayerArchitectureForNetCore/Config/SqlConfig/CustomDynamicParameters.cs:71-73 | a quoted literal is the JSON text between single quotes with every '"' removed, and contains no '"' |
| DynamicParametersProperties.QuotedPlainText | DynamicLayerArchitectureForNetCore/Config/SqlConfig/CustomDynamicParameters.cs:71-73 | a string of characters that need no JSON escape is written between single quotes as it is |
| DynamicParametersProperties.QuotedExample | DynamicLayerArchitectureForNetCore/Config/SqlConfig/CustomDynamicParameters.cs:71-73 | the string Ann becomes 'Ann' |
| DynamicParametersProperties.QuotedApostrophe | DynamicLayerArchitectureForNetCore/Config/SqlConfig/CustomDynamicParameters.cs:71-73 | a single quote inside a string is not doubled: a'b becomes 'a'b' |
| DynamicParametersProperties.IntTextChars | DynamicLayerArchitectureForNetCore/Config/SqlConfig/CustomDynamicParameters.cs:65 | the JSON text of a number has only digits and '-' |
| DynamicParametersProperties.ListLiteralBrackets | DynamicLayerArchitectureForNetCore/Config/SqlConfig/CustomDynamicParameters.cs:79-81 | a list literal is the JSON array with every '[' turned into '(' and then every ']' into ')' |
| DynamicParametersProperties.ListOfNumbers | DynamicLayerArchitectureForNetCore/Config/SqlConfig/CustomDynamicParameters.cs:77-82 | a list of numbers becomes "(" + its comma-separated numbers + ")" |
| DynamicParametersProperties.ListExample | DynamicLayerArchitectureForNetCore/Config/SqlConfig/CustomDynamicParameters.cs:77-82 | the list [1, 2, 3] becomes (1,2,3) |
| DynamicParametersProperties.JoinSnoc | DynamicLayerArchitectureForNetCore/Config/SqlConfig/CustomDynamicParameters.cs:102 | joining one more entry onto a non-empty list of entries adds a ',' and the entry |
| DynamicParametersProperties.JoinStep | DynamicLayerArchitectureForNetCore/Config/SqlConfig/CustomDynamicParameters.cs:102 | one more entry is preceded by ',' exactly when the row so far is non-empty |
| DynamicParametersProperties.InsertDataFails | DynamicLayerArchitectureForNetCore/Config/SqlConfig/CustomDynamicParameters.cs:100-106 | a row fails exactly when some property has an array or generic type, and the error names the first such property |
| DynamicParametersProperties.InsertDataJoins | DynamicLayerArchitectureForNetCore/Config/SqlConfig/CustomDynamicParameters.cs:99-122 | when no entry fails and none is empty, the row is the entries in declaration order joined with ',' |
| DynamicParametersProperties.InsertDataEmptyFirst | DynamicLayerArchitectureForNetCore/Config/SqlConfig/CustomDynamicParameters.cs:102 | the comma depends on whether the row so far is empty: an empty first entry loses its comma |
| DynamicParametersProperties.InsertDataExample | DynamicLayerArchitectureForNetCore/Config/SqlConfig/CustomDynamicParameters.cs:99-122 | an object with Name = "Bob" (a string) and Age = 30 becomes the row 'Bob',30 |
| DynamicParametersProperties.ArgumentTemplate | DynamicLayerArchitectureForNetCore/Config/SqlConfig/CustomDynamicParameters.cs:29-90 | a command text with one placeholder ":name" renders to the surrounding text with the argument's literal in its place, or to the error that argument raises |
| DynamicParametersProperties.PropertyTemplate | DynamicLayerArchitectureForNetCore/Config/SqlConfig/CustomDynamicParameters.cs:29-61 | a command text with one placeholder ":name.prop" renders to the surrounding text with the property's literal in its place, or fails on a null argument |
| DynamicRepository.ParameterTypes | DynamicLayerArchitectureForNetCore/Config/SqlConfig/DynamicRepository.cs:61-64 | the override's parameter types are the interface method's, in order |
| DynamicRepository.ParameterNames | DynamicLayerArchitectureForNetCore/Config/SqlConfig/DynamicRepository.cs:77-81 | the override's parameter names are the interface method's, in order |
| DynamicRepository.IndexOf | DynamicLayerArchitectureForNetCore/Config/SqlConfig/DynamicRepository.cs:117 | the index found is that of the first method with the name, or the end when there is none |
| DynamicRepository.CreateRepository | DynamicLayerArchitectureForNetCore/Config/SqlConfig/DynamicRepository.cs:9-26 | the loop over the interface methods returns Build: the proxy, or the error of the first method without a query, returning void, or overloaded |
| DynamicRepository.DefineOverridesFailureStays | DynamicLayerArchitectureForNetCore/Config/SqlConfig/DynamicRepository.cs:59-120 | once defining a method fails, building the type fails with that error |
| DynamicRepository.BuildParameters | DynamicLayerArchitectureForNetCore/Config/SqlConfig/DynamicRepository.cs:68-90 | the dictionary filled by one Add per parameter equals ParameterMap, including its duplicate-key error |
| DynamicRepository.ParameterMapFailureStays | DynamicLayerArchitectureForNetCore/Config/SqlConfig/DynamicRepository.cs:77-90 | once an Add fails, the whole call fails with that error |
| DynamicRepository.Invoke | DynamicLayerArchitectureForNetCore/Config/SqlConfig/DynamicRepository.cs:66-115 | a call of override k hands the executor the proxy's DapperLogger, the argument dictionary, the method's query and its return type, and returns the executor's result as it is |
| DynamicRepositoryProperties.DistinctSnoc | DynamicLayerArchitectureForNetCore/Config/SqlConfig/DynamicRepository.cs:77-90 | names stay distinct after one more exactly when the new name is not among the earlier ones |
| DynamicRepositoryProperties.ParameterMapPairs | DynamicLayerArchitectureForNetCore/Config/SqlConfig/DynamicRepository.cs:68-90 | the dictionary is built exactly when the names are distinct; its keys are then the names, and the i-th name maps to the i-th argument |
| DynamicRepositoryProperties.ParameterMapFirstDuplicate | DynamicLayerArchitectureForNetCore/Config/SqlConfig/DynamicRepository.cs:77-90 | a failed call reports the first name that repeats an earlier one |
| DynamicRepositoryProperties.DefineOverrideSpec | DynamicLayerArchitectureForNetCore/Config/SqlConfig/DynamicRepository.cs:59-119 | a method can be defined exactly when it has a Query attribute, does not return void, and its name is not overloaded; the override copies its signature and query and is bound to that method; the attribute is checked first, then the return type, then the name, and "method not found" never happens |
| DynamicRepositoryProperties.DefineOverridesSuccess | DynamicLayerArchitectureForNetCore/Config/SqlConfig/DynamicRepository.cs:59-120 | the first n methods get one override each, in order, exactly when each of them can be defined |
| DynamicRepositoryProperties.DefineOverridesFailure | DynamicLayerArchitectureForNetCore/Config/SqlConfig/DynamicRepository.cs:59-120 | otherwise the error is that of the first method that cannot be defined |
| DynamicRepositoryProperties.BuildSucceeds | DynamicLayerArchitectureForNetCore/Config/SqlConfig/DynamicRepository.cs:9-26 | CreateRepository succeeds exactly when every method has a Query attribute and a non-void return type, and no method name occurs twice |
| DynamicRepositoryProperties.BuildMatchesInterface | DynamicLayerArchitectureForNetCore/Config/SqlConfig/DynamicRepository.cs:12-25 | the proxy is named after the interface plus "Proxy", implements it, holds the resolved DapperLogger, and has one override per interface method, with that method's query and non-void return type, bound to that method |
| DynamicRepositoryProperties.BuildFirstError | DynamicLayerArchitectureForNetCore/Config/SqlConfig/DynamicRepository.cs:94-119 | a failed build reports the first method that cannot be defined: a missing query when it has no attribute, a void return when it returns void, an ambiguous match when its name is overloaded |
| DynamicRepositoryProperties.CallReachesExecutor | DynamicLayerArchitectureForNetCore/Config/SqlConfig/DynamicRepository.cs:66-115 | calling a built proxy's method with distinct parameter names gives the executor a dictionary with exactly those names as keys, each mapped to its argument, together with the method's query |
| DynamicParameters.IsInsert | DynamicLayerArchitectureForNetCore/Config/SqlConfig/CustomDynamicParameters.cs:38 | defined by its body: the text starts with "Insert" in any letter case; InsertKept and RenderInsert state what follows from it |
| DynamicParameters.RootName | DynamicLayerArchitectureForNetCore/Config/SqlConfig/CustomDynamicParameters.cs:42-47 | defined by its body: the argument a token names; RootNameOfSimple and RootNameOfPath state which text that is |
| DynamicParameters.PropertyName | DynamicLayerArchitectureForNetCore/Config/SqlConfig/CustomDynamicParameters.cs:48-50 | defined by its body: the property a two-part token names; RootNameOfPath states it is the last '.'-segment |
| DynamicParameters.QuotedLiteral | DynamicLayerArchitectureForNetCore/Config/SqlConfig/CustomDynamicParameters.cs:52-55 | defined by its body: a string literal for SQL; QuotedLiteralShape, QuotedPlainText and QuotedApostrophe state its form |
| DynamicParameters.ListLiteral | DynamicLayerArchitectureForNetCore/Config/SqlConfig/CustomDynamicParameters.cs:79-81 | defined by its body: a list literal for SQL; ListLiteralBrackets and ListOfNumbers state its form |
| DynamicParameters.RowEntry | DynamicLayerArchitectureForNetCore/Config/SqlConfig/CustomDynamicParameters.cs:108-121 | defined by its body: one INSERT column, null as "null", a string property quoted, otherwise the value's ToString; InsertDataJoins states how entries form a row |
| DynamicParameters.InsertExpansion | DynamicLayerArchitectureForNetCore/Config/SqlConfig/CustomDynamicParameters.cs:92-124 | defined by its body: "Param not valid" outside INSERT, else the row substituted for the token; ParamNotValidOnlyForObjects and ArgumentTemplate state its cases |
| DynamicParameters.RenderProperty | DynamicLayerArchitectureForNetCore/Config/SqlConfig/CustomDynamicParameters.cs:44-61 | defined by its body: the two-part branch; PropertyToken and PropertyTemplate state its cases |
| DynamicParameters.RenderArgument | DynamicLayerArchitectureForNetCore/Config/SqlConfig/CustomDynamicParameters.cs:62-86 | defined by its body: the one-part branch; ArgumentToken and ArgumentTemplate state its cases |
| DynamicParameters.RenderToken | DynamicLayerArchitectureForNetCore/Config/SqlConfig/CustomDynamicParameters.cs:37-86 | defined by its body: one pass of the loop; StepIsReplacement states that a successful pass replaces the token by one literal |
| DynamicParameters.RenderTokens | DynamicLayerArchitectureForNetCore/Config/SqlConfig/CustomDynamicParameters.cs:35-87 | defined by its body: the passes in order, stopping at the first error; RenderTokensBindsEveryRoot, RenderTokensNoNull and RenderTokensInsert state its guarantees |
| DynamicParameters.Render | DynamicLayerArchitectureForNetCore/Config/SqlConfig/CustomDynamicParameters.cs:29-90 | defined by its body: the tokens of the original text rendered in order; RenderBindsEveryRoot, RenderFirstMissing, RenderNoNull, RenderInsert and RenderWithoutMarker state its guarantees |
| DynamicParametersProperties.UnseparatedMarkerKept | DynamicLayerArchitectureForNetCore/Config/SqlConfig/CustomDynamicParameters.cs:32-33 | a text with no ' ', ',', '(' or ')' that does not start with ':' has no token and renders unchanged, whatever ':' it contains |
| DynamicParametersProperties.UnseparatedMarkerExample | DynamicLayerArchitectureForNetCore/Config/SqlConfig/CustomDynamicParameters.cs:32-33 | "x=:a" renders as "x=:a" even though a is bound |
| DynamicParametersProperties.PlainTextArgumentQuoted | DynamicLayerArchitectureForNetCore/Config/SqlConfig/CustomDynamicParameters.cs:69-73 | a string argument of characters JSON leaves alone is written between single quotes as it is |
| DynamicParametersProperties.MarkerInArgumentKept | DynamicLayerArchitectureForNetCore/Config/SqlConfig/CustomDynamicParameters.cs:69-73 | a string argument of characters JSON leaves alone is written between single quotes as it is, so a ':' in it stays in the rendered text |
| DynamicParametersProperties.MarkerInArgumentExample | DynamicLayerArchitectureForNetCore/Config/SqlConfig/CustomDynamicParameters.cs:69-73 | with a bound to ":b", " :a" renders as " ':b'" |
| Text.ReplaceAll | DynamicLayerArchitectureForNetCore/Config/SqlConfig/CustomDynamicParameters.cs:65 | defined by its body: StringBuilder.Replace(string, string), left to right without overlap; ReplaceAllAbsent, ReplaceAllFirst and ReplaceAllKeepsPrefix state its behaviour |
| Text.ReplaceChar | DynamicLayerArchitectureForNetCore/Config/SqlConfig/CustomDynamicParameters.cs:80-81 | defined by its body: StringBuilder.Replace(char, char); ReplaceCharIsReplaceAll relates it to ReplaceAll |
| Text.StartsWithIgnoreCase | DynamicLayerArchitectureForNetCore/Config/SqlConfig/CustomDynamicParameters.cs:38 | defined by its body: a case-insensitive prefix test on ASCII letters |
| Values.ToText | DynamicLayerArchitectureForNetCore/Config/SqlConfig/CustomDynamicParameters.cs:117-121 | defined by its body: Object.ToString of a modelled value; IntTextRoundTrip states that a number's text reads back as the number |
| Json.Escape | DynamicLayerArchitectureForNetCore/Config/SqlConfig/CustomDynamicParameters.cs:54 | defined by its body: the JSON escaping of a string; EscapeRoundTrip and EscapePlain state what it keeps |
| DynamicRepository.GetMethod | DynamicLayerArchitectureForNetCore/Config/SqlConfig/DynamicRepository.cs:117 | defined by its body: the only method with the name, or an error when there are several; DefineOverrideSpec states the outcome for every interface method |
| DynamicRepository.DefineOverride | DynamicLayerArchitectureForNetCore/Config/SqlConfig/DynamicRepository.cs:59-119 | defined by its body: one iteration of the CreateMethod loop; DefineOverrideSpec states when it succeeds and with which error it fails |
| DynamicRepository.DefineOverrides | DynamicLayerArchitectureForNetCore/Config/SqlConfig/DynamicRepository.cs:59-120 | defined by its body: the loop up to method n, stopping at the first error; DefineOverridesSuccess and DefineOverridesFailure state it |
| DynamicRepository.Build | DynamicLayerArchitectureForNetCore/Config/SqlConfig/DynamicRepository.cs:12-25 | defined by its body: the proxy CreateRepository returns; BuildSucceeds, BuildMatchesInterface and BuildFirstError state it |
| DynamicRepository.ParameterMap | DynamicLayerArchitectureForNetCore/Config/SqlConfig/DynamicRepository.cs:68-90 | defined by its body: the dictionary built by one Add per parameter; ParameterMapPairs and ParameterMapFirstDuplicate state it |
| DynamicRepositoryProperties.VoidMethodRejected | DynamicLayerArchitectureForNetCore/Config/SqlConfig/DynamicRepository.cs:106-112 | an interface whose method Delete returns void and has a query cannot be proxied: the build fails with a void-return error |

## Left out

- Logging: `Log.Info` of the rendered text is not modelled.
- The query executor: `SqlExecuteQuery.Execute` is not part of this
  model. `Invoke` takes it as a function parameter and returns its result
  unchanged. What the executor does with the dictionary, including the
  DapperLogger and Dapper themselves, is not modelled.
- IL emission: the proxy is modelled by what its emitted code does. This
  covers `CreateConstructor` (the `_dapper` field set from the constructor
  argument) and the body of each generated method. Opcodes, boxing and the
  dynamic assembly are not modelled.
- `CreateConstructor`: the field store is folded into `Proxy.dapper`. The
  constructor is not a separate member because it has no behaviour beyond
  that store.
- `Activator.CreateInstance` and `IServiceProvider.GetService`: the
  resolved `DapperLogger` (or its absence) is a parameter of
  `CreateRepository`. Service registration is not modelled.
- Methods with as many arguments as parameters only: `Invoke` requires one
  argument per parameter. The CLR enforces that arity at the call, so no
  arity error is modelled.
- Return types: of the types `MakeGenericMethod` rejects, only `void` is
  modelled. By-reference and pointer return types, and whatever generic
  constraints `SqlExecuteQuery.Execute` may declare, are not.
- Parameter names are assumed present: a reflected parameter without a
  name makes `CreateMethod` throw, and is not modelled.
- `Add`: the `DbType`, direction and size arguments are ignored by the
  code and are not modelled.
- Argument kinds: only integers, booleans, strings, lists, plain objects
  and null are modelled. Floating-point numbers, characters, dates,
  decimals and enums are left out: their JSON and `ToString` forms depend
  on culture and number formatting.
- Byte arrays and dictionaries are not modelled. Json.NET writes a
  `byte[]` as a base64 string, so `new byte[] {1, 2}` would render as
  `)AQI=)`, where a `Seq` of the same numbers renders as `(1,2)`; a
  dictionary is written as a JSON object. `Seq` covers the collections
  that Json.NET writes as JSON arrays.
- Interface inheritance: `InterfaceType` has no base interfaces.
  `type.GetMethods()` (DynamicRepository.cs line 59) does not return the
  methods an interface inherits, so those get no override, and
  `CreateType` (line 22) then rejects the type as not implementing them.
  The model does not capture that failure.
- Built-in properties of non-object arguments, such as `Length` of a
  string or `Count` of a list, are not looked up. `FindProperty` finds
  properties only on plain objects.
- Generic types that are not collections: any `Seq` value is treated as
  the generic-or-array branch, and no other generic type is modelled.
- Case-insensitive matching of "Insert" uses ASCII case folding.
  Culture-specific folding is not modelled.
- Ambiguous `GetProperty` matches (for example, hiding in derived types)
  are not modelled: `FindProperty` takes the first property with the name.
- JSON: `Json.Serialize` is a stand-in for Json.NET limited to the
  modelled values. Characters are Unicode scalar values, so the UTF-16
  surrogate halves a .NET string can hold are not modelled.
- Concurrency: `_parameters` is a plain dictionary, and the model has no
  concurrent access.
