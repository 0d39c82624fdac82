# RestfulSourceGenerator in Dafny

A model of the Roslyn incremental source generator `RestfulSourceGenerator` and its helpers.
The generator reacts to types marked with `[AddImplementation<TInterface>]`. For each marked
type it writes a companion `partial class` unit with one stub per ordinary instance method of
every named interface: `async {ReturnType} {Interface}.{Method}({args})` with a body of
`return default;` or `return;`. It collects `using` directives for every namespace the
interfaces and their method signatures refer to. Failures are isolated: a member whose return
type does not fit becomes a comment block, and a type whose generation throws still gets a
unit holding the exception as a comment.

The project has seven modules:

- `Results` (`results.dfy`): `Option` and `Result`, the model of null and of a thrown
  exception.
- `Text` (`text.dfy`): the .NET string operations the generator calls, which are `string.Join`,
  `Contains`, `Replace(char, char)`, `char.ToLowerInvariant` and the order behind `Order()`.
  Each comes with its properties (item placement in a join, an ordinal total order, a sorted
  listing of a set).
- `Symbols` (`symbols.dfy`): the slice of Roslyn's syntax and symbol model that the generator
  reads. Type symbols are trees of name, optional namespace, type arguments, attributes and
  members. Every display string Roslyn would render is a given field.
- `SourceCode` (`source_code.dfy`): `SourceCodeBuilder` as a class whose state is its list of
  lines, with explicit open-block and close-block marker lines.
- `Helpers` (`helpers.dfy`): `Helpers.cs`.
- `RestfulSourceGenerator` (`restful_source_generator.dfy`): the attribute filter, the
  imperative `GenerateSourceCode` and `GenerateSource`, and the specification functions they
  are proved against. `UnitLines` is the unit of one type and `Outputs` is everything handed
  to the sink.
- `UnitProperties` (`unit_properties.dfy`): what every generated unit satisfies, proved about
  those specification functions. This covers block balance, layout, which namespaces are
  imported, the implements clause and the hint names.

Thrown exceptions are `Failure` values, each named after the statement that throws. The
`catch` blocks turn them into the comment `/*`, message, stack trace, `*/`. A stack trace is
runtime detail, so it is a parameter `traceOf` that maps a failure to its trace text.

The model follows the code as written. Five behaviours are easy to misread:

- A member fails only in three cases: its return type is not a named type, or it is a
  generic named type without exactly one type argument of its own (`Single()`). Roslyn's
  `IsGenericType` also holds for a type nested in a generic type, such as
  `List<int>.Enumerator`, which has no type arguments of its own and so fails with "Sequence
  contains no elements". Every other named type passes: a non-generic one with `return;`, a
  generic one with `return default;`. Nothing checks that the type is a task type.
- `GetUsings` walks the whole type-argument tree in pre-order, not one level of it.
- A failing member emits a close-block with no open-block before it, because every throw
  happens before `OpenBlock` at line 123. So the unit is not balanced.
  `UnitProperties.UnitDepth` states by how much: one extra close-block per failing member.
- The global namespace is filtered by the text `global namespace` in the namespace's display
  string. This happens only when imports are written. The set that is collected still holds
  the global namespace.
- The pipeline yields one entry per matching attribute node, so a type carrying two markers
  (the only way to name two interfaces) reaches `GenerateSource` twice. Both entries get the
  same hint name. The second `AddSource` throws outside the `try`, which ends the loop.
  `UnitProperties.RepeatedTypeAborts` states this for a type handed over twice.

## Model

| member | source | states |
|---|---|---|
| Helpers.ToCamelCase | CustomCodeGenerator/Helpers.cs:10-13 | an empty string stays empty; otherwise the result has the same length, the first character lower-cased and every later character unchanged |
| Helpers.ToCamelCaseIdempotent | CustomCodeGenerator/Helpers.cs:10-13 | camel-casing an already camel-cased string changes nothing |
| Text.ToLowerInvariant | CustomCodeGenerator/Helpers.cs:13 | A-Z map to a-z by the fixed offset; every other character is unchanged |
| Helpers.GetTypeFromAttribute | CustomCodeGenerator/Helpers.cs:15-37 | a type is returned exactly when the attribute list is attached to a class, record or struct declaration and the semantic model yields a type symbol for it, and the type is that symbol; null in every other case |
| Helpers.IsTypeDeclaration | CustomCodeGenerator/Helpers.cs:22-28 | the declarations the `switch` keeps, which are classes, records and structs; its use is stated by `GetTypeFromAttribute` |
| Helpers.UsingsOf | CustomCodeGenerator/Helpers.cs:41-48 | the walk of a non-null symbol: nothing without a namespace, else the namespace followed, for a generic named type, by each type argument's walk |
| Helpers.GetUsings | CustomCodeGenerator/Helpers.cs:39-49 | nothing for a null symbol or one without a namespace; otherwise the symbol's own namespace comes first, and for a type that is not a generic named type it is the only element |
| Helpers.ArgumentUsings | CustomCodeGenerator/Helpers.cs:47 | `SelectMany(GetUsings)` over the type arguments: their walks concatenated in argument order; the placement of each walk is `ArgumentUsingsAt` |
| Helpers.WellFormedUsings | CustomCodeGenerator/Helpers.cs:41-48 | on the symbols Roslyn produces, a named type's walk is its namespace followed by the walks of all its own type arguments, so the `IsGenericType` gate skips none |
| Helpers.ArgumentUsingsAt | CustomCodeGenerator/Helpers.cs:47-48 | `SelectMany` lays out the type arguments' walks one after another in argument order: each argument's walk is the slice after the walks of the arguments before it |
| Helpers.ArgumentWalkInside | CustomCodeGenerator/Helpers.cs:45-48 | pre-order: a generic named type's walk holds each type argument's whole walk, right after its own namespace and the earlier arguments' walks, at every depth of the tree |
| Helpers.ArgumentNamespacesIncluded | CustomCodeGenerator/Helpers.cs:45-48 | every namespace from a type argument's walk is yielded for the enclosing generic type |
| Helpers.MarkerAttributes | CustomCodeGenerator/Helpers.cs:53-54 | every attribute the filter keeps has the class name `AddImplementationAttribute` |
| Helpers.IsMarker | CustomCodeGenerator/Helpers.cs:54 | the `Where` test: the attribute class is bound and named `AddImplementationAttribute`; its use is stated by `MarkerAttributesMembership` |
| Helpers.MarkerAttributesMembership | CustomCodeGenerator/Helpers.cs:53-54 | an attribute is kept exactly when it is among the type's attributes and its class is named `AddImplementationAttribute` |
| Helpers.GetInterfaces | CustomCodeGenerator/Helpers.cs:51-57 | succeeds exactly when every matching attribute has a type argument, and otherwise fails with an index error; on success there is one entry per matching attribute, in order with duplicates kept, each holding that attribute's first type argument |
| Helpers.InterfacesOf | CustomCodeGenerator/Helpers.cs:53-56 | the same pipeline over an attribute list, attribute by attribute |
| RestfulSourceGenerator.HasOurAttribute | CustomCodeGenerator/RestfulSourceGenerator.cs:24-31 | holds exactly for attribute nodes whose simple name, or the right-hand identifier of a qualified name, is the marker class name `AddImplementationAttribute` with or without its `Attribute` suffix; the test is on the text alone, and alias-qualified names and other nodes never pass |
| RestfulSourceGenerator.RightIdentifier | CustomCodeGenerator/RestfulSourceGenerator.cs:26-30 | the identifier of a simple name or the right-hand part of a qualified name, and null for an alias-qualified name; its use is stated by `HasOurAttribute` |
| RestfulSourceGenerator.MarkerSpellings | CustomCodeGenerator/RestfulSourceGenerator.cs:31 | the marker class name with or without its `Attribute` suffix (`SpellsMarker`) is exactly `AddImplementation` or `AddImplementationAttribute` |
| RestfulSourceGenerator.MethodsOf | CustomCodeGenerator/RestfulSourceGenerator.cs:92-93 | a method is walked exactly when it is one of the interface's members; other kinds of member are dropped |
| RestfulSourceGenerator.InterfaceMethods | CustomCodeGenerator/RestfulSourceGenerator.cs:92-93 | the methods of one interface's members, in order; stated by `MethodsOf` |
| RestfulSourceGenerator.IsStubTarget | CustomCodeGenerator/RestfulSourceGenerator.cs:96 | a member gets a stub exactly when it is not static and of ordinary kind; `MemberEmissionSpec` states that any other member contributes nothing |
| RestfulSourceGenerator.ReturnsValue | CustomCodeGenerator/RestfulSourceGenerator.cs:104-107 | the return-type check fails exactly when the return type is not a named type (with the "must have a Task return type" message), or is generic with no type argument of its own ("no elements") or with several ("more than one element"); otherwise the stub returns a value exactly when the type is generic |
| RestfulSourceGenerator.WellFormedReturnsValue | CustomCodeGenerator/RestfulSourceGenerator.cs:104-107 | on the symbols Roslyn produces, `return;` is chosen only for a return type without type arguments, and a named return type with exactly one gets `return default;` |
| RestfulSourceGenerator.ParameterDisplays | CustomCodeGenerator/RestfulSourceGenerator.cs:117-118 | one display per parameter, in parameter order |
| RestfulSourceGenerator.ParameterUsingsSound | CustomCodeGenerator/RestfulSourceGenerator.cs:111-114 | every namespace collected from the parameters comes from some parameter type's walk |
| RestfulSourceGenerator.ParameterUsingsComplete | CustomCodeGenerator/RestfulSourceGenerator.cs:111-114 | every namespace of every parameter type's walk is collected |
| RestfulSourceGenerator.ParameterUsings | CustomCodeGenerator/RestfulSourceGenerator.cs:111-114 | the union of the parameter types' walks, parameter after parameter; its properties are `ParameterUsingsSound` and `ParameterUsingsComplete` |
| RestfulSourceGenerator.CollectParameterUsings | CustomCodeGenerator/RestfulSourceGenerator.cs:111-114 | the parameter loop adds exactly the parameters' namespaces to the set |
| RestfulSourceGenerator.FailureCommentBalanced | CustomCodeGenerator/RestfulSourceGenerator.cs:143-146 | the exception comment opens and closes no block |
| RestfulSourceGenerator.FailureComment | CustomCodeGenerator/RestfulSourceGenerator.cs:143-146 | the lines a caught exception leaves: `/*`, its message, its trace, `*/`; its properties are `FailureCommentBalanced` and `EmitCatch` |
| RestfulSourceGenerator.MemberEmissionSpec | CustomCodeGenerator/RestfulSourceGenerator.cs:96-149 | a static or non-ordinary member contributes nothing. A stub target always contributes its return type's namespaces, kept also when the check then throws. A failing member contributes the failure comment plus one close-block, which is one close more than it opens. A passing member contributes exactly header, open, `return default;` (exactly when the return type is generic) or `return;` (exactly when it is not), and close, which balances; it also contributes its parameters' namespaces |
| RestfulSourceGenerator.EmitStub | CustomCodeGenerator/RestfulSourceGenerator.cs:117-139 | appends exactly the stub header, an open-block, the return line and a close-block |
| RestfulSourceGenerator.EmitCatch | CustomCodeGenerator/RestfulSourceGenerator.cs:141-147 | appends exactly `/*`, message, trace, `*/` and a close-block |
| RestfulSourceGenerator.EmitMember | CustomCodeGenerator/RestfulSourceGenerator.cs:98-149 | the try/catch body for one stub target appends exactly that member's specified lines and adds exactly its specified namespaces |
| RestfulSourceGenerator.EmitInterface | CustomCodeGenerator/RestfulSourceGenerator.cs:92-150 | the member loop over one interface appends the members' specified lines in order and adds their namespaces |
| RestfulSourceGenerator.EmitInterfaces | CustomCodeGenerator/RestfulSourceGenerator.cs:89-151 | the interface loop appends every interface's lines in attribute order and adds their namespaces |
| RestfulSourceGenerator.MembersEmission | CustomCodeGenerator/RestfulSourceGenerator.cs:94-150 | the lines and namespaces of the first `n` members, member after member; its properties are `InterfaceDepth` and `EmitInterface` |
| RestfulSourceGenerator.InterfaceEmission | CustomCodeGenerator/RestfulSourceGenerator.cs:92-150 | what the member loop over one interface contributes; its properties are `InterfaceDepth` and `EmitInterface` |
| RestfulSourceGenerator.InterfacesEmission | CustomCodeGenerator/RestfulSourceGenerator.cs:89-151 | what the interface loop contributes, interface after interface; its properties are `UnitDepth`, `CollectedUsingsSound` and `EmitInterfaces` |
| RestfulSourceGenerator.EmitHeader | CustomCodeGenerator/RestfulSourceGenerator.cs:79-85 | appends exactly the six header lines: blank, `namespace N;`, blank, `partial class Name : implements`, open-block, blank |
| RestfulSourceGenerator.Header | CustomCodeGenerator/RestfulSourceGenerator.cs:80-85 | blank, `namespace N;`, blank, `partial class Name : implements`, open-block, blank; its properties are `HeaderDepth` and `UnitLayout` |
| RestfulSourceGenerator.NamespaceText | CustomCodeGenerator/RestfulSourceGenerator.cs:81 | the type's namespace as interpolated, empty for a null one; placed by `UnitLayout` |
| RestfulSourceGenerator.EmitPrelude | CustomCodeGenerator/RestfulSourceGenerator.cs:153-159 | closes the class block, then puts `#nullable enable`, a blank line and the directives in front of everything written so far |
| RestfulSourceGenerator.Displays | CustomCodeGenerator/RestfulSourceGenerator.cs:72-73 | one minimal display per interface, in attribute order |
| RestfulSourceGenerator.Implements | CustomCodeGenerator/RestfulSourceGenerator.cs:72-73 | the interfaces' displays joined by `", "`; its property is `ImplementsListsInterfaces` |
| RestfulSourceGenerator.InterfaceNamespaces | CustomCodeGenerator/RestfulSourceGenerator.cs:75-77 | fails with a null reference exactly when some interface has no namespace; otherwise the set is exactly the interfaces' namespaces |
| RestfulSourceGenerator.WithoutGlobal | CustomCodeGenerator/RestfulSourceGenerator.cs:156 | keeps exactly the names that do not contain `global namespace`, and keeps a strictly sorted list strictly sorted |
| RestfulSourceGenerator.ImportedNamespacesSpec | CustomCodeGenerator/RestfulSourceGenerator.cs:155-157 | the imports are strictly sorted, so free of duplicates, and name exactly the collected namespaces that do not contain `global namespace` |
| RestfulSourceGenerator.ImportedNamespaces | CustomCodeGenerator/RestfulSourceGenerator.cs:155-156 | the collected set in order, minus the names containing `global namespace`; its properties are `ImportedNamespacesSpec` |
| RestfulSourceGenerator.Directives | CustomCodeGenerator/RestfulSourceGenerator.cs:157 | one `using N;` per namespace, in order |
| RestfulSourceGenerator.Prelude | CustomCodeGenerator/RestfulSourceGenerator.cs:155-159 | `#nullable enable`, a blank line, then the directives; its properties are `PreludeLines` and `PreludeDepth` |
| RestfulSourceGenerator.GenerateSourceCode | CustomCodeGenerator/RestfulSourceGenerator.cs:68-162 | the builder-driven method returns exactly the specified unit `UnitLines`, or the exception that `GetInterfaces` or a null interface namespace throws |
| RestfulSourceGenerator.AddUnit | CustomCodeGenerator/RestfulSourceGenerator.cs:42-64 | for one type, the sink gains exactly one file under the type's hint name, holding the generated unit or the failure comment when generation threw; if that hint name is already taken, nothing is added and the duplicate-hint exception is raised |
| RestfulSourceGenerator.GenerateSource | CustomCodeGenerator/RestfulSourceGenerator.cs:33-66 | a default or empty array adds nothing; otherwise the sink and the exception are exactly what `Feed` gives for the types' files in input order |
| RestfulSourceGenerator.SourceProductionContext.AddSource | CustomCodeGenerator/RestfulSourceGenerator.cs:64 | appends the file when no file added before has the same hint name up to case; otherwise adds nothing and raises the duplicate-hint exception |
| RestfulSourceGenerator.Feed | CustomCodeGenerator/RestfulSourceGenerator.cs:38-65 | the files handed to `AddSource` in turn: each goes in until one whose hint name is taken, whose exception ends the loop |
| RestfulSourceGenerator.SameHint | CustomCodeGenerator/RestfulSourceGenerator.cs:64 | two hint names are equal ignoring the case of A-Z; used by `HintTaken` |
| RestfulSourceGenerator.HintTaken | CustomCodeGenerator/RestfulSourceGenerator.cs:64 | a file already added has the hint name up to case; its use is stated by `AddSource`, `FeedPrefix` and `DistinctNotTaken` |
| RestfulSourceGenerator.SourceFor | CustomCodeGenerator/RestfulSourceGenerator.cs:42-50 | the generated unit, or the failure comment `/*`, message, trace, `*/` when generating threw |
| RestfulSourceGenerator.Outputs | CustomCodeGenerator/RestfulSourceGenerator.cs:38-64 | one file per type, in input order, with the type's hint name and `SourceFor` lines |
| RestfulSourceGenerator.Output | CustomCodeGenerator/RestfulSourceGenerator.cs:60-64 | the file for one type: its hint name and `SourceFor` lines; stated by `Outputs` and `RepeatedTypeAborts` |
| RestfulSourceGenerator.UnitLines | CustomCodeGenerator/RestfulSourceGenerator.cs:68-162 | the unit of one type: prelude over the interfaces' and members' namespaces, the header, every interface's member lines, the closing brace; or the exception that `GetInterfaces` or a null interface namespace throws |
| RestfulSourceGenerator.CollectedUsings | CustomCodeGenerator/RestfulSourceGenerator.cs:75-114 | the interfaces' namespaces together with every member's; its properties are `CollectedUsingsSound`, `ReturnNamespacesCollected` and `ParameterNamespacesCollected` |
| RestfulSourceGenerator.MemberEmission | CustomCodeGenerator/RestfulSourceGenerator.cs:96-149 | the lines and namespaces one member contributes; its properties are `MemberEmissionSpec` |
| RestfulSourceGenerator.StubHeader | CustomCodeGenerator/RestfulSourceGenerator.cs:121-122 | `async {ReturnType} {Interface.Name}.{member.Name}({args})`, with the parameters' displays joined by `", "` |
| RestfulSourceGenerator.HintName | CustomCodeGenerator/RestfulSourceGenerator.cs:60-64 | the hint display with `<` made `[` and `>` made `]` character by character, followed by `.g.cs`; it holds no angle bracket |
| Symbols.Message | CustomCodeGenerator/RestfulSourceGenerator.cs:105-107 | the `Message` of each exception the generator meets, including those of `Single()` and the index error of CustomCodeGenerator/Helpers.cs line 55; used by `FailureComment` |
| Text.JoinAt | CustomCodeGenerator/RestfulSourceGenerator.cs:72-73 | every item of `string.Join` appears unchanged at its own offset, in order, with duplicates kept |
| Text.JoinLength | CustomCodeGenerator/RestfulSourceGenerator.cs:72-73 | a join is as long as its items plus one separator between each pair of neighbours |
| Text.Replace | CustomCodeGenerator/RestfulSourceGenerator.cs:61-62 | same length; each occurrence of the character is replaced and every other character is kept |
| Text.SortedSpec | CustomCodeGenerator/RestfulSourceGenerator.cs:155 | `Order()` on the set lists each namespace once, in strictly increasing ordinal order, and nothing else |
| Text.Contains | CustomCodeGenerator/RestfulSourceGenerator.cs:156 | ordinal `string.Contains`: the pattern fits at the start or further on |
| Text.ContainsAt | CustomCodeGenerator/RestfulSourceGenerator.cs:156 | a name contains the marker whenever the marker occurs at some position of it |
| Text.ContainsWhere | CustomCodeGenerator/RestfulSourceGenerator.cs:156 | a name contains the marker only if the marker occurs at some position of it, which is returned |
| Text.Join | CustomCodeGenerator/RestfulSourceGenerator.cs:72-73 | `string.Join`: the items in order with the separator between neighbours; its properties are `JoinAt` and `JoinLength` |
| Text.Sorted | CustomCodeGenerator/RestfulSourceGenerator.cs:155 | `Order()` on a set: the least element, then the rest sorted; its properties are `SortedSpec` |
| UnitProperties.MemberDepth | CustomCodeGenerator/RestfulSourceGenerator.cs:123-147 | a member's lines close one more block than they open exactly when its return-type check fails |
| UnitProperties.InterfaceDepth | CustomCodeGenerator/RestfulSourceGenerator.cs:89-150 | an interface's lines close one more block than they open for each failing member |
| UnitProperties.HeaderDepth | CustomCodeGenerator/RestfulSourceGenerator.cs:79-85 | the header opens exactly one block, the class body |
| UnitProperties.PreludeDepth | CustomCodeGenerator/RestfulSourceGenerator.cs:155-159 | the prepended lines open and close no block |
| UnitProperties.UnitDepth | CustomCodeGenerator/RestfulSourceGenerator.cs:68-162 | a generated unit has depth minus the number of failing members over all interfaces, so it is balanced exactly when no stub target fails |
| UnitProperties.PreludeLines | CustomCodeGenerator/RestfulSourceGenerator.cs:155-159 | the prepended lines are `#nullable enable`, a blank line, then one `using N;` per import in order |
| UnitProperties.UnitLayout | CustomCodeGenerator/RestfulSourceGenerator.cs:79-159 | a generated unit starts with `#nullable enable` and a blank line, then one `using N;` per imported namespace in sorted order, then the header with `partial class Name : implements`, and ends with the class's close-block |
| UnitProperties.ReturnNamespacesCollected | CustomCodeGenerator/RestfulSourceGenerator.cs:101 | every namespace in a stub target's return-type walk is collected, also when its check then throws |
| UnitProperties.ParameterNamespacesCollected | CustomCodeGenerator/RestfulSourceGenerator.cs:111-114 | every namespace in a parameter-type walk of a stub that passes the check is collected |
| UnitProperties.CollectedUsingsSound | CustomCodeGenerator/RestfulSourceGenerator.cs:75-114 | nothing else is collected: each namespace is an interface's own, from a stub target's return type, or from a parameter type of a stub that passed |
| UnitProperties.ImplementsListsInterfaces | CustomCodeGenerator/RestfulSourceGenerator.cs:72-73 | each interface's display appears in the implements clause at its own place, in attribute order |
| UnitProperties.HintNameInjective | CustomCodeGenerator/RestfulSourceGenerator.cs:60-64 | two types whose hint displays hold no square bracket get the same hint name only when their displays are equal |
| UnitProperties.FeedPrefix | CustomCodeGenerator/RestfulSourceGenerator.cs:38-65 | the sink keeps a prefix of the files: each file before the `n`-th went in with a free hint name; when `n` falls short, the `n`-th file's hint name was taken and its duplicate-hint exception is raised, otherwise nothing is |
| UnitProperties.DistinctNotTaken | CustomCodeGenerator/RestfulSourceGenerator.cs:64 | with pairwise distinct hint names, no file finds its hint name taken by the files before it |
| UnitProperties.FeedDistinct | CustomCodeGenerator/RestfulSourceGenerator.cs:38-65 | files with pairwise distinct hint names (up to case) all go in, and nothing is raised |
| UnitProperties.RepeatedTypeAborts | CustomCodeGenerator/RestfulSourceGenerator.cs:38-65 | a type handed over twice leaves only its first file and raises the duplicate-hint exception |

## Left out

- `Initialize` and the incremental pipeline (`CreateSyntaxProvider`, the null filter, `Collect`,
  `RegisterSourceOutput`, lines 14-22 of `RestfulSourceGenerator.cs`): host wiring. The
  filter and the transform it wires up are modelled as `HasOurAttribute` and
  `GetTypeFromAttribute`.
- The cancellation check (line 40): cancellation is a host concern.
- `Console.Error.WriteLine` (line 148): I/O.
- Stack traces: `ex.StackTrace!` and `ex.StackTrace ?? ""` are both the opaque `traceOf`
  parameter.
- Roslyn's display rendering, both `ToDisplayString` with `MinimallyQualifiedFormat` and the
  hint display format of lines 52-58: display strings are given fields of the symbols.
- `SourceText`, and the check `AddSource` makes that a hint name holds only valid file-name
  characters: the sink is the list of `(hint name, lines)` pairs it was handed. The duplicate
  check is modelled.
- `RestfulSourceGenerator.HasOurAttribute`: the filter tests the identifier's text only, as the
  source does. It does not model C# name binding: an attribute written through a using alias
  (`using Impl = ...AddImplementationAttribute<IFoo>;` then `[Impl]`) binds to the marker but
  is rejected, and a class named `AddImplementationAttribute` in any other namespace passes.
- `Symbols.WellFormedType`: the symbol model can hold a named type that has type arguments of its own
  yet is not generic, which Roslyn never produces. The operations follow the code on every
  symbol; `WellFormedReturnsValue` and `WellFormedUsings` state what holds on well-formed ones.
- `RestfulSourceGenerator.SameHint`: hint names are compared ignoring the case of the Latin
  letters A-Z only; case folding of other scripts is not modelled.
- What the host does once `GenerateSource` throws, such as dropping the generator's outputs
  and reporting a diagnostic: host behaviour.
- `SourceCodeBuilder` indentation and the text rendering of a unit: `CustomCodeGenerator/Extensions`
  is not part of this model. A unit is its list of lines with block markers. `AddRange` is set
  union.
- `Text.Sorted`: the order is ordinal (code point by code point). The culture-sensitive
  default comparer behind `Order()` is not modelled.
- `Text.ToLowerInvariant`: lower-cases the Latin letters A-Z only. Invariant-culture casing of
  other scripts is not modelled.
- The dead locals `argBuilder`, `returnTypeName` and `contentArgs` (lines 87, 108, 126-128):
  they have no effect on the output.
- The `member == null` test (line 96) cannot hold after the non-null filter of line 93, so it
  has no branch of its own.
- The cancellation tokens passed to `HasOurAttribute` and `GetTypeFromAttribute`: neither uses it.
