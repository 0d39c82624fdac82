/**
 * The incremental generator: which attribute nodes it reacts to, the companion unit it writes
 * for one marked type (`GenerateSourceCode`), and the loop that hands one unit per type to the
 * output sink (`GenerateSource`).
 *
 * Each imperative operation is proved against a specification function (`UnitLines`,
 * `Outputs`), and the properties of the generated text are lemmas about those functions.
 */
module RestfulSourceGenerator {
  import opened Results
  import opened Text
  import opened Symbols
  import opened SourceCode
  import opened Helpers

  // ---------------------------------------------------------------------------------------
  // Candidate filter

  /** The identifier a `switch` on the attribute's name yields: that of a simple name, or the
    * right-hand part of a qualified name; `None` (null) for any other shape. */
  function RightIdentifier(name: NameSyntax): Option<string>
  {
    match name
    case Simple(simple) => Some(simple.identifier)
    case Qualified(_, right) => Some(right.identifier)
    case AliasQualified(_, _) => None
  }

  /** The identifier is the marker class name, with or without its `Attribute` suffix: the
    * naming rule by which C# lets `[X]` stand for the class `XAttribute`. Using aliases and
    * the namespace the name resolves in play no part. */
  predicate SpellsMarker(identifier: string)
  {
    identifier == MarkerClassName || identifier + "Attribute" == MarkerClassName
  }

  /** The two spellings the filter accepts are exactly the marker class name `GetInterfaces`
    * looks for, with or without its `Attribute` suffix. */
  lemma MarkerSpellings(id: string)
    ensures SpellsMarker(id) <==> id == "AddImplementation" || id == "AddImplementationAttribute"
  {
    if id + "Attribute" == MarkerClassName {
      assert |id| == 17;
      assert id == (id + "Attribute")[..17];
      assert MarkerClassName[..17] == "AddImplementation";
    }
    if id == "AddImplementation" {
      assert id + "Attribute" == MarkerClassName;
    }
  }

  /** `HasOurAttribute`: an attribute node whose simple or right-hand identifier is the marker
    * class name with or without its `Attribute` suffix. The test is on the text alone:
    * alias-qualified names and other nodes never pass. */
  function HasOurAttribute(node: SyntaxNode): (r: bool)
    ensures r <==> node.AttributeSyntax? && RightIdentifier(node.name).Some? &&
                   SpellsMarker(RightIdentifier(node.name).value)
  {
    match node
    case OtherSyntax => false
    case AttributeSyntax(name, _) =>
      match RightIdentifier(name)
      case None => false
      case Some(id) =>
        MarkerSpellings(id);
        id == "AddImplementation" || id == "AddImplementationAttribute"
  }

  // ---------------------------------------------------------------------------------------
  // One interface member

  /** The methods among an interface's members (`x as IMethodSymbol`, non-null), in order. */
  function MethodsOf(members: seq<Member>): (r: seq<MethodSymbol>)
    ensures forall m :: m in r <==> MethodMember(m) in members
  {
    if members == [] then []
    else (if members[0].MethodMember? then [members[0].symbol] else []) + MethodsOf(members[1..])
  }

  /** The members that get a stub: non-static methods of ordinary kind. */
  predicate IsStubTarget(m: MethodSymbol)
  {
    !m.isStatic && m.kind == Ordinary
  }

  /** The return-type check of a stub: the return type must be a named type, and a generic one
    * (also one nested in a generic type) must have exactly one type argument of its own, as
    * `Single()` demands; `Ok(true)` when the stub then returns a value. */
  function ReturnsValue(m: MethodSymbol): (r: Result<bool, Failure>)
    ensures r.Err? <==> !m.returnType.NamedType? || (m.returnType.isGenericType && |m.returnType.typeArguments| != 1)
    ensures r.Err? ==> r.error == if !m.returnType.NamedType? then MissingTaskReturnType(m.name)
                                  else if |m.returnType.typeArguments| == 0 then NoElements
                                  else MoreThanOneElement
    ensures r.Ok? ==> (r.value <==> m.returnType.isGenericType)
  {
    if !m.returnType.NamedType? then Err(MissingTaskReturnType(m.name))
    else if !m.returnType.isGenericType then Ok(false)
    else if |m.returnType.typeArguments| == 0 then Err(NoElements)
    else if |m.returnType.typeArguments| > 1 then Err(MoreThanOneElement)
    else Ok(true)
  }

  /** On the symbols Roslyn produces, a stub returns no value only for a return type without
    * type arguments, and a named return type with exactly one returns `default`. */
  lemma WellFormedReturnsValue(m: MethodSymbol)
    requires WellFormedType(m.returnType)
    ensures ReturnsValue(m) == Ok(false) ==> m.returnType.typeArguments == []
    ensures m.returnType.NamedType? && |m.returnType.typeArguments| == 1 ==> ReturnsValue(m) == Ok(true)
  {
  }

  /** The elements of a list of namespace names. */
  function SetOf(xs: seq<string>): (r: set<string>)
    ensures forall x :: x in r <==> x in xs
  {
    set x | x in xs
  }

  /** The parameters as the stub lists them. */
  function ParameterDisplays(ps: seq<Parameter>): (r: seq<string>)
    ensures |r| == |ps| && forall k :: 0 <= k < |ps| ==> r[k] == ps[k].display
  {
    seq(|ps|, k requires 0 <= k < |ps| => ps[k].display)
  }

  /** The union of `part` over the first `n` items, item after item. */
  function Union<T>(part: T -> set<string>, xs: seq<T>, n: nat): set<string>
    requires n <= |xs|
  {
    if n == 0 then {} else Union(part, xs, n - 1) + part(xs[n - 1])
  }

  /** Every element of a union comes from some item. */
  lemma {:induction false} UnionSound<T>(part: T -> set<string>, xs: seq<T>, n: nat, x: string)
    requires n <= |xs| && x in Union(part, xs, n)
    ensures exists k :: 0 <= k < n && x in part(xs[k])
  {
    if x in part(xs[n - 1]) {
      assert 0 <= n - 1 < n;
    } else {
      UnionSound(part, xs, n - 1, x);
      var k :| 0 <= k < n - 1 && x in part(xs[k]);
      assert 0 <= k < n;
    }
  }

  /** Every item's elements are in the union. */
  lemma {:induction false} UnionComplete<T>(part: T -> set<string>, xs: seq<T>, n: nat, k: nat)
    requires k < n <= |xs|
    ensures part(xs[k]) <= Union(part, xs, n)
  {
    if k < n - 1 {
      UnionComplete(part, xs, n - 1, k);
    }
  }

  /** The namespaces a parameter's type refers to. */
  function ParameterNamespaces(p: Parameter): set<string>
  {
    SetOf(GetUsings(Some(p.parameterType)))
  }

  /** The namespaces the types of the first `n` parameters refer to, parameter after
    * parameter. */
  function ParameterUsings(ps: seq<Parameter>, n: nat): set<string>
    requires n <= |ps|
  {
    Union(ParameterNamespaces, ps, n)
  }

  /** Every namespace collected from the parameters comes from some parameter's type. */
  lemma ParameterUsingsSound(ps: seq<Parameter>, n: nat, x: string)
    requires n <= |ps| && x in ParameterUsings(ps, n)
    ensures exists k :: 0 <= k < n && x in GetUsings(Some(ps[k].parameterType))
  {
    UnionSound(ParameterNamespaces, ps, n, x);
    var k :| 0 <= k < n && x in ParameterNamespaces(ps[k]);
    assert x in GetUsings(Some(ps[k].parameterType));
  }

  /** Every namespace of every parameter's type is collected. */
  lemma ParameterUsingsComplete(ps: seq<Parameter>, n: nat, k: nat, x: string)
    requires k < n <= |ps| && x in GetUsings(Some(ps[k].parameterType))
    ensures x in ParameterUsings(ps, n)
  {
    UnionComplete(ParameterNamespaces, ps, n, k);
  }

  /** The stub header: `async {ReturnType} {Interface.Name}.{member.Name}({args})`. */
  function StubHeader(iface: TypeSymbol, m: MethodSymbol): string
  {
    "async " + m.returnType.display + " " + iface.name + "." + m.name + "(" + Join(", ", ParameterDisplays(m.parameters)) + ")"
  }

  /** The comment a caught exception leaves in the unit: `/*`, message, trace, `*/`. */
  function FailureComment(f: Failure, traceOf: Failure -> string): seq<Line>
  {
    [Text("/*"), Text(Message(f)), Text(traceOf(f)), Text("*/")]
  }

  /** The failure comment is text only: it opens and closes no block. */
  lemma FailureCommentBalanced(f: Failure, traceOf: Failure -> string)
    ensures Depth(FailureComment(f, traceOf)) == 0
  {
    var r := FailureComment(f, traceOf);
    assert r == TextLines(["/*", Message(f), traceOf(f), "*/"]);
    DepthOfText(["/*", Message(f), traceOf(f), "*/"]);
  }

  /** What one member contributes: lines of the unit and namespaces to import. */
  datatype Emission = Emission(lines: seq<Line>, usings: set<string>)

  /** One emission after another. */
  function Then(a: Emission, b: Emission): Emission
  {
    Emission(a.lines + b.lines, a.usings + b.usings)
  }

  /** What the first `n` items of a run contribute, item after item. */
  function Run<T>(emit: T -> Emission, xs: seq<T>, n: nat): Emission
    requires n <= |xs|
  {
    if n == 0 then Emission([], {}) else Then(Run(emit, xs, n - 1), emit(xs[n - 1]))
  }

  /**
   * What one member of an interface contributes. A member that is static or not an ordinary
   * method contributes nothing. A stub target contributes the namespaces of its return type in
   * any case; then, if its return type fails the check, the failure comment and a close-block
   * (with no open-block before it), and otherwise its stub and the namespaces of its
   * parameters' types.
   */
  function MemberEmission(iface: TypeSymbol, m: MethodSymbol, traceOf: Failure -> string): Emission
  {
    if !IsStubTarget(m) then Emission([], {})
    else
      var returnUsings := SetOf(GetUsings(Some(m.returnType)));
      match ReturnsValue(m)
      case Err(f) => Emission(FailureComment(f, traceOf) + [CloseBrace], returnUsings)
      case Ok(value) =>
        Emission([Text(StubHeader(iface, m)), OpenBrace, Text(if value then "return default;" else "return;"), CloseBrace],
                 returnUsings + ParameterUsings(m.parameters, |m.parameters|))
  }

  /**
   * The member filter and the shape of a stub. A static member or one that is not an ordinary
   * method contributes nothing. A stub target always contributes the namespaces of its return
   * type. If its return type fails the check, its lines are the failure comment followed by a
   * close-block, which leaves one block more closed than opened. Otherwise its lines are the
   * header, a balanced block whose body is `return default;` exactly when the return type is
   * generic (and so has its single type argument) and `return;` otherwise, and it also contributes
   * its parameters' namespaces.
   */
  lemma MemberEmissionSpec(iface: TypeSymbol, m: MethodSymbol, traceOf: Failure -> string)
    ensures var r := MemberEmission(iface, m, traceOf);
            (!IsStubTarget(m) ==> r == Emission([], {})) &&
            (IsStubTarget(m) ==> SetOf(GetUsings(Some(m.returnType))) <= r.usings) &&
            (IsStubTarget(m) && ReturnsValue(m).Err? ==>
              r.usings == SetOf(GetUsings(Some(m.returnType))) &&
              r.lines == FailureComment(ReturnsValue(m).error, traceOf) + [CloseBrace] &&
              Depth(r.lines) == -1) &&
            (IsStubTarget(m) && ReturnsValue(m).Ok? ==>
              r.usings == SetOf(GetUsings(Some(m.returnType))) + ParameterUsings(m.parameters, |m.parameters|) &&
              |r.lines| == 4 && r.lines[0] == Text(StubHeader(iface, m)) && r.lines[1] == OpenBrace &&
              r.lines[3] == CloseBrace && Depth(r.lines) == 0 &&
              (r.lines[2] == Text("return default;") <==> m.returnType.isGenericType) &&
              (r.lines[2] == Text("return;") <==> !m.returnType.isGenericType))
  {
    var r := MemberEmission(iface, m, traceOf);
    if IsStubTarget(m) {
      match ReturnsValue(m)
      case Err(f) =>
        FailureCommentBalanced(f, traceOf);
        DepthAppend(FailureComment(f, traceOf), [CloseBrace]);
      case Ok(value) =>
        assert Depth(r.lines[3..]) == -1;
        assert Depth(r.lines[2..]) == -1;
        assert Depth(r.lines[1..]) == 0;
        assert "return default;" != "return;" by { assert |"return default;"| != |"return;"|; }
    }
  }

  /** What a run of members contributes, member after member. */
  function MembersEmission(iface: TypeSymbol, ms: seq<MethodSymbol>, n: nat, traceOf: Failure -> string): Emission
    requires n <= |ms|
  {
    Run(MemberEmitter(iface, traceOf), ms, n)
  }

  /** `MemberEmission` for the members of one interface. */
  function MemberEmitter(iface: TypeSymbol, traceOf: Failure -> string): MethodSymbol -> Emission
  {
    (m: MethodSymbol) => MemberEmission(iface, m, traceOf)
  }

  /** Proof step for the member loop: unfolds `MembersEmission` by one member. */
  lemma MembersEmissionNext(iface: TypeSymbol, ms: seq<MethodSymbol>, j: nat, traceOf: Failure -> string)
    requires j < |ms|
    ensures MembersEmission(iface, ms, j + 1, traceOf).lines == MembersEmission(iface, ms, j, traceOf).lines + MemberEmission(iface, ms[j], traceOf).lines
    ensures MembersEmission(iface, ms, j + 1, traceOf).usings == MembersEmission(iface, ms, j, traceOf).usings + MemberEmission(iface, ms[j], traceOf).usings
  {
  }

  /** The methods of an interface the generator walks. */
  function InterfaceMethods(a: InterfaceAttribute): seq<MethodSymbol>
  {
    MethodsOf(Members(a.target))
  }

  /** What the members of one interface contribute. */
  function InterfaceEmission(a: InterfaceAttribute, traceOf: Failure -> string): Emission
  {
    MembersEmission(a.target, InterfaceMethods(a), |InterfaceMethods(a)|, traceOf)
  }

  /** What a run of interfaces contributes, interface after interface. */
  function InterfacesEmission(ifs: seq<InterfaceAttribute>, n: nat, traceOf: Failure -> string): Emission
    requires n <= |ifs|
  {
    Run(InterfaceEmitter(traceOf), ifs, n)
  }

  /** `InterfaceEmission` as a function of the interface. */
  function InterfaceEmitter(traceOf: Failure -> string): InterfaceAttribute -> Emission
  {
    (a: InterfaceAttribute) => InterfaceEmission(a, traceOf)
  }

  /** Proof step for the interface loop: unfolds `InterfacesEmission` by one interface. */
  lemma InterfacesEmissionNext(ifs: seq<InterfaceAttribute>, i: nat, traceOf: Failure -> string)
    requires i < |ifs|
    ensures InterfacesEmission(ifs, i + 1, traceOf).lines == InterfacesEmission(ifs, i, traceOf).lines + InterfaceEmission(ifs[i], traceOf).lines
    ensures InterfacesEmission(ifs, i + 1, traceOf).usings == InterfacesEmission(ifs, i, traceOf).usings + InterfaceEmission(ifs[i], traceOf).usings
  {
  }

  // ---------------------------------------------------------------------------------------
  // One unit

  /** The interfaces' minimal displays, in order. */
  function Displays(ifs: seq<InterfaceAttribute>): (r: seq<string>)
    ensures |r| == |ifs| && forall i :: 0 <= i < |ifs| ==> r[i] == ifs[i].target.display
  {
    seq(|ifs|, i requires 0 <= i < |ifs| => ifs[i].target.display)
  }

  /** The implements clause: the interfaces' minimal displays joined by `", "`. */
  function Implements(ifs: seq<InterfaceAttribute>): string
  {
    Join(", ", Displays(ifs))
  }

  /** The namespaces of the interfaces themselves; a null namespace throws. */
  function InterfaceNamespaces(ifs: seq<InterfaceAttribute>): (r: Result<set<string>, Failure>)
    ensures r.Err? <==> exists i :: 0 <= i < |ifs| && ifs[i].target.containingNamespace.None?
    ensures r.Err? ==> r.error == NullReference
    ensures r.Ok? ==> forall x :: x in r.value <==> exists i :: 0 <= i < |ifs| && ifs[i].target.containingNamespace == Some(x)
  {
    if ifs == [] then Ok({})
    else
      var n := |ifs|;
      assert forall i :: 0 <= i < n - 1 ==> ifs[..n - 1][i] == ifs[i];
      match InterfaceNamespaces(ifs[..n - 1])
      case Err(f) => Err(f)
      case Ok(s) =>
        match ifs[n - 1].target.containingNamespace
        case None => Err(NullReference)
        case Some(ns) => Ok(s + {ns})
  }

  /** The namespace line names the type's namespace; a null one prints as nothing. */
  function NamespaceText(t: TypeSymbol): string
  {
    match t.containingNamespace
    case None => ""
    case Some(ns) => ns
  }

  /** The lines written before the members: blank, namespace, blank, class header, open
    * block, blank. */
  function Header(t: TypeSymbol, implements: string): seq<Line>
  {
    [Text(""), Text("namespace " + NamespaceText(t) + ";"), Text(""),
     Text("partial class " + t.name + " : " + implements), OpenBrace, Text("")]
  }

  /** Marks the pseudo-namespace of the global scope. */
  const GlobalMarker: string := "global namespace"

  /** The collected namespaces that become imports: sorted, minus the global scope. */
  function ImportedNamespaces(usings: set<string>): seq<string>
  {
    WithoutGlobal(Sorted(usings))
  }

  function WithoutGlobal(xs: seq<string>): (r: seq<string>)
    ensures forall x :: x in r <==> x in xs && !Contains(x, GlobalMarker)
    ensures StrictlySorted(xs) ==> StrictlySorted(r)
  {
    if xs == [] then []
    else
      var rest := WithoutGlobal(xs[1..]);
      assert StrictlySorted(xs) ==> StrictlySorted(xs[1..]) by {
        if StrictlySorted(xs) {
          forall i, j | 0 <= i < j < |xs[1..]| ensures Le(xs[1..][i], xs[1..][j]) && xs[1..][i] != xs[1..][j] {
            assert xs[1..][i] == xs[i + 1] && xs[1..][j] == xs[j + 1];
          }
        }
      }
      assert forall x :: x in xs <==> x == xs[0] || x in xs[1..] by { assert xs == [xs[0]] + xs[1..]; }
      if Contains(xs[0], GlobalMarker) then rest
      else
        var r := [xs[0]] + rest;
        assert StrictlySorted(xs) ==> StrictlySorted(r) by {
          if StrictlySorted(xs) {
            forall i, j | 0 <= i < j < |r| ensures Le(r[i], r[j]) && r[i] != r[j] {
              if i == 0 {
                assert r[j] in rest;
                var k :| 0 <= k < |xs[1..]| && xs[1..][k] == r[j];
                assert xs[k + 1] == r[j];
              } else {
                assert r[i] == rest[i - 1] && r[j] == rest[j - 1];
              }
            }
          }
        }
        r
  }

  /** Imports are sorted and duplicate-free, and name exactly the collected namespaces that
    * are not the global scope. */
  lemma ImportedNamespacesSpec(usings: set<string>)
    ensures StrictlySorted(ImportedNamespaces(usings))
    ensures forall x :: x in ImportedNamespaces(usings) <==> x in usings && !Contains(x, GlobalMarker)
  {
    SortedSpec(usings);
  }

  /** One `using X;` directive per namespace, in order. */
  function Directives(namespaces: seq<string>): (r: seq<string>)
    ensures |r| == |namespaces| && forall k :: 0 <= k < |namespaces| ==> r[k] == "using " + namespaces[k] + ";"
  {
    seq(|namespaces|, k requires 0 <= k < |namespaces| => "using " + namespaces[k] + ";")
  }

  /** The lines prepended last: `#nullable enable`, a blank line, the imports. */
  function Prelude(usings: set<string>): seq<Line>
  {
    [Text("#nullable enable"), Text("")] + TextLines(Directives(ImportedNamespaces(usings)))
  }

  /** The namespaces collected for a unit: the interfaces' own, then the members'. */
  function CollectedUsings(interfaceNamespaces: set<string>, ifs: seq<InterfaceAttribute>, traceOf: Failure -> string): set<string>
  {
    interfaceNamespaces + InterfacesEmission(ifs, |ifs|, traceOf).usings
  }

  /** The unit `GenerateSourceCode` returns for a type, or the exception it throws. */
  function UnitLines(t: TypeSymbol, traceOf: Failure -> string): Result<seq<Line>, Failure>
  {
    match GetInterfaces(t)
    case Err(f) => Err(f)
    case Ok(ifs) =>
      match InterfaceNamespaces(ifs)
      case Err(f) => Err(f)
      case Ok(base) =>
        var e := InterfacesEmission(ifs, |ifs|, traceOf);
        Ok(Prelude(base + e.usings) + (Header(t, Implements(ifs)) + e.lines) + [CloseBrace])
  }

  /** The body of the member loop for a stub target, with its `catch`: the namespaces of the
    * return type are added first, so they stay when the return-type check then throws. */
  method EmitMember(source: SourceCodeBuilder, iface: TypeSymbol, member: MethodSymbol, usings: set<string>,
                    traceOf: Failure -> string) returns (usings': set<string>)
    requires IsStubTarget(member)
    modifies source
    ensures source.lines == old(source.lines) + MemberEmission(iface, member, traceOf).lines
    ensures usings' == usings + MemberEmission(iface, member, traceOf).usings
  {
    var returnUsings := SetOf(GetUsings(Some(member.returnType)));
    usings' := usings + returnUsings;
    var failure: Option<Failure> := None;
    if !member.returnType.NamedType? {
      failure := Some(MissingTaskReturnType(member.name));
    } else if member.returnType.isGenericType && |member.returnType.typeArguments| == 0 {
      failure := Some(NoElements);
    } else if member.returnType.isGenericType && |member.returnType.typeArguments| > 1 {
      failure := Some(MoreThanOneElement);
    } else {
      var returnsValue := member.returnType.isGenericType;
      usings' := CollectParameterUsings(member.parameters, usings');
      EmitStub(source, iface, member, returnsValue);
      assert ReturnsValue(member) == Ok(returnsValue);
      assert usings' == usings + (returnUsings + ParameterUsings(member.parameters, |member.parameters|));
    }
    if failure.Some? {
      assert ReturnsValue(member) == Err(failure.value);
      EmitCatch(source, failure.value, traceOf);
    }
  }

  /** The parameter loop of a stub: adds the namespaces of every parameter's type. */
  method CollectParameterUsings(ps: seq<Parameter>, usings: set<string>) returns (usings': set<string>)
    ensures usings' == usings + ParameterUsings(ps, |ps|)
  {
    usings' := usings;
    for k := 0 to |ps|
      invariant usings' == usings + ParameterUsings(ps, k)
    {
      usings' := usings' + SetOf(GetUsings(Some(ps[k].parameterType)));
    }
  }

  /** A stub: the header, then a block whose body returns `default` or nothing. */
  method EmitStub(source: SourceCodeBuilder, iface: TypeSymbol, member: MethodSymbol, returnsValue: bool)
    modifies source
    ensures source.lines == old(source.lines) +
              [Text(StubHeader(iface, member)), OpenBrace, Text(if returnsValue then "return default;" else "return;"), CloseBrace]
  {
    var arguments := Join(", ", ParameterDisplays(member.parameters));
    source.AppendLine("async " + member.returnType.display + " " + iface.name + "." + member.name + "(" + arguments + ")");
    source.OpenBlock();
    if returnsValue {
      source.AppendLine("return default;");
    } else {
      source.AppendLine("return;");
    }
    source.CloseBlock();
  }

  /** The `catch` of the member loop: the failure comment, then a close-block. */
  method EmitCatch(source: SourceCodeBuilder, f: Failure, traceOf: Failure -> string)
    modifies source
    ensures source.lines == old(source.lines) + FailureComment(f, traceOf) + [CloseBrace]
  {
    source.AppendLine("/*");
    source.AppendLine(Message(f));
    source.AppendLine(traceOf(f));
    source.AppendLine("*/");
    source.CloseBlock();
  }

  /** The body of the interface loop: the member loop over one interface's methods, skipping
    * every member that is not a stub target. */
  method EmitInterface(source: SourceCodeBuilder, implementType: InterfaceAttribute, usings: set<string>,
                       traceOf: Failure -> string) returns (usings': set<string>)
    modifies source
    ensures source.lines == old(source.lines) + InterfaceEmission(implementType, traceOf).lines
    ensures usings' == usings + InterfaceEmission(implementType, traceOf).usings
  {
    var members := InterfaceMethods(implementType);
    usings' := usings;
    for j := 0 to |members|
      invariant source.lines == old(source.lines) + MembersEmission(implementType.target, members, j, traceOf).lines
      invariant usings' == usings + MembersEmission(implementType.target, members, j, traceOf).usings
    {
      var member := members[j];
      ghost var prefix := MembersEmission(implementType.target, members, j, traceOf);
      ghost var step := MemberEmission(implementType.target, member, traceOf);
      MembersEmissionNext(implementType.target, members, j, traceOf);
      if member.isStatic || member.kind != Ordinary {
        assert step == Emission([], {});
        assert prefix.lines + step.lines == prefix.lines;
        assert prefix.usings + step.usings == prefix.usings;
        continue;
      }
      usings' := EmitMember(source, implementType.target, member, usings', traceOf);
      UnionAssociative(usings, prefix.usings, step.usings);
      AppendAssociative(old(source.lines), prefix.lines, step.lines);
    }
  }

  /** Proof step: unfolds `UnitLines` once the interfaces and their namespaces are known. */
  lemma UnitLinesOk(t: TypeSymbol, traceOf: Failure -> string, ifs: seq<InterfaceAttribute>, base: set<string>)
    requires GetInterfaces(t) == Ok(ifs) && InterfaceNamespaces(ifs) == Ok(base)
    ensures UnitLines(t, traceOf) ==
              Ok(Prelude(base + InterfacesEmission(ifs, |ifs|, traceOf).usings) +
                 (Header(t, Implements(ifs)) + InterfacesEmission(ifs, |ifs|, traceOf).lines) + [CloseBrace])
  {
  }

  /** The lines written before the first interface: the namespace, the class line, the block. */
  method EmitHeader(source: SourceCodeBuilder, t: TypeSymbol, implements: string)
    modifies source
    ensures source.lines == old(source.lines) + Header(t, implements)
  {
    source.AppendLine("");
    source.AppendLine("namespace " + NamespaceText(t) + ";");
    source.AppendLine("");
    source.AppendLine("partial class " + t.name + " : " + implements);
    source.OpenBlock();
    source.AppendLine("");
  }

  /** The interface loop: every interface's members in order. */
  method EmitInterfaces(source: SourceCodeBuilder, interfaces: seq<InterfaceAttribute>, usings: set<string>,
                        traceOf: Failure -> string) returns (usings': set<string>)
    modifies source
    ensures source.lines == old(source.lines) + InterfacesEmission(interfaces, |interfaces|, traceOf).lines
    ensures usings' == usings + InterfacesEmission(interfaces, |interfaces|, traceOf).usings
  {
    usings' := usings;
    for i := 0 to |interfaces|
      invariant source.lines == old(source.lines) + InterfacesEmission(interfaces, i, traceOf).lines
      invariant usings' == usings + InterfacesEmission(interfaces, i, traceOf).usings
    {
      ghost var prefix := InterfacesEmission(interfaces, i, traceOf);
      ghost var step := InterfaceEmission(interfaces[i], traceOf);
      InterfacesEmissionNext(interfaces, i, traceOf);
      usings' := EmitInterface(source, interfaces[i], usings', traceOf);
      UnionAssociative(usings, prefix.usings, step.usings);
      AppendAssociative(old(source.lines), prefix.lines, step.lines);
    }
  }

  /** Closes the class block, then prepends the imports, a blank line and `#nullable enable`. */
  method EmitPrelude(source: SourceCodeBuilder, usings: set<string>)
    modifies source
    ensures source.lines == Prelude(usings) + old(source.lines) + [CloseBrace]
  {
    source.CloseBlock();
    var directives := Directives(ImportedNamespaces(usings));
    source.PrependLines(directives);
    source.PrependLine("");
    source.PrependLine("#nullable enable");
    assert source.lines == [Text("#nullable enable")] + ([Text("")] + (TextLines(directives) + (old(source.lines) + [CloseBrace])));
    assert [Text("#nullable enable")] + ([Text("")] + TextLines(directives)) == Prelude(usings);
  }

  /** `GenerateSourceCode`: builds the companion unit of one type. */
  method GenerateSourceCode(t: TypeSymbol, traceOf: Failure -> string) returns (r: Result<seq<Line>, Failure>)
    ensures r == UnitLines(t, traceOf)
  {
    var found := GetInterfaces(t);
    if found.Err? {
      return Err(found.error);
    }
    var interfaces := found.value;
    var implements := Implements(interfaces);
    var usings: set<string> := {};
    var interfaceNamespaces := InterfaceNamespaces(interfaces);
    if interfaceNamespaces.Err? {
      return Err(interfaceNamespaces.error);
    }
    usings := usings + interfaceNamespaces.value;

    var source := new SourceCodeBuilder();
    EmitHeader(source, t, implements);
    assert source.lines == Header(t, implements);
    usings := EmitInterfaces(source, interfaces, usings, traceOf);
    assert usings == interfaceNamespaces.value + InterfacesEmission(interfaces, |interfaces|, traceOf).usings;
    EmitPrelude(source, usings);
    UnitLinesOk(t, traceOf, interfaces, interfaceNamespaces.value);
    r := Ok(source.lines);
  }

  // ---------------------------------------------------------------------------------------
  // The per-type loop

  /** The unit handed to the sink for a type: the generated one, or, when generating threw,
    * a unit made of the failure comment alone. */
  function SourceFor(t: TypeSymbol, traceOf: Failure -> string): seq<Line>
  {
    match UnitLines(t, traceOf)
    case Ok(lines) => lines
    case Err(f) => FailureComment(f, traceOf)
  }

  /** The hint name: the qualified display with `<` and `>` replaced by `[` and `]`, plus
    * `.g.cs`. */
  function HintName(t: TypeSymbol): (r: string)
    ensures |r| == |t.hintDisplay| + 5
    ensures r[|t.hintDisplay|..] == ".g.cs"
    ensures forall k :: 0 <= k < |t.hintDisplay| ==>
              r[k] == if t.hintDisplay[k] == '<' then '[' else if t.hintDisplay[k] == '>' then ']' else t.hintDisplay[k]
    ensures forall k :: 0 <= k < |r| ==> r[k] != '<' && r[k] != '>'
  {
    Replace(Replace(t.hintDisplay, '<', '['), '>', ']') + ".g.cs"
  }

  /** A generated file: its hint name and its lines. */
  datatype GeneratedSource = GeneratedSource(hintName: string, lines: seq<Line>)

  /** What the loop hands to the sink for one type. */
  function Output(t: TypeSymbol, traceOf: Failure -> string): GeneratedSource
  {
    GeneratedSource(HintName(t), SourceFor(t, traceOf))
  }

  /** What the loop hands to the sink for a list of types, type after type. */
  function Outputs(types: seq<TypeSymbol>, traceOf: Failure -> string): seq<GeneratedSource>
  {
    seq(|types|, k requires 0 <= k < |types| => Output(types[k], traceOf))
  }

  /** Hint names are compared ordinally, ignoring case. */
  predicate SameHint(a: string, b: string)
  {
    |a| == |b| && forall k :: 0 <= k < |a| ==> ToLowerInvariant(a[k]) == ToLowerInvariant(b[k])
  }

  /** A file already added carries the hint name `h`, up to case. */
  predicate HintTaken(added: seq<GeneratedSource>, h: string)
  {
    exists j :: 0 <= j < |added| && SameHint(added[j].hintName, h)
  }

  /** What handing `files` to `AddSource` one after another leaves in a sink that holds `added`,
    * and the exception that stops it: each file in turn, until one whose hint name is taken. */
  function Feed(added: seq<GeneratedSource>, files: seq<GeneratedSource>): (seq<GeneratedSource>, Option<Failure>)
    decreases |files|
  {
    if files == [] then (added, None)
    else if HintTaken(added, files[0].hintName) then (added, Some(DuplicateHintName(files[0].hintName)))
    else Feed(added + [files[0]], files[1..])
  }

  /** The output sink: `AddSource` appends one generated file, and throws when a file with the
    * same hint name was added before. */
  class SourceProductionContext {
    var added: seq<GeneratedSource>

    constructor ()
      ensures added == []
    {
      added := [];
    }

    method AddSource(hintName: string, lines: seq<Line>) returns (thrown: Option<Failure>)
      modifies this
      ensures HintTaken(old(added), hintName) ==> added == old(added) && thrown == Some(DuplicateHintName(hintName))
      ensures !HintTaken(old(added), hintName) ==> added == old(added) + [GeneratedSource(hintName, lines)] && thrown == None
    {
      if HintTaken(added, hintName) {
        return Some(DuplicateHintName(hintName));
      }
      added := added + [GeneratedSource(hintName, lines)];
      thrown := None;
    }
  }

  /** `GenerateSource`: nothing for a default or empty array; otherwise one `AddSource` per
    * type, in order, with the fallback unit for a type whose generation threw, until
    * `AddSource` throws on a repeated hint name; that exception leaves the method. The
    * argument is `None` for a default `ImmutableArray`. */
  method GenerateSource(context: SourceProductionContext, types: Option<seq<TypeSymbol>>, traceOf: Failure -> string)
    returns (thrown: Option<Failure>)
    modifies context
    ensures types.None? ==> context.added == old(context.added) && thrown == None
    ensures types.Some? ==> (context.added, thrown) == Feed(old(context.added), Outputs(types.value, traceOf))
  {
    thrown := None;
    if types.None? || |types.value| == 0 {
      return;
    }
    var all := types.value;
    ghost var files := Outputs(all, traceOf);
    for i := 0 to |all|
      invariant thrown == None
      invariant Feed(context.added, files[i..]) == Feed(old(context.added), files)
    {
      assert files[i..][0] == Output(all[i], traceOf) && files[i..][1..] == files[i + 1..];
      thrown := AddUnit(context, all[i], traceOf);
      if thrown.Some? {
        return;
      }
    }
  }

  /** The loop body for one type: generate its unit, fall back to the failure comment when
    * that throws, and hand the result to the sink under the type's hint name. */
  method AddUnit(context: SourceProductionContext, t: TypeSymbol, traceOf: Failure -> string)
    returns (thrown: Option<Failure>)
    modifies context
    ensures HintTaken(old(context.added), HintName(t)) ==>
              context.added == old(context.added) && thrown == Some(DuplicateHintName(HintName(t)))
    ensures !HintTaken(old(context.added), HintName(t)) ==>
              context.added == old(context.added) + [Output(t, traceOf)] && thrown == None
  {
    var generated := GenerateSourceCode(t, traceOf);
    var source: seq<Line>;
    match generated {
      case Ok(lines) => source := lines;
      case Err(f) => source := FailureComment(f, traceOf);
    }
    thrown := context.AddSource(HintName(t), source);
  }
}
