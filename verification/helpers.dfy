/** The helpers of the generator: camel-casing, resolving an attribute to the type it marks,
  * the namespaces a type refers to, and the interfaces a type asks to implement. */
module Helpers {
  import opened Results
  import opened Text
  import opened Symbols

  /** `ToCamelCase`: lower-cases the first character, keeps the rest. */
  function ToCamelCase(value: string): (r: string)
    ensures |r| == |value|
    ensures value == [] ==> r == []
    ensures value != [] ==> r[0] == ToLowerInvariant(value[0]) && r[1..] == value[1..]
  {
    if |value| == 0 then value else [ToLowerInvariant(value[0])] + value[1..]
  }

  /** Camel-casing twice changes nothing more than camel-casing once. */
  lemma ToCamelCaseIdempotent(value: string)
    ensures ToCamelCase(ToCamelCase(value)) == ToCamelCase(value)
  {
    if value != [] {
      var once := ToCamelCase(value);
      assert once == [once[0]] + once[1..];
      assert ToLowerInvariant(once[0]) == once[0];
    }
  }

  /** The declarations an attribute may mark for generation: classes, records and structs. */
  predicate IsTypeDeclaration(d: Declaration)
  {
    d.kind == ClassDeclaration || d.kind == RecordDeclaration || d.kind == StructDeclaration
  }

  /** `GetTypeFromAttribute`: the type declared by the class, record or struct the attribute
    * is attached to, when the semantic model yields a type symbol for it; `None` otherwise. */
  function GetTypeFromAttribute(node: SyntaxNode, model: SemanticModel): (r: Option<TypeSymbol>)
    requires node.AttributeSyntax?
    ensures r.Some? <==> node.owner.Some? && IsTypeDeclaration(node.owner.value) && model(node.owner.value).Some?
    ensures r.Some? ==> r == model(node.owner.value)
  {
    match node.owner
    case None => None
    case Some(d) =>
      if !IsTypeDeclaration(d) then None
      else model(d)
  }

  /** `GetUsings`: the namespaces a type refers to, in pre-order over its type arguments. */
  function GetUsings(symbol: Option<TypeSymbol>): (r: seq<string>)
    ensures symbol.None? || symbol.value.containingNamespace.None? ==> r == []
    ensures symbol.Some? && symbol.value.containingNamespace.Some? ==> |r| > 0 && r[0] == symbol.value.containingNamespace.value
    ensures symbol.Some? && symbol.value.containingNamespace.Some? && !(symbol.value.NamedType? && symbol.value.isGenericType) ==>
              r == [symbol.value.containingNamespace.value]
  {
    match symbol
    case None => []
    case Some(t) => UsingsOf(t)
  }

  /** The walk of `GetUsings` on a non-null symbol: stop at a type without a namespace;
    * otherwise its namespace, then, for a generic named type, each type argument's walk. */
  function UsingsOf(t: TypeSymbol): seq<string>
    decreases t, 1
  {
    match t.containingNamespace
    case None => []
    case Some(ns) =>
      if t.NamedType? && t.isGenericType then [ns] + ArgumentUsings(t.typeArguments)
      else [ns]
  }

  /** The walks of the type arguments, one after another in argument order. */
  function ArgumentUsings(args: seq<TypeSymbol>): seq<string>
    decreases args, 0
  {
    if args == [] then [] else UsingsOf(args[0]) + ArgumentUsings(args[1..])
  }

  /** On the symbols Roslyn produces, gating the walk on `IsGenericType` loses nothing: a named
    * type's walk is its namespace followed by the walks of all its own type arguments. */
  lemma WellFormedUsings(t: TypeSymbol)
    requires WellFormedType(t) && t.NamedType? && t.containingNamespace.Some?
    ensures UsingsOf(t) == [t.containingNamespace.value] + ArgumentUsings(t.typeArguments)
  {
    if !t.isGenericType {
      assert t.typeArguments == [];
    }
  }

  /** Where the walk of argument `j` starts inside the walks of all arguments. */
  function ArgumentOffset(args: seq<TypeSymbol>, j: nat): nat
    requires j <= |args|
  {
    |ArgumentUsings(args[..j])|
  }

  /** The arguments' walks are laid out one after another: the walk of argument `j` is the
    * slice that follows the walks of the arguments before it. */
  lemma {:induction false} ArgumentUsingsAt(args: seq<TypeSymbol>, j: nat)
    requires j < |args|
    ensures ArgumentOffset(args, j) + |UsingsOf(args[j])| <= |ArgumentUsings(args)|
    ensures ArgumentUsings(args)[ArgumentOffset(args, j)..ArgumentOffset(args, j) + |UsingsOf(args[j])|] == UsingsOf(args[j])
    decreases j
  {
    assert args[..0] == [];
    if j > 0 {
      ArgumentUsingsAt(args[1..], j - 1);
      assert args[..j] == [args[0]] + args[1..][..j - 1];
      assert ArgumentUsings(args[..j]) == UsingsOf(args[0]) + ArgumentUsings(args[1..][..j - 1]);
    }
  }

  /** Pre-order: for a generic named type with a namespace, the walk of its `j`-th type
    * argument appears whole inside the type's own walk, right after the type's namespace and
    * the walks of the earlier arguments. Applied again to that argument, this reaches every
    * depth of the type-argument tree, not only the first level. */
  lemma ArgumentWalkInside(t: TypeSymbol, j: nat)
    requires t.NamedType? && t.isGenericType && t.containingNamespace.Some? && j < |t.typeArguments|
    ensures var off := 1 + ArgumentOffset(t.typeArguments, j);
            off + |UsingsOf(t.typeArguments[j])| <= |UsingsOf(t)| &&
            UsingsOf(t)[off..off + |UsingsOf(t.typeArguments[j])|] == UsingsOf(t.typeArguments[j])
  {
    ArgumentUsingsAt(t.typeArguments, j);
  }

  /** Every namespace a type argument's walk yields is yielded by the whole walk. */
  lemma ArgumentNamespacesIncluded(t: TypeSymbol, j: nat, ns: string)
    requires t.NamedType? && t.isGenericType && t.containingNamespace.Some? && j < |t.typeArguments|
    requires ns in UsingsOf(t.typeArguments[j])
    ensures ns in GetUsings(Some(t))
  {
    ArgumentWalkInside(t, j);
    var off := 1 + ArgumentOffset(t.typeArguments, j);
    var k :| 0 <= k < |UsingsOf(t.typeArguments[j])| && UsingsOf(t.typeArguments[j])[k] == ns;
    assert UsingsOf(t)[off + k] == ns;
  }

  /** The class name `GetInterfaces` looks for: `nameof(AddImplementationAttribute)`, shared by
    * the bare marker and the generic `AddImplementationAttribute<TInterface>`. */
  const MarkerClassName: string := "AddImplementationAttribute"

  /** An attribute whose class is named like the marker. */
  predicate IsMarker(a: AttributeData)
  {
    a.attributeClass.Some? && a.attributeClass.value.name == MarkerClassName
  }

  /** The `InterfaceAttribute` record: the interface one marker names. */
  datatype InterfaceAttribute = InterfaceAttribute(target: TypeSymbol)

  /** The marker attributes among `attrs`, in order, duplicates kept. */
  function MarkerAttributes(attrs: seq<AttributeData>): (r: seq<AttributeData>)
    ensures forall i :: 0 <= i < |r| ==> IsMarker(r[i])
  {
    if attrs == [] then []
    else (if IsMarker(attrs[0]) then [attrs[0]] else []) + MarkerAttributes(attrs[1..])
  }

  /** The filter keeps an attribute exactly when it is in the list and is a marker. */
  lemma {:induction false} MarkerAttributesMembership(attrs: seq<AttributeData>, a: AttributeData)
    ensures a in MarkerAttributes(attrs) <==> a in attrs && IsMarker(a)
  {
    if attrs != [] {
      MarkerAttributesMembership(attrs[1..], a);
      assert attrs == [attrs[0]] + attrs[1..];
    }
  }

  /** Every marker carries a type argument, so `TypeArguments[0]` does not throw. */
  predicate AllMarkersGeneric(attrs: seq<AttributeData>)
  {
    forall i :: 0 <= i < |attrs| && IsMarker(attrs[i]) ==> |attrs[i].attributeClass.value.typeArguments| > 0
  }

  /** `GetInterfaces`: the first type argument of each marker attribute, in attribute order.
    * A marker without type arguments (the bare `AddImplementationAttribute` matches the name
    * too) throws an index error. */
  function GetInterfaces(symbol: TypeSymbol): (r: Result<seq<InterfaceAttribute>, Failure>)
    ensures r.Ok? <==> AllMarkersGeneric(Attributes(symbol))
    ensures r.Err? ==> r.error == IndexOutOfRange
    ensures r.Ok? ==> |r.value| == |MarkerAttributes(Attributes(symbol))|
    ensures r.Ok? ==> forall i :: 0 <= i < |r.value| ==>
              |MarkerAttributes(Attributes(symbol))[i].attributeClass.value.typeArguments| > 0 &&
              r.value[i].target == MarkerAttributes(Attributes(symbol))[i].attributeClass.value.typeArguments[0]
  {
    InterfacesOf(Attributes(symbol))
  }

  function InterfacesOf(attrs: seq<AttributeData>): (r: Result<seq<InterfaceAttribute>, Failure>)
    ensures r.Ok? <==> AllMarkersGeneric(attrs)
    ensures r.Err? ==> r.error == IndexOutOfRange
    ensures r.Ok? ==> |r.value| == |MarkerAttributes(attrs)|
    ensures r.Ok? ==> forall i :: 0 <= i < |r.value| ==>
              |MarkerAttributes(attrs)[i].attributeClass.value.typeArguments| > 0 &&
              r.value[i].target == MarkerAttributes(attrs)[i].attributeClass.value.typeArguments[0]
  {
    if attrs == [] then Ok([])
    else
      var a := attrs[0];
      assert forall i :: 1 <= i < |attrs| ==> attrs[1..][i - 1] == attrs[i];
      if IsMarker(a) && |a.attributeClass.value.typeArguments| == 0 then Err(IndexOutOfRange)
      else
        match InterfacesOf(attrs[1..])
        case Err(f) => Err(f)
        case Ok(rest) =>
          Ok((if IsMarker(a) then [InterfaceAttribute(a.attributeClass.value.typeArguments[0])] else []) + rest)
  }
}
