/**
 * The slice of the compiler's syntax and symbol model that the generator reads. Roslyn's
 * rendering of symbols to text is not part of this model: each symbol carries the display
 * strings the generator asks for as given fields.
 */
module Symbols {
  import opened Results

  /** Roslyn's `MethodKind`: only `Ordinary` methods get a stub. */
  datatype MethodKind =
    | Ordinary
    | Constructor
    | StaticConstructor
    | Destructor
    | PropertyGet
    | PropertySet
    | EventAdd
    | EventRemove
    | EventRaise
    | UserDefinedOperator
    | Conversion
    | ExplicitInterfaceImplementation
    | DelegateInvoke
    | LocalFunction

  /**
   * A type symbol. `NamedType` is an `INamedTypeSymbol` (classes, interfaces, structs, the
   * constructed generic `Task<T>`, and `void` too); `OtherType` is every other `ITypeSymbol`
   * (arrays, pointers, type parameters, dynamic). Fields:
   *  - `name`: the symbol's `Name`;
   *  - `isGenericType`: Roslyn's `IsGenericType`, true when the type or one of the types it is
   *    nested in has type parameters; so `List<int>.Enumerator` is generic yet has no type
   *    arguments of its own;
   *  - `typeArguments`: the type's own `TypeArguments`;
   *  - `containingNamespace`: the display string of `ContainingNamespace`, `None` for null
   *    (the global namespace displays as `<global namespace>`);
   *  - `display`: `ToDisplayString(SymbolDisplayFormat.MinimallyQualifiedFormat)`;
   *  - `hintDisplay`: the fully qualified display string with type parameters that names the
   *    generated file.
   */
  datatype TypeSymbol =
    | NamedType(name: string, containingNamespace: Option<string>, display: string, hintDisplay: string,
                isGenericType: bool, typeArguments: seq<TypeSymbol>, attributes: seq<AttributeData>, members: seq<Member>)
    | OtherType(name: string, containingNamespace: Option<string>, display: string, hintDisplay: string)

  /** The symbols Roslyn produces: a named type with type arguments of its own is generic, and
    * so is every named type among its type arguments that has some. The other combinations
    * (`isGenericType` false with type arguments) are representable here but never occur. */
  predicate WellFormedType(t: TypeSymbol)
  {
    t.NamedType? ==>
      (|t.typeArguments| > 0 ==> t.isGenericType) &&
      forall a :: a in t.typeArguments ==> WellFormedType(a)
  }

  /** An attribute applied to a type, as `GetAttributes()` returns it; the class is null when
    * the compiler could not bind it. */
  datatype AttributeData = AttributeData(attributeClass: Option<AttributeClass>)

  /** The attribute's class: its name and, for a generic attribute, its type arguments. */
  datatype AttributeClass = AttributeClass(name: string, typeArguments: seq<TypeSymbol>)

  /** A method parameter: its type, and its minimally qualified display (`string name`). */
  datatype Parameter = Parameter(parameterType: TypeSymbol, display: string)

  /** An `IMethodSymbol`. */
  datatype MethodSymbol =
    MethodSymbol(name: string, isStatic: bool, kind: MethodKind, returnType: TypeSymbol, parameters: seq<Parameter>)

  /** A member returned by `GetMembers()`: a method, or anything else (property, field, event,
    * nested type), which the generator ignores. */
  datatype Member = MethodMember(symbol: MethodSymbol) | OtherMember(name: string)

  /** `GetMembers()`: only named types declare members here. */
  function Members(t: TypeSymbol): seq<Member>
  {
    if t.NamedType? then t.members else []
  }

  /** `GetAttributes()`. */
  function Attributes(t: TypeSymbol): seq<AttributeData>
  {
    if t.NamedType? then t.attributes else []
  }

  /** The exceptions the generator can meet, each named after the place that throws it. */
  datatype Failure =
    | MissingTaskReturnType(memberName: string)  // the `as INamedTypeSymbol ?? throw` of a return type
    | NoElements                                 // `Single()` on no type arguments
    | MoreThanOneElement                         // `Single()` on several type arguments
    | IndexOutOfRange                            // `TypeArguments[0]` on an attribute without them
    | NullReference                              // `ContainingNamespace.ToDisplayString()` on null
    | DuplicateHintName(hintName: string)        // `AddSource` with a hint name already added

  /** The exception's `Message`. */
  function Message(f: Failure): string
  {
    match f
    case MissingTaskReturnType(name) => "Method " + name + " must have a Task return type"
    case NoElements => "Sequence contains no elements"
    case MoreThanOneElement => "Sequence contains more than one element"
    case IndexOutOfRange => "Index was outside the bounds of the array."
    case NullReference => "Object reference not set to an instance of an object."
    case DuplicateHintName(h) => "The hintName '" + h + "' of the added source file must be unique within a generator."
  }

  /** The right-most part of a name: `Foo` and `Foo<T>` are simple names. */
  datatype SimpleName = IdentifierName(identifier: string) | GenericName(identifier: string, typeArguments: nat)

  /** An attribute's name as written: `X`, `A.B.X`, or `alias::X`. */
  datatype NameSyntax =
    | Simple(simple: SimpleName)
    | Qualified(left: NameSyntax, right: SimpleName)
    | AliasQualified(alias: string, aliasedName: SimpleName)

  /** The kind of the syntax an attribute list is attached to. */
  datatype DeclarationKind =
    | ClassDeclaration
    | RecordDeclaration
    | StructDeclaration
    | InterfaceDeclaration
    | EnumDeclaration
    | DelegateDeclaration
    | MethodDeclaration
    | PropertyDeclaration
    | ParameterSyntax
    | CompilationUnit

  /** A declaration node, identified so that the semantic model can be asked about it. */
  datatype Declaration = Declaration(kind: DeclarationKind, id: nat)

  /**
   * A syntax node. For an attribute, `owner` is `Parent.Parent`: the attribute's parent is its
   * attribute list, whose parent is what the list is attached to (null for a detached list).
   */
  datatype SyntaxNode =
    | AttributeSyntax(name: NameSyntax, owner: Option<Declaration>)
    | OtherSyntax

  /** The semantic model: the symbol `GetDeclaredSymbol` gives for a declaration, when it is a
    * type symbol. */
  type SemanticModel = Declaration -> Option<TypeSymbol>
}
