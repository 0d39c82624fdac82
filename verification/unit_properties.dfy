/**
 * Properties of what `RestfulSourceGenerator` emits, stated about its specification
 * functions: the block structure of a unit, the layout of its first lines, which namespaces
 * end up imported, the implements clause and the hint names.
 */
module UnitProperties {
  import opened Results
  import opened Text
  import opened Symbols
  import opened SourceCode
  import opened Helpers
  import opened RestfulSourceGenerator

  // ---------------------------------------------------------------------------------------
  // Block balance

  /** The sum of `weight` over the first `n` items. */
  function Sum<T>(weight: T -> nat, xs: seq<T>, n: nat): nat
    requires n <= |xs|
  {
    if n == 0 then 0 else Sum(weight, xs, n - 1) + weight(xs[n - 1])
  }

  /** When every item closes `weight` blocks more than it opens, a run closes their sum. */
  lemma {:induction false} RunDepth<T>(emit: T -> Emission, weight: T -> nat, xs: seq<T>, n: nat)
    requires n <= |xs|
    requires forall x :: Depth(emit(x).lines) == -(weight(x) as int)
    ensures Depth(Run(emit, xs, n).lines) == -(Sum(weight, xs, n) as int)
  {
    if n > 0 {
      RunDepth(emit, weight, xs, n - 1);
      DepthAppend(Run(emit, xs, n - 1).lines, emit(xs[n - 1]).lines);
    }
  }

  /** A stub target whose return-type check throws. */
  predicate Fails(m: MethodSymbol)
  {
    IsStubTarget(m) && ReturnsValue(m).Err?
  }

  /** How many of the methods fail. */
  function FailedMembers(ms: seq<MethodSymbol>): nat
  {
    Sum((m: MethodSymbol) => if Fails(m) then 1 else 0, ms, |ms|)
  }

  /** How many methods fail across the interfaces. */
  function FailedInterfaces(ifs: seq<InterfaceAttribute>): nat
  {
    Sum((a: InterfaceAttribute) => FailedMembers(InterfaceMethods(a)), ifs, |ifs|)
  }

  /** A member closes one block more than it opens exactly when it fails. */
  lemma MemberDepth(iface: TypeSymbol, m: MethodSymbol, traceOf: Failure -> string)
    ensures Depth(MemberEmission(iface, m, traceOf).lines) == if Fails(m) then -1 else 0
  {
    MemberEmissionSpec(iface, m, traceOf);
  }

  /** An interface closes one block more than it opens per failed member. */
  lemma InterfaceDepth(a: InterfaceAttribute, traceOf: Failure -> string)
    ensures Depth(InterfaceEmission(a, traceOf).lines) == -(FailedMembers(InterfaceMethods(a)) as int)
  {
    var ms := InterfaceMethods(a);
    forall m ensures Depth(MemberEmission(a.target, m, traceOf).lines) == -((if Fails(m) then 1 else 0) as int) {
      MemberDepth(a.target, m, traceOf);
    }
    RunDepth(MemberEmitter(a.target, traceOf), (m: MethodSymbol) => if Fails(m) then 1 else 0, ms, |ms|);
  }

  /** The prelude is text only. */
  lemma PreludeDepth(usings: set<string>)
    ensures Depth(Prelude(usings)) == 0
  {
    var texts := ["#nullable enable", ""] + Directives(ImportedNamespaces(usings));
    assert Prelude(usings) == TextLines(texts);
    DepthOfText(texts);
  }

  /** The header opens the class block. */
  lemma HeaderDepth(t: TypeSymbol, implements: string)
    ensures Depth(Header(t, implements)) == 1
  {
    var texts := ["", "namespace " + NamespaceText(t) + ";", "", "partial class " + t.name + " : " + implements];
    assert Header(t, implements) == TextLines(texts) + [OpenBrace, Text("")];
    DepthOfText(texts);
    DepthAppend(TextLines(texts), [OpenBrace, Text("")]);
  }

  /**
   * The blocks of a generated unit balance except for one close-block per failed member:
   * a unit is balanced exactly when every stub target's return type passed the check.
   */
  lemma UnitDepth(t: TypeSymbol, traceOf: Failure -> string)
    requires UnitLines(t, traceOf).Ok?
    ensures GetInterfaces(t).Ok?
    ensures Depth(UnitLines(t, traceOf).value) == -(FailedInterfaces(GetInterfaces(t).value) as int)
  {
    var ifs := GetInterfaces(t).value;
    var base := InterfaceNamespaces(ifs).value;
    var e := InterfacesEmission(ifs, |ifs|, traceOf);
    UnitLinesOk(t, traceOf, ifs, base);
    HeaderDepth(t, Implements(ifs));
    InterfacesDepth(ifs, traceOf);
    UnitShapeDepth(base + e.usings, Header(t, Implements(ifs)), e.lines);
  }

  /** The interfaces close one block more than they open per failed member. */
  lemma InterfacesDepth(ifs: seq<InterfaceAttribute>, traceOf: Failure -> string)
    ensures Depth(InterfacesEmission(ifs, |ifs|, traceOf).lines) == -(FailedInterfaces(ifs) as int)
  {
    forall a ensures Depth(InterfaceEmission(a, traceOf).lines) == -(FailedMembers(InterfaceMethods(a)) as int) {
      InterfaceDepth(a, traceOf);
    }
    RunDepth(InterfaceEmitter(traceOf), (a: InterfaceAttribute) => FailedMembers(InterfaceMethods(a)), ifs, |ifs|);
  }

  /** Prelude and closing brace add nothing to the depth of a header and a body but the close. */
  lemma UnitShapeDepth(usings: set<string>, header: seq<Line>, body: seq<Line>)
    ensures Depth(Prelude(usings) + (header + body) + [CloseBrace]) == Depth(header) + Depth(body) - 1
  {
    PreludeDepth(usings);
    DepthAppend(header, body);
    DepthAppend(Prelude(usings), header + body);
    DepthAppend(Prelude(usings) + (header + body), [CloseBrace]);
  }

  // ---------------------------------------------------------------------------------------
  // Layout of a unit

  /**
   * The layout of a unit: `#nullable enable` and a blank line, then one `using` directive per
   * imported namespace in order, then the six header lines, and the close-block of the class
   * last.
   */
  predicate Layout(lines: seq<Line>, imports: seq<string>, header: seq<Line>)
    requires |header| == 6
  {
    |lines| >= |imports| + 9 &&
    lines[0] == Text("#nullable enable") && lines[1] == Text("") &&
    (forall k :: 0 <= k < |imports| ==> lines[2 + k] == Text("using " + imports[k] + ";")) &&
    lines[2 + |imports|..8 + |imports|] == header &&
    lines[|lines| - 1] == CloseBrace
  }

  /** A generated unit has that layout, with the collected namespaces as its imports and the
    * namespace line and the class declaration as its header. */
  lemma UnitLayout(t: TypeSymbol, traceOf: Failure -> string)
    requires UnitLines(t, traceOf).Ok?
    ensures GetInterfaces(t).Ok? && InterfaceNamespaces(GetInterfaces(t).value).Ok?
    ensures var ifs := GetInterfaces(t).value;
            Layout(UnitLines(t, traceOf).value,
                   ImportedNamespaces(CollectedUsings(InterfaceNamespaces(ifs).value, ifs, traceOf)),
                   Header(t, Implements(ifs)))
  {
    var ifs := GetInterfaces(t).value;
    var base := InterfaceNamespaces(ifs).value;
    var e := InterfacesEmission(ifs, |ifs|, traceOf);
    UnitLinesOk(t, traceOf, ifs, base);
    UnitShape(base + e.usings, Header(t, Implements(ifs)), e.lines);
  }

  /** The prelude: `#nullable enable`, a blank line, then one `using` directive per import. */
  lemma PreludeLines(usings: set<string>)
    ensures var ns := ImportedNamespaces(usings);
            |Prelude(usings)| == |ns| + 2 &&
            Prelude(usings)[0] == Text("#nullable enable") && Prelude(usings)[1] == Text("") &&
            forall k :: 0 <= k < |ns| ==> Prelude(usings)[2 + k] == Text("using " + ns[k] + ";")
  {
    var ns := ImportedNamespaces(usings);
    var prelude := Prelude(usings);
    forall k | 0 <= k < |ns|
      ensures prelude[2 + k] == Text("using " + ns[k] + ";")
    {
      assert prelude[2 + k] == TextLines(Directives(ns))[k];
    }
  }

  /** A unit put together from a prelude, a six-line header and a body has that layout. */
  lemma UnitShape(usings: set<string>, header: seq<Line>, body: seq<Line>)
    requires |header| == 6
    ensures Layout(Prelude(usings) + (header + body) + [CloseBrace], ImportedNamespaces(usings), header)
  {
    PreludeLines(usings);
    LayoutOf(Prelude(usings), ImportedNamespaces(usings), header, body);
  }

  /** The layout follows from a prelude of the right shape, whatever it was made from. */
  lemma LayoutOf(prelude: seq<Line>, ns: seq<string>, header: seq<Line>, body: seq<Line>)
    requires |header| == 6 && |prelude| == |ns| + 2
    requires prelude[0] == Text("#nullable enable") && prelude[1] == Text("")
    requires forall k :: 0 <= k < |ns| ==> prelude[2 + k] == Text("using " + ns[k] + ";")
    ensures Layout(prelude + (header + body) + [CloseBrace], ns, header)
  {
    var lines := prelude + (header + body) + [CloseBrace];
    forall k | 0 <= k < |ns|
      ensures lines[2 + k] == Text("using " + ns[k] + ";")
    {
      assert lines[2 + k] == prelude[2 + k];
    }
    assert lines[2 + |ns|..8 + |ns|] == header by {
      assert lines[|prelude|..] == header + body + [CloseBrace];
    }
  }

  // ---------------------------------------------------------------------------------------
  // Collected namespaces

  /** An item's namespaces are among those of any run that includes it. */
  lemma {:induction false} RunUsingsInclude<T>(emit: T -> Emission, xs: seq<T>, n: nat, k: nat)
    requires k < n <= |xs|
    ensures emit(xs[k]).usings <= Run(emit, xs, n).usings
  {
    if k < n - 1 {
      RunUsingsInclude(emit, xs, n - 1, k);
    }
  }

  /** A run's namespaces all come from its items. */
  lemma {:induction false} RunUsingsSound<T>(emit: T -> Emission, xs: seq<T>, n: nat, x: string)
    requires n <= |xs| && x in Run(emit, xs, n).usings
    ensures exists k :: 0 <= k < n && x in emit(xs[k]).usings
  {
    if x in emit(xs[n - 1]).usings {
      assert 0 <= n - 1 < n;
    } else {
      RunUsingsSound(emit, xs, n - 1, x);
      var k :| 0 <= k < n - 1 && x in emit(xs[k]).usings;
      assert 0 <= k < n;
    }
  }

  /** A member of an interface's methods sits at some index of them. */
  lemma MemberIndex(ms: seq<MethodSymbol>, m: MethodSymbol) returns (j: nat)
    requires m in ms
    ensures j < |ms| && ms[j] == m
  {
    j :| 0 <= j < |ms| && ms[j] == m;
  }

  /** A stub target's namespaces are collected for the unit. */
  lemma MemberNamespacesCollected(ifs: seq<InterfaceAttribute>, i: nat, m: MethodSymbol, x: string,
                                  base: set<string>, traceOf: Failure -> string)
    requires i < |ifs| && m in InterfaceMethods(ifs[i])
    requires x in MemberEmission(ifs[i].target, m, traceOf).usings
    ensures x in CollectedUsings(base, ifs, traceOf)
  {
    var ms := InterfaceMethods(ifs[i]);
    var j := MemberIndex(ms, m);
    RunUsingsInclude(MemberEmitter(ifs[i].target, traceOf), ms, |ms|, j);
    RunUsingsInclude(InterfaceEmitter(traceOf), ifs, |ifs|, i);
  }

  /**
   * Every namespace that the return type of a stub target refers to (its own and, recursively,
   * its type arguments') is collected, also when the return-type check then throws.
   */
  lemma ReturnNamespacesCollected(ifs: seq<InterfaceAttribute>, i: nat, m: MethodSymbol, x: string,
                                  base: set<string>, traceOf: Failure -> string)
    requires i < |ifs| && m in InterfaceMethods(ifs[i]) && IsStubTarget(m)
    requires x in GetUsings(Some(m.returnType))
    ensures x in CollectedUsings(base, ifs, traceOf)
  {
    MemberEmissionSpec(ifs[i].target, m, traceOf);
    MemberNamespacesCollected(ifs, i, m, x, base, traceOf);
  }

  /** Every namespace that a parameter type of a stub that was written refers to is collected. */
  lemma ParameterNamespacesCollected(ifs: seq<InterfaceAttribute>, i: nat, m: MethodSymbol, k: nat, x: string,
                                     base: set<string>, traceOf: Failure -> string)
    requires i < |ifs| && m in InterfaceMethods(ifs[i]) && IsStubTarget(m) && ReturnsValue(m).Ok?
    requires k < |m.parameters| && x in GetUsings(Some(m.parameters[k].parameterType))
    ensures x in CollectedUsings(base, ifs, traceOf)
  {
    MemberEmissionSpec(ifs[i].target, m, traceOf);
    ParameterUsingsComplete(m.parameters, |m.parameters|, k, x);
    MemberNamespacesCollected(ifs, i, m, x, base, traceOf);
  }

  /**
   * Nothing else is collected: a namespace comes from an interface itself, from the return
   * type of one of its stub targets, or from a parameter type of a stub that was written.
   */
  lemma CollectedUsingsSound(ifs: seq<InterfaceAttribute>, base: set<string>, traceOf: Failure -> string, x: string)
    requires x in CollectedUsings(base, ifs, traceOf)
    ensures x in base ||
            exists i, m :: 0 <= i < |ifs| && m in InterfaceMethods(ifs[i]) && IsStubTarget(m) &&
              (x in GetUsings(Some(m.returnType)) ||
               (ReturnsValue(m).Ok? && exists k :: 0 <= k < |m.parameters| && x in GetUsings(Some(m.parameters[k].parameterType))))
  {
    if x !in base {
      RunUsingsSound(InterfaceEmitter(traceOf), ifs, |ifs|, x);
      var i :| 0 <= i < |ifs| && x in InterfaceEmission(ifs[i], traceOf).usings;
      var ms := InterfaceMethods(ifs[i]);
      RunUsingsSound(MemberEmitter(ifs[i].target, traceOf), ms, |ms|, x);
      var j :| 0 <= j < |ms| && x in MemberEmission(ifs[i].target, ms[j], traceOf).usings;
      var m := ms[j];
      MemberEmissionSpec(ifs[i].target, m, traceOf);
      if x !in GetUsings(Some(m.returnType)) {
        ParameterUsingsSound(m.parameters, |m.parameters|, x);
      }
      assert m in InterfaceMethods(ifs[i]);
    }
  }

  // ---------------------------------------------------------------------------------------
  // The implements clause, the hint names and the sink

  /** Each interface's display appears, in order, in the implements clause. */
  lemma ImplementsListsInterfaces(ifs: seq<InterfaceAttribute>, i: nat)
    requires i < |ifs|
    ensures var off := JoinOffset(", ", Displays(ifs), i);
            off + |ifs[i].target.display| <= |Implements(ifs)| &&
            Implements(ifs)[off..off + |ifs[i].target.display|] == ifs[i].target.display
  {
    JoinAt(", ", Displays(ifs), i);
  }

  /** A hint display without square brackets. */
  predicate SquareFree(s: string)
  {
    forall k :: 0 <= k < |s| ==> s[k] != '[' && s[k] != ']'
  }

  /** Types whose hint displays differ (and hold no square brackets) get different hint names. */
  lemma HintNameInjective(t1: TypeSymbol, t2: TypeSymbol)
    requires SquareFree(t1.hintDisplay) && SquareFree(t2.hintDisplay)
    requires HintName(t1) == HintName(t2)
    ensures t1.hintDisplay == t2.hintDisplay
  {
    var d1, d2 := t1.hintDisplay, t2.hintDisplay;
    forall k | 0 <= k < |d1|
      ensures d1[k] == d2[k]
    {
      assert HintName(t1)[k] == HintName(t2)[k];
    }
  }

  /** No two files carry the same hint name, up to case. */
  predicate DistinctHints(files: seq<GeneratedSource>)
  {
    forall i, j :: 0 <= i < j < |files| ==> !SameHint(files[i].hintName, files[j].hintName)
  }

  /**
   * The sink keeps a prefix of the files handed to it: every file up to the `n`-th went in
   * because its hint name was free, and when `n` falls short, the `n`-th file's hint name was
   * taken and its exception is the one raised.
   */
  lemma {:induction false} FeedPrefix(added: seq<GeneratedSource>, files: seq<GeneratedSource>) returns (n: nat)
    ensures n <= |files|
    ensures Feed(added, files).0 == added + files[..n]
    ensures forall i :: 0 <= i < n ==> !HintTaken(added + files[..i], files[i].hintName)
    ensures n < |files| ==> HintTaken(added + files[..n], files[n].hintName) &&
                            Feed(added, files).1 == Some(DuplicateHintName(files[n].hintName))
    ensures n == |files| ==> Feed(added, files).1 == None
    decreases |files|
  {
    if files == [] || HintTaken(added, files[0].hintName) {
      n := 0;
      assert added + files[..0] == added;
      return;
    }
    var next := added + [files[0]];
    var m := FeedPrefix(next, files[1..]);
    n := m + 1;
    forall i | 1 <= i <= n
      ensures added + files[..i] == next + files[1..][..i - 1]
    {
      assert files[..i] == [files[0]] + files[1..][..i - 1];
    }
    forall i | 0 <= i < n
      ensures !HintTaken(added + files[..i], files[i].hintName)
    {
      if i == 0 {
        assert added + files[..0] == added;
      } else {
        assert files[1..][i - 1] == files[i];
      }
    }
  }

  /** With distinct hint names, no file finds its hint name taken by those before it. */
  lemma DistinctNotTaken(added: seq<GeneratedSource>, files: seq<GeneratedSource>)
    requires DistinctHints(added + files)
    ensures forall n :: 0 <= n < |files| ==> !HintTaken(added + files[..n], files[n].hintName)
  {
    var all := added + files;
    forall n, j | 0 <= n < |files| && 0 <= j < |added + files[..n]|
      ensures !SameHint((added + files[..n])[j].hintName, files[n].hintName)
    {
      assert (added + files[..n])[j] == all[j];
      assert files[n] == all[|added| + n];
    }
  }

  /** Files whose hint names are all distinct, also from those already added, all go in, and
    * nothing is thrown. */
  lemma FeedDistinct(added: seq<GeneratedSource>, files: seq<GeneratedSource>)
    requires DistinctHints(added + files)
    ensures Feed(added, files) == (added + files, None)
  {
    DistinctNotTaken(added, files);
    var n := FeedPrefix(added, files);
    assert n == |files|;
    assert files[..n] == files;
  }

  /**
   * A type handed over twice, as a type carrying two markers is, makes the second `AddSource`
   * throw: only the first unit goes in, and the loop stops there.
   */
  lemma RepeatedTypeAborts(t: TypeSymbol, traceOf: Failure -> string)
    ensures Feed([], Outputs([t, t], traceOf)) == ([Output(t, traceOf)], Some(DuplicateHintName(HintName(t))))
  {
    var o := Output(t, traceOf);
    assert Outputs([t, t], traceOf) == [o, o];
    assert !HintTaken([], o.hintName);
    assert [o, o][1..] == [o];
    var none: seq<GeneratedSource> := [];
    assert none + [o] == [o];
    assert Feed([], [o, o]) == Feed([o], [o]);
    assert SameHint([o][0].hintName, o.hintName);
    assert HintTaken([o], o.hintName);
  }
}
