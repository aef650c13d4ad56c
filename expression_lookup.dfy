/**
  `Skript.getExpressions(Class...)`: the view of the expression list that the
  matcher walks when it looks for an expression of one of some wanted types.

  Whether a converter between two types exists is decided by the converter
  registry, which is not part of this model; it is passed in as
  `converterExists`.
*/
module ExpressionLookup {
  import opened SyntaxInfo

  /**
    An expression is offered when it declares `Object` as its return type, or
    when its return type converts to at least one of the wanted types.
  */
  predicate Accepts(info: ExpressionInfo, returnTypes: seq<JavaClass>, converterExists: (JavaClass, JavaClass) -> bool)
  {
    info.returnType == ObjectClass || exists t :: t in returnTypes && converterExists(info.returnType, t)
  }

  /** The checker of the filtered iterator: tries `Object` first, then each wanted type in turn. */
  method Check(info: ExpressionInfo, returnTypes: seq<JavaClass>, converterExists: (JavaClass, JavaClass) -> bool)
    returns (accepted: bool)
    ensures accepted == Accepts(info, returnTypes, converterExists)
  {
    if info.returnType == ObjectClass {
      return true;
    }
    for i := 0 to |returnTypes|
      invariant forall j :: 0 <= j < i ==> !converterExists(info.returnType, returnTypes[j])
    {
      if converterExists(info.returnType, returnTypes[i]) {
        return true;
      }
    }
    return false;
  }

  /** `a` can be obtained from `b` by deleting entries. */
  ghost predicate IsSubsequence<T>(a: seq<T>, b: seq<T>)
    decreases |b|
  {
    a == [] || (b != [] && ((a[0] == b[0] && IsSubsequence(a[1..], b[1..])) || IsSubsequence(a, b[1..])))
  }

  /**
    The expressions the filtered iterator yields, in the order it yields them:
    the accepted entries of `expressions`, each as often as it occurs there.
  */
  function GetExpressions(expressions: seq<ExpressionInfo>, returnTypes: seq<JavaClass>, converterExists: (JavaClass, JavaClass) -> bool)
    : (view: seq<ExpressionInfo>)
    ensures IsSubsequence(view, expressions)
    ensures forall e :: e in view <==> e in expressions && Accepts(e, returnTypes, converterExists)
    ensures forall e :: multiset(view)[e] == if Accepts(e, returnTypes, converterExists) then multiset(expressions)[e] else 0
  {
    if expressions == [] then []
    else
      var rest := GetExpressions(expressions[1..], returnTypes, converterExists);
      assert expressions == [expressions[0]] + expressions[1..];
      if Accepts(expressions[0], returnTypes, converterExists) then [expressions[0]] + rest else rest
  }

  /** Without any wanted type, only the expressions declaring `Object` are offered. */
  lemma NoReturnTypesOnlyObject(expressions: seq<ExpressionInfo>, converterExists: (JavaClass, JavaClass) -> bool)
    ensures forall e :: e in GetExpressions(expressions, [], converterExists) <==> e in expressions && e.returnType == ObjectClass
  {
  }
}
