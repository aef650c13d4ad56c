/**
  The registration side of `Skript`: the lists of conditions, effects,
  statements, expressions and events that addons fill during start-up, and
  the flag that closes them once start-up is over.
*/
module Registrations {
  import opened SyntaxInfo
  import opened ExpressionOrder

  /** Which of `registerCondition` and `registerEffect` added an entry of `statements`. */
  datatype StatementKind = ConditionStatement | EffectStatement

  /** What a `register*` call does: it adds its entry, or throws `SkriptAPIException`. */
  datatype Status = Accepted | Rejected(message: string)

  const RegistrationsClosed := "Registering is disabled after initialization!"

  /** The entries of `statements` that were added as `kind`, in the order they were added. */
  function Select<T>(statements: seq<T>, kinds: seq<StatementKind>, kind: StatementKind): seq<T>
    requires |kinds| == |statements|
  {
    if statements == [] then []
    else
      var n := |statements| - 1;
      Select(statements[..n], kinds[..n], kind) + (if kinds[n] == kind then [statements[n]] else [])
  }

  lemma SelectSnoc(statements: seq<SyntaxElementInfo>, kinds: seq<StatementKind>, info: SyntaxElementInfo, added: StatementKind, kind: StatementKind)
    requires |kinds| == |statements|
    ensures Select(statements + [info], kinds + [added], kind)
         == Select(statements, kinds, kind) + (if added == kind then [info] else [])
  {
    assert (statements + [info])[..|statements|] == statements;
    assert (kinds + [added])[..|kinds|] == kinds;
  }

  /**
    `statements` is exactly the conditions and the effects merged: every entry
    is one or the other, and nothing else is in it.
  */
  lemma {:induction false} SelectPartition(statements: seq<SyntaxElementInfo>, kinds: seq<StatementKind>)
    requires |kinds| == |statements|
    ensures |Select(statements, kinds, ConditionStatement)| + |Select(statements, kinds, EffectStatement)| == |statements|
    ensures multiset(Select(statements, kinds, ConditionStatement)) + multiset(Select(statements, kinds, EffectStatement))
         == multiset(statements)
  {
    SelectMultiset(statements, kinds);
    assert |multiset(statements)| == |statements|;
  }

  lemma {:induction false} SelectMultiset<T>(statements: seq<T>, kinds: seq<StatementKind>)
    requires |kinds| == |statements|
    ensures multiset(Select(statements, kinds, ConditionStatement)) + multiset(Select(statements, kinds, EffectStatement))
         == multiset(statements)
  {
    if statements != [] {
      var n := |statements| - 1;
      var init, last := statements[..n], statements[n];
      SelectMultiset(init, kinds[..n]);
      var c: seq<T> := if kinds[n] == ConditionStatement then [last] else [];
      var e: seq<T> := if kinds[n] == EffectStatement then [last] else [];
      MergeStep(Select(init, kinds[..n], ConditionStatement), Select(init, kinds[..n], EffectStatement), statements, c, e);
    }
  }

  /** One more entry, added to one side of a split of `s`, keeps it a split. */
  lemma MergeStep<T>(a: seq<T>, b: seq<T>, s: seq<T>, c: seq<T>, e: seq<T>)
    requires s != []
    requires multiset(a) + multiset(b) == multiset(s[..|s| - 1])
    requires (c == [s[|s| - 1]] && e == []) || (c == [] && e == [s[|s| - 1]])
    ensures multiset(a + c) + multiset(b + e) == multiset(s)
  {
    assert s == s[..|s| - 1] + [s[|s| - 1]];
  }

  /**
    The static registration state of `Skript`. The Java fields are static; one
    object of this class stands for them.
  */
  class Skript {
    var acceptRegistrations: bool
    var conditions: seq<SyntaxElementInfo>
    var effects: seq<SyntaxElementInfo>
    var statements: seq<SyntaxElementInfo>
    var expressions: seq<ExpressionInfo>
    const expressionTypesStartIndices: array<int>
    var events: seq<SkriptEventInfo>

    /** Whether each entry of `statements` is a condition or an effect. */
    ghost var statementKinds: seq<StatementKind>
    /** Every accepted `registerExpression` call, oldest first. */
    ghost var expressionLog: seq<ExpressionRegistration>

    ghost predicate Valid()
      reads this, expressionTypesStartIndices
    {
      && expressionTypesStartIndices.Length == TypeCount
      && |statementKinds| == |statements|
      && conditions == Select(statements, statementKinds, ConditionStatement)
      && effects == Select(statements, statementKinds, EffectStatement)
      && Arrangement(expressions, expressionTypesStartIndices[..], expressionLog)
    }

    /** The static initialisers: registration open, every list empty, every start index 0. */
    constructor ()
      ensures Valid() && fresh(expressionTypesStartIndices)
      ensures acceptRegistrations
      ensures conditions == [] && effects == [] && statements == [] && expressions == [] && events == []
      ensures expressionTypesStartIndices[..] == seq(TypeCount, _ => 0)
    {
      acceptRegistrations := true;
      conditions, effects, statements, statementKinds := [], [], [], [];
      expressions, expressionLog := [], [];
      events := [];
      expressionTypesStartIndices := new int[TypeCount](_ => 0);
      new;
      forall k | 0 <= k <= TypeCount
        ensures Below([], k) == []
      {
        BelowOfNoRegistrations(k);
      }
    }

    method CheckAcceptRegistrations() returns (status: Status)
      ensures status.Accepted? <==> acceptRegistrations
      ensures status.Rejected? ==> status.message == RegistrationsClosed
    {
      if !acceptRegistrations {
        return Rejected(RegistrationsClosed);
      }
      return Accepted;
    }

    /**
      Closes registration. Calling it again is harmless: the flag is simply
      set to false once more. The converter closure and the sorting of class
      infos that follow it belong to other registries.
    */
    method StopAcceptingRegistrations()
      requires Valid()
      modifies this`acceptRegistrations
      ensures Valid() && !acceptRegistrations
    {
      acceptRegistrations := false;
    }

    /**
      Adds a condition to `conditions` and to `statements`; once registration
      is closed it is rejected and nothing changes.
    */
    method RegisterCondition(condition: JavaClass, patterns: seq<string>) returns (status: Status)
      requires Valid()
      modifies this`conditions, this`statements, this`statementKinds
      ensures Valid()
      ensures status == (if old(acceptRegistrations) then Accepted else Rejected(RegistrationsClosed))
      ensures !old(acceptRegistrations) ==> unchanged(this)
      ensures old(acceptRegistrations) ==>
        var info := SyntaxElementInfo(patterns, condition);
        && conditions == old(conditions) + [info]
        && statements == old(statements) + [info]
        && statementKinds == old(statementKinds) + [ConditionStatement]
        && effects == old(effects)
    {
      status := CheckAcceptRegistrations();
      if status.Rejected? {
        return;
      }
      var info := SyntaxElementInfo(patterns, condition);
      SelectSnoc(statements, statementKinds, info, ConditionStatement, ConditionStatement);
      SelectSnoc(statements, statementKinds, info, ConditionStatement, EffectStatement);
      conditions := conditions + [info];
      statements := statements + [info];
      statementKinds := statementKinds + [ConditionStatement];
    }

    /**
      Adds an effect to `effects` and to `statements`; once registration is
      closed it is rejected and nothing changes.
    */
    method RegisterEffect(effect: JavaClass, patterns: seq<string>) returns (status: Status)
      requires Valid()
      modifies this`effects, this`statements, this`statementKinds
      ensures Valid()
      ensures status == (if old(acceptRegistrations) then Accepted else Rejected(RegistrationsClosed))
      ensures !old(acceptRegistrations) ==> unchanged(this)
      ensures old(acceptRegistrations) ==>
        var info := SyntaxElementInfo(patterns, effect);
        && effects == old(effects) + [info]
        && statements == old(statements) + [info]
        && statementKinds == old(statementKinds) + [EffectStatement]
        && conditions == old(conditions)
    {
      status := CheckAcceptRegistrations();
      if status.Rejected? {
        return;
      }
      var info := SyntaxElementInfo(patterns, effect);
      SelectSnoc(statements, statementKinds, info, EffectStatement, ConditionStatement);
      SelectSnoc(statements, statementKinds, info, EffectStatement, EffectStatement);
      effects := effects + [info];
      statements := statements + [info];
      statementKinds := statementKinds + [EffectStatement];
    }

    /** Conditions and effects, in the order they were registered. */
    method GetStatements() returns (result: seq<SyntaxElementInfo>)
      requires Valid()
      ensures result == statements
      ensures |result| == |conditions| + |effects|
      ensures multiset(result) == multiset(conditions) + multiset(effects)
    {
      SelectPartition(statements, statementKinds);
      return statements;
    }

    /** The conditions: the statements added by `registerCondition`, in order. */
    method GetConditions() returns (result: seq<SyntaxElementInfo>)
      requires Valid()
      ensures result == conditions == Select(statements, statementKinds, ConditionStatement)
    {
      return conditions;
    }

    /** The effects: the statements added by `registerEffect`, in order. */
    method GetEffects() returns (result: seq<SyntaxElementInfo>)
      requires Valid()
      ensures result == effects == Select(statements, statementKinds, EffectStatement)
    {
      return effects;
    }

    /** The loop of `registerExpression`: every start index above ordinal `o` goes up by one. */
    method BumpStartIndices(o: nat)
      requires expressionTypesStartIndices.Length == TypeCount && o < TypeCount
      modifies expressionTypesStartIndices
      ensures expressionTypesStartIndices[..] == Bumped(old(expressionTypesStartIndices[..]), o)
    {
      ghost var starts0 := expressionTypesStartIndices[..];
      for i := o + 1 to TypeCount
        invariant forall k :: 0 <= k < TypeCount ==>
          expressionTypesStartIndices[k] == starts0[k] + (if o < k < i then 1 else 0)
      {
        expressionTypesStartIndices[i] := expressionTypesStartIndices[i] + 1;
      }
    }

    /**
      Adds an expression at the head of its type's group: every later group's
      start index moves up by one and the entry goes in at the start index of
      its own group. Once registration is closed it is rejected and nothing
      changes.
    */
    method RegisterExpression(c: JavaClass, returnType: JavaClass, kind: ExpressionType, patterns: seq<string>) returns (status: Status)
      requires Valid()
      modifies this`expressions, this`expressionLog, expressionTypesStartIndices
      ensures Valid()
      ensures status == (if old(acceptRegistrations) then Accepted else Rejected(RegistrationsClosed))
      ensures !old(acceptRegistrations) ==> unchanged(this) && unchanged(expressionTypesStartIndices)
      ensures old(acceptRegistrations) ==>
        var info := ExpressionInfo(patterns, returnType, c);
        && expressions == Insert(old(expressions), old(expressionTypesStartIndices[kind.Ordinal()]), info)
        && expressionLog == old(expressionLog) + [ExpressionRegistration(info, kind)]
        && expressionTypesStartIndices[..] == Bumped(old(expressionTypesStartIndices[..]), kind.Ordinal())
    {
      status := CheckAcceptRegistrations();
      if status.Rejected? {
        return;
      }
      var info := ExpressionInfo(patterns, returnType, c);
      var x := ExpressionRegistration(info, kind);
      ghost var starts0 := expressionTypesStartIndices[..];
      RegistrationStep(expressions, starts0, expressionLog, x);
      BumpStartIndices(kind.Ordinal());
      var at := expressionTypesStartIndices[kind.Ordinal()];
      assert at == starts0[kind.Ordinal()];
      expressions := Insert(expressions, at, info);
      expressionLog := expressionLog + [x];
      assert Arrangement(expressions, expressionTypesStartIndices[..], expressionLog);
    }

    /** Adds an event listening to one host event; rejected once registration is closed. */
    method RegisterEvent(c: JavaClass, event: JavaClass, patterns: seq<string>) returns (status: Status)
      requires Valid()
      modifies this`events
      ensures Valid()
      ensures status == (if old(acceptRegistrations) then Accepted else Rejected(RegistrationsClosed))
      ensures !old(acceptRegistrations) ==> unchanged(this)
      ensures old(acceptRegistrations) ==> events == old(events) + [SkriptEventInfo(patterns, c, [event])]
    {
      status := CheckAcceptRegistrations();
      if status.Rejected? {
        return;
      }
      events := events + [SkriptEventInfo(patterns, c, [event])];
    }

    /** Adds an event listening to several host events; rejected once registration is closed. */
    method RegisterEventForAll(c: JavaClass, eventClasses: seq<JavaClass>, patterns: seq<string>) returns (status: Status)
      requires Valid()
      modifies this`events
      ensures Valid()
      ensures status == (if old(acceptRegistrations) then Accepted else Rejected(RegistrationsClosed))
      ensures !old(acceptRegistrations) ==> unchanged(this)
      ensures old(acceptRegistrations) ==> events == old(events) + [SkriptEventInfo(patterns, c, eventClasses)]
    {
      status := CheckAcceptRegistrations();
      if status.Rejected? {
        return;
      }
      events := events + [SkriptEventInfo(patterns, c, eventClasses)];
    }
  }
}
