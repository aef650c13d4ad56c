/**
  The order in which `Skript.registerExpression` leaves the registered
  expressions, as a function of the registration calls made so far.

  The list is grouped by `ExpressionType` ordinal, lowest first; inside one
  group the most recently registered expression comes first, because every
  call inserts its entry at the start index of its own group.
*/
module ExpressionOrder {
  import opened SyntaxInfo

  /** One accepted `registerExpression` call: the descriptor it built and the type it was given. */
  datatype ExpressionRegistration = ExpressionRegistration(info: ExpressionInfo, kind: ExpressionType)

  /** `List.add(index, element)`: `x` inserted before position `i` of `s`. */
  function Insert<T>(s: seq<T>, i: nat, x: T): seq<T>
    requires i <= |s|
  {
    s[..i] + [x] + s[i..]
  }

  /** The descriptors of a sequence of registrations, position by position. */
  function Infos(regs: seq<ExpressionRegistration>): seq<ExpressionInfo>
  {
    seq(|regs|, i requires 0 <= i < |regs| => regs[i].info)
  }

  /** The registrations of type `t` in `log`, newest first. */
  function Group(log: seq<ExpressionRegistration>, t: ExpressionType): seq<ExpressionRegistration>
  {
    if log == [] then []
    else
      var last := log[|log| - 1];
      if last.kind == t then [last] + Group(log[..|log| - 1], t) else Group(log[..|log| - 1], t)
  }

  /** The groups of every type of ordinal below `k`, in ordinal order. */
  function Below(log: seq<ExpressionRegistration>, k: nat): seq<ExpressionRegistration>
    requires k <= TypeCount
  {
    if k == 0 then [] else Below(log, k - 1) + Group(log, TypeOfOrdinal(k - 1))
  }

  /** The whole expression list after the registrations in `log`. */
  function Arranged(log: seq<ExpressionRegistration>): seq<ExpressionRegistration>
  {
    Below(log, TypeCount)
  }

  // ---------------------------------------------------------------------
  // Independent reference definitions

  /** The registrations of type `t` in `log`, in the order they were made. */
  function OfKind(log: seq<ExpressionRegistration>, t: ExpressionType): seq<ExpressionRegistration>
  {
    if log == [] then []
    else if log[0].kind == t then [log[0]] + OfKind(log[1..], t)
    else OfKind(log[1..], t)
  }

  function Reversed<T>(s: seq<T>): seq<T>
  {
    if s == [] then [] else [s[|s| - 1]] + Reversed(s[..|s| - 1])
  }

  /** How many registrations in `log` have a type of ordinal below `k`. */
  function CountBelow(log: seq<ExpressionRegistration>, k: nat): nat
  {
    if log == [] then 0
    else (if log[0].kind.Ordinal() < k then 1 else 0) + CountBelow(log[1..], k)
  }

  ghost predicate SortedByOrdinal(s: seq<ExpressionRegistration>)
  {
    forall i, j :: 0 <= i < j < |s| ==> s[i].kind.Ordinal() <= s[j].kind.Ordinal()
  }

  // ---------------------------------------------------------------------
  // Lemmas

  lemma GroupSnoc(log: seq<ExpressionRegistration>, x: ExpressionRegistration, t: ExpressionType)
    ensures x.kind == t ==> Group(log + [x], t) == [x] + Group(log, t)
    ensures x.kind != t ==> Group(log + [x], t) == Group(log, t)
  {
    assert (log + [x])[..|log|] == log;
  }

  lemma {:induction false} OfKindSnoc(log: seq<ExpressionRegistration>, x: ExpressionRegistration, t: ExpressionType)
    ensures x.kind == t ==> OfKind(log + [x], t) == OfKind(log, t) + [x]
    ensures x.kind != t ==> OfKind(log + [x], t) == OfKind(log, t)
  {
    if log == [] {
      assert [x][1..] == [];
    } else {
      assert (log + [x])[1..] == log[1..] + [x];
      OfKindSnoc(log[1..], x, t);
    }
  }

  /** Within one type, entries come out newest first: the reverse of registration order. */
  lemma {:induction false} GroupIsNewestFirst(log: seq<ExpressionRegistration>, t: ExpressionType)
    ensures Group(log, t) == Reversed(OfKind(log, t))
  {
    if log != [] {
      var init, last := log[..|log| - 1], log[|log| - 1];
      assert log == init + [last];
      GroupIsNewestFirst(init, t);
      GroupSnoc(init, last, t);
      OfKindSnoc(init, last, t);
      if last.kind == t {
        var o := OfKind(init, t) + [last];
        assert OfKind(log, t) == o;
        assert o[..|o| - 1] == OfKind(init, t);
        assert Reversed(o) == [last] + Reversed(OfKind(init, t));
      } else {
        assert OfKind(log, t) == OfKind(init, t);
        assert Group(log, t) == Group(init, t);
      }
    }
  }

  lemma GroupKinds(log: seq<ExpressionRegistration>, t: ExpressionType)
    ensures forall i :: 0 <= i < |Group(log, t)| ==> Group(log, t)[i].kind == t
  {
    if log != [] {
      GroupKinds(log[..|log| - 1], t);
    }
  }

  /** Every group below `k` holds only types of ordinal below `k`, sorted by ordinal. */
  lemma {:induction false} BelowSorted(log: seq<ExpressionRegistration>, k: nat)
    requires k <= TypeCount
    ensures SortedByOrdinal(Below(log, k))
    ensures forall i :: 0 <= i < |Below(log, k)| ==> Below(log, k)[i].kind.Ordinal() < k
  {
    if k > 0 {
      BelowSorted(log, k - 1);
      GroupKinds(log, TypeOfOrdinal(k - 1));
      var b: seq<ExpressionRegistration> := Below(log, k - 1);
      var g: seq<ExpressionRegistration> := Group(log, TypeOfOrdinal(k - 1));
      assert Below(log, k) == b + g;
      forall i | 0 <= i < |b + g|
        ensures (b + g)[i].kind.Ordinal() < k
        ensures i < |b| ==> (b + g)[i].kind.Ordinal() < k - 1
        ensures i >= |b| ==> (b + g)[i].kind.Ordinal() == k - 1
      {
        if i >= |b| {
          assert (b + g)[i] == g[i - |b|];
        }
      }
    }
  }

  /** The expression list is sorted by `ExpressionType` ordinal. */
  lemma ArrangedSorted(log: seq<ExpressionRegistration>)
    ensures SortedByOrdinal(Arranged(log))
  {
    BelowSorted(log, TypeCount);
  }

  lemma {:induction false} GroupCount(log: seq<ExpressionRegistration>, t: ExpressionType)
    ensures CountBelow(log, t.Ordinal() + 1) == CountBelow(log, t.Ordinal()) + |Group(log, t)|
  {
    if log != [] {
      var init, last := log[..|log| - 1], log[|log| - 1];
      assert log == init + [last];
      GroupCount(init, t);
      GroupSnoc(init, last, t);
      CountSnoc(init, last, t.Ordinal());
      CountSnoc(init, last, t.Ordinal() + 1);
      OrdinalInjective(last.kind, t);
    }
  }

  lemma OrdinalInjective(t: ExpressionType, u: ExpressionType)
    ensures t.Ordinal() == u.Ordinal() <==> t == u
  {
  }

  lemma {:induction false} CountSnoc(log: seq<ExpressionRegistration>, x: ExpressionRegistration, k: nat)
    ensures CountBelow(log + [x], k) == CountBelow(log, k) + (if x.kind.Ordinal() < k then 1 else 0)
  {
    if log == [] {
      assert [x][1..] == [];
    } else {
      assert (log + [x])[1..] == log[1..] + [x];
      CountSnoc(log[1..], x, k);
    }
  }

  /**
    The start index of group `k` is the number of registrations of lower
    ordinal; it is 0 for the first group, never decreases, and stays within
    the list.
  */
  lemma {:induction false} BelowCount(log: seq<ExpressionRegistration>, k: nat)
    requires k <= TypeCount
    ensures |Below(log, k)| == CountBelow(log, k)
    ensures |Below(log, 0)| == 0
    ensures forall j :: 0 <= j <= k ==> |Below(log, j)| <= |Below(log, k)| <= |Arranged(log)|
  {
    if k == 0 {
      CountZero(log);
      BelowPrefix(log, 0, TypeCount);
    } else {
      BelowCount(log, k - 1);
      GroupCount(log, TypeOfOrdinal(k - 1));
      BelowPrefix(log, k, TypeCount);
    }
  }

  lemma CountZero(log: seq<ExpressionRegistration>)
    ensures CountBelow(log, 0) == 0
  {
  }

  lemma {:induction false} BelowPrefix(log: seq<ExpressionRegistration>, k: nat, m: nat)
    requires k <= m <= TypeCount
    ensures |Below(log, k)| <= |Below(log, m)|
    ensures Below(log, m)[..|Below(log, k)|] == Below(log, k)
  {
    if k < m {
      BelowPrefix(log, k, m - 1);
      assert Below(log, m) == Below(log, m - 1) + Group(log, TypeOfOrdinal(m - 1));
    }
  }

  /** Registering `x` leaves every group below its own type as it was and inserts `x` at the head of its group. */
  lemma {:induction false} BelowSnoc(log: seq<ExpressionRegistration>, x: ExpressionRegistration, k: nat)
    requires k <= TypeCount
    ensures k <= x.kind.Ordinal() ==> Below(log + [x], k) == Below(log, k)
    ensures x.kind.Ordinal() < k ==>
      |Below(log, x.kind.Ordinal())| <= |Below(log, k)| &&
      Below(log + [x], k) == Insert(Below(log, k), |Below(log, x.kind.Ordinal())|, x)
  {
    if k > 0 {
      var t := TypeOfOrdinal(k - 1);
      BelowSnoc(log, x, k - 1);
      GroupSnoc(log, x, t);
      OrdinalInjective(x.kind, t);
      if x.kind.Ordinal() == k - 1 {
        OwnGroupStep(log, x, k);
      } else if x.kind.Ordinal() < k - 1 {
        BelowPrefix(log, x.kind.Ordinal(), k - 1);
        HigherGroupStep(log, x, k);
      }
    }
  }

  /** The step of `BelowSnoc` at the group of `x` itself: `x` goes in front of that group. */
  lemma OwnGroupStep(log: seq<ExpressionRegistration>, x: ExpressionRegistration, k: nat)
    requires 0 < k <= TypeCount && x.kind.Ordinal() == k - 1
    requires Below(log + [x], k - 1) == Below(log, k - 1)
    requires Group(log + [x], x.kind) == [x] + Group(log, x.kind)
    ensures Below(log + [x], k) == Insert(Below(log, k), |Below(log, k - 1)|, x)
  {
    var a := Below(log, k - 1);
    var g := Group(log, x.kind);
    assert TypeOfOrdinal(k - 1) == x.kind;
    calc {
      Below(log + [x], k);
      a + ([x] + g);
      { InsertAtEnd(a, x); }
      Insert(a, |a|, x) + g;
      { InsertAppend(a, |a|, x, g); }
      Insert(a + g, |a|, x);
    }
  }

  /** The step of `BelowSnoc` at a group above that of `x`: the group is appended unchanged. */
  lemma HigherGroupStep(log: seq<ExpressionRegistration>, x: ExpressionRegistration, k: nat)
    requires 0 < k <= TypeCount && x.kind.Ordinal() < k - 1
    requires |Below(log, x.kind.Ordinal())| <= |Below(log, k - 1)|
    requires Below(log + [x], k - 1) == Insert(Below(log, k - 1), |Below(log, x.kind.Ordinal())|, x)
    requires Group(log + [x], TypeOfOrdinal(k - 1)) == Group(log, TypeOfOrdinal(k - 1))
    ensures Below(log + [x], k) == Insert(Below(log, k), |Below(log, x.kind.Ordinal())|, x)
  {
    var b := Below(log, k - 1);
    var g := Group(log, TypeOfOrdinal(k - 1));
    InsertAppend(b, |Below(log, x.kind.Ordinal())|, x, g);
  }

  lemma InsertAtEnd<T>(a: seq<T>, x: T)
    ensures Insert(a, |a|, x) == a + [x]
  {
    assert a[..|a|] == a;
    assert a[|a|..] == [];
  }

  lemma InsertAppend<T>(b: seq<T>, p: nat, x: T, g: seq<T>)
    requires p <= |b|
    ensures Insert(b, p, x) + g == Insert(b + g, p, x)
    ensures Insert(b, p, x) + g == b[..p] + ([x] + (b[p..] + g))
  {
    assert (b + g)[..p] == b[..p];
    assert (b + g)[p..] == b[p..] + g;
  }

  /**
    `registerExpression` inserts the new entry at the old start index of its
    type: after every entry of lower ordinal and before every entry already
    registered with the same or a higher ordinal.
  */
  lemma NewEntryPosition(log: seq<ExpressionRegistration>, x: ExpressionRegistration)
    ensures |Below(log, x.kind.Ordinal())| <= |Arranged(log)|
    ensures Arranged(log + [x]) == Insert(Arranged(log), |Below(log, x.kind.Ordinal())|, x)
    ensures forall i :: 0 <= i < |Below(log, x.kind.Ordinal())| ==> Arranged(log)[i].kind.Ordinal() < x.kind.Ordinal()
    ensures forall i :: |Below(log, x.kind.Ordinal())| <= i < |Arranged(log)| ==> Arranged(log)[i].kind.Ordinal() >= x.kind.Ordinal()
  {
    var o := x.kind.Ordinal();
    BelowSnoc(log, x, TypeCount);
    BelowPrefix(log, o, TypeCount);
    BelowSorted(log, o);
    forall i | |Below(log, o)| <= i < |Arranged(log)|
      ensures Arranged(log)[i].kind.Ordinal() >= o
    {
      BelowGroupsAbove(log, o, i);
    }
  }

  /** Entries past the groups below `k` have ordinal at least `k`. */
  lemma {:induction false} BelowGroupsAbove(log: seq<ExpressionRegistration>, k: nat, i: nat)
    requires k <= TypeCount
    requires |Below(log, k)| <= i < |Arranged(log)|
    ensures Arranged(log)[i].kind.Ordinal() >= k
    decreases TypeCount - k
  {
    if k < TypeCount {
      BelowPrefix(log, k + 1, TypeCount);
      var q := |Below(log, k + 1)|;
      if i >= q {
        BelowGroupsAbove(log, k + 1, i);
      } else {
        BelowPrefix(log, k, TypeCount);
        assert Below(log, k + 1) == Below(log, k) + Group(log, TypeOfOrdinal(k));
        GroupKinds(log, TypeOfOrdinal(k));
        assert Arranged(log)[i] == Below(log, k + 1)[i] == Group(log, TypeOfOrdinal(k))[i - |Below(log, k)|];
      }
    } else {
      assert false;
    }
  }

  lemma BelowOfNoRegistrations(k: nat)
    requires k <= TypeCount
    ensures Below([], k) == []
  {
  }

  /** The expression list holds every registered descriptor exactly once. */
  lemma {:induction false} ArrangedIsPermutation(log: seq<ExpressionRegistration>)
    ensures multiset(Arranged(log)) == multiset(log)
  {
    if log == [] {
      BelowOfNoRegistrations(TypeCount);
    } else {
      var init, last := log[..|log| - 1], log[|log| - 1];
      assert log == init + [last];
      ArrangedIsPermutation(init);
      NewEntryPosition(init, last);
      var a, p := Arranged(init), |Below(init, last.kind.Ordinal())|;
      assert a == a[..p] + a[p..];
    }
  }

  /**
    The final list depends only on the registrations made for each type, not on
    how registrations of different types were interleaved.
  */
  lemma {:induction false} ArrangedIgnoresInterleaving(log1: seq<ExpressionRegistration>, log2: seq<ExpressionRegistration>)
    requires forall t :: OfKind(log1, t) == OfKind(log2, t)
    ensures Arranged(log1) == Arranged(log2)
  {
    forall k | 0 <= k <= TypeCount
      ensures Below(log1, k) == Below(log2, k)
    {
      SameBelow(log1, log2, k);
    }
  }

  lemma {:induction false} SameBelow(log1: seq<ExpressionRegistration>, log2: seq<ExpressionRegistration>, k: nat)
    requires k <= TypeCount
    requires forall t :: OfKind(log1, t) == OfKind(log2, t)
    ensures Below(log1, k) == Below(log2, k)
  {
    if k > 0 {
      var t := TypeOfOrdinal(k - 1);
      SameBelow(log1, log2, k - 1);
      assert Group(log1, t) == Group(log2, t) by {
        GroupIsNewestFirst(log1, t);
        GroupIsNewestFirst(log2, t);
      }
    }
  }

  /**
    `expressions` and the group start indices `starts` are the ones the
    registrations in `log` leave behind.
  */
  ghost predicate Arrangement(expressions: seq<ExpressionInfo>, starts: seq<int>, log: seq<ExpressionRegistration>)
  {
    && expressions == Infos(Arranged(log))
    && |starts| == TypeCount
    && (forall k :: 0 <= k < TypeCount ==> starts[k] == |Below(log, k)| <= |expressions|)
  }

  /** The start indices after one more registration of a type of ordinal `o`. */
  function Bumped(starts: seq<int>, o: nat): (r: seq<int>)
  {
    seq(|starts|, k requires 0 <= k < |starts| => starts[k] + (if o < k then 1 else 0))
  }

  /**
    One more registration moves the start index of every later type up by one
    and inserts its descriptor at the old start index of its own type.
  */
  lemma RegistrationStep(expressions: seq<ExpressionInfo>, starts: seq<int>, log: seq<ExpressionRegistration>, x: ExpressionRegistration)
    requires Arrangement(expressions, starts, log)
    ensures 0 <= starts[x.kind.Ordinal()] <= |expressions|
    ensures Arrangement(Insert(expressions, starts[x.kind.Ordinal()], x.info), Bumped(starts, x.kind.Ordinal()), log + [x])
  {
    NewEntryPosition(log, x);
    InfosInsert(Arranged(log), |Below(log, x.kind.Ordinal())|, x);
    forall k | 0 <= k <= TypeCount
      ensures |Below(log + [x], k)| == |Below(log, k)| + (if x.kind.Ordinal() < k then 1 else 0) <= |Arranged(log + [x])|
    {
      BelowSnoc(log, x, k);
      BelowPrefix(log + [x], k, TypeCount);
    }
  }

  /** Registering a NORMAL, a SIMPLE and a PROPERTY expression, in that order, yields SIMPLE, NORMAL, PROPERTY. */
  lemma RankGroupingExample(a: ExpressionInfo, b: ExpressionInfo, c: ExpressionInfo)
    ensures Infos(Arranged([ExpressionRegistration(a, Normal), ExpressionRegistration(b, Simple), ExpressionRegistration(c, Property)]))
         == [b, a, c]
  {
    var x, y, z := ExpressionRegistration(a, Normal), ExpressionRegistration(b, Simple), ExpressionRegistration(c, Property);
    BelowOfNoRegistrations(TypeCount);
    BelowOfNoRegistrations(Normal.Ordinal());
    NewEntryPosition([], x);
    assert Arranged([x]) == [x];
    NewEntryPosition([x], y);
    BelowCount([x], Simple.Ordinal());
    assert [x] + [y] == [x, y];
    assert Arranged([x, y]) == [y, x];
    NewEntryPosition([x, y], z);
    BelowCount([x, y], Property.Ordinal());
    assert [x, y] + [z] == [x, y, z];
    assert Arranged([x, y, z]) == [y, x, z];
  }

  /** Two SIMPLE expressions come out newest first. */
  lemma NewestFirstExample(a: ExpressionInfo, b: ExpressionInfo)
    ensures Infos(Arranged([ExpressionRegistration(a, Simple), ExpressionRegistration(b, Simple)])) == [b, a]
  {
    var x, y := ExpressionRegistration(a, Simple), ExpressionRegistration(b, Simple);
    BelowOfNoRegistrations(TypeCount);
    BelowOfNoRegistrations(Simple.Ordinal());
    NewEntryPosition([], x);
    assert Arranged([x]) == [x];
    NewEntryPosition([x], y);
    BelowCount([x], Simple.Ordinal());
    assert [x] + [y] == [x, y];
    assert Arranged([x, y]) == [y, x];
  }

  lemma InfosInsert(regs: seq<ExpressionRegistration>, i: nat, x: ExpressionRegistration)
    requires i <= |regs|
    ensures Infos(Insert(regs, i, x)) == Insert(Infos(regs), i, x.info)
  {
    var l, r := Infos(Insert(regs, i, x)), Insert(Infos(regs), i, x.info);
    assert |l| == |r|;
    forall j | 0 <= j < |l|
      ensures l[j] == r[j]
    {
      if j < i {
      } else if j == i {
      } else {
      }
    }
  }
}
