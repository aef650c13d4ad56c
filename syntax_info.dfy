/**
  The descriptors Skript keeps for every registered piece of syntax, and the
  ranks that order expressions for the pattern matcher.
*/
module SyntaxInfo {

  /** A Java class, identified by its fully qualified name. */
  datatype JavaClass = JavaClass(name: string)

  /** `Object.class`: an expression declaring it may be used wherever any type is wanted. */
  const ObjectClass := JavaClass("java.lang.Object")

  /** `ExpressionType.values().length`. */
  const TypeCount: nat := 5

  /**
    The rank of an expression, `Skript.ExpressionType`. Expressions of a lower
    ordinal come first in the list the matcher tries.
  */
  datatype ExpressionType = Simple | Normal | Combined | Property | PatternMatchesEverything
  {
    /** The enum constant's position in its declaration. */
    function Ordinal(): (k: nat)
      ensures k < TypeCount
    {
      match this
      case Simple => 0
      case Normal => 1
      case Combined => 2
      case Property => 3
      case PatternMatchesEverything => 4
    }
  }

  /** `ExpressionType.values()[k]`: the constant whose ordinal is `k`. */
  function TypeOfOrdinal(k: nat): (t: ExpressionType)
    requires k < TypeCount
    ensures t.Ordinal() == k
  {
    if k == 0 then Simple
    else if k == 1 then Normal
    else if k == 2 then Combined
    else if k == 3 then Property
    else PatternMatchesEverything
  }

  /** A registered condition or effect: its patterns and the class that implements it. */
  datatype SyntaxElementInfo = SyntaxElementInfo(patterns: seq<string>, elementClass: JavaClass)

  /** A registered expression: its patterns, the type of the values it returns, and its class. */
  datatype ExpressionInfo = ExpressionInfo(patterns: seq<string>, returnType: JavaClass, elementClass: JavaClass)

  /** A registered event: its patterns, its class, and the host events it listens to. */
  datatype SkriptEventInfo = SkriptEventInfo(patterns: seq<string>, elementClass: JavaClass, events: seq<JavaClass>)
}
