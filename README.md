# Skript syntax registration, in Dafny

This project models the registration core of Skript, a scripting language
embedded in a Minecraft server. During start-up, addons register their syntax
with the static API of `ch.njol.skript.Skript`:

- conditions and effects, which also go into one combined `statements` list;
- expressions, each with a rank (`ExpressionType`) that decides where the
  pattern matcher tries it;
- events.

After start-up, registration is closed. From then on every `register*` call
throws `SkriptAPIException` and changes nothing. The matcher later reads the
lists. `getExpressions(Class...)` filters the expression list down to those
whose return type can be converted to a wanted type. The same class also has
two saturating number parsers, `parseInt` and `parseLong`.

Files and modules:

- `syntax_info.dfy`, module `SyntaxInfo`: the descriptors (`SyntaxElementInfo`,
  `ExpressionInfo`, `SkriptEventInfo`), Java classes as names, and
  `ExpressionType` with its ordinals.
- `expression_order.dfy`, module `ExpressionOrder`: the order of the expression
  list as a function of the accepted `registerExpression` calls (`Arranged`),
  and the lemmas about it: grouped by ordinal, newest first inside a group,
  start indices that count the lower ranks.
- `registrations.dfy`, module `Registrations`: class `Skript`. It holds the
  static fields as `seq` fields, the start-index array as an `array<int>` and
  the registration flag. Its methods are the registration methods and getters.
  `Valid()` ties the lists to two ghost records: which statements are
  conditions, and the log of expression registrations.
- `expression_lookup.dfy`, module `ExpressionLookup`: the filter of
  `getExpressions(Class...)` and its checker loop.
- `number_parsing.dfy`, module `NumberParsing`: `parseInt` and `parseLong`
  over literals matching `-?\d+`.

Three details of the code that the model keeps:

- Inside one `ExpressionType`, the code puts each new expression at the head
  of its group. So the list is newest first within a rank, not in
  registration order (`ExpressionOrder.GroupIsNewestFirst`).
- Calling `stopAcceptingRegistrations` a second time is not an error. It only
  sets the flag to false again.
- Expressions are ordered by the enum's ordinals: registering NORMAL, SIMPLE,
  PROPERTY in that order gives SIMPLE, NORMAL, PROPERTY
  (`ExpressionOrder.RankGroupingExample`).

## Model

| member | source | states |
|---|---|---|
| `SyntaxInfo.TypeOfOrdinal` | src/main/java/ch/njol/skript/Skript.java:643-645 | the five expression types in declaration order; the constant at position k has ordinal k |
| `ExpressionOrder.GroupIsNewestFirst` | src/main/java/ch/njol/skript/Skript.java:658-665 | within one type, expressions come out in reverse registration order (newest first) |
| `ExpressionOrder.ArrangedSorted` | src/main/java/ch/njol/skript/Skript.java:643-665 | the expression list is sorted by type ordinal SIMPLE, NORMAL, COMBINED, PROPERTY, PATTERN_MATCHES_EVERYTHING |
| `ExpressionOrder.BelowCount` | src/main/java/ch/njol/skript/Skript.java:649-664 | the start index of type k equals the number of registered expressions of lower ordinal; index 0 is 0, the indices never decrease, and none exceeds the list's length |
| `ExpressionOrder.BelowSnoc` | src/main/java/ch/njol/skript/Skript.java:661-664 | one more registration leaves the groups up to its own type unchanged and inserts the entry at the head of its own group |
| `ExpressionOrder.NewEntryPosition` | src/main/java/ch/njol/skript/Skript.java:658-665 | the new entry goes in at the old start index of its type: after every entry of lower ordinal, before every entry already registered with the same or higher ordinal |
| `ExpressionOrder.RegistrationStep` | src/main/java/ch/njol/skript/Skript.java:661-664 | the start-index invariant is preserved: incrementing every later index and inserting at the own index gives the list and indices of the extended log |
| `ExpressionOrder.ArrangedIsPermutation` | src/main/java/ch/njol/skript/Skript.java:664 | every registered expression is in the list exactly once, and nothing else is |
| `ExpressionOrder.ArrangedIgnoresInterleaving` | src/main/java/ch/njol/skript/Skript.java:658-665 | the final list depends only on the registrations made per type, not on how registrations of different types were interleaved |
| `ExpressionOrder.RankGroupingExample` | src/main/java/ch/njol/skript/Skript.java:643-665 | registering NORMAL a, SIMPLE b, PROPERTY c gives the list [b, a, c] |
| `ExpressionOrder.NewestFirstExample` | src/main/java/ch/njol/skript/Skript.java:658-665 | registering SIMPLE a then SIMPLE b gives the list [b, a] |
| `Registrations.SelectPartition` | src/main/java/ch/njol/skript/Skript.java:610-627 | the conditions and the effects, picked out of `statements` by which method added them, together make up `statements` exactly (lengths add up, multisets add up) |
| `Registrations.Skript.constructor` | src/main/java/ch/njol/skript/Skript.java:576-649 | initially registration is open, every list is empty and every start index is 0 |
| `Registrations.Skript.CheckAcceptRegistrations` | src/main/java/ch/njol/skript/Skript.java:578-581 | accepted exactly when the flag is set; otherwise rejected with "Registering is disabled after initialization!" |
| `Registrations.Skript.StopAcceptingRegistrations` | src/main/java/ch/njol/skript/Skript.java:583-597 | afterwards the flag is false and nothing else changes; a second call is allowed |
| `Registrations.Skript.RegisterCondition` | src/main/java/ch/njol/skript/Skript.java:610-615 | when open: appends the descriptor to `conditions` and to `statements`, `effects` unchanged; when closed: rejected and the object unchanged |
| `Registrations.Skript.RegisterEffect` | src/main/java/ch/njol/skript/Skript.java:622-627 | when open: appends the descriptor to `effects` and to `statements`, `conditions` unchanged; when closed: rejected and the object unchanged |
| `Registrations.Skript.GetStatements` | src/main/java/ch/njol/skript/Skript.java:629-631 | returns `statements`, which holds exactly the conditions and the effects |
| `Registrations.Skript.GetConditions` | src/main/java/ch/njol/skript/Skript.java:633-635 | returns `conditions`, which are the statements added by `registerCondition`, in order |
| `Registrations.Skript.GetEffects` | src/main/java/ch/njol/skript/Skript.java:637-639 | returns `effects`, which are the statements added by `registerEffect`, in order |
| `Registrations.Skript.BumpStartIndices` | src/main/java/ch/njol/skript/Skript.java:661-663 | the loop of `registerExpression`: every start index above the given ordinal goes up by one, the others stay as they were |
| `Registrations.Skript.RegisterExpression` | src/main/java/ch/njol/skript/Skript.java:658-665 | when open: every start index above the type's ordinal goes up by one and the descriptor is inserted at the old start index of its type, keeping the list equal to the arrangement of the registration log; when closed: rejected, object and index array unchanged |
| `Registrations.Skript.RegisterEvent` | src/main/java/ch/njol/skript/Skript.java:691-694 | when open: appends an event descriptor for the one host event; when closed: rejected and the object unchanged |
| `Registrations.Skript.RegisterEventForAll` | src/main/java/ch/njol/skript/Skript.java:696-699 | when open: appends an event descriptor for the given host events; when closed: rejected and the object unchanged |
| `ExpressionLookup.Check` | src/main/java/ch/njol/skript/Skript.java:674-682 | the checker accepts exactly the descriptors whose return type is `Object` or converts to some wanted type |
| `ExpressionLookup.GetExpressions` | src/main/java/ch/njol/skript/Skript.java:671-684 | the view is a subsequence of the expression list holding every accepted entry as often as the list does, and nothing else |
| `ExpressionLookup.NoReturnTypesOnlyObject` | src/main/java/ch/njol/skript/Skript.java:675-681 | with no wanted types, only `Object`-typed expressions are offered |
| `NumberParsing.ParseSaturating` | src/main/java/ch/njol/skript/Skript.java:532-556 | the sign-based fallback after an overflow is the same as clamping the literal's value to the range |
| `NumberParsing.ParseInt` | src/main/java/ch/njol/skript/Skript.java:532-539 | the exact value if it lies in [-2^31, 2^31-1]; below that `Integer.MIN_VALUE`, and then the string starts with "-"; above that `Integer.MAX_VALUE`, and then it does not |
| `NumberParsing.ParseLong` | src/main/java/ch/njol/skript/Skript.java:549-556 | the exact value if it lies in [-2^63, 2^63-1]; below that `Long.MIN_VALUE` (string starts with "-"); above that `Long.MAX_VALUE` (it does not) |
| `NumberParsing.DecimalRoundTrip` | src/main/java/ch/njol/skript/Skript.java:533-535 | the decimal rendering of any integer matches `-?\d+` and denotes that integer |
| `NumberParsing.ParseIntRoundTrip` | src/main/java/ch/njol/skript/Skript.java:532-539 | `parseInt` returns every 32-bit integer from its decimal rendering |
| `NumberParsing.ParseLongRoundTrip` | src/main/java/ch/njol/skript/Skript.java:549-556 | `parseLong` returns every 64-bit integer from its decimal rendering |
| `NumberParsing.ParseIntMonotonic` | src/main/java/ch/njol/skript/Skript.java:532-539 | saturation keeps order: a smaller literal never parses to a larger int |

## Left out

- Plugin start-up and shutdown (`onEnable`, `onDisable`), `loadClasses`, the updater, metrics, variable loading and the reflection-based clean-up thread: host API, I/O, threads and reflection.
- `dispatchCommand` and the logging and messaging helpers (`info`, `error`, `broadcast`, `message`, `exception` and the like): host messaging and logging.
- `toString(double)`, `EPSILON`, `EPSILON_MULT`: floating point.
- `getSyntaxElementName`: it dispatches on the Java class hierarchy by reflection, which the model does not represent.
- Registrations.Skript.StopAcceptingRegistrations: the calls to `Converters.createMissingConverters()` and `Classes.sortClassInfos()` and the debug listing of classes are not modelled; they act on the converter and class registries, which are not part of this model.
- `Converters.converterExists` is a function parameter of the lookup, so no property of the converter relation (reflexivity, transitive closure) is assumed or proved.
- `acceptRegistrations` is a public field in the source, so other code could set it back to true. In the model, only `StopAcceptingRegistrations` changes it.
- The `IllegalArgumentException` that the `register*` methods declare comes from the descriptor constructors. Their source is not part of this model, so descriptors are built without failing.
- The start indices are Java `int`s. Overflow after 2^31 registrations is not modelled.
- `getExpressions(Class...)` returns a lazy `CheckedIterator`. The model returns the sequence that iterator would yield.
- `getExpressions()` (no arguments) and `getEvents()` are not separate members. The model reads the `expressions` and `events` fields directly.
- The getters hand out the live collections: `getStatements`, `getConditions`, `getEffects` and `getEvents` return the `ArrayList` itself, and the iterator of `getExpressions()` supports `remove()`. Callers can therefore add or remove entries at any time, also after registration is closed, and can shrink `expressions` without adjusting `expressionTypesStartIndices`, after which the next insert lands in the wrong group or throws `IndexOutOfBoundsException`. The model's getters return sequence values, so changes made through them are not modelled: the promise that a closed registry does not change, and the start-index invariant of `Valid()`, hold only for changes made through the registration methods.
- Descriptors are values, not objects. The one `SyntaxElementInfo` object that Java adds to both `conditions` and `statements` is modelled as equal values.
- `parseInt` and `parseLong` are modelled only on input matching `-?\d+`, which their `assert` demands. With Java assertions disabled, other input would reach the fallback; that case is not modelled.
- `Expression.java` (an interface with no implementation in view) and `EffTree.java` (a domain effect over game blocks) are not part of this model.
