# PODAM utilities, modelled in Dafny

This project models the deterministic helpers of PODAM's `PodamUtils` class. PODAM is a Java test-data generator, and its class-introspection engine relies on these five helpers:

- **`getField`** walks from a class up its superclass chain. It returns the first declared field with the requested name, or null.
- **`selectLatestMethod`** scans a set of candidate methods. When the candidates' declaring classes lie on one inheritance chain, it keeps a method declared in the most specific of them.
- **`getAttributeAnnotations`** merges annotations into one list. First come the field's annotations. Then, for each accessor method in order, come its first parameter's annotations, or the method's own annotations when it has no parameters.
- **`getNiceCharacter` / `getNiceString`** draw identifier characters from the fixed 63-character alphabet `NICE_ASCII_CHARACTERS`. The model writes that array as its four runs, in the array's order: a-z, A-Z, 0-9 and `_`.
- **`primitiveToBoxedType`** maps each of the eight value primitives to its `java.lang` wrapper class.

Layout:

- `wrappers.dfy` (module `Wrappers`): `Option` stands for Java's `null`. `Result` stands for a call that may throw.
- `reflection.dfy` (module `Reflection`) holds what the utilities read from Java reflection:
  - A class hierarchy is a sequence of class declarations. A superclass always has a smaller index than its subclasses, so the hierarchy is finite and acyclic.
  - Fields carry their annotations. Methods carry their declaring class, parameter annotations and own annotations.
  - `Class.isAssignableFrom` is modelled as the reflexive-transitive superclass relation.
  - Types are primitive or reference types.
- `podam_utils.dfy` (module `PodamUtils`) holds the five helpers and the lemmas about them. Each helper with a loop in the source is a method with that loop. Each method is proved against a specification function or states its result outright.

Randomness is an input. `getNiceCharacter` calls `getIntegerInRange(0, 62)` for its index. In the model, that index is a parameter. `GetNiceString` takes the sequence of indices its loop draws, one per character.

Three behaviours of the code worth knowing:

- **The chain includes the root.** `getField` also searches `java.lang.Object`, because its loop runs until `getSuperclass()` returns null.
- **Order matters for same-class and unrelated candidates.** In `selectLatestMethod`, the declaring class of the pick is independent of iteration order only when all candidates lie on one chain (`SelectLatestOrderIndependent`). Among candidates declared in the same class, the last one seen wins, because `isAssignableFrom` is reflexive. Of two candidates from sibling classes, the first one seen is kept.
- **Merged annotations are a list.** `getAttributeAnnotations` returns a `List` that keeps duplicates.

## Model

| member | source | states |
|---|---|---|
| `Reflection.AssignableIffInChain` | src/main/java/uk/co/jemos/podam/api/PodamUtils.java:190 | `Reflection.IsAssignableFrom`, the model of `a.isAssignableFrom(b)`, holds exactly when `a` lies on `b`'s superclass chain, most derived first |
| `Reflection.AssignableOrdered` | src/main/java/uk/co/jemos/podam/api/PodamUtils.java:190 | helper behind `AssignableAntisymmetric`: an ancestor's index in the hierarchy never exceeds its descendant's index |
| `Reflection.AssignableAntisymmetric` | src/main/java/uk/co/jemos/podam/api/PodamUtils.java:190 | two classes assignable from each other are the same class |
| `Reflection.AssignableTransitive` | src/main/java/uk/co/jemos/podam/api/PodamUtils.java:190 | an ancestor of an ancestor is an ancestor |
| `PodamUtils.FindField` | src/main/java/uk/co/jemos/podam/api/PodamUtils.java:55-69 | a field that is found has the requested name and that class's declared annotations, and is declared by the class itself or one of its ancestors |
| `PodamUtils.GetField` | src/main/java/uk/co/jemos/podam/api/PodamUtils.java:55-69 | the while loop over `clazz` returns the superclass-chain lookup's result, and a non-null result has the requested name |
| `PodamUtils.FindFieldNoneIff` | src/main/java/uk/co/jemos/podam/api/PodamUtils.java:57-68 | null is returned exactly when no class on the chain declares the name |
| `PodamUtils.FindFieldFirstDeclarer` | src/main/java/uk/co/jemos/podam/api/PodamUtils.java:57-64 | the result is the field of the first class on the chain (self, then superclasses) that declares the name |
| `PodamUtils.FindFieldShadows` | src/main/java/uk/co/jemos/podam/api/PodamUtils.java:57-64 | if any ancestor declares the name, a field is found, declared between the class and that ancestor: a subclass field shadows a superclass field |
| `PodamUtils.SelectLatestMostDerived` | src/main/java/uk/co/jemos/podam/api/PodamUtils.java:186-194 | the fold yields null iff there are no candidates, otherwise one of the candidates; on one chain, its declaring class is a subclass of (or equals) every candidate's declaring class |
| `PodamUtils.SelectLatestOrderIndependent` | src/main/java/uk/co/jemos/podam/api/PodamUtils.java:179-195 | on one chain, any two iteration orders of the same candidates select methods with the same declaring class |
| `PodamUtils.SelectLatestMethod` | src/main/java/uk/co/jemos/podam/api/PodamUtils.java:186-195 | the for loop computes the fold, so it returns null iff the set is empty, a member of the set otherwise, and the most derived one on a chain |
| `PodamUtils.ContributionsAppend` | src/main/java/uk/co/jemos/podam/api/PodamUtils.java:217-228 | the contributions of two runs of methods are the two runs' contributions, one after the other |
| `PodamUtils.ContributionsSize` | src/main/java/uk/co/jemos/podam/api/PodamUtils.java:210-230 | the merged method annotations are exactly as many as each method's contribution summed: nothing is dropped or de-duplicated |
| `PodamUtils.ContributionAt` | src/main/java/uk/co/jemos/podam/api/PodamUtils.java:217-228 | method `k`'s contribution (`paramAnnotations[0]` if it has parameters, else its annotations) appears unchanged right after those of the methods before it |
| `PodamUtils.MergedAnnotationsMembers` | src/main/java/uk/co/jemos/podam/api/PodamUtils.java:210-230 | an annotation is in the result exactly when it is on the field or in some method's contribution |
| `PodamUtils.AddAll` | src/main/java/uk/co/jemos/podam/api/PodamUtils.java:213-226 | each `for (Annotation annotation : ...) retValue.add(annotation)` loop leaves the list followed by those annotations, in order |
| `PodamUtils.GetAttributeAnnotations` | src/main/java/uk/co/jemos/podam/api/PodamUtils.java:207-231 | the nested loops yield the field's annotations (none for a null field) followed by the methods' contributions in order; the field's annotations are a prefix, the length is the sum of the parts, and a null field with no methods gives an empty list |
| `PodamUtils.NiceCharacterAt` | src/main/java/uk/co/jemos/podam/api/PodamUtils.java:33-38 | the code point of each of the 63 entries, by position |
| `PodamUtils.NiceAsciiCharactersExactly` | src/main/java/uk/co/jemos/podam/api/PodamUtils.java:33-38 | a character is in the alphabet exactly when it is an ASCII letter, an ASCII digit or `_` |
| `PodamUtils.NiceAsciiCharactersDistinct` | src/main/java/uk/co/jemos/podam/api/PodamUtils.java:33-38 | the 63 entries are pairwise distinct |
| `PodamUtils.GetNiceCharacter` | src/main/java/uk/co/jemos/podam/api/PodamUtils.java:238-242 | an index in 0..62 yields that alphabet entry, which is a letter, digit or underscore; any other index throws `ArrayIndexOutOfBoundsException` |
| `PodamUtils.GetNiceString` | src/main/java/uk/co/jemos/podam/api/PodamUtils.java:251-258 | a negative length throws `NegativeArraySizeException`. Otherwise the call succeeds iff every drawn index is in 0..62, and then the string has exactly `length` characters, the `i`-th being the entry at the `i`-th index |
| `PodamUtils.PrimitiveToBoxedType` | src/main/java/uk/co/jemos/podam/api/PodamUtils.java:317-338 | the result is never one of the eight value primitives; a value primitive becomes a class type; every other type, `void` included, is returned unchanged |
| `PodamUtils.PrimitiveToBoxedTypeMatchesWrappers` | src/main/java/uk/co/jemos/podam/api/PodamUtils.java:319-334 | each value primitive maps to its `java.lang` wrapper class, as a separate table lists them |
| `PodamUtils.PrimitiveToBoxedTypeIdempotent` | src/main/java/uk/co/jemos/podam/api/PodamUtils.java:317-338 | boxing twice equals boxing once |
| `PodamUtils.PrimitiveToBoxedTypeInjective` | src/main/java/uk/co/jemos/podam/api/PodamUtils.java:319-334 | distinct value primitives map to distinct wrappers |

## Left out

- `getDoubleInRange`, `getLongInRange` and `getIntegerInRange` are not modelled. They use floating-point arithmetic and `ThreadLocalRandom`. Two things to know about them:
  - In `getLongInRange`, `1 / Long.MAX_VALUE` is integer division and is 0.
  - The truncating cast can, in principle, return `max + 1`.

  This is why `GetNiceCharacter` takes any `int` index and models the out-of-range index as the exception the array access throws.
- `getFieldValue`, `getValueWithMethod` and `getFieldValueWithGetter` are not modelled. They are reflective reads and invocations (`setAccessible`, `Field.get`, `Method.invoke`) with catch-and-log behaviour, so they are foreign calls.
  - `getFieldValueWithGetter` builds the getter name as `"get" + + Character.toUpperCase(...)`. The unary plus turns the character into its numeric code. This model neither captures nor corrects that.
- Logging through SLF4J is I/O and is left out. That includes the warning `getField` logs before returning null.
- `IsAssignableFrom` follows superclasses only. Interfaces, and so methods declared by interfaces, are not part of this model.
- `GetField` takes a loaded class. Java's `null` class argument, where the loop does not run and null is returned, is not modelled.
- The model's types exclude null, so these Java null and exception paths are not modelled:
  - `getField` with a null `attributeName` throws `NullPointerException` from `getDeclaredField`. A `SecurityException` from that call is not caught and propagates.
  - `selectLatestMethod` with a null set throws `NullPointerException`. A null element seen before any non-null pick is kept as the pick, because `selected == null` short-circuits the test, so `{null}` returns null. A null element seen after a non-null pick throws `NullPointerException`.
  - `getAttributeAnnotations` with a null `methods` array, or a null element in it, throws `NullPointerException`.
  - `primitiveToBoxedType(null)` takes the last branch and returns null. `PrimitiveToBoxedType` is total over a `Type` that has no null.
- `GetNiceString` takes its random indices from the `draws` sequence, one per character. The thread-local generator behind them is not modelled.
- `SelectLatestMethod` takes its candidates as a sequence, because the iteration order of Java's `Set` is unspecified. Duplicates in that sequence are allowed.
- The class-info builder, the naming-pattern strategies and the exclusion filter live in `ClassInfo`, `AbstractClassInfoStrategy` and `ClassAttributeApprover`. Those classes are not part of this model.
