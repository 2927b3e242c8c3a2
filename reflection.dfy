/** The part of the Java reflection model that the utilities read: classes
    with a superclass and declared fields, methods with their declaring class
    and annotations, and the primitive and reference types. */
module Reflection {
  import opened Wrappers

  /** An annotation instance. The model tells annotations apart only by
      their type name: two annotations of one type with different member
      values are the same value here. Nothing proved depends on that. */
  datatype Annotation = Annotation(annotationType: string)

  /** A class is named by its index in the loaded hierarchy. */
  type ClassId = nat

  /** What `Class` exposes to the utilities: the superclass (`None` for
      `java.lang.Object`, which is where `getSuperclass()` returns null) and the
      declared fields, each name mapped to that field's annotations. */
  datatype ClassDecl = ClassDecl(
    name: string,
    superclass: Option<ClassId>,
    fields: map<string, seq<Annotation>>)

  /** The loaded classes, indexed by `ClassId`. */
  type Hierarchy = seq<ClassDecl>

  /** A class's superclass is loaded before it, which makes the superclass
      relation acyclic and every chain finite. */
  ghost predicate WellFormed(h: Hierarchy) {
    forall c | 0 <= c < |h| :: h[c].superclass.Some? ==> h[c].superclass.value < c
  }

  /** A `java.lang.reflect.Field`: the declaring class, the name and the
      annotations returned by `getAnnotations()`. */
  datatype Field = Field(declaringClass: ClassId, name: string, annotations: seq<Annotation>)

  /** A `java.lang.reflect.Method`: the declaring class, the name, what
      `getParameterAnnotations()` returns (one entry per parameter) and what
      `getAnnotations()` returns. */
  datatype Method = Method(
    declaringClass: ClassId,
    name: string,
    paramAnnotations: seq<seq<Annotation>>,
    annotations: seq<Annotation>)

  /** Every method's declaring class is a loaded class. */
  ghost predicate DeclaredIn(h: Hierarchy, methods: seq<Method>) {
    forall m | m in methods :: m.declaringClass < |h|
  }

  /** The chain of classes from `c` up to and including the root, most
      derived first. */
  ghost function Chain(h: Hierarchy, c: ClassId): (chain: seq<ClassId>)
    requires WellFormed(h) && c < |h|
    ensures |chain| > 0 && chain[0] == c
    ensures forall k | 0 <= k < |chain| :: chain[k] < |h|
    decreases c
  {
    match h[c].superclass
    case None => [c]
    case Some(s) => [c] + Chain(h, s)
  }

  /** `Class.isAssignableFrom` along superclasses: `a` is `b` or one of its
      ancestors. */
  predicate IsAssignableFrom(h: Hierarchy, a: ClassId, b: ClassId)
    requires WellFormed(h) && b < |h|
    decreases b
  {
    a == b || (h[b].superclass.Some? && IsAssignableFrom(h, a, h[b].superclass.value))
  }

  /** Assignability is exactly membership in the subclass's chain. */
  lemma {:induction false} AssignableIffInChain(h: Hierarchy, a: ClassId, b: ClassId)
    requires WellFormed(h) && b < |h|
    ensures IsAssignableFrom(h, a, b) <==> a in Chain(h, b)
    decreases b
  {
    if h[b].superclass.Some? {
      AssignableIffInChain(h, a, h[b].superclass.value);
    }
  }

  /** An ancestor never has a larger index than its descendant. */
  lemma {:induction false} AssignableOrdered(h: Hierarchy, a: ClassId, b: ClassId)
    requires WellFormed(h) && b < |h|
    requires IsAssignableFrom(h, a, b)
    ensures a <= b
    decreases b
  {
    if a != b {
      AssignableOrdered(h, a, h[b].superclass.value);
    }
  }

  /** Two classes assignable from each other are the same class. */
  lemma AssignableAntisymmetric(h: Hierarchy, a: ClassId, b: ClassId)
    requires WellFormed(h) && a < |h| && b < |h|
    requires IsAssignableFrom(h, a, b) && IsAssignableFrom(h, b, a)
    ensures a == b
  {
    AssignableOrdered(h, a, b);
    AssignableOrdered(h, b, a);
  }

  /** An ancestor of an ancestor is an ancestor. */
  lemma {:induction false} AssignableTransitive(h: Hierarchy, a: ClassId, b: ClassId, c: ClassId)
    requires WellFormed(h) && b < |h| && c < |h|
    requires IsAssignableFrom(h, a, b) && IsAssignableFrom(h, b, c)
    ensures IsAssignableFrom(h, a, c)
    decreases c
  {
    if b != c {
      AssignableTransitive(h, a, b, h[c].superclass.value);
    }
  }

  /** The primitive types Java reports through `Class.isPrimitive()`. */
  datatype PrimitiveKind = Boolean | Byte | Char | Short | Int | Long | Float | Double | Void

  /** A Java type: a primitive, or a reference type named by its binary name. */
  datatype Type = Primitive(kind: PrimitiveKind) | ClassType(name: string)

  /** The eight primitives that hold a value; `void` is primitive too but has
      no values. */
  predicate IsValuePrimitive(t: Type) {
    t.Primitive? && t.kind != Void
  }
}
