/** The deterministic helpers of `PodamUtils` that the class-introspection
    engine relies on: field lookup along the superclass chain, selection of
    the most specific method, annotation merging, identifier-string
    generation and primitive boxing. */
module PodamUtils {
  import opened Wrappers
  import opened Reflection

  // ---------------------------------------------------------------- getField

  /** The field `name` as `getField` finds it: declared by `c` itself or,
      failing that, looked up from `c`'s superclass. */
  ghost function FindField(h: Hierarchy, c: ClassId, name: string): (r: Option<Field>)
    requires WellFormed(h) && c < |h|
    ensures r.Some? ==> r.value.name == name
    ensures r.Some? ==> r.value.declaringClass < |h| && name in h[r.value.declaringClass].fields
    ensures r.Some? ==> r.value.annotations == h[r.value.declaringClass].fields[name]
    ensures r.Some? ==> IsAssignableFrom(h, r.value.declaringClass, c)
    decreases c
  {
    if name in h[c].fields then Some(Field(c, name, h[c].fields[name]))
    else match h[c].superclass
      case None => None
      case Some(s) => FindField(h, s, name)
  }

  /** Walks from `pojoClass` up the superclass chain and returns the first
      declared field called `attributeName`, or `None` when no class on the
      chain declares one. */
  method GetField(h: Hierarchy, pojoClass: ClassId, attributeName: string) returns (field: Option<Field>)
    requires WellFormed(h) && pojoClass < |h|
    ensures field == FindField(h, pojoClass, attributeName)
    ensures field.Some? ==> field.value.name == attributeName
  {
    var clazz: Option<ClassId> := Some(pojoClass);
    while clazz.Some?
      invariant clazz.Some? ==> clazz.value < |h|
      invariant clazz.Some? ==> FindField(h, clazz.value, attributeName) == FindField(h, pojoClass, attributeName)
      invariant clazz.None? ==> FindField(h, pojoClass, attributeName) == None
      decreases if clazz.Some? then clazz.value + 1 else 0
    {
      var current := clazz.value;
      if attributeName in h[current].fields {
        return Some(Field(current, attributeName, h[current].fields[attributeName]));
      }
      clazz := h[current].superclass;
    }
    return None;
  }

  /** The field found is the one declared by the first class on the chain
      that declares the name. */
  lemma {:induction false} FindFieldFirstDeclarer(h: Hierarchy, c: ClassId, name: string, k: nat)
    requires WellFormed(h) && c < |h|
    requires k < |Chain(h, c)| && name in h[Chain(h, c)[k]].fields
    requires forall j | 0 <= j < k :: name !in h[Chain(h, c)[j]].fields
    ensures FindField(h, c, name) == Some(Field(Chain(h, c)[k], name, h[Chain(h, c)[k]].fields[name]))
    decreases c
  {
    var chain := Chain(h, c);
    if k > 0 {
      assert name !in h[chain[0]].fields;
      var s := h[c].superclass.value;
      var rest := Chain(h, s);
      assert chain == [c] + rest;
      forall j | 0 <= j < k - 1
        ensures name !in h[rest[j]].fields
      {
        assert rest[j] == chain[j + 1];
      }
      FindFieldFirstDeclarer(h, s, name, k - 1);
    }
  }

  /** Shadowing: whenever some ancestor `a` of `c` declares the name, a field
      is found, and its declaring class lies between `c` and `a`, so a
      subclass declaration hides the superclass one. */
  lemma {:induction false} FindFieldShadows(h: Hierarchy, c: ClassId, name: string, a: ClassId)
    requires WellFormed(h) && c < |h| && a < |h|
    requires IsAssignableFrom(h, a, c) && name in h[a].fields
    ensures FindField(h, c, name).Some?
    ensures IsAssignableFrom(h, a, FindField(h, c, name).value.declaringClass)
    decreases c
  {
    if name !in h[c].fields {
      assert a != c;
      FindFieldShadows(h, h[c].superclass.value, name, a);
    }
  }

  /** Not found exactly when no class on the chain declares the name. */
  lemma FindFieldNoneIff(h: Hierarchy, c: ClassId, name: string)
    requires WellFormed(h) && c < |h|
    ensures FindField(h, c, name).None? <==>
            forall k | 0 <= k < |Chain(h, c)| :: name !in h[Chain(h, c)[k]].fields
  {
    var chain := Chain(h, c);
    var found := FindField(h, c, name);
    if found.Some? {
      AssignableIffInChain(h, found.value.declaringClass, c);
    } else {
      forall k | 0 <= k < |chain|
        ensures name !in h[chain[k]].fields
      {
        AssignableIffInChain(h, chain[k], c);
        if name in h[chain[k]].fields {
          FindFieldShadows(h, c, name, chain[k]);
        }
      }
    }
  }

  // ------------------------------------------------------ selectLatestMethod

  /** Every two candidates are declared on one inheritance chain. */
  ghost predicate OnOneChain(h: Hierarchy, methods: seq<Method>)
    requires WellFormed(h) && DeclaredIn(h, methods)
  {
    forall m, n | m in methods && n in methods ::
      IsAssignableFrom(h, m.declaringClass, n.declaringClass) ||
      IsAssignableFrom(h, n.declaringClass, m.declaringClass)
  }

  /** The loop of `selectLatestMethod` as a left fold: a candidate replaces
      the current pick when the pick's declaring class is assignable from the
      candidate's. */
  ghost function SelectLatest(h: Hierarchy, methods: seq<Method>): Option<Method>
    requires WellFormed(h) && DeclaredIn(h, methods)
    decreases |methods|
  {
    if methods == [] then None
    else
      var last := methods[|methods| - 1];
      var selected := SelectLatest(h, methods[..|methods| - 1]);
      if selected.None? || IsAssignableFrom(h, selected.value.declaringClass, last.declaringClass)
      then Some(last)
      else selected
  }

  /** The pick is absent exactly for no candidates, is one of the candidates,
      and on one chain is declared in a subclass of (or the same class as)
      every candidate's declaring class. */
  lemma {:induction false} SelectLatestMostDerived(h: Hierarchy, methods: seq<Method>)
    requires WellFormed(h) && DeclaredIn(h, methods)
    ensures SelectLatest(h, methods).None? <==> methods == []
    ensures SelectLatest(h, methods).Some? ==> SelectLatest(h, methods).value in methods
    ensures SelectLatest(h, methods).Some? && OnOneChain(h, methods) ==>
            forall m | m in methods ::
              IsAssignableFrom(h, m.declaringClass, SelectLatest(h, methods).value.declaringClass)
    decreases |methods|
  {
    if methods != [] {
      var prefix := methods[..|methods| - 1];
      var last := methods[|methods| - 1];
      assert methods == prefix + [last];
      SelectLatestMostDerived(h, prefix);
      var previous := SelectLatest(h, prefix);
      var selected := SelectLatest(h, methods).value;
      if OnOneChain(h, methods) {
        assert OnOneChain(h, prefix);
        forall m | m in methods
          ensures IsAssignableFrom(h, m.declaringClass, selected.declaringClass)
        {
          if m != selected && previous.Some? && selected == last {
            assert m in prefix;
            AssignableTransitive(h, m.declaringClass, previous.value.declaringClass, last.declaringClass);
          }
        }
      }
    }
  }

  /** Java's `Set` has no fixed iteration order; on one chain every order of
      the same candidates selects a method from the same declaring class. */
  lemma SelectLatestOrderIndependent(h: Hierarchy, methods1: seq<Method>, methods2: seq<Method>)
    requires WellFormed(h) && DeclaredIn(h, methods1) && DeclaredIn(h, methods2)
    requires forall m :: m in methods1 <==> m in methods2
    requires OnOneChain(h, methods1)
    ensures SelectLatest(h, methods1).None? <==> SelectLatest(h, methods2).None?
    ensures SelectLatest(h, methods1).Some? ==>
            SelectLatest(h, methods1).value.declaringClass == SelectLatest(h, methods2).value.declaringClass
  {
    SelectLatestMostDerived(h, methods1);
    SelectLatestMostDerived(h, methods2);
    assert methods1 == [] <==> methods2 == [] by {
      if methods1 != [] { assert methods1[0] in methods2; }
      if methods2 != [] { assert methods2[0] in methods1; }
    }
    if methods1 != [] {
      assert OnOneChain(h, methods2);
      var s1, s2 := SelectLatest(h, methods1).value, SelectLatest(h, methods2).value;
      AssignableAntisymmetric(h, s1.declaringClass, s2.declaringClass);
    }
  }

  /** Scans the candidates; when they lie on one chain, it keeps one declared
      in the most derived of their classes. */
  method SelectLatestMethod(h: Hierarchy, methods: seq<Method>) returns (selected: Option<Method>)
    requires WellFormed(h) && DeclaredIn(h, methods)
    ensures selected == SelectLatest(h, methods)
    ensures selected.None? <==> methods == []
    ensures selected.Some? ==> selected.value in methods
    ensures selected.Some? && OnOneChain(h, methods) ==>
            forall m | m in methods :: IsAssignableFrom(h, m.declaringClass, selected.value.declaringClass)
  {
    selected := None;
    for i := 0 to |methods|
      invariant selected == SelectLatest(h, methods[..i])
    {
      var candidate := methods[i];
      assert methods[..i + 1][..i] == methods[..i];
      if selected.None? || IsAssignableFrom(h, selected.value.declaringClass, candidate.declaringClass) {
        selected := Some(candidate);
      }
    }
    assert methods[..|methods|] == methods;
    SelectLatestMostDerived(h, methods);
  }

  // ------------------------------------------------- getAttributeAnnotations

  /** The annotations of the field, none when there is no field. */
  function FieldAnnotations(attribute: Option<Field>): seq<Annotation> {
    if attribute.Some? then attribute.value.annotations else []
  }

  /** What one method adds: its first parameter's annotations when it has a
      parameter, otherwise its own annotations. */
  function Contribution(m: Method): seq<Annotation> {
    if |m.paramAnnotations| > 0 then m.paramAnnotations[0] else m.annotations
  }

  /** The methods' contributions, concatenated in method order. */
  ghost function Contributions(methods: seq<Method>): seq<Annotation>
    decreases |methods|
  {
    if methods == [] then []
    else Contributions(methods[..|methods| - 1]) + Contribution(methods[|methods| - 1])
  }

  /** The sum of the sizes of the methods' contributions. */
  ghost function ContributionSizes(methods: seq<Method>): nat
    decreases |methods|
  {
    if methods == [] then 0 else |Contribution(methods[0])| + ContributionSizes(methods[1..])
  }

  /** The merged list `getAttributeAnnotations` builds. */
  ghost function MergedAnnotations(attribute: Option<Field>, methods: seq<Method>): seq<Annotation> {
    FieldAnnotations(attribute) + Contributions(methods)
  }

  /** Contributions of consecutive runs of methods concatenate. */
  lemma {:induction false} ContributionsAppend(first: seq<Method>, second: seq<Method>)
    ensures Contributions(first + second) == Contributions(first) + Contributions(second)
    decreases |second|
  {
    if second == [] {
      assert first + second == first;
    } else {
      var init := second[..|second| - 1];
      var last := second[|second| - 1];
      assert (first + second)[..|first + second| - 1] == first + init;
      ContributionsAppend(first, init);
    }
  }

  /** Nothing is dropped or de-duplicated: the merged list is exactly as long
      as all the parts together. */
  lemma {:induction false} ContributionsSize(methods: seq<Method>)
    ensures |Contributions(methods)| == ContributionSizes(methods)
    decreases |methods|
  {
    if methods != [] {
      assert methods == [methods[0]] + methods[1..];
      ContributionsAppend([methods[0]], methods[1..]);
      assert [methods[0]][..0] == [];
      ContributionsSize(methods[1..]);
    }
  }

  /** Method `k`'s contribution sits, unchanged, right after the
      contributions of the methods before it. */
  lemma ContributionAt(methods: seq<Method>, k: nat)
    requires k < |methods|
    ensures var offset := |Contributions(methods[..k])|;
            offset + |Contribution(methods[k])| <= |Contributions(methods)| &&
            Contributions(methods)[offset..offset + |Contribution(methods[k])|] == Contribution(methods[k])
  {
    var before, after := methods[..k], methods[k + 1..];
    assert methods == (before + [methods[k]]) + after;
    ContributionsAppend(before + [methods[k]], after);
    assert (before + [methods[k]])[..k] == before;
    var prefix := Contributions(before) + Contribution(methods[k]);
    assert Contributions(methods) == prefix + Contributions(after);
    assert Contributions(methods)[..|prefix|] == prefix;
  }

  /** An annotation is in the merged list exactly when it is on the field or
      in some method's contribution. */
  lemma {:induction false} MergedAnnotationsMembers(attribute: Option<Field>, methods: seq<Method>, a: Annotation)
    ensures a in MergedAnnotations(attribute, methods) <==>
            a in FieldAnnotations(attribute) || exists m | m in methods :: a in Contribution(m)
    decreases |methods|
  {
    if methods != [] {
      var init := methods[..|methods| - 1];
      var last := methods[|methods| - 1];
      assert methods == init + [last];
      MergedAnnotationsMembers(attribute, init, a);
    }
  }

  /** Adds the annotations one by one to the end of the list, as each
      `for (Annotation annotation : ...) retValue.add(annotation)` loop does. */
  method AddAll(list: seq<Annotation>, annotations: seq<Annotation>) returns (r: seq<Annotation>)
    ensures r == list + annotations
  {
    r := list;
    for j := 0 to |annotations|
      invariant r == list + annotations[..j]
    {
      r := r + [annotations[j]];
    }
    assert annotations[..|annotations|] == annotations;
  }

  /** Collects the field's annotations and then each method's contribution,
      in order, into one list. */
  method GetAttributeAnnotations(attribute: Option<Field>, methods: seq<Method>) returns (retValue: seq<Annotation>)
    ensures retValue == MergedAnnotations(attribute, methods)
    ensures |retValue| == |FieldAnnotations(attribute)| + ContributionSizes(methods)
    ensures retValue[..|FieldAnnotations(attribute)|] == FieldAnnotations(attribute)
    ensures attribute.None? && methods == [] ==> retValue == []
  {
    retValue := [];
    if attribute.Some? {
      retValue := AddAll(retValue, attribute.value.annotations);
    }
    for i := 0 to |methods|
      invariant retValue == FieldAnnotations(attribute) + Contributions(methods[..i])
    {
      var accessor := methods[i];
      assert methods[..i + 1][..i] == methods[..i];
      var paramAnnotations := accessor.paramAnnotations;
      if |paramAnnotations| > 0 {
        retValue := AddAll(retValue, paramAnnotations[0]);
      } else {
        retValue := AddAll(retValue, accessor.annotations);
      }
    }
    assert methods[..|methods|] == methods;
    ContributionsSize(methods);
  }

  // ------------------------------------------ getNiceCharacter / getNiceString

  const LowerCaseLetters: string := "abcdefghijklmnopqrstuvwxyz"
  const UpperCaseLetters: string := "ABCDEFGHIJKLMNOPQRSTUVWXYZ"
  const DecimalDigits: string := "0123456789"

  /** `NICE_ASCII_CHARACTERS`: the 63 entries in the order the array lists
      them, written as its four runs. */
  const NiceAsciiCharacters: string := LowerCaseLetters + UpperCaseLetters + DecimalDigits + "_"

  /** An ASCII letter, an ASCII digit or the underscore. */
  predicate IsAsciiWordChar(c: char) {
    ('a' <= c <= 'z') || ('A' <= c <= 'Z') || ('0' <= c <= '9') || c == '_'
  }

  /** The exceptions the JVM throws on the paths modelled here. */
  datatype Exception = NegativeArraySize | ArrayIndexOutOfBounds

  lemma LowerCaseLetterAt(i: int)
    requires 0 <= i < 26
    ensures LowerCaseLetters[i] as int == 'a' as int + i
  {
  }

  lemma UpperCaseLetterAt(i: int)
    requires 0 <= i < 26
    ensures UpperCaseLetters[i] as int == 'A' as int + i
  {
  }

  lemma DecimalDigitAt(i: int)
    requires 0 <= i < 10
    ensures DecimalDigits[i] as int == '0' as int + i
  {
  }

  /** The character at `index` of the alphabet, as a code point. */
  lemma NiceCharacterAt(index: int)
    requires 0 <= index < |NiceAsciiCharacters|
    ensures NiceAsciiCharacters[index] as int ==
            if index < 26 then 'a' as int + index
            else if index < 52 then 'A' as int + index - 26
            else if index < 62 then '0' as int + index - 52
            else '_' as int
  {
    var letters := LowerCaseLetters + UpperCaseLetters;
    var alphanumerics := letters + DecimalDigits;
    assert NiceAsciiCharacters == alphanumerics + "_";
    if index < 26 {
      assert NiceAsciiCharacters[index] == LowerCaseLetters[index];
      LowerCaseLetterAt(index);
    } else if index < 52 {
      assert NiceAsciiCharacters[index] == UpperCaseLetters[index - 26];
      UpperCaseLetterAt(index - 26);
    } else if index < 62 {
      assert NiceAsciiCharacters[index] == DecimalDigits[index - 52];
      DecimalDigitAt(index - 52);
    }
  }

  /** The alphabet is exactly the ASCII letters, digits and underscore. */
  lemma NiceAsciiCharactersExactly(c: char)
    ensures c in NiceAsciiCharacters <==> IsAsciiWordChar(c)
  {
    if c in NiceAsciiCharacters {
      var index :| 0 <= index < |NiceAsciiCharacters| && NiceAsciiCharacters[index] == c;
      NiceCharacterAt(index);
    } else {
      var index := if 'a' <= c <= 'z' then c as int - 'a' as int
                   else if 'A' <= c <= 'Z' then c as int - 'A' as int + 26
                   else if '0' <= c <= '9' then c as int - '0' as int + 52
                   else 62;
      NiceCharacterAt(index);
      assert !IsAsciiWordChar(c);
    }
  }

  /** The 63 entries are pairwise distinct, so each index draws its own
      character. */
  lemma NiceAsciiCharactersDistinct(i: int, j: int)
    requires 0 <= i < |NiceAsciiCharacters| && 0 <= j < |NiceAsciiCharacters|
    requires NiceAsciiCharacters[i] == NiceAsciiCharacters[j]
    ensures i == j
  {
    NiceCharacterAt(i);
    NiceCharacterAt(j);
  }

  /** The character the random index `randomCharIdx` selects; an index
      outside the array throws. */
  function GetNiceCharacter(randomCharIdx: int): (r: Result<char, Exception>)
    ensures r.Success? <==> 0 <= randomCharIdx < 63
    ensures r.Success? ==> r.value == NiceAsciiCharacters[randomCharIdx] && IsAsciiWordChar(r.value)
    ensures r.Failure? ==> r.error == ArrayIndexOutOfBounds
  {
    if 0 <= randomCharIdx < |NiceAsciiCharacters| then
      NiceAsciiCharactersExactly(NiceAsciiCharacters[randomCharIdx]);
      Success(NiceAsciiCharacters[randomCharIdx])
    else
      Failure(ArrayIndexOutOfBounds)
  }

  /** Builds a string of `length` characters; the `i`-th character uses the
      `i`-th random index in `draws`. */
  method GetNiceString(length: int, draws: seq<int>) returns (r: Result<string, Exception>)
    requires length <= |draws|
    ensures length < 0 ==> r == Failure(NegativeArraySize)
    ensures length >= 0 ==> (r.Success? <==> forall i | 0 <= i < length :: 0 <= draws[i] < 63)
    ensures length >= 0 && r.Failure? ==> r.error == ArrayIndexOutOfBounds
    ensures r.Success? ==> |r.value| == length
    ensures r.Success? ==> forall i | 0 <= i < |r.value| ::
              r.value[i] == NiceAsciiCharacters[draws[i]] && IsAsciiWordChar(r.value[i])
  {
    if length < 0 {
      return Failure(NegativeArraySize);
    }
    var sb: string := [];
    while |sb| < length
      invariant |sb| <= length
      invariant forall i | 0 <= i < |sb| :: 0 <= draws[i] < 63 && sb[i] == NiceAsciiCharacters[draws[i]]
      decreases length - |sb|
    {
      var c := GetNiceCharacter(draws[|sb|]);
      if c.Failure? {
        assert !(0 <= draws[|sb|] < 63);
        return Failure(c.error);
      }
      ghost var done := sb;
      sb := sb + [c.value];
      assert sb == done + [NiceAsciiCharacters[draws[|done|]]];
    }
    forall i | 0 <= i < |sb|
      ensures IsAsciiWordChar(sb[i])
    {
      NiceAsciiCharactersExactly(sb[i]);
    }
    return Success(sb);
  }

  // ---------------------------------------------------- primitiveToBoxedType

  /** The wrapper class of each value primitive. */
  const WrapperClassNames: map<PrimitiveKind, string> := map[
    Boolean := "java.lang.Boolean", Byte := "java.lang.Byte",
    Char := "java.lang.Character", Short := "java.lang.Short",
    Int := "java.lang.Integer", Long := "java.lang.Long",
    Float := "java.lang.Float", Double := "java.lang.Double"]

  /** The wrapper type of a primitive; any other type is returned as is. */
  function PrimitiveToBoxedType(primitiveType: Type): (r: Type)
    ensures !IsValuePrimitive(r)
    ensures !IsValuePrimitive(primitiveType) ==> r == primitiveType
    ensures IsValuePrimitive(primitiveType) ==> r.ClassType?
  {
    if primitiveType == Primitive(Int) then ClassType("java.lang.Integer")
    else if primitiveType == Primitive(Double) then ClassType("java.lang.Double")
    else if primitiveType == Primitive(Long) then ClassType("java.lang.Long")
    else if primitiveType == Primitive(Byte) then ClassType("java.lang.Byte")
    else if primitiveType == Primitive(Float) then ClassType("java.lang.Float")
    else if primitiveType == Primitive(Char) then ClassType("java.lang.Character")
    else if primitiveType == Primitive(Short) then ClassType("java.lang.Short")
    else if primitiveType == Primitive(Boolean) then ClassType("java.lang.Boolean")
    else primitiveType
  }

  /** Each value primitive maps to the wrapper class the table names. */
  lemma PrimitiveToBoxedTypeMatchesWrappers(t: Type)
    ensures IsValuePrimitive(t) ==> t.kind in WrapperClassNames &&
                                    PrimitiveToBoxedType(t) == ClassType(WrapperClassNames[t.kind])
  {
  }

  /** Boxing twice is boxing once. */
  lemma PrimitiveToBoxedTypeIdempotent(t: Type)
    ensures PrimitiveToBoxedType(PrimitiveToBoxedType(t)) == PrimitiveToBoxedType(t)
  {
  }

  /** Distinct value primitives get distinct wrappers. */
  lemma PrimitiveToBoxedTypeInjective(a: PrimitiveKind, b: PrimitiveKind)
    requires a != Void && b != Void
    requires PrimitiveToBoxedType(Primitive(a)) == PrimitiveToBoxedType(Primitive(b))
    ensures a == b
  {
  }
}
