/** `WhitelistMemberAccessPolicy` itself: the constructor routes every resolved selector into the
    matcher of its kind, and `forClass` answers whether a member is exposed on a class. A member is
    exposed when a selector of its kind has its signature and the class is `instanceof` the
    selector's upper bound, or when the annotation lookup says so. */
module Whitelist {
  import opened Wrappers
  import opened Host
  import opened MemberSelectors

  /** What a matcher compares: a method by name and parameter types (its return type is ignored), a
      constructor by parameter types, a field by name (its type is ignored). */
  datatype Signature =
    | MethodSignature(name: string, parameterTypes: seq<Class>)
    | ConstructorSignature(parameterTypes: seq<Class>)
    | FieldSignature(name: string)

  function SignatureOfMethod(m: Method): Signature {
    MethodSignature(m.name, m.parameterTypes)
  }

  function SignatureOfConstructor(ctor: Constructor): Signature {
    ConstructorSignature(ctor.parameterTypes)
  }

  function SignatureOfField(f: Field): Signature {
    FieldSignature(f.name)
  }

  /** The three matchers of the policy. */
  datatype Kind = Methods | Constructors | Fields

  /** What one selector adds to a matcher. */
  datatype Registration = Registration(kind: Kind, upperBound: Class, signature: Signature)

  /** The entry a selector contributes; a failed selector contributes none. */
  function Enrollment(sel: MemberSelector): Option<Registration> {
    match sel
    case FailedSelector(_, _, _) => None
    case ConstructorSelector(ub, ctor) => Some(Registration(Constructors, ub, SignatureOfConstructor(ctor)))
    case MethodSelector(ub, m) => Some(Registration(Methods, ub, SignatureOfMethod(m)))
    case FieldSelector(ub, f) => Some(Registration(Fields, ub, SignatureOfField(f)))
  }

  /** The pair a selector adds to the matcher of kind k. */
  function EnrolledIn(sel: MemberSelector, k: Kind): set<(Class, Signature)> {
    match Enrollment(sel)
    case Some(e) => if e.kind == k then {(e.upperBound, e.signature)} else {}
    case None => {}
  }

  /** The pairs the matcher of kind k holds after the selectors have been added in order. */
  function Registry(sels: seq<MemberSelector>, k: Kind): set<(Class, Signature)>
    decreases |sels|
  {
    if sels == [] then {} else Registry(sels[..|sels| - 1], k) + EnrolledIn(sels[|sels| - 1], k)
  }

  /** A pair is registered exactly when some selector of that kind, upper bound and signature is in
      the list. */
  lemma {:induction false} RegistryHolds(sels: seq<MemberSelector>, k: Kind, ub: Class, sig: Signature)
    ensures (ub, sig) in Registry(sels, k) <==>
      exists j :: 0 <= j < |sels| && Enrollment(sels[j]) == Some(Registration(k, ub, sig))
    decreases |sels|
  {
    if sels != [] {
      var init := sels[..|sels| - 1];
      RegistryHolds(init, k, ub, sig);
      if (ub, sig) in Registry(sels, k) {
        if (ub, sig) in Registry(init, k) {
          var j :| 0 <= j < |init| && Enrollment(init[j]) == Some(Registration(k, ub, sig));
          assert sels[j] == init[j];
        } else {
          assert Enrollment(sels[|sels| - 1]) == Some(Registration(k, ub, sig));
        }
      }
      if exists j :: 0 <= j < |sels| && Enrollment(sels[j]) == Some(Registration(k, ub, sig)) {
        var j :| 0 <= j < |sels| && Enrollment(sels[j]) == Some(Registration(k, ub, sig));
        if j < |init| {
          assert init[j] == sels[j];
        }
      }
    }
  }

  /** Every pair in a registry carries a signature of that registry's kind, so no selector is
      routed to two matchers. */
  lemma {:induction false} RegistryKinds(sels: seq<MemberSelector>, ub: Class, sig: Signature)
    ensures (ub, sig) in Registry(sels, Methods) ==> sig.MethodSignature?
    ensures (ub, sig) in Registry(sels, Constructors) ==> sig.ConstructorSignature?
    ensures (ub, sig) in Registry(sels, Fields) ==> sig.FieldSignature?
    decreases |sels|
  {
    if sels != [] {
      RegistryKinds(sels[..|sels| - 1], ub, sig);
    }
  }

  /** Failed selectors are skipped: taking one out of the list changes no registry. */
  lemma FailedSelectorSkipped(before: seq<MemberSelector>, failed: MemberSelector, after: seq<MemberSelector>, k: Kind)
    requires failed.FailedSelector?
    ensures Registry(before + [failed] + after, k) == Registry(before + after, k)
  {
    var withIt := before + [failed] + after;
    var without := before + after;
    forall p: (Class, Signature) | p in Registry(withIt, k) ensures p in Registry(without, k) {
      RegistryHolds(withIt, k, p.0, p.1);
      RegistryHolds(without, k, p.0, p.1);
      var j :| 0 <= j < |withIt| && Enrollment(withIt[j]) == Some(Registration(k, p.0, p.1));
      if j < |before| {
        assert without[j] == withIt[j];
      } else {
        assert j > |before|;
        assert without[j - 1] == withIt[j];
      }
    }
    forall p: (Class, Signature) | p in Registry(without, k) ensures p in Registry(withIt, k) {
      RegistryHolds(withIt, k, p.0, p.1);
      RegistryHolds(without, k, p.0, p.1);
      var j :| 0 <= j < |without| && Enrollment(without[j]) == Some(Registration(k, p.0, p.1));
      if j < |before| {
        assert withIt[j] == without[j];
      } else {
        assert withIt[j + 1] == without[j];
      }
    }
  }

  /** One of `MethodMatcher`, `ConstructorMatcher` and `FieldMatcher`: the (upper bound, signature)
      pairs added so far. */
  class MemberMatcher {
    var pairs: set<(Class, Signature)>

    constructor()
      ensures pairs == {}
    {
      pairs := {};
    }

    /** `addMatching(upperBoundClass, member)`. */
    method AddMatching(upperBound: Class, sig: Signature)
      modifies this
      ensures pairs == old(pairs) + {(upperBound, sig)}
    {
      pairs := pairs + {(upperBound, sig)};
    }

    /** `matches(contextClass, member)`: some added pair has the member's signature and an upper
        bound that contextClass is `instanceof`. */
    predicate Matches(h: TypeHierarchy, contextClass: Class, sig: Signature)
      reads this
    {
      exists p :: p in pairs && p.1 == sig && h.isSubtypeOf(contextClass, p.0)
    }

    /** A match on a class holds on every subclass of it too. */
    lemma MatchInherited(h: TypeHierarchy, contextClass: Class, subclass: Class, sig: Signature)
      requires h.Valid() && h.isSubtypeOf(subclass, contextClass)
      requires Matches(h, contextClass, sig)
      ensures Matches(h, subclass, sig)
    {
      var p :| p in pairs && p.1 == sig && h.isSubtypeOf(contextClass, p.0);
      assert h.isSubtypeOf(subclass, p.0);
    }
  }

  /** The policy: three matchers filled from the selectors it was built from. */
  class WhitelistMemberAccessPolicy {
    const methodMatcher: MemberMatcher
    const constructorMatcher: MemberMatcher
    const fieldMatcher: MemberMatcher
    ghost const memberSelectors: seq<MemberSelector>

    /** The matchers are distinct and each holds exactly the registry of its kind. */
    ghost predicate Valid()
      reads this, methodMatcher, constructorMatcher, fieldMatcher
    {
      && methodMatcher != constructorMatcher && methodMatcher != fieldMatcher && constructorMatcher != fieldMatcher
      && methodMatcher.pairs == Registry(memberSelectors, Methods)
      && constructorMatcher.pairs == Registry(memberSelectors, Constructors)
      && fieldMatcher.pairs == Registry(memberSelectors, Fields)
    }

    /** `WhitelistMemberAccessPolicy(memberSelectors)`: failed selectors are skipped and every other
        selector is added to the matcher of its kind. */
    constructor(memberSelectors: seq<MemberSelector>)
      ensures this.memberSelectors == memberSelectors
      ensures fresh(methodMatcher) && fresh(constructorMatcher) && fresh(fieldMatcher)
      ensures Valid()
    {
      var methods := new MemberMatcher();
      var constructors := new MemberMatcher();
      var fields := new MemberMatcher();
      var i := 0;
      while i < |memberSelectors|
        invariant 0 <= i <= |memberSelectors|
        invariant fresh(methods) && fresh(constructors) && fresh(fields)
        invariant methods != constructors && methods != fields && constructors != fields
        invariant methods.pairs == Registry(memberSelectors[..i], Methods)
        invariant constructors.pairs == Registry(memberSelectors[..i], Constructors)
        invariant fields.pairs == Registry(memberSelectors[..i], Fields)
      {
        var memberSelector := memberSelectors[i];
        match memberSelector {
          case FailedSelector(_, _, _) =>
          case ConstructorSelector(upperBoundClass, ctor) =>
            constructors.AddMatching(upperBoundClass, SignatureOfConstructor(ctor));
          case MethodSelector(upperBoundClass, m) =>
            methods.AddMatching(upperBoundClass, SignatureOfMethod(m));
          case FieldSelector(upperBoundClass, f) =>
            fields.AddMatching(upperBoundClass, SignatureOfField(f));
        }
        assert memberSelectors[..i + 1][..i] == memberSelectors[..i];
        i := i + 1;
      }
      assert memberSelectors[..i] == memberSelectors;
      methodMatcher := methods;
      constructorMatcher := constructors;
      fieldMatcher := fields;
      this.memberSelectors := memberSelectors;
    }

    /** `forClass(contextClass).isMethodExposed(method)`: a method selector with the same name and
        parameter types whose upper bound contextClass is `instanceof`, or the annotation. */
    predicate IsMethodExposed(h: TypeHierarchy, annotated: (Class, Member) -> bool, contextClass: Class, m: Method)
      reads this, methodMatcher, constructorMatcher, fieldMatcher
      requires Valid()
      ensures IsMethodExposed(h, annotated, contextClass, m) <==>
        || (exists j :: 0 <= j < |memberSelectors| && memberSelectors[j].MethodSelector?
              && memberSelectors[j].m.name == m.name && memberSelectors[j].m.parameterTypes == m.parameterTypes
              && h.isSubtypeOf(contextClass, memberSelectors[j].upperBoundType))
        || annotated(contextClass, MethodMember(m))
    {
      ExposedBySelector(h, contextClass, Methods, SignatureOfMethod(m));
      methodMatcher.Matches(h, contextClass, SignatureOfMethod(m)) || annotated(contextClass, MethodMember(m))
    }

    /** `forClass(contextClass).isConstructorExposed(constructor)`. */
    predicate IsConstructorExposed(h: TypeHierarchy, annotated: (Class, Member) -> bool, contextClass: Class,
                                   ctor: Constructor)
      reads this, methodMatcher, constructorMatcher, fieldMatcher
      requires Valid()
      ensures IsConstructorExposed(h, annotated, contextClass, ctor) <==>
        || (exists j :: 0 <= j < |memberSelectors| && memberSelectors[j].ConstructorSelector?
              && memberSelectors[j].ctor.parameterTypes == ctor.parameterTypes
              && h.isSubtypeOf(contextClass, memberSelectors[j].upperBoundType))
        || annotated(contextClass, ConstructorMember(ctor))
    {
      ExposedBySelector(h, contextClass, Constructors, SignatureOfConstructor(ctor));
      constructorMatcher.Matches(h, contextClass, SignatureOfConstructor(ctor))
      || annotated(contextClass, ConstructorMember(ctor))
    }

    /** `forClass(contextClass).isFieldExposed(field)`. */
    predicate IsFieldExposed(h: TypeHierarchy, annotated: (Class, Member) -> bool, contextClass: Class, f: Field)
      reads this, methodMatcher, constructorMatcher, fieldMatcher
      requires Valid()
      ensures IsFieldExposed(h, annotated, contextClass, f) <==>
        || (exists j :: 0 <= j < |memberSelectors| && memberSelectors[j].FieldSelector?
              && memberSelectors[j].f.name == f.name
              && h.isSubtypeOf(contextClass, memberSelectors[j].upperBoundType))
        || annotated(contextClass, FieldMember(f))
    {
      ExposedBySelector(h, contextClass, Fields, SignatureOfField(f));
      fieldMatcher.Matches(h, contextClass, SignatureOfField(f)) || annotated(contextClass, FieldMember(f))
    }

    /** A member whitelisted through a selector on a class stays whitelisted on every subclass of
        it, fields and constructors included. */
    lemma ExposureInherited(h: TypeHierarchy, annotated: (Class, Member) -> bool, contextClass: Class,
                            subclass: Class, m: Method, ctor: Constructor, f: Field)
      requires Valid() && h.Valid() && h.isSubtypeOf(subclass, contextClass)
      ensures IsMethodExposed(h, annotated, contextClass, m) && !annotated(contextClass, MethodMember(m))
        ==> IsMethodExposed(h, annotated, subclass, m)
      ensures IsConstructorExposed(h, annotated, contextClass, ctor) && !annotated(contextClass, ConstructorMember(ctor))
        ==> IsConstructorExposed(h, annotated, subclass, ctor)
      ensures IsFieldExposed(h, annotated, contextClass, f) && !annotated(contextClass, FieldMember(f))
        ==> IsFieldExposed(h, annotated, subclass, f)
    {
      if methodMatcher.Matches(h, contextClass, SignatureOfMethod(m)) {
        methodMatcher.MatchInherited(h, contextClass, subclass, SignatureOfMethod(m));
      }
      if constructorMatcher.Matches(h, contextClass, SignatureOfConstructor(ctor)) {
        constructorMatcher.MatchInherited(h, contextClass, subclass, SignatureOfConstructor(ctor));
      }
      if fieldMatcher.Matches(h, contextClass, SignatureOfField(f)) {
        fieldMatcher.MatchInherited(h, contextClass, subclass, SignatureOfField(f));
      }
    }

    /** The return type of a method plays no part: a method whitelisted through a selector is
        whitelisted in every variant with the same name and parameter types. */
    lemma ReturnTypeIgnored(h: TypeHierarchy, annotated: (Class, Member) -> bool, contextClass: Class,
                            m: Method, variant: Method)
      requires Valid()
      requires variant.name == m.name && variant.parameterTypes == m.parameterTypes
      ensures IsMethodExposed(h, annotated, contextClass, m) && !annotated(contextClass, MethodMember(m))
        ==> IsMethodExposed(h, annotated, contextClass, variant)
    {
    }

    function MatcherOf(k: Kind): MemberMatcher
      reads this
    {
      match k
      case Methods => methodMatcher
      case Constructors => constructorMatcher
      case Fields => fieldMatcher
    }

    /** The matcher of kind k matches exactly when a selector of that kind with that signature has an
        upper bound that contextClass is `instanceof`. */
    lemma ExposedBySelector(h: TypeHierarchy, contextClass: Class, k: Kind, sig: Signature)
      requires Valid()
      ensures MatcherOf(k).Matches(h, contextClass, sig) <==>
        exists j :: 0 <= j < |memberSelectors| && Enrollment(memberSelectors[j]).Some?
          && Enrollment(memberSelectors[j]).value.kind == k
          && Enrollment(memberSelectors[j]).value.signature == sig
          && h.isSubtypeOf(contextClass, Enrollment(memberSelectors[j]).value.upperBound)
    {
      var matcher := MatcherOf(k);
      assert matcher.pairs == Registry(memberSelectors, k);
      if matcher.Matches(h, contextClass, sig) {
        var p :| p in matcher.pairs && p.1 == sig && h.isSubtypeOf(contextClass, p.0);
        RegistryHolds(memberSelectors, k, p.0, p.1);
      }
      if exists j :: 0 <= j < |memberSelectors| && Enrollment(memberSelectors[j]).Some?
          && Enrollment(memberSelectors[j]).value.kind == k
          && Enrollment(memberSelectors[j]).value.signature == sig
          && h.isSubtypeOf(contextClass, Enrollment(memberSelectors[j]).value.upperBound)
      {
        var j :| 0 <= j < |memberSelectors| && Enrollment(memberSelectors[j]).Some?
          && Enrollment(memberSelectors[j]).value.kind == k
          && Enrollment(memberSelectors[j]).value.signature == sig
          && h.isSubtypeOf(contextClass, Enrollment(memberSelectors[j]).value.upperBound);
        var e := Enrollment(memberSelectors[j]).value;
        RegistryHolds(memberSelectors, k, e.upperBound, sig);
        assert (e.upperBound, sig) in matcher.pairs;
      }
    }
  }
}
