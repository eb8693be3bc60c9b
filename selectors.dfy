/** `WhitelistMemberAccessPolicy.MemberSelector`: the parsed form of one whitelist entry, and the
    parser that produces it from text. Parsing has two tiers of failure: malformed text is a
    `SyntaxError` that aborts the whole batch, while a class or member that cannot be resolved
    gives a `FailedSelector` that the policy later skips. */
module MemberSelectors {
  import opened Wrappers
  import opened Text
  import opened Host
  import opened JavaNames

  /** Why resolving a well-formed entry failed (the exception a failed selector records). */
  datatype Cause = ClassNotFound(className: string) | NoSuchMethod | NoSuchField

  /** Which check rejected a malformed entry. */
  datatype Malformation =
    | ForbiddenSubstring
    | MissingDot
    | MalformedUpperBoundClassName
    | MalformedMemberName
    | MissingClosingParen
    | MalformedArgumentClassName

  /** The IllegalArgumentException of a malformed entry; `entry` is the text as given. */
  datatype SyntaxError = SyntaxError(problem: Malformation, entry: string)

  /** Exactly one of method, constructor, field or exception is present, and only a failed selector
      may lack its upper bound type. */
  datatype MemberSelector =
    | MethodSelector(upperBoundType: Class, m: Method)
    | ConstructorSelector(upperBoundType: Class, ctor: Constructor)
    | FieldSelector(upperBoundType: Class, f: Field)
    | FailedSelector(resolvedUpperBound: Option<Class>, exception: Cause, exceptionMemberSelectorString: string)
  {
    function GetUpperBoundType(): Option<Class> {
      if FailedSelector? then resolvedUpperBound else Some(upperBoundType)
    }
    function GetMethod(): Option<Method> {
      if MethodSelector? then Some(m) else None
    }
    function GetConstructor(): Option<Constructor> {
      if ConstructorSelector? then Some(ctor) else None
    }
    function GetField(): Option<Field> {
      if FieldSelector? then Some(f) else None
    }
    function GetException(): Option<Cause> {
      if FailedSelector? then Some(exception) else None
    }
  }

  function PayloadCount(sel: MemberSelector): nat {
    (if sel.GetMethod().Some? then 1 else 0) + (if sel.GetConstructor().Some? then 1 else 0)
    + (if sel.GetField().Some? then 1 else 0) + (if sel.GetException().Some? then 1 else 0)
  }

  /** Every selector carries exactly one payload, and a missing upper bound goes with an exception. */
  lemma ExactlyOnePayload(sel: MemberSelector)
    ensures PayloadCount(sel) == 1
    ensures sel.GetUpperBoundType().None? ==> sel.GetException().Some?
  {
  }

  /** Text that no whitelist entry may contain: generics, varargs, or a statement separator. */
  predicate HasForbiddenSubstring(raw: string) {
    '<' in raw || '>' in raw || Contains(raw, "...") || ';' in raw
  }

  /** The entry trimmed, with white space around `.`, `,`, `(`, `)`, `[` and `]` removed. */
  function Cleaned(raw: string): (s: string)
    ensures NoSpaceNextToPunctuation(s)
    ensures WithoutSpace(s) == WithoutSpace(Trim(raw))
  {
    CollapseRemovesOnlySpace(Trim(raw), false);
    CollapseAroundPunctuation(Trim(raw), false)
  }

  /** Where the member name ends: at the first `(`, or at the end when there is none. */
  function MemberEnd(s: string): (e: nat)
    ensures e <= |s| && '(' !in s[..e]
    ensures e < |s| ==> s[e] == '('
    ensures e == |s| <==> '(' !in s
  {
    match IndexOf(s, '(')
    case Some(i) => i
    case None => assert s[..|s|] == s; |s|
  }

  /** The dot that separates the upper bound class name from the member name: the last dot before
      the member name ends. */
  function ClassDot(s: string): (r: Option<nat>)
    ensures r.Some? ==> r.value < MemberEnd(s) && s[r.value] == '.' && '.' !in s[r.value + 1..MemberEnd(s)]
    ensures r.None? ==> '.' !in s[..MemberEnd(s)]
  {
    var e := MemberEnd(s);
    var r := LastIndexOf(s, '.', e);
    match r
    case None => r
    case Some(d) =>
      var after := s[d + 1..e];
      assert forall j :: 0 <= j < |after| ==> after[j] == s[d + 1 + j];
      r
  }

  /** An argument type name split into its base name and the number of trailing `[]`. */
  function StripArrayDims(token: string): (r: (string, nat))
    ensures r.0 + Repeat("[]", r.1) == token
    ensures !EndsWith(r.0, "[]")
    decreases |token|
  {
    if EndsWith(token, "[]") then
      var (base, dims) := StripArrayDims(token[..|token| - 2]);
      assert token == token[..|token| - 2] + "[]";
      assert base + Repeat("[]", dims + 1) == (base + Repeat("[]", dims)) + "[]";
      (base, dims + 1)
    else (token, 0)
  }

  /** The outcome of resolving argument types: the types, the cause of a failed lookup, or a
      malformed name. */
  datatype Resolution<T> = Resolved(value: T) | Unresolved(cause: Cause) | Malformed

  /** One argument type: a primitive keyword, or else a well-formed class name the loader knows,
      made into an array type of the stripped dimensions. */
  function ResolveArg(cc: CharClass, res: Resolver, token: string): Resolution<Class> {
    var (base, dims) := StripArrayDims(token);
    match res.primitiveClass(base)
    case Some(p) => Resolved(res.arrayClass(p, dims))
    case None =>
      if !IsClassName(cc, base) then Malformed
      else match res.loadClass(base)
        case None => Unresolved(ClassNotFound(base))
        case Some(c) => Resolved(res.arrayClass(c, dims))
  }

  /** All argument types in order; the first token that does not resolve decides the outcome. */
  function ResolveArgs(cc: CharClass, res: Resolver, tokens: seq<string>): (r: Resolution<seq<Class>>)
    ensures r.Resolved? <==> forall i :: 0 <= i < |tokens| ==> ResolveArg(cc, res, tokens[i]).Resolved?
    ensures r.Resolved? ==>
      |r.value| == |tokens| && forall i :: 0 <= i < |tokens| ==> ResolveArg(cc, res, tokens[i]) == Resolved(r.value[i])
    decreases |tokens|
  {
    if tokens == [] then Resolved([])
    else match ResolveArg(cc, res, tokens[0])
      case Malformed => Malformed
      case Unresolved(cause) => Unresolved(cause)
      case Resolved(t) =>
        assert forall i :: 1 <= i < |tokens| ==> tokens[i] == tokens[1..][i - 1];
        match ResolveArgs(cc, res, tokens[1..])
        case Resolved(ts) => Resolved([t] + ts)
        case other => other
  }

  /** When token i is the first that does not resolve, its failure is the outcome: a malformed name
      after it does not hide a class that cannot be loaded, nor the other way round. */
  lemma ResolveArgsFirstFailure(cc: CharClass, res: Resolver, tokens: seq<string>, i: nat)
    requires i < |tokens| && !ResolveArg(cc, res, tokens[i]).Resolved?
    requires forall j :: 0 <= j < i ==> ResolveArg(cc, res, tokens[j]).Resolved?
    ensures ResolveArgs(cc, res, tokens)
         == if ResolveArg(cc, res, tokens[i]).Malformed? then Malformed
            else Unresolved(ResolveArg(cc, res, tokens[i]).cause)
  {
    var done := seq(i, j requires 0 <= j < i => ResolveArg(cc, res, tokens[j]).value);
    ResolveArgsAfterPrefix(cc, res, tokens, i, done);
    assert tokens[i..][0] == tokens[i];
  }

  /** Argument types already resolved in front of the rest. */
  function Prepend(done: seq<Class>, r: Resolution<seq<Class>>): Resolution<seq<Class>> {
    match r
    case Resolved(ts) => Resolved(done + ts)
    case _ => r
  }

  /** Once the first i tokens have resolved, the outcome is that of the remaining tokens. */
  lemma {:induction false} ResolveArgsAfterPrefix(cc: CharClass, res: Resolver, tokens: seq<string>, i: nat, done: seq<Class>)
    requires i <= |tokens| && |done| == i
    requires forall j :: 0 <= j < i ==> ResolveArg(cc, res, tokens[j]) == Resolved(done[j])
    ensures ResolveArgs(cc, res, tokens) == Prepend(done, ResolveArgs(cc, res, tokens[i..]))
    decreases i
  {
    if i == 0 {
      assert tokens[0..] == tokens;
      PrependNothing(ResolveArgs(cc, res, tokens));
    } else {
      var rest, later := tokens[1..], done[1..];
      forall j | 0 <= j < i - 1 ensures ResolveArg(cc, res, rest[j]) == Resolved(later[j]) {
        assert rest[j] == tokens[j + 1] && later[j] == done[j + 1];
      }
      ResolveArgsAfterPrefix(cc, res, rest, i - 1, later);
      assert rest[i - 1..] == tokens[i..];
      ResolveArgsCons(cc, res, tokens, done[0]);
      PrependTwice(done[0], later, ResolveArgs(cc, res, tokens[i..]));
      assert done == [done[0]] + later;
    }
  }

  /** A first token that resolves is put in front of the outcome of the rest. */
  lemma ResolveArgsCons(cc: CharClass, res: Resolver, tokens: seq<string>, first: Class)
    requires tokens != [] && ResolveArg(cc, res, tokens[0]) == Resolved(first)
    ensures ResolveArgs(cc, res, tokens) == Prepend([first], ResolveArgs(cc, res, tokens[1..]))
  {
  }

  lemma PrependNothing(r: Resolution<seq<Class>>)
    ensures Prepend([], r) == r
  {
    match r
    case Resolved(ts) => assert [] + ts == ts;
    case _ =>
  }

  lemma PrependTwice(first: Class, later: seq<Class>, r: Resolution<seq<Class>>)
    ensures Prepend([first], Prepend(later, r)) == Prepend([first] + later, r)
  {
    match r
    case Resolved(ts) => assert [first] + (later + ts) == ([first] + later) + ts;
    case _ =>
  }

  /** Looks the member up: with an argument list, a constructor when the member name is the upper
      bound's simple name and a method otherwise; without one, a field. Unresolvable argument types
      and missing members give a failed selector that keeps the upper bound. */
  function ResolveMember(cc: CharClass, res: Resolver, raw: string, s: string, ub: Class, name: string,
                         argTokens: Option<seq<string>>): Result<MemberSelector, SyntaxError>
  {
    match argTokens
    case None =>
      (match res.getField(ub, name)
       case None => Ok(FailedSelector(Some(ub), NoSuchField, s))
       case Some(f) => Ok(FieldSelector(ub, f)))
    case Some(tokens) =>
      match ResolveArgs(cc, res, tokens)
      case Malformed => Err(SyntaxError(MalformedArgumentClassName, raw))
      case Unresolved(cause) => Ok(FailedSelector(Some(ub), cause, s))
      case Resolved(args) =>
        if name == res.simpleName(ub) then
          (match res.getConstructor(ub, args)
           case None => Ok(FailedSelector(Some(ub), NoSuchMethod, s))
           case Some(c) => Ok(ConstructorSelector(ub, c)))
        else
          match res.getMethod(ub, name, args)
          case None => Ok(FailedSelector(Some(ub), NoSuchMethod, s))
          case Some(m) => Ok(MethodSelector(ub, m))
  }

  /** What the lookup gives: a field exactly when there is no argument list and the field exists, a
      constructor exactly when the name is the upper bound's simple name and the constructor for the
      resolved argument types exists, a method exactly when the name differs and the method exists.
      Every selector keeps the upper bound, a failure records s, and a syntax error comes only from a
      malformed argument type name. */
  lemma ResolveMemberOutcome(cc: CharClass, res: Resolver, raw: string, s: string, ub: Class, name: string,
                             argTokens: Option<seq<string>>)
    ensures var r := ResolveMember(cc, res, raw, s, ub, name, argTokens);
      r.Ok? && r.value.FieldSelector? <==>
      argTokens.None? && res.getField(ub, name).Some?
    ensures var r := ResolveMember(cc, res, raw, s, ub, name, argTokens);
      r.Ok? && r.value.ConstructorSelector? <==>
      && argTokens.Some? && name == res.simpleName(ub)
      && var args := ResolveArgs(cc, res, argTokens.value);
         args.Resolved? && res.getConstructor(ub, args.value).Some?
    ensures var r := ResolveMember(cc, res, raw, s, ub, name, argTokens);
      r.Ok? && r.value.MethodSelector? <==>
      && argTokens.Some? && name != res.simpleName(ub)
      && var args := ResolveArgs(cc, res, argTokens.value);
         args.Resolved? && res.getMethod(ub, name, args.value).Some?
    ensures var r := ResolveMember(cc, res, raw, s, ub, name, argTokens);
      r.Ok? ==> r.value.GetUpperBoundType() == Some(ub)
    ensures var r := ResolveMember(cc, res, raw, s, ub, name, argTokens);
      r.Ok? && r.value.FailedSelector? ==> r.value.exceptionMemberSelectorString == s
    ensures var r := ResolveMember(cc, res, raw, s, ub, name, argTokens);
      r.Err? <==> argTokens.Some? && ResolveArgs(cc, res, argTokens.value).Malformed?
  {
  }

  /** What a selector from the lookup holds: the method, constructor or field the resolver returned
      for the member name and the resolved argument types, and for a failure, the cause of the step
      that failed. */
  lemma ResolveMemberPayload(cc: CharClass, res: Resolver, raw: string, s: string, ub: Class, name: string,
                             argTokens: Option<seq<string>>)
    ensures var r := ResolveMember(cc, res, raw, s, ub, name, argTokens);
      r.Ok? && r.value.MethodSelector? ==>
        && argTokens.Some? && ResolveArgs(cc, res, argTokens.value).Resolved?
        && Some(r.value.m) == res.getMethod(ub, name, ResolveArgs(cc, res, argTokens.value).value)
    ensures var r := ResolveMember(cc, res, raw, s, ub, name, argTokens);
      r.Ok? && r.value.ConstructorSelector? ==>
        && argTokens.Some? && ResolveArgs(cc, res, argTokens.value).Resolved?
        && Some(r.value.ctor) == res.getConstructor(ub, ResolveArgs(cc, res, argTokens.value).value)
    ensures var r := ResolveMember(cc, res, raw, s, ub, name, argTokens);
      r.Ok? && r.value.FieldSelector? ==> argTokens.None? && Some(r.value.f) == res.getField(ub, name)
    ensures var r := ResolveMember(cc, res, raw, s, ub, name, argTokens);
      r.Ok? && r.value.FailedSelector? ==>
        r.value.exception ==
          if argTokens.None? then NoSuchField
          else if ResolveArgs(cc, res, argTokens.value).Unresolved? then ResolveArgs(cc, res, argTokens.value).cause
          else NoSuchMethod
  {
  }

  /** How far `parse` has got with an entry: nothing done yet, the text cleaned up, or the dot before
      the member name found. */
  datatype Stage =
    | Entry
    | CleanedUp(s: string)
    | DotFound(s: string, dot: nat)
  {
    function Remaining(): nat {
      match this
      case Entry => 2
      case CleanedUp(_) => 1
      case DotFound(_, _) => 0
    }

    /** The dot lies before the end of the member name, as the dot search guarantees. */
    predicate Valid() {
      DotFound? ==> dot < MemberEnd(s)
    }
  }

  /** The rest of `MemberSelector.parse(memberSelectorString, classLoader)` from a stage on: each
      stage either stops with the outcome or hands a later stage on. */
  function ParseFrom(cc: CharClass, res: Resolver, raw: string, st: Stage): Result<MemberSelector, SyntaxError>
    requires st.Valid()
    decreases st.Remaining()
  {
    match st
    case Entry =>
      if HasForbiddenSubstring(raw) then Err(SyntaxError(ForbiddenSubstring, raw))
      else ParseFrom(cc, res, raw, CleanedUp(Cleaned(raw)))
    case CleanedUp(s) =>
      (match ClassDot(s)
       case None => Err(SyntaxError(MissingDot, raw))
       case Some(dot) => ParseFrom(cc, res, raw, DotFound(s, dot)))
    case DotFound(s, dot) =>
      var upper := s[..dot];
      if !IsClassName(cc, upper) then Err(SyntaxError(MalformedUpperBoundClassName, raw))
      else
        (match res.loadClass(upper)
         case None => Ok(FailedSelector(None, ClassNotFound(upper), s))
         case Some(ub) => MemberPart(cc, res, raw, s, dot, ub))
  }

  /** The last part of `parse`, once the upper bound class is loaded: the member name after the dot
      must be an identifier, and an argument list must close the entry. */
  function MemberPart(cc: CharClass, res: Resolver, raw: string, s: string, dot: nat, ub: Class)
    : Result<MemberSelector, SyntaxError>
    requires dot < MemberEnd(s)
  {
    var name := s[dot + 1..MemberEnd(s)];
    if !IsJavaIdentifier(cc, name) then Err(SyntaxError(MalformedMemberName, raw))
    else ArgumentPart(cc, res, raw, s, ub, name)
  }

  /** After a well-formed member name: without an argument list the field is looked up; otherwise the
      argument list must close the entry, and its comma-separated tokens are the argument types. */
  function ArgumentPart(cc: CharClass, res: Resolver, raw: string, s: string, ub: Class, name: string)
    : Result<MemberSelector, SyntaxError>
  {
    var post := MemberEnd(s);
    if post == |s| then ResolveMember(cc, res, raw, s, ub, name, None)
    else if s[|s| - 1] != ')' then Err(SyntaxError(MissingClosingParen, raw))
    else ResolveMember(cc, res, raw, s, ub, name, Some(Tokens(s[post + 1..|s| - 1], ',')))
  }

  /** `MemberSelector.parse(memberSelectorString, classLoader)`, as a function of the entry. */
  function Parsed(cc: CharClass, res: Resolver, raw: string): Result<MemberSelector, SyntaxError> {
    ParseFrom(cc, res, raw, Entry)
  }

  /** The argument loop of `parse`: each token loses its trailing `[]`s, is looked up as a primitive
      or else checked and loaded as a class, and becomes an array type of that many dimensions. The
      first malformed or unloadable token stops the loop. */
  method ResolveArgTypes(cc: CharClass, res: Resolver, tokens: seq<string>) returns (r: Resolution<seq<Class>>)
    requires cc.Valid()
    ensures r == ResolveArgs(cc, res, tokens)
  {
    var argCount := |tokens|;
    var argTypes := new Class[argCount];
    for i := 0 to argCount
      invariant forall j :: 0 <= j < i ==> ResolveArg(cc, res, tokens[j]) == Resolved(argTypes[j])
    {
      var argClassName := tokens[i];
      var arrayDimensions := 0;
      while EndsWith(argClassName, "[]")
        invariant StripArrayDims(argClassName).0 == StripArrayDims(tokens[i]).0
        invariant arrayDimensions + StripArrayDims(argClassName).1 == StripArrayDims(tokens[i]).1
        decreases |argClassName|
      {
        arrayDimensions := arrayDimensions + 1;
        argClassName := argClassName[..|argClassName| - 2];
      }
      var argClass: Class;
      var primArgClass := res.primitiveClass(argClassName);
      if primArgClass.Some? {
        argClass := primArgClass.value;
      } else {
        var wellFormed := IsWellFormedClassName(cc, argClassName);
        if !wellFormed {
          ResolveArgsAfterPrefix(cc, res, tokens, i, argTypes[..i]);
          assert tokens[i..][0] == tokens[i];
          return Malformed;
        }
        var loadedArg := res.loadClass(argClassName);
        if loadedArg.None? {
          ResolveArgsAfterPrefix(cc, res, tokens, i, argTypes[..i]);
          assert tokens[i..][0] == tokens[i];
          return Unresolved(ClassNotFound(argClassName));
        }
        argClass := loadedArg.value;
      }
      argTypes[i] := res.arrayClass(argClass, arrayDimensions);
    }
    ResolveArgsAfterPrefix(cc, res, tokens, argCount, argTypes[..]);
    assert tokens[argCount..] == [];
    assert argTypes[..] + [] == argTypes[..];
    return Resolved(argTypes[..]);
  }

  /** The end of `parse` once the member name is known: the argument types are resolved, then the
      field, constructor or method is looked up on the upper bound class. */
  method LookUpMember(cc: CharClass, res: Resolver, raw: string, cleanedStr: string, upperBoundClass: Class,
                      memberName: string, argTokens: Option<seq<string>>) returns (r: Result<MemberSelector, SyntaxError>)
    requires cc.Valid()
    ensures r == ResolveMember(cc, res, raw, cleanedStr, upperBoundClass, memberName, argTokens)
  {
    if argTokens.None? {
      match res.getField(upperBoundClass, memberName)
      case None => return Ok(FailedSelector(Some(upperBoundClass), NoSuchField, cleanedStr));
      case Some(f) => return Ok(FieldSelector(upperBoundClass, f));
    }
    var argTypes := ResolveArgTypes(cc, res, argTokens.value);
    if argTypes.Malformed? {
      return Err(SyntaxError(MalformedArgumentClassName, raw));
    }
    if argTypes.Unresolved? {
      return Ok(FailedSelector(Some(upperBoundClass), argTypes.cause, cleanedStr));
    }
    var args := argTypes.value;
    if memberName == res.simpleName(upperBoundClass) {
      match res.getConstructor(upperBoundClass, args)
      case None => return Ok(FailedSelector(Some(upperBoundClass), NoSuchMethod, cleanedStr));
      case Some(c) => return Ok(ConstructorSelector(upperBoundClass, c));
    } else {
      match res.getMethod(upperBoundClass, memberName, args)
      case None => return Ok(FailedSelector(Some(upperBoundClass), NoSuchMethod, cleanedStr));
      case Some(m) => return Ok(MethodSelector(upperBoundClass, m));
    }
  }

  /** `MemberSelector.parse(memberSelectorString, classLoader)`, step by step as the source does it.
      The steps after the dot search are the methods `CheckUpperBound` and `CheckMember`. */
  method Parse(cc: CharClass, res: Resolver, raw: string) returns (r: Result<MemberSelector, SyntaxError>)
    requires cc.Valid()
    ensures r == Parsed(cc, res, raw)
  {
    if '<' in raw || '>' in raw || Contains(raw, "...") || ';' in raw {
      return Err(SyntaxError(ForbiddenSubstring, raw));
    }
    var cleanedStr := Cleaned(raw);
    assert Parsed(cc, res, raw) == ParseFrom(cc, res, raw, CleanedUp(cleanedStr));

    var openParenIdx := IndexOf(cleanedStr, '(');
    var hasArgList := openParenIdx.Some?;
    var postMemberNameIdx := if hasArgList then openParenIdx.value else |cleanedStr|;
    assert postMemberNameIdx == MemberEnd(cleanedStr);

    var postClassDotIdx := LastIndexOf(cleanedStr, '.', postMemberNameIdx);
    if postClassDotIdx.None? {
      return Err(SyntaxError(MissingDot, raw));
    }
    r := CheckUpperBound(cc, res, raw, cleanedStr, postClassDotIdx.value);
  }

  /** The upper bound class name before the dot must be well formed; a class the loader does not
      know gives a failed selector without an upper bound. */
  method CheckUpperBound(cc: CharClass, res: Resolver, raw: string, cleanedStr: string, postClassDotIdx: nat)
    returns (r: Result<MemberSelector, SyntaxError>)
    requires cc.Valid() && postClassDotIdx < MemberEnd(cleanedStr)
    ensures r == ParseFrom(cc, res, raw, DotFound(cleanedStr, postClassDotIdx))
  {
    var upperBoundClassStr := cleanedStr[..postClassDotIdx];
    var wellFormed := IsWellFormedClassName(cc, upperBoundClassStr);
    if !wellFormed {
      return Err(SyntaxError(MalformedUpperBoundClassName, raw));
    }
    var loaded := res.loadClass(upperBoundClassStr);
    if loaded.None? {
      return Ok(FailedSelector(None, ClassNotFound(upperBoundClassStr), cleanedStr));
    }
    r := CheckMember(cc, res, raw, cleanedStr, postClassDotIdx, loaded.value);
  }

  /** The member name must be an identifier and an argument list must end the entry. */
  method CheckMember(cc: CharClass, res: Resolver, raw: string, cleanedStr: string, postClassDotIdx: nat,
                     upperBoundClass: Class) returns (r: Result<MemberSelector, SyntaxError>)
    requires cc.Valid() && postClassDotIdx < MemberEnd(cleanedStr)
    ensures r == MemberPart(cc, res, raw, cleanedStr, postClassDotIdx, upperBoundClass)
  {
    var postMemberNameIdx := MemberEnd(cleanedStr);
    var memberName := cleanedStr[postClassDotIdx + 1..postMemberNameIdx];
    var wellFormed := IsWellFormedJavaIdentifier(cc, memberName);
    if !wellFormed {
      return Err(SyntaxError(MalformedMemberName, raw));
    }
    r := CheckArgumentList(cc, res, raw, cleanedStr, upperBoundClass, memberName);
  }

  /** An argument list must end the entry; its tokens are the argument type names. */
  method CheckArgumentList(cc: CharClass, res: Resolver, raw: string, cleanedStr: string, upperBoundClass: Class,
                           memberName: string) returns (r: Result<MemberSelector, SyntaxError>)
    requires cc.Valid()
    ensures r == ArgumentPart(cc, res, raw, cleanedStr, upperBoundClass, memberName)
  {
    var postMemberNameIdx := MemberEnd(cleanedStr);
    var hasArgList := postMemberNameIdx < |cleanedStr|;
    if !hasArgList {
      r := LookUpMember(cc, res, raw, cleanedStr, upperBoundClass, memberName, None);
      return;
    }
    if cleanedStr[|cleanedStr| - 1] != ')' {
      return Err(SyntaxError(MissingClosingParen, raw));
    }
    var argsSpec := cleanedStr[postMemberNameIdx + 1..|cleanedStr| - 1];
    r := LookUpMember(cc, res, raw, cleanedStr, upperBoundClass, memberName, Some(Tokens(argsSpec, ',')));
  }

  /** What each entry parses to, entry by entry. */
  function Outcomes(cc: CharClass, res: Resolver, entries: seq<string>): (rs: seq<Result<MemberSelector, SyntaxError>>)
    ensures |rs| == |entries|
  {
    seq(|entries|, k requires 0 <= k < |entries| => Parsed(cc, res, entries[k]))
  }

  /** The outcomes of a batch gathered into one: all values in order, or the first error. */
  function Collect<T, E>(rs: seq<Result<T, E>>): Result<seq<T>, E>
    decreases |rs|
  {
    if rs == [] then Ok([])
    else match Collect(rs[..|rs| - 1])
      case Err(e) => Err(e)
      case Ok(values) =>
        match rs[|rs| - 1]
        case Err(e) => Err(e)
        case Ok(v) => Ok(values + [v])
  }

  /** Gathering succeeds exactly when every outcome is a value, and then keeps one value per outcome in
      order; otherwise it fails with the error of the first failing outcome. */
  lemma {:induction false} CollectEntryWise<T, E>(rs: seq<Result<T, E>>)
    ensures Collect(rs).Ok? <==> forall k :: 0 <= k < |rs| ==> rs[k].Ok?
    ensures Collect(rs).Ok? ==>
      && |Collect(rs).value| == |rs|
      && forall k :: 0 <= k < |rs| ==> rs[k] == Ok(Collect(rs).value[k])
    ensures Collect(rs).Err? ==>
      exists k :: 0 <= k < |rs| && rs[k] == Err(Collect(rs).error) && forall j :: 0 <= j < k ==> rs[j].Ok?
    decreases |rs|
  {
    if rs != [] {
      var n := |rs| - 1;
      var front := rs[..n];
      CollectEntryWise(front);
      assert forall k :: 0 <= k < n ==> rs[k] == front[k];
      match Collect(front)
      case Err(e) =>
        var k :| 0 <= k < n && front[k] == Err(e) && forall j :: 0 <= j < k ==> front[j].Ok?;
        assert rs[k] == Err(e);
      case Ok(values) =>
        match rs[n]
        case Err(e) =>
        case Ok(v) =>
          assert forall k :: 0 <= k < n ==> (values + [v])[k] == values[k];
    }
  }

  /** Once a prefix of the outcomes holds an error, the whole batch fails with that error. */
  lemma {:induction false} CollectKeepsError<T, E>(rs: seq<Result<T, E>>, i: nat)
    requires i <= |rs| && Collect(rs[..i]).Err?
    ensures Collect(rs) == Collect(rs[..i])
    decreases |rs| - i
  {
    if i == |rs| {
      assert rs[..i] == rs;
    } else {
      assert rs[..i + 1][..i] == rs[..i];
      CollectKeepsError(rs, i + 1);
    }
  }

  /** Gathering one more outcome. */
  lemma CollectStep<T, E>(rs: seq<Result<T, E>>, i: nat)
    requires i < |rs|
    ensures Collect(rs[..i + 1]) ==
      match Collect(rs[..i])
      case Err(e) => Err(e)
      case Ok(values) => (match rs[i] case Err(e) => Err(e) case Ok(v) => Ok(values + [v]))
  {
    assert rs[..i + 1][..i] == rs[..i];
  }

  /** `MemberSelector.parse(memberSelectors, classLoader)`: the loop of the source, returning early
      on the first malformed entry. */
  method ParseAll(cc: CharClass, res: Resolver, memberSelectors: seq<string>)
    returns (r: Result<seq<MemberSelector>, SyntaxError>)
    requires cc.Valid()
    ensures r == Collect(Outcomes(cc, res, memberSelectors))
  {
    ghost var outcomes := Outcomes(cc, res, memberSelectors);
    var parsedMemberSelectors: seq<MemberSelector> := [];
    for i := 0 to |memberSelectors|
      invariant Collect(outcomes[..i]) == Ok(parsedMemberSelectors)
    {
      var parsed := Parse(cc, res, memberSelectors[i]);
      CollectStep(outcomes, i);
      if parsed.Err? {
        CollectKeepsError(outcomes, i + 1);
        return Err(parsed.error);
      }
      parsedMemberSelectors := parsedMemberSelectors + [parsed.value];
    }
    assert outcomes[..|memberSelectors|] == outcomes;
    return Ok(parsedMemberSelectors);
  }
}
