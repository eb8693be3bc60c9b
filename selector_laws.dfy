/** What `MemberSelector.parse` promises about its outcome: which failures are syntax errors and
    which are recorded, where the upper bound and the member name come from, and that a selector
    written in the documented form parses back into its parts. */
module SelectorLaws {
  import opened Wrappers
  import opened Text
  import opened Host
  import opened JavaNames
  import opened MemberSelectors

  /** Every stage after the first reports a syntax error with the entry as given, never for a
      forbidden substring, and a failed selector with the cleaned-up text. */
  lemma {:induction false} LaterStagesReport(cc: CharClass, res: Resolver, raw: string, st: Stage)
    requires st.Valid() && !st.Entry?
    ensures ParseFrom(cc, res, raw, st).Err? ==>
      ParseFrom(cc, res, raw, st).error.entry == raw && ParseFrom(cc, res, raw, st).error.problem != ForbiddenSubstring
    ensures ParseFrom(cc, res, raw, st).Ok? && ParseFrom(cc, res, raw, st).value.FailedSelector? ==>
      ParseFrom(cc, res, raw, st).value.exceptionMemberSelectorString == st.s
    decreases st.Remaining()
  {
    match st
    case CleanedUp(s) =>
      match ClassDot(s) {
        case None =>
        case Some(dot) => LaterStagesReport(cc, res, raw, DotFound(s, dot));
      }
    case DotFound(s, dot) =>
      var upper := s[..dot];
      if IsClassName(cc, upper) && res.loadClass(upper).Some? {
        MemberPartReports(cc, res, raw, s, dot, res.loadClass(upper).value);
      }
  }

  /** The member part reports a syntax error with the entry as given, never for a forbidden
      substring, and a failed selector with the cleaned-up text. */
  lemma MemberPartReports(cc: CharClass, res: Resolver, raw: string, s: string, dot: nat, ub: Class)
    requires dot < MemberEnd(s)
    ensures MemberPart(cc, res, raw, s, dot, ub).Err? ==>
      MemberPart(cc, res, raw, s, dot, ub).error.entry == raw
      && MemberPart(cc, res, raw, s, dot, ub).error.problem != ForbiddenSubstring
    ensures MemberPart(cc, res, raw, s, dot, ub).Ok? && MemberPart(cc, res, raw, s, dot, ub).value.FailedSelector? ==>
      MemberPart(cc, res, raw, s, dot, ub).value.exceptionMemberSelectorString == s
  {
    if IsJavaIdentifier(cc, s[dot + 1..MemberEnd(s)]) {
      ArgumentPartOutcome(cc, res, raw, s, ub, s[dot + 1..MemberEnd(s)]);
    }
  }

  /** After the member name: an error is reported with the entry as given and is never the
      forbidden-substring one; a selector keeps the upper bound and a failure records s; a field
      comes without an argument list, and a method or constructor with one that closes s. */
  lemma ArgumentPartOutcome(cc: CharClass, res: Resolver, raw: string, s: string, ub: Class, name: string)
    ensures var r := ArgumentPart(cc, res, raw, s, ub, name);
      r.Err? ==> r.error.entry == raw && r.error.problem != ForbiddenSubstring
    ensures var r := ArgumentPart(cc, res, raw, s, ub, name);
      r.Ok? ==> r.value.GetUpperBoundType() == Some(ub)
    ensures var r := ArgumentPart(cc, res, raw, s, ub, name);
      r.Ok? && r.value.FailedSelector? ==> r.value.exceptionMemberSelectorString == s
    ensures var r := ArgumentPart(cc, res, raw, s, ub, name);
      r.Ok? && r.value.FieldSelector? ==> MemberEnd(s) == |s|
    ensures var r := ArgumentPart(cc, res, raw, s, ub, name);
      r.Ok? && (r.value.MethodSelector? || r.value.ConstructorSelector?) ==> MemberEnd(s) < |s| && s[|s| - 1] == ')'
  {
    var post := MemberEnd(s);
    if post == |s| {
      ResolveMemberOutcome(cc, res, raw, s, ub, name, None);
    } else if s[|s| - 1] == ')' {
      ResolveMemberOutcome(cc, res, raw, s, ub, name, Some(Tokens(s[post + 1..|s| - 1], ',')));
    }
  }

  /** A syntax error names the entry as given, and a failed selector the cleaned-up entry. The
      forbidden-substring error is raised exactly for entries holding `<`, `>`, `...` or `;`, and
      then before any other check. */
  lemma ParsedReportsEntry(cc: CharClass, res: Resolver, raw: string)
    ensures Parsed(cc, res, raw).Err? ==> Parsed(cc, res, raw).error.entry == raw
    ensures Parsed(cc, res, raw).Ok? && Parsed(cc, res, raw).value.FailedSelector? ==>
      Parsed(cc, res, raw).value.exceptionMemberSelectorString == Cleaned(raw)
    ensures Parsed(cc, res, raw) == Err(SyntaxError(ForbiddenSubstring, raw)) <==> HasForbiddenSubstring(raw)
  {
    if !HasForbiddenSubstring(raw) {
      LaterStagesReport(cc, res, raw, CleanedUp(Cleaned(raw)));
    }
  }

  /** The last stage: once the upper bound is loaded, a selector that comes out keeps it, has an
      identifier for its member name, and is a field exactly when there is no argument list. */
  lemma MemberStage(cc: CharClass, res: Resolver, raw: string, s: string, dot: nat, ub: Class, sel: MemberSelector)
    requires dot < MemberEnd(s)
    requires MemberPart(cc, res, raw, s, dot, ub) == Ok(sel)
    ensures sel.GetUpperBoundType() == Some(ub)
    ensures IsJavaIdentifier(cc, s[dot + 1..MemberEnd(s)])
    ensures sel.FieldSelector? ==> MemberEnd(s) == |s|
    ensures sel.MethodSelector? || sel.ConstructorSelector? ==> MemberEnd(s) < |s| && s[|s| - 1] == ')'
  {
    ArgumentPartOutcome(cc, res, raw, s, ub, s[dot + 1..MemberEnd(s)]);
  }

  /** The first stage: the forbidden-substring check, then the clean-up. */
  lemma EntryStep(cc: CharClass, res: Resolver, raw: string)
    ensures Parsed(cc, res, raw) ==
      if HasForbiddenSubstring(raw) then Err(SyntaxError(ForbiddenSubstring, raw))
      else ParseFrom(cc, res, raw, CleanedUp(Cleaned(raw)))
  {
  }

  /** The second stage: the search for the dot before the member name. */
  lemma CleanedUpStep(cc: CharClass, res: Resolver, raw: string, s: string)
    ensures ParseFrom(cc, res, raw, CleanedUp(s)) ==
      match ClassDot(s)
      case None => Err(SyntaxError(MissingDot, raw))
      case Some(dot) => ParseFrom(cc, res, raw, DotFound(s, dot))
  {
  }

  /** The third stage: the upper bound class name check and the class loading. */
  lemma DotFoundStep(cc: CharClass, res: Resolver, raw: string, s: string, dot: nat)
    requires dot < MemberEnd(s)
    ensures ParseFrom(cc, res, raw, DotFound(s, dot)) ==
      if !IsClassName(cc, s[..dot]) then Err(SyntaxError(MalformedUpperBoundClassName, raw))
      else match res.loadClass(s[..dot])
        case None => Ok(FailedSelector(None, ClassNotFound(s[..dot]), s))
        case Some(ub) => MemberPart(cc, res, raw, s, dot, ub)
  {
  }

  /** Following a parse that has got past the dot search down to its last stage. */
  lemma ParsedReachesMemberStage(cc: CharClass, res: Resolver, raw: string, dot: nat, ub: Class)
    requires !HasForbiddenSubstring(raw)
    requires ClassDot(Cleaned(raw)) == Some(dot)
    requires IsClassName(cc, Cleaned(raw)[..dot]) && res.loadClass(Cleaned(raw)[..dot]) == Some(ub)
    ensures Parsed(cc, res, raw) == MemberPart(cc, res, raw, Cleaned(raw), dot, ub)
  {
    var s := Cleaned(raw);
    EntryStep(cc, res, raw);
    CleanedUpStep(cc, res, raw, s);
    DotFoundStep(cc, res, raw, s, dot);
  }

  /** The outcome is a failed selector without an upper bound exactly when the entry passes the
      syntax checks up to the upper bound class name and the loader does not know that class. The
      later member name and `)` checks are then never made. */
  lemma ParsedWithoutUpperBound(cc: CharClass, res: Resolver, raw: string)
    ensures
      (Parsed(cc, res, raw).Ok? && Parsed(cc, res, raw).value.GetUpperBoundType().None?)
      <==>
      (&& !HasForbiddenSubstring(raw)
       && var s := Cleaned(raw);
          && ClassDot(s).Some?
          && IsClassName(cc, s[..ClassDot(s).value])
          && res.loadClass(s[..ClassDot(s).value]).None?)
    ensures Parsed(cc, res, raw).Ok? && Parsed(cc, res, raw).value.GetUpperBoundType().None? ==>
      Parsed(cc, res, raw).value.exception.ClassNotFound?
  {
    if !HasForbiddenSubstring(raw) {
      var s := Cleaned(raw);
      assert Parsed(cc, res, raw) == ParseFrom(cc, res, raw, CleanedUp(s));
      match ClassDot(s) {
        case None =>
        case Some(dot) =>
          assert ParseFrom(cc, res, raw, CleanedUp(s)) == ParseFrom(cc, res, raw, DotFound(s, dot));
          if IsClassName(cc, s[..dot]) {
            match res.loadClass(s[..dot]) {
              case None =>
              case Some(ub) =>
                ParsedReachesMemberStage(cc, res, raw, dot, ub);
                var r := MemberPart(cc, res, raw, s, dot, ub);
                if r.Ok? {
                  MemberStage(cc, res, raw, s, dot, ub, r.value);
                }
            }
          }
      }
    }
  }

  /** A parsed selector that has its upper bound comes from an entry whose text before the first
      `(` splits at its last dot into a well-formed class name, which the loader resolved to that
      upper bound, and an identifier; a field selector has no argument list, and a method or
      constructor selector has one that closes the entry. */
  lemma ParsedSelectorAnatomy(cc: CharClass, res: Resolver, raw: string, sel: MemberSelector)
    requires Parsed(cc, res, raw) == Ok(sel) && sel.GetUpperBoundType().Some?
    ensures !HasForbiddenSubstring(raw)
    ensures
      var s := Cleaned(raw);
      && ClassDot(s).Some?
      && var dot := ClassDot(s).value;
         && IsClassName(cc, s[..dot])
         && res.loadClass(s[..dot]) == sel.GetUpperBoundType()
         && IsJavaIdentifier(cc, s[dot + 1..MemberEnd(s)])
         && (sel.FieldSelector? ==> MemberEnd(s) == |s|)
         && (sel.MethodSelector? || sel.ConstructorSelector? ==> MemberEnd(s) < |s| && s[|s| - 1] == ')')
  {
    var dot, ub := ParsedPastUpperBound(cc, res, raw, sel);
    MemberStage(cc, res, raw, Cleaned(raw), dot, ub, sel);
  }

  /** An outcome that has its upper bound went through the dot search, the class name check and the
      class loading. */
  lemma ParsedPastUpperBound(cc: CharClass, res: Resolver, raw: string, sel: MemberSelector) returns (dot: nat, ub: Class)
    requires Parsed(cc, res, raw) == Ok(sel) && sel.GetUpperBoundType().Some?
    ensures !HasForbiddenSubstring(raw)
    ensures ClassDot(Cleaned(raw)) == Some(dot) && dot < MemberEnd(Cleaned(raw))
    ensures IsClassName(cc, Cleaned(raw)[..dot]) && res.loadClass(Cleaned(raw)[..dot]) == Some(ub)
    ensures MemberPart(cc, res, raw, Cleaned(raw), dot, ub) == Ok(sel)
  {
    EntryStep(cc, res, raw);
    dot, ub := CleanedUpPastUpperBound(cc, res, raw, Cleaned(raw), sel);
  }

  /** The same from the cleaned-up text on. */
  lemma CleanedUpPastUpperBound(cc: CharClass, res: Resolver, raw: string, s: string, sel: MemberSelector)
    returns (dot: nat, ub: Class)
    requires ParseFrom(cc, res, raw, CleanedUp(s)) == Ok(sel) && sel.GetUpperBoundType().Some?
    ensures ClassDot(s) == Some(dot) && dot < MemberEnd(s)
    ensures IsClassName(cc, s[..dot]) && res.loadClass(s[..dot]) == Some(ub)
    ensures MemberPart(cc, res, raw, s, dot, ub) == Ok(sel)
  {
    CleanedUpStep(cc, res, raw, s);
    dot := ClassDot(s).value;
    DotFoundStep(cc, res, raw, s, dot);
    ub := res.loadClass(s[..dot]).value;
  }

  /** The parts of a whitelist entry: the upper bound class name, the member name, and for a method or
      constructor the argument type names. */
  datatype SelectorText = SelectorText(upperBound: string, memberName: string, argumentTypeNames: Option<seq<string>>)

  function ArgumentList(args: Option<seq<string>>): string {
    match args
    case None => ""
    case Some(names) => "(" + Join(names, ',') + ")"
  }

  /** The entry written without white space, with bare commas between argument type names. */
  function Format(t: SelectorText): string {
    t.upperBound + "." + t.memberName + ArgumentList(t.argumentTypeNames)
  }

  /** The argument type names as the documentation writes them, with `, ` between neighbours. */
  function SpacedList(names: seq<string>): string
    decreases |names|
  {
    if |names| == 0 then ""
    else if |names| == 1 then names[0]
    else names[0] + ", " + SpacedList(names[1..])
  }

  function SpacedArgumentList(args: Option<seq<string>>): string {
    match args
    case None => ""
    case Some(names) => "(" + SpacedList(names) + ")"
  }

  /** The entry written as in the documentation, `com.example.MyClass.myMember(java.lang.String, boolean)`. */
  function Documented(t: SelectorText): string {
    t.upperBound + "." + t.memberName + SpacedArgumentList(t.argumentTypeNames)
  }

  /** Text made only of characters above U+0020. */
  predicate Printable(s: string) {
    forall i :: 0 <= i < |s| ==> s[i] > ' '
  }

  /** What the parts of an entry written as raw denote: the class the loader finds for the upper bound
      name, and then the member looked up with the argument type names as written. */
  function Interpretation(cc: CharClass, res: Resolver, raw: string, t: SelectorText): Result<MemberSelector, SyntaxError> {
    match res.loadClass(t.upperBound)
    case None => Ok(FailedSelector(None, ClassNotFound(t.upperBound), Format(t)))
    case Some(ub) => ResolveMember(cc, res, raw, Format(t), ub, t.memberName, t.argumentTypeNames)
  }

  /** s is laid out as an upper bound, the dot, a member name and, for a method or constructor, an
      argument list closing s: the dot after the upper bound is the last one before the first `(`,
      and the argument list holds the names written with commas between them. */
  ghost predicate LaidOut(s: string, upper: string, name: string, args: Option<seq<string>>) {
    && |upper| < MemberEnd(s)
    && ClassDot(s) == Some(|upper|)
    && s[..|upper|] == upper
    && s[|upper| + 1..MemberEnd(s)] == name
    && (args.None? ==> MemberEnd(s) == |s|)
    && (args.Some? ==>
          && MemberEnd(s) < |s| && s[|s| - 1] == ')'
          && s[MemberEnd(s) + 1..|s| - 1] == Join(args.value, ','))
  }

  /** The text of an entry written without white space splits into head and argument list at its
      first `(`, and the head into upper bound and member name at its last dot. */
  lemma FormatLayout(cc: CharClass, t: SelectorText)
    requires cc.Valid()
    requires IsClassName(cc, t.upperBound) && IsJavaIdentifier(cc, t.memberName)
    requires '(' !in t.upperBound && '(' !in t.memberName
    ensures MemberEnd(Format(t)) == |t.upperBound| + 1 + |t.memberName|
    ensures LaidOut(Format(t), t.upperBound, t.memberName, t.argumentTypeNames)
  {
    var head := t.upperBound + "." + t.memberName;
    HeadHasNoParen(t.upperBound, t.memberName);
    ArgumentListLayout(head, t.argumentTypeNames);
    HeadDot(cc, t.upperBound, t.memberName, Format(t));
  }

  /** The head of an entry written without white space holds no `(`. */
  lemma HeadHasNoParen(upper: string, name: string)
    requires '(' !in upper && '(' !in name
    ensures '(' !in upper + "." + name
  {
    var head := upper + "." + name;
    forall i | 0 <= i < |head| ensures head[i] != '(' {
      if i < |upper| {
        assert head[i] == upper[i];
      } else if i > |upper| {
        assert head[i] == name[i - |upper| - 1];
      }
    }
  }

  /** An argument list after a head without `(` starts at the end of the head and closes the text. */
  lemma ArgumentListLayout(head: string, args: Option<seq<string>>)
    requires '(' !in head
    ensures var s := head + ArgumentList(args);
      && MemberEnd(s) == |head| && s[..|head|] == head
      && (args.None? ==> |s| == |head|)
      && (args.Some? ==> |head| < |s| && s[|s| - 1] == ')' && s[|head| + 1..|s| - 1] == Join(args.value, ','))
  {
    match args {
      case None =>
        assert head + ArgumentList(args) == head;
      case Some(names) =>
        assert head + ArgumentList(args) == head + "(" + Join(names, ',') + ")";
        ArgumentListCloses(head, names);
    }
  }

  lemma ArgumentListCloses(head: string, names: seq<string>)
    requires '(' !in head
    ensures var s := head + "(" + Join(names, ',') + ")";
      && MemberEnd(s) == |head| && s[..|head|] == head
      && |head| < |s| && s[|s| - 1] == ')' && s[|head| + 1..|s| - 1] == Join(names, ',')
  {
    var list := Join(names, ',');
    var s := head + "(" + list + ")";
    assert s == head + ['('] + (list + ")");
    IndexOfAfter(head, '(', list + ")");
    assert s[|head| + 1..|s| - 1] == list;
  }

  /** When the text before the argument list is an upper bound, a dot and an identifier, that dot is
      the last one there. */
  lemma HeadDot(cc: CharClass, upper: string, name: string, s: string)
    requires cc.Valid() && IsJavaIdentifier(cc, name)
    requires MemberEnd(s) == |upper| + 1 + |name| && s[..MemberEnd(s)] == upper + "." + name
    ensures ClassDot(s) == Some(|upper|)
    ensures s[..|upper|] == upper && s[|upper| + 1..MemberEnd(s)] == name
  {
    var u := |upper|;
    var e := MemberEnd(s);
    var head := upper + "." + name;
    IdentifierHasNoDot(cc, name);
    assert s[u] == head[u] == '.';
    assert s[..u] == head[..u] == upper;
    assert s[u + 1..e] == head[u + 1..] == name;
    forall j | u < j <= e && j < |s| ensures s[j] != '.' {
      if j < e {
        assert s[j] == head[j] == name[j - u - 1];
      }
    }
    LastIndexOfAt(s, '.', e, u);
  }

  /** Text without white space or control characters is left alone by the clean-up. */
  lemma CleanedKeepsPrintable(s: string)
    requires forall i :: 0 <= i < |s| ==> s[i] > ' '
    ensures Cleaned(s) == s
  {
    CollapseKeepsSpaceFree(s, false);
    TrimKeepsTrimmed(s);
  }

  /** White space between two characters that are neither white space nor punctuation survives the
      clean-up as it is, so in `com.example.C.my field` the member name keeps its space. */
  lemma CleanedKeepsSpaceBetweenWords(raw: string, a: string, x: char, w: string, y: char, b: string)
    requires Trim(raw) == a + [x] + w + [y] + b
    requires !IsRegexSpace(x) && !IsPunctuation(x) && !IsRegexSpace(y) && !IsPunctuation(y)
    requires forall i :: 0 <= i < |w| ==> IsRegexSpace(w[i])
    ensures Cleaned(raw)
         == CollapseAroundPunctuation(a + [x], false) + w + CollapseAroundPunctuation([y] + b, false)
  {
    SpaceBetweenWordsKept(a, x, w, y, b, false);
  }

  /** Formatting the parts of an entry and parsing the text gives back the parts: the upper bound
      class is the one named, the member is looked up by the name and argument types written, and
      nothing is reported malformed except an argument type name. */
  lemma ParseFormatted(cc: CharClass, res: Resolver, t: SelectorText)
    requires cc.Valid()
    requires IsClassName(cc, t.upperBound) && IsJavaIdentifier(cc, t.memberName)
    requires '(' !in t.upperBound && '(' !in t.memberName
    requires t.argumentTypeNames.Some? ==>
      forall k :: 0 <= k < |t.argumentTypeNames.value| ==>
        t.argumentTypeNames.value[k] != [] && ',' !in t.argumentTypeNames.value[k]
    requires forall i :: 0 <= i < |Format(t)| ==> Format(t)[i] > ' '
    requires !HasForbiddenSubstring(Format(t))
    ensures Parsed(cc, res, Format(t)) == Interpretation(cc, res, Format(t), t)
  {
    CleanedKeepsPrintable(Format(t));
    EntryStep(cc, res, Format(t));
    FormattedFromCleanedUp(cc, res, Format(t), t);
  }

  /** The same for an entry written as in the documentation, with `, ` between argument type names:
      the clean-up removes the spaces, so the parts are read back as before, and a syntax error
      quotes the entry as written. */
  lemma ParseDocumented(cc: CharClass, res: Resolver, t: SelectorText)
    requires cc.Valid()
    requires IsClassName(cc, t.upperBound) && IsJavaIdentifier(cc, t.memberName)
    requires '(' !in t.upperBound && '(' !in t.memberName
    requires Printable(t.upperBound) && Printable(t.memberName)
    requires t.argumentTypeNames.Some? ==>
      forall k :: 0 <= k < |t.argumentTypeNames.value| ==>
        t.argumentTypeNames.value[k] != [] && ',' !in t.argumentTypeNames.value[k]
        && Printable(t.argumentTypeNames.value[k])
    requires !HasForbiddenSubstring(Documented(t))
    ensures Parsed(cc, res, Documented(t)) == Interpretation(cc, res, Documented(t), t)
  {
    CleanedDocumented(t);
    EntryStep(cc, res, Documented(t));
    FormattedFromCleanedUp(cc, res, Documented(t), t);
  }

  /** The clean-up turns the documented form into the form without white space. */
  lemma CleanedDocumented(t: SelectorText)
    requires Printable(t.upperBound) && Printable(t.memberName)
    requires t.argumentTypeNames.Some? ==>
      forall k :: 0 <= k < |t.argumentTypeNames.value| ==>
        t.argumentTypeNames.value[k] != [] && Printable(t.argumentTypeNames.value[k])
    ensures Cleaned(Documented(t)) == Format(t)
  {
    var head := t.upperBound + "." + t.memberName;
    assert Printable(head);
    match t.argumentTypeNames {
      case None =>
        assert Documented(t) == head == Format(t);
        CleanedKeepsPrintable(head);
      case Some(names) =>
        var open := head + "(";
        assert Printable(open);
        assert Documented(t) == open + (SpacedList(names) + ")");
        assert Format(t) == open + (Join(names, ',') + ")");
        CleanedDocumentedList(open, names);
    }
  }

  /** The same for text that opens an argument list and ends with it. */
  lemma CleanedDocumentedList(open: string, names: seq<string>)
    requires open != [] && Printable(open) && open[|open| - 1] == '('
    requires forall k :: 0 <= k < |names| ==> names[k] != [] && Printable(names[k])
    ensures Cleaned(open + (SpacedList(names) + ")")) == open + (Join(names, ',') + ")")
  {
    var rest := SpacedList(names) + ")";
    var d := open + rest;
    assert d[0] == open[0] && d[|d| - 1] == ')';
    CleanedOfTrimmed(d);
    CollapseDocumentedList(open, names);
  }

  /** Text that starts and ends with a visible character is only collapsed by the clean-up. */
  lemma CleanedOfTrimmed(d: string)
    requires d != [] && d[0] > ' ' && d[|d| - 1] > ' '
    ensures Cleaned(d) == CollapseAroundPunctuation(d, false)
  {
    TrimKeepsTrimmed(d);
  }

  lemma CollapseDocumentedList(open: string, names: seq<string>)
    requires open != [] && Printable(open) && open[|open| - 1] == '('
    requires forall k :: 0 <= k < |names| ==> names[k] != [] && Printable(names[k])
    ensures CollapseAroundPunctuation(open + (SpacedList(names) + ")"), false) == open + (Join(names, ',') + ")")
  {
    CollapseSplit(open, SpacedList(names) + ")", false);
    CollapseKeepsSpaceFree(open, false);
    CollapseSpacedList(names, true);
  }

  /** Cleaning the documented argument list, `a, b)`, drops the space after each comma. */
  lemma {:induction false} CollapseSpacedList(names: seq<string>, afterPunct: bool)
    requires forall k :: 0 <= k < |names| ==> names[k] != [] && Printable(names[k])
    ensures CollapseAroundPunctuation(SpacedList(names) + ")", afterPunct) == Join(names, ',') + ")"
    decreases |names|
  {
    if |names| <= 1 {
      var s := SpacedList(names) + ")";
      assert s == Join(names, ',') + ")";
      assert Printable(s);
      CollapseKeepsSpaceFree(s, afterPunct);
    } else {
      var u := names[0] + ",";
      var w := SpacedList(names[1..]) + ")";
      var v := " " + w;
      assert SpacedList(names) + ")" == u + v;
      assert Printable(u);
      CollapseSplit(u, v, afterPunct);
      CollapseKeepsSpaceFree(u, afterPunct);
      assert w[0] == names[1][0];
      SpaceRunAt(v, 1);
      CollapseAtSpace(v, true, 1);
      assert v[1..] == w;
      CollapseSpacedList(names[1..], false);
      AppendAssociates(u, Join(names[1..], ','), ")");
      assert Join(names, ',') == u + Join(names[1..], ',');
    }
  }

  /** The same from the cleaned-up stage on, for a text that the clean-up leaves alone. */
  lemma FormattedFromCleanedUp(cc: CharClass, res: Resolver, raw: string, t: SelectorText)
    requires cc.Valid()
    requires IsClassName(cc, t.upperBound) && IsJavaIdentifier(cc, t.memberName)
    requires '(' !in t.upperBound && '(' !in t.memberName
    requires t.argumentTypeNames.Some? ==>
      forall k :: 0 <= k < |t.argumentTypeNames.value| ==>
        t.argumentTypeNames.value[k] != [] && ',' !in t.argumentTypeNames.value[k]
    ensures ParseFrom(cc, res, raw, CleanedUp(Format(t))) == Interpretation(cc, res, raw, t)
  {
    FormatLayout(cc, t);
    CleanedUpLaidOut(cc, res, raw, Format(t), t.upperBound, t.memberName, t.argumentTypeNames);
  }

  /** From the cleaned-up stage on, text laid out as upper bound, dot, member name and argument list
      is looked up by those parts. */
  lemma CleanedUpLaidOut(cc: CharClass, res: Resolver, raw: string, s: string, upper: string, name: string,
                         args: Option<seq<string>>)
    requires LaidOut(s, upper, name, args) && IsClassName(cc, upper) && IsJavaIdentifier(cc, name)
    requires args.Some? ==> forall k :: 0 <= k < |args.value| ==> args.value[k] != [] && ',' !in args.value[k]
    ensures ParseFrom(cc, res, raw, CleanedUp(s)) ==
      match res.loadClass(upper)
      case None => Ok(FailedSelector(None, ClassNotFound(upper), s))
      case Some(ub) => ResolveMember(cc, res, raw, s, ub, name, args)
  {
    CleanedUpStep(cc, res, raw, s);
    DotFoundStep(cc, res, raw, s, |upper|);
    match res.loadClass(upper) {
      case None =>
      case Some(ub) => MemberStageResolves(cc, res, raw, s, |upper|, ub, name, args);
    }
  }

  /** The last stage looks up the member written between the dot and the argument list. */
  lemma MemberStageResolves(cc: CharClass, res: Resolver, raw: string, s: string, dot: nat, ub: Class,
                            name: string, args: Option<seq<string>>)
    requires dot < MemberEnd(s) && s[dot + 1..MemberEnd(s)] == name && IsJavaIdentifier(cc, name)
    requires args.None? ==> MemberEnd(s) == |s|
    requires args.Some? ==>
      && MemberEnd(s) < |s| && s[|s| - 1] == ')' && s[MemberEnd(s) + 1..|s| - 1] == Join(args.value, ',')
      && forall k :: 0 <= k < |args.value| ==> args.value[k] != [] && ',' !in args.value[k]
    ensures MemberPart(cc, res, raw, s, dot, ub) == ResolveMember(cc, res, raw, s, ub, name, args)
  {
    if args.Some? {
      TokensOfJoinedSlice(s, MemberEnd(s), args.value);
      assert args == Some(Tokens(s[MemberEnd(s) + 1..|s| - 1], ','));
    }
  }

  /** The argument list between the `(` at e and the closing `)` tokenizes back into the names joined
      there. */
  lemma TokensOfJoinedSlice(s: string, e: nat, names: seq<string>)
    requires e < |s| && s[e] == '(' && s[|s| - 1] == ')' && s[e + 1..|s| - 1] == Join(names, ',')
    requires forall k :: 0 <= k < |names| ==> names[k] != [] && ',' !in names[k]
    ensures Tokens(s[e + 1..|s| - 1], ',') == names
  {
    TokensOfJoin(names, ',');
    NonEmptyKeepsNonEmpty(names);
  }
}
