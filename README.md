# WhitelistMemberAccessPolicy, modelled in Dafny

FreeMarker's `WhitelistMemberAccessPolicy` decides which methods, constructors and fields of
host classes a template may reach. The whitelist is a list of member selectors. Each is written
as text such as `com.example.MyClass.myMethod(int, java.lang.String[])` and parsed against a class
loader into a `MemberSelector`. The policy sorts the selectors into a method, a constructor and a
field matcher. `forClass(contextClass)` then answers, for each member, whether it is exposed on
that class.

This project models:

- **`MemberSelector`** as a datatype with one variant per payload: method, constructor, field, or
  a recorded failure.
- **`MemberSelector.parse`** twice:
  - as an imperative method (`MemberSelectors.Parse` with `CheckUpperBound`, `CheckMember`,
    `CheckArgumentList`, `LookUpMember` and the argument loop `ResolveArgTypes`);
  - as a staged specification function (`MemberSelectors.Parsed`).

  Each method is proved equal to its specification.
- **The two failure tiers of parsing:**
  - malformed text is an `Err(SyntaxError(..))`, the source's `IllegalArgumentException`;
  - a class or member that cannot be resolved is an `Ok(FailedSelector(..))`.
- **The batch `parse`** (`MemberSelectors.ParseAll`): either the first syntax error, or one
  selector per entry in order.
- **`isWellFormedJavaIdentifier` and `isWellFormedClassName`** as scanning methods, each proved
  equal to a declarative definition of Java identifiers and dotted class names.
- **The policy** (`Whitelist.WhitelistMemberAccessPolicy`) as a class:
  - its constructor fills three `MemberMatcher` objects;
  - `forClass(contextClass).isXExposed(member)` becomes the predicates `IsMethodExposed`,
    `IsConstructorExposed` and `IsFieldExposed`, each taking the context class as a parameter.

The host runtime is given from outside:

| host facility | modelled as |
|---|---|
| class loader, reflection lookups, primitive type names, array classes, simple names | the `Host.Resolver` record of functions |
| `Character.isJavaIdentifierStart/Part` | `Host.CharClass` |
| the subtype relation | `Host.TypeHierarchy` |
| the `@TemplateAccessible` annotation lookup | a function parameter `annotated` |

The string operations the parser uses (`trim`, the white-space `replaceAll`, `indexOf`,
`lastIndexOf`, `StringTokenizer`) are written out in module `Text`.

## Model

| member | source | states |
|---|---|---|
| MemberSelectors.ExactlyOnePayload | freemarker-core/src/main/java/org/apache/freemarker/core/model/impl/WhitelistMemberAccessPolicy.java:77-155 | Every selector has exactly one of method, constructor, field or exception set. Only a selector with an exception may lack its upper bound type. |
| MemberSelectors.HasForbiddenSubstring | freemarker-core/src/main/java/org/apache/freemarker/core/model/impl/WhitelistMemberAccessPolicy.java:223-224 | The entry holds `<`, `>`, the three-dot sequence `...` or `;`; it computes the test that rejects generics, varargs and statement separators, and `SelectorLaws.ParsedReportsEntry` states that this error comes first. |
| Text.Contains | freemarker-core/src/main/java/org/apache/freemarker/core/model/impl/WhitelistMemberAccessPolicy.java:224 | `contains(t)`: a scan that tries t at every position from the left. |
| Text.ContainsIffOccurs | freemarker-core/src/main/java/org/apache/freemarker/core/model/impl/WhitelistMemberAccessPolicy.java:224 | The scan finds t exactly when t stands in s at some position, in both directions. |
| MemberSelectors.Cleaned | freemarker-core/src/main/java/org/apache/freemarker/core/model/impl/WhitelistMemberAccessPolicy.java:229 | The cleaned-up entry has no regex white space right before or after `.`, `,`, `(`, `)`, `[` or `]`. Apart from white space, it holds exactly the characters of the trimmed entry, in order. |
| Text.Trim | freemarker-core/src/main/java/org/apache/freemarker/core/model/impl/WhitelistMemberAccessPolicy.java:229 | `trim()` leaves text that is empty or starts and ends with a character above U+0020. |
| Text.TrimKeepsTrimmed | freemarker-core/src/main/java/org/apache/freemarker/core/model/impl/WhitelistMemberAccessPolicy.java:229 | `trim()` leaves alone text that already starts and ends with a visible character. |
| Text.TrimKeepsInnerSlice | freemarker-core/src/main/java/org/apache/freemarker/core/model/impl/WhitelistMemberAccessPolicy.java:229 | `trim()` returns a slice of the text and drops only characters up to U+0020 before and after it. With the ensures of `Text.Trim` the slice is the longest such one, so `""` comes out only for text made entirely of such characters. |
| Text.CollapseAroundPunctuation | freemarker-core/src/main/java/org/apache/freemarker/core/model/impl/WhitelistMemberAccessPolicy.java:229 | After the `replaceAll`, no white space stands next to punctuation. A leading non-space character is kept. |
| Text.CollapseRemovesOnlySpace | freemarker-core/src/main/java/org/apache/freemarker/core/model/impl/WhitelistMemberAccessPolicy.java:229 | The `replaceAll` removes only white space: every other character survives, in order. |
| Text.CollapseKeepsSpaceFree | freemarker-core/src/main/java/org/apache/freemarker/core/model/impl/WhitelistMemberAccessPolicy.java:229 | The `replaceAll` leaves text without white space unchanged. |
| Text.CollapseSplit | freemarker-core/src/main/java/org/apache/freemarker/core/model/impl/WhitelistMemberAccessPolicy.java:229 | The `replaceAll` works from left to right: text cut right after a non-white-space character is cleaned piece by piece, the second piece starting as if after punctuation exactly when the first ended in punctuation. |
| Text.SpaceBetweenWordsKept | freemarker-core/src/main/java/org/apache/freemarker/core/model/impl/WhitelistMemberAccessPolicy.java:229 | A run of white space between two characters that are neither white space nor punctuation is kept unchanged, with the text on either side cleaned on its own. |
| SelectorLaws.CleanedKeepsSpaceBetweenWords | freemarker-core/src/main/java/org/apache/freemarker/core/model/impl/WhitelistMemberAccessPolicy.java:229 | The same for the whole clean-up of an entry: in `com.example.C.my field` the space survives, so the member name is `my field`. |
| Text.IndexOf | freemarker-core/src/main/java/org/apache/freemarker/core/model/impl/WhitelistMemberAccessPolicy.java:234 | `indexOf(c)` is the first position holding c. It is -1 (`None`) exactly when c does not occur. |
| Text.LastIndexOf | freemarker-core/src/main/java/org/apache/freemarker/core/model/impl/WhitelistMemberAccessPolicy.java:239 | `lastIndexOf(c, from)` is a position holding c at or before `from`, with no c between it and `from`. When it is -1, there is no c up to `from`. |
| Text.LastIndexOfAt | freemarker-core/src/main/java/org/apache/freemarker/core/model/impl/WhitelistMemberAccessPolicy.java:239 | The backward search returns the first c it meets from `from` down. |
| MemberSelectors.MemberEnd | freemarker-core/src/main/java/org/apache/freemarker/core/model/impl/WhitelistMemberAccessPolicy.java:231-237 | The member name ends at the first `(`, or at the end exactly when there is no `(`. No `(` comes before that point. |
| MemberSelectors.ClassDot | freemarker-core/src/main/java/org/apache/freemarker/core/model/impl/WhitelistMemberAccessPolicy.java:239-242 | The class dot is a `.` before the end of the member name, with no `.` between it and that end. There is no class dot exactly when the head has no `.`, which is the missing-dot error. |
| MemberSelectors.StripArrayDims | freemarker-core/src/main/java/org/apache/freemarker/core/model/impl/WhitelistMemberAccessPolicy.java:273-277 | The argument type name equals its base name followed by `[]` once per counted dimension, and the base no longer ends in `[]`. |
| Text.EndsWith | freemarker-core/src/main/java/org/apache/freemarker/core/model/impl/WhitelistMemberAccessPolicy.java:274 | `endsWith(t)`: the last characters of s are t. |
| Text.EndsWithIffSuffix | freemarker-core/src/main/java/org/apache/freemarker/core/model/impl/WhitelistMemberAccessPolicy.java:274 | s ends with t exactly when s is some text followed by t. |
| MemberSelectors.ResolveArg | freemarker-core/src/main/java/org/apache/freemarker/core/model/impl/WhitelistMemberAccessPolicy.java:272-293 | One argument type: a primitive keyword after stripping `[]`, or else a malformed-name error for a base that is not a class name, a `ClassNotFound` failure when the loader does not know it, and otherwise the loaded class with the stripped array dimensions. |
| Text.Tokens | freemarker-core/src/main/java/org/apache/freemarker/core/model/impl/WhitelistMemberAccessPolicy.java:268 | `StringTokenizer` tokens are non-empty and hold no separator. |
| Text.NonEmpty | freemarker-core/src/main/java/org/apache/freemarker/core/model/impl/WhitelistMemberAccessPolicy.java:268 | Dropping empty pieces keeps exactly the non-empty pieces: a text is a result member exactly when it is a non-empty piece. |
| Text.NonEmptyAppend | freemarker-core/src/main/java/org/apache/freemarker/core/model/impl/WhitelistMemberAccessPolicy.java:268 | Dropping empty pieces works piece by piece and keeps their order. |
| Text.TokensOfJoin | freemarker-core/src/main/java/org/apache/freemarker/core/model/impl/WhitelistMemberAccessPolicy.java:267-269 | Tokenizing comma-joined comma-free pieces gives the non-empty pieces in order: commas next to each other or at either end give no token, and an empty argument list `()` has zero tokens. |
| Text.TokensSkipEmptyPieces | freemarker-core/src/main/java/org/apache/freemarker/core/model/impl/WhitelistMemberAccessPolicy.java:268 | For example, `,a,,b` has exactly the two tokens `a` and `b`. |
| MemberSelectors.ResolveArgs | freemarker-core/src/main/java/org/apache/freemarker/core/model/impl/WhitelistMemberAccessPolicy.java:271-294 | The argument types resolve exactly when every token resolves. They then give one type per token, in order. |
| MemberSelectors.ResolveArgsAfterPrefix | freemarker-core/src/main/java/org/apache/freemarker/core/model/impl/WhitelistMemberAccessPolicy.java:271-294 | Once the first i tokens have resolved, the outcome is that of the remaining tokens, with the resolved types in front. |
| MemberSelectors.ResolveArgsFirstFailure | freemarker-core/src/main/java/org/apache/freemarker/core/model/impl/WhitelistMemberAccessPolicy.java:271-294 | When token i is the first that does not resolve, its own outcome is the outcome of the whole list: a malformed name after it does not hide an earlier unloadable class, and an unloadable class after it does not hide an earlier malformed name. |
| MemberSelectors.ResolveArgTypes | freemarker-core/src/main/java/org/apache/freemarker/core/model/impl/WhitelistMemberAccessPolicy.java:267-294 | The loop that fills `argTypes` returns exactly `ResolveArgs`. That covers the first malformed name (a syntax error), the first unloadable class (a failure), and otherwise all types in order. |
| MemberSelectors.ResolveMember | freemarker-core/src/main/java/org/apache/freemarker/core/model/impl/WhitelistMemberAccessPolicy.java:295-308 | The member lookup once the name and the argument tokens are known; its outcomes are stated by `MemberSelectors.ResolveMemberOutcome` and `MemberSelectors.ResolveMemberPayload`. |
| MemberSelectors.ResolveMemberOutcome | freemarker-core/src/main/java/org/apache/freemarker/core/model/impl/WhitelistMemberAccessPolicy.java:262-308 | With an argument list the outcome is a constructor selector exactly when the member name is the upper bound's simple name and that constructor exists, and a method selector exactly when the name differs and that method exists; without one it is a field selector exactly when the field exists. Every outcome keeps the upper bound, a failure records the cleaned-up text, and a syntax error comes out exactly for a malformed argument type name. |
| MemberSelectors.ResolveMemberPayload | freemarker-core/src/main/java/org/apache/freemarker/core/model/impl/WhitelistMemberAccessPolicy.java:295-308 | A method selector holds the method `getMethod` returned for the member name and the resolved argument types, a constructor selector the constructor `getConstructor` returned for those types, and a field selector the field `getField` returned for the name, which happens only without an argument list. A failure records `NoSuchField` without an argument list, the cause of the first unresolved argument type when there is one, and `NoSuchMethod` otherwise. |
| MemberSelectors.LookUpMember | freemarker-core/src/main/java/org/apache/freemarker/core/model/impl/WhitelistMemberAccessPolicy.java:262-308 | The imperative member lookup returns exactly `ResolveMember`. |
| MemberSelectors.CheckMember | freemarker-core/src/main/java/org/apache/freemarker/core/model/impl/WhitelistMemberAccessPolicy.java:256-260 | The member name between the class dot and the end of the head must be an identifier, otherwise a malformed-member-name error; the rest returns the specified last stage of parsing. |
| MemberSelectors.CheckArgumentList | freemarker-core/src/main/java/org/apache/freemarker/core/model/impl/WhitelistMemberAccessPolicy.java:262-308 | Without an argument list the field is looked up; an argument list that does not end the entry is a missing-`)` error; otherwise its comma tokens are resolved and the member looked up, exactly as the specification of that stage says. |
| MemberSelectors.CheckUpperBound | freemarker-core/src/main/java/org/apache/freemarker/core/model/impl/WhitelistMemberAccessPolicy.java:244-254 | The upper bound class name check and class loading return the specified stage after the dot search. |
| MemberSelectors.Parsed | freemarker-core/src/main/java/org/apache/freemarker/core/model/impl/WhitelistMemberAccessPolicy.java:222-309 | The specification of `parse`: the forbidden-substring check, then the clean-up, then the later stages of `MemberSelectors.ParseFrom`; its properties are the `SelectorLaws` lemmas below. |
| MemberSelectors.ParseFrom | freemarker-core/src/main/java/org/apache/freemarker/core/model/impl/WhitelistMemberAccessPolicy.java:231-309 | The stages after the clean-up: the dot search (missing-dot error), the upper bound class name check and loading, then `MemberSelectors.MemberPart`. |
| MemberSelectors.MemberPart | freemarker-core/src/main/java/org/apache/freemarker/core/model/impl/WhitelistMemberAccessPolicy.java:256-260 | The member name check, then `MemberSelectors.ArgumentPart`. |
| MemberSelectors.ArgumentPart | freemarker-core/src/main/java/org/apache/freemarker/core/model/impl/WhitelistMemberAccessPolicy.java:262-308 | The field lookup without an argument list, the missing-`)` error, and the lookup with the comma tokens of the argument list. |
| MemberSelectors.Parse | freemarker-core/src/main/java/org/apache/freemarker/core/model/impl/WhitelistMemberAccessPolicy.java:222-309 | `parse(memberSelectorString, classLoader)` returns the outcome the staged specification `Parsed` gives for the entry. |
| SelectorLaws.ParsedReportsEntry | freemarker-core/src/main/java/org/apache/freemarker/core/model/impl/WhitelistMemberAccessPolicy.java:222-229 | A syntax error names the entry as given and a failure records the cleaned-up entry. The forbidden-substring error comes out exactly when the raw entry holds `<`, `>`, `...` or `;`, before any other check. |
| SelectorLaws.LaterStagesReport | freemarker-core/src/main/java/org/apache/freemarker/core/model/impl/WhitelistMemberAccessPolicy.java:239-308 | Every check after the clean-up reports a syntax error with the entry as given, never the forbidden-substring one. It records failures with the cleaned-up text. |
| SelectorLaws.MemberPartReports | freemarker-core/src/main/java/org/apache/freemarker/core/model/impl/WhitelistMemberAccessPolicy.java:256-308 | The member part reports a syntax error with the entry as given, and a failure with the cleaned-up text. |
| SelectorLaws.ArgumentPartOutcome | freemarker-core/src/main/java/org/apache/freemarker/core/model/impl/WhitelistMemberAccessPolicy.java:262-308 | After the member name, an error carries the entry as given and is never the forbidden-substring one; a selector keeps the upper bound and a failure records the cleaned-up text; a field comes without an argument list and a method or constructor with one that closes the entry. |
| SelectorLaws.ParsedWithoutUpperBound | freemarker-core/src/main/java/org/apache/freemarker/core/model/impl/WhitelistMemberAccessPolicy.java:244-266 | The outcome is a failure without an upper bound exactly when the entry passes the checks up to the upper bound class name and the loader does not know that class; its cause is then `ClassNotFound`, and it wins over the later member name and `)` checks. |
| SelectorLaws.ParsedSelectorAnatomy | freemarker-core/src/main/java/org/apache/freemarker/core/model/impl/WhitelistMemberAccessPolicy.java:231-266 | A parsed selector with an upper bound comes from an entry whose head splits at its last dot into a well-formed class name, which the loader resolved to that upper bound, and an identifier; a field has no argument list, and a method or constructor has one that closes the entry. |
| SelectorLaws.MemberStage | freemarker-core/src/main/java/org/apache/freemarker/core/model/impl/WhitelistMemberAccessPolicy.java:256-308 | Once the upper bound is loaded, a resulting selector keeps that upper bound and the member name is an identifier. A field comes without an argument list, and a method or constructor with one that closes the entry. |
| SelectorLaws.ParsedPastUpperBound | freemarker-core/src/main/java/org/apache/freemarker/core/model/impl/WhitelistMemberAccessPolicy.java:222-256 | An outcome with an upper bound went through the dot search, the class name check and the loading of that class. |
| SelectorLaws.FormatLayout | freemarker-core/src/main/java/org/apache/freemarker/core/model/impl/WhitelistMemberAccessPolicy.java:210-218 | An entry written without white space (class name, dot, member name, optional parenthesised list with bare commas) splits at its first `(` into head and argument list, and its head at its last dot into the same upper bound and member name. |
| SelectorLaws.CleanedUpLaidOut | freemarker-core/src/main/java/org/apache/freemarker/core/model/impl/WhitelistMemberAccessPolicy.java:231-308 | After the clean-up, text laid out as upper bound, dot, member name and argument list is looked up by exactly those parts. |
| SelectorLaws.ParseFormatted | freemarker-core/src/main/java/org/apache/freemarker/core/model/impl/WhitelistMemberAccessPolicy.java:202-309 | Round trip for an entry written without white space: parsing gives the interpretation of its parts, a `ClassNotFound` failure for an unknown upper bound class and otherwise the member looked up by the name and argument type names written. |
| SelectorLaws.ParseDocumented | freemarker-core/src/main/java/org/apache/freemarker/core/model/impl/WhitelistMemberAccessPolicy.java:210-218 | The same round trip for an entry written as documented, with `, ` between argument type names, as in `com.example.MyClass.myMember(java.lang.String, boolean)`; a syntax error quotes the entry as written. |
| SelectorLaws.CleanedDocumented | freemarker-core/src/main/java/org/apache/freemarker/core/model/impl/WhitelistMemberAccessPolicy.java:229 | The clean-up turns the documented form into the form without white space. |
| SelectorLaws.CollapseSpacedList | freemarker-core/src/main/java/org/apache/freemarker/core/model/impl/WhitelistMemberAccessPolicy.java:229 | The `replaceAll` drops the space after each comma of a documented argument list, leaving the names joined by bare commas. |
| MemberSelectors.CollectEntryWise | freemarker-core/src/main/java/org/apache/freemarker/core/model/impl/WhitelistMemberAccessPolicy.java:314-321 | A batch succeeds exactly when every entry parses. It then holds one selector per entry, in input order. Otherwise it fails with the error of the first malformed entry. |
| MemberSelectors.CollectKeepsError | freemarker-core/src/main/java/org/apache/freemarker/core/model/impl/WhitelistMemberAccessPolicy.java:314-321 | Once a prefix of the batch has failed, the whole batch fails with that error. |
| MemberSelectors.ParseAll | freemarker-core/src/main/java/org/apache/freemarker/core/model/impl/WhitelistMemberAccessPolicy.java:314-321 | The batch loop returns the per-entry outcomes gathered: the first syntax error, or all selectors in order. |
| JavaNames.IdentifierHasNoDot | freemarker-core/src/main/java/org/apache/freemarker/core/model/impl/WhitelistMemberAccessPolicy.java:393-406 | A well-formed identifier holds no `.`. |
| JavaNames.IsWellFormedJavaIdentifier | freemarker-core/src/main/java/org/apache/freemarker/core/model/impl/WhitelistMemberAccessPolicy.java:393-406 | The scan accepts exactly a non-empty text made of a start character followed by part characters. |
| JavaNames.ScanAcceptsIffClassName | freemarker-core/src/main/java/org/apache/freemarker/core/model/impl/WhitelistMemberAccessPolicy.java:371-391 | The character-by-character condition of the `isWellFormedClassName` scan holds exactly for names made of dot-separated identifiers, so empty text, an empty segment, and a leading or trailing dot are rejected. |
| JavaNames.ClassNameAtFirstDot | freemarker-core/src/main/java/org/apache/freemarker/core/model/impl/WhitelistMemberAccessPolicy.java:371-391 | At its first dot, a class name is an identifier followed by a class name, and conversely. |
| JavaNames.ScanAtFirstDot | freemarker-core/src/main/java/org/apache/freemarker/core/model/impl/WhitelistMemberAccessPolicy.java:376-389 | At the first dot, the scan accepts the text exactly when it accepts an identifier before that dot and the rest after it, so a dot at the very end, followed by nothing, is rejected. |
| JavaNames.ScanAcceptsIffIdentifier | freemarker-core/src/main/java/org/apache/freemarker/core/model/impl/WhitelistMemberAccessPolicy.java:376-389 | On text without a dot, the class name scan accepts exactly an identifier. |
| JavaNames.ClassNameIffDottedIdentifiers | freemarker-core/src/main/java/org/apache/freemarker/core/model/impl/WhitelistMemberAccessPolicy.java:371-391 | A well-formed class name is exactly a non-empty list of identifiers joined by dots, in both directions. |
| JavaNames.IsWellFormedClassName | freemarker-core/src/main/java/org/apache/freemarker/core/model/impl/WhitelistMemberAccessPolicy.java:371-391 | The scan with its moving `identifierStartIdx` accepts exactly the well-formed class names. |
| Whitelist.RegistryHolds | freemarker-core/src/main/java/org/apache/freemarker/core/model/impl/WhitelistMemberAccessPolicy.java:324-345 | A (upper bound, signature) pair is in the registry of a kind exactly when some selector of that kind, upper bound and signature is in the list. |
| Whitelist.RegistryKinds | freemarker-core/src/main/java/org/apache/freemarker/core/model/impl/WhitelistMemberAccessPolicy.java:335-343 | Each registry holds only signatures of its own kind, so no selector reaches two matchers. |
| Whitelist.FailedSelectorSkipped | freemarker-core/src/main/java/org/apache/freemarker/core/model/impl/WhitelistMemberAccessPolicy.java:330-334 | A selector with an exception changes no matcher: removing it from the list leaves every registry the same. |
| Whitelist.MemberMatcher.constructor | freemarker-core/src/main/java/org/apache/freemarker/core/model/impl/WhitelistMemberAccessPolicy.java:325-327 | A new matcher holds no pairs. |
| Whitelist.MemberMatcher.AddMatching | freemarker-core/src/main/java/org/apache/freemarker/core/model/impl/WhitelistMemberAccessPolicy.java:336-340 | `addMatching` adds exactly the one (upper bound, signature) pair. |
| Whitelist.MemberMatcher.Matches | freemarker-core/src/main/java/org/apache/freemarker/core/model/impl/WhitelistMemberAccessPolicy.java:350-367 | `matches(contextClass, member)`: some added pair has the member's signature and an upper bound that the context class is `instanceof`. |
| Whitelist.MemberMatcher.MatchInherited | freemarker-core/src/main/java/org/apache/freemarker/core/model/impl/WhitelistMemberAccessPolicy.java:58-64 | A match on a class holds on every subclass of it. |
| Whitelist.WhitelistMemberAccessPolicy.constructor | freemarker-core/src/main/java/org/apache/freemarker/core/model/impl/WhitelistMemberAccessPolicy.java:324-345 | After construction, the three distinct fresh matchers each hold exactly the registry of their kind. Failed selectors are skipped, and every other selector goes to the matcher of its kind. |
| Whitelist.WhitelistMemberAccessPolicy.IsMethodExposed | freemarker-core/src/main/java/org/apache/freemarker/core/model/impl/WhitelistMemberAccessPolicy.java:348-354 | A method is exposed exactly when a method selector with the same name and parameter types has an upper bound the context class is `instanceof`, or the annotation lookup says so. |
| Whitelist.WhitelistMemberAccessPolicy.IsConstructorExposed | freemarker-core/src/main/java/org/apache/freemarker/core/model/impl/WhitelistMemberAccessPolicy.java:356-361 | A constructor is exposed exactly when a constructor selector with the same parameter types has an upper bound the context class is `instanceof`, or the annotation lookup says so. |
| Whitelist.WhitelistMemberAccessPolicy.IsFieldExposed | freemarker-core/src/main/java/org/apache/freemarker/core/model/impl/WhitelistMemberAccessPolicy.java:363-367 | A field is exposed exactly when a field selector with the same name has an upper bound the context class is `instanceof`, or the annotation lookup says so. |
| Whitelist.WhitelistMemberAccessPolicy.ExposedBySelector | freemarker-core/src/main/java/org/apache/freemarker/core/model/impl/WhitelistMemberAccessPolicy.java:58-64 | A matcher matches on a class exactly when a selector of its kind with that signature has an upper bound the class is `instanceof`. It never matches on a more generic type. |
| Whitelist.WhitelistMemberAccessPolicy.ExposureInherited | freemarker-core/src/main/java/org/apache/freemarker/core/model/impl/WhitelistMemberAccessPolicy.java:58-64 | A member whitelisted on a class by a selector is exposed on every subclass of that class. This holds for fields and constructors too. |
| Whitelist.WhitelistMemberAccessPolicy.ReturnTypeIgnored | freemarker-core/src/main/java/org/apache/freemarker/core/model/impl/WhitelistMemberAccessPolicy.java:66-68 | Whitelisting a method by a selector whitelists every variant with the same name and parameter types, whatever its return type. |

## Left out

- **Reflection and class loading.** `ClassLoader.loadClass`, `getMethod`, `getConstructor`,
  `getField`, `getSimpleName`, `_ClassUtils.resolveIfPrimitiveTypeName` and
  `_ClassUtils.getArrayClass` are foreign runtime calls. They are the functions of `Host.Resolver`.
  An exception from them is a `None` answer.
- **Upper bound loading.** At this step the source catches only `ClassNotFoundException`. A
  `SecurityException` from that call would propagate, and the model does not distinguish it.
- **UTF-16 code units.** Java applies `isJavaIdentifierStart` and `isJavaIdentifierPart` to each
  `char`, a UTF-16 code unit, so a character outside the Basic Multilingual Plane reaches them as
  two surrogates, and both tests reject a surrogate. A Dafny `string` holds Unicode scalar values,
  so `Host.CharClass` sees such a character whole. The model therefore does not say that those
  characters are rejected in identifiers and class names.
- **`Character.isJavaIdentifierStart` and `isJavaIdentifierPart`.** These use Unicode tables. They
  are abstract functions, with the single fact the parser relies on: `.` is neither
  (`Host.CharClass.Valid`).
- **`_MethodUtils.getInheritableAnnotation` and `@TemplateAccessible`.** The annotation walk is
  the uninterpreted parameter `annotated`.
- Whitelist.WhitelistMemberAccessPolicy.ExposureInherited: states inheritance only for exposure
  through a selector, because the annotation walk is not modelled.
- Whitelist.WhitelistMemberAccessPolicy.ReturnTypeIgnored: states this only for exposure through a
  selector, for the same reason.
- **The matcher classes.** `MethodMatcher`, `ConstructorMatcher` and `FieldMatcher` are not part
  of this model. Each is one `MemberMatcher`: a set of (upper bound, signature) pairs whose
  `matches` follows the class documentation.
- **`forClass`.** It returns an anonymous `ClassMemberAccessPolicy` that captures the context
  class. The model passes the context class to each exposure predicate directly.
- **The `AssertionError` branch.** The constructor's branch for a selector with no payload is
  unreachable in the model, because the selector datatype has exactly four variants.
- **Null checks.** The `_NullArgumentException` checks of the `MemberSelector` constructors are
  implied by the datatype: there are no null values.
- **SLF4J logging** of skipped selectors. It has no effect on the result.
- **Thread safety.** After construction the policy is never changed.
- **The `Exception` objects.** A failure records its cause as a `Cause` value without a message.
