/** Well-formedness of the Java names written in a whitelist entry: `isWellFormedJavaIdentifier` and
    `isWellFormedClassName`, each a scanning method proved equal to a declarative predicate. */
module JavaNames {
  import opened Text
  import opened Host
  import opened Wrappers

  /** A start character followed by any number of part characters. */
  predicate IsJavaIdentifier(cc: CharClass, s: string) {
    |s| > 0 && cc.identifierStart(s[0]) && forall i :: 1 <= i < |s| ==> cc.identifierPart(s[i])
  }

  /** Every dot-separated segment is an identifier: no empty segment, so no leading, trailing or
      doubled dot, and no empty name. */
  predicate IsClassName(cc: CharClass, s: string) {
    var segments := Split(s, '.');
    forall k :: 0 <= k < |segments| ==> IsJavaIdentifier(cc, segments[k])
  }

  lemma IdentifierHasNoDot(cc: CharClass, s: string)
    requires cc.Valid() && IsJavaIdentifier(cc, s)
    ensures '.' !in s
  {
    forall i | 0 <= i < |s| ensures s[i] != '.' {
      if i == 0 { assert cc.identifierStart(s[i]); } else { assert cc.identifierPart(s[i]); }
    }
  }

  /** A class name is exactly a non-empty list of identifiers written with dots between them. */
  lemma ClassNameIffDottedIdentifiers(cc: CharClass, s: string, ids: seq<string>)
    requires cc.Valid()
    ensures IsClassName(cc, s) ==>
      var segments := Split(s, '.');
      |segments| > 0 && Join(segments, '.') == s &&
      forall k :: 0 <= k < |segments| ==> IsJavaIdentifier(cc, segments[k])
    ensures |ids| > 0 && (forall k :: 0 <= k < |ids| ==> IsJavaIdentifier(cc, ids[k])) && Join(ids, '.') == s
      ==> IsClassName(cc, s)
  {
    JoinSplit(s, '.');
    if |ids| > 0 && (forall k :: 0 <= k < |ids| ==> IsJavaIdentifier(cc, ids[k])) && Join(ids, '.') == s {
      forall k | 0 <= k < |ids| ensures '.' !in ids[k] {
        IdentifierHasNoDot(cc, ids[k]);
      }
      SplitJoin(ids, '.');
    }
  }

  /** What the scan of `isWellFormedClassName` demands of the character at position j: a start
      character right after the beginning or a dot, otherwise a part character or a dot that is not
      the last character. */
  ghost predicate ScanAccepts(cc: CharClass, s: string, j: nat)
    requires j < |s|
  {
    if j == 0 || s[j - 1] == '.' then cc.identifierStart(s[j])
    else (s[j] == '.' && j != |s| - 1) || cc.identifierPart(s[j])
  }

  ghost predicate ScanAcceptsAll(cc: CharClass, s: string) {
    |s| > 0 && forall j :: 0 <= j < |s| ==> ScanAccepts(cc, s, j)
  }

  /** The character-by-character condition and the segment-wise one agree. */
  lemma {:induction false} ScanAcceptsIffClassName(cc: CharClass, s: string)
    requires cc.Valid()
    ensures ScanAcceptsAll(cc, s) <==> IsClassName(cc, s)
    decreases |s|
  {
    match IndexOf(s, '.')
    case None =>
      assert Split(s, '.') == [s];
      assert IsClassName(cc, s) <==> IsJavaIdentifier(cc, Split(s, '.')[0]);
      ScanAcceptsIffIdentifier(cc, s);
    case Some(k) =>
      ScanAcceptsIffClassName(cc, s[k + 1..]);
      ClassNameAtFirstDot(cc, s, k);
      ScanAtFirstDot(cc, s, k);
  }

  /** At the first dot, a class name is an identifier followed by a class name. */
  lemma ClassNameAtFirstDot(cc: CharClass, s: string, k: nat)
    requires IndexOf(s, '.') == Some(k)
    ensures IsClassName(cc, s) <==> IsJavaIdentifier(cc, s[..k]) && IsClassName(cc, s[k + 1..])
  {
    var t := s[k + 1..];
    var rest := Split(t, '.');
    assert Split(s, '.') == [s[..k]] + rest;
    assert forall m :: 0 <= m < |rest| ==> Split(s, '.')[m + 1] == rest[m];
    if IsJavaIdentifier(cc, s[..k]) && IsClassName(cc, t) {
      forall m | 0 <= m < |Split(s, '.')| ensures IsJavaIdentifier(cc, Split(s, '.')[m]) {
        if m > 0 { assert Split(s, '.')[m] == rest[m - 1]; }
      }
    }
    if IsClassName(cc, s) {
      assert IsJavaIdentifier(cc, Split(s, '.')[0]);
    }
  }

  /** At the first dot, the scan accepts s exactly when it accepts an identifier before the dot and
      the rest after it. */
  lemma ScanAtFirstDot(cc: CharClass, s: string, k: nat)
    requires cc.Valid() && IndexOf(s, '.') == Some(k)
    ensures ScanAcceptsAll(cc, s) <==> IsJavaIdentifier(cc, s[..k]) && ScanAcceptsAll(cc, s[k + 1..])
  {
    var t := s[k + 1..];
    // positions after the dot are judged as positions of t
    forall j | k < j < |s| ensures ScanAccepts(cc, s, j) <==> ScanAccepts(cc, t, j - k - 1) {
      assert s[j] == t[j - k - 1];
      if j > k + 1 { assert s[j - 1] == t[j - k - 2]; }
    }
    // positions before the dot are judged as positions of an identifier
    forall j | 0 <= j < k
      ensures s[j] != '.'
      ensures ScanAccepts(cc, s, j) <==> if j == 0 then cc.identifierStart(s[j]) else cc.identifierPart(s[j])
    {
      assert s[..k][j] == s[j];
      if j > 0 { assert s[..k][j - 1] == s[j - 1]; }
    }
    if k == 0 {
      assert !ScanAccepts(cc, s, 0);
      assert !IsJavaIdentifier(cc, s[..k]);
    } else {
      assert s[k - 1] == s[..k][k - 1];
      assert ScanAccepts(cc, s, k) <==> k != |s| - 1;
      if ScanAcceptsAll(cc, s) {
        assert ScanAccepts(cc, s, k);
        forall j | 0 <= j < |t| ensures ScanAccepts(cc, t, j) {
          assert ScanAccepts(cc, s, j + k + 1);
        }
        assert ScanAccepts(cc, s, 0);
        forall i | 1 <= i < k ensures cc.identifierPart(s[..k][i]) {
          assert ScanAccepts(cc, s, i);
        }
      }
      if IsJavaIdentifier(cc, s[..k]) && ScanAcceptsAll(cc, t) {
        forall j | 0 <= j < |s| ensures ScanAccepts(cc, s, j) {
          if j < k {
            assert s[..k][j] == s[j];
          } else if j > k {
            assert ScanAccepts(cc, t, j - k - 1);
          }
        }
      }
    }
  }

  /** Without a dot, the scan accepts exactly an identifier. */
  lemma ScanAcceptsIffIdentifier(cc: CharClass, s: string)
    requires '.' !in s
    ensures ScanAcceptsAll(cc, s) <==> IsJavaIdentifier(cc, s)
  {
    forall j | 0 <= j < |s| ensures s[j] != '.' {
      assert s[j] in s;
    }
    if ScanAcceptsAll(cc, s) {
      assert ScanAccepts(cc, s, 0);
      forall i | 1 <= i < |s| ensures cc.identifierPart(s[i]) {
        assert ScanAccepts(cc, s, i);
      }
    }
  }

  /** `isWellFormedJavaIdentifier`. */
  method IsWellFormedJavaIdentifier(cc: CharClass, s: string) returns (b: bool)
    ensures b == IsJavaIdentifier(cc, s)
  {
    if |s| == 0 {
      return false;
    }
    if !cc.identifierStart(s[0]) {
      return false;
    }
    var i := 1;
    while i < |s|
      invariant 1 <= i <= |s|
      invariant forall j :: 1 <= j < i ==> cc.identifierPart(s[j])
    {
      if !cc.identifierPart(s[i]) {
        return false;
      }
      i := i + 1;
    }
    return true;
  }

  /** `isWellFormedClassName`: one pass that remembers where the current identifier starts. */
  method IsWellFormedClassName(cc: CharClass, s: string) returns (b: bool)
    requires cc.Valid()
    ensures b == IsClassName(cc, s)
  {
    ScanAcceptsIffClassName(cc, s);
    if |s| == 0 {
      return false;
    }
    var identifierStartIdx := 0;
    var i := 0;
    while i < |s|
      invariant 0 <= identifierStartIdx <= i <= |s|
      invariant identifierStartIdx == i <==> (i == 0 || s[i - 1] == '.')
      invariant forall j :: 0 <= j < i ==> ScanAccepts(cc, s, j)
    {
      var c := s[i];
      if i == identifierStartIdx {
        if !cc.identifierStart(c) {
          assert !ScanAccepts(cc, s, i);
          return false;
        }
      } else if c == '.' && i != |s| - 1 {
        identifierStartIdx := i + 1;
      } else {
        if !cc.identifierPart(c) {
          assert !ScanAccepts(cc, s, i);
          return false;
        }
      }
      i := i + 1;
    }
    return true;
  }
}
