/** The java.lang.String, java.util.StringTokenizer and java.util.regex operations that the selector
    parser relies on, written out as functions over `string` (a `seq<char>`). */
module Text {
  import opened Wrappers

  /** `s.contains(t)`: t occurs in s as a contiguous block. */
  predicate Contains(s: string, t: string)
    decreases |s|
  {
    |t| <= |s| && (s[..|t|] == t || (|s| > 0 && Contains(s[1..], t)))
  }

  /** t stands in s starting at position i. */
  predicate OccursAt(s: string, t: string, i: nat) {
    i + |t| <= |s| && s[i..i + |t|] == t
  }

  /** The scan finds t exactly when t starts at some position of s. */
  lemma {:induction false} ContainsIffOccurs(s: string, t: string)
    ensures Contains(s, t) <==> exists i: nat :: OccursAt(s, t, i)
    decreases |s|
  {
    if |t| <= |s| {
      if s[..|t|] == t {
        assert OccursAt(s, t, 0);
      } else {
        ContainsIffOccurs(s[1..], t);
        if i: nat :| OccursAt(s[1..], t, i) {
          assert s[1..][i..i + |t|] == s[i + 1..i + 1 + |t|];
          assert OccursAt(s, t, i + 1);
        }
        if i: nat :| OccursAt(s, t, i) {
          assert i != 0;
          assert s[1..][i - 1..i - 1 + |t|] == s[i..i + |t|];
          assert OccursAt(s[1..], t, i - 1);
        }
      }
    }
  }

  /** `s.indexOf(c)`: the first position holding c, `None` standing for -1. */
  function IndexOf(s: string, c: char): (r: Option<nat>)
    ensures r.Some? ==> r.value < |s| && s[r.value] == c && c !in s[..r.value]
    ensures r.None? <==> c !in s
    decreases |s|
  {
    if s == [] then None
    else if s[0] == c then Some(0)
    else match IndexOf(s[1..], c)
      case None => None
      case Some(i) =>
        assert s[..i + 1] == [s[0]] + s[1..][..i];
        Some(i + 1)
  }

  /** `s.lastIndexOf(c, from)`: the greatest position not beyond `from` that holds c. */
  function LastIndexOf(s: string, c: char, from: nat): (r: Option<nat>)
    requires from <= |s|
    ensures r.Some? ==> r.value <= from && r.value < |s| && s[r.value] == c
    ensures r.Some? ==> forall j :: r.value < j <= from && j < |s| ==> s[j] != c
    ensures r.None? ==> forall j :: 0 <= j <= from && j < |s| ==> s[j] != c
    decreases from
  {
    if from < |s| && s[from] == c then Some(from)
    else if from == 0 then None
    else LastIndexOf(s, c, from - 1)
  }

  /** The search backwards from `from` stops at the first c it meets. */
  lemma {:induction false} LastIndexOfAt(s: string, c: char, from: nat, p: nat)
    requires p <= from <= |s| && p < |s| && s[p] == c
    requires forall j :: p < j <= from && j < |s| ==> s[j] != c
    ensures LastIndexOf(s, c, from) == Some(p)
    decreases from
  {
    if from != p {
      LastIndexOfAt(s, c, from - 1, p);
    }
  }

  lemma IndexOfAfter(a: string, c: char, b: string)
    requires c !in a
    ensures IndexOf(a + [c] + b, c) == Some(|a|)
  {
    var s := a + [c] + b;
    assert s[|a|] == c;
    var r := IndexOf(s, c);
    assert r.Some?;
    assert s[..|a|] == a;
    assert forall j :: |a| < j <= |s| ==> s[..j][|a|] == c;
  }

  /** The pieces of s between occurrences of sep; always at least one piece. */
  function Split(s: string, sep: char): (parts: seq<string>)
    ensures |parts| > 0
    ensures forall k :: 0 <= k < |parts| ==> sep !in parts[k]
    decreases |s|
  {
    match IndexOf(s, sep)
    case None => [s]
    case Some(i) => [s[..i]] + Split(s[i + 1..], sep)
  }

  /** The pieces written one after the other with sep between neighbours. */
  function Join(parts: seq<string>, sep: char): string
    decreases |parts|
  {
    if |parts| == 0 then ""
    else if |parts| == 1 then parts[0]
    else parts[0] + [sep] + Join(parts[1..], sep)
  }

  /** Joining the pieces of a split gives back the original text. */
  lemma {:induction false} JoinSplit(s: string, sep: char)
    ensures Join(Split(s, sep), sep) == s
    decreases |s|
  {
    match IndexOf(s, sep)
    case None =>
    case Some(i) =>
      JoinSplit(s[i + 1..], sep);
      var rest := Split(s[i + 1..], sep);
      assert Split(s, sep) == [s[..i]] + rest;
      assert ([s[..i]] + rest)[1..] == rest;
      assert s == s[..i] + [sep] + s[i + 1..];
  }

  /** Splitting a join of sep-free pieces gives back the pieces. */
  lemma {:induction false} SplitJoin(parts: seq<string>, sep: char)
    requires |parts| > 0
    requires forall k :: 0 <= k < |parts| ==> sep !in parts[k]
    ensures Split(Join(parts, sep), sep) == parts
    decreases |parts|
  {
    if |parts| > 1 {
      var rest := Join(parts[1..], sep);
      var s := parts[0] + [sep] + rest;
      assert Join(parts, sep) == s;
      IndexOfAfter(parts[0], sep, rest);
      assert s[..|parts[0]|] == parts[0];
      assert s[|parts[0]| + 1..] == rest;
      assert Split(s, sep) == [parts[0]] + Split(rest, sep);
      SplitJoin(parts[1..], sep);
      assert parts == [parts[0]] + parts[1..];
    } else {
      assert IndexOf(parts[0], sep) == None;
    }
  }

  /** The pieces that are not empty, in order. */
  function NonEmpty(parts: seq<string>): (r: seq<string>)
    ensures forall k :: 0 <= k < |r| ==> r[k] != [] && r[k] in parts
    ensures forall x :: x in r <==> x in parts && x != []
    decreases |parts|
  {
    if parts == [] then []
    else
      var rest := NonEmpty(parts[1..]);
      assert forall x :: x in parts <==> x == parts[0] || x in parts[1..];
      (if parts[0] == [] then [] else [parts[0]]) + rest
  }

  /** Dropping the empty pieces keeps the order: it works piece by piece. */
  lemma {:induction false} NonEmptyAppend(a: seq<string>, b: seq<string>)
    ensures NonEmpty(a + b) == NonEmpty(a) + NonEmpty(b)
    decreases |a|
  {
    if a == [] {
      assert a + b == b;
    } else {
      assert (a + b)[0] == a[0];
      assert (a + b)[1..] == a[1..] + b;
      NonEmptyAppend(a[1..], b);
    }
  }

  lemma {:induction false} NonEmptyKeepsNonEmpty(parts: seq<string>)
    requires forall k :: 0 <= k < |parts| ==> parts[k] != []
    ensures NonEmpty(parts) == parts
    decreases |parts|
  {
    if parts != [] {
      NonEmptyKeepsNonEmpty(parts[1..]);
      assert parts == [parts[0]] + parts[1..];
    }
  }

  /** `new StringTokenizer(s, sep)`: the maximal non-empty runs of characters other than sep. */
  function Tokens(s: string, sep: char): (r: seq<string>)
    ensures forall k :: 0 <= k < |r| ==> r[k] != [] && sep !in r[k]
  {
    NonEmpty(Split(s, sep))
  }

  /** Tokenizing sep-separated, sep-free pieces gives back the pieces that are not empty, in order:
      separators next to each other, or at either end, produce no token, and the empty text has no
      tokens. */
  lemma TokensOfJoin(parts: seq<string>, sep: char)
    requires forall k :: 0 <= k < |parts| ==> sep !in parts[k]
    ensures Tokens(Join(parts, sep), sep) == NonEmpty(parts)
  {
    if parts == [] {
      assert IndexOf("", sep) == None;
      assert Split("", sep) == [""];
      assert [""][1..] == [];
      assert NonEmpty([""]) == [] + NonEmpty([]);
    } else {
      SplitJoin(parts, sep);
    }
  }

  /** For instance, `",a,,b"` has the two tokens `"a"` and `"b"`. */
  lemma TokensSkipEmptyPieces()
    ensures Tokens(",a,,b", ',') == ["a", "b"]
  {
    var parts := ["", "a", "", "b"];
    assert Join(parts[3..], ',') == "b";
    assert Join(parts[2..], ',') == ",b";
    assert Join(parts[1..], ',') == "a,,b";
    assert Join(parts, ',') == ",a,,b";
    TokensOfJoin(parts, ',');
    assert NonEmpty(parts[3..]) == ["b"];
    assert NonEmpty(parts[2..]) == ["b"];
    assert NonEmpty(parts[1..]) == ["a", "b"];
  }

  /** `s.endsWith(t)`. */
  predicate EndsWith(s: string, t: string) {
    |t| <= |s| && s[|s| - |t|..] == t
  }

  /** s ends with t exactly when s is some text followed by t. */
  lemma EndsWithIffSuffix(s: string, t: string)
    ensures EndsWith(s, t) <==> exists u :: s == u + t
  {
    if EndsWith(s, t) {
      assert s == s[..|s| - |t|] + t;
    }
    if u :| s == u + t {
      assert s[|s| - |t|..] == t;
    }
  }

  /** n copies of t, one after the other. */
  function Repeat(t: string, n: nat): string {
    if n == 0 then "" else Repeat(t, n - 1) + t
  }

  /** The leading part of `s.trim()`: drops every leading character up to U+0020. */
  function TrimStart(s: string): (r: string)
    ensures |r| <= |s| && r == s[|s| - |r|..]
    ensures forall i :: 0 <= i < |s| - |r| ==> s[i] <= ' '
    ensures r == [] || r[0] > ' '
    decreases |s|
  {
    if s != [] && s[0] <= ' ' then TrimStart(s[1..]) else s
  }

  /** The trailing part of `s.trim()`: drops every trailing character up to U+0020. */
  function TrimEnd(s: string): (r: string)
    ensures |r| <= |s| && r == s[..|r|]
    ensures forall i :: |r| <= i < |s| ==> s[i] <= ' '
    ensures r == [] || r[|r| - 1] > ' '
    decreases |s|
  {
    if s != [] && s[|s| - 1] <= ' ' then TrimEnd(s[..|s| - 1]) else s
  }

  /** `s.trim()`. */
  function Trim(s: string): (r: string)
    ensures r == [] || (r[0] > ' ' && r[|r| - 1] > ' ')
  {
    TrimEnd(TrimStart(s))
  }

  /** Trim cuts s down to a slice of itself, dropping only characters up to U+0020 before and after
      it; with the ensures of `Trim` this makes the slice the longest one that trim can keep. */
  lemma TrimKeepsInnerSlice(s: string)
    ensures exists i, j :: (0 <= i <= j <= |s| && Trim(s) == s[i..j]
      && (forall k :: 0 <= k < i ==> s[k] <= ' ') && (forall k :: j <= k < |s| ==> s[k] <= ' '))
  {
    var t := TrimStart(s);
    var i := |s| - |t|;
    var r := TrimEnd(t);
    TrimEndInside(s, i, r);
    assert 0 <= i <= i + |r| <= |s| && Trim(s) == s[i..i + |r|];
  }

  /** Trimming the end of the tail of s that starts at i drops only characters up to U+0020 at the
      end of s. */
  lemma TrimEndInside(s: string, i: nat, r: string)
    requires i <= |s| && r == TrimEnd(s[i..])
    ensures i + |r| <= |s| && r == s[i..i + |r|]
    ensures forall k :: i + |r| <= k < |s| ==> s[k] <= ' '
  {
    var t := s[i..];
    forall k | i + |r| <= k < |s| ensures s[k] <= ' ' {
      assert s[k] == t[k - i];
    }
  }

  /** Text that already starts and ends with a visible character is left alone by trim. */
  lemma TrimKeepsTrimmed(s: string)
    requires s == [] || (s[0] > ' ' && s[|s| - 1] > ' ')
    ensures Trim(s) == s
  {
    var t := TrimStart(s);
    assert s != [] ==> s[0] > ' ';
    var r := TrimEnd(t);
    assert t == s;
  }

  /** The characters that `\s` matches in a java.util.regex pattern: space, tab, line feed,
      vertical tab, form feed and carriage return. */
  predicate IsRegexSpace(c: char) {
    c == ' ' || ('\t' <= c <= '\r')
  }

  /** The characters around which the selector clean-up removes white space. */
  predicate IsPunctuation(c: char) {
    c == '.' || c == ',' || c == '(' || c == ')' || c == '[' || c == ']'
  }

  /** The number of regex white-space characters at the start of s. */
  function SpaceRun(s: string): (k: nat)
    ensures k <= |s|
    ensures forall i :: 0 <= i < k ==> IsRegexSpace(s[i])
    ensures k < |s| ==> !IsRegexSpace(s[k])
    decreases |s|
  {
    if s != [] && IsRegexSpace(s[0]) then 1 + SpaceRun(s[1..]) else 0
  }

  /** Neither of two neighbouring characters is white space while the other is punctuation. */
  predicate Separated(x: char, y: char) {
    !(IsRegexSpace(x) && IsPunctuation(y)) && !(IsPunctuation(x) && IsRegexSpace(y))
  }

  /** No white space stands right before or right after a punctuation character. */
  ghost predicate NoSpaceNextToPunctuation(r: string) {
    forall i, j :: 0 <= i < j < |r| && j == i + 1 ==> Separated(r[i], r[j])
  }

  lemma NoSpaceNextToPunctuationAppend(a: string, b: string)
    requires NoSpaceNextToPunctuation(a) && NoSpaceNextToPunctuation(b)
    requires a != [] && b != [] ==> Separated(a[|a| - 1], b[0])
    ensures NoSpaceNextToPunctuation(a + b)
  {
    var r := a + b;
    forall i, j | 0 <= i < j < |r| && j == i + 1 ensures Separated(r[i], r[j]) {
      if j < |a| {
        assert r[i] == a[i] && r[j] == a[j];
      } else if i >= |a| {
        assert r[i] == b[i - |a|] && r[j] == b[j - |a|];
      }
    }
  }

  /** The clean-up `replaceAll("\\s*([\\.,\\(\\)\\[\\]])\\s*", "$1")`: a maximal run of white space
      is removed when a punctuation character stands right before it (`afterPunct` says so of the
      character before s) or right after it, and kept otherwise; all other characters are kept. */
  function CollapseAroundPunctuation(s: string, afterPunct: bool): (r: string)
    ensures NoSpaceNextToPunctuation(r)
    ensures afterPunct && r != [] ==> !IsRegexSpace(r[0])
    ensures s != [] && !IsRegexSpace(s[0]) ==> r != [] && r[0] == s[0]
    decreases |s|
  {
    if s == [] then []
    else
      var k := SpaceRun(s);
      if k == 0 then
        var rest := CollapseAroundPunctuation(s[1..], IsPunctuation(s[0]));
        NoSpaceNextToPunctuationAppend([s[0]], rest);
        [s[0]] + rest
      else if afterPunct || (k < |s| && IsPunctuation(s[k])) then
        CollapseAroundPunctuation(s[k..], false)
      else
        var rest := CollapseAroundPunctuation(s[k..], false);
        assert NoSpaceNextToPunctuation(s[..k]) by {
          forall i | 0 <= i < k ensures !IsPunctuation(s[..k][i]) {
            assert IsRegexSpace(s[i]);
          }
        }
        NoSpaceNextToPunctuationAppend(s[..k], rest);
        s[..k] + rest
  }

  /** s with every regex white-space character taken out. */
  function WithoutSpace(s: string): string
    decreases |s|
  {
    if s == [] then [] else (if IsRegexSpace(s[0]) then [] else [s[0]]) + WithoutSpace(s[1..])
  }

  lemma {:induction false} WithoutSpaceAppend(a: string, b: string)
    ensures WithoutSpace(a + b) == WithoutSpace(a) + WithoutSpace(b)
    decreases |a|
  {
    if a != [] {
      assert (a + b)[0] == a[0];
      assert (a + b)[1..] == a[1..] + b;
      WithoutSpaceAppend(a[1..], b);
    } else {
      assert a + b == b;
    }
  }

  lemma {:induction false} WithoutSpaceOfRun(s: string, k: nat)
    requires k <= |s|
    requires forall i :: 0 <= i < k ==> IsRegexSpace(s[i])
    ensures WithoutSpace(s[..k]) == []
    decreases k
  {
    if k > 0 {
      assert s[..k][1..] == s[1..][..k - 1];
      WithoutSpaceOfRun(s[1..], k - 1);
    }
  }

  /** The clean-up only ever removes white space: every other character survives, in order. */
  lemma {:induction false} CollapseRemovesOnlySpace(s: string, afterPunct: bool)
    ensures WithoutSpace(CollapseAroundPunctuation(s, afterPunct)) == WithoutSpace(s)
    decreases |s|
  {
    if s != [] {
      var k := SpaceRun(s);
      if k == 0 {
        CollapseRemovesOnlySpace(s[1..], IsPunctuation(s[0]));
        WithoutSpaceAppend([s[0]], CollapseAroundPunctuation(s[1..], IsPunctuation(s[0])));
      } else {
        CollapseRemovesOnlySpace(s[k..], false);
        assert s == s[..k] + s[k..];
        WithoutSpaceAppend(s[..k], s[k..]);
        WithoutSpaceOfRun(s, k);
        if !(afterPunct || (k < |s| && IsPunctuation(s[k]))) {
          WithoutSpaceAppend(s[..k], CollapseAroundPunctuation(s[k..], false));
        }
      }
    }
  }

  /** The number of white-space characters at the start of s, pinned down by where they stop. */
  lemma {:induction false} SpaceRunAt(s: string, k: nat)
    requires k <= |s| && forall i :: 0 <= i < k ==> IsRegexSpace(s[i])
    requires k < |s| ==> !IsRegexSpace(s[k])
    ensures SpaceRun(s) == k
    decreases k
  {
    if k > 0 {
      SpaceRunAt(s[1..], k - 1);
    }
  }

  lemma SlicesOfAppend(u: string, v: string, k: nat)
    requires k <= |u|
    ensures k < |u| ==> (u + v)[k] == u[k]
    ensures (u + v)[k..] == u[k..] + v && (u + v)[..k] == u[..k]
  {
  }

  lemma AppendAssociates(a: string, b: string, c: string)
    ensures a + (b + c) == (a + b) + c
  {
  }

  /** One step of the clean-up at a character that is not white space: it is kept. */
  lemma CollapseAtVisible(s: string, afterPunct: bool)
    requires s != [] && !IsRegexSpace(s[0])
    ensures CollapseAroundPunctuation(s, afterPunct)
         == [s[0]] + CollapseAroundPunctuation(s[1..], IsPunctuation(s[0]))
  {
    assert SpaceRun(s) == 0;
  }

  /** One step of the clean-up at a run of k white-space characters. */
  lemma CollapseAtSpace(s: string, afterPunct: bool, k: nat)
    requires 0 < k == SpaceRun(s)
    ensures CollapseAroundPunctuation(s, afterPunct)
         == if afterPunct || (k < |s| && IsPunctuation(s[k])) then CollapseAroundPunctuation(s[k..], false)
            else s[..k] + CollapseAroundPunctuation(s[k..], false)
  {
  }

  /** The clean-up works from left to right: text cut right after a character that is not white
      space is cleaned piece by piece, the second piece knowing whether the first ended in
      punctuation. */
  lemma {:induction false} CollapseSplit(u: string, v: string, afterPunct: bool)
    requires u != [] && !IsRegexSpace(u[|u| - 1])
    ensures CollapseAroundPunctuation(u + v, afterPunct)
         == CollapseAroundPunctuation(u, afterPunct) + CollapseAroundPunctuation(v, IsPunctuation(u[|u| - 1]))
    decreases |u|, 1
  {
    var k := SpaceRun(u);
    if k == 0 {
      CollapseSplitAtVisible(u, v, afterPunct);
    } else {
      CollapseSplitAtSpace(u, v, afterPunct, k);
    }
  }

  lemma {:induction false} CollapseSplitAtVisible(u: string, v: string, afterPunct: bool)
    requires u != [] && !IsRegexSpace(u[|u| - 1]) && !IsRegexSpace(u[0])
    ensures CollapseAroundPunctuation(u + v, afterPunct)
         == CollapseAroundPunctuation(u, afterPunct) + CollapseAroundPunctuation(v, IsPunctuation(u[|u| - 1]))
    decreases |u|, 0
  {
    var s := u + v;
    var p := IsPunctuation(u[0]);
    SlicesOfAppend(u, v, 0);
    SlicesOfAppend(u, v, 1);
    CollapseAtVisible(s, afterPunct);
    CollapseAtVisible(u, afterPunct);
    var cv := CollapseAroundPunctuation(v, IsPunctuation(u[|u| - 1]));
    if |u| == 1 {
      assert u == [u[0]];
      CollapseSplitAtLast(u[0], v, afterPunct);
    } else {
      CollapseSplit(u[1..], v, p);
      var cu := CollapseAroundPunctuation(u[1..], p);
      assert CollapseAroundPunctuation(s, afterPunct) == [u[0]] + (cu + cv);
      AppendAssociates([u[0]], cu, cv);
    }
  }

  lemma CollapseSplitAtLast(c: char, v: string, afterPunct: bool)
    requires !IsRegexSpace(c)
    ensures CollapseAroundPunctuation([c] + v, afterPunct)
         == CollapseAroundPunctuation([c], afterPunct) + CollapseAroundPunctuation(v, IsPunctuation(c))
  {
    SlicesOfAppend([c], v, 1);
    CollapseAtVisible([c] + v, afterPunct);
    CollapseAtVisible([c], afterPunct);
    assert [c][1..] == [];
  }

  lemma {:induction false} CollapseSplitAtSpace(u: string, v: string, afterPunct: bool, k: nat)
    requires u != [] && !IsRegexSpace(u[|u| - 1]) && 0 < k == SpaceRun(u)
    ensures CollapseAroundPunctuation(u + v, afterPunct)
         == CollapseAroundPunctuation(u, afterPunct) + CollapseAroundPunctuation(v, IsPunctuation(u[|u| - 1]))
    decreases |u|, 0
  {
    var s := u + v;
    assert k < |u|;
    SpaceRunAt(s, k);
    CollapseAtSpace(s, afterPunct, k);
    CollapseAtSpace(u, afterPunct, k);
    SlicesOfAppend(u, v, k);
    CollapseSplit(u[k..], v, false);
    var cu := CollapseAroundPunctuation(u[k..], false);
    var cv := CollapseAroundPunctuation(v, IsPunctuation(u[|u| - 1]));
    AppendAssociates(u[..k], cu, cv);
  }

  /** A run of white space between two characters that are neither white space nor punctuation is
      kept as it is, so `my field` stays two words. */
  lemma SpaceBetweenWordsKept(a: string, x: char, w: string, y: char, b: string, afterPunct: bool)
    requires !IsRegexSpace(x) && !IsPunctuation(x) && !IsRegexSpace(y) && !IsPunctuation(y)
    requires forall i :: 0 <= i < |w| ==> IsRegexSpace(w[i])
    ensures CollapseAroundPunctuation(a + [x] + w + [y] + b, afterPunct)
         == CollapseAroundPunctuation(a + [x], afterPunct) + w + CollapseAroundPunctuation([y] + b, false)
  {
    var u := a + [x];
    var v := w + ([y] + b);
    assert a + [x] + w + [y] + b == u + v;
    CollapseSplit(u, v, afterPunct);
    LeadingSpaceKept(w, y, b);
    AppendAssociates(CollapseAroundPunctuation(u, afterPunct), w, CollapseAroundPunctuation([y] + b, false));
  }

  /** After a character that is not punctuation, white space in front of one that is neither white
      space nor punctuation is kept. */
  lemma LeadingSpaceKept(w: string, y: char, b: string)
    requires !IsRegexSpace(y) && !IsPunctuation(y)
    requires forall i :: 0 <= i < |w| ==> IsRegexSpace(w[i])
    ensures CollapseAroundPunctuation(w + ([y] + b), false) == w + CollapseAroundPunctuation([y] + b, false)
  {
    var v := w + ([y] + b);
    if w == [] {
      assert v == [y] + b;
    } else {
      SpaceRunAt(v, |w|);
      CollapseAtSpace(v, false, |w|);
      assert v[..|w|] == w;
      assert v[|w|..] == [y] + b;
    }
  }

  /** Text without white space is left alone by the clean-up. */
  lemma {:induction false} CollapseKeepsSpaceFree(s: string, afterPunct: bool)
    requires forall i :: 0 <= i < |s| ==> !IsRegexSpace(s[i])
    ensures CollapseAroundPunctuation(s, afterPunct) == s
    decreases |s|
  {
    if s != [] {
      assert SpaceRun(s) == 0;
      CollapseKeepsSpaceFree(s[1..], IsPunctuation(s[0]));
      assert s == [s[0]] + s[1..];
    }
  }
}
