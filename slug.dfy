/**
 * The club slug normaliser of the club-creation form:
 *
 *   generateSlug(name) = name lower-cased, trimmed, stripped of every character
 *   that is not a word character, whitespace or '-', with each whitespace run
 *   turned into one '-' and each run of '-' collapsed into one '-'.
 *
 * Strings are sequences of characters over an ASCII alphabet: lower-casing maps
 * 'A'..'Z' only, and whitespace is space, tab, line feed, vertical tab, form
 * feed and carriage return (what `\s` and `trim` match among ASCII characters).
 */
module Slug {

  // ---------------------------------------------------------------------------
  // Character classes
  // ---------------------------------------------------------------------------

  /** ASCII whitespace: what `\s` matches and `trim` removes. */
  predicate IsSpace(c: char) {
    c == ' ' || c == '\t' || c == '\n' || c == '\U{000B}' || c == '\U{000C}' || c == '\r'
  }

  predicate IsUpper(c: char) { 'A' <= c <= 'Z' }

  predicate IsLower(c: char) { 'a' <= c <= 'z' }

  predicate IsDigit(c: char) { '0' <= c <= '9' }

  /** `\w`: ASCII letters, digits and underscore. */
  predicate IsWordChar(c: char) { IsUpper(c) || IsLower(c) || IsDigit(c) || c == '_' }

  predicate IsHyphen(c: char) { c == '-' }

  /** The characters the class `[\w\s-]` keeps. */
  predicate IsKept(c: char) { IsWordChar(c) || IsSpace(c) || IsHyphen(c) }

  /** The characters a generated slug is made of. */
  predicate IsSlugChar(c: char) { IsLower(c) || IsDigit(c) || c == '_' || c == '-' }

  predicate IsNotUpper(c: char) { !IsUpper(c) }

  predicate IsNotSpace(c: char) { !IsSpace(c) }

  predicate IsSlugCharOrSpace(c: char) { IsSlugChar(c) || IsSpace(c) }

  /** Every character of `s` is in the class `q`. */
  predicate All(s: string, q: char -> bool) {
    forall i | 0 <= i < |s| :: q(s[i])
  }

  /** A generated slug: only slug characters, and never two hyphens in a row. */
  predicate IsSlug(s: string) {
    && (forall i | 0 <= i < |s| :: IsSlugChar(s[i]))
    && (forall i | 0 <= i < |s| - 1 :: !(s[i] == '-' && s[i + 1] == '-'))
  }

  /** The word characters of `s`, in order: what the normaliser never drops. */
  function Words(s: string): string {
    if s == [] then [] else (if IsWordChar(s[0]) then [s[0]] else []) + Words(s[1..])
  }

  // ---------------------------------------------------------------------------
  // The passes
  // ---------------------------------------------------------------------------

  /** `toLowerCase` on one ASCII character. */
  function ToLowerChar(c: char): (r: char)
    ensures !IsUpper(r)
    ensures IsUpper(c) ==> IsLower(r) && r as int == c as int + 32
    ensures !IsUpper(c) ==> r == c
  {
    if IsUpper(c) then (c as int + 32) as char else c
  }

  /** `toLowerCase`: position by position, only 'A'..'Z' change. */
  function Lower(s: string): (r: string)
    ensures |r| == |s|
    ensures forall i | 0 <= i < |s| :: r[i] == ToLowerChar(s[i])
    ensures All(r, IsNotUpper)
  {
    if s == [] then [] else [ToLowerChar(s[0])] + Lower(s[1..])
  }

  /** How many whitespace characters `s` starts with. */
  function LeadingSpaces(s: string): (n: nat)
    ensures n <= |s|
    ensures forall i | 0 <= i < n :: IsSpace(s[i])
    ensures n < |s| ==> !IsSpace(s[n])
  {
    if s != [] && IsSpace(s[0]) then 1 + LeadingSpaces(s[1..]) else 0
  }

  /** Leading whitespace removed. */
  function TrimStart(s: string): (r: string)
    ensures r == s[LeadingSpaces(s)..]
    ensures r != [] ==> !IsSpace(r[0])
  {
    if s != [] && IsSpace(s[0]) then TrimStart(s[1..]) else s
  }

  /** Trailing whitespace removed. */
  function TrimEnd(s: string): (r: string)
    ensures |r| <= |s| && r == s[..|r|]
    ensures forall i | |r| <= i < |s| :: IsSpace(s[i])
    ensures r != [] ==> !IsSpace(r[|r| - 1])
  {
    if s != [] && IsSpace(s[|s| - 1]) then TrimEnd(s[..|s| - 1]) else s
  }

  /**
   * `trim`: the result is the input from its first non-whitespace character
   * on, cut before the whitespace it ends with; neither end is whitespace.
   */
  function Trim(s: string): (r: string)
    ensures LeadingSpaces(s) + |r| <= |s|
    ensures r == s[LeadingSpaces(s)..LeadingSpaces(s) + |r|]
    ensures forall i | LeadingSpaces(s) + |r| <= i < |s| :: IsSpace(s[i])
    ensures r != [] ==> !IsSpace(r[0]) && !IsSpace(r[|r| - 1])
  {
    var t := TrimStart(s);
    var r := TrimEnd(t);
    assert r != [] ==> r[0] == t[0];
    SliceOfSuffix(s, LeadingSpaces(s), |r|);
    SpacesAfterSuffix(s, LeadingSpaces(s), |r|);
    r
  }

  /** A prefix of a suffix is a slice. */
  lemma SliceOfSuffix(s: string, a: nat, n: nat)
    requires a + n <= |s|
    ensures s[a..][..n] == s[a..a + n]
  {
  }

  /** Whitespace at the end of a suffix is whitespace at the end of the whole. */
  lemma SpacesAfterSuffix(s: string, a: nat, n: nat)
    requires a + n <= |s|
    requires forall i | n <= i < |s| - a :: IsSpace(s[a..][i])
    ensures forall i | a + n <= i < |s| :: IsSpace(s[i])
  {
    forall i | a + n <= i < |s| ensures IsSpace(s[i]) {
      assert s[i] == s[a..][i - a];
    }
  }

  /** `trim` leaves nothing exactly when the input is all whitespace. */
  lemma TrimBlank(s: string)
    ensures (forall i | 0 <= i < |s| :: IsSpace(s[i])) <==> Trim(s) == []
  {
    var t := TrimStart(s);
    assert Trim(s) == TrimEnd(t);
  }

  /** `replace(/[^\w\s-]/g, '')`: every character outside `[\w\s-]` deleted. */
  function StripSpecial(s: string): (r: string)
    ensures |r| <= |s|
    ensures All(r, IsKept)
  {
    if s == [] then []
    else (if IsKept(s[0]) then [s[0]] else []) + StripSpecial(s[1..])
  }

  /** The leading run of `inRun` characters removed. */
  function SkipRun(s: string, inRun: char -> bool): (r: string)
    ensures |r| <= |s| && r == s[|s| - |r|..]
    ensures forall i | 0 <= i < |s| - |r| :: inRun(s[i])
    ensures r != [] ==> !inRun(r[0])
  {
    if s != [] && inRun(s[0]) then
      var r := SkipRun(s[1..], inRun);
      assert s[1..][|s| - 1 - |r|..] == s[|s| - |r|..];
      r
    else s
  }

  /**
   * A global regular-expression replace of `X+` by `sub`, where `inRun` is the
   * class `X`: each maximal run of `inRun` characters becomes one `sub`.
   */
  function ReplaceRuns(s: string, inRun: char -> bool, sub: char): (r: string)
    ensures |r| <= |s|
    decreases |s|
  {
    if s == [] then []
    else if inRun(s[0]) then [sub] + ReplaceRuns(SkipRun(s[1..], inRun), inRun, sub)
    else [s[0]] + ReplaceRuns(s[1..], inRun, sub)
  }

  /** What is left of the class after a replace is `sub` alone. */
  lemma {:induction false} ReplaceRunsClass(s: string, inRun: char -> bool, sub: char)
    ensures forall i | 0 <= i < |ReplaceRuns(s, inRun, sub)| ::
      ReplaceRuns(s, inRun, sub)[i] == sub || !inRun(ReplaceRuns(s, inRun, sub)[i])
    decreases |s|
  {
    if s != [] {
      var rest := if inRun(s[0]) then SkipRun(s[1..], inRun) else s[1..];
      ReplaceRunsClass(rest, inRun, sub);
    }
  }

  /** The first character of a replace: `sub` for a leading run, else the input's first. */
  lemma ReplaceRunsHead(s: string, inRun: char -> bool, sub: char)
    requires s != []
    ensures ReplaceRuns(s, inRun, sub) != []
    ensures ReplaceRuns(s, inRun, sub)[0] == if inRun(s[0]) then sub else s[0]
  {
  }

  /** A replace never leaves two class characters in a row. */
  lemma {:induction false} ReplaceRunsNoAdjacent(s: string, inRun: char -> bool, sub: char)
    ensures forall i | 0 <= i < |ReplaceRuns(s, inRun, sub)| - 1 ::
      !(inRun(ReplaceRuns(s, inRun, sub)[i]) && inRun(ReplaceRuns(s, inRun, sub)[i + 1]))
    decreases |s|
  {
    if s != [] {
      var rest := if inRun(s[0]) then SkipRun(s[1..], inRun) else s[1..];
      var tail := ReplaceRuns(rest, inRun, sub);
      var r := ReplaceRuns(s, inRun, sub);
      assert r == [r[0]] + tail;
      ReplaceRunsNoAdjacent(rest, inRun, sub);
      if tail != [] {
        ReplaceRunsHead(rest, inRun, sub);
        assert !(inRun(r[0]) && inRun(r[1]));
      }
      forall i | 1 <= i < |r| - 1
        ensures !(inRun(r[i]) && inRun(r[i + 1]))
      {
        assert r[i] == tail[i - 1] && r[i + 1] == tail[i];
      }
    }
  }

  /** `replace(/\s+/g, '-')`. */
  function HyphenateSpaces(s: string): (r: string)
    ensures |r| <= |s|
    ensures All(r, IsNotSpace)
  {
    var r := ReplaceRuns(s, IsSpace, '-');
    ReplaceRunsClass(s, IsSpace, '-');
    assert forall i | 0 <= i < |r| :: IsNotSpace(r[i]) by {
      forall i | 0 <= i < |r| ensures IsNotSpace(r[i]) {
        assert r[i] == '-' || !IsSpace(r[i]);
      }
    }
    r
  }

  /** `replace(/-+/g, '-')`. */
  function CollapseHyphens(s: string): (r: string)
    ensures forall i | 0 <= i < |r| - 1 :: !(r[i] == '-' && r[i + 1] == '-')
  {
    var r := ReplaceRuns(s, IsHyphen, '-');
    ReplaceRunsNoAdjacent(s, IsHyphen, '-');
    assert forall i | 0 <= i < |r| - 1 :: !(r[i] == '-' && r[i + 1] == '-') by {
      forall i | 0 <= i < |r| - 1 ensures !(r[i] == '-' && r[i + 1] == '-') {
        assert !(IsHyphen(r[i]) && IsHyphen(r[i + 1]));
      }
    }
    r
  }

  /**
   * `generateSlug` (components/CreateClubForm.tsx): the result is a slug, and an
   * empty or all-whitespace name gives the empty slug.
   */
  function GenerateSlug(name: string): (slug: string)
    ensures IsSlug(slug)
    ensures (forall i | 0 <= i < |name| :: IsSpace(name[i])) ==> slug == ""
  {
    GenerateSlugChars(Lower(name));
    BlankNameGivesEmpty(name);
    CollapseHyphens(HyphenateSpaces(StripSpecial(Trim(Lower(name)))))
  }

  /** The all-whitespace half of `GenerateSlug`'s contract. */
  lemma BlankNameGivesEmpty(name: string)
    ensures (forall i | 0 <= i < |name| :: IsSpace(name[i]))
      ==> CollapseHyphens(HyphenateSpaces(StripSpecial(Trim(Lower(name))))) == ""
  {
    if forall i | 0 <= i < |name| :: IsSpace(name[i]) {
      assert Lower(name) == name;
      TrimBlank(name);
    }
  }

  // ---------------------------------------------------------------------------
  // What each pass does to each part of its input
  // ---------------------------------------------------------------------------

  /** Deleting characters is local: each part of the input is filtered on its own. */
  lemma {:induction false} StripSpecialAppend(a: string, b: string)
    ensures StripSpecial(a + b) == StripSpecial(a) + StripSpecial(b)
  {
    if a != [] {
      assert (a + b)[0] == a[0];
      assert (a + b)[1..] == a[1..] + b;
      StripSpecialAppend(a[1..], b);
    } else {
      assert a + b == b;
    }
  }

  /** A character of `[\w\s-]` is kept, any other one deleted. */
  lemma StripSpecialOne(c: char)
    ensures StripSpecial([c]) == if IsKept(c) then [c] else []
  {
  }

  /** Skipping a run stops at the first character outside the class, wherever it lies. */
  lemma {:induction false} SkipRunAppend(x: string, b: string, inRun: char -> bool)
    ensures SkipRun(x + b, inRun) == if SkipRun(x, inRun) == [] then SkipRun(b, inRun) else SkipRun(x, inRun) + b
  {
    if x == [] {
      assert x + b == b;
    } else if inRun(x[0]) {
      assert (x + b)[0] == x[0];
      assert (x + b)[1..] == x[1..] + b;
      SkipRunAppend(x[1..], b, inRun);
    } else {
      assert (x + b)[0] == x[0];
    }
  }

  /** A non-empty run of class characters becomes one `sub`. */
  lemma ReplaceRunsOfRun(w: string, inRun: char -> bool, sub: char)
    requires w != [] && All(w, inRun)
    ensures ReplaceRuns(w, inRun, sub) == [sub]
  {
  }

  /** A character outside the class is copied. */
  lemma ReplaceRunsOfPlain(c: char, inRun: char -> bool, sub: char)
    requires !inRun(c)
    ensures ReplaceRuns([c], inRun, sub) == [c]
  {
  }

  lemma Associative(a: string, w: string, b: string)
    ensures a + w + b == a + (w + b)
  {
  }

  /** One step of a replace: the first character, or the run it starts. */
  lemma ReplaceRunsCons(c: char, t: string, inRun: char -> bool, sub: char)
    ensures ReplaceRuns([c] + t, inRun, sub) ==
      if inRun(c) then [sub] + ReplaceRuns(SkipRun(t, inRun), inRun, sub)
      else [c] + ReplaceRuns(t, inRun, sub)
  {
    assert ([c] + t)[0] == c && ([c] + t)[1..] == t;
  }

  /** Every character after a run's first that `SkipRun` removes is in the class. */
  lemma SkipRunAllGone(t: string, inRun: char -> bool)
    requires SkipRun(t, inRun) == []
    ensures All(t, inRun)
  {
  }

  /**
   * A replace works part by part when the cut does not fall inside a run:
   * the left part ends, or the right part starts, outside the class.
   */
  lemma {:induction false} ReplaceRunsAppend(a: string, b: string, inRun: char -> bool, sub: char)
    requires a == [] || b == [] || !inRun(a[|a| - 1]) || !inRun(b[0])
    ensures ReplaceRuns(a + b, inRun, sub) == ReplaceRuns(a, inRun, sub) + ReplaceRuns(b, inRun, sub)
    decreases |a|, 1
  {
    if a == [] {
      assert a + b == b;
    } else {
      var c, t := a[0], a[1..];
      assert a == [c] + t;
      assert t != [] ==> t[|t| - 1] == a[|a| - 1];
      if inRun(c) {
        ReplaceRunsAppendRun(c, t, b, inRun, sub);
      } else {
        ReplaceRunsAppendPlain(c, t, b, inRun, sub);
      }
    }
  }

  /** `ReplaceRunsAppend` when the left part `[c] + t` is one run. */
  lemma {:induction false} ReplaceRunsAppendWholeRun(c: char, t: string, b: string, inRun: char -> bool, sub: char)
    requires inRun(c) && SkipRun(t, inRun) == []
    requires b == [] || !inRun(b[0])
    ensures ReplaceRuns([c] + t + b, inRun, sub)
      == ReplaceRuns([c] + t, inRun, sub) + ReplaceRuns(b, inRun, sub)
  {
    Associative([c], t, b);
    ReplaceRunsCons(c, t + b, inRun, sub);
    ReplaceRunsCons(c, t, inRun, sub);
    SkipRunAppend(t, b, inRun);
    assert SkipRun(b, inRun) == b;
    assert ReplaceRuns([c] + t, inRun, sub) == [sub];
  }

  /** `ReplaceRunsAppend` when the left part `[c] + t` starts with a run. */
  lemma {:induction false} ReplaceRunsAppendRun(c: char, t: string, b: string, inRun: char -> bool, sub: char)
    requires inRun(c)
    requires b == [] || (t != [] && !inRun(t[|t| - 1])) || !inRun(b[0])
    ensures ReplaceRuns([c] + t + b, inRun, sub)
      == ReplaceRuns([c] + t, inRun, sub) + ReplaceRuns(b, inRun, sub)
    decreases |t| + 1, 0
  {
    var rest := SkipRun(t, inRun);
    if rest == [] {
      assert b == [] || !inRun(b[0]) by {
        SkipRunAllGone(t, inRun);
        assert t == [] || inRun(t[|t| - 1]);
      }
      ReplaceRunsAppendWholeRun(c, t, b, inRun, sub);
    } else {
      assert ReplaceRuns([c] + t, inRun, sub) == [sub] + ReplaceRuns(rest, inRun, sub) by {
        ReplaceRunsCons(c, t, inRun, sub);
      }
      assert ReplaceRuns([c] + t + b, inRun, sub) == [sub] + ReplaceRuns(rest + b, inRun, sub) by {
        Associative([c], t, b);
        ReplaceRunsCons(c, t + b, inRun, sub);
        SkipRunAppend(t, b, inRun);
      }
      assert rest[|rest| - 1] == t[|t| - 1];
      ReplaceRunsAppend(rest, b, inRun, sub);
      Associative([sub], ReplaceRuns(rest, inRun, sub), ReplaceRuns(b, inRun, sub));
    }
  }

  /** `ReplaceRunsAppend` when the left part `[c] + t` starts outside the class. */
  lemma {:induction false} ReplaceRunsAppendPlain(c: char, t: string, b: string, inRun: char -> bool, sub: char)
    requires !inRun(c)
    requires b == [] || t == [] || !inRun(t[|t| - 1]) || !inRun(b[0])
    ensures ReplaceRuns([c] + t + b, inRun, sub)
      == ReplaceRuns([c] + t, inRun, sub) + ReplaceRuns(b, inRun, sub)
    decreases |t| + 1, 0
  {
    Associative([c], t, b);
    ReplaceRunsCons(c, t + b, inRun, sub);
    ReplaceRunsCons(c, t, inRun, sub);
    ReplaceRunsAppend(t, b, inRun, sub);
    Associative([c], ReplaceRuns(t, inRun, sub), ReplaceRuns(b, inRun, sub));
  }

  /** A run between two parts that do not touch it becomes exactly one `sub`. */
  lemma ReplaceRunsJoin(a: string, w: string, b: string, inRun: char -> bool, sub: char)
    requires a == [] || !inRun(a[|a| - 1])
    requires w != [] && All(w, inRun)
    requires b == [] || !inRun(b[0])
    ensures ReplaceRuns(a + w + b, inRun, sub)
      == ReplaceRuns(a, inRun, sub) + [sub] + ReplaceRuns(b, inRun, sub)
  {
    ReplaceRunsAppend(w, b, inRun, sub);
    ReplaceRunsOfRun(w, inRun, sub);
    Associative(a, w, b);
    assert (w + b)[0] == w[0];
    ReplaceRunsAppend(a, w + b, inRun, sub);
    Associative(ReplaceRuns(a, inRun, sub), [sub], ReplaceRuns(b, inRun, sub));
  }

  /** `replace(/\s+/g, '-')` turns a whitespace run between other characters into one '-'. */
  lemma HyphenateSpacesJoin(a: string, w: string, b: string)
    requires a == [] || !IsSpace(a[|a| - 1])
    requires w != [] && All(w, IsSpace)
    requires b == [] || !IsSpace(b[0])
    ensures HyphenateSpaces(a + w + b) == HyphenateSpaces(a) + "-" + HyphenateSpaces(b)
  {
    ReplaceRunsJoin(a, w, b, IsSpace, '-');
  }

  /** Text without whitespace passes `replace(/\s+/g, '-')` unchanged. */
  lemma HyphenateSpacesPlain(s: string)
    requires All(s, IsNotSpace)
    ensures HyphenateSpaces(s) == s
  {
    assert forall i | 0 <= i < |s| :: !IsSpace(s[i]);
    ReplaceRunsFixedPoint(s, IsSpace, '-');
  }

  /** `replace(/-+/g, '-')` turns a run of '-' between other characters into one '-'. */
  lemma CollapseHyphensJoin(a: string, w: string, b: string)
    requires a == [] || a[|a| - 1] != '-'
    requires w != [] && All(w, IsHyphen)
    requires b == [] || b[0] != '-'
    ensures CollapseHyphens(a + w + b) == CollapseHyphens(a) + "-" + CollapseHyphens(b)
  {
    ReplaceRunsJoin(a, w, b, IsHyphen, '-');
  }

  /** Text without '-' passes `replace(/-+/g, '-')` unchanged. */
  lemma CollapseHyphensPlain(s: string)
    requires forall i | 0 <= i < |s| :: s[i] != '-'
    ensures CollapseHyphens(s) == s
  {
    ReplaceRunsFixedPoint(s, IsHyphen, '-');
  }

  // ---------------------------------------------------------------------------
  // Character classes the passes keep
  // ---------------------------------------------------------------------------

  lemma AllSuffix(s: string, k: nat, q: char -> bool)
    requires All(s, q) && k <= |s|
    ensures All(s[k..], q)
  {
    assert forall i | 0 <= i < |s| - k :: s[k..][i] == s[k + i];
  }

  lemma AllPrefix(s: string, k: nat, q: char -> bool)
    requires All(s, q) && k <= |s|
    ensures All(s[..k], q)
  {
    assert forall i | 0 <= i < k :: s[..k][i] == s[i];
  }

  lemma TrimKeeps(s: string, q: char -> bool)
    requires All(s, q)
    ensures All(Trim(s), q)
  {
    var t := TrimStart(s);
    AllSuffix(s, |s| - |t|, q);
    AllPrefix(t, |TrimEnd(t)|, q);
  }

  lemma {:induction false} StripSpecialKeeps(s: string, q: char -> bool)
    requires All(s, q)
    ensures All(StripSpecial(s), q)
  {
    if s != [] {
      StripSpecialKeeps(s[1..], q);
    }
  }

  lemma AllCons(c: char, t: string, q: char -> bool)
    requires q(c) && All(t, q)
    ensures All([c] + t, q)
  {
    assert forall i | 1 <= i < |t| + 1 :: ([c] + t)[i] == t[i - 1];
  }

  lemma {:induction false} ReplaceRunsKeeps(s: string, inRun: char -> bool, sub: char, q: char -> bool)
    requires All(s, q) && q(sub)
    ensures All(ReplaceRuns(s, inRun, sub), q)
    decreases |s|
  {
    if s != [] && inRun(s[0]) {
      var rest := SkipRun(s[1..], inRun);
      AllSuffix(s, |s| - |rest|, q);
      ReplaceRunsKeeps(rest, inRun, sub, q);
      AllCons(sub, ReplaceRuns(rest, inRun, sub), q);
    } else if s != [] {
      AllSuffix(s, 1, q);
      ReplaceRunsKeeps(s[1..], inRun, sub, q);
      AllCons(s[0], ReplaceRuns(s[1..], inRun, sub), q);
    }
  }

  /** The character-class half of `GenerateSlug`'s contract. */
  lemma GenerateSlugChars(lowered: string)
    requires All(lowered, IsNotUpper)
    ensures All(CollapseHyphens(HyphenateSpaces(StripSpecial(Trim(lowered)))), IsSlugChar)
  {
    var trimmed := Trim(lowered);
    TrimKeeps(lowered, IsNotUpper);
    var stripped := StripSpecial(trimmed);
    StripSpecialKeeps(trimmed, IsNotUpper);
    assert All(stripped, IsSlugCharOrSpace);
    var hyphenated := HyphenateSpaces(stripped);
    ReplaceRunsKeeps(stripped, IsSpace, '-', IsSlugCharOrSpace);
    assert All(hyphenated, IsSlugChar);
    ReplaceRunsKeeps(hyphenated, IsHyphen, '-', IsSlugChar);
  }

  // ---------------------------------------------------------------------------
  // Each pass leaves a slug alone
  // ---------------------------------------------------------------------------

  lemma LowerOfLowerCase(s: string)
    requires forall i | 0 <= i < |s| :: !IsUpper(s[i])
    ensures Lower(s) == s
  {
  }

  lemma {:induction false} StripSpecialKeepsKept(s: string)
    requires forall i | 0 <= i < |s| :: IsKept(s[i])
    ensures StripSpecial(s) == s
  {
    if s != [] {
      StripSpecialKeepsKept(s[1..]);
    }
  }

  /** A string whose only run characters are isolated copies of `sub` is a fixed point. */
  lemma {:induction false} ReplaceRunsFixedPoint(s: string, inRun: char -> bool, sub: char)
    requires forall i | 0 <= i < |s| :: inRun(s[i]) ==> s[i] == sub
    requires forall i | 0 <= i < |s| - 1 :: !(inRun(s[i]) && inRun(s[i + 1]))
    ensures ReplaceRuns(s, inRun, sub) == s
    decreases |s|
  {
    if s != [] {
      var c, t := s[0], s[1..];
      assert forall i | 0 <= i < |t| :: inRun(t[i]) ==> t[i] == sub by {
        forall i | 0 <= i < |t| ensures inRun(t[i]) ==> t[i] == sub {
          assert t[i] == s[i + 1];
        }
      }
      assert forall i | 0 <= i < |t| - 1 :: !(inRun(t[i]) && inRun(t[i + 1])) by {
        forall i | 0 <= i < |t| - 1 ensures !(inRun(t[i]) && inRun(t[i + 1])) {
          assert t[i] == s[i + 1] && t[i + 1] == s[i + 2];
        }
      }
      ReplaceRunsFixedPoint(t, inRun, sub);
      assert s == [c] + t;
      ReplaceRunsCons(c, t, inRun, sub);
      if inRun(c) {
        assert t != [] ==> !inRun(t[0]) by {
          assert t != [] ==> t[0] == s[1];
        }
        assert SkipRun(t, inRun) == t;
      }
    }
  }

  /** A well-formed slug comes out of `generateSlug` unchanged. */
  lemma SlugIsFixed(t: string)
    requires IsSlug(t)
    ensures GenerateSlug(t) == t
  {
    LowerOfLowerCase(t);
    assert forall i | 0 <= i < |t| :: !IsSpace(t[i]);
    assert TrimStart(t) == t;
    assert TrimEnd(t) == t;
    StripSpecialKeepsKept(t);
    ReplaceRunsFixedPoint(t, IsSpace, '-');
    ReplaceRunsFixedPoint(t, IsHyphen, '-');
  }

  /** Lower-casing works character by character, so it splits over concatenation. */
  lemma LowerAppend(a: string, b: string)
    ensures Lower(a + b) == Lower(a) + Lower(b)
  {
    assert forall i | 0 <= i < |a + b| :: (a + b)[i] == if i < |a| then a[i] else b[i - |a|];
  }

  /** `replace(/-+/g, '-')` leaves a slug unchanged. */
  lemma CollapseHyphensOfSlug(s: string)
    requires IsSlug(s)
    ensures CollapseHyphens(s) == s
  {
    ReplaceRunsFixedPoint(s, IsHyphen, '-');
  }

  /** Text that neither starts nor ends with whitespace is its own `trim`. */
  lemma TrimOfTrimmed(s: string)
    requires s != [] && !IsSpace(s[0]) && !IsSpace(s[|s| - 1])
    ensures Trim(s) == s
  {
    assert TrimStart(s) == s;
    assert TrimEnd(s) == s;
  }

  /** Lower-casing leaves two slugs and the whitespace between them alone. */
  lemma {:induction false} LowerOfJoin(a: string, w: string, b: string)
    requires IsSlug(a) && All(w, IsSpace) && IsSlug(b)
    ensures Lower(a + w + b) == a + w + b
  {
    LowerOfLowerCase(a);
    LowerOfLowerCase(w);
    LowerOfLowerCase(b);
    LowerAppend(a, w);
    LowerAppend(a + w, b);
  }

  /** `[\w\s-]` keeps two slugs and the whitespace between them. */
  lemma {:induction false} StripSpecialOfJoin(a: string, w: string, b: string)
    requires IsSlug(a) && All(w, IsSpace) && IsSlug(b)
    ensures StripSpecial(a + w + b) == a + w + b
  {
    StripSpecialKeepsKept(a);
    StripSpecialKeepsKept(w);
    StripSpecialKeepsKept(b);
    StripSpecialAppend(a, w);
    StripSpecialAppend(a + w, b);
  }

  /** The whitespace between two slugs becomes one '-', and the slugs stay. */
  lemma {:induction false} HyphenateSpacesOfJoin(a: string, w: string, b: string)
    requires IsSlug(a) && w != [] && All(w, IsSpace) && IsSlug(b)
    ensures HyphenateSpaces(a + w + b) == a + "-" + b
  {
    assert All(a, IsNotSpace) by {
      forall i | 0 <= i < |a| ensures IsNotSpace(a[i]) {
        assert IsSlugChar(a[i]);
      }
    }
    assert All(b, IsNotSpace) by {
      forall i | 0 <= i < |b| ensures IsNotSpace(b[i]) {
        assert IsSlugChar(b[i]);
      }
    }
    HyphenateSpacesPlain(a);
    HyphenateSpacesPlain(b);
    HyphenateSpacesJoin(a, w, b);
  }

  /** Two slugs joined by one '-' at ends that are not '-' are left alone. */
  lemma {:induction false} CollapseHyphensOfJoin(a: string, b: string)
    requires IsSlug(a) && (a == [] || a[|a| - 1] != '-')
    requires IsSlug(b) && (b == [] || b[0] != '-')
    ensures CollapseHyphens(a + "-" + b) == a + "-" + b
  {
    CollapseHyphensOfSlug(a);
    CollapseHyphensOfSlug(b);
    assert All("-", IsHyphen);
    CollapseHyphensJoin(a, "-", b);
  }

  /**
   * Whitespace between two words becomes one '-': two non-empty slugs that
   * neither end nor start with '-', separated by a run of whitespace, come out
   * joined by a single hyphen.
   */
  lemma {:induction false} GenerateSlugJoin(a: string, w: string, b: string)
    requires IsSlug(a) && a != [] && a[|a| - 1] != '-'
    requires w != [] && All(w, IsSpace)
    requires IsSlug(b) && b != [] && b[0] != '-'
    ensures GenerateSlug(a + w + b) == a + "-" + b
  {
    var s := a + w + b;
    LowerOfJoin(a, w, b);
    assert s[0] == a[0] && s[|s| - 1] == b[|b| - 1];
    TrimOfTrimmed(s);
    StripSpecialOfJoin(a, w, b);
    HyphenateSpacesOfJoin(a, w, b);
    CollapseHyphensOfJoin(a, b);
  }

  /**
   * The fixed points of `generateSlug` are exactly the slugs: a well-formed
   * slug comes out unchanged, and anything that comes out unchanged is one.
   */
  lemma SlugFixedPoints(t: string)
    ensures GenerateSlug(t) == t <==> IsSlug(t)
  {
    if IsSlug(t) {
      SlugIsFixed(t);
    }
  }

  /** `generateSlug` is idempotent. */
  lemma GenerateSlugIdempotent(name: string)
    ensures GenerateSlug(GenerateSlug(name)) == GenerateSlug(name)
  {
    SlugIsFixed(GenerateSlug(name));
  }

  /**
   * The underscore is a word character, so it survives normalisation although
   * the form's help text announces only letters, digits and hyphens.
   */
  lemma UnderscoreSurvives()
    ensures GenerateSlug("club_lima") == "club_lima"
  {
    assert IsSlug("club_lima");
    SlugIsFixed("club_lima");
  }

  // ---------------------------------------------------------------------------
  // No letter, digit or underscore is ever lost
  // ---------------------------------------------------------------------------

  lemma {:induction false} WordsAppend(a: string, b: string)
    ensures Words(a + b) == Words(a) + Words(b)
  {
    if a != [] {
      assert (a + b)[0] == a[0];
      assert (a + b)[1..] == a[1..] + b;
      WordsAppend(a[1..], b);
    } else {
      assert a + b == b;
    }
  }

  lemma {:induction false} WordsOfNonWords(s: string)
    requires forall i | 0 <= i < |s| :: !IsWordChar(s[i])
    ensures Words(s) == []
  {
    if s != [] {
      WordsOfNonWords(s[1..]);
    }
  }

  lemma WordsDropSpaces(s: string, k: nat)
    requires k <= |s|
    requires forall i | 0 <= i < k :: IsSpace(s[i])
    ensures Words(s[k..]) == Words(s)
  {
    var dropped, kept := s[..k], s[k..];
    forall i | 0 <= i < |dropped| ensures !IsWordChar(dropped[i]) {
      assert dropped[i] == s[i];
    }
    WordsOfNonWords(dropped);
    assert dropped + kept == s;
    WordsAppend(dropped, kept);
  }

  lemma WordsDropTrailingSpaces(s: string, k: nat)
    requires k <= |s|
    requires forall i | k <= i < |s| :: IsSpace(s[i])
    ensures Words(s[..k]) == Words(s)
  {
    var kept, dropped := s[..k], s[k..];
    forall i | 0 <= i < |dropped| ensures !IsWordChar(dropped[i]) {
      assert dropped[i] == s[k + i];
    }
    WordsOfNonWords(dropped);
    assert kept + dropped == s;
    WordsAppend(kept, dropped);
  }

  lemma WordsTrim(s: string)
    ensures Words(Trim(s)) == Words(s)
  {
    var t := TrimStart(s);
    WordsDropSpaces(s, |s| - |t|);
    WordsDropTrailingSpaces(t, |TrimEnd(t)|);
  }

  lemma {:induction false} WordsStripSpecial(s: string)
    ensures Words(StripSpecial(s)) == Words(s)
  {
    if s != [] {
      var head := if IsKept(s[0]) then [s[0]] else [];
      WordsAppend(head, StripSpecial(s[1..]));
      WordsStripSpecial(s[1..]);
    }
  }

  lemma WordsSkipRun(s: string, inRun: char -> bool)
    requires forall c :: inRun(c) ==> !IsWordChar(c)
    ensures Words(SkipRun(s, inRun)) == Words(s)
  {
    var r := SkipRun(s, inRun);
    assert s == s[..|s| - |r|] + r;
    WordsAppend(s[..|s| - |r|], r);
    WordsOfNonWords(s[..|s| - |r|]);
  }

  lemma {:induction false} WordsReplaceRuns(s: string, inRun: char -> bool, sub: char)
    requires forall c :: inRun(c) ==> !IsWordChar(c)
    requires !IsWordChar(sub)
    ensures Words(ReplaceRuns(s, inRun, sub)) == Words(s)
    decreases |s|
  {
    if s != [] {
      if inRun(s[0]) {
        var rest := SkipRun(s[1..], inRun);
        WordsAppend([sub], ReplaceRuns(rest, inRun, sub));
        WordsReplaceRuns(rest, inRun, sub);
        WordsSkipRun(s[1..], inRun);
      } else {
        WordsAppend([s[0]], ReplaceRuns(s[1..], inRun, sub));
        WordsReplaceRuns(s[1..], inRun, sub);
      }
    }
  }

  /**
   * `generateSlug` drops no word character: the letters, digits and
   * underscores of the slug are those of the lower-cased name, in order.
   */
  lemma GenerateSlugKeepsWords(name: string)
    ensures Words(GenerateSlug(name)) == Words(Lower(name))
  {
    var lowered := Lower(name);
    WordsTrim(lowered);
    WordsStripSpecial(Trim(lowered));
    WordsReplaceRuns(StripSpecial(Trim(lowered)), IsSpace, '-');
    WordsReplaceRuns(HyphenateSpaces(StripSpecial(Trim(lowered))), IsHyphen, '-');
  }
}
