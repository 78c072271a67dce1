/**
 * The slug generator of the ingestion service: a title is lower-cased,
 * trimmed, stripped of everything but word characters, white space and
 * hyphens, its white-space runs and then its hyphen runs are each replaced
 * by a single hyphen, and the result is cut to 100 characters.
 */
module Slug {
  import opened Text

  const MaxSlugLength := 100

  /** Characters that survive `replace(/[^\w\s-]/g, '')`. */
  predicate Kept(c: char) {
    IsWordChar(c) || IsSpace(c) || IsHyphen(c)
  }

  predicate IsSlugOrSpace(c: char) {
    IsSlugChar(c) || IsSpace(c)
  }

  /** Characters a finished slug may hold: lower-case word characters and `-`. */
  predicate IsSlugChar(c: char) {
    ('a' <= c <= 'z') || ('0' <= c <= '9') || c == '_' || c == '-'
  }

  predicate NoDoubleHyphen(s: Text) {
    forall i :: 0 <= i < |s| - 1 ==> !(s[i] == '-' && s[i + 1] == '-')
  }

  /** The shape every generated slug has. */
  predicate IsSlug(s: Text) {
    |s| <= MaxSlugLength && Every(s, IsSlugChar) && NoDoubleHyphen(s)
  }

  /** `replace(/[^\w\s-]/g, '')`: keeps exactly the `Kept` characters, in order. */
  function Strip(s: Text): (r: Text)
    ensures |r| <= |s|
    decreases |s|
  {
    if s == [] then []
    else if Kept(s[0]) then [s[0]] + Strip(s[1..])
    else Strip(s[1..])
  }

  /**
   * `replace(/P+/g, '-')` for the character class `p`: every maximal run of
   * characters satisfying `p` becomes one `-`. `inRun` says that the
   * character just before `s` belonged to such a run.
   */
  function ReplaceRuns(s: Text, p: char -> bool, inRun: bool): (r: Text)
    ensures |r| <= |s|
    decreases |s|
  {
    if s == [] then []
    else if p(s[0]) then
      if inRun then ReplaceRuns(s[1..], p, true) else ['-'] + ReplaceRuns(s[1..], p, true)
    else [s[0]] + ReplaceRuns(s[1..], p, false)
  }

  /** `generateSlug` (ingestion.service.ts, lines 157-165). */
  function GenerateSlug(title: Text): (slug: Text)
    ensures IsSlug(slug)
  {
    SlugShape(title);
    Prefix(Squash(Hyphenate(Strip(Trim(LowerText(title))))), MaxSlugLength)
  }

  /** `replace(/\s+/g, '-')`: no white space is left. */
  function Hyphenate(s: Text): (h: Text)
    ensures forall i :: 0 <= i < |h| ==> !IsSpace(h[i])
  {
    ReplaceRunsRemoves(s, IsSpace, false);
    var h := ReplaceRuns(s, IsSpace, false);
    assert forall i :: 0 <= i < |h| ==> h[i] == '-' || !IsSpace(h[i]);
    h
  }

  /** `replace(/-+/g, '-')`: no two hyphens are left adjacent. */
  function Squash(s: Text): (r: Text)
    ensures NoDoubleHyphen(r)
  {
    SquashedHasNoDoubleHyphen(s, false);
    ReplaceRuns(s, IsHyphen, false)
  }

  /**
   * Each stage of the generator moves the title closer to slug shape: after
   * stripping only slug characters and white space are left, after hyphenation
   * only slug characters, after squashing no `--`, and the cut bounds the length.
   */
  lemma SlugShape(title: Text)
    ensures var stripped := Strip(Trim(LowerText(title)));
      && Every(stripped, IsSlugOrSpace)
      && Every(Hyphenate(stripped), IsSlugChar)
      && Every(Squash(Hyphenate(stripped)), IsSlugChar) && NoDoubleHyphen(Squash(Hyphenate(stripped)))
      && IsSlug(Prefix(Squash(Hyphenate(stripped)), MaxSlugLength))
  {
    var lowered := LowerText(title);
    var trimmed := Trim(lowered);
    var stripped := Strip(trimmed);
    var hyphenated := Hyphenate(stripped);
    var squashed := Squash(hyphenated);
    TrimKeeps(lowered, NotUpper);
    StrippedIsSlugOrSpace(trimmed);
    ReplaceRunsKeeps(stripped, IsSpace, false, IsSlugOrSpace);
    forall i | 0 <= i < |hyphenated| ensures IsSlugChar(hyphenated[i]) {
      assert IsSlugOrSpace(hyphenated[i]);
    }
    ReplaceRunsKeeps(hyphenated, IsHyphen, false, IsSlugChar);
    PrefixKeepsShape(squashed, MaxSlugLength);
  }

  /** Stripping a lower-cased text leaves lower-case word characters, white space and hyphens. */
  lemma {:induction false} StrippedIsSlugOrSpace(s: Text)
    requires Every(s, NotUpper)
    ensures Every(Strip(s), IsSlugOrSpace)
    decreases |s|
  {
    if s != [] {
      StrippedIsSlugOrSpace(s[1..]);
    }
  }

  /** Run replacement writes only `-` and characters of its input. */
  lemma {:induction false} ReplaceRunsKeeps(s: Text, p: char -> bool, inRun: bool, q: char -> bool)
    requires Every(s, q) && q('-')
    ensures Every(ReplaceRuns(s, p, inRun), q)
    decreases |s|
  {
    if s != [] {
      ReplaceRunsKeeps(s[1..], p, p(s[0]), q);
    }
  }

  /** No character of the replaced class survives run replacement, except that class's own `-`. */
  lemma {:induction false} ReplaceRunsRemoves(s: Text, p: char -> bool, inRun: bool)
    ensures Every(ReplaceRuns(s, p, inRun), c => c == '-' || !p(c))
    decreases |s|
  {
    if s != [] {
      ReplaceRunsRemoves(s[1..], p, p(s[0]));
    }
  }

  /** Cutting a text keeps its character class and its lack of adjacent hyphens. */
  lemma PrefixKeepsShape(s: Text, n: nat)
    requires Every(s, IsSlugChar) && NoDoubleHyphen(s)
    ensures var r := Prefix(s, n); Every(r, IsSlugChar) && NoDoubleHyphen(r)
  {
    var r := Prefix(s, n);
    assert forall i :: 0 <= i < |r| ==> r[i] == s[i];
  }

  /** After hyphen runs are squashed no two hyphens are adjacent; inside a run the output does not start with one. */
  lemma {:induction false} SquashedHasNoDoubleHyphen(s: Text, inRun: bool)
    ensures var r := ReplaceRuns(s, IsHyphen, inRun);
      NoDoubleHyphen(r) && (inRun ==> r == [] || r[0] != '-')
    decreases |s|
  {
    if s != [] {
      SquashedHasNoDoubleHyphen(s[1..], IsHyphen(s[0]));
    }
  }

  /** Stripping leaves only word characters, white space and hyphens. */
  lemma {:induction false} StripOnlyKept(s: Text)
    ensures Every(Strip(s), Kept)
    decreases |s|
  {
    if s != [] {
      StripOnlyKept(s[1..]);
    }
  }

  /** A text of kept characters only is left as it is. */
  lemma {:induction false} StripKeepsKept(s: Text)
    requires Every(s, Kept)
    ensures Strip(s) == s
    decreases |s|
  {
    if s != [] {
      StripKeepsKept(s[1..]);
    }
  }

  /** A text with no kept character is stripped to nothing: removed characters leave no trace. */
  lemma {:induction false} StripDropsOthers(s: Text)
    requires forall i :: 0 <= i < |s| ==> !Kept(s[i])
    ensures Strip(s) == []
    decreases |s|
  {
    if s != [] {
      StripDropsOthers(s[1..]);
    }
  }

  /** A non-empty run of the class becomes exactly one `-`, or nothing when it continues a run. */
  lemma RunBecomesOneHyphen(run: Text, p: char -> bool)
    requires run != [] && forall i :: 0 <= i < |run| ==> p(run[i])
    ensures ReplaceRuns(run, p, false) == ['-']
    ensures ReplaceRuns(run, p, true) == []
  {
    RunContinues(run, p);
    RunContinues(run[1..], p);
  }

  /** Inside a run, further characters of the class write nothing. */
  lemma {:induction false} RunContinues(run: Text, p: char -> bool)
    requires forall i :: 0 <= i < |run| ==> p(run[i])
    ensures ReplaceRuns(run, p, true) == []
    decreases |run|
  {
    if run != [] {
      RunContinues(run[1..], p);
    }
  }

  /** A text with no character of the class has no run to replace. */
  lemma {:induction false} ReplaceRunsWithoutRun(s: Text, p: char -> bool, inRun: bool)
    requires forall i :: 0 <= i < |s| ==> !p(s[i])
    ensures ReplaceRuns(s, p, inRun) == s
    decreases |s|
  {
    if s != [] {
      ReplaceRunsWithoutRun(s[1..], p, false);
    }
  }

  /** Squashing leaves a text without adjacent hyphens as it is. */
  lemma {:induction false} SquashKeepsSingleHyphens(s: Text, inRun: bool)
    requires NoDoubleHyphen(s)
    requires inRun ==> s == [] || s[0] != '-'
    ensures ReplaceRuns(s, IsHyphen, inRun) == s
    decreases |s|
  {
    if s != [] {
      SquashKeepsSingleHyphens(s[1..], IsHyphen(s[0]));
    }
  }

  /** Slug characters are already lower case. */
  lemma {:induction false} LowerFixesSlugChars(s: Text)
    requires Every(s, IsSlugChar)
    ensures LowerText(s) == s
  {
  }

  /** Slug characters are not white space, so trimming removes nothing. */
  lemma {:induction false} TrimFixesSlugChars(s: Text)
    requires Every(s, IsSlugChar)
    ensures Trim(s) == s
  {
    TrimUnchanged(s);
  }

  /** A slug is a fixed point of every stage of the generator. */
  lemma SlugIsFixedPoint(s: Text)
    requires IsSlug(s)
    ensures GenerateSlug(s) == s
  {
    calc {
      GenerateSlug(s);
      Prefix(Squash(Hyphenate(Strip(Trim(LowerText(s))))), MaxSlugLength);
      { LowerFixesSlugChars(s); }
      Prefix(Squash(Hyphenate(Strip(Trim(s)))), MaxSlugLength);
      { TrimFixesSlugChars(s); }
      Prefix(Squash(Hyphenate(Strip(s))), MaxSlugLength);
      { StripKeepsKept(s); }
      Prefix(Squash(Hyphenate(s)), MaxSlugLength);
      { ReplaceRunsWithoutRun(s, IsSpace, false); }
      Prefix(Squash(s), MaxSlugLength);
      { SquashKeepsSingleHyphens(s, false); }
      Prefix(s, MaxSlugLength);
    }
  }

  /** Generating a slug from a slug changes nothing. */
  lemma SlugIdempotent(title: Text)
    ensures GenerateSlug(GenerateSlug(title)) == GenerateSlug(title)
  {
    SlugIsFixedPoint(GenerateSlug(title));
  }

  /* ---------------- Distribution over concatenation ---------------- */

  /** Stripping works character by character, so it distributes over concatenation. */
  lemma {:induction false} StripAppend(a: Text, b: Text)
    ensures Strip(a + b) == Strip(a) + Strip(b)
    decreases |a|
  {
    if a == [] {
      assert a + b == b;
    } else {
      assert (a + b)[0] == a[0] && (a + b)[1..] == a[1..] + b;
      StripAppend(a[1..], b);
    }
  }

  /** Whether the character just before the text that follows `a` belongs to a run. */
  function EndsInRun(a: Text, p: char -> bool, inRun: bool): (b: bool)
  {
    if a == [] then inRun else p(a[|a| - 1])
  }

  /** Run replacement on `a + b` is replacement on `a`, then on `b` in the state `a` leaves. */
  lemma {:induction false} ReplaceRunsAppend(a: Text, b: Text, p: char -> bool, inRun: bool)
    ensures ReplaceRuns(a + b, p, inRun) == ReplaceRuns(a, p, inRun) + ReplaceRuns(b, p, EndsInRun(a, p, inRun))
    decreases |a|
  {
    if a == [] {
      assert a + b == b;
    } else {
      var tail := a[1..];
      var rest := ReplaceRuns(b, p, EndsInRun(a, p, inRun));
      var head: Text := if p(a[0]) then (if inRun then [] else ['-']) else [a[0]];
      assert (a + b)[0] == a[0] && (a + b)[1..] == tail + b;
      assert EndsInRun(tail, p, p(a[0])) == EndsInRun(a, p, inRun);
      calc {
        ReplaceRuns(a + b, p, inRun);
        head + ReplaceRuns(tail + b, p, p(a[0]));
        { ReplaceRunsAppend(tail, b, p, p(a[0])); }
        head + (ReplaceRuns(tail, p, p(a[0])) + rest);
        (head + ReplaceRuns(tail, p, p(a[0]))) + rest;
        ReplaceRuns(a, p, inRun) + rest;
      }
    }
  }
}
