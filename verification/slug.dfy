/**
 * `slugify` (bin/fetch_scholar.py): strip, lower-case, drop every character
 * outside `[a-z0-9\-\s]`, turn each run of white space into one hyphen,
 * squeeze each run of hyphens to one, keep the first 80 characters.
 */
module Slug {
  import opened Text

  const MaxSlugLength: nat := 80

  predicate IsSlugChar(c: char) {
    ('a' <= c <= 'z') || ('0' <= c <= '9') || c == '-'
  }

  /** The class `[a-z0-9\-\s]` that survives the filtering step. */
  predicate IsKept(c: char) {
    IsSlugChar(c) || IsSpace(c)
  }

  predicate NoDoubleHyphen(s: string) {
    forall i :: 0 <= i < |s| - 1 ==> !(s[i] == '-' && s[i + 1] == '-')
  }

  /** A string `slugify` can return. */
  predicate IsSlug(s: string) {
    && |s| <= MaxSlugLength
    && (forall i :: 0 <= i < |s| ==> IsSlugChar(s[i]))
    && NoDoubleHyphen(s)
  }

  /** `re.sub(r"[^a-z0-9\-\s]", "", s)` */
  function KeepSlugChars(s: string): (r: string)
    ensures |r| <= |s|
    ensures forall i :: 0 <= i < |r| ==> IsKept(r[i])
  {
    if s == [] then []
    else (if IsKept(s[0]) then [s[0]] else []) + KeepSlugChars(s[1..])
  }

  /** The text after the leading run of white space. */
  function DropSpaces(s: string): (r: string)
    ensures |r| <= |s| && forall i :: 0 <= i < |r| ==> r[i] == s[|s| - |r| + i]
    ensures r == [] || !IsSpace(r[0])
  {
    if s != [] && IsSpace(s[0]) then DropSpaces(s[1..]) else s
  }

  /** `re.sub(r"\s+", "-", s)`: every run of white space becomes one hyphen. */
  function CollapseSpaces(s: string): (r: string)
    ensures |r| <= |s|
    decreases |s|
  {
    if s == [] then []
    else if IsSpace(s[0]) then "-" + CollapseSpaces(DropSpaces(s))
    else [s[0]] + CollapseSpaces(s[1..])
  }

  /** After filtering, collapsing leaves only slug characters. */
  lemma {:induction false} CollapseSpacesOfKept(s: string)
    requires forall i :: 0 <= i < |s| ==> IsKept(s[i])
    ensures forall i :: 0 <= i < |CollapseSpaces(s)| ==> IsSlugChar(CollapseSpaces(s)[i])
    decreases |s|
  {
    if s != [] {
      if IsSpace(s[0]) {
        var d := DropSpaces(s);
        assert forall i :: 0 <= i < |d| ==> d[i] == s[|s| - |d| + i];
        CollapseSpacesOfKept(d);
      } else {
        CollapseSpacesOfKept(s[1..]);
      }
    }
  }

  /** The text after the leading run of hyphens. */
  function DropHyphens(s: string): (r: string)
    ensures |r| <= |s| && forall i :: 0 <= i < |r| ==> r[i] == s[|s| - |r| + i]
    ensures r == [] || r[0] != '-'
  {
    if s != [] && s[0] == '-' then DropHyphens(s[1..]) else s
  }

  /** `re.sub(r"-+", "-", s)`: every run of hyphens becomes one hyphen. */
  function SqueezeHyphens(s: string): (r: string)
    ensures |r| <= |s|
    ensures r != [] && r[0] == '-' ==> s != [] && s[0] == '-'
    decreases |s|
  {
    if s == [] then []
    else if s[0] == '-' then "-" + SqueezeHyphens(DropHyphens(s))
    else [s[0]] + SqueezeHyphens(s[1..])
  }

  /** Squeezing keeps a string of slug characters one. */
  lemma {:induction false} SqueezeOfSlugChars(s: string)
    requires forall i :: 0 <= i < |s| ==> IsSlugChar(s[i])
    ensures forall i :: 0 <= i < |SqueezeHyphens(s)| ==> IsSlugChar(SqueezeHyphens(s)[i])
    decreases |s|
  {
    if s != [] {
      if s[0] == '-' {
        var d := DropHyphens(s);
        assert forall i :: 0 <= i < |d| ==> d[i] == s[|s| - |d| + i];
        SqueezeOfSlugChars(d);
      } else {
        SqueezeOfSlugChars(s[1..]);
      }
    }
  }

  /** Squeezing hyphen runs leaves no two hyphens side by side. */
  lemma {:induction false} SqueezeLeavesNoDoubleHyphen(s: string)
    ensures NoDoubleHyphen(SqueezeHyphens(s))
    decreases |s|
  {
    if s != [] {
      if s[0] == '-' {
        SqueezeLeavesNoDoubleHyphen(DropHyphens(s));
      } else {
        SqueezeLeavesNoDoubleHyphen(s[1..]);
      }
    }
  }

  /** `text[:80]` */
  function Truncate(s: string): (r: string)
    ensures |r| <= MaxSlugLength && IsPrefix(r, s)
  {
    Take(s, MaxSlugLength)
  }

  /** `slugify(text)` */
  function Slugify(text: string): (r: string)
    ensures IsSlug(r)
  {
    var kept := KeepSlugChars(Lower(Strip(text)));
    var collapsed := CollapseSpaces(kept);
    var squeezed := SqueezeHyphens(collapsed);
    CollapseSpacesOfKept(kept);
    SqueezeOfSlugChars(collapsed);
    SqueezeLeavesNoDoubleHyphen(collapsed);
    var r := Truncate(squeezed);
    assert forall i :: 0 <= i < |r| ==> r[i] == squeezed[i];
    r
  }

  lemma {:induction false} KeepSlugCharsOfSlug(s: string)
    requires forall i :: 0 <= i < |s| ==> IsKept(s[i])
    ensures KeepSlugChars(s) == s
    decreases |s|
  {
    if s != [] {
      KeepSlugCharsOfSlug(s[1..]);
    }
  }

  lemma {:induction false} CollapseSpacesOfSlug(s: string)
    requires forall i :: 0 <= i < |s| ==> IsSlugChar(s[i])
    ensures CollapseSpaces(s) == s
    decreases |s|
  {
    if s != [] {
      CollapseSpacesOfSlug(s[1..]);
    }
  }

  lemma {:induction false} SqueezeOfSlug(s: string)
    requires NoDoubleHyphen(s)
    ensures SqueezeHyphens(s) == s
    decreases |s|
  {
    if s != [] {
      assert NoDoubleHyphen(s[1..]);
      if s[0] == '-' {
        assert DropHyphens(s) == s[1..];
      }
      SqueezeOfSlug(s[1..]);
    }
  }

  lemma StripOfSlug(s: string)
    requires forall i :: 0 <= i < |s| ==> IsSlugChar(s[i])
    ensures Strip(s) == s
  {
    assert RStrip(s) == s by {
      if s != [] { assert !IsSpace(s[|s| - 1]); }
    }
    if s != [] { assert !IsSpace(s[0]); }
  }

  lemma LowerOfSlug(s: string)
    requires forall i :: 0 <= i < |s| ==> IsSlugChar(s[i])
    ensures Lower(s) == s
  {
  }

  /** A slug is its own slug. */
  lemma SlugIsFixedPoint(s: string)
    requires IsSlug(s)
    ensures Slugify(s) == s
  {
    StripOfSlug(s);
    LowerOfSlug(s);
    KeepSlugCharsOfSlug(s);
    CollapseSpacesOfSlug(s);
    SqueezeOfSlug(s);
    assert SqueezeHyphens(CollapseSpaces(KeepSlugChars(Lower(Strip(s))))) == s;
    assert Truncate(s) == s;
  }

  /** `slugify` is idempotent. */
  lemma SlugifyIdempotent(text: string)
    ensures Slugify(Slugify(text)) == Slugify(text)
  {
    SlugIsFixedPoint(Slugify(text));
  }

  lemma {:induction false} KeepSlugCharsOfDropped(s: string)
    requires forall i :: 0 <= i < |s| ==> !IsKept(s[i])
    ensures KeepSlugChars(s) == []
    decreases |s|
  {
    if s != [] {
      KeepSlugCharsOfDropped(s[1..]);
    }
  }

  lemma {:induction false} KeepSlugCharsAppend(a: string, b: string)
    ensures KeepSlugChars(a + b) == KeepSlugChars(a) + KeepSlugChars(b)
    decreases |a|
  {
    if a == [] {
      assert a + b == b;
    } else {
      assert (a + b)[1..] == a[1..] + b;
      KeepSlugCharsAppend(a[1..], b);
    }
  }

  lemma {:induction false} CollapseSpacesAfterWord(w: string, rest: string)
    requires forall i :: 0 <= i < |w| ==> !IsSpace(w[i])
    ensures CollapseSpaces(w + rest) == w + CollapseSpaces(rest)
    decreases |w|
  {
    if w == [] {
      assert w + rest == rest;
    } else {
      var s := w + rest;
      assert s[0] == w[0] && !IsSpace(s[0]);
      assert s[1..] == w[1..] + rest;
      CollapseSpacesAfterWord(w[1..], rest);
      assert CollapseSpaces(s) == [w[0]] + CollapseSpaces(s[1..]);
    }
  }

  lemma {:induction false} DropSpacesBeforeWord(sp: string, rest: string)
    requires forall i :: 0 <= i < |sp| ==> IsSpace(sp[i])
    requires rest == [] || !IsSpace(rest[0])
    ensures DropSpaces(sp + rest) == rest
    decreases |sp|
  {
    if sp == [] {
      assert sp + rest == rest;
    } else {
      assert (sp + rest)[1..] == sp[1..] + rest;
      DropSpacesBeforeWord(sp[1..], rest);
    }
  }

  lemma CollapseSpacesAfterSpaces(sp: string, rest: string)
    requires sp != [] && forall i :: 0 <= i < |sp| ==> IsSpace(sp[i])
    requires rest == [] || !IsSpace(rest[0])
    ensures CollapseSpaces(sp + rest) == "-" + CollapseSpaces(rest)
  {
    DropSpacesBeforeWord(sp, rest);
    assert (sp + rest)[0] == sp[0];
  }

  /** A character other than a hyphen passes through squeezing. */
  lemma SqueezeCons(c: char, t: string)
    requires c != '-'
    ensures SqueezeHyphens([c] + t) == [c] + SqueezeHyphens(t)
  {
    assert ([c] + t)[1..] == t;
  }

  lemma {:induction false} SqueezeAfterWord(w: string, rest: string)
    requires forall i :: 0 <= i < |w| ==> w[i] != '-'
    ensures SqueezeHyphens(w + rest) == w + SqueezeHyphens(rest)
    decreases |w|
  {
    if w == [] {
      assert w + rest == rest;
    } else {
      var tail := w[1..] + rest;
      assert w + rest == [w[0]] + tail;
      SqueezeCons(w[0], tail);
      SqueezeAfterWord(w[1..], rest);
      assert w == [w[0]] + w[1..];
    }
  }

  lemma SqueezeAfterHyphen(rest: string)
    requires rest == [] || rest[0] != '-'
    ensures SqueezeHyphens("-" + rest) == "-" + SqueezeHyphens(rest)
  {
    var s := "-" + rest;
    assert s[0] == '-';
    assert s[1..] == rest;
    assert DropHyphens(s) == DropHyphens(rest);
    assert DropHyphens(rest) == rest;
  }

  lemma {:induction false} DropHyphensBeforeText(run: string, rest: string)
    requires forall i :: 0 <= i < |run| ==> run[i] == '-'
    requires rest == [] || rest[0] != '-'
    ensures DropHyphens(run + rest) == rest
    decreases |run|
  {
    if run == [] {
      assert run + rest == rest;
    } else {
      assert (run + rest)[1..] == run[1..] + rest;
      DropHyphensBeforeText(run[1..], rest);
    }
  }

  /** A whole run of hyphens, however long, becomes one hyphen. */
  lemma SqueezeAfterHyphens(run: string, rest: string)
    requires run != [] && forall i :: 0 <= i < |run| ==> run[i] == '-'
    requires rest == [] || rest[0] != '-'
    ensures SqueezeHyphens(run + rest) == "-" + SqueezeHyphens(rest)
  {
    DropHyphensBeforeText(run, rest);
    assert (run + rest)[0] == run[0];
  }

  /** A text that neither starts nor ends with white space is its own strip. */
  lemma StripOfTrimmed(s: string)
    requires s != [] && !IsSpace(s[0]) && !IsSpace(s[|s| - 1])
    ensures Strip(s) == s
  {
    assert RStrip(s) == s;
  }

  /** Stripping and lower-casing in the worked example, piece by piece. */
  lemma SlugifyExampleLower(t: string, u1: string, u2: string, l1: string, l2: string)
    requires u1 == "A Study" && u2 == " Of  THINGS" && l1 == "a study" && l2 == " of  things"
    requires t == (u1 + ":") + (u2 + "!!")
    ensures Lower(Strip(t)) == (l1 + ":") + (l2 + "!!")
  {
    StripOfTrimmed(t);
    LowerAppend(u1 + ":", u2 + "!!");
    LowerAppend(u1, ":");
    LowerAppend(u2, "!!");
    assert Lower(u1) == l1;
    assert Lower(u2) == l2;
  }

  /** Filtering keeps a part of kept characters and drops what follows. */
  lemma KeepSlugCharsOfKeptThenDropped(s: string, a: string, b: string)
    requires s == a + b
    requires forall i :: 0 <= i < |a| ==> IsKept(a[i])
    requires forall i :: 0 <= i < |b| ==> !IsKept(b[i])
    ensures KeepSlugChars(s) == a
  {
    KeepSlugCharsOfSlug(a);
    KeepSlugCharsOfDropped(b);
    KeepSlugCharsAppend(a, b);
  }

  /** Filtering in the worked example: the colon and the exclamation marks go. */
  lemma SlugifyExampleKeep(l1: string, l2: string)
    requires l1 == "a study" && l2 == " of  things"
    ensures KeepSlugChars((l1 + ":") + (l2 + "!!")) == l1 + l2
  {
    KeepSlugCharsOfKeptThenDropped(l1 + ":", l1, ":");
    KeepSlugCharsOfKeptThenDropped(l2 + "!!", l2, "!!");
    KeepSlugCharsAppend(l1 + ":", l2 + "!!");
  }

  predicate IsWord(w: string) {
    w != [] && forall i :: 0 <= i < |w| ==> !IsSpace(w[i]) && w[i] != '-'
  }

  predicate IsSpaceRun(sp: string) {
    sp != [] && forall i :: 0 <= i < |sp| ==> IsSpace(sp[i])
  }

  /** A word followed by a run of white space and more text. */
  lemma CollapseWordThenSpaces(w: string, sp: string, rest: string)
    requires IsWord(w) && IsSpaceRun(sp) && rest != [] && !IsSpace(rest[0])
    ensures CollapseSpaces(w + (sp + rest)) == w + ("-" + CollapseSpaces(rest))
  {
    CollapseSpacesAfterWord(w, sp + rest);
    CollapseSpacesAfterSpaces(sp, rest);
  }

  /** A word followed by a hyphen and more text. */
  lemma SqueezeWordThenHyphen(w: string, rest: string)
    requires IsWord(w) && rest != [] && rest[0] != '-'
    ensures SqueezeHyphens(w + ("-" + rest)) == w + ("-" + SqueezeHyphens(rest))
  {
    SqueezeAfterWord(w, "-" + rest);
    SqueezeAfterHyphen(rest);
  }

  /** A single word passes collapsing and squeezing unchanged. */
  lemma SingleWord(w: string)
    requires IsWord(w)
    ensures SqueezeHyphens(CollapseSpaces(w)) == w
  {
    CollapseSpacesAfterWord(w, "");
    assert w + "" == w;
    SqueezeAfterWord(w, "");
  }

  /** A word, a run of white space and a text starting with a word: the
   *  run becomes one hyphen between the word and what the text becomes. */
  lemma CollapseWordStep(w: string, sp: string, rest: string, tail: string)
    requires IsWord(w) && IsSpaceRun(sp)
    requires rest != [] && !IsSpace(rest[0]) && rest[0] != '-'
    requires SqueezeHyphens(CollapseSpaces(rest)) == tail
    ensures SqueezeHyphens(CollapseSpaces(w + (sp + rest))) == w + ("-" + tail)
  {
    CollapseWordThenSpaces(w, sp, rest);
    assert CollapseSpaces(rest)[0] == rest[0];
    SqueezeWordThenHyphen(w, CollapseSpaces(rest));
  }

  /** Four words separated by runs of white space become the words joined
   *  by single hyphens. */
  lemma FourWords(w1: string, s1: string, w2: string, s2: string, w3: string, s3: string, w4: string)
    requires IsWord(w1) && IsWord(w2) && IsWord(w3) && IsWord(w4)
    requires IsSpaceRun(s1) && IsSpaceRun(s2) && IsSpaceRun(s3)
    ensures SqueezeHyphens(CollapseSpaces(w1 + (s1 + (w2 + (s2 + (w3 + (s3 + w4)))))))
         == w1 + ("-" + (w2 + ("-" + (w3 + ("-" + w4)))))
  {
    var r3 := w3 + (s3 + w4);
    var r2 := w2 + (s2 + r3);
    SingleWord(w4);
    CollapseWordStep(w3, s3, w4, w4);
    CollapseWordStep(w2, s2, r3, w3 + ("-" + w4));
    CollapseWordStep(w1, s1, r2, w2 + ("-" + (w3 + ("-" + w4))));
  }

  /** The words of the worked example. */
  lemma ExampleWords(k: string, w1: string, w2: string, w3: string, w4: string)
    requires w1 == "a" && w2 == "study" && w3 == "of" && w4 == "things"
    requires k == "a study" + " of  things"
    ensures k == w1 + (" " + (w2 + (" " + (w3 + ("  " + w4)))))
  {
  }

  /** The slug of the worked example, word by word. */
  lemma ExampleSlugWords(out: string, w1: string, w2: string, w3: string, w4: string)
    requires w1 == "a" && w2 == "study" && w3 == "of" && w4 == "things"
    requires out == "a-study-of-things"
    ensures out == w1 + ("-" + (w2 + ("-" + (w3 + ("-" + w4)))))
  {
  }

  /** The run-collapsing steps of the worked example. */
  lemma SlugifyExampleCollapse(k: string, out: string, w1: string, w2: string, w3: string, w4: string)
    requires w1 == "a" && w2 == "study" && w3 == "of" && w4 == "things"
    requires k == "a study" + " of  things" && out == "a-study-of-things"
    ensures SqueezeHyphens(CollapseSpaces(k)) == out
  {
    ExampleWords(k, w1, w2, w3, w4);
    ExampleSlugWords(out, w1, w2, w3, w4);
    FourWords(w1, " ", w2, " ", w3, "  ", w4);
  }

  /** The worked example: `slugify("A Study: Of  THINGS!!")` is
   *  `a-study-of-things`. */
  lemma SlugifyExample(t: string, out: string)
    requires t == "A Study: Of  THINGS!!" && out == "a-study-of-things"
    ensures Slugify(t) == out
  {
    assert t == ("A Study" + ":") + (" Of  THINGS" + "!!");
    SlugifyExampleLower(t, "A Study", " Of  THINGS", "a study", " of  things");
    SlugifyExampleKeep("a study", " of  things");
    SlugifyExampleCollapse("a study" + " of  things", out, "a", "study", "of", "things");
  }
}
