/**
 * The two text normalisers of generators/app/string-helper.js: `slugify`, which
 * derives a URL- and file-name-safe form, and `toNamespace`, which derives the
 * capitalised identifier prefix used for code namespaces.
 */
module StringHelper {
  import opened JsStrings

  // ---------------------------------------------------------------------------
  // slugify
  // ---------------------------------------------------------------------------

  /** The slug alphabet `[a-z0-9-]`. */
  predicate IsSlugChar(c: char) { IsAsciiLower(c) || IsDigit(c) || c == '-' }

  /** A character the pattern `[^a-z0-9-]` matches. */
  predicate IsDisallowed(c: char) { !IsSlugChar(c) }

  predicate IsHyphen(c: char) { c == '-' }

  /** A slug character other than `-`: a lower-case ASCII letter or a digit. */
  predicate IsSlugWordChar(c: char) { IsAsciiLower(c) || IsDigit(c) }

  /**
   * `.replace(/[^a-z0-9-]+/g, '-')`: each maximal run of characters outside the
   * slug alphabet becomes a single `-`; every other character is kept.
   */
  function ReplaceDisallowedRuns(s: string): (r: string)
    ensures forall k :: 0 <= k < |r| ==> IsSlugChar(r[k])
    decreases |s|
  {
    if s == [] then []
    else if IsSlugChar(s[0]) then [s[0]] + ReplaceDisallowedRuns(s[1..])
    else "-" + ReplaceDisallowedRuns(SkipDisallowed(s[1..]))
  }

  /** `s` without its leading run of characters outside the slug alphabet. */
  function SkipDisallowed(s: string): (r: string)
    ensures |r| <= |s|
    decreases |s|
  {
    if s != [] && IsDisallowed(s[0]) then SkipDisallowed(s[1..]) else s
  }

  /**
   * `slugify`: lower-case, collapse each run of characters outside `[a-z0-9-]`
   * into one `-`, then strip `-` from both ends.
   */
  function Slugify(s: string): (r: string)
    ensures forall k :: 0 <= k < |r| ==> IsSlugChar(r[k])
    ensures r == [] || (r[0] != '-' && r[|r| - 1] != '-')
  {
    var t := ReplaceDisallowedRuns(ToLowerCase(s));
    TrimKeeps(t, IsHyphen, IsSlugChar);
    Trim(t, IsHyphen)
  }

  /** A string slugify leaves alone: slug alphabet only, no `-` at either end. */
  predicate IsSlug(s: string) {
    && (forall k :: 0 <= k < |s| ==> IsSlugChar(s[k]))
    && (s == [] || (s[0] != '-' && s[|s| - 1] != '-'))
  }

  /** The letters and digits of `s`, in order. */
  function WordChars(s: string): string {
    Filter(s, IsSlugWordChar)
  }

  /**
   * The number of maximal runs of characters outside the slug alphabet, counted
   * at the character that ends each run.
   */
  function DisallowedRuns(s: string): nat
  {
    if s == [] then 0
    else (if IsDisallowed(s[0]) && (|s| == 1 || IsSlugChar(s[1])) then 1 else 0)
         + DisallowedRuns(s[1..])
  }

  lemma {:induction false} ReplaceDisallowedRunsKeepsSlug(s: string)
    requires forall k :: 0 <= k < |s| ==> IsSlugChar(s[k])
    ensures ReplaceDisallowedRuns(s) == s
  {
    if s != [] {
      ReplaceDisallowedRunsKeepsSlug(s[1..]);
      assert [s[0]] + s[1..] == s;
    }
  }

  /** A string that is already a slug is its own slug. */
  lemma SlugifyFixedPoint(s: string)
    requires IsSlug(s)
    ensures Slugify(s) == s
  {
    assert forall k :: 0 <= k < |s| ==> !IsAsciiUpper(s[k]);
    ToLowerCaseNoUpper(s);
    ReplaceDisallowedRunsKeepsSlug(s);
  }

  /** slugify is idempotent. */
  lemma SlugifyIdempotent(s: string)
    ensures Slugify(Slugify(s)) == Slugify(s)
  {
    SlugifyFixedPoint(Slugify(s));
  }

  lemma WordCharsConcat(a: string, b: string)
    ensures WordChars(a + b) == WordChars(a) + WordChars(b)
  {
    FilterConcat(a, b, IsSlugWordChar);
  }

  /** Skipping characters outside the slug alphabet loses no letter or digit. */
  lemma {:induction false} WordCharsSkipDisallowed(s: string)
    ensures WordChars(SkipDisallowed(s)) == WordChars(s)
    decreases |s|
  {
    if s != [] && IsDisallowed(s[0]) {
      WordCharsSkipDisallowed(s[1..]);
      WordCharsConcat([s[0]], s[1..]);
      assert [s[0]] + s[1..] == s;
    }
  }

  /** Collapsing the disallowed runs keeps every letter and digit, in order. */
  lemma {:induction false} WordCharsReplaceDisallowedRuns(s: string)
    ensures WordChars(ReplaceDisallowedRuns(s)) == WordChars(s)
    decreases |s|
  {
    if s != [] {
      assert [s[0]] + s[1..] == s;
      WordCharsConcat([s[0]], s[1..]);
      if IsSlugChar(s[0]) {
        WordCharsReplaceDisallowedRuns(s[1..]);
        WordCharsConcat([s[0]], ReplaceDisallowedRuns(s[1..]));
      } else {
        var t := SkipDisallowed(s[1..]);
        WordCharsReplaceDisallowedRuns(t);
        WordCharsSkipDisallowed(s[1..]);
        WordCharsConcat("-", ReplaceDisallowedRuns(t));
      }
    }
  }

  /** Removing edge hyphens loses no letter or digit. */
  lemma WordCharsTrimHyphens(s: string)
    ensures WordChars(Trim(s, IsHyphen)) == WordChars(s)
  {
    var pre, post := TrimParts(s, IsHyphen);
    WordCharsAround(pre, Trim(s, IsHyphen), post);
  }

  lemma WordCharsAround(pre: string, mid: string, post: string)
    requires forall k :: 0 <= k < |pre| ==> IsHyphen(pre[k])
    requires forall k :: 0 <= k < |post| ==> IsHyphen(post[k])
    ensures WordChars(pre + mid + post) == WordChars(mid)
  {
    WordCharsConcat(pre, mid);
    WordCharsConcat(pre + mid, post);
    NoWordChars(pre);
    NoWordChars(post);
  }

  lemma NoWordChars(s: string)
    requires forall k :: 0 <= k < |s| ==> IsHyphen(s[k])
    ensures WordChars(s) == []
  {
  }

  /** The letters and digits of the slug are exactly those of the lower-cased input. */
  lemma SlugifyKeepsWordChars(s: string)
    ensures WordChars(Slugify(s)) == WordChars(ToLowerCase(s))
  {
    WordCharsReplaceDisallowedRuns(ToLowerCase(s));
    WordCharsTrimHyphens(ReplaceDisallowedRuns(ToLowerCase(s)));
  }

  /**
   * The slug is empty exactly when the input holds no ASCII letter and no digit,
   * so `""`, `"!!!"` and `"---"` all give `""`.
   */
  lemma SlugifyEmpty(s: string)
    ensures Slugify(s) == [] <==> forall k :: 0 <= k < |s| ==> !IsSlugWordChar(LowerChar(s[k]))
  {
    SlugifyKeepsWordChars(s);
    var r := Slugify(s);
    if r != [] {
      assert IsSlugWordChar(r[0]);
      assert WordChars(r) != [];
    }
  }

  /** One disallowed character followed by more of them: the whole run counts once. */
  lemma {:induction false} DisallowedRunsSkip(c: char, t: string)
    requires IsDisallowed(c)
    ensures DisallowedRuns([c] + t) == 1 + DisallowedRuns(SkipDisallowed(t))
    ensures Count([c] + t, '-') == Count(SkipDisallowed(t), '-')
    decreases |t|
  {
    assert ([c] + t)[1..] == t;
    if t != [] && IsDisallowed(t[0]) {
      DisallowedRunsSkip(t[0], t[1..]);
      assert [t[0]] + t[1..] == t;
    }
  }

  /**
   * Existing hyphens are kept and each run of disallowed characters adds exactly
   * one: `"a - b"` becomes `"a---b"`.
   */
  lemma {:induction false} ReplaceDisallowedRunsHyphens(s: string)
    ensures Count(ReplaceDisallowedRuns(s), '-') == Count(s, '-') + DisallowedRuns(s)
    decreases |s|
  {
    if s != [] {
      assert [s[0]] + s[1..] == s;
      if IsSlugChar(s[0]) {
        ReplaceDisallowedRunsHyphens(s[1..]);
        assert ([s[0]] + ReplaceDisallowedRuns(s[1..]))[1..] == ReplaceDisallowedRuns(s[1..]);
      } else {
        var t := SkipDisallowed(s[1..]);
        ReplaceDisallowedRunsHyphens(t);
        DisallowedRunsSkip(s[0], s[1..]);
        assert ("-" + ReplaceDisallowedRuns(t))[1..] == ReplaceDisallowedRuns(t);
      }
    }
  }

  lemma {:induction false} ReplaceDisallowedRunsSlugPrefix(a: string, b: string)
    requires forall k :: 0 <= k < |a| ==> IsSlugChar(a[k])
    ensures ReplaceDisallowedRuns(a + b) == a + ReplaceDisallowedRuns(b)
    decreases |a|
  {
    if a == [] {
      assert a + b == b;
    } else {
      ReplaceDisallowedRunsSlugPrefix(a[1..], b);
      assert (a + b)[1..] == a[1..] + b;
      assert [a[0]] + (a[1..] + ReplaceDisallowedRuns(b)) == a + ReplaceDisallowedRuns(b);
    }
  }

  /**
   * A run of disallowed characters between slug characters becomes one `-` in
   * the run's place; what precedes it is kept and what follows is replaced on
   * its own.
   */
  lemma ReplaceDisallowedRunsInPlace(a: string, r: string, b: string)
    requires forall k :: 0 <= k < |a| ==> IsSlugChar(a[k])
    requires r != [] && forall k :: 0 <= k < |r| ==> IsDisallowed(r[k])
    requires b == [] || IsSlugChar(b[0])
    ensures ReplaceDisallowedRuns(a + r + b) == a + "-" + ReplaceDisallowedRuns(b)
  {
    assert a + r + b == a + (r + b);
    ReplaceDisallowedRunsSlugPrefix(a, r + b);
    ReplaceDisallowedRunsRun(r, b);
    assert a + ("-" + ReplaceDisallowedRuns(b)) == a + "-" + ReplaceDisallowedRuns(b);
  }

  lemma ReplaceDisallowedRunsRun(r: string, b: string)
    requires r != [] && forall k :: 0 <= k < |r| ==> IsDisallowed(r[k])
    requires b == [] || IsSlugChar(b[0])
    ensures ReplaceDisallowedRuns(r + b) == "-" + ReplaceDisallowedRuns(b)
  {
    var rb := r + b;
    assert rb[0] == r[0] && rb[1..] == r[1..] + b;
    SkipDisallowedRun(r[1..], b);
  }

  /** Skipping a run of disallowed characters stops where the next slug character starts. */
  lemma {:induction false} SkipDisallowedRun(r: string, b: string)
    requires forall k :: 0 <= k < |r| ==> IsDisallowed(r[k])
    requires b == [] || IsSlugChar(b[0])
    ensures SkipDisallowed(r + b) == b
    decreases |r|
  {
    if r == [] {
      assert r + b == b;
    } else {
      var rb := r + b;
      assert rb[0] == r[0] && rb[1..] == r[1..] + b;
      SkipDisallowedRun(r[1..], b);
    }
  }

  lemma ReplaceDisallowedRunsOne(c: char, b: string)
    requires IsDisallowed(c)
    requires b == [] || IsSlugChar(b[0])
    ensures ReplaceDisallowedRuns([c] + b) == "-" + ReplaceDisallowedRuns(b)
  {
    assert ([c] + b)[1..] == b;
  }

  lemma ReplaceDisallowedRunsSlugCons(c: char, t: string)
    requires IsSlugChar(c)
    ensures ReplaceDisallowedRuns([c] + t) == [c] + ReplaceDisallowedRuns(t)
  {
    assert ([c] + t)[1..] == t;
  }

  lemma SpacedHyphenRuns()
    ensures ReplaceDisallowedRuns("a - b") == "a---b"
  {
    var t3 := [' '] + "b";
    var t2 := ['-'] + t3;
    var t1 := [' '] + t2;
    ReplaceDisallowedRunsSlugCons('b', []);
    assert "b" == ['b'] + [];
    ReplaceDisallowedRunsOne(' ', "b");
    ReplaceDisallowedRunsSlugCons('-', t3);
    ReplaceDisallowedRunsOne(' ', t2);
    ReplaceDisallowedRunsSlugCons('a', t1);
    assert ['a'] + t1 == "a - b";
  }

  /** The example `"a - b"`: the two spaces become hyphens beside the kept one. */
  lemma SlugifySpacedHyphen()
    ensures Slugify("a - b") == "a---b"
  {
    SpacedHyphenLower();
    SpacedHyphenRuns();
    SpacedHyphenTrim();
  }

  lemma SpacedHyphenLower()
    ensures ToLowerCase("a - b") == "a - b"
  {
    ToLowerCaseNoUpper("a - b");
  }

  lemma SpacedHyphenTrim()
    ensures Trim("a---b", IsHyphen) == "a---b"
  {
    assert "a---b"[0] == 'a' && "a---b"[4] == 'b';
  }

  lemma CompanyNameRuns()
    ensures ReplaceDisallowedRuns("acme co.") == "acme-co-"
  {
    CompanyNameTailRuns();
    ReplaceDisallowedRunsSlugPrefix("acme", " co.");
    assert "acme" + " co." == "acme co.";
    assert "acme" + "-co-" == "acme-co-";
  }

  lemma CompanyNameTailRuns()
    ensures ReplaceDisallowedRuns(" co.") == "-co-"
  {
    var t3 := ['o'] + ".";
    var t2 := ['c'] + t3;
    ReplaceDisallowedRunsOne('.', []);
    assert "." == ['.'] + [];
    ReplaceDisallowedRunsSlugCons('o', ".");
    ReplaceDisallowedRunsSlugCons('c', t3);
    ReplaceDisallowedRunsOne(' ', t2);
    assert [' '] + t2 == " co.";
  }

  lemma CompanyNameLower()
    ensures ToLowerCase("ACME Co.") == "acme co."
  {
  }

  lemma CompanyNameTrim()
    ensures Trim("acme-co-", IsHyphen) == "acme-co"
  {
    assert "acme-co-" == "acme-co" + "-";
    TrimSuffix("acme-co", "-", IsHyphen);
  }

  /** The example `"ACME Co."`: lower-cased, the space and the final `.` become hyphens, the last one trimmed. */
  lemma SlugifyCompanyName()
    ensures Slugify("ACME Co.") == "acme-co"
  {
    CompanyNameLower();
    CompanyNameRuns();
    CompanyNameTrim();
  }

  lemma ToLowerCaseNoUpper(s: string)
    requires forall k :: 0 <= k < |s| ==> !IsAsciiUpper(s[k])
    ensures ToLowerCase(s) == s
  {
    assert forall k :: 0 <= k < |s| ==> ToLowerCase(s)[k] == s[k];
  }

  // ---------------------------------------------------------------------------
  // toNamespace
  // ---------------------------------------------------------------------------

  /** `word.charAt(0).toUpperCase() + word.slice(1).toLowerCase()`. */
  function Capitalize(w: string): (r: string)
    ensures |r| == |w|
    ensures w != [] ==> r[0] == UpperChar(w[0])
    ensures forall k :: 1 <= k < |w| ==> r[k] == LowerChar(w[k])
  {
    if w == [] then [] else [UpperChar(w[0])] + ToLowerCase(w[1..])
  }

  /**
   * Capitalising changes only case: the first character is not a lower-case
   * letter afterwards, the others are not upper-case letters.
   */
  lemma CapitalizeCase(w: string)
    ensures ToLowerCase(Capitalize(w)) == ToLowerCase(w)
    ensures w != [] ==> !IsAsciiLower(Capitalize(w)[0])
    ensures forall k :: 1 <= k < |w| ==> !IsAsciiUpper(Capitalize(w)[k])
  {
    var r := Capitalize(w);
    assert forall k :: 0 <= k < |w| ==> ToLowerCase(r)[k] == ToLowerCase(w)[k];
  }

  /** `.map(Capitalize)`. */
  function CapitalizeEach(ws: seq<string>): (rs: seq<string>)
    ensures |rs| == |ws|
    ensures forall k :: 0 <= k < |ws| ==> rs[k] == Capitalize(ws[k])
  {
    seq(|ws|, k requires 0 <= k < |ws| => Capitalize(ws[k]))
  }

  /** `.join('')`. */
  function Concat(ws: seq<string>): (r: string)
    ensures forall c :: c in r ==> exists k :: 0 <= k < |ws| && c in ws[k]
  {
    if ws == [] then [] else ws[0] + Concat(ws[1..])
  }

  predicate IsNotHyphen(c: char) { c != '-' }

  /** `.replace(/-/g, '')`. */
  function RemoveHyphens(s: string): (r: string)
    ensures '-' !in r
  {
    Filter(s, IsNotHyphen)
  }

  /**
   * `toNamespace`: split on single spaces, capitalise each piece, concatenate the
   * pieces, then delete every `-`.
   */
  function ToNamespace(s: string): (r: string)
    ensures '-' !in r
    ensures ' ' !in r
  {
    var ws := Split(s, ' ');
    var joined := Concat(CapitalizeEach(ws));
    ConcatAvoids(CapitalizeEach(ws), ' ');
    FilterKeeps(joined, IsNotHyphen, ' ');
    RemoveHyphens(joined)
  }

  lemma {:induction false} ConcatAvoids(ws: seq<string>, c: char)
    requires forall k :: 0 <= k < |ws| ==> c !in ws[k]
    ensures c !in Concat(ws)
  {
    if ws != [] {
      ConcatAvoids(ws[1..], c);
    }
  }

  lemma {:induction false} FilterKeeps(s: string, keep: char -> bool, c: char)
    requires c !in s
    ensures c !in Filter(s, keep)
    decreases |s|
  {
    if s != [] {
      FilterKeeps(s[1..], keep, c);
    }
  }

  lemma {:induction false} ConcatAppend(a: seq<string>, b: seq<string>)
    ensures Concat(a + b) == Concat(a) + Concat(b)
  {
    if a == [] {
      assert a + b == b;
    } else {
      var ab := a + b;
      assert ab[0] == a[0] && ab[1..] == a[1..] + b;
      ConcatAppend(a[1..], b);
    }
  }

  lemma RemoveHyphensConcat(a: string, b: string)
    ensures RemoveHyphens(a + b) == RemoveHyphens(a) + RemoveHyphens(b)
  {
    FilterConcat(a, b, IsNotHyphen);
  }

  lemma ToNamespaceEmpty()
    ensures ToNamespace("") == ""
  {
  }

  /** A single word, with no space, is capitalised and stripped of its hyphens. */
  lemma ToNamespaceWord(w: string)
    requires ' ' !in w
    ensures ToNamespace(w) == RemoveHyphens(Capitalize(w))
  {
    SplitWithoutSeparator(w, ' ');
    var cs := CapitalizeEach([w]);
    assert cs == [Capitalize(w)];
    assert Concat(cs) == cs[0] + Concat(cs[1..]);
    assert cs[1..] == [];
    assert Concat(cs) == Capitalize(w);
  }

  /** Each space separates two independently normalised parts. */
  lemma ToNamespaceSpace(a: string, b: string)
    ensures ToNamespace(a + [' '] + b) == ToNamespace(a) + ToNamespace(b)
  {
    SplitConcat(a, b, ' ');
    var wa, wb := Split(a, ' '), Split(b, ' ');
    CapitalizeEachAppend(wa, wb);
    var ca, cb := CapitalizeEach(wa), CapitalizeEach(wb);
    ConcatAppend(ca, cb);
    RemoveHyphensConcat(Concat(ca), Concat(cb));
  }

  lemma CapitalizeEachAppend(a: seq<string>, b: seq<string>)
    ensures CapitalizeEach(a + b) == CapitalizeEach(a) + CapitalizeEach(b)
  {
    var l, r := CapitalizeEach(a + b), CapitalizeEach(a) + CapitalizeEach(b);
    assert |l| == |r|;
    forall k | 0 <= k < |a|
      ensures l[k] == r[k]
    {
      assert (a + b)[k] == a[k];
    }
    forall k | |a| <= k < |l|
      ensures l[k] == r[k]
    {
      assert (a + b)[k] == b[k - |a|];
    }
  }

  predicate IsNotSpaceOrHyphen(c: char) { c != ' ' && c != '-' }

  lemma {:induction false} RemoveHyphensLower(s: string)
    ensures RemoveHyphens(ToLowerCase(s)) == ToLowerCase(RemoveHyphens(s))
    decreases |s|
  {
    if s != [] {
      RemoveHyphensLower(s[1..]);
      assert [s[0]] + s[1..] == s;
      ToLowerCaseConcat([s[0]], s[1..]);
      RemoveHyphensConcat([s[0]], s[1..]);
      RemoveHyphensConcat(ToLowerCase([s[0]]), ToLowerCase(s[1..]));
      ToLowerCaseConcat(RemoveHyphens([s[0]]), RemoveHyphens(s[1..]));
    }
  }

  lemma {:induction false} FilterNoSpace(w: string)
    requires ' ' !in w
    ensures Filter(w, IsNotSpaceOrHyphen) == RemoveHyphens(w)
    decreases |w|
  {
    if w != [] {
      FilterNoSpace(w[1..]);
    }
  }

  /**
   * toNamespace only changes case and deletes spaces and hyphens: lower-cased, it
   * is the lower-cased input without its spaces and hyphens.
   */
  lemma {:induction false} ToNamespaceLetters(s: string)
    ensures ToLowerCase(ToNamespace(s)) == ToLowerCase(Filter(s, IsNotSpaceOrHyphen))
    decreases |s|
  {
    var i := IndexOf(s, ' ');
    if i < 0 {
      ToNamespaceWordLetters(s);
    } else {
      var a, b := s[..i], s[i + 1..];
      assert s == a + [' '] + b;
      var fa, fb := Filter(a, IsNotSpaceOrHyphen), Filter(b, IsNotSpaceOrHyphen);
      calc {
        ToLowerCase(ToNamespace(s));
        { ToNamespaceSpace(a, b); }
        ToLowerCase(ToNamespace(a) + ToNamespace(b));
        { ToLowerCaseConcat(ToNamespace(a), ToNamespace(b)); }
        ToLowerCase(ToNamespace(a)) + ToLowerCase(ToNamespace(b));
        { ToNamespaceLetters(a); ToNamespaceLetters(b); }
        ToLowerCase(fa) + ToLowerCase(fb);
        { ToLowerCaseConcat(fa, fb); }
        ToLowerCase(fa + fb);
        { FilterAroundSpace(a, b); }
        ToLowerCase(Filter(s, IsNotSpaceOrHyphen));
      }
    }
  }

  lemma FilterAroundSpace(a: string, b: string)
    ensures Filter(a + [' '] + b, IsNotSpaceOrHyphen)
            == Filter(a, IsNotSpaceOrHyphen) + Filter(b, IsNotSpaceOrHyphen)
  {
    var fa, fb := Filter(a, IsNotSpaceOrHyphen), Filter(b, IsNotSpaceOrHyphen);
    assert Filter([' '], IsNotSpaceOrHyphen) == [] by {
      assert [' '][1..] == [];
    }
    assert Filter(a + [' '], IsNotSpaceOrHyphen) == fa by {
      FilterConcat(a, [' '], IsNotSpaceOrHyphen);
    }
    FilterConcat(a + [' '], b, IsNotSpaceOrHyphen);
  }

  lemma ToNamespaceWordLetters(w: string)
    requires ' ' !in w
    ensures ToLowerCase(ToNamespace(w)) == ToLowerCase(Filter(w, IsNotSpaceOrHyphen))
  {
    ToNamespaceWord(w);
    CapitalizeCase(w);
    RemoveHyphensLower(Capitalize(w));
    RemoveHyphensLower(w);
    FilterNoSpace(w);
  }

  lemma {:induction false} RemoveHyphensNone(s: string)
    requires '-' !in s
    ensures RemoveHyphens(s) == s
    decreases |s|
  {
    if s != [] {
      RemoveHyphensNone(s[1..]);
      assert [s[0]] + s[1..] == s;
    }
  }

  lemma CapitalizeWord(w: string, expected: string)
    requires w != [] && |expected| == |w|
    requires expected[0] == UpperChar(w[0])
    requires forall k :: 1 <= k < |w| ==> expected[k] == LowerChar(w[k])
    ensures Capitalize(w) == expected
  {
    assert forall k :: 0 <= k < |w| ==> Capitalize(w)[k] == expected[k];
  }

  /** A word with no space and no hyphen whose capitalised form is `expected`. */
  lemma ToNamespaceOfWord(w: string, expected: string)
    requires ' ' !in w && '-' !in w
    requires w != [] && |expected| == |w|
    requires expected[0] == UpperChar(w[0])
    requires forall k :: 1 <= k < |w| ==> expected[k] == LowerChar(w[k])
    ensures ToNamespace(w) == expected
  {
    ToNamespaceWord(w);
    CapitalizeWord(w, expected);
    assert '-' !in expected;
    RemoveHyphensNone(expected);
  }

  /** The example `"john doe"`. */
  lemma ToNamespaceJohnDoe()
    ensures ToNamespace("john" + " " + "doe") == "John" + "Doe"
  {
    ToNamespaceJohn();
    ToNamespaceOfWord("doe", "Doe");
    ToNamespaceSpace("john", "doe");
  }

  lemma ToNamespaceJohn()
    ensures ToNamespace("john") == "John"
  {
    ToNamespaceOfWord("john", "John");
  }

  /** A hyphenated word: capitalised first, then the hyphen is dropped. */
  lemma ToNamespaceMaryJane()
    ensures ToNamespace("mary" + "-" + "jane") == "Mary" + "jane"
  {
    MaryJaneCapitalized();
    MaryJaneHyphenRemoved();
  }

  lemma MaryJaneCapitalized()
    ensures ToNamespace("mary" + "-" + "jane") == RemoveHyphens("Mary" + "-" + "jane")
  {
    ToNamespaceWord("mary" + "-" + "jane");
    MaryJaneCapital();
  }

  lemma MaryJaneCapital()
    ensures Capitalize("mary" + "-" + "jane") == "Mary" + "-" + "jane"
  {
    CapitalizeWord("mary" + "-" + "jane", "Mary" + "-" + "jane");
  }

  lemma MaryJaneHyphenRemoved()
    ensures RemoveHyphens("Mary" + "-" + "jane") == "Mary" + "jane"
  {
    assert RemoveHyphens("Mary" + "-") == "Mary" by {
      RemoveHyphensConcat("Mary", "-");
      RemoveHyphensNone("Mary");
      assert "-"[1..] == [];
    }
    RemoveHyphensConcat("Mary" + "-", "jane");
    RemoveHyphensNone("jane");
  }

  /** The example `"mary-jane smith"`. */
  lemma ToNamespaceHyphenatedName()
    ensures ToNamespace("mary" + "-" + "jane" + " " + "smith") == "Mary" + "jane" + "Smith"
  {
    ToNamespaceMaryJane();
    ToNamespaceOfWord("smith", "Smith");
    ToNamespaceSpace("mary" + "-" + "jane", "smith");
  }

  /** The example `"ACME Co."`: punctuation other than space and `-` is kept. */
  lemma ToNamespacePunctuation()
    ensures ToNamespace("ACME" + " " + "Co.") == "Acme" + "Co."
  {
    ToNamespaceAcme();
    ToNamespaceOfWord("Co.", "Co.");
    ToNamespaceSpace("ACME", "Co.");
  }

  lemma ToNamespaceAcme()
    ensures ToNamespace("ACME") == "Acme"
  {
    ToNamespaceOfWord("ACME", "Acme");
  }
}
