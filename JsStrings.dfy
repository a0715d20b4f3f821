/**
 * The JavaScript string built-ins that the generator's helpers call, restricted to
 * the way those helpers call them: case mapping of ASCII letters, `split` on a
 * one-character separator, `join`, `trim`, `replace` of the first occurrence of a
 * one-character pattern, and `includes`.
 */
module JsStrings {

  datatype Option<T> = None | Some(value: T)

  // ---------------------------------------------------------------------------
  // Characters
  // ---------------------------------------------------------------------------

  predicate IsAsciiUpper(c: char) { 'A' <= c <= 'Z' }
  predicate IsAsciiLower(c: char) { 'a' <= c <= 'z' }
  predicate IsAsciiLetter(c: char) { IsAsciiUpper(c) || IsAsciiLower(c) }
  predicate IsDigit(c: char) { '0' <= c <= '9' }

  /** `toLowerCase` of one character; only ASCII letters change. */
  function LowerChar(c: char): (d: char)
    ensures !IsAsciiUpper(d)
    ensures IsAsciiLetter(d) <==> IsAsciiLetter(c)
    ensures !IsAsciiLetter(c) ==> d == c
  {
    if IsAsciiUpper(c) then (c as int + 32) as char else c
  }

  /** `toUpperCase` of one character; only ASCII letters change. */
  function UpperChar(c: char): (d: char)
    ensures !IsAsciiLower(d)
    ensures IsAsciiLetter(d) <==> IsAsciiLetter(c)
    ensures !IsAsciiLetter(c) ==> d == c
    ensures LowerChar(d) == LowerChar(c)
  {
    if IsAsciiLower(c) then (c as int - 32) as char else c
  }

  /**
   * The characters `String.prototype.trim` removes: ECMAScript's WhiteSpace
   * (tab, vertical tab, form feed, space, no-break space, byte order mark and the
   * other Unicode space separators) and LineTerminator (LF, CR, LS, PS).
   */
  predicate IsJsWhitespace(c: char) {
    var n := c as int;
    n == 0x09 || n == 0x0A || n == 0x0B || n == 0x0C || n == 0x0D || n == 0x20
    || n == 0xA0 || n == 0x1680 || (0x2000 <= n <= 0x200A) || n == 0x2028
    || n == 0x2029 || n == 0x202F || n == 0x205F || n == 0x3000 || n == 0xFEFF
  }

  /** The characters a regular expression's `.` does not match (no `s` flag). */
  predicate IsLineTerminator(c: char) {
    c == '\n' || c == '\r' || c as int == 0x2028 || c as int == 0x2029
  }

  // ---------------------------------------------------------------------------
  // Case mapping of strings
  // ---------------------------------------------------------------------------

  /** `String.prototype.toLowerCase`: every ASCII upper-case letter lowered, in place. */
  function ToLowerCase(s: string): (r: string)
    ensures |r| == |s|
    ensures forall i :: 0 <= i < |s| ==> r[i] == LowerChar(s[i])
  {
    seq(|s|, i requires 0 <= i < |s| => LowerChar(s[i]))
  }

  lemma ToLowerCaseConcat(a: string, b: string)
    ensures ToLowerCase(a + b) == ToLowerCase(a) + ToLowerCase(b)
  {
    assert forall i :: 0 <= i < |a + b| ==> ToLowerCase(a + b)[i] == (ToLowerCase(a) + ToLowerCase(b))[i];
  }

  // ---------------------------------------------------------------------------
  // split and join on a one-character separator
  // ---------------------------------------------------------------------------

  /**
   * `s.split(sep)` for a one-character `sep`: the pieces between occurrences of
   * `sep`, empty pieces included, so `"".split(sep)` is `[""]`.
   */
  function Split(s: string, sep: char): (parts: seq<string>)
    ensures |parts| >= 1
    ensures forall k :: 0 <= k < |parts| ==> sep !in parts[k]
    decreases |s|
  {
    if s == [] then [[]]
    else
      var rest := Split(s[1..], sep);
      if s[0] == sep then [[]] + rest
      else [[s[0]] + rest[0]] + rest[1..]
  }

  /** `parts.join(sep)` for a one-character `sep`. */
  function Join(parts: seq<string>, sep: char): string
  {
    if parts == [] then []
    else if |parts| == 1 then parts[0]
    else parts[0] + [sep] + Join(parts[1..], sep)
  }

  /** Number of occurrences of `c` in `s`. */
  function Count(s: string, c: char): nat
  {
    if s == [] then 0 else (if s[0] == c then 1 else 0) + Count(s[1..], c)
  }

  lemma JoinCons(p: string, ps: seq<string>, sep: char)
    requires ps != []
    ensures Join([p] + ps, sep) == p + [sep] + Join(ps, sep)
  {
    assert ([p] + ps)[1..] == ps;
  }

  /** Splitting and joining again gives back the string. */
  lemma {:induction false} JoinSplit(s: string, sep: char)
    ensures Join(Split(s, sep), sep) == s
  {
    if s != [] {
      var rest := Split(s[1..], sep);
      JoinSplit(s[1..], sep);
      if s[0] == sep {
        JoinCons([], rest, sep);
      } else if |rest| == 1 {
        assert Split(s, sep) == [[s[0]] + rest[0]];
      } else {
        JoinCons(rest[0], rest[1..], sep);
        assert [rest[0]] + rest[1..] == rest;
        assert Split(s, sep) == [[s[0]] + rest[0]] + rest[1..];
        JoinCons([s[0]] + rest[0], rest[1..], sep);
      }
    }
  }

  /** A separator splits the string into the pieces on its left and those on its right. */
  lemma {:induction false} SplitConcat(a: string, b: string, sep: char)
    ensures Split(a + [sep] + b, sep) == Split(a, sep) + Split(b, sep)
    decreases |a|
  {
    if a == [] {
      assert a + [sep] + b == [sep] + b;
      SplitCons(sep, b, sep);
    } else {
      var c, t := a[0], a[1..];
      assert a == [c] + t;
      assert a + [sep] + b == [c] + (t + [sep] + b);
      SplitConcat(t, b, sep);
      SplitCons(c, t + [sep] + b, sep);
      SplitCons(c, t, sep);
      SplitStep(c, sep, Split(t + [sep] + b, sep), Split(t, sep), Split(b, sep));
    }
  }

  /** The step of `SplitConcat`: putting `c` in front commutes with appending the right-hand pieces. */
  lemma SplitStep(c: char, sep: char, whole: seq<string>, left: seq<string>, right: seq<string>)
    requires whole == left + right && left != []
    ensures (if c == sep then [[]] + whole else [[c] + whole[0]] + whole[1..])
         == (if c == sep then [[]] + left else [[c] + left[0]] + left[1..]) + right
  {
    if c != sep {
      PieceAppend([c], left, right);
    }
  }

  /** `Split` of a string that starts with `c`. */
  lemma SplitCons(c: char, t: string, sep: char)
    ensures Split([c] + t, sep)
            == if c == sep then [[]] + Split(t, sep)
               else [[c] + Split(t, sep)[0]] + Split(t, sep)[1..]
  {
    assert ([c] + t)[0] == c && ([c] + t)[1..] == t;
  }

  lemma PieceAppend(p: string, ra: seq<string>, rb: seq<string>)
    requires ra != []
    ensures [p + (ra + rb)[0]] + (ra + rb)[1..] == [p + ra[0]] + ra[1..] + rb
  {
    assert (ra + rb)[0] == ra[0];
    assert (ra + rb)[1..] == ra[1..] + rb;
  }

  /** A string without the separator is a single piece. */
  lemma {:induction false} SplitWithoutSeparator(s: string, sep: char)
    requires sep !in s
    ensures Split(s, sep) == [s]
  {
    if s != [] {
      SplitWithoutSeparator(s[1..], sep);
      assert [s[0]] + s[1..] == s;
    }
  }

  /** Joining separator-free pieces and splitting again gives back the pieces. */
  lemma {:induction false} SplitJoin(parts: seq<string>, sep: char)
    requires parts != []
    requires forall k :: 0 <= k < |parts| ==> sep !in parts[k]
    ensures Split(Join(parts, sep), sep) == parts
  {
    if |parts| == 1 {
      SplitWithoutSeparator(parts[0], sep);
    } else {
      SplitJoin(parts[1..], sep);
      SplitWithoutSeparator(parts[0], sep);
      SplitConcat(parts[0], Join(parts[1..], sep), sep);
      assert [parts[0]] + parts[1..] == parts;
    }
  }

  /** The first piece is everything before the first separator. */
  lemma SplitFirst(s: string, sep: char)
    ensures sep !in s ==> Split(s, sep)[0] == s
    ensures sep in s ==> Split(s, sep)[0] == s[..IndexOf(s, sep)]
  {
    if sep !in s {
      SplitWithoutSeparator(s, sep);
    } else {
      var i := IndexOf(s, sep);
      SliceAround(s, i);
      SplitConcat(s[..i], s[i + 1..], sep);
      SplitWithoutSeparator(s[..i], sep);
    }
  }

  /** The piece after the first separator is the first piece of the rest. */
  lemma SplitSecond(a: string, b: string, sep: char)
    requires sep !in a
    ensures |Split(a + [sep] + b, sep)| >= 2
    ensures Split(a + [sep] + b, sep)[1] == Split(b, sep)[0]
  {
    SplitConcat(a, b, sep);
    SplitWithoutSeparator(a, sep);
  }

  /** A separator-free prefix that ends at the end or at a separator is the first piece. */
  lemma SplitHead(a: string, b: string, sep: char)
    requires sep !in a
    requires b == [] || b[0] == sep
    ensures Split(a + b, sep)[0] == a
  {
    SplitWithoutSeparator(a, sep);
    if b == [] {
      assert a + b == a;
    } else {
      assert a + b == a + [sep] + b[1..];
      SplitConcat(a, b[1..], sep);
    }
  }

  /** There is one more piece than there are separators. */
  lemma {:induction false} SplitCount(s: string, sep: char)
    ensures |Split(s, sep)| == Count(s, sep) + 1
  {
    if s != [] {
      SplitCount(s[1..], sep);
    }
  }

  // ---------------------------------------------------------------------------
  // Trimming
  // ---------------------------------------------------------------------------

  /** How many `drop` characters `s` starts with. */
  function LeadingCount(s: string, drop: char -> bool): (n: nat)
    ensures n <= |s|
    decreases |s|
  {
    if s != [] && drop(s[0]) then 1 + LeadingCount(s[1..], drop) else 0
  }

  /** The leading count covers exactly the longest prefix of `drop` characters. */
  lemma {:induction false} LeadingCountSpec(s: string, drop: char -> bool)
    ensures var n := LeadingCount(s, drop);
      && (forall k :: 0 <= k < n ==> drop(s[k]))
      && (n == |s| || !drop(s[n]))
    decreases |s|
  {
    if s != [] && drop(s[0]) {
      LeadingCountSpec(s[1..], drop);
    }
  }

  /** How many `drop` characters `s` ends with. */
  function TrailingCount(s: string, drop: char -> bool): (n: nat)
    ensures n <= |s|
    decreases |s|
  {
    if s != [] && drop(s[|s| - 1]) then 1 + TrailingCount(s[..|s| - 1], drop) else 0
  }

  /** The trailing count covers exactly the longest suffix of `drop` characters. */
  lemma {:induction false} TrailingCountSpec(s: string, drop: char -> bool)
    ensures var n := TrailingCount(s, drop);
      && (forall k :: |s| - n <= k < |s| ==> drop(s[k]))
      && (n == |s| || !drop(s[|s| - n - 1]))
    decreases |s|
  {
    if s != [] && drop(s[|s| - 1]) {
      TrailingCountSpec(s[..|s| - 1], drop);
    }
  }

  /**
   * `r` is what is left of `s` once the longest prefix and the longest suffix of
   * `drop` characters are removed; this determines `r` uniquely.
   */
  ghost predicate IsTrimOf(r: string, s: string, drop: char -> bool) {
    exists i :: IsTrimAt(r, s, i, drop)
  }

  /** `r` is `s[i..i + |r|]`, and everything of `s` around it is `drop` characters. */
  predicate IsTrimAt(r: string, s: string, i: int, drop: char -> bool) {
    && 0 <= i <= |s| - |r|
    && r == s[i..i + |r|]
    && (forall k :: 0 <= k < i ==> drop(s[k]))
    && (forall k :: i + |r| <= k < |s| ==> drop(s[k]))
    && (r == [] || (!drop(r[0]) && !drop(r[|r| - 1])))
  }

  /** Both ends trimmed, as `trim` does for whitespace. */
  function Trim(s: string, drop: char -> bool): (r: string)
    ensures IsTrimOf(r, s, drop)
    ensures r == [] || (!drop(r[0]) && !drop(r[|r| - 1]))
    ensures (s == [] || (!drop(s[0]) && !drop(s[|s| - 1]))) ==> r == s
  {
    var i := LeadingCount(s, drop);
    var t := s[i..];
    var j := TrailingCount(t, drop);
    TrimAtCounts(s, drop);
    TrimUntouched(s, drop);
    t[..|t| - j]
  }

  /** The counted prefix and suffix are what `Trim` takes off. */
  lemma TrimAtCounts(s: string, drop: char -> bool)
    ensures var i := LeadingCount(s, drop); var t := s[i..];
      IsTrimAt(t[..|t| - TrailingCount(t, drop)], s, i, drop)
  {
    var i := LeadingCount(s, drop);
    var t := s[i..];
    var j := TrailingCount(t, drop);
    var r := t[..|t| - j];
    assert r == s[i..i + |r|];
    LeadingCountSpec(s, drop);
    TrailingOfSuffix(s, i, drop);
    TrimEdges(s, drop);
  }

  /** The trailing count of a suffix of `s` covers `drop` characters of `s`. */
  lemma TrailingOfSuffix(s: string, i: nat, drop: char -> bool)
    requires i <= |s|
    ensures var j := TrailingCount(s[i..], drop); forall k :: |s| - j <= k < |s| ==> drop(s[k])
  {
    var t := s[i..];
    TrailingCountSpec(t, drop);
    assert forall k :: i <= k < |s| ==> s[k] == t[k - i];
  }

  /** The characters at the two ends of what is left are kept ones. */
  lemma TrimEdges(s: string, drop: char -> bool)
    ensures var i := LeadingCount(s, drop); var t := s[i..]; var r := t[..|t| - TrailingCount(t, drop)];
      r == [] || (!drop(r[0]) && !drop(r[|r| - 1]))
  {
    var i := LeadingCount(s, drop);
    var t := s[i..];
    var j := TrailingCount(t, drop);
    LeadingCountSpec(s, drop);
    TrailingCountSpec(t, drop);
    assert |t| - j > 0 ==> t[..|t| - j][0] == t[0] && t[..|t| - j][|t| - j - 1] == t[|t| - j - 1];
  }

  /** Nothing is counted off a string whose ends are kept. */
  lemma TrimUntouched(s: string, drop: char -> bool)
    ensures (s == [] || (!drop(s[0]) && !drop(s[|s| - 1]))) ==>
      LeadingCount(s, drop) == 0 && TrailingCount(s, drop) == 0
  {
  }

  /** What trimming removes: a prefix and a suffix of `drop` characters. */
  lemma TrimParts(s: string, drop: char -> bool) returns (pre: string, post: string)
    ensures s == pre + Trim(s, drop) + post
    ensures forall k :: 0 <= k < |pre| ==> drop(pre[k])
    ensures forall k :: 0 <= k < |post| ==> drop(post[k])
  {
    var i := LeadingCount(s, drop);
    var t := s[i..];
    var j := TrailingCount(t, drop);
    pre, post := s[..i], t[|t| - j..];
    assert forall k :: 0 <= k < |pre| ==> drop(pre[k]) by {
      LeadingCountSpec(s, drop);
    }
    assert forall k :: 0 <= k < |post| ==> drop(post[k]) by {
      TrailingCountSpec(t, drop);
      assert forall k :: 0 <= k < |post| ==> post[k] == t[|t| - j + k];
    }
    assert s == pre + Trim(s, drop) + post by {
      assert Trim(s, drop) == t[..|t| - j];
      ThreeParts(s, i, j);
    }
  }

  lemma ThreeParts(s: string, i: nat, j: nat)
    requires i + j <= |s|
    ensures var t := s[i..]; s == s[..i] + t[..|t| - j] + t[|t| - j..]
  {
    var t := s[i..];
    assert t[..|t| - j] + t[|t| - j..] == t;
    assert s[..i] + t == s;
  }

  /** Trimming keeps only characters of `s`. */
  lemma TrimKeeps(s: string, drop: char -> bool, p: char -> bool)
    requires forall k :: 0 <= k < |s| ==> p(s[k])
    ensures var r := Trim(s, drop); forall k :: 0 <= k < |r| ==> p(r[k])
  {
    var i := LeadingCount(s, drop);
    var t := s[i..];
    assert forall k :: 0 <= k < |t| ==> t[k] == s[i + k];
  }

  /** `String.prototype.trim`. */
  function TrimWhitespace(s: string): (r: string)
    ensures IsTrimOf(r, s, IsJsWhitespace)
    ensures r == [] || (!IsJsWhitespace(r[0]) && !IsJsWhitespace(r[|r| - 1]))
    ensures (s == [] || (!IsJsWhitespace(s[0]) && !IsJsWhitespace(s[|s| - 1]))) ==> r == s
  {
    Trim(s, IsJsWhitespace)
  }

  /** Trailing whitespace, such as the newline a command prints, is trimmed away. */
  lemma TrimWhitespaceSuffix(s: string, t: string)
    requires s == [] || (!IsJsWhitespace(s[0]) && !IsJsWhitespace(s[|s| - 1]))
    requires forall k :: 0 <= k < |t| ==> IsJsWhitespace(t[k])
    ensures TrimWhitespace(s + t) == s
  {
    TrimSuffix(s, t, IsJsWhitespace);
  }

  /** A suffix of `drop` characters after a part that is already trimmed is removed. */
  lemma TrimSuffix(s: string, t: string, drop: char -> bool)
    requires s == [] || (!drop(s[0]) && !drop(s[|s| - 1]))
    requires forall k :: 0 <= k < |t| ==> drop(t[k])
    ensures Trim(s + t, drop) == s
  {
    if s == [] {
      assert s + t == t;
      LeadingAll(t, drop);
    } else {
      assert LeadingCount(s + t, drop) == 0 by {
        assert (s + t)[0] == s[0];
      }
      TrailingSuffix(s, t, drop);
      assert (s + t)[..|s|] == s;
    }
  }

  lemma {:induction false} LeadingAll(t: string, drop: char -> bool)
    requires forall k :: 0 <= k < |t| ==> drop(t[k])
    ensures LeadingCount(t, drop) == |t|
    decreases |t|
  {
    if t != [] {
      LeadingAll(t[1..], drop);
    }
  }

  lemma {:induction false} TrailingSuffix(s: string, t: string, drop: char -> bool)
    requires s == [] || !drop(s[|s| - 1])
    requires forall k :: 0 <= k < |t| ==> drop(t[k])
    ensures TrailingCount(s + t, drop) == |t|
    decreases |t|
  {
    if t == [] {
      assert s + t == s;
    } else {
      var t' := t[..|t| - 1];
      assert (s + t)[..|s + t| - 1] == s + t';
      TrailingSuffix(s, t', drop);
    }
  }

  // ---------------------------------------------------------------------------
  // filter
  // ---------------------------------------------------------------------------

  /**
   * `s.filter(keep)`: the elements that pass `keep`, in their order; when any pass,
   * the first that survives is the earliest element that passes.
   */
  function Filter<T(==)>(s: seq<T>, keep: T -> bool): (r: seq<T>)
    ensures |r| <= |s|
    ensures forall k :: 0 <= k < |r| ==> keep(r[k]) && r[k] in s
    ensures r == [] <==> forall k :: 0 <= k < |s| ==> !keep(s[k])
    decreases |s|
  {
    if s == [] then []
    else
      var rest := Filter(s[1..], keep);
      if keep(s[0]) then [s[0]] + rest else rest
  }

  /** The first element that survives is the earliest one that passes. */
  lemma {:induction false} FilterFirst<T>(s: seq<T>, keep: T -> bool, k: nat)
    requires k < |s| && keep(s[k])
    requires forall j :: 0 <= j < k ==> !keep(s[j])
    ensures Filter(s, keep) != [] && Filter(s, keep)[0] == s[k]
  {
    if k > 0 {
      FilterFirst(s[1..], keep, k - 1);
    }
  }

  lemma {:induction false} FilterConcat<T>(a: seq<T>, b: seq<T>, keep: T -> bool)
    ensures Filter(a + b, keep) == Filter(a, keep) + Filter(b, keep)
  {
    if a != [] {
      var ab := a + b;
      assert ab[0] == a[0] && ab[1..] == a[1..] + b;
      FilterConcat(a[1..], b, keep);
    } else {
      assert a + b == b;
    }
  }

  // ---------------------------------------------------------------------------
  // Searching and replacing
  // ---------------------------------------------------------------------------

  /** `s.indexOf(c)`: the first position of `c`, or -1. */
  function IndexOf(s: string, c: char): (i: int)
    ensures -1 <= i < |s|
    ensures i == -1 <==> c !in s
    ensures i >= 0 ==> s[i] == c && c !in s[..i]
    decreases |s|
  {
    if s == [] then -1
    else if s[0] == c then 0
    else
      var j := IndexOf(s[1..], c);
      assert j >= 0 ==> s[..j + 1] == [s[0]] + s[1..][..j];
      if j < 0 then -1 else j + 1
  }

  /** `s.replace(from, to)` with a one-character string pattern: only the first occurrence changes. */
  function ReplaceFirst(s: string, from: char, to: char): (r: string)
    ensures var i := IndexOf(s, from); r == if i < 0 then s else s[..i] + [to] + s[i + 1..]
    decreases |s|
  {
    if s == [] then []
    else if s[0] == from then [to] + s[1..]
    else
      var rest := ReplaceFirst(s[1..], from, to);
      var j := IndexOf(s[1..], from);
      if j < 0 then [s[0]] + rest
      else
        ConsAround(s, j, to);
        [s[0]] + rest
  }

  /** Putting `s[0]` back in front of a change at `j` in `s[1..]` is a change at `j + 1` in `s`. */
  lemma ConsAround(s: string, j: nat, x: char)
    requires j + 1 < |s|
    ensures [s[0]] + (s[1..][..j] + [x] + s[1..][j + 1..]) == s[..j + 1] + [x] + s[j + 2..]
  {
    assert s[..j + 1] == [s[0]] + s[1..][..j];
    assert s[j + 2..] == s[1..][j + 1..];
  }

  /** Replacing the first occurrence changes exactly that character. */
  lemma ReplaceFirstAt(a: string, from: char, to: char, b: string)
    requires from !in a
    ensures ReplaceFirst(a + [from] + b, from, to) == a + [to] + b
  {
    IndexOfSeparator(a, from, b);
    SliceAroundParts(a, from, b);
  }

  /** The first `c` in `a + [c] + b`, when `a` has none, is at `|a|`. */
  lemma IndexOfSeparator(a: string, c: char, b: string)
    requires c !in a
    ensures IndexOf(a + [c] + b, c) == |a|
  {
    assert a + [c] + b == a + ([c] + b);
    IndexOfAfter(a, c, [c] + b);
  }

  /** The pieces on either side of position `|a|` in `a + [x] + b`. */
  lemma SliceAroundParts(a: string, x: char, b: string)
    ensures (a + [x] + b)[..|a|] == a && (a + [x] + b)[|a| + 1..] == b
  {
  }

  /** `s` is its prefix before `i`, the element at `i`, and the rest. */
  lemma SliceAround(s: string, i: nat)
    requires i < |s|
    ensures s == s[..i] + [s[i]] + s[i + 1..]
  {
  }

  /** The first occurrence of `c` in `a + b` is where `b` starts, when `a` has none and `b` starts with it. */
  lemma IndexOfAfter(a: string, c: char, b: string)
    requires c !in a && b != [] && b[0] == c
    ensures IndexOf(a + b, c) == |a|
  {
    var s := a + b;
    assert s[|a|] == c;
    assert forall j :: 0 <= j < |a| ==> s[j] == a[j];
  }

  /** `s.includes(t)`: `t` is a prefix of some suffix of `s`. */
  predicate Includes(s: string, t: string): (b: bool)
    ensures b <==> exists i :: OccursAt(s, t, i)
  {
    assert forall i :: 0 <= i <= |s| - |t| ==> (t <= s[i..] <==> OccursAt(s, t, i)) by {
      forall i | 0 <= i <= |s| - |t| ensures t <= s[i..] <==> OccursAt(s, t, i) {
        assert s[i..][..|t|] == s[i..i + |t|];
      }
    }
    exists i :: 0 <= i <= |s| - |t| && t <= s[i..]
  }

  /** `t` occurs in `s` starting at `i`. */
  predicate OccursAt(s: string, t: string, i: int) {
    0 <= i <= |s| - |t| && s[i..i + |t|] == t
  }

  /** A string includes itself wherever it is placed. */
  lemma IncludesInfix(a: string, t: string, b: string)
    ensures Includes(a + t + b, t)
  {
    var s := a + t + b;
    assert OccursAt(s, t, |a|);
  }
}
