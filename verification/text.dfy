/** String and character helpers that stand in for the .NET string API the
    toolkit relies on: char.IsWhiteSpace, String.Trim, ToUpperInvariant,
    IndexOf / LastIndexOf, ordinal String.Replace, the regular expression
    `\s+` replaced by one space, and decimal formatting of integers. */
module Text {

  /** Environment.NewLine on the .NET Framework under Windows. */
  const NewLine := "\r\n"

  /** char.IsWhiteSpace, which is also the set the regular-expression class
      `\s` matches: the ASCII controls TAB..CR, SPACE, NEL, NBSP and the
      Unicode space separators. */
  predicate IsWhiteSpace(c: char) {
    || ('\t' <= c <= '\r') || c == ' ' || c == '\U{0085}' || c == '\U{00A0}'
    || c == '\U{1680}' || ('\U{2000}' <= c <= '\U{200A}') || c == '\U{2028}'
    || c == '\U{2029}' || c == '\U{202F}' || c == '\U{205F}' || c == '\U{3000}'
  }

  /** string.IsNullOrWhiteSpace on a non-null string. */
  predicate IsBlank(s: string) {
    forall i :: 0 <= i < |s| ==> IsWhiteSpace(s[i])
  }

  /** Upper-casing of the ASCII letters; every other character is unchanged. */
  function ToUpperChar(c: char): (r: char)
    ensures 'a' <= c <= 'z' ==> r as int == c as int - 32
    ensures !('a' <= c <= 'z') ==> r == c
  {
    if 'a' <= c <= 'z' then (c as int - 32) as char else c
  }

  function ToUpper(s: string): (r: string)
    ensures |r| == |s|
    ensures forall i :: 0 <= i < |s| ==> r[i] == ToUpperChar(s[i])
  {
    if s == [] then [] else [ToUpperChar(s[0])] + ToUpper(s[1..])
  }

  // ---------------------------------------------------------------- Trim

  /** The number of whitespace characters at the start of `s`. */
  function LeadingWhiteSpace(s: string): (n: nat)
    ensures n <= |s|
    ensures forall i :: 0 <= i < n ==> IsWhiteSpace(s[i])
    ensures n < |s| ==> !IsWhiteSpace(s[n])
  {
    if |s| > 0 && IsWhiteSpace(s[0]) then 1 + LeadingWhiteSpace(s[1..]) else 0
  }

  /** The length of `s` without the whitespace at its end. */
  function TrimmedLength(s: string): (n: nat)
    ensures n <= |s|
    ensures forall i :: n <= i < |s| ==> IsWhiteSpace(s[i])
    ensures n > 0 ==> !IsWhiteSpace(s[n - 1])
  {
    if |s| > 0 && IsWhiteSpace(s[|s| - 1]) then TrimmedLength(s[..|s| - 1]) else |s|
  }

  /** String.Trim(): the slice of `s` left after removing the whitespace at
      both ends; it starts after the leading whitespace and everything after
      it is whitespace. */
  function Trim(s: string): (r: string)
    ensures r == [] || (!IsWhiteSpace(r[0]) && !IsWhiteSpace(r[|r| - 1]))
    ensures LeadingWhiteSpace(s) + |r| <= |s|
    ensures r == s[LeadingWhiteSpace(s)..LeadingWhiteSpace(s) + |r|]
    ensures forall i :: LeadingWhiteSpace(s) + |r| <= i < |s| ==> IsWhiteSpace(s[i])
  {
    var a := LeadingWhiteSpace(s);
    if a == |s| then [] else s[a..TrimmedLength(s)]
  }

  lemma TrimBlank(s: string)
    ensures Trim(s) == [] <==> IsBlank(s)
  {
    if Trim(s) != [] {
      assert s[LeadingWhiteSpace(s)] == Trim(s)[0];
    }
  }

  // ------------------------------------------------------------- Searching

  /** String.IndexOf(char): the first position of `c`, or -1. */
  function IndexOf(s: string, c: char): (r: int)
    ensures -1 <= r < |s|
    ensures r == -1 <==> c !in s
    ensures r >= 0 ==> s[r] == c && c !in s[..r]
  {
    if s == [] then -1
    else if s[0] == c then 0
    else
      var k := IndexOf(s[1..], c);
      assert s[1..] == s[..][1..];
      if k == -1 then -1
      else
        assert s[..k + 1] == [s[0]] + s[1..][..k];
        k + 1
  }

  /** String.LastIndexOf(char): the last position of `c`, or -1. */
  function LastIndexOf(s: string, c: char): (r: int)
    ensures -1 <= r < |s|
    ensures r == -1 <==> c !in s
    ensures r >= 0 ==> s[r] == c && c !in s[r + 1..]
  {
    if s == [] then -1
    else if s[|s| - 1] == c then |s| - 1
    else
      var k := LastIndexOf(s[..|s| - 1], c);
      assert s == s[..|s| - 1] + [s[|s| - 1]];
      if k >= 0 then
        assert s[k + 1..] == s[..|s| - 1][k + 1..] + [s[|s| - 1]];
        k
      else k
  }

  /** `sub` occurs in `s` starting at position `i`. */
  predicate OccursAt(s: string, sub: string, i: int) {
    0 <= i && i + |sub| <= |s| && s[i..i + |sub|] == sub
  }

  predicate ContainsString(s: string, sub: string) {
    exists i | 0 <= i <= |s| - |sub| :: OccursAt(s, sub, i)
  }

  // --------------------------------------------------------------- Replace

  /** Ordinal String.Replace(oldValue, newValue): every occurrence of `pat`,
      scanned left to right without overlap, becomes `rep`. .NET throws on an
      empty `oldValue`, hence the precondition. */
  function ReplaceAll(s: string, pat: string, rep: string): string
    requires |pat| > 0
    decreases |s|
  {
    if |s| < |pat| then s
    else if s[..|pat|] == pat then rep + ReplaceAll(s[|pat|..], pat, rep)
    else [s[0]] + ReplaceAll(s[1..], pat, rep)
  }

  /** Every character of the result comes from the input or from the
      replacement. */
  lemma {:induction false} ReplaceAllChars(s: string, pat: string, rep: string)
    requires |pat| > 0
    ensures forall d :: d in ReplaceAll(s, pat, rep) ==> d in s || d in rep
    decreases |s|
  {
    if |s| >= |pat| {
      if s[..|pat|] == pat {
        ReplaceAllChars(s[|pat|..], pat, rep);
        assert forall d :: d in s[|pat|..] ==> d in s;
      } else {
        ReplaceAllChars(s[1..], pat, rep);
        assert forall d :: d in s[1..] ==> d in s;
      }
    }
  }

  /** Each occurrence of the character `c` becomes `rep`. */
  function ReplaceChar(s: string, c: char, rep: string): (r: string)
    ensures c !in rep ==> c !in r
    ensures forall d :: d in r ==> d in rep || (d in s && d != c)
  {
    if s == [] then [] else (if s[0] == c then rep else [s[0]]) + ReplaceChar(s[1..], c, rep)
  }

  lemma {:induction false} ReplaceCharAppend(a: string, b: string, c: char, rep: string)
    ensures ReplaceChar(a + b, c, rep) == ReplaceChar(a, c, rep) + ReplaceChar(b, c, rep)
  {
    if a != [] {
      assert (a + b)[0] == a[0] && (a + b)[1..] == a[1..] + b;
      ReplaceCharAppend(a[1..], b, c, rep);
    } else {
      assert a + b == b;
    }
  }

  lemma {:induction false} ReplaceCharAbsent(s: string, c: char, rep: string)
    requires c !in s
    ensures ReplaceChar(s, c, rep) == s
  {
    if s != [] {
      ReplaceCharAbsent(s[1..], c, rep);
    }
  }

  /** A one-character `oldValue` makes String.Replace a per-character map. */
  lemma {:induction false} ReplaceSingleChar(s: string, c: char, rep: string)
    ensures ReplaceAll(s, [c], rep) == ReplaceChar(s, c, rep)
    decreases |s|
  {
    if s != [] {
      ReplaceSingleChar(s[1..], c, rep);
      if s[..1] == [c] {
        assert s[0] == c;
      } else {
        assert s[0] != c;
      }
    }
  }

  /** Replacing a pattern that does not occur leaves the string unchanged. */
  lemma {:induction false} ReplaceAllAbsent(s: string, pat: string, rep: string)
    requires |pat| > 0
    requires !ContainsString(s, pat)
    ensures ReplaceAll(s, pat, rep) == s
    decreases |s|
  {
    if |s| >= |pat| {
      assert !OccursAt(s, pat, 0);
      assert s[..|pat|] != pat;
      forall i | OccursAt(s[1..], pat, i) ensures false {
        assert s[1..][i..i + |pat|] == s[i + 1..i + 1 + |pat|];
        assert OccursAt(s, pat, i + 1);
      }
      ReplaceAllAbsent(s[1..], pat, rep);
    }
  }

  // ------------------------------------------------- Whitespace collapsing

  /** The characters of `s` that are not whitespace, in order. */
  function NonWhiteSpace(s: string): string {
    if s == [] then [] else (if IsWhiteSpace(s[0]) then [] else [s[0]]) + NonWhiteSpace(s[1..])
  }

  /** No two adjacent whitespace characters, and every whitespace character
      is a plain space. */
  predicate Collapsed(s: string) {
    && (forall i :: 0 <= i < |s| && IsWhiteSpace(s[i]) ==> s[i] == ' ')
    && (forall i, j :: 0 <= i < |s| && j == i + 1 && j < |s| && IsWhiteSpace(s[i]) ==> !IsWhiteSpace(s[j]))
  }

  lemma {:induction false} NonWhiteSpaceOfBlank(s: string)
    requires IsBlank(s)
    ensures NonWhiteSpace(s) == []
  {
    if s != [] {
      NonWhiteSpaceOfBlank(s[1..]);
    }
  }

  lemma {:induction false} NonWhiteSpaceAppend(a: string, b: string)
    ensures NonWhiteSpace(a + b) == NonWhiteSpace(a) + NonWhiteSpace(b)
  {
    if a != [] {
      assert (a + b)[0] == a[0] && (a + b)[1..] == a[1..] + b;
      NonWhiteSpaceAppend(a[1..], b);
    } else {
      assert a + b == b;
    }
  }

  lemma CollapsedCons(c: char, tail: string)
    requires Collapsed(tail)
    requires IsWhiteSpace(c) ==> c == ' ' && (tail == [] || !IsWhiteSpace(tail[0]))
    ensures Collapsed([c] + tail)
  {
    var s := [c] + tail;
    forall i, j | 0 <= i < |s| && j == i + 1 && j < |s| && IsWhiteSpace(s[i]) ensures !IsWhiteSpace(s[j]) {
      assert s[j] == tail[j - 1];
      if i > 0 {
        assert s[i] == tail[i - 1];
      }
    }
    forall i | 0 <= i < |s| && IsWhiteSpace(s[i]) ensures s[i] == ' ' {
      if i > 0 {
        assert s[i] == tail[i - 1];
      }
    }
  }

  /** `r` is `s` with its whitespace runs collapsed: collapsed itself, the
      same characters besides whitespace, empty together, and starting and
      ending with whitespace together. */
  predicate CollapsedFrom(s: string, r: string) {
    && Collapsed(r)
    && NonWhiteSpace(r) == NonWhiteSpace(s)
    && (r == [] <==> s == [])
    && (r != [] ==> (IsWhiteSpace(r[0]) <==> IsWhiteSpace(s[0])))
    && (r != [] ==> (IsWhiteSpace(r[|r| - 1]) <==> IsWhiteSpace(s[|s| - 1])))
  }

  /** The regular expression `\s+` replaced by a single space. */
  function CollapseWhiteSpace(s: string): (r: string)
    ensures Collapsed(r)
    ensures NonWhiteSpace(r) == NonWhiteSpace(s)
    ensures r == [] <==> s == []
    ensures r != [] ==> (IsWhiteSpace(r[0]) <==> IsWhiteSpace(s[0]))
    ensures r != [] ==> (IsWhiteSpace(r[|r| - 1]) <==> IsWhiteSpace(s[|s| - 1]))
    decreases |s|
  {
    if s == [] then []
    else if IsWhiteSpace(s[0]) then
      var k := LeadingWhiteSpace(s);
      var tail := CollapseWhiteSpace(s[k..]);
      assert CollapsedFrom(s[k..], tail);
      CollapseBlankStep(s, k, tail);
      " " + tail
    else
      var tail := CollapseWhiteSpace(s[1..]);
      assert CollapsedFrom(s[1..], tail);
      CollapseWordStep(s, tail);
      [s[0]] + tail
  }

  /** A run of leading whitespace becomes one space in front of the
      collapsed rest. */
  lemma CollapseBlankStep(s: string, k: nat, tail: string)
    requires 0 < k <= |s| && IsBlank(s[..k]) && (k < |s| ==> !IsWhiteSpace(s[k]))
    requires CollapsedFrom(s[k..], tail)
    ensures CollapsedFrom(s, " " + tail)
  {
    var t := s[k..];
    assert s == s[..k] + t;
    NonWhiteSpaceOfBlank(s[..k]);
    NonWhiteSpaceAppend(s[..k], t);
    NonWhiteSpaceAppend(" ", tail);
    CollapsedCons(' ', tail);
    assert t != [] ==> s[|s| - 1] == t[|t| - 1];
  }

  /** A character that is not whitespace is kept in front of the collapsed
      rest. */
  lemma CollapseWordStep(s: string, tail: string)
    requires s != [] && !IsWhiteSpace(s[0])
    requires CollapsedFrom(s[1..], tail)
    ensures CollapsedFrom(s, [s[0]] + tail)
  {
    assert s == [s[0]] + s[1..];
    NonWhiteSpaceAppend([s[0]], s[1..]);
    NonWhiteSpaceAppend([s[0]], tail);
    CollapsedCons(s[0], tail);
  }

  /** A slice of a collapsed text is collapsed. */
  lemma CollapsedSlice(s: string, a: nat, b: nat)
    requires Collapsed(s) && a <= b <= |s|
    ensures Collapsed(s[a..b])
  {
    var t := s[a..b];
    forall i, j | 0 <= i && j == i + 1 && j < |t| && IsWhiteSpace(t[i]) ensures !IsWhiteSpace(t[j]) {
      assert t[i] == s[a + i] && t[j] == s[a + j];
    }
  }

  /** Trimming removes whitespace only. */
  lemma TrimKeepsNonWhiteSpace(s: string)
    ensures NonWhiteSpace(Trim(s)) == NonWhiteSpace(s)
  {
    var r := Trim(s);
    var a := LeadingWhiteSpace(s);
    var b := a + |r|;
    assert s == s[..a] + r + s[b..];
    assert IsBlank(s[..a]);
    assert IsBlank(s[b..]) by {
      forall i | 0 <= i < |s| - b ensures IsWhiteSpace(s[b..][i]) {
        assert s[b..][i] == s[b + i];
      }
    }
    NonWhiteSpaceAppend(s[..a] + r, s[b..]);
    NonWhiteSpaceAppend(s[..a], r);
    NonWhiteSpaceOfBlank(s[..a]);
    NonWhiteSpaceOfBlank(s[b..]);
  }

  /** REGEX_WHITESPACE.Replace(s, " ").Trim(): single spaces between the
      words of `s`, none at either end. */
  function CleanWhiteSpace(s: string): (r: string)
    ensures Collapsed(r)
    ensures r == [] || (!IsWhiteSpace(r[0]) && !IsWhiteSpace(r[|r| - 1]))
    ensures NonWhiteSpace(r) == NonWhiteSpace(s)
    ensures r == [] <==> IsBlank(s)
  {
    CleanWhiteSpaceFacts(s);
    Trim(CollapseWhiteSpace(s))
  }

  lemma CleanWhiteSpaceFacts(s: string)
    ensures var r := Trim(CollapseWhiteSpace(s));
      && Collapsed(r)
      && NonWhiteSpace(r) == NonWhiteSpace(s)
      && (r == [] <==> IsBlank(s))
  {
    var c := CollapseWhiteSpace(s);
    TrimCollapsed(c);
    TrimKeepsNonWhiteSpace(c);
    TrimBlank(c);
    BlankIffNoNonWhiteSpace(c);
    BlankIffNoNonWhiteSpace(s);
  }

  lemma TrimCollapsed(c: string)
    requires Collapsed(c)
    ensures Collapsed(Trim(c))
  {
    var a := LeadingWhiteSpace(c);
    CollapsedSlice(c, a, a + |Trim(c)|);
  }

  lemma {:induction false} BlankIffNoNonWhiteSpace(s: string)
    ensures IsBlank(s) <==> NonWhiteSpace(s) == []
  {
    if s != [] {
      BlankIffNoNonWhiteSpace(s[1..]);
      if IsBlank(s[1..]) && IsWhiteSpace(s[0]) {
        forall i | 0 <= i < |s| ensures IsWhiteSpace(s[i]) {
          if i > 0 {
            assert s[i] == s[1..][i - 1];
          }
        }
      }
      if IsBlank(s) {
        forall i | 0 <= i < |s| - 1 ensures IsWhiteSpace(s[1..][i]) {
          assert s[1..][i] == s[i + 1];
        }
      }
    }
  }

  /** LeadingWhiteSpace is the index of the first character that is not
      whitespace. */
  lemma LeadingWhiteSpaceIs(s: string, k: nat)
    requires k <= |s| && (forall i :: 0 <= i < k ==> IsWhiteSpace(s[i])) && (k < |s| ==> !IsWhiteSpace(s[k]))
    ensures LeadingWhiteSpace(s) == k
  {
  }

  /** TrimmedLength is the index after the last character that is not
      whitespace. */
  lemma TrimmedLengthIs(s: string, k: nat)
    requires k <= |s| && (forall i :: k <= i < |s| ==> IsWhiteSpace(s[i])) && (k > 0 ==> !IsWhiteSpace(s[k - 1]))
    ensures TrimmedLength(s) == k
  {
  }

  /** Text without whitespace is left as it is. */
  lemma {:induction false} CollapseWord(s: string)
    requires forall i :: 0 <= i < |s| ==> !IsWhiteSpace(s[i])
    ensures CollapseWhiteSpace(s) == s
  {
    if s != [] {
      CollapseWord(s[1..]);
      assert s == [s[0]] + s[1..];
    }
  }

  /** An interior run of whitespace, between two words or at one end,
      becomes exactly one space, and the text on either side is collapsed
      on its own. */
  lemma {:induction false} CollapseJoin(u: string, w: string, v: string)
    requires w != [] && IsBlank(w)
    requires u == [] || !IsWhiteSpace(u[|u| - 1])
    requires v == [] || !IsWhiteSpace(v[0])
    ensures CollapseWhiteSpace(u + w + v) == CollapseWhiteSpace(u) + " " + CollapseWhiteSpace(v)
    decreases |u|, 1
  {
    if u == [] {
      assert u + w + v == w + v;
      CollapseJoinEmpty(w, v);
    } else if IsWhiteSpace(u[0]) {
      CollapseJoinBlank(u, w, v);
    } else {
      CollapseJoinWord(u, w, v);
    }
  }

  /** CollapseJoin with nothing before the run. */
  lemma CollapseJoinEmpty(w: string, v: string)
    requires w != [] && IsBlank(w)
    requires v == [] || !IsWhiteSpace(v[0])
    ensures CollapseWhiteSpace(w + v) == " " + CollapseWhiteSpace(v)
  {
    var s := w + v;
    LeadingWhiteSpaceIs(s, |w|);
    assert s[|w|..] == v;
    CollapseBlankUnfold(s);
  }

  /** CollapseJoin when the text before the run starts with whitespace. */
  lemma {:induction false} CollapseJoinBlank(u: string, w: string, v: string)
    requires w != [] && IsBlank(w)
    requires u != [] && IsWhiteSpace(u[0]) && !IsWhiteSpace(u[|u| - 1])
    requires v == [] || !IsWhiteSpace(v[0])
    ensures CollapseWhiteSpace(u + w + v) == CollapseWhiteSpace(u) + " " + CollapseWhiteSpace(v)
    decreases |u|, 0
  {
    var s := u + w + v;
    var k := LeadingWhiteSpace(u);
    JoinLeading(u, w, v);
    var t := u[k..];
    DropOfJoin(u, w, v, k);
    calc {
      CollapseWhiteSpace(s);
      { CollapseBlankUnfold(s); }
      " " + CollapseWhiteSpace(t + w + v);
      { CollapseJoin(t, w, v); }
      " " + (CollapseWhiteSpace(t) + " " + CollapseWhiteSpace(v));
      { Associativity(" ", CollapseWhiteSpace(t), " ", CollapseWhiteSpace(v)); }
      " " + CollapseWhiteSpace(t) + " " + CollapseWhiteSpace(v);
      { CollapseBlankUnfold(u); }
      CollapseWhiteSpace(u) + " " + CollapseWhiteSpace(v);
    }
  }

  lemma DropOfJoin(u: string, w: string, v: string, k: nat)
    requires k <= |u|
    ensures (u + w + v)[k..] == u[k..] + w + v
  {
  }

  /** CollapseJoin when the text before the run starts with a word. */
  lemma {:induction false} CollapseJoinWord(u: string, w: string, v: string)
    requires w != [] && IsBlank(w)
    requires u != [] && !IsWhiteSpace(u[0]) && !IsWhiteSpace(u[|u| - 1])
    requires v == [] || !IsWhiteSpace(v[0])
    ensures CollapseWhiteSpace(u + w + v) == CollapseWhiteSpace(u) + " " + CollapseWhiteSpace(v)
    decreases |u|, 0
  {
    var s := u + w + v;
    var t := u[1..];
    assert s[0] == u[0] && s[1..] == t + w + v;
    calc {
      CollapseWhiteSpace(s);
      { CollapseWordUnfold(s); }
      [u[0]] + CollapseWhiteSpace(t + w + v);
      { CollapseJoin(t, w, v); }
      [u[0]] + (CollapseWhiteSpace(t) + " " + CollapseWhiteSpace(v));
      { Associativity([u[0]], CollapseWhiteSpace(t), " ", CollapseWhiteSpace(v)); }
      [u[0]] + CollapseWhiteSpace(t) + " " + CollapseWhiteSpace(v);
      { CollapseWordUnfold(u); }
      CollapseWhiteSpace(u) + " " + CollapseWhiteSpace(v);
    }
  }

  lemma CollapseBlankUnfold(s: string)
    requires s != [] && IsWhiteSpace(s[0])
    ensures CollapseWhiteSpace(s) == " " + CollapseWhiteSpace(s[LeadingWhiteSpace(s)..])
  {
  }

  lemma CollapseWordUnfold(s: string)
    requires s != [] && !IsWhiteSpace(s[0])
    ensures CollapseWhiteSpace(s) == [s[0]] + CollapseWhiteSpace(s[1..])
  {
  }

  /** Trimming text whose inner ends are words keeps the middle whole. */
  lemma TrimJoin(x: string, mid: string, y: string)
    requires x != [] && !IsWhiteSpace(x[|x| - 1])
    requires y != [] && !IsWhiteSpace(y[0])
    ensures Trim(x + mid + y) == Trim(x) + mid + Trim(y)
  {
    TrimJoinSlice(x, mid, y);
    TrimEnds(x, y);
  }

  /** The trimmed join is a slice from the first word of `x` to the last
      word of `y`. */
  lemma TrimJoinSlice(x: string, mid: string, y: string)
    requires x != [] && !IsWhiteSpace(x[|x| - 1])
    requires y != [] && !IsWhiteSpace(y[0])
    ensures LeadingWhiteSpace(x) <= |x| && TrimmedLength(y) <= |y|
    ensures Trim(x + mid + y) == x[LeadingWhiteSpace(x)..|x|] + mid + y[0..TrimmedLength(y)]
  {
    var a := LeadingWhiteSpace(x);
    var b := TrimmedLength(y);
    JoinLeading(x, mid, y);
    JoinTrailing(x, mid, y);
    TrimIs(x + mid + y, a, |x| + |mid| + b);
    SliceOfJoin(x, mid, y, a, b);
  }

  /** Trimming text that ends (or starts) with a word cuts nothing at that
      end. */
  lemma TrimEnds(x: string, y: string)
    requires x != [] && !IsWhiteSpace(x[|x| - 1])
    requires y != [] && !IsWhiteSpace(y[0])
    ensures LeadingWhiteSpace(x) <= |x| && TrimmedLength(y) <= |y|
    ensures Trim(x) == x[LeadingWhiteSpace(x)..|x|]
    ensures Trim(y) == y[0..TrimmedLength(y)]
  {
    TrimmedLengthIs(x, |x|);
    TrimIs(x, LeadingWhiteSpace(x), |x|);
    LeadingWhiteSpaceIs(y, 0);
    TrimIs(y, 0, TrimmedLength(y));
  }

  lemma TrimIs(s: string, a: nat, b: nat)
    requires a == LeadingWhiteSpace(s) < |s| && b == TrimmedLength(s)
    ensures a <= b <= |s| && Trim(s) == s[a..b]
  {
  }

  lemma SliceOfJoin(x: string, mid: string, y: string, a: nat, b: nat)
    requires a <= |x| && b <= |y|
    ensures (x + mid + y)[a..|x| + |mid| + b] == x[a..|x|] + mid + y[0..b]
  {
    var s := x + mid + y;
    var m := |x| + |mid|;
    assert s[a..m + b] == s[a..|x|] + s[|x|..m] + s[m..m + b];
    assert s[a..|x|] == x[a..|x|];
    assert s[|x|..m] == mid;
    assert s[m..m + b] == y[0..b];
  }

  /** Where the whitespace at the front of a join stops. */
  lemma JoinLeading(x: string, mid: string, y: string)
    requires x != [] && !IsWhiteSpace(x[|x| - 1])
    ensures LeadingWhiteSpace(x + mid + y) == LeadingWhiteSpace(x) < |x|
  {
    var s := x + mid + y;
    assert forall i :: 0 <= i < |x| ==> s[i] == x[i];
    LeadingWhiteSpaceIs(s, LeadingWhiteSpace(x));
  }

  /** Where the whitespace at the back of a join starts. */
  lemma JoinTrailing(x: string, mid: string, y: string)
    requires y != [] && !IsWhiteSpace(y[0])
    ensures 0 < TrimmedLength(y)
    ensures TrimmedLength(x + mid + y) == |x| + |mid| + TrimmedLength(y)
  {
    var s := x + mid + y;
    assert forall i :: 0 <= i < |y| ==> s[|x| + |mid| + i] == y[i];
    TrimmedLengthIs(s, |x| + |mid| + TrimmedLength(y));
  }

  /** CleanWhiteSpace treats an interior run of whitespace between two
      words as one space and cleans the text on either side on its own. */
  lemma CleanJoin(u: string, w: string, v: string)
    requires w != [] && IsBlank(w)
    requires u != [] && !IsWhiteSpace(u[|u| - 1])
    requires v != [] && !IsWhiteSpace(v[0])
    ensures CleanWhiteSpace(u + w + v) == CleanWhiteSpace(u) + " " + CleanWhiteSpace(v)
  {
    CollapseJoin(u, w, v);
    TrimJoin(CollapseWhiteSpace(u), " ", CollapseWhiteSpace(v));
  }

  // ------------------------------------------------------ Integer to text

  function DigitChar(d: nat): (c: char)
    requires d < 10
    ensures '0' <= c <= '9' && c as int - '0' as int == d
  {
    ('0' as int + d) as char
  }

  /** The decimal digits of `n`, most significant first, without leading zeros. */
  function NatToString(n: nat): (r: string)
    ensures |r| >= 1
    ensures forall i :: 0 <= i < |r| ==> '0' <= r[i] <= '9'
    ensures n >= 10 ==> |r| >= 2
  {
    if n < 10 then [DigitChar(n)] else NatToString(n / 10) + [DigitChar(n % 10)]
  }

  lemma {:induction false} NatToStringInjective(a: nat, b: nat)
    requires NatToString(a) == NatToString(b)
    ensures a == b
  {
    if a >= 10 && b >= 10 {
      var sa, sb := NatToString(a), NatToString(b);
      assert sa[|sa| - 1] == sb[|sb| - 1];
      assert a % 10 == b % 10;
      assert sa[..|sa| - 1] == NatToString(a / 10);
      assert sb[..|sb| - 1] == NatToString(b / 10);
      NatToStringInjective(a / 10, b / 10);
    }
  }

  /** Int32.ToString() in the invariant culture. */
  function IntToString(i: int): (r: string)
    ensures i < 0 <==> (r != [] && r[0] == '-')
  {
    if i < 0 then "-" + NatToString(-i) else NatToString(i)
  }

  // ------------------------------------------------------------- Concatenation

  lemma Associativity3(a: string, b: string, c: string)
    ensures a + b + c == a + (b + c)
  {
  }

  lemma Associativity(a: string, b: string, c: string, d: string)
    ensures a + b + c + d == a + (b + c + d)
  {
  }
}
