/** The .NET string primitives the worker's configuration code relies on
    (`string.IsNullOrWhiteSpace`, `Trim`, `Split`, ordinal case-insensitive
    comparison and `ToLowerInvariant`), over `seq<char>`. The worker never
    calls `string.Join`; `Join` is modelled only as the inverse that
    `JoinSplit` and `SplitJoin` are stated with. A C# `string?` is an
    `Option<string>`. */
module Text {

  datatype Option<+T> = None | Some(value: T)

  /** `Char.IsWhiteSpace`: the characters with the Unicode White_Space property. */
  predicate IsWhiteSpace(c: char) {
    || ('\U{9}' <= c <= '\U{D}')
    || c == ' ' || c == '\U{85}' || c == '\U{A0}' || c == '\U{1680}'
    || ('\U{2000}' <= c <= '\U{200A}')
    || c == '\U{2028}' || c == '\U{2029}' || c == '\U{202F}' || c == '\U{205F}' || c == '\U{3000}'
  }

  /** The same 25 characters, listed one by one. */
  const WhiteSpaceChars: set<char> := {
    '\U{9}', '\U{A}', '\U{B}', '\U{C}', '\U{D}', ' ', '\U{85}', '\U{A0}', '\U{1680}',
    '\U{2000}', '\U{2001}', '\U{2002}', '\U{2003}', '\U{2004}', '\U{2005}', '\U{2006}',
    '\U{2007}', '\U{2008}', '\U{2009}', '\U{200A}',
    '\U{2028}', '\U{2029}', '\U{202F}', '\U{205F}', '\U{3000}'
  }

  /** The ranges of IsWhiteSpace cover exactly the listed characters. */
  lemma WhiteSpaceListed(c: char)
    ensures IsWhiteSpace(c) <==> c in WhiteSpaceChars
  {
  }

  /** Every character is white space (true of the empty string). */
  predicate IsBlank(s: string) {
    forall i :: 0 <= i < |s| ==> IsWhiteSpace(s[i])
  }

  /** `string.IsNullOrWhiteSpace`. */
  predicate IsNullOrWhiteSpace(s: Option<string>) {
    s.None? || IsBlank(s.value)
  }

  /** A string is null or white space exactly when it is null or trims to nothing. */
  lemma NullOrWhiteSpaceTrims(s: Option<string>)
    ensures IsNullOrWhiteSpace(s) <==> s.None? || Trim(s.value) == []
  {
  }

  /** Neither end of `s` is white space. */
  predicate IsTrimmed(s: string) {
    s == [] || (!IsWhiteSpace(s[0]) && !IsWhiteSpace(s[|s| - 1]))
  }

  /** The index of the first character at or after `i` that is not white
      space, or `|s|` when there is none. */
  function SkipWhite(s: string, i: nat): (j: nat)
    requires i <= |s|
    ensures i <= j <= |s|
    ensures forall k :: i <= k < j ==> IsWhiteSpace(s[k])
    ensures j < |s| ==> !IsWhiteSpace(s[j])
    decreases |s| - i
  {
    if i < |s| && IsWhiteSpace(s[i]) then SkipWhite(s, i + 1) else i
  }

  /** The index just after the last character before `j` that is not white
      space, or `lo` when there is none from `lo` on. */
  function SkipWhiteBack(s: string, lo: nat, j: nat): (e: nat)
    requires lo <= j <= |s|
    ensures lo <= e <= j
    ensures forall k :: e <= k < j ==> IsWhiteSpace(s[k])
    ensures e > lo ==> !IsWhiteSpace(s[e - 1])
    decreases j
  {
    if j > lo && IsWhiteSpace(s[j - 1]) then SkipWhiteBack(s, lo, j - 1) else j
  }

  /** `Trim()`: drops white space at both ends and nothing else. */
  function Trim(s: string): (r: string)
    ensures IsTrimmed(r)
    ensures r == [] <==> IsBlank(s)
    ensures |r| <= |s|
  {
    var i := SkipWhite(s, 0);
    var e := SkipWhiteBack(s, i, |s|);
    assert e == i ==> forall k :: 0 <= k < |s| ==> (k < i || i <= k) && IsWhiteSpace(s[k]);
    s[i..e]
  }

  /** The forward scan stops exactly at the end of a white run followed by a
      character that is not white space. */
  lemma SkipWhiteStops(s: string, i: nat, j: nat)
    requires i <= j <= |s|
    requires forall k :: i <= k < j ==> IsWhiteSpace(s[k])
    requires j < |s| ==> !IsWhiteSpace(s[j])
    ensures SkipWhite(s, i) == j
  {
  }

  /** The backward scan stops exactly at the start of a white run that
      follows a character that is not white space. */
  lemma SkipWhiteBackStops(s: string, lo: nat, j: nat, e: nat)
    requires lo <= e <= j <= |s|
    requires forall k :: e <= k < j ==> IsWhiteSpace(s[k])
    requires e > lo ==> !IsWhiteSpace(s[e - 1])
    ensures SkipWhiteBack(s, lo, j) == e
  {
  }

  /** A character absent from `s` is absent from `Trim(s)`: Trim keeps one
      infix of `s`. */
  lemma TrimKeepsOut(s: string, c: char)
    requires c !in s
    ensures c !in Trim(s)
  {
    var i := SkipWhite(s, 0);
    var e := SkipWhiteBack(s, i, |s|);
    var r := Trim(s);
    forall k | 0 <= k < |r|
      ensures r[k] != c
    {
      assert r[k] == s[i + k];
    }
  }

  /** Trim leaves an already trimmed string alone, so it is idempotent. */
  lemma TrimTrimmed(s: string)
    requires IsTrimmed(s)
    ensures Trim(s) == s
  {
    if s != [] {
      SkipWhiteStops(s, 0, 0);
      SkipWhiteBackStops(s, 0, |s|, |s|);
    }
    assert s[0..|s|] == s;
  }

  /** Surrounding white space makes no difference to Trim. */
  lemma TrimPadded(p: string, s: string, q: string)
    requires IsBlank(p) && IsBlank(q) && IsTrimmed(s) && s != []
    ensures Trim(p + s + q) == s
  {
    var t := p + s + q;
    var i := |p|;
    var e := |p| + |s|;
    assert forall k :: 0 <= k < i ==> t[k] == p[k];
    assert t[i] == s[0];
    SkipWhiteStops(t, 0, i);
    assert forall k :: e <= k < |t| ==> t[k] == q[k - e];
    assert t[e - 1] == s[|s| - 1];
    SkipWhiteBackStops(t, i, |t|, e);
    assert t[i..e] == s;
  }

  /** Invariant-culture lower case of one character (ASCII letters only). */
  function ToLowerChar(c: char): char {
    if 'A' <= c <= 'Z' then (c as int + 32) as char else c
  }

  /** `ToLowerInvariant()`, restricted to ASCII letters. */
  function ToLower(s: string): (r: string)
    ensures |r| == |s|
    ensures forall i :: 0 <= i < |s| ==> r[i] == ToLowerChar(s[i])
    ensures forall i :: 0 <= i < |r| ==> !('A' <= r[i] <= 'Z')
  {
    seq(|s|, i requires 0 <= i < |s| => ToLowerChar(s[i]))
  }

  /** Lowering a lowered string changes nothing. */
  lemma ToLowerIdempotent(s: string)
    ensures ToLower(ToLower(s)) == ToLower(s)
  {
  }

  /** `string.Equals(a, b, StringComparison.OrdinalIgnoreCase)`, ASCII case folding. */
  predicate EqualsIgnoreCase(a: string, b: string) {
    ToLower(a) == ToLower(b)
  }

  /** The comparison goes character by character: equal lengths, and each
      pair of characters equal once lowered. */
  lemma EqualsIgnoreCaseCharwise(a: string, b: string)
    ensures EqualsIgnoreCase(a, b) <==>
      |a| == |b| && forall i :: 0 <= i < |a| ==> ToLowerChar(a[i]) == ToLowerChar(b[i])
  {
    if |a| == |b| && forall i :: 0 <= i < |a| ==> ToLowerChar(a[i]) == ToLowerChar(b[i]) {
      assert forall i :: 0 <= i < |a| ==> ToLower(a)[i] == ToLower(b)[i];
    }
  }

  /** The index of the first `c` in `s`, or `|s|` when there is none. */
  function IndexOf(s: string, c: char): (i: nat)
    ensures i <= |s|
    ensures i < |s| ==> s[i] == c
    ensures c !in s[..i]
  {
    if s == [] then 0
    else if s[0] == c then 0
    else
      var j := IndexOf(s[1..], c);
      assert s[..1 + j] == [s[0]] + s[1..][..j];
      1 + j
  }

  /** `s.Split(sep)` without options: the pieces between separators, in order;
      there is always at least one piece. */
  function Split(s: string, sep: char): (r: seq<string>)
    ensures |r| >= 1
    ensures forall p :: p in r ==> sep !in p
    decreases |s|
  {
    var i := IndexOf(s, sep);
    if i == |s| then
      assert s[..i] == s;
      [s]
    else
      [s[..i]] + Split(s[i + 1..], sep)
  }

  /** `string.Join(sep, xs)`. */
  function Join(xs: seq<string>, sep: string): string {
    if xs == [] then ""
    else if |xs| == 1 then xs[0]
    else xs[0] + sep + Join(xs[1..], sep)
  }

  /** Joining the pieces of a split with the same separator gives the string back. */
  lemma {:induction false} JoinSplit(s: string, sep: char)
    ensures Join(Split(s, sep), [sep]) == s
    decreases |s|
  {
    var i := IndexOf(s, sep);
    if i < |s| {
      JoinSplit(s[i + 1..], sep);
      JoinCons(s[..i], Split(s[i + 1..], sep), [sep]);
      assert s == s[..i] + [sep] + s[i + 1..];
    } else {
      assert s[..i] == s;
    }
  }

  /** Join of a head and a non-empty tail puts one separator between them. */
  lemma {:induction false} JoinCons(x: string, ys: seq<string>, sep: string)
    requires ys != []
    ensures Join([x] + ys, sep) == x + sep + Join(ys, sep)
  {
    assert ([x] + ys)[1..] == ys;
  }

  /** One step of Split at the first separator. */
  lemma {:induction false} SplitStep(s: string, sep: char, i: nat)
    requires i < |s| && s[i] == sep && sep !in s[..i]
    ensures Split(s, sep) == [s[..i]] + Split(s[i + 1..], sep)
  {
    IndexOfFirst(s, sep, i);
  }

  /** Splitting a string at a separator it has splits its two sides apart. */
  lemma {:induction false} SplitAppend(a: string, b: string, sep: char)
    requires sep !in a
    ensures Split(a + [sep] + b, sep) == [a] + Split(b, sep)
  {
    var s := a + [sep] + b;
    assert s[..|a|] == a && s[|a|] == sep;
    SplitStep(s, sep, |a|);
    assert s[|a| + 1..] == b;
  }

  /** Splitting a string at a separator distributes over its two sides. */
  lemma {:induction false} SplitConcat(a: string, b: string, sep: char)
    ensures Split(a + [sep] + b, sep) == Split(a, sep) + Split(b, sep)
    decreases |a|
  {
    var i := IndexOf(a, sep);
    if i == |a| {
      assert a[..i] == a;
      SplitAppend(a, b, sep);
    } else {
      SplitConcat(a[i + 1..], b, sep);
      SplitConcatStep(a, b, sep, i);
    }
  }

  /** The inductive step of SplitConcat: the first piece of `a` comes off
      both sides. */
  lemma {:induction false} SplitConcatStep(a: string, b: string, sep: char, i: nat)
    requires i < |a| && i == IndexOf(a, sep)
    requires Split(a[i + 1..] + [sep] + b, sep) == Split(a[i + 1..], sep) + Split(b, sep)
    ensures Split(a + [sep] + b, sep) == Split(a, sep) + Split(b, sep)
  {
    SplitFirstPiece(a, b, sep, i);
    SplitStep(a, sep, i);
    AppendAssoc([a[..i]], Split(a[i + 1..], sep), Split(b, sep));
  }

  /** Appending `[sep] + b` after the first separator of `a` leaves the first piece alone. */
  lemma {:induction false} SplitFirstPiece(a: string, b: string, sep: char, i: nat)
    requires i < |a| && i == IndexOf(a, sep)
    ensures Split(a + [sep] + b, sep) == [a[..i]] + Split(a[i + 1..] + [sep] + b, sep)
  {
    var s := a + [sep] + b;
    assert s[i] == sep && s[..i] == a[..i];
    SplitStep(s, sep, i);
    assert s[i + 1..] == a[i + 1..] + [sep] + b;
  }

  lemma ConsTail<T>(xs: seq<T>, ys: seq<T>)
    requires xs != []
    ensures xs == [xs[0]] + xs[1..]
    ensures xs + ys == [xs[0]] + (xs[1..] + ys)
  {
  }

  lemma AppendAssoc<T>(xs: seq<T>, ys: seq<T>, zs: seq<T>)
    ensures xs + (ys + zs) == (xs + ys) + zs
  {
  }

  /** IndexOf finds the first occurrence. */
  lemma {:induction false} IndexOfFirst(s: string, c: char, i: nat)
    requires i < |s| && s[i] == c && c !in s[..i]
    ensures IndexOf(s, c) == i
  {
    if i > 0 {
      assert s[..i][0] == s[0];
      assert s[1..][..i - 1] == s[..i][1..];
      IndexOfFirst(s[1..], c, i - 1);
    }
  }

  /** Splitting a join of separator-free strings gives back the strings. */
  lemma {:induction false} SplitJoin(xs: seq<string>, sep: char)
    requires xs != []
    requires forall x :: x in xs ==> sep !in x
    ensures Split(Join(xs, [sep]), sep) == xs
  {
    if |xs| == 1 {
      var s := xs[0];
      assert xs[0] in xs;
      assert forall k :: 0 <= k < |s| ==> s[k] != sep;
      assert s[..IndexOf(s, sep)] == s;
    } else {
      assert xs[0] in xs;
      SplitJoin(xs[1..], sep);
      SplitAppend(xs[0], Join(xs[1..], [sep]), sep);
      assert [xs[0]] + xs[1..] == xs;
    }
  }
}
