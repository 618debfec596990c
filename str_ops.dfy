/*
 * The handful of Python string built-ins that the summary formatter relies on:
 * str.isspace, str.strip, str.lower, str.capitalize, str.split with an
 * explicit one-character separator, str.join and str.replace.
 * Whitespace and case mapping are restricted to ASCII.
 */
module StrOps {

  /** str.isspace() on one ASCII character: tab, line feed, vertical tab,
      form feed, carriage return, the separators 0x1C-0x1F and space. */
  predicate IsSpace(c: char) {
    c == ' ' || ('\t' <= c <= '\r') || ('\U{1C}' <= c <= '\U{1F}')
  }

  predicate AllSpace(s: string) {
    forall i :: 0 <= i < |s| ==> IsSpace(s[i])
  }

  /** A non-empty text with no whitespace at either end. */
  predicate Trimmed(t: string) {
    t != [] && !IsSpace(t[0]) && !IsSpace(t[|t| - 1])
  }

  /** Number of whitespace characters at the start of s. */
  function LeadingSpace(s: string): (n: nat)
    ensures n <= |s|
    ensures AllSpace(s[..n])
    ensures n < |s| ==> !IsSpace(s[n])
  {
    if |s| > 0 && IsSpace(s[0]) then 1 + LeadingSpace(s[1..]) else 0
  }

  /** Number of whitespace characters at the end of s. */
  function TrailingSpace(s: string): (n: nat)
    ensures n <= |s|
    ensures AllSpace(s[|s| - n..])
    ensures n < |s| ==> !IsSpace(s[|s| - n - 1])
  {
    if |s| > 0 && IsSpace(s[|s| - 1]) then 1 + TrailingSpace(s[..|s| - 1]) else 0
  }

  /** str.strip() with no argument: the slice of s left once the leading and
      trailing whitespace is cut off. */
  function Strip(s: string): (r: string)
    ensures |r| <= |s|
    ensures r == [] <==> AllSpace(s)
    ensures r != [] ==> Trimmed(r)
    ensures LeadingSpace(s) + |r| <= |s| && r == s[LeadingSpace(s)..LeadingSpace(s) + |r|]
  {
    var lead := LeadingSpace(s);
    if lead == |s| then
      assert s[..lead] == s;
      assert s[lead..lead] == [];
      []
    else
      var trail := TrailingSpace(s);
      assert lead < |s| - trail;
      var r := s[lead..|s| - trail];
      assert r[0] == s[lead];
      assert r == s[lead..lead + |r|];
      r
  }

  /** What strip keeps is one slice of s with nothing but whitespace before
      and after it. */
  lemma StripIsSlice(s: string)
    ensures var r := Strip(s);
      exists i :: 0 <= i <= |s| - |r| && r == s[i..i + |r|] && AllSpace(s[..i]) && AllSpace(s[i + |r|..])
  {
    var r := Strip(s);
    var lead := LeadingSpace(s);
    if r == [] {
      assert s[..0] == [] && s[0..] == s;
    } else {
      assert AllSpace(s[lead + |r|..]);
    }
  }

  predicate IsUpper(c: char) { 'A' <= c <= 'Z' }

  predicate IsLower(c: char) { 'a' <= c <= 'z' }

  function ToLower(c: char): char {
    if IsUpper(c) then (c as int + 32) as char else c
  }

  function ToUpper(c: char): char {
    if IsLower(c) then (c as int - 32) as char else c
  }

  /** str.lower() */
  function Lower(s: string): string {
    seq(|s|, i requires 0 <= i < |s| => ToLower(s[i]))
  }

  /** str.capitalize(): the first character upper-cased, the rest lower-cased. */
  function Capitalize(s: string): string {
    if s == [] then [] else [ToUpper(s[0])] + Lower(s[1..])
  }

  /** Position of the first occurrence of c in s. */
  function FirstIndex(s: string, c: char): (i: nat)
    requires c in s
    ensures i < |s| && s[i] == c && c !in s[..i]
  {
    if s[0] == c then 0 else 1 + FirstIndex(s[1..], c)
  }

  /** s.split(sep) for a one-character separator: the pieces between
      consecutive occurrences of sep, always at least one, possibly empty. */
  function Split(s: string, sep: char): (r: seq<string>)
    ensures |r| >= 1
    ensures forall p <- r :: sep !in p
    decreases |s|
  {
    if sep !in s then [s]
    else
      var i := FirstIndex(s, sep);
      [s[..i]] + Split(s[i + 1..], sep)
  }

  /** sep.join(xs) */
  function Join(xs: seq<string>, sep: string): string {
    if |xs| == 0 then ""
    else if |xs| == 1 then xs[0]
    else xs[0] + sep + Join(xs[1..], sep)
  }

  /** s.replace(pat, rep): every occurrence of pat, scanned left to right
      without overlap, is replaced by rep. */
  function Replace(s: string, pat: string, rep: string): string
    requires |pat| > 0
    decreases |s|
  {
    if |s| < |pat| then s
    else if s[..|pat|] == pat then rep + Replace(s[|pat|..], pat, rep)
    else [s[0]] + Replace(s[1..], pat, rep)
  }

  /** Joining the pieces of a split with the separator gives back the string. */
  lemma {:induction false} JoinSplit(s: string, sep: char)
    ensures Join(Split(s, sep), [sep]) == s
    decreases |s|
  {
    if sep in s {
      var i := FirstIndex(s, sep);
      var rest := s[i + 1..];
      JoinSplit(rest, sep);
      assert Split(s, sep) == [s[..i]] + Split(rest, sep);
      assert s == s[..i] + [sep] + rest;
    }
  }

  /** A string that starts with a separator-free piece and a separator splits
      into that piece followed by the split of the remainder. */
  lemma SplitAfterPiece(x: string, sep: char, t: string)
    requires sep !in x
    ensures Split(x + [sep] + t, sep) == [x] + Split(t, sep)
  {
    var s := x + [sep] + t;
    assert s[|x|] == sep;
    var i := FirstIndex(s, sep);
    assert s[..i] == x;
    assert s[i + 1..] == t;
  }

  /** A separator splits the text around it: the pieces before it, then the
      pieces after it. */
  lemma {:induction false} SplitAround(a: string, sep: char, b: string)
    ensures Split(a + [sep] + b, sep) == Split(a, sep) + Split(b, sep)
    decreases |a|
  {
    if sep !in a {
      SplitAfterPiece(a, sep, b);
    } else {
      var i := FirstIndex(a, sep);
      var x, rest := a[..i], a[i + 1..];
      assert Split(a + [sep] + b, sep) == [x] + Split(rest + [sep] + b, sep) by {
        assert a + [sep] + b == x + [sep] + rest + [sep] + b;
        SplitAroundStep(x, rest, sep, b);
      }
      assert Split(a, sep) == [x] + Split(rest, sep);
      SplitAround(rest, sep, b);
      ConsAppend(x, Split(a + [sep] + b, sep), Split(a, sep), Split(rest + [sep] + b, sep), Split(rest, sep), Split(b, sep));
    }
  }

  /** Regrouping a split that starts with one piece. */
  lemma ConsAppend<T>(x: T, whole: seq<T>, left: seq<T>, mid: seq<T>, leftRest: seq<T>, right: seq<T>)
    requires whole == [x] + mid && left == [x] + leftRest && mid == leftRest + right
    ensures whole == left + right
  {
  }

  /** One step of SplitAround: a separator-free first piece comes off the front. */
  lemma SplitAroundStep(x: string, rest: string, sep: char, b: string)
    requires sep !in x
    ensures Split(x + [sep] + rest + [sep] + b, sep) == [x] + Split(rest + [sep] + b, sep)
  {
    assert x + [sep] + rest + [sep] + b == x + [sep] + (rest + [sep] + b);
    SplitAfterPiece(x, sep, rest + [sep] + b);
  }

  /** Splitting a join of separator-free pieces recovers the pieces. */
  lemma {:induction false} SplitJoin(xs: seq<string>, sep: char)
    requires |xs| >= 1
    requires forall x <- xs :: sep !in x
    ensures Split(Join(xs, [sep]), sep) == xs
  {
    if |xs| > 1 {
      SplitJoin(xs[1..], sep);
      SplitAfterPiece(xs[0], sep, Join(xs[1..], [sep]));
    }
  }

  /** Every piece of a split of an all-whitespace string is all whitespace. */
  lemma {:induction false} SplitAllSpace(s: string, sep: char)
    requires AllSpace(s)
    ensures forall p <- Split(s, sep) :: AllSpace(p)
    decreases |s|
  {
    if sep in s {
      var i := FirstIndex(s, sep);
      assert AllSpace(s[i + 1..]);
      SplitAllSpace(s[i + 1..], sep);
    }
  }

  /** When every occurrence of sep in s is preceded by the character c, each
      piece of the split except the last is non-empty and ends with c. */
  lemma {:induction false} SplitPiecesEndWith(s: string, sep: char, c: char)
    requires c != sep
    requires forall k :: 0 <= k < |s| && s[k] == sep ==> 0 < k && s[k - 1] == c
    ensures var r := Split(s, sep);
      forall j :: 0 <= j < |r| - 1 ==> |r[j]| > 0 && r[j][|r[j]| - 1] == c
    decreases |s|
  {
    if sep in s {
      var i := FirstIndex(s, sep);
      var rest := s[i + 1..];
      forall k | 0 <= k < |rest| && rest[k] == sep ensures 0 < k && rest[k - 1] == c {
        assert s[i + 1 + k] == sep;
      }
      SplitPiecesEndWith(rest, sep, c);
      assert Split(s, sep) == [s[..i]] + Split(rest, sep);
    }
  }
}
