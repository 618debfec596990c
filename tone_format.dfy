/*
 * The tone formatter: how a raw model summary is turned into the text shown
 * to the user for the tones "Bullet Points", "Casual" and every other tone
 * ("Formal" included), which leaves the summary as it is.
 */
module ToneFormat {
  import opened StrOps

  /** The bullet marker exactly as the formatter writes it: the characters
      U+00E2 U+20AC U+00A2 (the UTF-8 bytes of U+2022 read as Windows-1252)
      followed by a space. */
  const Bullet: string := "\U{E2}\U{20AC}\U{A2} "

  /** The fixed lead-in phrases of the casual tone. */
  const CasualIntros: seq<string> :=
    ["So basically, ", "Here's the deal: ", "In a nutshell, ", "Long story short, "]

  /** Which lead-in the casual tone uses; the application draws it at random. */
  type IntroIndex = i: nat | i < 4

  /** summary.replace('. ', '.\n') */
  function BreakSentences(s: string): string {
    Replace(s, ". ", ".\n")
  }

  /** What BreakSentences puts at position k: a line feed where s has the
      space of a ". ", and s's own character everywhere else. */
  function BrokenAt(s: string, k: nat): char
    requires k < |s|
  {
    if 0 < k && s[k - 1] == '.' && s[k] == ' ' then '\n' else s[k]
  }

  /** s has no ". " in it. */
  predicate NoSentenceBreak(s: string) {
    forall k :: 0 < k < |s| ==> !(s[k - 1] == '.' && s[k] == ' ')
  }

  /** The pieces the bullet formatter works on: the broken text split on line feeds. */
  function Pieces(s: string): seq<string> {
    Split(BreakSentences(s), '\n')
  }

  /** What the comprehension below keeps of one piece: its stripped text,
      unless that is empty. */
  function Kept(p: string): (r: seq<string>)
    ensures |r| <= 1 && forall t <- r :: Trimmed(t)
  {
    var t := Strip(p);
    if t == [] then [] else [t]
  }

  /** [p.strip() for p in pieces if p.strip()] */
  function Sentences(pieces: seq<string>): (r: seq<string>)
    ensures |r| <= |pieces|
    ensures forall t <- r :: Trimmed(t)
  {
    if pieces == [] then [] else Kept(pieces[0]) + Sentences(pieces[1..])
  }

  /** Each sentence with the bullet marker in front. */
  function Bulleted(sentences: seq<string>): seq<string> {
    seq(|sentences|, i requires 0 <= i < |sentences| => Bullet + sentences[i])
  }

  /** The "Bullet Points" tone. */
  function FormatBullets(s: string): string {
    Join(Bulleted(Sentences(Pieces(s))), "\n")
  }

  /** The "Casual" tone: a lead-in phrase, then the summary lower-cased and
      capitalized. */
  function FormatCasual(s: string, pick: IntroIndex): string {
    CasualIntros[pick] + Capitalize(Lower(s))
  }

  /** format_summary(summary, tone); `pick` stands for the random choice of a
      casual lead-in. Any tone other than the two named ones is the identity. */
  function FormatSummary(summary: string, tone: string, pick: IntroIndex): (r: string)
    ensures tone != "Bullet Points" && tone != "Casual" ==> r == summary
  {
    if tone == "Bullet Points" then FormatBullets(summary)
    else if tone == "Casual" then FormatCasual(summary, pick)
    else summary
  }

  /** Breaking sentences keeps the length and changes exactly the spaces that
      follow a period, each into a line feed. */
  lemma {:induction false} BreakSentencesAt(s: string)
    ensures |BreakSentences(s)| == |s|
    ensures forall k :: 0 <= k < |s| ==> BreakSentences(s)[k] == BrokenAt(s, k)
    decreases |s|
  {
    var r := BreakSentences(s);
    if |s| < 2 {
    } else if s[..2] == ". " {
      var rest := s[2..];
      BreakSentencesAt(rest);
      assert r == ".\n" + BreakSentences(rest);
      forall k | 2 <= k < |s| ensures r[k] == BrokenAt(s, k) {
        assert r[k] == BrokenAt(rest, k - 2);
      }
    } else {
      var rest := s[1..];
      BreakSentencesAt(rest);
      assert r == [s[0]] + BreakSentences(rest);
      forall k | 1 <= k < |s| ensures r[k] == BrokenAt(s, k) {
        assert r[k] == BrokenAt(rest, k - 1);
      }
    }
  }

  /** The sentence filter works piece by piece, so it keeps the pieces' order. */
  lemma {:induction false} SentencesAppend(xs: seq<string>, ys: seq<string>)
    ensures Sentences(xs + ys) == Sentences(xs) + Sentences(ys)
  {
    if xs == [] {
      assert xs + ys == ys;
    } else {
      assert (xs + ys)[1..] == xs[1..] + ys;
      SentencesAppend(xs[1..], ys);
    }
  }

  /** Stripping a piece cannot bring in a line feed. */
  lemma {:induction false} SentencesNoLineFeed(pieces: seq<string>)
    requires forall p <- pieces :: '\n' !in p
    ensures forall t <- Sentences(pieces) :: '\n' !in t
  {
    if pieces != [] {
      SentencesNoLineFeed(pieces[1..]);
      var p := pieces[0];
      var t := Strip(p);
      assert p in pieces;
      forall k | 0 <= k < |t| ensures t[k] != '\n' {
        assert t[k] == p[LeadingSpace(p) + k];
      }
      assert Sentences(pieces) == Kept(p) + Sentences(pieces[1..]);
    }
  }

  /** A single piece gives one sentence, its stripped text, unless it is blank. */
  lemma SentencesOfOne(p: string)
    ensures Sentences([p]) == if AllSpace(p) then [] else [Strip(p)]
  {
    assert [p][1..] == [];
  }

  lemma {:induction false} SentencesOfBlank(pieces: seq<string>)
    requires forall p <- pieces :: AllSpace(p)
    ensures Sentences(pieces) == []
  {
    if pieces != [] {
      SentencesOfBlank(pieces[1..]);
    }
  }

  lemma {:induction false} JoinNonEmpty(xs: seq<string>, sep: string)
    requires |xs| >= 1 && xs[0] != []
    ensures Join(xs, sep) != []
  {
  }

  /** The bullet text is empty exactly when no piece has a non-blank stripped
      text; otherwise its lines are the bulleted sentences, one per line, in order. */
  lemma BulletLines(s: string, pick: IntroIndex)
    ensures var out := FormatSummary(s, "Bullet Points", pick);
      var ss := Sentences(Pieces(s));
      (out == [] <==> ss == []) &&
      (ss != [] ==> Split(out, '\n') == Bulleted(ss))
  {
    var ss := Sentences(Pieces(s));
    var lines := Bulleted(ss);
    if ss != [] {
      assert lines[0] == Bullet + ss[0];
      JoinNonEmpty(lines, "\n");
      SentencesNoLineFeed(Pieces(s));
      forall l <- lines ensures '\n' !in l {
        var i :| 0 <= i < |lines| && lines[i] == l;
        assert l == Bullet + ss[i];
      }
      SplitJoin(lines, '\n');
    }
  }

  /** Every line of a non-empty bullet text is the bullet marker followed by a
      non-empty text that has no surrounding whitespace and no line feed. */
  lemma BulletLineForm(s: string, pick: IntroIndex)
    ensures var out := FormatSummary(s, "Bullet Points", pick);
      out != [] ==> forall l <- Split(out, '\n') ::
        |l| > |Bullet| && l[..|Bullet|] == Bullet &&
        var t := l[|Bullet|..]; Strip(t) == t && '\n' !in t
  {
    BulletLines(s, pick);
    var out := FormatSummary(s, "Bullet Points", pick);
    var ss := Sentences(Pieces(s));
    SentencesNoLineFeed(Pieces(s));
    if out != [] {
      forall l <- Split(out, '\n')
        ensures |l| > |Bullet| && l[..|Bullet|] == Bullet &&
          var t := l[|Bullet|..]; Strip(t) == t && '\n' !in t
      {
        var i :| 0 <= i < |ss| && l == Bullet + ss[i];
        var t := ss[i];
        assert l[|Bullet|..] == t;
        assert t in ss;
        StripTrimmed(t);
      }
    }
  }

  /** An empty or all-whitespace summary formats to the empty text. */
  lemma BlankBullets(s: string, pick: IntroIndex)
    requires AllSpace(s)
    ensures FormatSummary(s, "Bullet Points", pick) == ""
  {
    BreakSentencesAt(s);
    var t := BreakSentences(s);
    assert AllSpace(t) by {
      forall k | 0 <= k < |t| ensures IsSpace(t[k]) {
        assert t[k] == BrokenAt(s, k);
      }
    }
    SplitAllSpace(t, '\n');
    SentencesOfBlank(Pieces(s));
  }

  /** A summary with some non-whitespace but neither ". " nor a line feed
      becomes exactly one bullet line: the marker and the stripped summary. */
  lemma SingleBullet(s: string, pick: IntroIndex)
    requires !AllSpace(s) && '\n' !in s && NoSentenceBreak(s)
    ensures FormatSummary(s, "Bullet Points", pick) == Bullet + Strip(s)
  {
    BreakSentencesAt(s);
    assert BreakSentences(s) == s;
    SentencesOfOne(s);
    assert Bulleted([Strip(s)]) == [Bullet + Strip(s)];
  }

  /** A non-blank text ending in a non-space character keeps that character
      as the last one of its stripped form. */
  lemma StripKeepsLast(p: string)
    requires p != [] && !IsSpace(p[|p| - 1])
    ensures Strip(p) != [] && Strip(p)[|Strip(p)| - 1] == p[|p| - 1]
  {
    var r := Strip(p);
    var i :| 0 <= i <= |p| - |r| && r == p[i..i + |r|] && AllSpace(p[..i]) && AllSpace(p[i + |r|..]);
    if i + |r| < |p| {
      assert p[i + |r|..][|p| - 1 - (i + |r|)] == p[|p| - 1];
    }
  }

  /** In a summary without line feeds every piece but the last ends at a
      ". ", so each sentence taken from it is non-empty and keeps its period. */
  lemma PeriodsKept(s: string)
    requires '\n' !in s
    ensures var ps := Pieces(s);
      forall j :: 0 <= j < |ps| - 1 ==>
        var t := Strip(ps[j]); t != [] && t[|t| - 1] == '.'
  {
    var t := BreakSentences(s);
    BreakSentencesAt(s);
    forall k | 0 <= k < |t| && t[k] == '\n' ensures 0 < k && t[k - 1] == '.' {
      assert t[k] == BrokenAt(s, k);
      assert t[k - 1] == BrokenAt(s, k - 1);
    }
    SplitPiecesEndWith(t, '\n', '.');
    var ps := Pieces(s);
    assert ps == Split(t, '\n');
    forall j | 0 <= j < |ps| - 1 ensures var t := Strip(ps[j]); t != [] && t[|t| - 1] == '.' {
      assert |ps[j]| > 0 && ps[j][|ps[j]| - 1] == '.';
      StripKeepsLast(ps[j]);
    }
  }

  /** No ". " can straddle a line feed, so a summary with a line feed breaks
      into the pieces of the text before it followed by those of the text after it. */
  lemma PiecesAcrossLineFeed(a: string, b: string)
    ensures Pieces(a + "\n" + b) == Pieces(a) + Pieces(b)
  {
    var s := a + "\n" + b;
    var want := BreakSentences(a) + "\n" + BreakSentences(b);
    BreakSentencesAt(s);
    BreakSentencesAt(a);
    BreakSentencesAt(b);
    var r := BreakSentences(s);
    forall k | 0 <= k < |s| ensures r[k] == want[k] {
      if k < |a| {
        assert s[k] == a[k];
        if 0 < k { assert s[k - 1] == a[k - 1]; }
      } else if k > |a| {
        assert s[k] == b[k - |a| - 1];
        if k > |a| + 1 { assert s[k - 1] == b[k - |a| - 2]; }
      }
    }
    assert r == want;
    SplitAround(BreakSentences(a), '\n', BreakSentences(b));
  }

  /** The pieces of each line in turn. */
  function PiecesOfLines(lines: seq<string>): seq<string> {
    if lines == [] then [] else Pieces(lines[0]) + PiecesOfLines(lines[1..])
  }

  /** The pieces of any summary are, line after line, the pieces of each of
      its lines. */
  lemma {:induction false} PiecesByLine(s: string)
    ensures Pieces(s) == PiecesOfLines(Split(s, '\n'))
    decreases |s|
  {
    if '\n' !in s {
      assert Split(s, '\n') == [s];
      assert PiecesOfLines([s]) == Pieces(s) + PiecesOfLines([]);
    } else {
      var i := FirstIndex(s, '\n');
      var a, rest := s[..i], s[i + 1..];
      assert s == a + "\n" + rest;
      PiecesAcrossLineFeed(a, rest);
      PiecesByLine(rest);
      var lines := Split(s, '\n');
      assert lines == [a] + Split(rest, '\n');
      assert lines[1..] == Split(rest, '\n');
    }
  }

  /** For every summary, line feeds included: the pieces are taken line by
      line, and within each line every piece but the last gives a non-empty
      sentence ending with its period. */
  lemma PeriodsKeptByLine(s: string)
    ensures Pieces(s) == PiecesOfLines(Split(s, '\n'))
    ensures forall line <- Split(s, '\n') ::
      var ps := Pieces(line);
      forall j :: 0 <= j < |ps| - 1 ==> var t := Strip(ps[j]); t != [] && t[|t| - 1] == '.'
  {
    PiecesByLine(s);
    forall line <- Split(s, '\n')
      ensures var ps := Pieces(line);
        forall j :: 0 <= j < |ps| - 1 ==> var t := Strip(ps[j]); t != [] && t[|t| - 1] == '.'
    {
      PeriodsKept(line);
    }
  }

  /** Text that has a period only at its end has no ". " in it. */
  lemma PeriodOnlyAtEnd(x: string)
    requires x != [] && '.' !in x[..|x| - 1]
    ensures NoSentenceBreak(x)
  {
    forall k | 0 < k < |x| ensures !(x[k - 1] == '.' && x[k] == ' ') {
      assert x[k - 1] == x[..|x| - 1][k - 1];
    }
  }

  /** A period, a space and a text: the space alone becomes a line feed. */
  lemma BreakBetween(x: string, y: string)
    requires NoSentenceBreak(x) && NoSentenceBreak(y)
    requires x != [] && x[|x| - 1] == '.' && (y == [] || y[0] != ' ')
    ensures BreakSentences(x + " " + y) == x + "\n" + y
  {
    var s := x + " " + y;
    var want := x + "\n" + y;
    BreakSentencesAt(s);
    var r := BreakSentences(s);
    forall k | 0 <= k < |s| ensures r[k] == want[k] {
      if k < |x| {
        assert s[k] == x[k];
        if 0 < k { assert s[k - 1] == x[k - 1]; }
      } else if k > |x| + 1 {
        assert s[k] == y[k - |x| - 1] && s[k - 1] == y[k - |x| - 2];
      }
    }
  }

  lemma StripTrimmed(t: string)
    requires Trimmed(t)
    ensures Strip(t) == t
  {
    assert LeadingSpace(t) == 0 && TrailingSpace(t) == 0;
    assert t[0..|t|] == t;
  }

  lemma SentencesOfTwo(x: string, y: string)
    requires Trimmed(x) && Trimmed(y)
    ensures Sentences([x, y]) == [x, y]
  {
    StripTrimmed(x);
    StripTrimmed(y);
    SentencesAppend([x], [y]);
    SentencesOfOne(x);
    SentencesOfOne(y);
    assert [x] + [y] == [x, y];
  }

  /** "x. y" without line feeds breaks into exactly the pieces x and y. */
  lemma PiecesOfTwo(x: string, y: string)
    requires x != [] && x[|x| - 1] == '.' && (y == [] || y[0] != ' ')
    requires NoSentenceBreak(x) && NoSentenceBreak(y) && '\n' !in x && '\n' !in y
    ensures Pieces(x + " " + y) == [x, y]
  {
    BreakBetween(x, y);
    assert Pieces(x + " " + y) == Split(x + "\n" + y, '\n');
    SplitAfterPiece(x, '\n', y);
    assert Split(y, '\n') == [y];
  }

  /** Two sentences without line feeds, the first ending in a period,
      joined by one space: each becomes its own bullet line, in order. */
  lemma TwoSentences(x: string, y: string, pick: IntroIndex)
    requires Trimmed(x) && Trimmed(y) && x[|x| - 1] == '.'
    requires NoSentenceBreak(x) && NoSentenceBreak(y) && '\n' !in x && '\n' !in y
    ensures FormatSummary(x + " " + y, "Bullet Points", pick) == Bullet + x + "\n" + Bullet + y
  {
    var s := x + " " + y;
    PiecesOfTwo(x, y);
    SentencesOfTwo(x, y);
    var lines := Bulleted([x, y]);
    assert lines == [Bullet + x, Bullet + y];
    assert lines[1..] == [Bullet + y];
    assert FormatBullets(s) == Join(lines, "\n") == lines[0] + "\n" + Join(lines[1..], "\n");
  }

  /** The worked example: two sentences become two bullet lines, each with its period. */
  lemma BulletExample(pick: IntroIndex)
    ensures FormatSummary("A dog ran. It was fast.", "Bullet Points", pick)
         == Bullet + "A dog ran." + "\n" + Bullet + "It was fast."
  {
    var first, second := "A dog ran.", "It was fast.";
    assert first + " " + second == "A dog ran. It was fast.";
    PeriodOnlyAtEnd(first);
    PeriodOnlyAtEnd(second);
    TwoSentences(first, second, pick);
  }

  /** The casual text is one lead-in followed by a body as long as the
      summary, equal to it up to case, whose first character is not lower-case
      and whose other characters are not upper-case. */
  lemma CasualShape(s: string, pick: IntroIndex)
    ensures var r := FormatSummary(s, "Casual", pick);
      var intro := CasualIntros[pick];
      var body := r[|intro|..];
      |r| == |intro| + |s| && r[..|intro|] == intro &&
      Lower(body) == Lower(s) &&
      (|s| > 0 ==> !IsLower(body[0])) &&
      forall k :: 1 <= k < |body| ==> !IsUpper(body[k])
  {
    var intro := CasualIntros[pick];
    var r := FormatSummary(s, "Casual", pick);
    var body := Capitalize(Lower(s));
    assert r == intro + body;
    assert r[|intro|..] == body;
    if |s| > 0 {
      assert body == [ToUpper(ToLower(s[0]))] + Lower(Lower(s)[1..]);
      forall k | 0 <= k < |s| ensures Lower(body)[k] == Lower(s)[k] {
        if k > 0 {
          assert body[k] == ToLower(ToLower(s[k]));
        }
      }
    }
  }

  /** The casual text starts with exactly one of the lead-in phrases: the one picked. */
  lemma CasualIntroUnique(s: string, pick: IntroIndex)
    ensures forall j: IntroIndex :: CasualIntros[j] <= FormatSummary(s, "Casual", pick) <==> j == pick
  {
    var r := FormatSummary(s, "Casual", pick);
    assert r[0] == CasualIntros[pick][0];
    forall j: IntroIndex | CasualIntros[j] <= r ensures j == pick {
      assert CasualIntros[j][0] == r[0];
    }
  }
}
