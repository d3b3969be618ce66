/** Seed phrases as text: the spacing normal form under which they are stored and looked up. */
module SeedPhrases {
  import opened Wrappers
  import opened Strings

  const SEED_PHRASE_WORDS_COUNT: nat := 12

  // ------------------------------------------------------------------ the string operations

  /** The white space and line terminators that JavaScript's `trim` removes. */
  predicate IsBlank(c: char) {
    var n := c as int;
    || n in {0x20, 0x9, 0xA, 0xB, 0xC, 0xD, 0xA0, 0x1680, 0x2028, 0x2029, 0x202F, 0x205F, 0x3000, 0xFEFF}
    || 0x2000 <= n <= 0x200A
  }

  predicate AllBlank(s: string) {
    forall i :: 0 <= i < |s| ==> IsBlank(s[i])
  }

  predicate NoBlank(s: string) {
    forall i :: 0 <= i < |s| ==> !IsBlank(s[i])
  }

  /** `replace(/  +/g, ' ')`: every run of two or more spaces becomes one space. */
  function Collapse(s: string): string {
    if |s| == 0 then []
    else if |s| >= 2 && s[0] == ' ' && s[1] == ' ' then Collapse(s[1..])
    else [s[0]] + Collapse(s[1..])
  }

  function TrimStart(s: string): string {
    if |s| > 0 && IsBlank(s[0]) then TrimStart(s[1..]) else s
  }

  function TrimEnd(s: string): string {
    if |s| > 0 && IsBlank(s[|s| - 1]) then TrimEnd(s[..|s| - 1]) else s
  }

  function Trim(s: string): string {
    TrimEnd(TrimStart(s))
  }

  function Normalise(s: string): string {
    Trim(Collapse(s))
  }

  /** `split(' ')`. */
  function Split(s: string): (r: seq<string>)
    ensures |r| > 0
  {
    SplitOn(s, " ")
  }

  /** `validateUserSeedPhrase`. */
  predicate IsValidPhrase(s: string) {
    |Split(s)| == SEED_PHRASE_WORDS_COUNT
  }

  // ------------------------------------------------------------------ words and their spacings

  /** A word of a phrase: some characters, none of them blank. */
  predicate IsWord(w: string) {
    |w| > 0 && NoBlank(w)
  }

  predicate AllWords(words: seq<string>) {
    |words| > 0 && forall i :: 0 <= i < |words| ==> IsWord(words[i])
  }

  /** What may stand between two words: one or more blanks of any kind. */
  predicate AreGaps(gaps: seq<string>) {
    forall i :: 0 <= i < |gaps| ==> |gaps[i]| > 0 && AllBlank(gaps[i])
  }

  predicate AllSpaces(s: string) {
    forall i :: 0 <= i < |s| ==> s[i] == ' '
  }

  /** The words with a gap after each but the last. */
  function Spaced(words: seq<string>, gaps: seq<string>): string
    requires |words| == |gaps| + 1
  {
    if |gaps| == 0 then words[0] else words[0] + gaps[0] + Spaced(words[1..], gaps[1..])
  }

  /** The single-space join. */
  function Join(words: seq<string>): string
    requires |words| > 0
  {
    Spaced(words, seq(|words| - 1, _ => " "))
  }

  /** `s` is `words` typed with leading, separating and trailing blanks of any kind. */
  predicate IsTyping(s: string, words: seq<string>, lead: string, gaps: seq<string>, trail: string) {
    && AllWords(words) && |words| == |gaps| + 1
    && AreGaps(gaps) && AllBlank(lead) && AllBlank(trail)
    && s == lead + Spaced(words, gaps) + trail
  }

  /** `s` is some typing of `words` whose gaps are spaces. */
  ghost predicate IsSpacingOf(s: string, words: seq<string>) {
    exists lead, gaps, trail :: IsTyping(s, words, lead, gaps, trail) && AllSpaces(Concat(gaps))
  }

  /** A single character is trimmed away exactly if it is one of these. */
  lemma {:induction false} TrimmedIff(c: char)
    ensures Normalise([c]) == "" <==>
            c in {'\t', '\n', '\U{B}', '\U{C}', '\r', ' ', '\U{A0}', '\U{1680}', '\U{2000}', '\U{2001}', '\U{2002}',
                  '\U{2003}', '\U{2004}', '\U{2005}', '\U{2006}', '\U{2007}', '\U{2008}', '\U{2009}', '\U{200A}',
                  '\U{2028}', '\U{2029}', '\U{202F}', '\U{205F}', '\U{3000}', '\U{FEFF}'}
  {
    assert Collapse([c]) == [c] + Collapse([c][1..]) == [c];
    assert TrimStart([c]) == if IsBlank(c) then "" else [c];
    assert [c][..0] == "";
  }

  // ------------------------------------------------------------------ the normal form is idempotent

  ghost predicate NoDoubleSpace(s: string) {
    forall i :: 0 < i < |s| ==> !(s[i - 1] == ' ' && s[i] == ' ')
  }

  predicate IsTrimmed(s: string) {
    |s| > 0 ==> !IsBlank(s[0]) && !IsBlank(s[|s| - 1])
  }

  /** Collapsing leaves no double space, keeps the first character, and is the identity without one. */
  lemma {:induction false} CollapseShape(s: string)
    ensures NoDoubleSpace(Collapse(s)) && |Collapse(s)| <= |s|
    ensures |s| > 0 ==> |Collapse(s)| > 0 && Collapse(s)[0] == s[0]
    ensures NoDoubleSpace(s) ==> Collapse(s) == s
  {
    if |s| > 0 {
      CollapseShape(s[1..]);
      var c := Collapse(s[1..]);
      if !(|s| >= 2 && s[0] == ' ' && s[1] == ' ') {
        assert forall i :: 0 < i < |[s[0]] + c| ==> ([s[0]] + c)[i] == c[i - 1];
        assert s == [s[0]] + s[1..];
        assert forall i :: 0 < i < |s[1..]| ==> s[1..][i] == s[i + 1];
      }
    }
  }

  /** Trimming yields a stretch of the text with no blank at either end. */
  lemma {:induction false} TrimStartShape(s: string)
    ensures exists i :: 0 <= i <= |s| && TrimStart(s) == s[i..]
    ensures |TrimStart(s)| > 0 ==> !IsBlank(TrimStart(s)[0])
  {
    if |s| > 0 && IsBlank(s[0]) {
      TrimStartShape(s[1..]);
      var i :| 0 <= i <= |s[1..]| && TrimStart(s[1..]) == s[1..][i..];
      assert s[1..][i..] == s[i + 1..];
    } else {
      assert s == s[0..];
    }
  }

  lemma {:induction false} TrimEndShape(s: string)
    ensures TrimEnd(s) <= s
    ensures |TrimEnd(s)| > 0 ==> !IsBlank(TrimEnd(s)[|TrimEnd(s)| - 1])
  {
    if |s| > 0 && IsBlank(s[|s| - 1]) {
      TrimEndShape(s[..|s| - 1]);
    }
  }

  ghost predicate IsStretch(t: string, s: string) {
    exists i, j :: 0 <= i <= j <= |s| && t == s[i..j]
  }

  lemma {:induction false} TrimIsStretch(s: string)
    ensures IsStretch(Trim(s), s)
  {
    TrimStartShape(s);
    TrimEndShape(TrimStart(s));
    var i :| 0 <= i <= |s| && TrimStart(s) == s[i..];
    assert Trim(s) == s[i..i + |Trim(s)|];
  }

  lemma {:induction false} StretchKeepsSingleSpaces(t: string, s: string)
    requires IsStretch(t, s) && NoDoubleSpace(s)
    ensures NoDoubleSpace(t)
  {
    var i, j :| 0 <= i <= j <= |s| && t == s[i..j];
    assert forall k :: 0 <= k < |t| ==> t[k] == s[i + k];
  }

  lemma {:induction false} TrimShape(s: string)
    ensures IsTrimmed(Trim(s))
    ensures NoDoubleSpace(s) ==> NoDoubleSpace(Trim(s))
    ensures IsTrimmed(s) ==> Trim(s) == s
  {
    TrimStartShape(s);
    TrimEndShape(TrimStart(s));
    if NoDoubleSpace(s) {
      TrimIsStretch(s);
      StretchKeepsSingleSpaces(Trim(s), s);
    }
  }

  /** Every result is trimmed and single-spaced, and such texts are left alone. */
  lemma NormalForm(s: string)
    ensures NoDoubleSpace(Normalise(s)) && IsTrimmed(Normalise(s))
    ensures NoDoubleSpace(s) && IsTrimmed(s) ==> Normalise(s) == s
  {
    CollapseShape(s);
    TrimShape(Collapse(s));
  }

  lemma NormaliseIdempotent(s: string)
    ensures Normalise(Normalise(s)) == Normalise(s)
  {
    NormalForm(s);
    NormalForm(Normalise(s));
  }

  // ------------------------------------------------------------------ how spacing normalises

  /** Collapsing acts separately on the two sides of a place where no double space can straddle. */
  lemma {:induction false} CollapseAppend(a: string, b: string)
    requires |a| > 0 && |b| > 0 ==> a[|a| - 1] != ' ' || b[0] != ' '
    ensures Collapse(a + b) == Collapse(a) + Collapse(b)
  {
    if |a| == 0 {
      assert a + b == b;
    } else {
      assert (a + b)[1..] == a[1..] + b;
      CollapseAppend(a[1..], b);
    }
  }

  lemma {:induction false} CollapseWord(w: string)
    requires NoBlank(w)
    ensures Collapse(w) == w
  {
    CollapseShape(w);
  }

  /** A run of blanks stays one, and ends as a single space exactly when it was spaces only. */
  lemma {:induction false} CollapseBlank(s: string)
    requires AllBlank(s)
    ensures AllBlank(Collapse(s))
    ensures |s| > 0 ==> |Collapse(s)| > 0 && (Collapse(s) == " " <==> AllSpaces(s))
  {
    if |s| > 0 {
      CollapseBlank(s[1..]);
      CollapseShape(s);
      assert AllSpaces(s) <==> s[0] == ' ' && AllSpaces(s[1..]) by { assert s == [s[0]] + s[1..]; }
    }
  }

  function CollapseAll(gaps: seq<string>): (r: seq<string>)
    ensures |r| == |gaps| && forall i :: 0 <= i < |r| ==> r[i] == Collapse(gaps[i])
  {
    seq(|gaps|, i requires 0 <= i < |gaps| => Collapse(gaps[i]))
  }

  lemma {:induction false} SpacedEnds(words: seq<string>, gaps: seq<string>)
    requires AllWords(words) && |words| == |gaps| + 1
    ensures |Spaced(words, gaps)| > 0 && !IsBlank(Spaced(words, gaps)[0])
    ensures !IsBlank(Spaced(words, gaps)[|Spaced(words, gaps)| - 1])
  {
    assert IsWord(words[0]);
    if |gaps| > 0 {
      SpacedEnds(words[1..], gaps[1..]);
    }
  }

  lemma {:induction false} CollapseSpaced(words: seq<string>, gaps: seq<string>)
    requires AllWords(words) && |words| == |gaps| + 1 && AreGaps(gaps)
    ensures Collapse(Spaced(words, gaps)) == Spaced(words, CollapseAll(gaps))
  {
    CollapseWord(words[0]);
    if |gaps| > 0 {
      var rest := Spaced(words[1..], gaps[1..]);
      SpacedEnds(words[1..], gaps[1..]);
      CollapseSpaced(words[1..], gaps[1..]);
      assert IsWord(words[0]);
      CollapseAppend(gaps[0], rest);
      CollapseAppend(words[0], gaps[0] + rest);
      assert words[0] + (gaps[0] + rest) == words[0] + gaps[0] + rest;
      assert CollapseAll(gaps)[1..] == CollapseAll(gaps[1..]);
      assert Collapse(Spaced(words, gaps)) == words[0] + Collapse(gaps[0]) + Collapse(rest);
    }
  }

  lemma {:induction false} TrimStartBlank(lead: string, s: string)
    requires AllBlank(lead) && (|s| > 0 ==> !IsBlank(s[0]))
    ensures TrimStart(lead + s) == s
  {
    if |lead| > 0 {
      assert (lead + s)[1..] == lead[1..] + s;
      TrimStartBlank(lead[1..], s);
    } else {
      assert lead + s == s;
    }
  }

  lemma {:induction false} TrimEndBlank(s: string, trail: string)
    requires AllBlank(trail) && (|s| > 0 ==> !IsBlank(s[|s| - 1]))
    ensures TrimEnd(s + trail) == s
  {
    if |trail| > 0 {
      assert (s + trail)[..|s + trail| - 1] == s + trail[..|trail| - 1];
      TrimEndBlank(s, trail[..|trail| - 1]);
    } else {
      assert s + trail == s;
    }
  }

  lemma CollapseAround(lead: string, s: string, trail: string)
    requires |s| > 0 && !IsBlank(s[0]) && !IsBlank(s[|s| - 1]) && AllBlank(lead) && AllBlank(trail)
    ensures Collapse(lead + s + trail) == Collapse(lead) + Collapse(s) + Collapse(trail)
    ensures AllBlank(Collapse(lead)) && AllBlank(Collapse(trail))
  {
    CollapseAppend(lead, s);
    CollapseAppend(lead + s, trail);
    CollapseBlank(lead);
    CollapseBlank(trail);
  }

  lemma TrimAround(lead: string, s: string, trail: string)
    requires |s| > 0 && !IsBlank(s[0]) && !IsBlank(s[|s| - 1]) && AllBlank(lead) && AllBlank(trail)
    ensures Trim(lead + s + trail) == s
  {
    assert lead + s + trail == lead + (s + trail);
    TrimStartBlank(lead, s + trail);
    TrimEndBlank(s, trail);
  }

  /** Outer blanks vanish and each gap is collapsed on its own. */
  lemma NormaliseTyping(words: seq<string>, lead: string, gaps: seq<string>, trail: string)
    requires AllWords(words) && |words| == |gaps| + 1 && AreGaps(gaps) && AllBlank(lead) && AllBlank(trail)
    ensures Normalise(lead + Spaced(words, gaps) + trail) == Spaced(words, CollapseAll(gaps))
  {
    SpacedEnds(words, gaps);
    CollapseSpaced(words, gaps);
    SpacedEnds(words, CollapseAll(gaps));
    CollapseAround(lead, Spaced(words, gaps), trail);
    TrimAround(Collapse(lead), Spaced(words, CollapseAll(gaps)), Collapse(trail));
  }

  /** Words and gaps can be read back from the text: only one choice of gaps gives it. */
  lemma {:induction false} GapsDetermined(words: seq<string>, g: seq<string>, h: seq<string>)
    requires AllWords(words) && |words| == |g| + 1 == |h| + 1 && AreGaps(g) && AreGaps(h)
    requires Spaced(words, g) == Spaced(words, h)
    ensures g == h
  {
    if |g| > 0 {
      var x, y := Spaced(words[1..], g[1..]), Spaced(words[1..], h[1..]);
      SpacedEnds(words[1..], g[1..]);
      SpacedEnds(words[1..], h[1..]);
      assert g[0] + x == h[0] + y by {
        assert g[0] + x == Spaced(words, g)[|words[0]|..];
        assert h[0] + y == Spaced(words, h)[|words[0]|..];
      }
      GapSplit(g[0], x, h[0], y);
      GapsDetermined(words[1..], g[1..], h[1..]);
      assert g == [g[0]] + g[1..] && h == [h[0]] + h[1..];
    }
  }

  lemma {:induction false} GapSplit(a: string, x: string, b: string, y: string)
    requires a + x == b + y && AllBlank(a) && AllBlank(b)
    requires |x| > 0 && |y| > 0 && !IsBlank(x[0]) && !IsBlank(y[0])
    ensures a == b && x == y
  {
    BlankRunOf(a, x);
    BlankRunOf(b, y);
    assert a == (a + x)[..|a|] == b && x == (a + x)[|a|..] == y;
  }

  /** How many blanks a text begins with. */
  function BlankRun(s: string): nat {
    if |s| > 0 && IsBlank(s[0]) then 1 + BlankRun(s[1..]) else 0
  }

  lemma {:induction false} BlankRunOf(a: string, x: string)
    requires AllBlank(a) && |x| > 0 && !IsBlank(x[0])
    ensures BlankRun(a + x) == |a|
  {
    if |a| > 0 {
      assert (a + x)[1..] == a[1..] + x;
      BlankRunOf(a[1..], x);
    } else {
      assert a + x == x;
    }
  }

  lemma {:induction false} ConcatSpaces(parts: seq<string>)
    ensures AllSpaces(Concat(parts)) <==> forall i :: 0 <= i < |parts| ==> AllSpaces(parts[i])
  {
    if |parts| > 0 {
      var first, rest := parts[0], Concat(parts[1..]);
      ConcatSpaces(parts[1..]);
      assert forall k :: 0 <= k < |first| ==> first[k] == (first + rest)[k];
      assert forall k :: 0 <= k < |rest| ==> rest[k] == (first + rest)[|first| + k];
      assert forall i :: 0 <= i < |parts| - 1 ==> parts[1..][i] == parts[i + 1];
    }
  }

  /** A typing normalises to the single-space join exactly when its gaps are made of spaces only:
      a tab or a no-break space between two words survives. */
  lemma {:induction false} NormalisesToJoinIff(s: string, words: seq<string>, lead: string, gaps: seq<string>,
                                               trail: string)
    requires IsTyping(s, words, lead, gaps, trail)
    ensures Normalise(s) == Join(words) <==> AllSpaces(Concat(gaps))
  {
    var single := seq(|words| - 1, _ => " ");
    NormaliseTyping(words, lead, gaps, trail);
    ConcatSpaces(gaps);
    forall i | 0 <= i < |gaps|
      ensures CollapseAll(gaps)[i] == " " <==> AllSpaces(gaps[i])
      ensures |CollapseAll(gaps)[i]| > 0 && AllBlank(CollapseAll(gaps)[i])
    {
      CollapseBlank(gaps[i]);
    }
    if Normalise(s) == Join(words) {
      GapsDetermined(words, CollapseAll(gaps), single);
    }
    if AllSpaces(Concat(gaps)) {
      assert CollapseAll(gaps) == single;
    }
  }

  /** Two words with a tab between them do not. */
  lemma {:induction false} TabSurvives(a: string, b: string)
    requires IsWord(a) && IsWord(b)
    ensures Normalise(a + "\t" + b) != Join([a, b])
  {
    var words, gaps := [a, b], ["\t"];
    assert words[1..] == [b] && gaps[1..] == [];
    assert Spaced(words, gaps) == a + "\t" + b;
    assert "" + Spaced(words, gaps) + "" == a + "\t" + b;
    assert Concat(gaps) == "\t" + Concat(gaps[1..]) && Concat(gaps)[0] == '\t';
    assert !AllSpaces(Concat(gaps));
    NormalisesToJoinIff(a + "\t" + b, words, "", gaps, "");
  }

  // ------------------------------------------------------------------ splitting undoes joining

  predicate NoSpace(s: string) {
    forall i :: 0 <= i < |s| ==> s[i] != ' '
  }

  lemma {:induction false} SplitJoin(words: seq<string>)
    requires |words| > 0 && forall i :: 0 <= i < |words| ==> NoSpace(words[i])
    ensures Split(Join(words)) == words
  {
    if |words| == 1 {
      SplitAbsent(words[0], " ");
    } else {
      var single := seq(|words| - 1, _ => " ");
      assert single[1..] == seq(|words[1..]| - 1, _ => " ");
      SplitFirst(words[0], " ", Join(words[1..]));
      SplitJoin(words[1..]);
    }
  }

  function Spaces(s: string): nat {
    if |s| == 0 then 0 else (if s[0] == ' ' then 1 else 0) + Spaces(s[1..])
  }

  /** The word check counts spaces, whatever stands between them. */
  lemma {:induction false} SplitCounts(s: string)
    ensures |Split(s)| == Spaces(s) + 1 && (IsValidPhrase(s) <==> Spaces(s) == 11)
  {
    if |s| > 0 {
      SplitCounts(s[1..]);
    }
  }

  /** Twelve words in any two spacings: one normal form, which splits back into them and passes the check. */
  lemma {:induction false} SpacingRecovered(words: seq<string>, registered: string, typed: string)
    requires |words| == 12
    requires IsSpacingOf(registered, words) && IsSpacingOf(typed, words)
    ensures Normalise(registered) == Normalise(typed) == Join(words)
    ensures Split(Normalise(typed)) == words && IsValidPhrase(Normalise(typed))
  {
    var lead, gaps, trail :| IsTyping(registered, words, lead, gaps, trail) && AllSpaces(Concat(gaps));
    var lead2, gaps2, trail2 :| IsTyping(typed, words, lead2, gaps2, trail2) && AllSpaces(Concat(gaps2));
    NormalisesToJoinIff(registered, words, lead, gaps, trail);
    NormalisesToJoinIff(typed, words, lead2, gaps2, trail2);
    assert forall i :: 0 <= i < |words| ==> IsWord(words[i]) && NoSpace(words[i]);
    SplitJoin(words);
  }
}
