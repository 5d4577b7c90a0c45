/** Python string order and `_normalize_term`, with ASCII case and Python's white space. */
module Text {

  // ---- the order of strings

  predicate LexLe(a: string, b: string) {
    a == "" || (b != "" && (a[0] < b[0] || (a[0] == b[0] && LexLe(a[1..], b[1..]))))
  }

  lemma {:induction false} LexTotal(a: string, b: string)
    ensures LexLe(a, b) || LexLe(b, a)
  {
    if a != "" && b != "" { LexTotal(a[1..], b[1..]); }
  }

  lemma {:induction false} LexAntisymmetric(a: string, b: string)
    requires LexLe(a, b) && LexLe(b, a)
    ensures a == b
  {
    if a != "" && b != "" {
      LexAntisymmetric(a[1..], b[1..]);
      assert a == [a[0]] + a[1..] && b == [b[0]] + b[1..];
    }
  }

  lemma {:induction false} LexTransitive(a: string, b: string, c: string)
    requires LexLe(a, b) && LexLe(b, c)
    ensures LexLe(a, c)
  {
    if a != "" && b != "" && c != "" && a[0] == b[0] && b[0] == c[0] { LexTransitive(a[1..], b[1..], c[1..]); }
  }

  /** At the first difference the smaller character decides; a prefix comes first. */
  predicate DecidedAt(a: string, b: string, i: nat) {
    i <= |a| && i <= |b| && a[..i] == b[..i] && (i == |a| || (i < |b| && a[i] < b[i]))
  }

  lemma {:induction false} LexLeMeaning(a: string, b: string)
    ensures LexLe(a, b) <==> exists i :: DecidedAt(a, b, i)
  {
    if a == "" {
      assert DecidedAt(a, b, 0);
    } else if b != "" && a[0] == b[0] {
      LexLeMeaning(a[1..], b[1..]);
      if i: nat :| DecidedAt(a[1..], b[1..], i) {
        assert a[..i + 1] == [a[0]] + a[1..][..i] && b[..i + 1] == [b[0]] + b[1..][..i];
        assert DecidedAt(a, b, i + 1);
      }
      if i: nat :| DecidedAt(a, b, i) {
        assert i > 0;
        assert a[1..][..i - 1] == a[..i][1..] && b[1..][..i - 1] == b[..i][1..];
        assert DecidedAt(a[1..], b[1..], i - 1);
      }
    } else if b != "" && a[0] < b[0] {
      assert DecidedAt(a, b, 0);
    } else {
      forall i: nat ensures !DecidedAt(a, b, i) {
        assert 0 < i <= |a| && i <= |b| ==> a[..i][0] == a[0] && b[..i][0] == b[0];
      }
    }
  }

  // ---- normalisation

  /** `str.isspace()` */
  predicate IsSpace(c: char) {
    var n := c as int;
    || 0x09 <= n <= 0x0D || 0x1C <= n <= 0x20 || n == 0x85 || n == 0xA0 || n == 0x1680
    || 0x2000 <= n <= 0x200A || 0x2028 <= n <= 0x2029 || n == 0x202F || n == 0x205F || n == 0x3000
  }

  const BLANK_CODES := [
    0x09, 0x0A, 0x0B, 0x0C, 0x0D, 0x1C, 0x1D, 0x1E, 0x1F, 0x20, 0x85, 0xA0, 0x1680, 0x2000, 0x2001, 0x2002, 0x2003,
    0x2004, 0x2005, 0x2006, 0x2007, 0x2008, 0x2009, 0x200A, 0x2028, 0x2029, 0x202F, 0x205F, 0x3000
  ]

  /** The characters that separate words, by code. */
  lemma BlankMeaning(c: char)
    ensures IsSpace(c) <==> c as int in BLANK_CODES
  {}

  function LowerChar(c: char): char {
    if 'A' <= c <= 'Z' then (c as int + 32) as char else c
  }

  function Lower(s: string): (r: string)
    ensures |r| == |s| && forall i | 0 <= i < |s| :: r[i] == LowerChar(s[i])
  {
    seq(|s|, i requires 0 <= i < |s| => LowerChar(s[i]))
  }

  function WordLength(s: string): (n: nat)
    ensures n <= |s|
    ensures s != "" && !IsSpace(s[0]) ==> n > 0
  {
    if s == "" || IsSpace(s[0]) then 0 else 1 + WordLength(s[1..])
  }

  /** `s.split()` */
  function Words(s: string): seq<string>
    decreases |s|
  {
    if s == "" then []
    else if IsSpace(s[0]) then Words(s[1..])
    else [s[..WordLength(s)]] + Words(s[WordLength(s)..])
  }

  /** `" ".join(words)` */
  function Join(words: seq<string>): string {
    if words == [] then ""
    else if |words| == 1 then words[0]
    else words[0] + " " + Join(words[1..])
  }

  /** `_normalize_term` */
  function Normalize(s: string): string {
    Join(Words(Lower(s)))
  }

  // ---- runs of characters between runs of blanks

  ghost predicate AllBlank(g: string) {
    forall i | 0 <= i < |g| :: IsSpace(g[i])
  }

  ghost predicate NonBlank(w: string) {
    w != "" && forall i | 0 <= i < |w| :: !IsSpace(w[i])
  }

  /** gaps[0] + words[0] + gaps[1] + ... + words[n-1] + gaps[n] */
  ghost function Interleave(gaps: seq<string>, words: seq<string>): string
    requires |gaps| == |words| + 1
  {
    if words == [] then gaps[0] else gaps[0] + words[0] + Interleave(gaps[1..], words[1..])
  }

  /** The words are the maximal runs of non-blank characters of s, in order. */
  ghost predicate Runs(s: string, words: seq<string>, gaps: seq<string>) {
    && |gaps| == |words| + 1 && s == Interleave(gaps, words)
    && (forall i | 0 <= i < |words| :: NonBlank(words[i]))
    && (forall i | 0 <= i < |gaps| :: AllBlank(gaps[i]))
    && forall i | 0 < i < |words| :: gaps[i] != ""
  }

  lemma {:induction false} WordsSkip(g: string, t: string)
    requires AllBlank(g)
    ensures Words(g + t) == Words(t)
  {
    if g == "" {
      assert g + t == t;
    } else {
      assert (g + t)[1..] == g[1..] + t;
      WordsSkip(g[1..], t);
    }
  }

  lemma {:induction false} WordThenRest(w: string, rest: string)
    requires NonBlank(w) && (rest == "" || IsSpace(rest[0]))
    ensures WordLength(w + rest) == |w|
  {
    if |w| > 1 {
      WordThenRest(w[1..], rest);
      assert (w + rest)[1..] == w[1..] + rest;
    } else {
      assert (w + rest)[1..] == rest;
    }
  }

  lemma FirstWord(w: string, rest: string)
    requires NonBlank(w) && (rest == "" || IsSpace(rest[0]))
    ensures Words(w + rest) == [w] + Words(rest)
  {
    WordThenRest(w, rest);
    var all := w + rest;
    assert all[0] == w[0] && all[..|w|] == w && all[|w|..] == rest;
  }

  lemma RestOfRuns(words: seq<string>, gaps: seq<string>)
    requires words != [] && |gaps| == |words| + 1 && Runs(Interleave(gaps, words), words, gaps)
    ensures Runs(Interleave(gaps[1..], words[1..]), words[1..], gaps[1..])
    ensures var rest := Interleave(gaps[1..], words[1..]); rest == "" || IsSpace(rest[0])
  {
    var rest := Interleave(gaps[1..], words[1..]);
    assert AllBlank(gaps[1]);
    if |words| == 1 {
      assert rest == gaps[1];
    } else {
      assert gaps[1] != "" && gaps[1..][0] == gaps[1];
      assert rest[0] == gaps[1][0];
    }
  }

  /** `split` finds exactly the maximal runs. */
  lemma {:induction false} RunsAreWords(s: string, words: seq<string>, gaps: seq<string>)
    requires Runs(s, words, gaps)
    ensures Words(s) == words
    decreases |words|
  {
    if words == [] {
      WordsSkip(s, "");
      assert s + "" == s;
    } else {
      var rest := Interleave(gaps[1..], words[1..]);
      RestOfRuns(words, gaps);
      RunsAreWords(rest, words[1..], gaps[1..]);
      assert s == gaps[0] + (words[0] + rest);
      WordsSkip(gaps[0], words[0] + rest);
      FirstWord(words[0], rest);
      assert words == [words[0]] + words[1..];
    }
  }

  lemma {:induction false} WordIsRun(s: string)
    requires s != "" && !IsSpace(s[0])
    ensures NonBlank(s[..WordLength(s)])
    ensures s[WordLength(s)..] == "" || IsSpace(s[WordLength(s)..][0])
  {
    if |s| > 1 && !IsSpace(s[1]) {
      WordIsRun(s[1..]);
      assert s[..WordLength(s)] == [s[0]] + s[1..][..WordLength(s[1..])];
      assert s[WordLength(s)..] == s[1..][WordLength(s[1..])..];
    }
  }

  lemma BlankPrepends(c: char, s: string, words: seq<string>, gaps: seq<string>)
    requires IsSpace(c) && Runs(s, words, gaps)
    ensures Runs([c] + s, words, [[c] + gaps[0]] + gaps[1..])
  {
    var more := [[c] + gaps[0]] + gaps[1..];
    assert more[1..] == gaps[1..];
    if words != [] {
      assert [c] + (gaps[0] + words[0] + Interleave(gaps[1..], words[1..]))
          == ([c] + gaps[0]) + words[0] + Interleave(gaps[1..], words[1..]);
    }
  }

  lemma WordPrepends(w: string, s: string, words: seq<string>, gaps: seq<string>)
    requires NonBlank(w) && Runs(s, words, gaps) && (s == "" || IsSpace(s[0]))
    ensures Runs(w + s, [w] + words, [""] + gaps)
  {
    var more, all := [""] + gaps, [w] + words;
    assert more[1..] == gaps && all[1..] == words;
    assert Interleave(more, all) == "" + w + Interleave(gaps, words) == w + s;
  }

  /** Every string splits into runs. */
  lemma {:induction false} WordsAreRuns(s: string) returns (gaps: seq<string>)
    ensures Runs(s, Words(s), gaps)
    decreases |s|
  {
    if s == "" {
      gaps := [""];
    } else if IsSpace(s[0]) {
      var rest := WordsAreRuns(s[1..]);
      BlankPrepends(s[0], s[1..], Words(s[1..]), rest);
      gaps := [[s[0]] + rest[0]] + rest[1..];
      assert s == [s[0]] + s[1..];
    } else {
      var n := WordLength(s);
      var rest := WordsAreRuns(s[n..]);
      WordIsRun(s);
      WordPrepends(s[..n], s[n..], Words(s[n..]), rest);
      gaps := [""] + rest;
      assert s == s[..n] + s[n..];
    }
  }

  // ---- joining

  /** Nothing before the first word and after the last, a single blank between. */
  ghost function SingleBlanks(n: nat): (gaps: seq<string>)
    ensures |gaps| == n + 1
  {
    seq(n + 1, i requires 0 <= i < n + 1 => if 0 < i < n then " " else "")
  }

  lemma {:induction false} JoinIsInterleave(words: seq<string>)
    ensures Join(words) == Interleave(SingleBlanks(|words|), words)
  {
    var n := |words|;
    var gaps := SingleBlanks(n);
    if n == 1 {
      assert gaps[1..][0] == "";
      assert Interleave(gaps[1..], words[1..]) == "";
      assert "" + words[0] + "" == words[0];
    } else if n > 1 {
      JoinIsInterleave(words[1..]);
      var rest := SingleBlanks(n - 1);
      assert rest[0] == "" && " " + rest[0] == " ";
      assert gaps[1..] == [" " + rest[0]] + rest[1..];
      FirstGap(" ", rest, words[1..]);
      assert "" + words[0] + (" " + Join(words[1..])) == words[0] + " " + Join(words[1..]);
    }
  }

  lemma FirstGap(g: string, gaps: seq<string>, words: seq<string>)
    requires |gaps| == |words| + 1
    ensures Interleave([g + gaps[0]] + gaps[1..], words) == g + Interleave(gaps, words)
  {
    assert ([g + gaps[0]] + gaps[1..])[1..] == gaps[1..];
    if words != [] {
      assert (g + gaps[0]) + words[0] + Interleave(gaps[1..], words[1..])
          == g + (gaps[0] + words[0] + Interleave(gaps[1..], words[1..]));
    }
  }

  lemma SingleBlanksAreBlank(n: nat)
    ensures forall i | 0 <= i < n + 1 :: AllBlank(SingleBlanks(n)[i])
    ensures forall i | 0 < i < n :: SingleBlanks(n)[i] != ""
  {}

  /** Joined words are runs again. */
  lemma JoinedAreRuns(words: seq<string>)
    requires forall i | 0 <= i < |words| :: NonBlank(words[i])
    ensures Runs(Join(words), words, SingleBlanks(|words|)) && Words(Join(words)) == words
  {
    JoinIsInterleave(words);
    SingleBlanksAreBlank(|words|);
    RunsAreWords(Join(words), words, SingleBlanks(|words|));
  }

  // ---- lower case

  /** d is c in lower case: codes 65 to 90 move up by 32, all others stay. */
  ghost predicate LowersTo(c: char, d: char) {
    d as int == if 65 <= c as int <= 90 then c as int + 32 else c as int
  }

  ghost predicate WordLowersTo(w: string, l: string) {
    |w| == |l| && forall i | 0 <= i < |w| :: LowersTo(w[i], l[i])
  }

  /** Equal but for the case of ASCII letters. */
  ghost predicate SameLetters(a: string, b: string) {
    |a| == |b| && forall i | 0 <= i < |a| :: SameLetter(a[i] as int, b[i] as int)
  }

  ghost predicate SameLetter(c: int, d: int) {
    c == d || (65 <= c <= 90 && d == c + 32) || (65 <= d <= 90 && c == d + 32)
  }

  lemma LowerByCode(s: string)
    ensures WordLowersTo(s, Lower(s))
    ensures NonBlank(s) ==> NonBlank(Lower(s))
    ensures AllBlank(s) ==> Lower(s) == s
  {
    forall i | 0 <= i < |s|
      ensures LowersTo(s[i], Lower(s)[i]) && (IsSpace(Lower(s)[i]) <==> IsSpace(s[i]))
      ensures IsSpace(s[i]) ==> Lower(s)[i] == s[i]
    {
      assert Lower(s)[i] == LowerChar(s[i]);
    }
  }

  lemma SameLettersIffLowerAlike(a: string, b: string)
    ensures SameLetters(a, b) <==> Lower(a) == Lower(b)
  {
    LowerByCode(a);
    LowerByCode(b);
    if Lower(a) == Lower(b) {
      forall i | 0 <= i < |a| ensures SameLetter(a[i] as int, b[i] as int) {
        assert LowersTo(a[i], Lower(a)[i]) && LowersTo(b[i], Lower(b)[i]);
      }
    }
    if SameLetters(a, b) {
      forall i | 0 <= i < |a| ensures Lower(a)[i] == Lower(b)[i] {
        assert SameLetter(a[i] as int, b[i] as int);
        assert LowersTo(a[i], Lower(a)[i]) && LowersTo(b[i], Lower(b)[i]);
      }
    }
  }

  function LowerAll(words: seq<string>): (r: seq<string>)
    ensures |r| == |words| && forall i | 0 <= i < |words| :: r[i] == Lower(words[i])
  {
    seq(|words|, i requires 0 <= i < |words| => Lower(words[i]))
  }

  lemma LowerConcat(a: string, b: string)
    ensures Lower(a + b) == Lower(a) + Lower(b)
  {}

  lemma {:induction false} LowerInterleaved(gaps: seq<string>, words: seq<string>)
    requires |gaps| == |words| + 1
    ensures Lower(Interleave(gaps, words)) == Interleave(LowerAll(gaps), LowerAll(words))
    decreases |words|
  {
    if words != [] {
      LowerInterleaved(gaps[1..], words[1..]);
      assert LowerAll(gaps)[1..] == LowerAll(gaps[1..]) && LowerAll(words)[1..] == LowerAll(words[1..]);
      LowerConcat(gaps[0] + words[0], Interleave(gaps[1..], words[1..]));
      LowerConcat(gaps[0], words[0]);
    }
  }

  lemma LoweredAreRuns(s: string, words: seq<string>, gaps: seq<string>)
    requires Runs(s, words, gaps)
    ensures Runs(Lower(s), LowerAll(words), gaps)
  {
    LowerInterleaved(gaps, words);
    forall i | 0 <= i < |words| ensures NonBlank(LowerAll(words)[i]) { LowerByCode(words[i]); }
    forall i | 0 <= i < |gaps| ensures LowerAll(gaps)[i] == gaps[i] { LowerByCode(gaps[i]); }
    assert LowerAll(gaps) == gaps;
  }

  // ---- what normalising does

  lemma NormalizeIsJoin(s: string, words: seq<string>, gaps: seq<string>)
    requires Runs(s, words, gaps)
    ensures Normalize(s) == Join(LowerAll(words))
  {
    LoweredAreRuns(s, words, gaps);
    RunsAreWords(Lower(s), LowerAll(words), gaps);
  }

  /** The normal form is the maximal runs in order, each in lower case, single blanks between. */
  lemma NormalizeMeaning(s: string, words: seq<string>, gaps: seq<string>) returns (lowered: seq<string>)
    requires Runs(s, words, gaps)
    ensures |lowered| == |words| && forall i | 0 <= i < |words| :: WordLowersTo(words[i], lowered[i])
    ensures Normalize(s) == Interleave(SingleBlanks(|words|), lowered)
  {
    lowered := LowerAll(words);
    NormalizeIsJoin(s, words, gaps);
    JoinIsInterleave(lowered);
    forall i | 0 <= i < |words| ensures WordLowersTo(words[i], lowered[i]) { LowerByCode(words[i]); }
  }

  lemma LoweredNonBlank(words: seq<string>)
    requires forall i | 0 <= i < |words| :: NonBlank(words[i])
    ensures forall i | 0 <= i < |words| :: NonBlank(LowerAll(words)[i])
  {
    forall i | 0 <= i < |words| ensures NonBlank(LowerAll(words)[i]) { LowerByCode(words[i]); }
  }

  /** Two strings normalise alike exactly when their runs are equal but for ASCII case: how
      long the blanks are, and which blanks, does not matter. */
  lemma NormalizeAlikeIff(s: string, words: seq<string>, gaps: seq<string>,
                          t: string, words': seq<string>, gaps': seq<string>)
    requires Runs(s, words, gaps) && Runs(t, words', gaps')
    ensures Normalize(s) == Normalize(t) <==>
              |words| == |words'| && forall i | 0 <= i < |words| :: SameLetters(words[i], words'[i])
  {
    NormalizeIsJoin(s, words, gaps);
    NormalizeIsJoin(t, words', gaps');
    LoweredNonBlank(words);
    LoweredNonBlank(words');
    JoinedAreRuns(LowerAll(words));
    JoinedAreRuns(LowerAll(words'));
    if |words| == |words'| {
      forall i | 0 <= i < |words|
        ensures SameLetters(words[i], words'[i]) <==> LowerAll(words)[i] == LowerAll(words')[i]
      {
        SameLettersIffLowerAlike(words[i], words'[i]);
      }
    }
    if Normalize(s) == Normalize(t) {
      assert LowerAll(words) == LowerAll(words');
      assert |words| == |LowerAll(words)| == |LowerAll(words')| == |words'|;
    } else {
      assert LowerAll(words) != LowerAll(words');
    }
  }

  lemma LowerTwice(s: string)
    ensures Lower(Lower(s)) == Lower(s)
  {}

  /** Normalising twice is normalising once. */
  lemma NormalizeIdempotent(s: string)
    ensures Normalize(Normalize(s)) == Normalize(s)
  {
    var gaps := WordsAreRuns(s);
    var lowered := LowerAll(Words(s));
    NormalizeIsJoin(s, Words(s), gaps);
    LoweredNonBlank(Words(s));
    JoinedAreRuns(lowered);
    NormalizeIsJoin(Normalize(s), lowered, SingleBlanks(|lowered|));
    forall i | 0 <= i < |lowered| ensures LowerAll(lowered)[i] == lowered[i] { LowerTwice(Words(s)[i]); }
    assert LowerAll(lowered) == lowered;
  }
}
