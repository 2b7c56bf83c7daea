/** `_normalize_chord_figure`: the rewrite that makes a chord figure
    acceptable to the chord-symbol library. Three stages, in this order:
    enharmonic note tokens found by the regular expression
    `\b[A-G](?:bb|##|b|#)\b`, literal quality rewrites, and flats
    (`bb` to `--`, then `b` to `-`). */
module Normalizer {
  import opened Optional
  import opened Text

  predicate IsNoteLetter(c: char) {
    'A' <= c <= 'G'
  }

  /** The regular-expression assertion `\b` at the start of `t`, given
      whether the character before it is a word character: a word
      character on exactly one side. */
  predicate BoundaryBefore(prevWord: bool, t: string) {
    prevWord != (t != [] && IsWordChar(t[0]))
  }

  /** `t` starts with `n` (one or two) copies of the accidental `c`,
      followed by `\b`. */
  predicate AccidentalsAt(t: string, c: char, n: int)
    requires 1 <= n <= 2
  {
    n <= |t| && t[0] == c && (n == 1 || t[1] == c) && BoundaryBefore(IsWordChar(c), t[n..])
  }

  /** The length of the match of `\b[A-G](?:bb|##|b|#)\b` at the start of
      `t`, trying the alternatives in the order the pattern lists them;
      `prevWord` tells whether the character before `t` is a word
      character. */
  function TokenAt(prevWord: bool, t: string): (r: Option<int>)
    ensures r.Some? ==> 2 <= r.value <= 3 && r.value <= |t|
  {
    if t != [] && BoundaryBefore(prevWord, t) && IsNoteLetter(t[0]) then
      var u := t[1..];
      if AccidentalsAt(u, 'b', 2) then Some(3)
      else if AccidentalsAt(u, '#', 2) then Some(3)
      else if AccidentalsAt(u, 'b', 1) then Some(2)
      else if AccidentalsAt(u, '#', 1) then Some(2)
      else None
    else None
  }

  /** The source's `enharmonic_map`. */
  const EnharmonicMap: map<string, string> := map[
    "E#" := "F", "B#" := "C", "Fb" := "E", "Cb" := "B",
    "Dbb" := "C", "Ebb" := "D", "Gbb" := "F", "Abb" := "G", "Bbb" := "A"]

  /** `simplify_enharmonics`: a matched token mapped, or left as it is. */
  function Simplify(token: string): (r: string)
    ensures |r| <= |token|
  {
    if token in EnharmonicMap then EnharmonicMap[token] else token
  }

  /** `re.sub` of the token pattern over `t`: either a token matches at the
      start and is replaced (the scan resumes after it), or the first
      character is copied. `prevWord` carries the one character of context
      the `\b` before the next match looks at. */
  function Enharmonics(prevWord: bool, t: string): (r: string)
    ensures |r| <= |t|
    decreases |t|
  {
    if t == [] then []
    else match TokenAt(prevWord, t)
      case Some(n) => Simplify(t[..n]) + Enharmonics(IsWordChar(t[n - 1]), t[n..])
      case None => [t[0]] + Enharmonics(IsWordChar(t[0]), t[1..])
  }

  /** Stage 1. */
  function EnharmonicPass(s: string): string {
    Enharmonics(false, s)
  }

  /** Stage 2: alternate quality spellings. */
  function QualityPass(s: string): string {
    Replace(Replace(Replace(s, "add9", "add2"), "m7(11)", "m11"), "m(maj7,9)", "m(maj9)")
  }

  /** Stage 3: double flats, then single flats. */
  function FlatPass(s: string): string {
    Replace(Replace(s, "bb", "--"), "b", "-")
  }

  /** Rewriting `bb` first and `b` afterwards leaves the same text as
      turning every `b` into `-` at once. */
  lemma {:induction false} FlatPassIsMapChar(s: string)
    ensures FlatPass(s) == MapChar(s, 'b', '-')
  {
    ReplaceCharIsMapChar(Replace(s, "bb", "--"), 'b', '-');
    PairsThenSingles(s);
  }

  lemma {:induction false} PairsThenSingles(s: string)
    ensures MapChar(Replace(s, "bb", "--"), 'b', '-') == MapChar(s, 'b', '-')
    decreases |s|
  {
    if |s| >= 2 {
      if s[..2] == "bb" {
        PairsThenSingles(s[2..]);
        MapCharAppend("--", Replace(s[2..], "bb", "--"), 'b', '-');
        MapCharAppend("bb", s[2..], 'b', '-');
        assert s == "bb" + s[2..];
      } else {
        PairsThenSingles(s[1..]);
        MapCharAppend([s[0]], Replace(s[1..], "bb", "--"), 'b', '-');
        MapCharAppend([s[0]], s[1..], 'b', '-');
        assert s == [s[0]] + s[1..];
      }
    }
  }

  /** The normaliser: "" and "N.C." are returned as they are; any other
      figure goes through the three stages and comes out no longer than it
      went in and with no lower-case `b` left. */
  function Normalize(figure: string): (r: string)
    ensures figure == "" || figure == "N.C." ==> r == figure
    ensures figure != "" && figure != "N.C." ==> 'b' !in r
    ensures |r| <= |figure|
  {
    if figure == "" || figure == "N.C." then figure
    else
      var q := QualityPass(EnharmonicPass(figure));
      FlatPassIsMapChar(q);
      FlatPass(q)
  }

  // ---------------------------------------------------------------------------
  // Stages that leave a figure alone

  /** Replacing a pattern one of whose characters `s` lacks changes nothing. */
  lemma ReplaceAbsent(s: string, pat: string, rep: string, c: char)
    requires pat != [] && c in pat && c !in s
    ensures Replace(s, pat, rep) == s
  {
    var j :| 0 <= j < |pat| && pat[j] == c;
    AbsentByChar(s, pat, j);
    ReplaceNoOccurrence(s, pat, rep);
  }

  /** A figure with no `9` and no `(` has no alternate quality spelling. */
  lemma QualityPassAbsent(s: string)
    requires '9' !in s && '(' !in s
    ensures QualityPass(s) == s
  {
    ReplaceAbsent(s, "add9", "add2", '9');
    ReplaceAbsent(s, "m7(11)", "m11", '(');
    ReplaceAbsent(s, "m(maj7,9)", "m(maj9)", '(');
  }

  // ---------------------------------------------------------------------------
  // The quality stage

  /** The quality stage leaves none of the spellings it rewrites in a
      figure: each rewrite removes its own spelling, and neither a later
      rewrite nor the flat stage (which only writes `-`) brings one back.
      None of them is "N.C.", so this holds for every normalised figure. */
  lemma QualitySpellingsGone(figure: string)
    ensures Absent(Normalize(figure), "add9")
    ensures Absent(Normalize(figure), "m7(11)")
    ensures Absent(Normalize(figure), "m(maj7,9)")
  {
    if figure == "" || figure == "N.C." {
      AbsentByChar(figure, "add9", 0);
      AbsentByChar(figure, "m7(11)", 0);
      AbsentByChar(figure, "m(maj7,9)", 0);
    } else {
      var e := EnharmonicPass(figure);
      var r1 := Replace(e, "add9", "add2");
      var r2 := Replace(r1, "m7(11)", "m11");
      var r3 := Replace(r2, "m(maj7,9)", "m(maj9)");
      SuffixesOfRewrites();
      StartsOfRewrites();
      ReplaceLeavesNo(e, "add9", "add2", "add9");
      ReplaceLeavesNo(r1, "m7(11)", "m11", "add9");
      ReplaceLeavesNo(r1, "m7(11)", "m11", "m7(11)");
      ReplaceLeavesNo(r2, "m(maj7,9)", "m(maj9)", "add9");
      ReplaceLeavesNo(r2, "m(maj7,9)", "m(maj9)", "m7(11)");
      ReplaceLeavesNo(r2, "m(maj7,9)", "m(maj9)", "m(maj7,9)");
      FlatPassIsMapChar(r3);
      MapCharLeavesNo(r3, 'b', '-', "add9");
      MapCharLeavesNo(r3, 'b', '-', "m7(11)");
      MapCharLeavesNo(r3, 'b', '-', "m(maj7,9)");
    }
  }

  /** No occurrence of a rewritten spelling can start inside a replacement
      text of the quality stage. */
  lemma StartsOfRewrites()
    ensures NoneStartsIn("add2", "add9") && NoneStartsIn("m11", "add9") && NoneStartsIn("m(maj9)", "add9")
    ensures NoneStartsIn("m11", "m7(11)") && NoneStartsIn("m(maj9)", "m7(11)")
    ensures NoneStartsIn("m(maj9)", "m(maj7,9)")
  {
    forall k | 0 <= k < 4 ensures !("add9" <= "add2"[k..]) && !("add2"[k..] <= "add9") {
      Mismatch("add2", "add9", k, if k == 0 then 3 else 0);
    }
    forall k | 0 <= k < 3 ensures !("add9" <= "m11"[k..]) && !("m11"[k..] <= "add9") {
      Mismatch("m11", "add9", k, 0);
    }
    forall k | 0 <= k < 3 ensures !("m7(11)" <= "m11"[k..]) && !("m11"[k..] <= "m7(11)") {
      Mismatch("m11", "m7(11)", k, if k == 0 then 1 else 0);
    }
    MajorNinthStarts();
  }

  lemma MajorNinthStarts()
    ensures NoneStartsIn("m(maj9)", "add9") && NoneStartsIn("m(maj9)", "m7(11)")
    ensures NoneStartsIn("m(maj9)", "m(maj7,9)")
  {
    forall k | 0 <= k < 7 ensures !("add9" <= "m(maj9)"[k..]) && !("m(maj9)"[k..] <= "add9") {
      Mismatch("m(maj9)", "add9", k, if k == 3 then 1 else 0);
    }
    forall k | 0 <= k < 7 ensures !("m7(11)" <= "m(maj9)"[k..]) && !("m(maj9)"[k..] <= "m7(11)") {
      Mismatch("m(maj9)", "m7(11)", k, if k == 0 || k == 2 then 1 else 0);
    }
    forall k | 0 <= k < 7 ensures !("m(maj7,9)" <= "m(maj9)"[k..]) && !("m(maj9)"[k..] <= "m(maj7,9)") {
      Mismatch("m(maj9)", "m(maj7,9)", k, if k == 0 then 5 else if k == 2 then 1 else 0);
    }
  }

  /** No replacement text of the quality stage can complete an occurrence of
      a rewritten spelling that began before it. */
  lemma SuffixesOfRewrites()
    ensures NoSuffixMeets("add9", "add2") && NoSuffixMeets("add9", "m11") && NoSuffixMeets("add9", "m(maj9)")
    ensures NoSuffixMeets("m7(11)", "m11") && NoSuffixMeets("m7(11)", "m(maj9)")
    ensures NoSuffixMeets("m(maj7,9)", "m(maj9)")
  {
    forall j | 1 <= j < 4 ensures !Meets("add9"[j..], "add2") && !Meets("add9"[j..], "m11") && !Meets("add9"[j..], "m(maj9)") {
      Mismatch("add9", "add2", j, 0);
      Mismatch("add9", "m11", j, 0);
      Mismatch("add9", "m(maj9)", j, 0);
    }
    forall j | 1 <= j < 6 ensures !Meets("m7(11)"[j..], "m11") && !Meets("m7(11)"[j..], "m(maj9)") {
      Mismatch("m7(11)", "m11", j, 0);
      Mismatch("m7(11)", "m(maj9)", j, 0);
    }
    forall j | 1 <= j < 9 ensures !Meets("m(maj7,9)"[j..], "m(maj9)") {
      Mismatch("m(maj7,9)", "m(maj9)", j, if j == 2 then 1 else 0);
    }
  }

  /** Two texts that differ at some position are not prefixes of one
      another. */
  lemma Mismatch(rep: string, q: string, k: int, j: int)
    requires 0 <= k < |rep| && 0 <= j < |q| && k + j < |rep| && rep[k + j] != q[j]
    ensures !(q <= rep[k..]) && !(rep[k..] <= q)
  {
    assert rep[k..][j] == rep[k + j];
  }

  /** A figure is normalised by its token rewrite, its quality rewrite and
      its flat rewrite, in that order. */
  lemma NormalizesVia(figure: string, tokens: string, quality: string, out: string)
    requires figure != "" && figure != "N.C."
    requires EnharmonicPass(figure) == tokens && QualityPass(tokens) == quality
    requires MapChar(quality, 'b', '-') == out
    ensures Normalize(figure) == out
  {
    FlatPassIsMapChar(quality);
  }

  /** Text without a note letter has no token. */
  lemma {:induction false} NoLetterCopied(prevWord: bool, t: string)
    requires forall k :: 0 <= k < |t| ==> !IsNoteLetter(t[k])
    ensures Enharmonics(prevWord, t) == t
    decreases |t|
  {
    if t != [] {
      StepCopy(prevWord, t);
      NoLetterCopied(IsWordChar(t[0]), t[1..]);
    }
  }

  /** A root letter followed by a quality with no note letter in it, the
      quality not starting with an accidental: nothing is token-rewritten. */
  lemma RootThenQuality(root: char, q: string)
    requires IsNoteLetter(root) && q != [] && q[0] != '#'
    requires q[0] == 'b' ==> |q| >= 2 && IsWordChar(q[1]) && q[1] != 'b'
    requires forall k :: 0 <= k < |q| ==> !IsNoteLetter(q[k])
    ensures EnharmonicPass([root] + q) == [root] + q
  {
    var t := [root] + q;
    assert t[1..] == q;
    assert TokenAt(false, t).None?;
    StepCopy(false, t);
    NoLetterCopied(IsWordChar(root), q);
  }

  /** `add9` is spelled `add2`. */
  lemma Add9Respelled()
    ensures Normalize("Cadd9") == "Cadd2"
  {
    TokensOfAdd9();
    QualityOfAdd9();
    FlatFree("Cadd2");
    NormalizesVia("Cadd9", "Cadd9", "Cadd2", "Cadd2");
  }

  lemma TokensOfAdd9()
    ensures EnharmonicPass("Cadd9") == "Cadd9"
  {
    RootThenQuality('C', "add9");
    assert ['C'] + "add9" == "Cadd9";
  }

  lemma QualityOfAdd9()
    ensures QualityPass("Cadd9") == "Cadd2"
  {
    Add9Occurrence();
    ReplaceAbsent("Cadd2", "m7(11)", "m11", '(');
    ReplaceAbsent("Cadd2", "m(maj7,9)", "m(maj9)", '(');
  }

  lemma Add9Occurrence()
    ensures Replace("Cadd9", "add9", "add2") == "Cadd2"
  {
    AbsentByChar("C" + "add9"[..3], "add9", 3);
    ReplaceOccurrence("C", "add9", "add2", "");
    assert "C" + "add9" + "" == "Cadd9" && "C" + "add2" + "" == "Cadd2";
  }

  /** `m7(11)` is spelled `m11`. */
  lemma Minor11Respelled()
    ensures Normalize("Dm7(11)") == "Dm11"
  {
    TokensOfMinor11();
    QualityOfMinor11();
    FlatFree("Dm11");
    NormalizesVia("Dm7(11)", "Dm7(11)", "Dm11", "Dm11");
  }

  lemma TokensOfMinor11()
    ensures EnharmonicPass("Dm7(11)") == "Dm7(11)"
  {
    RootThenQuality('D', "m7(11)");
    assert ['D'] + "m7(11)" == "Dm7(11)";
  }

  lemma QualityOfMinor11()
    ensures QualityPass("Dm7(11)") == "Dm11"
  {
    ReplaceAbsent("Dm7(11)", "add9", "add2", '9');
    Minor11Occurrence();
    ReplaceAbsent("Dm11", "m(maj7,9)", "m(maj9)", '(');
  }

  lemma Minor11Occurrence()
    ensures Replace("Dm7(11)", "m7(11)", "m11") == "Dm11"
  {
    AbsentByChar("D" + "m7(11)"[..5], "m7(11)", 5);
    ReplaceOccurrence("D", "m7(11)", "m11", "");
    assert "D" + "m7(11)" + "" == "Dm7(11)" && "D" + "m11" + "" == "Dm11";
  }

  /** `m(maj7,9)` is spelled `m(maj9)`, and the flat of the root becomes
      `-` afterwards. */
  lemma MinorMajor9Respelled()
    ensures Normalize("Bbm(maj7,9)") == "B-m(maj9)"
  {
    TokensOfMinorMajor9();
    QualityOfMinorMajor9();
    FlatsOfMinorMajor9();
    NormalizesVia("Bbm(maj7,9)", "Bbm(maj7,9)", "Bbm(maj9)", "B-m(maj9)");
  }

  lemma TokensOfMinorMajor9()
    ensures EnharmonicPass("Bbm(maj7,9)") == "Bbm(maj7,9)"
  {
    RootThenQuality('B', "bm(maj7,9)");
    assert ['B'] + "bm(maj7,9)" == "Bbm(maj7,9)";
  }

  lemma QualityOfMinorMajor9()
    ensures QualityPass("Bbm(maj7,9)") == "Bbm(maj9)"
  {
    MinorMajor9Skips();
    MinorMajor9Occurrence();
  }

  lemma MinorMajor9Skips()
    ensures Replace("Bbm(maj7,9)", "add9", "add2") == "Bbm(maj7,9)"
    ensures Replace("Bbm(maj7,9)", "m7(11)", "m11") == "Bbm(maj7,9)"
  {
    AbsentByChar("Bbm(maj7,9)", "add9", 1);
    ReplaceNoOccurrence("Bbm(maj7,9)", "add9", "add2");
    AbsentByChar("Bbm(maj7,9)", "m7(11)", 3);
    ReplaceNoOccurrence("Bbm(maj7,9)", "m7(11)", "m11");
  }

  lemma MinorMajor9Occurrence()
    ensures Replace("Bbm(maj7,9)", "m(maj7,9)", "m(maj9)") == "Bbm(maj9)"
  {
    var pat := "m(maj7,9)";
    AbsentByChar("Bb" + pat[..8], pat, 8);
    ReplaceOccurrence("Bb", pat, "m(maj9)", "");
    assert "Bb" + pat + "" == "Bbm(maj7,9)" && "Bb" + "m(maj9)" + "" == "Bbm(maj9)";
  }

  lemma FlatsOfMinorMajor9()
    ensures MapChar("Bbm(maj9)", 'b', '-') == "B-m(maj9)"
  {
    var r := MapChar("Bbm(maj9)", 'b', '-');
    assert forall k :: 0 <= k < |r| ==> r[k] == "B-m(maj9)"[k];
  }

  /** One step of the scan: a token at the start is replaced. */
  lemma StepToken(prevWord: bool, t: string, n: int)
    requires TokenAt(prevWord, t) == Some(n)
    ensures Enharmonics(prevWord, t) == Simplify(t[..n]) + Enharmonics(IsWordChar(t[n - 1]), t[n..])
  {
  }

  /** One step of the scan: with no token at the start the first character
      is copied. */
  lemma StepCopy(prevWord: bool, t: string)
    requires t != [] && TokenAt(prevWord, t).None?
    ensures Enharmonics(prevWord, t) == [t[0]] + Enharmonics(IsWordChar(t[0]), t[1..])
  {
  }

  /** A token cannot reach past a separator that is neither a word
      character nor `#`. */
  lemma TokenBeforeSeparator(prevWord: bool, a: string, c: char, b: string)
    requires !IsWordChar(c) && c != '#'
    ensures TokenAt(prevWord, a + [c] + b) == TokenAt(prevWord, a)
  {
    var t := a + [c] + b;
    if a != [] {
      assert t[0] == a[0];
      var u, v := t[1..], a[1..];
      assert u == v + [c] + b;
      assert forall k :: 0 <= k < |v| ==> u[k] == v[k];
      if |v| >= 1 {
        assert u[1..] == v[1..] + [c] + b;
      }
      if |v| >= 2 {
        assert u[2..] == v[2..] + [c] + b;
      }
    }
  }

  /** Tokens never span a separator such as the `/` of a slash chord: the
      text before it and the text after it are rewritten independently. */
  lemma {:induction false} EnharmonicSplits(prevWord: bool, a: string, c: char, b: string)
    requires !IsWordChar(c) && c != '#'
    ensures Enharmonics(prevWord, a + [c] + b) == Enharmonics(prevWord, a) + [c] + Enharmonics(false, b)
    decreases |a|
  {
    if a == [] {
      SplitAtSeparator(prevWord, c, b);
    } else {
      TokenBeforeSeparator(prevWord, a, c, b);
      match TokenAt(prevWord, a)
      case Some(n) =>
        EnharmonicSplits(IsWordChar(a[n - 1]), a[n..], c, b);
        SplitAfterToken(prevWord, a, c, b, n);
      case None =>
        EnharmonicSplits(IsWordChar(a[0]), a[1..], c, b);
        SplitAfterCopy(prevWord, a, c, b);
    }
  }

  lemma SplitAtSeparator(prevWord: bool, c: char, b: string)
    requires !IsWordChar(c) && c != '#'
    ensures Enharmonics(prevWord, [] + [c] + b) == Enharmonics(prevWord, []) + [c] + Enharmonics(false, b)
  {
    var t := [c] + b;
    assert [] + [c] + b == t;
    assert TokenAt(prevWord, t).None?;
    StepCopy(prevWord, t);
    assert t[1..] == b;
  }

  lemma SplitAfterToken(prevWord: bool, a: string, c: char, b: string, n: int)
    requires TokenAt(prevWord, a) == Some(n) && TokenAt(prevWord, a + [c] + b) == Some(n)
    requires Enharmonics(IsWordChar(a[n - 1]), a[n..] + [c] + b)
      == Enharmonics(IsWordChar(a[n - 1]), a[n..]) + [c] + Enharmonics(false, b)
    ensures Enharmonics(prevWord, a + [c] + b) == Enharmonics(prevWord, a) + [c] + Enharmonics(false, b)
  {
    StepTokenOfJoin(prevWord, a, c, b, n);
    StepToken(prevWord, a, n);
    Regroup(Simplify(a[..n]), Enharmonics(IsWordChar(a[n - 1]), a[n..]), c, Enharmonics(false, b));
  }

  lemma StepTokenOfJoin(prevWord: bool, a: string, c: char, b: string, n: int)
    requires TokenAt(prevWord, a) == Some(n) && TokenAt(prevWord, a + [c] + b) == Some(n)
    ensures Enharmonics(prevWord, a + [c] + b)
      == Simplify(a[..n]) + Enharmonics(IsWordChar(a[n - 1]), a[n..] + [c] + b)
  {
    var t := a + [c] + b;
    assert t[..n] == a[..n] && t[n - 1] == a[n - 1];
    assert t[n..] == a[n..] + [c] + b;
    StepToken(prevWord, t, n);
  }

  lemma SplitAfterCopy(prevWord: bool, a: string, c: char, b: string)
    requires a != [] && TokenAt(prevWord, a).None? && TokenAt(prevWord, a + [c] + b).None?
    requires Enharmonics(IsWordChar(a[0]), a[1..] + [c] + b)
      == Enharmonics(IsWordChar(a[0]), a[1..]) + [c] + Enharmonics(false, b)
    ensures Enharmonics(prevWord, a + [c] + b) == Enharmonics(prevWord, a) + [c] + Enharmonics(false, b)
  {
    StepCopyOfJoin(prevWord, a, c, b);
    StepCopy(prevWord, a);
    Regroup([a[0]], Enharmonics(IsWordChar(a[0]), a[1..]), c, Enharmonics(false, b));
  }

  lemma StepCopyOfJoin(prevWord: bool, a: string, c: char, b: string)
    requires a != [] && TokenAt(prevWord, a + [c] + b).None?
    ensures Enharmonics(prevWord, a + [c] + b)
      == [a[0]] + Enharmonics(IsWordChar(a[0]), a[1..] + [c] + b)
  {
    var t := a + [c] + b;
    assert t[0] == a[0];
    assert t[1..] == a[1..] + [c] + b;
    StepCopy(prevWord, t);
  }

  /** Regrouping a concatenation, kept apart so that the callers'
      contexts, full of recursive definitions, need not see it. */
  lemma Regroup(x: string, y: string, c: char, z: string)
    ensures x + (y + [c] + z) == x + y + [c] + z
  {
  }

  /** The keys of the map: a note letter with one sharp, or with one or two
      flats. */
  lemma TokenShape(tk: string)
    requires tk in EnharmonicMap
    ensures 2 <= |tk| <= 3 && IsNoteLetter(tk[0])
    ensures tk[1] == '#' ==> |tk| == 2
    ensures tk[1] != '#' ==> tk[1] == 'b' && (|tk| == 3 ==> tk[2] == 'b')
  {
  }

  /** A key of the map standing as a whole word, at the start of the figure
      or after a non-word character, is replaced by its entry and the scan
      resumes after it. A word ends after a flat token when what follows is
      not a word character, and after a sharp token (`#` not being a word
      character) only when a word character follows. */
  lemma WholeWordToken(tk: string, b: string)
    requires tk in EnharmonicMap
    requires tk[|tk| - 1] == 'b' ==> b == [] || !IsWordChar(b[0])
    requires tk[|tk| - 1] == '#' ==> b != [] && IsWordChar(b[0])
    ensures Enharmonics(false, tk + b) == EnharmonicMap[tk] + Enharmonics(IsWordChar(tk[|tk| - 1]), b)
  {
    TokenShape(tk);
    var t := tk + b;
    var n := |tk|;
    assert t[..n] == tk && t[n..] == b && t[n - 1] == tk[n - 1];
    assert t[0] == tk[0] && t[1] == tk[1];
    var u := t[1..];
    if tk[1] == '#' {
      assert u[1..] == b;
      assert AccidentalsAt(u, '#', 1);
      assert !AccidentalsAt(u, '#', 2);
    } else if n == 2 {
      assert u[1..] == b;
      assert AccidentalsAt(u, 'b', 1);
      assert !AccidentalsAt(u, 'b', 2);
    } else {
      assert u[1] == tk[2];
      assert u[2..] == b;
      assert AccidentalsAt(u, 'b', 2);
    }
    assert TokenAt(false, t) == Some(n);
    StepToken(false, t, n);
  }

  /** A note letter followed by a `#` that ends the figure is never
      rewritten: no `\b` follows the `#`. */
  lemma {:induction false} TrailingSharpKept(prevWord: bool, t: string)
    requires |t| >= 2 && t[|t| - 1] == '#' && IsNoteLetter(t[|t| - 2])
    ensures var r := Enharmonics(prevWord, t);
      |r| >= 2 && r[|r| - 2..] == t[|t| - 2..]
    decreases |t|
  {
    if |t| == 2 {
      SharpAlone(prevWord, t);
    } else {
      match TokenAt(prevWord, t)
      case Some(n) =>
        SharpOutsideToken(prevWord, t, n);
        TrailingSharpKept(IsWordChar(t[n - 1]), t[n..]);
        SharpKeptAfterToken(prevWord, t, n);
      case None =>
        TrailingSharpKept(IsWordChar(t[0]), t[1..]);
        SharpKeptAfterCopy(prevWord, t);
    }
  }

  lemma SharpKeptAfterToken(prevWord: bool, t: string, n: int)
    requires |t| >= 2 && TokenAt(prevWord, t) == Some(n) && n <= |t| - 2
    requires var r := Enharmonics(IsWordChar(t[n - 1]), t[n..]);
      |r| >= 2 && r[|r| - 2..] == t[n..][|t[n..]| - 2..]
    ensures var r := Enharmonics(prevWord, t);
      |r| >= 2 && r[|r| - 2..] == t[|t| - 2..]
  {
    StepToken(prevWord, t, n);
    KeepsEnd(Simplify(t[..n]), Enharmonics(IsWordChar(t[n - 1]), t[n..]), t[n..], t);
  }

  lemma SharpKeptAfterCopy(prevWord: bool, t: string)
    requires |t| > 2 && TokenAt(prevWord, t).None?
    requires var r := Enharmonics(IsWordChar(t[0]), t[1..]);
      |r| >= 2 && r[|r| - 2..] == t[1..][|t[1..]| - 2..]
    ensures var r := Enharmonics(prevWord, t);
      |r| >= 2 && r[|r| - 2..] == t[|t| - 2..]
  {
    StepCopy(prevWord, t);
    KeepsEnd([t[0]], Enharmonics(IsWordChar(t[0]), t[1..]), t[1..], t);
  }

  lemma SharpAlone(prevWord: bool, t: string)
    requires |t| == 2 && t[1] == '#' && IsNoteLetter(t[0])
    ensures Enharmonics(prevWord, t) == t
  {
    var u := t[1..];
    assert u == ['#'] && u[1..] == [];
    assert TokenAt(prevWord, t).None?;
    StepCopy(prevWord, t);
    StepCopy(IsWordChar(t[0]), u);
  }

  /** A token ends before the final letter: its accidentals are `b` or `#`. */
  lemma SharpOutsideToken(prevWord: bool, t: string, n: int)
    requires |t| > 2 && t[|t| - 1] == '#' && IsNoteLetter(t[|t| - 2])
    requires TokenAt(prevWord, t) == Some(n)
    ensures n <= |t| - 2
    ensures var rest := t[n..]; rest[|rest| - 1] == '#' && IsNoteLetter(rest[|rest| - 2])
  {
    var u := t[1..];
    assert u[|u| - 2] == t[|t| - 2];
  }

  lemma KeepsEnd(x: string, r: string, rest: string, t: string)
    requires |rest| >= 2 && |t| >= 2 && |rest| <= |t| && rest == t[|t| - |rest|..]
    requires |r| >= 2 && r[|r| - 2..] == rest[|rest| - 2..]
    ensures |x + r| >= 2 && (x + r)[|x + r| - 2..] == t[|t| - 2..]
  {
    assert (x + r)[|x + r| - 2..] == r[|r| - 2..];
  }

  /** Inside a word nothing matches: there is no `\b` before a word
      character that follows a word character. */
  lemma {:induction false} InsideWordCopied(t: string)
    requires forall k :: 0 <= k < |t| ==> IsWordChar(t[k])
    ensures Enharmonics(true, t) == t
    decreases |t|
  {
    if t != [] {
      StepCopy(true, t);
      InsideWordCopied(t[1..]);
    }
  }

  /** A note letter and one flat followed by more of the same word is not
      a token: no `\b` follows the flat, so the figure is copied. */
  lemma FlatInsideWordKept(letter: char, w: string)
    requires IsNoteLetter(letter) && w != [] && w[0] != 'b'
    requires forall k :: 0 <= k < |w| ==> IsWordChar(w[k])
    ensures Enharmonics(false, [letter] + (['b'] + w)) == [letter] + (['b'] + w)
  {
    var u := ['b'] + w;
    FlatNotToken(letter, w);
    StepCopy(false, [letter] + u);
    assert ([letter] + u)[1..] == u;
    FlatWordCopied(w);
  }

  lemma FlatNotToken(letter: char, w: string)
    requires IsNoteLetter(letter) && w != [] && w[0] != 'b' && IsWordChar(w[0])
    ensures TokenAt(false, [letter] + (['b'] + w)).None?
  {
    var u := ['b'] + w;
    assert ([letter] + u)[1..] == u && u[1..] == w;
    assert !AccidentalsAt(u, 'b', 2) && !AccidentalsAt(u, 'b', 1);
  }

  lemma FlatWordCopied(w: string)
    requires forall k :: 0 <= k < |w| ==> IsWordChar(w[k])
    ensures Enharmonics(true, ['b'] + w) == ['b'] + w
  {
    WordCharsPrepend('b', w);
    InsideWordCopied(['b'] + w);
  }

  lemma WordCharsPrepend(c: char, w: string)
    requires IsWordChar(c) && forall k :: 0 <= k < |w| ==> IsWordChar(w[k])
    ensures forall k :: 0 <= k < |[c] + w| ==> IsWordChar(([c] + w)[k])
  {
    var u := [c] + w;
    forall k | 0 <= k < |u| ensures IsWordChar(u[k]) {
      if k > 0 {
        assert u[k] == w[k - 1];
      }
    }
  }

  /** The flat rewrite leaves a text without `b` alone. */
  lemma FlatFree(s: string)
    requires 'b' !in s
    ensures MapChar(s, 'b', '-') == s
  {
  }

  // ---------------------------------------------------------------------------
  // Worked examples of the `\b` quirks

  /** A figure with no `9` and no `(` after its token rewrite is normalised
      by the token rewrite followed by the flat rewrite. */
  lemma NormalizesTo(figure: string, tokens: string, out: string)
    requires figure != "" && figure != "N.C."
    requires EnharmonicPass(figure) == tokens && '9' !in tokens && '(' !in tokens
    requires MapChar(tokens, 'b', '-') == out
    ensures Normalize(figure) == out
  {
    QualityPassAbsent(tokens);
    FlatPassIsMapChar(tokens);
  }

  /** Figures with no accidental, no alternate quality and no flat pass
      through unchanged. */
  lemma PlainFigures()
    ensures Normalize("C") == "C"
    ensures Normalize("Em") == "Em"
  {
    TokensOfPlain();
    NormalizesTo("C", "C", "C");
    NormalizesTo("Em", "Em", "Em");
  }

  lemma TokensOfPlain()
    ensures EnharmonicPass("C") == "C" && MapChar("C", 'b', '-') == "C"
    ensures EnharmonicPass("Em") == "Em" && MapChar("Em", 'b', '-') == "Em"
  {
    var c := "C";
    StepCopy(false, c);
    assert c[1..] == [];
    var em := "Em";
    assert TokenAt(false, em).None?;
    StepCopy(false, em);
    assert em[1..] == "m";
    InsideWordCopied("m");
  }

  lemma TokensOfTrailingSharp()
    ensures EnharmonicPass("E#") == "E#"
  {
    TrailingSharpKept(false, "E#");
  }

  lemma TokensOfSharpMinor()
    ensures EnharmonicPass("E#m") == "Fm"
  {
    WholeWordToken("E#", "m");
    assert "E#" + "m" == "E#m";
    assert "m"[1..] == [];
    StepCopy(false, "m");
  }

  lemma TokensOfTrailingFlat()
    ensures EnharmonicPass("Fb") == "E"
  {
    WholeWordToken("Fb", "");
    assert "Fb" + "" == "Fb";
  }

  lemma TokensOfFlatQuality()
    ensures EnharmonicPass("Fbmaj7") == "Fbmaj7"
  {
    FlatInsideWordKept('F', "maj7");
    assert ['F'] + (['b'] + "maj7") == "Fbmaj7";
  }

  /** A trailing `E#` is kept: no boundary follows the `#`. */
  lemma TrailingSharpUnchanged()
    ensures Normalize("E#") == "E#"
  {
    TokensOfTrailingSharp();
    FlatFree("E#");
    NormalizesTo("E#", "E#", "E#");
  }


  /** `E#m` becomes `Fm`. */
  lemma SharpMinorSimplified()
    ensures Normalize("E#m") == "Fm"
  {
    TokensOfSharpMinor();
    FlatFree("Fm");
    NormalizesTo("E#m", "Fm", "Fm");
  }


  /** A trailing `Fb` becomes `E`. */
  lemma TrailingFlatSimplified()
    ensures Normalize("Fb") == "E"
  {
    TokensOfTrailingFlat();
    FlatFree("E");
    NormalizesTo("Fb", "E", "E");
  }


  /** `Fbmaj7` keeps its letter; only the flat sign changes. */
  lemma FlatQualityKept()
    ensures Normalize("Fbmaj7") == "F-maj7"
  {
    TokensOfFlatQuality();
    FlatsOfFlatQuality();
    NormalizesTo("Fbmaj7", "Fbmaj7", "F-maj7");
  }


  lemma FlatsOfFlatQuality()
    ensures MapChar("Fbmaj7", 'b', '-') == "F-maj7"
  {
    var r := MapChar("Fbmaj7", 'b', '-');
    assert forall k :: 0 <= k < |r| ==> r[k] == "F-maj7"[k];
  }


  lemma TokensOfBlockedBoundary()
    ensures EnharmonicPass("bE#m") == "bE#m"
  {
    var s := "bE#m";
    StepCopy(false, s);
    assert s[1..] == "E#m";
    SharpMinorCopied();
  }

  /** After a word character, "E#m" holds no token and is copied. */
  lemma SharpMinorCopied()
    ensures Enharmonics(true, "E#m") == "E#m"
  {
    assert TokenAt(true, "E#m").None?;
    StepCopy(true, "E#m");
    assert "E#m"[1..] == "#m";
    StepCopy(true, "#m");
    assert "#m"[1..] == "m";
    StepCopy(false, "m");
    assert "m"[1..] == [];
  }

  lemma TokensOfOpenedBoundary()
    ensures EnharmonicPass("-E#m") == "-Fm"
  {
    var t := "-E#m";
    StepCopy(false, t);
    assert t[1..] == "E#m";
    TokensOfSharpMinor();
  }

  /** The `b` of "bE#m" blocks the boundary before `E`. */
  lemma BlockedBoundary()
    ensures Normalize("bE#m") == "-E#m"
  {
    TokensOfBlockedBoundary();
    var r := MapChar("bE#m", 'b', '-');
    assert forall k :: 0 <= k < |r| ==> r[k] == "-E#m"[k];
    NormalizesTo("bE#m", "bE#m", "-E#m");
  }


  /** Once the `b` has become `-`, the token `E#` is found. */
  lemma OpenedBoundary()
    ensures Normalize("-E#m") == "-Fm"
  {
    TokensOfOpenedBoundary();
    FlatFree("-Fm");
    NormalizesTo("-E#m", "-Fm", "-Fm");
  }


  /** Normalising twice can differ from normalising once. */
  lemma NotIdempotent()
    ensures Normalize(Normalize("bE#m")) != Normalize("bE#m")
  {
    BlockedBoundary();
    OpenedBoundary();
  }
}
