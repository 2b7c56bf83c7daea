/** String helpers with the semantics of the Python built-ins the converter
    relies on: `str.strip()`, `str.replace(old, new)` and the regular
    expression notion of a word character. */
module Text {

  /** Characters Python's `str.isspace()` accepts, which `str.strip()` removes. */
  predicate IsSpace(c: char) {
    || c == ' ' || c == '\t' || c == '\n' || c == '\r'
    || c == '\U{0B}' || c == '\U{0C}'
    || ('\U{1C}' <= c <= '\U{1F}')
    || c == '\U{85}' || c == '\U{A0}' || c == '\U{1680}'
    || ('\U{2000}' <= c <= '\U{200A}')
    || c == '\U{2028}' || c == '\U{2029}' || c == '\U{202F}' || c == '\U{205F}' || c == '\U{3000}'
  }

  /** Word characters of the regular-expression `\b` assertion: letters,
      digits and the underscore. */
  predicate IsWordChar(c: char) {
    ('a' <= c <= 'z') || ('A' <= c <= 'Z') || ('0' <= c <= '9') || c == '_'
  }

  /** Drops leading white space; the result is the longest suffix of `s`
      that starts with a non-space character. */
  function TrimLeft(s: string): (r: string)
    ensures |r| <= |s| && r == s[|s| - |r|..]
    ensures forall k :: 0 <= k < |s| - |r| ==> IsSpace(s[k])
    ensures r == [] || !IsSpace(r[0])
    decreases |s|
  {
    if s != [] && IsSpace(s[0]) then TrimLeft(s[1..]) else s
  }

  /** Drops trailing white space; the result is the longest prefix of `s`
      that ends with a non-space character. */
  function TrimRight(s: string): (r: string)
    ensures |r| <= |s| && r == s[..|r|]
    ensures forall k :: |r| <= k < |s| ==> IsSpace(s[k])
    ensures r == [] || !IsSpace(r[|r| - 1])
    decreases |s|
  {
    if s != [] && IsSpace(s[|s| - 1]) then TrimRight(s[..|s| - 1]) else s
  }

  /** Python's `str.strip()` with no argument. */
  function Strip(s: string): string {
    TrimRight(TrimLeft(s))
  }

  /** `r` is `s` with the white space `s[..i]` and `s[i + |r|..]` removed. */
  predicate TrimmedAt(s: string, r: string, i: int) {
    && 0 <= i <= |s| - |r|
    && s[i..i + |r|] == r
    && (forall k :: 0 <= k < i ==> IsSpace(s[k]))
    && (forall k :: i + |r| <= k < |s| ==> IsSpace(s[k]))
  }

  /** `Strip(s)` is `s` with white space removed from its two ends only, and
      neither end of it is white space. */
  lemma StripCharacterised(s: string)
    ensures var r := Strip(s);
      && (r == [] || (!IsSpace(r[0]) && !IsSpace(r[|r| - 1])))
      && TrimmedAt(s, r, |s| - |TrimLeft(s)|)
  {
    var l := TrimLeft(s);
    var r := TrimRight(l);
    if r != [] {
      assert r[0] == l[0];
    }
    TrimmedOfParts(s, l, r);
  }

  /** Dropping a space prefix and then a space suffix trims both ends. */
  lemma TrimmedOfParts(s: string, l: string, r: string)
    requires |l| <= |s| && l == s[|s| - |l|..]
    requires forall k :: 0 <= k < |s| - |l| ==> IsSpace(s[k])
    requires |r| <= |l| && r == l[..|r|]
    requires forall k :: |r| <= k < |l| ==> IsSpace(l[k])
    ensures TrimmedAt(s, r, |s| - |l|)
  {
    var i := |s| - |l|;
    assert s[i..i + |r|] == l[..|r|];
    forall k | i + |r| <= k < |s| ensures IsSpace(s[k]) {
      assert s[k] == l[k - i];
    }
  }

  /** Stripping a stripped text changes nothing. */
  lemma StripIdempotent(s: string)
    ensures Strip(Strip(s)) == Strip(s)
  {
    var r := Strip(s);
    StripCharacterised(s);
    assert TrimLeft(r) == r;
  }

  /** `pat` occurs in `s` starting at index `k`. */
  predicate OccursAt(s: string, pat: string, k: int) {
    0 <= k && k + |pat| <= |s| && s[k..k + |pat|] == pat
  }

  /** `pat` occurs nowhere in `s`. */
  ghost predicate Absent(s: string, pat: string) {
    forall k :: !OccursAt(s, pat, k)
  }

  /** A text lacking one of the characters of `pat` has no occurrence of
      it. */
  lemma AbsentByChar(s: string, pat: string, j: int)
    requires 0 <= j < |pat| && pat[j] !in s
    ensures Absent(s, pat)
  {
    forall k ensures !OccursAt(s, pat, k) {
      if 0 <= k && k + |pat| <= |s| {
        assert s[k..k + |pat|][j] == s[k + j];
      }
    }
  }

  /** Python's `s.replace(pat, rep)`: every leftmost, non-overlapping
      occurrence of `pat` is replaced, scanning left to right. */
  function Replace(s: string, pat: string, rep: string): (r: string)
    requires pat != []
    ensures |rep| <= |pat| ==> |r| <= |s|
    ensures |rep| == |pat| ==> |r| == |s|
    decreases |s|
  {
    if |s| < |pat| then s
    else if s[..|pat|] == pat then rep + Replace(s[|pat|..], pat, rep)
    else [s[0]] + Replace(s[1..], pat, rep)
  }

  /** Replacing in `x + pat + y`, where the first occurrence of `pat` is
      the one after `x` (none starts in `x` and runs into it), rewrites that
      occurrence and carries on after it. */
  lemma {:induction false} ReplaceOccurrence(x: string, pat: string, rep: string, y: string)
    requires pat != []
    requires Absent(x + pat[..|pat| - 1], pat)
    ensures Replace(x + pat + y, pat, rep) == x + rep + Replace(y, pat, rep)
    decreases |x|
  {
    var s := x + pat + y;
    if x == [] {
      assert s[..|pat|] == pat && s[|pat|..] == y;
    } else {
      NotAtFront(x, pat, y);
      ReplaceOccurrence(x[1..], pat, rep, y);
      CopyFront(x, pat, rep, y);
    }
  }

  lemma NotAtFront(x: string, pat: string, y: string)
    requires pat != [] && x != []
    requires Absent(x + pat[..|pat| - 1], pat)
    ensures (x + pat + y)[..|pat|] != pat
    ensures Absent(x[1..] + pat[..|pat| - 1], pat)
  {
    var w := x + pat[..|pat| - 1];
    assert (x + pat + y)[..|pat|] == w[..|pat|];
    assert !OccursAt(w, pat, 0);
    AbsentInSuffix(w, pat, 1);
    assert w[1..] == x[1..] + pat[..|pat| - 1];
  }

  lemma CopyFront(x: string, pat: string, rep: string, y: string)
    requires pat != [] && x != []
    requires (x + pat + y)[..|pat|] != pat
    requires Replace(x[1..] + pat + y, pat, rep) == x[1..] + rep + Replace(y, pat, rep)
    ensures Replace(x + pat + y, pat, rep) == x + rep + Replace(y, pat, rep)
  {
    var s := x + pat + y;
    assert s[1..] == x[1..] + pat + y;
    assert Replace(s, pat, rep) == [s[0]] + Replace(s[1..], pat, rep);
    assert x == [x[0]] + x[1..];
  }

  /** No occurrence of `q` can start inside `rep`, whatever follows it. */
  predicate NoneStartsIn(rep: string, q: string) {
    forall k :: 0 <= k < |rep| ==> !(q <= rep[k..]) && !(rep[k..] <= q)
  }

  /** An occurrence of `q` starting inside `rep` either lies in `rep` or
      begins with the rest of `rep`. */
  lemma OccurrenceInside(rep: string, u: string, q: string, k: int)
    requires 0 <= k < |rep|
    ensures OccursAt(rep + u, q, k) ==> q <= rep[k..] || rep[k..] <= q
  {
    if OccursAt(rep + u, q, k) {
      var w := (rep + u)[k..k + |q|];
      if k + |q| <= |rep| {
        assert rep[k..][..|q|] == w;
      } else {
        assert w[..|rep| - k] == rep[k..];
      }
    }
  }

  lemma OccursShift(a: string, b: string, q: string, k: int)
    requires k >= |a|
    ensures OccursAt(a + b, q, k) <==> OccursAt(b, q, k - |a|)
  {
    if k + |q| <= |a + b| {
      assert (a + b)[k..k + |q|] == b[k - |a|..k - |a| + |q|];
    }
  }

  lemma AbsentInSuffix(s: string, q: string, i: int)
    requires Absent(s, q) && 0 <= i <= |s|
    ensures Absent(s[i..], q)
  {
    forall k | 0 <= k ensures !OccursAt(s[i..], q, k) {
      OccursShift(s[..i], s[i..], q, k + i);
      assert s[..i] + s[i..] == s;
    }
  }

  /** One of `a` and `b` is a prefix of the other. */
  predicate Meets(a: string, b: string) {
    a <= b || b <= a
  }

  /** No proper suffix of `q` meets `rep`: a copy of `rep` can never
      complete an occurrence of `q` that began before it. */
  predicate NoSuffixMeets(q: string, rep: string) {
    forall j :: 1 <= j < |q| ==> !Meets(q[j..], rep)
  }

  lemma PrefixesMeet(a: string, b: string, r: string)
    ensures a <= r && b <= r ==> Meets(a, b)
  {
    if a <= r && b <= r && |a| <= |b| {
      assert a == r[..|a|] == b[..|a|];
    }
  }

  /** A replacement at the front puts `rep` first. */
  lemma ReplaceFront(t: string, pat: string, rep: string)
    requires pat != []
    ensures |t| >= |pat| && t[..|pat|] == pat ==> rep <= Replace(t, pat, rep)
  {
  }

  /** A prefix `w` of a replacement's result, none of whose suffixes meets
      `rep`, holds no replaced text: it was copied from the input. */
  lemma {:induction false} ReplaceCopiesHead(t: string, pat: string, rep: string, w: string)
    requires pat != [] && rep != []
    requires w <= Replace(t, pat, rep)
    requires forall j :: 0 <= j < |w| ==> !Meets(w[j..], rep)
    ensures w <= t
    decreases |w|
  {
    var r := Replace(t, pat, rep);
    if w != [] && |t| >= |pat| {
      assert w[0..] == w;
      PrefixesMeet(w, rep, r);
      ReplaceFront(t, pat, rep);
      var r' := Replace(t[1..], pat, rep);
      assert r == [t[0]] + r';
      assert w[1..] <= r';
      forall j | 0 <= j < |w| - 1 ensures !Meets(w[1..][j..], rep) {
        assert w[1..][j..] == w[j + 1..];
      }
      ReplaceCopiesHead(t[1..], pat, rep, w[1..]);
      assert w == [t[0]] + w[1..];
    }
  }

  /** An occurrence of `q` at the front of a copied character followed by
      the rest of the result was already in the input. */
  lemma HeadOccurrence(s: string, pat: string, rep: string, q: string)
    requires pat != [] && rep != [] && q != [] && s != []
    requires NoSuffixMeets(q, rep)
    ensures OccursAt([s[0]] + Replace(s[1..], pat, rep), q, 0) ==> OccursAt(s, q, 0)
  {
    var r' := Replace(s[1..], pat, rep);
    if OccursAt([s[0]] + r', q, 0) {
      var w := q[1..];
      assert w == r'[..|q| - 1];
      forall j | 0 <= j < |w| ensures !Meets(w[j..], rep) {
        assert w[j..] == q[j + 1..];
      }
      ReplaceCopiesHead(s[1..], pat, rep, w);
      assert s[..|q|] == [s[0]] + s[1..][..|q| - 1];
    }
  }

  /** A replacement cannot produce an occurrence of `q` that was not there
      when no occurrence of `q` can start inside `rep` or end inside it;
      when `q` is the pattern itself, none is left at all. */
  lemma {:induction false} ReplaceLeavesNo(s: string, pat: string, rep: string, q: string)
    requires pat != [] && rep != [] && q != []
    requires pat == q || Absent(s, q)
    requires NoSuffixMeets(q, rep) && NoneStartsIn(rep, q)
    ensures Absent(Replace(s, pat, rep), q)
    decreases |s|
  {
    var r := Replace(s, pat, rep);
    if |s| < |pat| {
    } else if s[..|pat|] == pat {
      var t := s[|pat|..];
      if pat != q {
        AbsentInSuffix(s, q, |pat|);
      }
      ReplaceLeavesNo(t, pat, rep, q);
      var r' := Replace(t, pat, rep);
      forall k ensures !OccursAt(r, q, k) {
        if k < 0 {
        } else if k < |rep| {
          OccurrenceInside(rep, r', q, k);
        } else {
          OccursShift(rep, r', q, k);
        }
      }
    } else {
      var t := s[1..];
      if pat != q {
        AbsentInSuffix(s, q, 1);
      }
      ReplaceLeavesNo(t, pat, rep, q);
      var r' := Replace(t, pat, rep);
      assert r == [s[0]] + r';
      HeadOccurrence(s, pat, rep, q);
      assert !OccursAt(s, q, 0);
      forall k ensures !OccursAt(r, q, k) {
        if k >= 1 {
          OccursShift([s[0]], r', q, k);
        }
      }
    }
  }

  /** An occurrence of `q` after mapping a character to one `q` does not
      contain was there before. */
  lemma MapCharOccurrence(s: string, c: char, d: char, q: string, k: int)
    requires d !in q
    ensures OccursAt(MapChar(s, c, d), q, k) ==> OccursAt(s, q, k)
  {
    var r := MapChar(s, c, d);
    if OccursAt(r, q, k) {
      forall j | 0 <= j < |q| ensures s[k + j] == q[j] {
        assert r[k..k + |q|][j] == r[k + j];
      }
      assert s[k..k + |q|] == q;
    }
  }

  /** Mapping a character to one that `q` does not contain cannot produce
      an occurrence of `q`. */
  lemma MapCharLeavesNo(s: string, c: char, d: char, q: string)
    requires Absent(s, q) && d !in q
    ensures Absent(MapChar(s, c, d), q)
  {
    forall k ensures !OccursAt(MapChar(s, c, d), q, k) {
      MapCharOccurrence(s, c, d, q, k);
    }
  }

  /** Every occurrence of the character `c` in `s` replaced by `d`. */
  function MapChar(s: string, c: char, d: char): (r: string)
    ensures |r| == |s|
    ensures forall k :: 0 <= k < |s| ==> r[k] == if s[k] == c then d else s[k]
  {
    if s == [] then [] else [if s[0] == c then d else s[0]] + MapChar(s[1..], c, d)
  }

  lemma MapCharAppend(x: string, y: string, c: char, d: char)
    ensures MapChar(x + y, c, d) == MapChar(x, c, d) + MapChar(y, c, d)
  {
    assert forall k :: 0 <= k < |x + y| ==> MapChar(x + y, c, d)[k] == (MapChar(x, c, d) + MapChar(y, c, d))[k];
  }

  /** A text in which `pat` does not occur is left as it is. */
  lemma {:induction false} ReplaceNoOccurrence(s: string, pat: string, rep: string)
    requires pat != []
    requires Absent(s, pat)
    ensures Replace(s, pat, rep) == s
    decreases |s|
  {
    if |s| >= |pat| {
      assert !OccursAt(s, pat, 0);
      forall k ensures !OccursAt(s[1..], pat, k) {
        assert OccursAt(s[1..], pat, k) ==> OccursAt(s, pat, k + 1);
      }
      ReplaceNoOccurrence(s[1..], pat, rep);
    }
  }

  /** Replacing a one-character pattern by a one-character text is the
      character map. */
  lemma {:induction false} ReplaceCharIsMapChar(s: string, c: char, d: char)
    ensures Replace(s, [c], [d]) == MapChar(s, c, d)
    decreases |s|
  {
    if s != [] {
      ReplaceCharIsMapChar(s[1..], c, d);
      if s[..1] == [c] {
        assert Replace(s, [c], [d]) == [d] + Replace(s[1..], [c], [d]);
      } else {
        assert Replace(s, [c], [d]) == [s[0]] + Replace(s[1..], [c], [d]);
      }
    }
  }
}
