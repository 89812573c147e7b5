/** The weather-text transform: a fixed table of literal replace-all
    substitutions that turns forecast vocabulary into pictographs and
    normalises a little punctuation (work_week3/main.py:83-98). */
module WeatherText {

  /** True when `pat` occurs in `s` at some position. */
  predicate Occurs(s: string, pat: string)
    requires |pat| > 0
    decreases |s|
  {
    |pat| <= |s| && (s[..|pat|] == pat || Occurs(s[1..], pat))
  }

  /** Python's `str.replace(pat, rep)` for a non-empty `pat`: scan from the
      left, replace every match, and resume right after each match (so
      matches never overlap). */
  function Replace(s: string, pat: string, rep: string): string
    requires |pat| > 0
    decreases |s|
  {
    if |s| < |pat| then s
    else if s[..|pat|] == pat then rep + Replace(s[|pat|..], pat, rep)
    else [s[0]] + Replace(s[1..], pat, rep)
  }

  /** No character of `a` appears in `b`. */
  predicate Disjoint(a: string, b: string) {
    forall c :: c in a ==> c !in b
  }

  /** A text without the token is left as it is. */
  lemma {:induction false} ReplaceAbsent(s: string, pat: string, rep: string)
    requires |pat| > 0 && !Occurs(s, pat)
    ensures Replace(s, pat, rep) == s
    decreases |s|
  {
    if |s| >= |pat| {
      ReplaceAbsent(s[1..], pat, rep);
      assert [s[0]] + s[1..] == s;
    }
  }

  /** Replacing a token by itself changes nothing. */
  lemma {:induction false} ReplaceSelf(s: string, pat: string)
    requires |pat| > 0
    ensures Replace(s, pat, pat) == s
    decreases |s|
  {
    if |s| >= |pat| {
      if s[..|pat|] == pat {
        ReplaceSelf(s[|pat|..], pat);
        assert s[..|pat|] + s[|pat|..] == s;
      } else {
        ReplaceSelf(s[1..], pat);
        assert [s[0]] + s[1..] == s;
      }
    }
  }

  /** An occurrence in a suffix is an occurrence in the whole text. */
  lemma {:induction false} OccursInSuffix(s: string, k: nat, pat: string)
    requires |pat| > 0 && k <= |s| && Occurs(s[k..], pat)
    ensures Occurs(s, pat)
    decreases k
  {
    if k > 0 {
      assert s[1..][k - 1..] == s[k..];
      OccursInSuffix(s[1..], k - 1, pat);
    }
  }

  /** An occurrence after a prefix none of whose characters is in `pat`
      lies wholly after that prefix. */
  lemma {:induction false} OccursPastPrefix(x: string, t: string, pat: string)
    requires |pat| > 0 && Disjoint(x, pat) && Occurs(x + t, pat)
    ensures Occurs(t, pat)
    decreases |x|
  {
    if x == [] {
      assert x + t == t;
    } else {
      assert (x + t)[0] == x[0] && x[0] in x && pat[0] in pat;
      assert (x + t)[1..] == x[1..] + t;
      OccursPastPrefix(x[1..], t, pat);
    }
  }

  /** A prefix of the output made of characters foreign to `rep` was
      already a prefix of the input: no replacement happened inside it. */
  lemma {:induction false} PrefixSurvives(t: string, pat: string, rep: string, w: string)
    requires |pat| > 0 && |rep| > 0 && Disjoint(w, rep)
    requires |w| <= |Replace(t, pat, rep)| && Replace(t, pat, rep)[..|w|] == w
    ensures |w| <= |t| && t[..|w|] == w
    decreases |t|
  {
    if w != [] && |t| >= |pat| {
      assert w[0] in w && rep[0] in rep;
      var r' := Replace(t[1..], pat, rep);
      assert Replace(t, pat, rep) == [t[0]] + r';
      assert r'[..|w| - 1] == w[1..];
      PrefixSurvives(t[1..], pat, rep, w[1..]);
      assert t[..|w|] == [t[0]] + t[1..][..|w| - 1];
    }
  }

  /** After replacing `pat` by a text sharing no character with it, `pat`
      no longer occurs. */
  lemma {:induction false} ReplaceEliminates(s: string, pat: string, rep: string)
    requires |pat| > 0 && |rep| > 0 && Disjoint(rep, pat)
    ensures !Occurs(Replace(s, pat, rep), pat)
    decreases |s|
  {
    if |s| >= |pat| {
      if s[..|pat|] == pat {
        ReplaceEliminates(s[|pat|..], pat, rep);
        if Occurs(rep + Replace(s[|pat|..], pat, rep), pat) {
          OccursPastPrefix(rep, Replace(s[|pat|..], pat, rep), pat);
        }
      } else {
        var r' := Replace(s[1..], pat, rep);
        ReplaceEliminates(s[1..], pat, rep);
        var out := [s[0]] + r';
        assert out[1..] == r';
        if |pat| <= |out| && out[..|pat|] == pat {
          assert r'[..|pat| - 1] == pat[1..];
          PrefixSurvives(s[1..], pat, rep, pat[1..]);
        }
      }
    }
  }

  /** Replacing one token by a text foreign to another token never creates
      an occurrence of the other token. */
  lemma {:induction false} ReplacePreservesAbsence(s: string, pat: string, rep: string, other: string)
    requires |pat| > 0 && |rep| > 0 && |other| > 0
    requires Disjoint(rep, other) && !Occurs(s, other)
    ensures !Occurs(Replace(s, pat, rep), other)
    decreases |s|
  {
    if |s| >= |pat| {
      if s[..|pat|] == pat {
        if Occurs(s[|pat|..], other) {
          OccursInSuffix(s, |pat|, other);
        }
        ReplacePreservesAbsence(s[|pat|..], pat, rep, other);
        if Occurs(rep + Replace(s[|pat|..], pat, rep), other) {
          OccursPastPrefix(rep, Replace(s[|pat|..], pat, rep), other);
        }
      } else {
        var r' := Replace(s[1..], pat, rep);
        ReplacePreservesAbsence(s[1..], pat, rep, other);
        var out := [s[0]] + r';
        assert out[1..] == r';
        if |other| <= |out| && out[..|other|] == other {
          assert r'[..|other| - 1] == other[1..];
          PrefixSurvives(s[1..], pat, rep, other[1..]);
        }
      }
    }
  }

  /** A text not containing the first character of `pat` has no match. */
  lemma {:induction false} ForeignAbsent(s: string, pat: string)
    requires |pat| > 0 && pat[0] !in s
    ensures !Occurs(s, pat)
    decreases |s|
  {
    if |s| >= |pat| {
      assert s[0] in s && s[..|pat|][0] == s[0];
      ForeignAbsent(s[1..], pat);
    }
  }

  /** A match at the very start is replaced, and the scan resumes after it. */
  lemma ReplaceAtStart(t: string, pat: string, rep: string)
    requires |pat| > 0
    ensures Replace(pat + t, pat, rep) == rep + Replace(t, pat, rep)
  {
    assert (pat + t)[..|pat|] == pat && (pat + t)[|pat|..] == t;
  }

  /** No match of `pat` can start inside `a` and end inside `b`: the last
      character of `a` cannot sit at any position of `pat` but its last, or
      the first character of `b` at any position but its first. */
  predicate CannotStraddle(a: string, b: string, pat: string)
    requires |pat| > 0
  {
    a == [] || b == [] || a[|a| - 1] !in pat[..|pat| - 1] || b[0] !in pat[1..]
  }

  /** The window at the seam of `a` and `b` is no match. */
  lemma SeamNoMatch(a: string, b: string, pat: string)
    requires |pat| > 0 && 0 < |a| < |pat| <= |a + b| && CannotStraddle(a, b, pat)
    ensures (a + b)[..|pat|] != pat
  {
    var w := (a + b)[..|pat|];
    if a[|a| - 1] !in pat[..|pat| - 1] {
      assert pat[..|pat| - 1][|a| - 1] == pat[|a| - 1];
      assert w[|a| - 1] == a[|a| - 1] != pat[|a| - 1];
    } else {
      assert pat[1..][|a| - 1] == pat[|a|];
      assert w[|a|] == b[0] != pat[|a|];
    }
  }

  /** Replacing in a concatenation replaces in each part when no match can
      straddle the seam. */
  lemma {:induction false} ReplaceConcat(a: string, b: string, pat: string, rep: string)
    requires |pat| > 0 && CannotStraddle(a, b, pat)
    ensures Replace(a + b, pat, rep) == Replace(a, pat, rep) + Replace(b, pat, rep)
    decreases |a|, 1
  {
    if a == [] {
      assert a + b == b;
    } else if |a + b| < |pat| {
      assert Replace(a, pat, rep) == a && Replace(b, pat, rep) == b;
    } else if |a| >= |pat| && a[..|pat|] == pat {
      ReplaceConcatMatch(a, b, pat, rep);
    } else {
      ReplaceConcatSkip(a, b, pat, rep);
    }
  }

  /** The case of a match at the start of `a`. */
  lemma {:induction false} ReplaceConcatMatch(a: string, b: string, pat: string, rep: string)
    requires |pat| > 0 && CannotStraddle(a, b, pat)
    requires |a| >= |pat| && a[..|pat|] == pat
    ensures Replace(a + b, pat, rep) == Replace(a, pat, rep) + Replace(b, pat, rep)
    decreases |a|, 0
  {
    var rest := a[|pat|..];
    assert (a + b)[..|pat|] == pat && (a + b)[|pat|..] == rest + b;
    assert rest == [] || rest[|rest| - 1] == a[|a| - 1];
    ReplaceConcat(rest, b, pat, rep);
    AppendAssoc(rep, Replace(rest, pat, rep), Replace(b, pat, rep));
  }

  /** The case of no match at the start of `a + b`: its first character is
      kept. */
  lemma {:induction false} ReplaceConcatSkip(a: string, b: string, pat: string, rep: string)
    requires |pat| > 0 && CannotStraddle(a, b, pat)
    requires a != [] && |a + b| >= |pat| && !(|a| >= |pat| && a[..|pat|] == pat)
    ensures Replace(a + b, pat, rep) == Replace(a, pat, rep) + Replace(b, pat, rep)
    decreases |a|, 0
  {
    var head := [a[0]];
    if |a| < |pat| {
      SeamNoMatch(a, b, pat);
      assert Replace(a, pat, rep) == a;
      assert Replace(a[1..], pat, rep) == a[1..];
      assert a == head + a[1..];
    } else {
      assert (a + b)[..|pat|] == a[..|pat|];
      assert Replace(a, pat, rep) == head + Replace(a[1..], pat, rep);
    }
    assert (a + b)[1..] == a[1..] + b && (a + b)[0] == a[0];
    assert Replace(a + b, pat, rep) == head + Replace(a[1..] + b, pat, rep);
    assert a[1..] == [] || a[1..][|a[1..]| - 1] == a[|a| - 1];
    ReplaceConcat(a[1..], b, pat, rep);
    AppendAssoc(head, Replace(a[1..], pat, rep), Replace(b, pat, rep));
  }

  lemma AppendAssoc(x: string, y: string, z: string)
    ensures x + (y + z) == (x + y) + z
  {
  }

  /** A middle piece that no match can overlap splits the replacement in three. */
  lemma ReplaceAround(x: string, m: string, y: string, pat: string, rep: string)
    requires |pat| > 0 && |m| > 0
    requires m[0] !in pat[1..] && m[|m| - 1] !in pat[..|pat| - 1]
    ensures Replace(x + m + y, pat, rep) == Replace(x, pat, rep) + Replace(m, pat, rep) + Replace(y, pat, rep)
  {
    assert (x + m)[|x + m| - 1] == m[|m| - 1];
    ReplaceConcat(x + m, y, pat, rep);
    ReplaceConcat(x, m, pat, rep);
  }

  /** A non-empty text: what `str.replace` is given here as a token or a
      replacement. */
  type Token = s: string | |s| > 0 witness "?"

  /** A substitution table: (token, replacement) pairs, applied in order. */
  type Table = seq<(Token, Token)>

  /** Apply every substitution of `table`, the first one first. */
  function ReplaceAll(s: string, table: Table): string
    decreases |table|
  {
    if table == [] then s
    else
      var last := table[|table| - 1];
      Replace(ReplaceAll(s, table[..|table| - 1]), last.0, last.1)
  }

  /** Applying two tables one after the other is applying their concatenation. */
  lemma {:induction false} ReplaceAllAppend(s: string, t1: Table, t2: Table)
    ensures ReplaceAll(s, t1 + t2) == ReplaceAll(ReplaceAll(s, t1), t2)
    decreases |t2|
  {
    if t2 == [] {
      assert t1 + t2 == t1;
    } else {
      var n := |t2| - 1;
      assert (t1 + t2)[..|t1 + t2| - 1] == t1 + t2[..n];
      ReplaceAllAppend(s, t1, t2[..n]);
    }
  }

  /** The pictograph table, in the order the source's dictionary lists it. */
  const Pictographs: Table := [
    ("くもり", "\U{2601}\U{FE0F}"),  // cloud
    ("雪", "\U{26C4}\U{FE0F}"),      // snowman
    ("晴れ", "\U{2600}\U{FE0F}"),    // sun
    ("雷", "\U{26A1}\U{FE0F}"),      // lightning
    ("雨", "\U{2614}\U{FE0F}")       // umbrella with rain
  ]

  /** The three punctuation rewrites applied after the pictographs; the
      first maps "時々" to the very same code points and so changes nothing. */
  const Punctuation: Table := [
    ("時々", "時々"),
    ("〜", "→"),
    ("朝晩", "/")
  ]

  /** The whole table: pictographs first, then punctuation. */
  const Conversions: Table := Pictographs + Punctuation

  /** The whole transform, as a specification. */
  function Emoji(s: string): string {
    ReplaceAll(s, Pictographs + Punctuation)
  }

  /** A table whose entries all leave `s` alone leaves `s` alone. */
  lemma {:induction false} ReplaceAllUnchanged(s: string, table: Table)
    requires forall i :: 0 <= i < |table| ==> table[i].0 == table[i].1 || !Occurs(s, table[i].0)
    ensures ReplaceAll(s, table) == s
    decreases |table|
  {
    if table != [] {
      var n := |table| - 1;
      ReplaceAllUnchanged(s, table[..n]);
      if table[n].0 == table[n].1 {
        ReplaceSelf(s, table[n].0);
      } else {
        ReplaceAbsent(s, table[n].0, table[n].1);
      }
    }
  }

  /** Entry `k` of a table removes its token for good when its own
      replacement and every later replacement are foreign to that token. */
  lemma {:induction false} ReplaceAllEliminates(s: string, table: Table, k: nat)
    requires k < |table| && Disjoint(table[k].1, table[k].0)
    requires forall j :: k < j < |table| ==> table[j].0 == table[j].1 || Disjoint(table[j].1, table[k].0)
    ensures !Occurs(ReplaceAll(s, table), table[k].0)
    decreases |table|
  {
    var n := |table| - 1;
    var before := ReplaceAll(s, table[..n]);
    if k == n {
      ReplaceEliminates(before, table[k].0, table[k].1);
    } else {
      ReplaceAllEliminates(s, table[..n], k);
      if table[n].0 == table[n].1 {
        ReplaceSelf(before, table[n].0);
      } else {
        ReplacePreservesAbsence(before, table[n].0, table[n].1, table[k].0);
      }
    }
  }

  /** The entries that change something: every entry but the identity
      rewrite of "時々". */
  predicate Rewrites(k: int) {
    0 <= k < |Conversions| && Conversions[k].0 != Conversions[k].1
  }

  /** A text holding none of the rewritten tokens comes back unchanged. */
  lemma EmojiUnchanged(s: string)
    requires forall k :: Rewrites(k) ==> !Occurs(s, Conversions[k].0)
    ensures Emoji(s) == s
  {
    ReplaceAllUnchanged(s, Conversions);
  }

  /** No rewritten token survives the transform. */
  lemma EmojiRemovesTokens(s: string)
    ensures forall k :: Rewrites(k) ==> !Occurs(Emoji(s), Conversions[k].0)
  {
    forall k | Rewrites(k)
      ensures !Occurs(Emoji(s), Conversions[k].0)
    {
      ReplaceAllEliminates(s, Conversions, k);
    }
  }

  /** The transform is idempotent, so applying it once is all it takes. */
  lemma EmojiIdempotent(s: string)
    ensures Emoji(Emoji(s)) == Emoji(s)
  {
    EmojiRemovesTokens(s);
    EmojiUnchanged(Emoji(s));
  }

  /** A table every entry of which is an identity or has a token whose first
      character is foreign to `s` leaves `s` alone. */
  lemma ReplaceAllForeign(s: string, table: Table)
    requires forall i :: 0 <= i < |table| ==> table[i].0 == table[i].1 || table[i].0[0] !in s
    ensures ReplaceAll(s, table) == s
  {
    forall i | 0 <= i < |table| && table[i].0 != table[i].1
      ensures !Occurs(s, table[i].0)
    {
      ForeignAbsent(s, table[i].0);
    }
    ReplaceAllUnchanged(s, table);
  }

  /** The transform is the pictograph table, then the punctuation table. */
  lemma EmojiInTwo(s: string)
    ensures Emoji(s) == ReplaceAll(ReplaceAll(s, Pictographs), Punctuation)
  {
    ReplaceAllAppend(s, Pictographs, Punctuation);
  }

  /** "くもり" alone becomes a cloud. */
  lemma EmojiCloudy()
    ensures Emoji("くもり") == "\U{2601}\U{FE0F}"
  {
    EmojiEmpty();
    assert "くもり" == [] + Conversions[0].0 + [];
    EmojiAround([], [], 0);
  }


  /** "雪" alone becomes a snowman. */
  lemma EmojiSnow()
    ensures Emoji("雪") == "\U{26C4}\U{FE0F}"
  {
    EmojiEmpty();
    assert "雪" == [] + Conversions[1].0 + [];
    EmojiAround([], [], 1);
  }


  /** "晴れ" alone becomes a sun. */
  lemma EmojiSunny()
    ensures Emoji("晴れ") == "\U{2600}\U{FE0F}"
  {
    EmojiEmpty();
    assert "晴れ" == [] + Conversions[2].0 + [];
    EmojiAround([], [], 2);
  }


  /** "雷" alone becomes a high-voltage sign. */
  lemma EmojiThunder()
    ensures Emoji("雷") == "\U{26A1}\U{FE0F}"
  {
    EmojiEmpty();
    assert "雷" == [] + Conversions[3].0 + [];
    EmojiAround([], [], 3);
  }


  /** "雨" alone becomes an umbrella with rain. */
  lemma EmojiRain()
    ensures Emoji("雨") == "\U{2614}\U{FE0F}"
  {
    EmojiEmpty();
    assert "雨" == [] + Conversions[4].0 + [];
    EmojiAround([], [], 4);
  }


  /** "〜" alone becomes an arrow. */
  lemma EmojiWaveDash()
    ensures Emoji("〜") == "→"
  {
    EmojiEmpty();
    assert "〜" == [] + Conversions[6].0 + [];
    EmojiAround([], [], 6);
  }


  /** "朝晩" alone becomes a slash. */
  lemma EmojiMorningEvening()
    ensures Emoji("朝晩") == "/"
  {
    EmojiEmpty();
    assert "朝晩" == [] + Conversions[7].0 + [];
    EmojiAround([], [], 7);
  }


  /** One more entry of a table is one more replace-all. */
  lemma ReplaceAllStep(s: string, table: Table, k: nat)
    requires k < |table|
    ensures ReplaceAll(s, table[..k + 1]) == Replace(ReplaceAll(s, table[..k]), table[k].0, table[k].1)
  {
    assert table[..k + 1][..k] == table[..k];
  }

  // ----- Distinct tokens do not interfere -----

  /** `owner` assigns every character of a token to that token's entry
      alone and every character of a replacement that changes something to
      no entry (-1); each token starts and ends with a character it holds
      once. Tokens then share no character and no replacement creates one. */
  predicate Separated(t: Table, owner: char -> int) {
    && (forall i, n :: 0 <= i < |t| && 0 <= n < |t[i].0| ==> owner(t[i].0[n]) == i)
    && (forall i, n :: 0 <= i < |t| && t[i].0 != t[i].1 && 0 <= n < |t[i].1| ==> owner(t[i].1[n]) == -1)
    && (forall i :: 0 <= i < |t| ==> t[i].0[0] !in t[i].0[1..] && t[i].0[|t[i].0| - 1] !in t[i].0[..|t[i].0| - 1])
  }

  /** A text none of whose characters belongs to entry `i` cannot overlap a
      match of that entry's token. */
  lemma ForeignToEntry(t: Table, owner: char -> int, i: int, m: string)
    requires Separated(t, owner) && 0 <= i < |t| && |m| > 0
    requires forall n :: 0 <= n < |m| ==> owner(m[n]) != i
    ensures m[0] !in t[i].0[1..] && m[|m| - 1] !in t[i].0[..|t[i].0| - 1] && t[i].0[0] !in m
  {
    var p := t[i].0;
    forall n | 1 <= n < |p|
      ensures p[n] != m[0]
    {
      assert owner(p[n]) == i;
    }
    assert forall n :: 0 <= n < |p| - 1 ==> p[1..][n] == p[n + 1];
    forall n | 0 <= n < |p| - 1
      ensures p[n] != m[|m| - 1]
    {
      assert owner(p[n]) == i;
    }
    assert forall n :: 0 <= n < |p| - 1 ==> p[..|p| - 1][n] == p[n];
    assert owner(p[0]) == i;
  }

  /** Entry `k`'s token between any two texts: after the first `j` entries
      of the table, the two sides are converted as if on their own and the
      token has become its replacement once entry `k` has been applied. */
  lemma {:induction false} ReplaceAllAround(x: string, y: string, t: Table, k: nat, j: nat, owner: char -> int)
    requires Separated(t, owner) && k < |t| && j <= |t|
    ensures ReplaceAll(x + t[k].0 + y, t[..j]) ==
      ReplaceAll(x, t[..j]) + (if j <= k then t[k].0 else t[k].1) + ReplaceAll(y, t[..j])
    decreases j
  {
    if j == 0 {
      assert t[..0] == [];
    } else {
      var i := j - 1;
      ReplaceAllAround(x, y, t, k, i, owner);
      ReplaceAllStep(x + t[k].0 + y, t, i);
      ReplaceAllStep(x, t, i);
      ReplaceAllStep(y, t, i);
      var m := if i <= k then t[k].0 else t[k].1;
      var pat, rep := t[i].0, t[i].1;
      if i == k {
        ReplaceAround(ReplaceAll(x, t[..i]), pat, ReplaceAll(y, t[..i]), pat, rep);
        ReplaceAtStart([], pat, rep);
        assert pat + [] == pat && rep + [] == rep;
      } else {
        assert forall n :: 0 <= n < |m| ==> owner(m[n]) != i;
        ForeignToEntry(t, owner, i, m);
        ReplaceAround(ReplaceAll(x, t[..i]), m, ReplaceAll(y, t[..i]), pat, rep);
        ForeignAbsent(m, pat);
        ReplaceAbsent(m, pat, rep);
      }
    }
  }

  /** Which entry of the transform's table a character belongs to. */
  function Owner(c: char): int {
    if c == 'く' || c == 'も' || c == 'り' then 0
    else if c == '雪' then 1
    else if c == '晴' || c == 'れ' then 2
    else if c == '雷' then 3
    else if c == '雨' then 4
    else if c == '時' || c == '々' then 5
    else if c == '〜' then 6
    else if c == '朝' || c == '晩' then 7
    else -1
  }

  /** The transform's table is separated by `Owner`. */
  lemma TableSeparated()
    ensures Separated(Conversions, Owner)
  {
    TokensOwned();
    ReplacementsUnowned();
    TokensUnbordered();
  }

  lemma TokensOwned()
    ensures var t := Conversions; forall i, n :: 0 <= i < |t| && 0 <= n < |t[i].0| ==> Owner(t[i].0[n]) == i
  {
  }

  lemma ReplacementsUnowned()
    ensures var t := Conversions; forall i, n :: 0 <= i < |t| && t[i].0 != t[i].1 && 0 <= n < |t[i].1| ==> Owner(t[i].1[n]) == -1
  {
  }

  lemma TokensUnbordered()
    ensures var t := Conversions; forall i :: 0 <= i < |t| ==> t[i].0[0] !in t[i].0[1..] && t[i].0[|t[i].0| - 1] !in t[i].0[..|t[i].0| - 1]
  {
  }

  /** Any entry's token, wherever it stands in a text, becomes that entry's
      replacement, and the text on each side of it is converted exactly as
      it would be on its own: distinct tokens do not interfere, whatever
      the dictionary order. */
  lemma EmojiAround(x: string, y: string, k: nat)
    requires k < |Conversions|
    ensures Emoji(x + Conversions[k].0 + y) == Emoji(x) + Conversions[k].1 + Emoji(y)
  {
    TableSeparated();
    ReplaceAllAround(x, y, Conversions, k, |Conversions|, Owner);
    assert Conversions[..|Conversions|] == Conversions;
  }

  /** The empty text stays empty. */
  lemma EmojiEmpty()
    ensures Emoji([]) == []
  {
    ReplaceAllForeign([], Conversions);
  }

  /** "晴れ時々くもり": both tokens are converted, and "時々" is kept. */
  lemma EmojiTwoTokens()
    ensures Emoji("晴れ時々くもり") == "\U{2600}\U{FE0F}時々\U{2601}\U{FE0F}"
  {
    EmojiEmpty();
    assert "晴れ時々くもり" == [] + Conversions[2].0 + "時々くもり";
    EmojiAround([], "時々くもり", 2);
    assert "時々くもり" == "時々" + Conversions[0].0 + [];
    EmojiAround("時々", [], 0);
    assert "時々" == [] + Conversions[5].0 + [];
    EmojiAround([], [], 5);
  }

  /** convert_weather_to_emoji: the pictograph loop, then the three
      punctuation rewrites, each a replace-all on the running text. */
  method ConvertWeatherToEmoji(text: string) returns (r: string)
    ensures r == Emoji(text)
  {
    r := text;
    var i := 0;
    while i < |Pictographs|
      invariant 0 <= i <= |Pictographs|
      invariant r == ReplaceAll(text, Pictographs[..i])
    {
      assert Pictographs[..i + 1][..i] == Pictographs[..i];
      r := Replace(r, Pictographs[i].0, Pictographs[i].1);
      i := i + 1;
    }
    ghost var all := Pictographs + Punctuation;
    assert all[..5] == Pictographs[..i];
    r := Replace(r, "時々", "時々");
    assert all[..6][..5] == all[..5] && all[5] == ("時々", "時々");
    assert r == ReplaceAll(text, all[..6]);
    r := Replace(r, "〜", "→");
    assert all[..7][..6] == all[..6] && all[6] == ("〜", "→");
    assert r == ReplaceAll(text, all[..7]);
    r := Replace(r, "朝晩", "/");
    assert all[..8] == all && all[..7] == all[..|all| - 1] && all[7] == ("朝晩", "/");
  }
}
