/** LIKE and ILIKE (src/types.c; ISO/IEC 9075-2:2003 section 8.5). */
module Like {

  /** The matcher compares the next characters before it looks for '%' in the pattern, so a '%' in the text
    can be taken for the pattern's wildcard. What it accepts is always right; what it rejects is right for
    every pattern exactly when the text has no '%' in it.
   */

  /** The declarative meaning: '%' is any run of characters, '_' is one. */
  predicate Matches(p: string, t: string)
    decreases |p|
  {
    if p == "" then t == ""
    else if p[0] == '%' then exists k :: 0 <= k <= |t| && Matches(p[1..], t[k..])
    else t != "" && (p[0] == '_' || p[0] == t[0]) && Matches(p[1..], t[1..])
  }

  predicate PercentFree(s: string) {
    forall i :: 0 <= i < |s| ==> s[i] != '%'
  }

  /** Where the last '%' of the pattern was seen, and the text position to retry from. */
  datatype Star = NoStar | Star(p: nat, t: nat)

  predicate Steps(p: string, t: string, i: nat, j: nat) {
    i < |p| && j < |t| && (p[i] == '_' || p[i] == t[j])
  }

  predicate Placed(p: string, t: string, i: nat, j: nat, star: Star) {
    i <= |p| && j <= |t| && (star.Star? ==> star.p < i && star.t <= j)
  }

  function Later(t: string, star: Star): nat
    requires star.Star? ==> star.t <= |t|
  {
    if star.NoStar? then |t| + 1 else |t| - star.t
  }

  function Ahead(p: string, star: Star): nat
    requires star.Star? ==> star.p < |p|
  {
    if star.NoStar? then |p| else |p| - star.p - 1
  }

  predicate AllPercent(p: string) {
    forall i :: 0 <= i < |p| ==> p[i] == '%'
  }

  /** What the loop goes on to return. */
  predicate Scan(p: string, t: string, i: nat, j: nat, star: Star)
    requires Placed(p, t, i, j, star)
    decreases Later(t, star), Ahead(p, star), |t| - j
  {
    if j == |t| then AllPercent(p[i..])
    else if Steps(p, t, i, j) then Scan(p, t, i + 1, j + 1, star)
    else if i < |p| && p[i] == '%' then Scan(p, t, i + 1, j, Star(i, j))
    else if star.Star? then Scan(p, t, star.p + 1, star.t + 1, Star(star.p, star.t + 1))
    else false
  }

  /** types.c `kdb_like_match`. */
  method LikeMatch(pattern: string, text: string) returns (matched: bool)
    ensures matched <==> Scan(pattern, text, 0, 0, NoStar)
    ensures matched ==> Matches(pattern, text)
    ensures PercentFree(text) || PercentFree(pattern) ==> (matched <==> Matches(pattern, text))
  {
    hide Matches, PercentFree;
    SoundFromStart(pattern, text);
    if PercentFree(text) || PercentFree(pattern) {
      Agreement(pattern, text);
    }
    var p: nat, t: nat, star := 0, 0, NoStar;
    while t < |text|
      invariant Placed(pattern, text, p, t, star)
      invariant Scan(pattern, text, p, t, star) <==> Scan(pattern, text, 0, 0, NoStar)
      decreases Later(text, star), Ahead(pattern, star), |text| - t
    {
      if p < |pattern| && (pattern[p] == '_' || pattern[p] == text[t]) {
        p, t := p + 1, t + 1;
      } else if p < |pattern| && pattern[p] == '%' {
        star := Star(p, t);
        p := p + 1;
      } else if star.Star? {
        star := Star(star.p, star.t + 1);
        p, t := star.p + 1, star.t;
      } else {
        return false;
      }
    }
    ghost var from := p;
    while p < |pattern| && pattern[p] == '%'
      invariant from <= p <= |pattern|
      invariant forall k :: from <= k < p ==> pattern[k] == '%'
    {
      p := p + 1;
    }
    matched := p == |pattern|;
    assert !matched ==> pattern[from..][p - from] == pattern[p];
  }

  // ---------------------------------------------------------------- soundness, for every text

  /** A match further on, at or after position `from`, of what follows the last '%'. */
  ghost predicate Retries(p: string, t: string, star: Star, from: nat) {
    star.Star? && star.p < |p| && exists k :: from <= k <= |t| && Matches(p[star.p + 1..], t[k..])
  }

  lemma {:induction false} PercentsMatchNothing(p: string)
    ensures Matches(p, "") <==> AllPercent(p)
  {
    if p != "" {
      PercentsMatchNothing(p[1..]);
      assert AllPercent(p) <==> p[0] == '%' && AllPercent(p[1..]) by {
        assert forall i :: 0 < i < |p| ==> p[i] == p[1..][i - 1];
      }
      assert ""[0..] == "";
    }
  }

  lemma MatchesStep(p: string, t: string, i: nat, j: nat)
    requires Steps(p, t, i, j) && Matches(p[i + 1..], t[j + 1..])
    ensures Matches(p[i..], t[j..])
  {
    assert p[i..][1..] == p[i + 1..] && t[j..][1..] == t[j + 1..];
  }

  lemma MatchesPercent(p: string, t: string, i: nat, j: nat, k: nat)
    requires i < |p| && p[i] == '%' && j <= k <= |t| && Matches(p[i + 1..], t[k..])
    ensures Matches(p[i..], t[j..])
  {
    assert p[i..][1..] == p[i + 1..] && t[j..][k - j..] == t[k..];
  }

  lemma {:induction false} ScanSound(p: string, t: string, i: nat, j: nat, star: Star)
    requires Placed(p, t, i, j, star) && Scan(p, t, i, j, star)
    ensures Matches(p[i..], t[j..]) || Retries(p, t, star, if star.Star? then star.t else 0)
    decreases Later(t, star), Ahead(p, star), |t| - j
  {
    hide Matches;
    if j == |t| {
      PercentsMatchNothing(p[i..]);
      assert t[j..] == "";
    } else if Steps(p, t, i, j) {
      ScanSound(p, t, i + 1, j + 1, star);
      if Matches(p[i + 1..], t[j + 1..]) {
        MatchesStep(p, t, i, j);
      }
    } else if i < |p| && p[i] == '%' {
      ScanSound(p, t, i + 1, j, Star(i, j));
      var k :| j <= k <= |t| && Matches(p[i + 1..], t[k..]);
      MatchesPercent(p, t, i, j, k);
    } else if star.Star? {
      ScanSound(p, t, star.p + 1, star.t + 1, Star(star.p, star.t + 1));
    }
  }

  lemma SoundFromStart(p: string, t: string)
    ensures Scan(p, t, 0, 0, NoStar) ==> Matches(p, t)
  {
    hide Matches, Scan;
    assert p[0..] == p && t[0..] == t;
    if Scan(p, t, 0, 0, NoStar) {
      ScanSound(p, t, 0, 0, NoStar);
    }
  }

  // ---------------------------------------------------------------- completeness, without '%' on one side

  lemma MatchesWithoutStep(p: string, t: string, i: nat, j: nat)
    requires i <= |p| && j < |t| && (i < |p| ==> p[i] != '%') && Matches(p[i..], t[j..])
    ensures Steps(p, t, i, j) && Matches(p[i + 1..], t[j + 1..])
  {
    assert i < |p| ==> p[i..][1..] == p[i + 1..] && t[j..][1..] == t[j + 1..];
  }

  /** Characters other than '%' match one by one. */
  lemma {:induction false} MatchesPast(p: string, t: string, n: nat)
    requires n <= |p| && PercentFree(p[..n]) && Matches(p, t)
    ensures n <= |t| && Matches(p[n..], t[n..])
  {
    if n > 0 {
      assert p[0] == p[..n][0] && p[1..][..n - 1] == p[..n][1..];
      MatchesPast(p[1..], t[1..], n - 1);
      assert p[1..][n - 1..] == p[n..] && t[1..][n - 1..] == t[n..];
    } else {
      assert p[0..] == p && t[0..] == t;
    }
  }

  /** Since the last '%', pattern and text have advanced together, over characters other than '%'. */
  ghost predicate InStep(p: string, i: nat, j: nat, star: Star) {
    star.Star? ==> star.p < i <= |p| && i - star.p - 1 == j - star.t && PercentFree(p[star.p + 1..i])
  }

  /** A later match of what follows the last '%' leaves room for what follows position `i`. */
  lemma RetryPast(p: string, t: string, i: nat, j: nat, star: Star)
    requires Placed(p, t, i, j, star) && star.Star? && InStep(p, i, j, star) && Retries(p, t, star, star.t + 1)
    ensures exists k :: j < k <= |t| && Matches(p[i..], t[k..])
  {
    hide Matches;
    var k :| star.t + 1 <= k <= |t| && Matches(p[star.p + 1..], t[k..]);
    var n := i - star.p - 1;
    assert p[star.p + 1..][..n] == p[star.p + 1..i];
    MatchesPast(p[star.p + 1..], t[k..], n);
    assert p[star.p + 1..][n..] == p[i..] && t[k..][n..] == t[k + n..];
  }

  lemma {:induction false} ScanComplete(p: string, t: string, i: nat, j: nat, star: Star)
    requires PercentFree(t) && Placed(p, t, i, j, star) && InStep(p, i, j, star)
    requires Matches(p[i..], t[j..]) || Retries(p, t, star, if star.Star? then star.t + 1 else 0)
    ensures Scan(p, t, i, j, star)
    decreases Later(t, star), Ahead(p, star), |t| - j
  {
    hide Matches;
    if j == |t| {
      if Matches(p[i..], t[j..]) {
        assert t[j..] == "";
        PercentsMatchNothing(p[i..]);
      } else {
        RetryPast(p, t, i, j, star);
      }
    } else if Steps(p, t, i, j) {
      if Matches(p[i..], t[j..]) {
        MatchesWithoutStep(p, t, i, j);
      }
      assert star.Star? ==> p[star.p + 1..i + 1] == p[star.p + 1..i] + [p[i]];
      ScanComplete(p, t, i + 1, j + 1, star);
    } else if i < |p| && p[i] == '%' {
      if !Matches(p[i..], t[j..]) {
        RetryPast(p, t, i, j, star);
        var k :| j < k <= |t| && Matches(p[i..], t[k..]);
        PercentTakesMore(p, t, i, j, k);
      }
      PercentTakes(p, t, i, j);
      assert p[i + 1..i + 1] == "";
      ScanComplete(p, t, i + 1, j, Star(i, j));
    } else {
      if Matches(p[i..], t[j..]) {
        MatchesWithoutStep(p, t, i, j);
      }
      var k :| star.t + 1 <= k <= |t| && Matches(p[star.p + 1..], t[k..]);
      assert p[star.p + 1..star.p + 1] == "";
      ScanComplete(p, t, star.p + 1, star.t + 1, Star(star.p, star.t + 1));
    }
  }

  lemma PercentTakesMore(p: string, t: string, i: nat, j: nat, k: nat)
    requires i < |p| && p[i] == '%' && j <= k <= |t| && Matches(p[i..], t[k..])
    ensures Matches(p[i..], t[j..])
  {
    var m :| 0 <= m <= |t[k..]| && Matches(p[i..][1..], t[k..][m..]);
    assert p[i..][1..] == p[i + 1..] && t[k..][m..] == t[k + m..];
    MatchesPercent(p, t, i, j, k + m);
  }

  lemma PercentTakes(p: string, t: string, i: nat, j: nat)
    requires i < |p| && p[i] == '%' && j <= |t| && Matches(p[i..], t[j..])
    ensures Matches(p[i + 1..], t[j..]) || Retries(p, t, Star(i, j), j + 1)
  {
    var m :| 0 <= m <= |t[j..]| && Matches(p[i..][1..], t[j..][m..]);
    assert p[i..][1..] == p[i + 1..] && t[j..][m..] == t[j + m..];
  }

  /** Without '%' in the pattern the scan is a plain comparison. */
  lemma {:induction false} ScanPlain(p: string, t: string, i: nat, j: nat)
    requires PercentFree(p) && i <= |p| && j <= |t| && Matches(p[i..], t[j..])
    ensures Scan(p, t, i, j, NoStar)
    decreases |t| - j
  {
    hide Matches;
    if j == |t| {
      assert t[j..] == "";
      PercentsMatchNothing(p[i..]);
    } else {
      MatchesWithoutStep(p, t, i, j);
      ScanPlain(p, t, i + 1, j + 1);
    }
  }

  lemma Agreement(p: string, t: string)
    requires PercentFree(t) || PercentFree(p)
    ensures Scan(p, t, 0, 0, NoStar) <==> Matches(p, t)
  {
    hide Matches, Scan;
    assert p[0..] == p && t[0..] == t;
    SoundFromStart(p, t);
    if Matches(p, t) {
      if PercentFree(t) {
        ScanComplete(p, t, 0, 0, NoStar);
      } else {
        ScanPlain(p, t, 0, 0);
      }
    }
  }

  // ---------------------------------------------------------------- and only then

  /** No '%' of the pattern is ever a wildcard when each stands against a '%'; then lengths must agree. */
  lemma {:induction false} LengthsDiffer(p: string, t: string, i: nat)
    requires i <= |p| && i <= |t| && |p| != |t|
    requires forall k :: i <= k < |p| && k < |t| && p[k] == '%' ==> t[k] == '%'
    requires |p| > |t| ==> p[|t|] != '%'
    ensures !Scan(p, t, i, i, NoStar)
    decreases |t| - i
  {
    if i == |t| {
      assert p[i..][0] == p[i];
    } else if Steps(p, t, i, i) {
      LengthsDiffer(p, t, i + 1);
    }
  }

  function LastPercent(s: string): (n: nat)
    requires !PercentFree(s)
    ensures n < |s| && s[n] == '%' && PercentFree(s[n + 1..])
  {
    if s[|s| - 1] == '%' then |s| - 1
    else
      var n := |s| - 1;
      assert !PercentFree(s[..n]);
      var last := LastPercent(s[..n]);
      assert forall k :: last < k < n ==> s[k] == s[..n][last + 1..][k - last - 1];
      last
  }

  lemma {:induction false} MatchesItself(s: string, p: string, t: string)
    requires Matches(p, t)
    ensures Matches(s + p, s + t)
  {
    if s == "" {
      assert s + p == p && s + t == t;
    } else {
      MatchesItself(s[1..], p, t);
      assert (s + p)[1..] == s[1..] + p && (s + t)[1..] == s[1..] + t;
    }
  }

  lemma OneMorePercent(rest: string)
    ensures Matches("%_" + rest, "%" + rest)
  {
    MatchesItself(rest, "", "");
    assert rest + "" == rest;
    assert ("_" + rest)[1..] == rest && ("%" + rest)[1..] == rest;
    assert Matches("_" + rest, "%" + rest);
    assert ("%_" + rest)[1..] == "_" + rest && ("%" + rest)[0..] == "%" + rest;
  }

  /** The pattern that gets a text with a '%' in it wrong: after its last '%', one '_' more. */
  lemma TextWithPercentFails(t: string) returns (p: string)
    requires !PercentFree(t)
    ensures Matches(p, t) && !Scan(p, t, 0, 0, NoStar)
  {
    hide Matches, Scan;
    var n := LastPercent(t);
    var rest := t[n + 1..];
    p := t[..n] + ("%_" + rest);
    OneMorePercent(rest);
    MatchesItself(t[..n], "%_" + rest, "%" + rest);
    assert t == t[..n] + ("%" + rest);
    assert forall k :: n + 2 <= k < |p| ==> p[k] == rest[k - n - 2];
    assert p[n + 1] == '_' && |p| == |t| + 1;
    assert forall k :: 0 <= k < n + 1 ==> p[k] == t[k];
    assert forall k :: n < k < |p| ==> p[k] != '%';
    LengthsDiffer(p, t, 0);
  }

  /** A pattern with its '_' filled in, as a text. */
  function Filled(p: string): (t: string)
    ensures |t| == |p|
    ensures forall i :: 0 <= i < |p| ==> t[i] == if p[i] == '_' then 'a' else p[i]
  {
    seq(|p|, i requires 0 <= i < |p| => if p[i] == '_' then 'a' else p[i])
  }

  lemma {:induction false} FilledMatches(p: string)
    ensures Matches(p, Filled(p))
  {
    if p != "" {
      FilledMatches(p[1..]);
      assert Filled(p)[1..] == Filled(p[1..]);
    }
  }

  lemma {:induction false} FilledPrefix(s: string, p: string, t: string)
    requires Matches(p, t)
    ensures Matches(s + p, Filled(s) + t)
  {
    if s == "" {
      assert s + p == p && Filled(s) + t == t;
    } else {
      FilledPrefix(s[1..], p, t);
      var u := Filled(s) + t;
      assert Filled(s)[1..] == Filled(s[1..]);
      assert (s + p)[1..] == s[1..] + p && u[1..] == Filled(s[1..]) + t;
      assert s[0] == '%' ==> Matches((s + p)[1..], u[1..]);
    }
  }

  lemma OneMoreCharacter(rest: string)
    ensures Matches("%" + rest, "%a" + Filled(rest))
  {
    FilledMatches(rest);
    assert ("%" + rest)[1..] == rest && ("%a" + Filled(rest))[2..] == Filled(rest);
  }

  /** The pattern's own text, with a character more after its last '%'. */
  function Stretched(p: string): (t: string)
    requires !PercentFree(p)
    ensures |t| == |p| + 1
    ensures forall k :: 0 <= k < |p| && p[k] == '%' ==> t[k] == '%'
  {
    var n := LastPercent(p);
    assert forall k :: n < k < |p| ==> p[k] == p[n + 1..][k - n - 1];
    Filled(p[..n]) + ("%a" + Filled(p[n + 1..]))
  }

  /** The text that a pattern with a '%' in it gets wrong. */
  lemma PatternWithPercentFails(p: string) returns (t: string)
    requires !PercentFree(p)
    ensures Matches(p, t) && !Scan(p, t, 0, 0, NoStar)
  {
    hide Matches, Scan;
    t := Stretched(p);
    StretchedMatches(p);
    LengthsDiffer(p, t, 0);
  }

  lemma StretchedMatches(p: string)
    requires !PercentFree(p)
    ensures Matches(p, Stretched(p))
  {
    hide Matches, Filled;
    var n := LastPercent(p);
    var rest := p[n + 1..];
    OneMoreCharacter(rest);
    FilledPrefix(p[..n], "%" + rest, "%a" + Filled(rest));
    assert p == p[..n] + ("%" + rest);
  }

  /** For a text the matcher is right on every pattern exactly when the text has no '%'. */
  lemma RightForEveryPattern(t: string)
    ensures (forall p: string :: Scan(p, t, 0, 0, NoStar) <==> Matches(p, t)) <==> PercentFree(t)
  {
    hide Matches, Scan;
    if PercentFree(t) {
      forall p: string
        ensures Scan(p, t, 0, 0, NoStar) <==> Matches(p, t)
      {
        Agreement(p, t);
      }
    } else {
      var p := TextWithPercentFails(t);
    }
  }

  /** For a pattern the matcher is right on every text exactly when the pattern has no '%'. */
  lemma RightForEveryText(p: string)
    ensures (forall t: string :: Scan(p, t, 0, 0, NoStar) <==> Matches(p, t)) <==> PercentFree(p)
  {
    hide Matches, Scan;
    if PercentFree(p) {
      forall t: string
        ensures Scan(p, t, 0, 0, NoStar) <==> Matches(p, t)
      {
        Agreement(p, t);
      }
    } else {
      var t := PatternWithPercentFails(p);
    }
  }

  // ---------------------------------------------------------------- ILIKE

  function Lower(c: char): char {
    if 'A' <= c <= 'Z' then c - 'A' + 'a' else c
  }

  function LowerAll(s: string): (l: string)
    ensures |l| == |s|
  {
    seq(|s|, i requires 0 <= i < |s| => Lower(s[i]))
  }

  /** types.c `kdb_ilike_match`: LIKE on both sides in lower case. */
  method ILikeMatch(pattern: string, text: string) returns (matched: bool)
    ensures matched <==> Scan(LowerAll(pattern), LowerAll(text), 0, 0, NoStar)
    ensures matched ==> Matches(LowerAll(pattern), LowerAll(text))
    ensures PercentFree(text) || PercentFree(pattern) ==>
              (matched <==> Matches(LowerAll(pattern), LowerAll(text)))
  {
    hide Matches, PercentFree;
    ghost var lp, lt := LowerAll(pattern), LowerAll(text);
    SoundFromStart(lp, lt);
    LowerPercentFree(pattern);
    LowerPercentFree(text);
    if PercentFree(text) || PercentFree(pattern) {
      Agreement(lp, lt);
    }
    var p: nat, t: nat, star := 0, 0, NoStar;
    while t < |text|
      invariant Placed(lp, lt, p, t, star)
      invariant Scan(lp, lt, p, t, star) <==> Scan(lp, lt, 0, 0, NoStar)
      decreases Later(lt, star), Ahead(lp, star), |text| - t
    {
      if p < |pattern| && (pattern[p] == '_' || Lower(pattern[p]) == Lower(text[t])) {
        p, t := p + 1, t + 1;
      } else if p < |pattern| && pattern[p] == '%' {
        star := Star(p, t);
        p := p + 1;
      } else if star.Star? {
        star := Star(star.p, star.t + 1);
        p, t := star.p + 1, star.t;
      } else {
        return false;
      }
    }
    ghost var from := p;
    while p < |pattern| && pattern[p] == '%'
      invariant from <= p <= |pattern|
      invariant forall k :: from <= k < p ==> lp[k] == '%'
    {
      p := p + 1;
    }
    matched := p == |pattern|;
    assert !matched ==> lp[from..][p - from] == lp[p];
  }

  lemma LowerPercentFree(s: string)
    ensures PercentFree(LowerAll(s)) <==> PercentFree(s)
  {
    assert forall i :: 0 <= i < |s| ==> (LowerAll(s)[i] == '%' <==> s[i] == '%');
  }

  /** Two characters are one letter to ILIKE exactly when they are the same, or the two cases of a letter from A to
      Z. */
  lemma LowerExactly(c: char, d: char)
    ensures Lower(c) == Lower(d) <==>
      || c == d
      || ('A' <= c <= 'Z' && d as int == c as int + 32)
      || ('A' <= d <= 'Z' && c as int == d as int + 32)
    ensures 'A' as int == 65 && 'a' as int == 97
  {
  }
}
