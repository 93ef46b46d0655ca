/** The REGEXP matcher: atoms, quantifiers, classes, anchors (src/types.c). */
module Regex {

  /** A pattern denotes a sequence of quantified atoms, the sequence a language. Both are defined without the
    matcher; it accepts a text exactly when some stretch of the text is in the language.
   */

  // ---------------------------------------------------------------- patterns

  datatype ClassItem = Range(lo: char, hi: char) | One(c: char)

  datatype Atom = Any | Class(negated: bool, items: seq<ClassItem>) | Literal(c: char)

  datatype Quantifier = Once | Optional | Star | Plus

  datatype Piece = Piece(atom: Atom, quantifier: Quantifier)

  /** `$` is an anchor only as the very last thing in the pattern. */
  datatype Pattern = Pattern(pieces: seq<Piece>, toEnd: bool)

  function At(s: string, i: nat): char {
    if i < |s| then s[i] else '\0'
  }

  /** The items of a class up to its closing bracket, which as the first item stands for itself; and what follows. */
  function Items(p: string, first: bool): (r: (seq<ClassItem>, string))
    ensures |r.1| <= |p|
    decreases |p|
  {
    if p == "" || (p[0] == ']' && !first) then ([], p)
    else if |p| > 2 && p[1] == '-' && p[2] != ']' then
      var (items, rest) := Items(p[3..], false);
      ([Range(p[0], p[2])] + items, rest)
    else if p[0] == '\\' && |p| > 1 then
      var (items, rest) := Items(p[2..], false);
      ([One(p[1])] + items, rest)
    else
      var (items, rest) := Items(p[1..], false);
      ([One(p[0])] + items, rest)
  }

  /** The atom a pattern starts with, and what follows it. */
  function FirstAtom(p: string): (r: (Atom, string))
    requires p != ""
    ensures |r.1| < |p|
  {
    if p[0] == '.' then (Any, p[1..])
    else if p[0] == '[' then
      var negated := At(p, 1) == '^';
      var (items, rest) := Items(if negated then p[2..] else p[1..], true);
      (Class(negated, items), if rest != "" then rest[1..] else rest)
    else if p[0] == '\\' && |p| > 1 then (Literal(p[1]), p[2..])
    else (Literal(p[0]), p[1..])
  }

  function QuantifierAt(p: string): (q: Quantifier)
    ensures !q.Once? ==> p != ""
  {
    if p == "" then Once
    else if p[0] == '*' then Star
    else if p[0] == '+' then Plus
    else if p[0] == '?' then Optional
    else Once
  }

  function Parse(p: string): Pattern
    decreases |p|
  {
    if p == "" then Pattern([], false)
    else if p == "$" then Pattern([], true)
    else
      var (atom, after) := FirstAtom(p);
      var q := QuantifierAt(after);
      var rest := Parse(if q.Once? then after else after[1..]);
      Pattern([Piece(atom, q)] + rest.pieces, rest.toEnd)
  }

  // ---------------------------------------------------------------- languages

  predicate InItem(item: ClassItem, c: char) {
    match item
    case Range(lo, hi) => lo <= c <= hi
    case One(d) => c == d
  }

  predicate InAtom(a: Atom, c: char) {
    match a
    case Any => true
    case Literal(d) => c == d
    case Class(negated, items) =>
      if negated then forall i :: 0 <= i < |items| ==> !InItem(items[i], c)
      else exists i :: 0 <= i < |items| && InItem(items[i], c)
  }

  predicate Times(q: Quantifier, n: nat) {
    match q
    case Once => n == 1
    case Optional => n <= 1
    case Star => true
    case Plus => n >= 1
  }

  predicate InPiece(p: Piece, s: string) {
    Times(p.quantifier, |s|) && forall i :: 0 <= i < |s| ==> InAtom(p.atom, s[i])
  }

  /** The language of a sequence of pieces: one stretch after another. */
  predicate InLanguage(pieces: seq<Piece>, s: string) {
    if pieces == [] then s == ""
    else exists k :: 0 <= k <= |s| && InPiece(pieces[0], s[..k]) && InLanguage(pieces[1..], s[k..])
  }

  /** What a REGEXP match is: a stretch of the text in the language, at the ends the anchors name. */
  predicate Matches(pattern: string, text: string) {
    var fromStart := pattern != "" && pattern[0] == '^';
    var p := Parse(if fromStart then pattern[1..] else pattern);
    exists i, j :: 0 <= i <= j <= |text| && (fromStart ==> i == 0) && (p.toEnd ==> j == |text|)
                   && InLanguage(p.pieces, text[i..j])
  }

  // ---------------------------------------------------------------- matching from a given place

  /** The text begins with a string of the language, all of it if anchored at the end. */
  predicate Here(p: Pattern, text: string)
    decreases |p.pieces|
  {
    if p.pieces == [] then p.toEnd ==> text == ""
    else exists k :: 0 <= k <= |text| && InPiece(p.pieces[0], text[..k]) && Here(Rest(p), text[k..])
  }

  function Rest(p: Pattern): Pattern
    requires p.pieces != []
  {
    Pattern(p.pieces[1..], p.toEnd)
  }

  lemma {:induction false} HereIsPrefix(p: Pattern, text: string)
    ensures Here(p, text) <==>
            exists j :: 0 <= j <= |text| && (p.toEnd ==> j == |text|) && InLanguage(p.pieces, text[..j])
    decreases |p.pieces|
  {
    hide InPiece;
    if p.pieces == [] {
      assert text[..0] == "";
    } else {
      if Here(p, text) {
        var k :| 0 <= k <= |text| && InPiece(p.pieces[0], text[..k]) && Here(Rest(p), text[k..]);
        HereIsPrefix(Rest(p), text[k..]);
        var m :| 0 <= m <= |text[k..]| && (p.toEnd ==> m == |text[k..]|)
                 && InLanguage(Rest(p).pieces, text[k..][..m]);
        var s := text[..k + m];
        assert s[..k] == text[..k] && s[k..] == text[k..][..m];
        assert InLanguage(p.pieces, s);
      }
      if j :| 0 <= j <= |text| && (p.toEnd ==> j == |text|) && InLanguage(p.pieces, text[..j]) {
        var s := text[..j];
        var k :| 0 <= k <= |s| && InPiece(p.pieces[0], s[..k]) && InLanguage(p.pieces[1..], s[k..]);
        assert s[..k] == text[..k] && s[k..] == text[k..][..j - k];
        HereIsPrefix(Rest(p), text[k..]);
      }
    }
  }

  // ---------------------------------------------------------------- the matcher

  predicate InItems(items: seq<ClassItem>, c: char) {
    exists i :: 0 <= i < |items| && InItem(items[i], c)
  }

  lemma InMoreItems(item: ClassItem, items: seq<ClassItem>, c: char)
    ensures InItems([item] + items, c) <==> InItem(item, c) || InItems(items, c)
  {
    var all := [item] + items;
    assert all[0] == item;
    assert forall i :: 0 <= i < |items| ==> all[i + 1] == items[i];
  }

  /** The class loop of `kdb__re_atom_matches`, from just inside the bracket. */
  method ClassMatches(pattern: string, c: char) returns (matched: bool, rest: string)
    ensures (rest == Items(pattern, true).1) && (matched <==> InItems(Items(pattern, true).0, c))
  {
    hide InItems, InItem;
    var p, first := pattern, true;
    matched := false;
    while p != "" && (p[0] != ']' || first)
      invariant Items(pattern, true).1 == Items(p, first).1
      invariant InItems(Items(pattern, true).0, c) <==> matched || InItems(Items(p, first).0, c)
      decreases |p|
    {
      if |p| > 2 && p[1] == '-' && p[2] != ']' {
        InMoreItems(Range(p[0], p[2]), Items(p[3..], false).0, c);
        if InItem(Range(p[0], p[2]), c) {
          matched := true;
        }
        p := p[3..];
      } else if p[0] == '\\' && |p| > 1 {
        InMoreItems(One(p[1]), Items(p[2..], false).0, c);
        if InItem(One(p[1]), c) {
          matched := true;
        }
        p := p[2..];
      } else {
        InMoreItems(One(p[0]), Items(p[1..], false).0, c);
        if InItem(One(p[0]), c) {
          matched := true;
        }
        p := p[1..];
      }
      first := false;
    }
    rest := p;
    assert !InItems([], c) by {
      NoItems(c);
    }
  }

  lemma NoItems(c: char)
    ensures !InItems([], c)
  {
  }

  /** types.c `kdb__re_atom_matches`. */
  method AtomMatches(pattern: string, c: char) returns (matched: bool, rest: string)
    requires pattern != ""
    ensures rest == FirstAtom(pattern).1 && (matched <==> InAtom(FirstAtom(pattern).0, c))
  {
    hide Items, InItem;
    if pattern[0] == '.' {
      return true, pattern[1..];
    }
    if pattern[0] == '[' {
      var p, negate := pattern[1..], false;
      if p != "" && p[0] == '^' {
        negate := true;
        p := p[1..];
      }
      assert negate ==> p == pattern[2..];
      matched, rest := ClassMatches(p, c);
      if rest != "" {
        rest := rest[1..];
      }
      return if negate then !matched else matched, rest;
    }
    if pattern[0] == '\\' && |pattern| > 1 {
      return pattern[1] == c, pattern[2..];
    }
    return pattern[0] == c, pattern[1..];
  }

  /** How many characters the atom takes in a row. */
  function Run(a: Atom, text: string): (n: nat)
    ensures n <= |text|
    ensures forall i :: 0 <= i < n ==> InAtom(a, text[i])
    ensures n < |text| ==> !InAtom(a, text[n])
  {
    if text != "" && InAtom(a, text[0]) then 1 + Run(a, text[1..]) else 0
  }

  /** What a greedy repetition that gives back one at a time amounts to. */
  predicate Repeats(a: Atom, p: Pattern, text: string, minCount: nat, maxCount: nat)
    requires maxCount <= |text|
  {
    exists k :: minCount <= k <= maxCount && Here(p, text[k..])
  }

  lemma RepeatIsPiece(a: Atom, q: Quantifier, p: Pattern, text: string)
    requires q.Star? || q.Plus?
    ensures Repeats(a, p, text, if q.Plus? then 1 else 0, Run(a, text))
       <==> Here(Pattern([Piece(a, q)] + p.pieces, p.toEnd), text)
  {
    hide InAtom;
    var whole := Pattern([Piece(a, q)] + p.pieces, p.toEnd);
    assert Rest(whole) == p;
    forall k | 0 <= k <= |text|
      ensures InPiece(Piece(a, q), text[..k]) <==> Times(q, k) && k <= Run(a, text)
    {
      assert forall i :: 0 <= i < k ==> text[..k][i] == text[i];
      var n := Run(a, text);
      assert n < k ==> text[..k][n] == text[n] && !InAtom(a, text[n]);
    }
  }

  /** types.c `kdb__re_match_repeat`. */
  method MatchRepeat(pattern: string, after: string, text: string, minCount: nat) returns (matched: bool)
    requires pattern != ""
    ensures matched <==>
            Repeats(FirstAtom(pattern).0, Parse(after), text, minCount, Run(FirstAtom(pattern).0, text))
    decreases |after|, 1
  {
    hide InAtom, FirstAtom, Parse, Here;
    ghost var a := FirstAtom(pattern).0;
    var t, count := text, 0;
    while true
      invariant 0 <= count <= |text| && t == text[count..]
      invariant Run(a, text) == count + Run(a, t)
      decreases |t|
    {
      if t == "" {
        break;
      }
      var m, _ := AtomMatches(pattern, t[0]);
      if !m {
        break;
      }
      t := t[1..];
      count := count + 1;
    }
    var left: int := count;
    while left >= minCount
      invariant minCount - 1 <= left <= count || left == count
      invariant forall k :: left < k <= count && k >= minCount ==> !Here(Parse(after), text[k..])
      decreases left
    {
      var m := MatchHere(after, text[left..]);
      if m {
        return true;
      }
      left := left - 1;
    }
    return false;
  }

  /** types.c `kdb__re_match_here`: the rest of the pattern against the text from here on. */
  method MatchHere(pattern: string, text: string) returns (matched: bool)
    ensures matched <==> Here(Parse(pattern), text)
    decreases |pattern|, 0
  {
    hide InAtom, FirstAtom, Here;
    if pattern == "" {
      HereAtEnd(Pattern([], false), text);
      return true;
    }
    if pattern == "$" {
      HereAtEnd(Pattern([], true), text);
      return text == "";
    }
    var _, after := AtomMatches(pattern, At(text, 0));
    ghost var a := FirstAtom(pattern).0;
    if after != "" && after[0] == '*' {
      RepeatIsPiece(a, Star, Parse(after[1..]), text);
      matched := MatchRepeat(pattern, after[1..], text, 0);
      return;
    }
    if after != "" && after[0] == '+' {
      RepeatIsPiece(a, Plus, Parse(after[1..]), text);
      matched := MatchRepeat(pattern, after[1..], text, 1);
      return;
    }
    if after != "" && after[0] == '?' {
      OptionalIsPiece(a, Parse(after[1..]), text);
      if text != "" {
        var m, _ := AtomMatches(pattern, text[0]);
        if m {
          m := MatchHere(after[1..], text[1..]);
          if m {
            return true;
          }
        }
      }
      matched := MatchHere(after[1..], text);
      return;
    }
    OnceIsPiece(a, Parse(after), text);
    if text == "" {
      return false;
    }
    var m, _ := AtomMatches(pattern, text[0]);
    if !m {
      return false;
    }
    matched := MatchHere(after, text[1..]);
  }

  lemma HereAtEnd(p: Pattern, text: string)
    requires p.pieces == []
    ensures Here(p, text) <==> (p.toEnd ==> text == "")
  {
  }

  lemma ShortPiece(a: Atom, q: Quantifier, text: string, k: nat)
    requires (q.Once? || q.Optional?) && k <= |text|
    ensures InPiece(Piece(a, q), text[..k])
       <==> Times(q, k) && (k == 1 ==> InAtom(a, text[0]))
  {
    hide InAtom;
    if k == 1 {
      assert text[..1][0] == text[0];
    }
  }

  lemma {:induction false} OptionalIsPiece(a: Atom, p: Pattern, text: string)
    ensures Here(Pattern([Piece(a, Optional)] + p.pieces, p.toEnd), text)
       <==> Here(p, text) || (text != "" && InAtom(a, text[0]) && Here(p, text[1..]))
  {
    hide InAtom, InPiece;
    var whole := Pattern([Piece(a, Optional)] + p.pieces, p.toEnd);
    assert Rest(whole) == p && text[0..] == text;
    forall k | 0 <= k <= |text|
      ensures InPiece(Piece(a, Optional), text[..k]) <==> k == 0 || (k == 1 && InAtom(a, text[0]))
    {
      ShortPiece(a, Optional, text, k);
    }
  }

  lemma {:induction false} OnceIsPiece(a: Atom, p: Pattern, text: string)
    ensures Here(Pattern([Piece(a, Once)] + p.pieces, p.toEnd), text)
       <==> text != "" && InAtom(a, text[0]) && Here(p, text[1..])
  {
    hide InAtom, InPiece;
    var whole := Pattern([Piece(a, Once)] + p.pieces, p.toEnd);
    assert Rest(whole) == p;
    forall k | 0 <= k <= |text|
      ensures InPiece(Piece(a, Once), text[..k]) <==> k == 1 && InAtom(a, text[0])
    {
      ShortPiece(a, Once, text, k);
    }
  }

  /** From some place on, the text begins with a string of the language. */
  predicate Somewhere(p: Pattern, text: string, from: nat) {
    exists i :: from <= i <= |text| && Here(p, text[i..])
  }

  lemma MatchesFromStart(pattern: string, text: string)
    requires pattern != "" && pattern[0] == '^'
    ensures Matches(pattern, text) <==> Here(Parse(pattern[1..]), text)
  {
    hide Parse, InLanguage, Here;
    HereIsPrefix(Parse(pattern[1..]), text);
    assert forall j :: 0 <= j <= |text| ==> text[0..j] == text[..j];
  }

  lemma MatchesSomewhere(pattern: string, text: string)
    requires pattern == "" || pattern[0] != '^'
    ensures Matches(pattern, text) <==> Somewhere(Parse(pattern), text, 0)
  {
    hide Parse, InLanguage, Here;
    var p := Parse(pattern);
    if i, j :| 0 <= i <= j <= |text| && (p.toEnd ==> j == |text|) && InLanguage(p.pieces, text[i..j]) {
      HereIsPrefix(p, text[i..]);
      assert text[i..][..j - i] == text[i..j];
    }
    if i :| 0 <= i <= |text| && Here(p, text[i..]) {
      HereIsPrefix(p, text[i..]);
      var j :| 0 <= j <= |text[i..]| && (p.toEnd ==> j == |text[i..]|) && InLanguage(p.pieces, text[i..][..j]);
      assert text[i..][..j] == text[i..i + j];
    }
  }

  /** types.c `kdb_regex_match`: sound and complete. */
  method RegexMatch(pattern: string, text: string) returns (matched: bool)
    ensures matched <==> Matches(pattern, text)
  {
    hide Parse, InLanguage, Here, Matches;
    if pattern != "" && pattern[0] == '^' {
      MatchesFromStart(pattern, text);
      matched := MatchHere(pattern[1..], text);
      return;
    }
    MatchesSomewhere(pattern, text);
    var t := 0;
    while true
      invariant 0 <= t <= |text|
      invariant Somewhere(Parse(pattern), text, 0) <==> Somewhere(Parse(pattern), text, t)
      decreases |text| - t
    {
      var m := MatchHere(pattern, text[t..]);
      if m {
        return true;
      }
      if t == |text| {
        return false;
      }
      t := t + 1;
    }
  }

  // ---------------------------------------------------------------- what patterns mean

  /** Characters that stand for themselves in a pattern. */
  predicate Ordinary(c: char) {
    c !in {'.', '[', '\\', '*', '+', '?', '^', '$'}
  }

  predicate AllOrdinary(p: string) {
    forall i :: 0 <= i < |p| ==> Ordinary(p[i])
  }

  function Literals(p: string): seq<Piece> {
    seq(|p|, i requires 0 <= i < |p| => Piece(Literal(p[i]), Once))
  }

  lemma {:induction false} ParseOrdinary(p: string, toEnd: bool)
    requires AllOrdinary(p)
    ensures Parse(p + if toEnd then "$" else "") == Pattern(Literals(p), toEnd)
  {
    var tail := if toEnd then "$" else "";
    var all := p + tail;
    if p == "" {
      assert all == tail && Literals(p) == [];
    } else {
      ParseOrdinary(p[1..], toEnd);
      assert all[1..] == p[1..] + tail && Ordinary(p[0]) && all[0] == p[0];
      assert FirstAtom(all) == (Literal(p[0]), all[1..]);
      assert |p| > 1 ==> all[1] == p[1] && Ordinary(p[1]);
      assert QuantifierAt(all[1..]) == Once;
      assert Literals(p) == [Piece(Literal(p[0]), Once)] + Literals(p[1..]);
    }
  }

  lemma {:induction false} OrdinaryLanguage(p: string, s: string)
    ensures InLanguage(Literals(p), s) <==> s == p
  {
    if p != "" {
      assert Literals(p)[1..] == Literals(p[1..]);
      if s == p {
        OrdinaryLanguage(p[1..], s[1..]);
        assert InPiece(Literals(p)[0], s[..1]);
      }
      if InLanguage(Literals(p), s) {
        var k :| 0 <= k <= |s| && InPiece(Literals(p)[0], s[..k]) && InLanguage(Literals(p)[1..], s[k..]);
        OrdinaryLanguage(p[1..], s[k..]);
        assert k == 1 && s[..k][0] == p[0] && s == [s[0]] + s[1..];
      }
    }
  }

  predicate FoundAt(p: string, t: string, i: nat) {
    i + |p| <= |t| && t[i..i + |p|] == p
  }

  /** Ordinary characters match a text that has them next to each other; behind '^' one that begins with them; before
      '$' one that ends with them; between the two only themselves. */
  lemma OrdinaryMeans(p: string, t: string)
    requires AllOrdinary(p)
    ensures Matches(p, t) <==> exists i :: FoundAt(p, t, i)
    ensures Matches("^" + p, t) <==> p <= t
    ensures Matches(p + "$", t) <==> |p| <= |t| && t[|t| - |p|..] == p
    ensures Matches("^" + p + "$", t) <==> t == p
  {
    hide InLanguage, Parse;
    ParseOrdinary(p, false);
    ParseOrdinary(p, true);
    assert p + "" == p && ("^" + p)[1..] == p && ("^" + p + "$")[1..] == p + "$";
    forall i, j | 0 <= i <= j <= |t|
      ensures InLanguage(Literals(p), t[i..j]) <==> j == i + |p| && FoundAt(p, t, i)
    {
      OrdinaryLanguage(p, t[i..j]);
    }
    assert p != "" ==> p[0] != '^' by {
      assert p != "" ==> Ordinary(p[0]);
    }
    assert (p + "$")[0] == if p != "" then p[0] else '$';
    if i: nat :| FoundAt(p, t, i) {
      assert InLanguage(Literals(p), t[i..i + |p|]);
    }
    assert p <= t <==> FoundAt(p, t, 0);
    if FoundAt(p, t, 0) {
      assert InLanguage(Literals(p), t[0..|p|]);
    }
    if |p| <= |t| && t[|t| - |p|..] == p {
      assert FoundAt(p, t, |t| - |p|) && InLanguage(Literals(p), t[|t| - |p|..|t|]);
    }
  }
}
