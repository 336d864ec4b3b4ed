/** Literal substring search through `ILIKE`: the escaping of the search term
    (search.criteria.ts) and the pattern it is put into (search.repository.ts). */
module LikePattern {
  import opened Wrappers

  const ESCAPE := '\\'

  /** JavaScript's `s.replace(/c/g, rep)` for a single character `c`. */
  function ReplaceAll(s: string, c: char, rep: string): string {
    if s == [] then [] else (if s[0] == c then rep else [s[0]]) + ReplaceAll(s[1..], c, rep)
  }

  /** The three chained replacements, backslash first. */
  function EscapeLike(value: string): string {
    ReplaceAll(ReplaceAll(ReplaceAll(value, '\\', "\\\\"), '%', "\\%"), '_', "\\_")
  }

  // ---------- LIKE, as the database evaluates it ----------

  datatype Token = Literal(c: char) | AnyChar | AnyRun

  /** A pattern read left to right; None is the error "pattern must not end with
      escape character". */
  function Tokens(p: string): Option<seq<Token>> {
    if p == [] then Some([])
    else if p[0] == ESCAPE then
      if |p| == 1 then None else Push(Literal(p[1]), Tokens(p[2..]))
    else
      Push(if p[0] == '%' then AnyRun else if p[0] == '_' then AnyChar else Literal(p[0]), Tokens(p[1..]))
  }

  function Push(t: Token, rest: Option<seq<Token>>): Option<seq<Token>> {
    match rest
    case None => None
    case Some(ts) => Some([t] + ts)
  }

  predicate Matches(ts: seq<Token>, s: string)
    decreases |ts| + |s|
  {
    if ts == [] then s == []
    else match ts[0]
      case Literal(c) => s != [] && s[0] == c && Matches(ts[1..], s[1..])
      case AnyChar => s != [] && Matches(ts[1..], s[1..])
      case AnyRun => Matches(ts[1..], s) || (s != [] && Matches(ts, s[1..]))
  }

  /** Case folding, character by character. */
  function Fold(fold: char -> char, s: string): string {
    seq(|s|, i requires 0 <= i < |s| => fold(s[i]))
  }

  /** `title ILIKE pattern ESCAPE '\'`: both sides are folded, then matched. */
  function ILike(fold: char -> char, title: string, pattern: string): Option<bool> {
    match Tokens(Fold(fold, pattern))
    case None => None
    case Some(ts) => Some(Matches(ts, Fold(fold, title)))
  }

  predicate IsMeta(c: char) { c == '\\' || c == '%' || c == '_' }

  /** What is asked of a case folding: no letter folds to or from a metacharacter. */
  ghost predicate KeepsMeta(fold: char -> char) {
    forall c :: (IsMeta(c) ==> fold(c) == c) && (IsMeta(fold(c)) ==> IsMeta(c))
  }

  function LowerAscii(c: char): char {
    if 'A' <= c <= 'Z' then c + ' ' else c
  }

  predicate Contains(s: string, t: string) {
    exists i | 0 <= i <= |s| :: t <= s[i..]
  }

  // ---------- the replacements, character by character ----------

  function EscapeChar(c: char): string {
    if IsMeta(c) then [ESCAPE, c] else [c]
  }

  function EscapeEach(value: string): string {
    if value == [] then [] else EscapeChar(value[0]) + EscapeEach(value[1..])
  }

  lemma {:induction false} ReplaceAllConcat(a: string, b: string, c: char, rep: string)
    ensures ReplaceAll(a + b, c, rep) == ReplaceAll(a, c, rep) + ReplaceAll(b, c, rep)
  {
    if a == [] {
      assert a + b == b;
    } else {
      assert (a + b)[1..] == a[1..] + b;
      ReplaceAllConcat(a[1..], b, c, rep);
    }
  }

  /** The chained replacements never escape an escape they added: together they are
      one pass that puts a backslash before each metacharacter of the term. */
  lemma {:induction false} EscapeLikeIsOnePass(value: string)
    ensures EscapeLike(value) == EscapeEach(value)
  {
    if value != [] {
      var c, rest := [value[0]], value[1..];
      EscapeLikeIsOnePass(rest);
      assert value == c + rest;
      ReplaceAllConcat(c, rest, '\\', "\\\\");
      var c1, r1 := ReplaceAll(c, '\\', "\\\\"), ReplaceAll(rest, '\\', "\\\\");
      ReplaceAllConcat(c1, r1, '%', "\\%");
      var c2, r2 := ReplaceAll(c1, '%', "\\%"), ReplaceAll(r1, '%', "\\%");
      ReplaceAllConcat(c2, r2, '_', "\\_");
      EscapeOne(value[0]);
    }
  }

  lemma ReplaceOne(a: char, c: char, rep: string)
    ensures ReplaceAll([a], c, rep) == if a == c then rep else [a]
  {
    assert [a][1..] == [];
    assert ReplaceAll([], c, rep) == [];
  }

  lemma ReplaceTwo(a: char, b: char, c: char, rep: string)
    ensures ReplaceAll([a, b], c, rep) == (if a == c then rep else [a]) + (if b == c then rep else [b])
  {
    assert [a, b] == [a] + [b];
    ReplaceAllConcat([a], [b], c, rep);
    ReplaceOne(a, c, rep);
    ReplaceOne(b, c, rep);
  }

  lemma EscapeOne(c: char)
    ensures EscapeLike([c]) == EscapeChar(c)
  {
    ReplaceOne(c, '\\', "\\\\");
    ReplaceOne(c, '%', "\\%");
    ReplaceOne(c, '_', "\\_");
    ReplaceTwo('\\', '\\', '%', "\\%");
    ReplaceTwo('\\', '\\', '_', "\\_");
    ReplaceTwo('\\', '%', '_', "\\_");
  }

  lemma OneToken(c: char)
    requires c != ESCAPE
    ensures Tokens([c]) == Some([if c == '%' then AnyRun else if c == '_' then AnyChar else Literal(c)])
  {
    var t := if c == '%' then AnyRun else if c == '_' then AnyChar else Literal(c);
    assert [c][1..] == [] && Tokens([]) == Some([]);
    assert [t] + [] == [t];
  }

  lemma EscapedToken(c: char, rest: string)
    ensures Tokens([ESCAPE, c] + rest) == Push(Literal(c), Tokens(rest))
  {
    assert ([ESCAPE, c] + rest)[2..] == rest;
  }

  /** Backslash last would double-escape: the term "%" would again match anything. */
  lemma BackslashMustComeFirst()
    ensures ReplaceAll(ReplaceAll("%", '%', "\\%"), '\\', "\\\\") == ['\\', '\\', '%']
    ensures Tokens(['\\', '\\', '%']) == Some([Literal('\\'), AnyRun])
    ensures Tokens(EscapeLike("%")) == Some([Literal('%')])
  {
    ReplaceOne('%', '%', "\\%");
    ReplaceTwo('\\', '%', '\\', "\\\\");
    assert "%" == ['%'] && "\\%" == ['\\', '%'];
    OneToken('%');
    EscapedToken('\\', "%");
    assert [Literal('\\')] + [AnyRun] == [Literal('\\'), AnyRun];
    assert ['\\', '\\', '%'] == ['\\', '\\'] + "%";
    EscapeOne('%');
    EscapedToken('%', []);
    assert [Literal('%')] + [] == [Literal('%')];
    assert ['\\', '%'] + [] == ['\\', '%'];
  }

  // ---------- the pattern means "contains the term" ----------

  function Literals(t: string): seq<Token> {
    seq(|t|, i requires 0 <= i < |t| => Literal(t[i]))
  }

  lemma FoldedEscape(fold: char -> char, c: char, rest: string)
    requires KeepsMeta(fold)
    ensures Tokens(Fold(fold, EscapeChar(c)) + rest) == Push(Literal(fold(c)), Tokens(rest))
  {
    var s := Fold(fold, EscapeChar(c)) + rest;
    if IsMeta(c) {
      assert s == [ESCAPE, fold(c)] + rest;
      EscapedToken(fold(c), rest);
    } else {
      assert s == [fold(c)] + rest && s[1..] == rest;
    }
  }

  lemma FoldConcat(fold: char -> char, a: string, b: string)
    ensures Fold(fold, a + b) == Fold(fold, a) + Fold(fold, b)
  {}

  lemma {:induction false} EscapedTokens(fold: char -> char, value: string, tail: string, ts: seq<Token>)
    requires KeepsMeta(fold)
    requires Tokens(tail) == Some(ts)
    ensures Tokens(Fold(fold, EscapeEach(value)) + tail) == Some(Literals(Fold(fold, value)) + ts)
  {
    hide Tokens, KeepsMeta, EscapeChar;
    if value == [] {
      assert Fold(fold, EscapeEach(value)) + tail == tail;
      assert Literals(Fold(fold, value)) + ts == ts;
    } else {
      var c := value[0];
      EscapedTokens(fold, value[1..], tail, ts);
      FoldConcat(fold, EscapeChar(c), EscapeEach(value[1..]));
      var rest := Fold(fold, EscapeEach(value[1..])) + tail;
      assert Fold(fold, EscapeEach(value)) + tail == Fold(fold, EscapeChar(c)) + rest;
      FoldedEscape(fold, c, rest);
      assert [Literal(fold(c))] + (Literals(Fold(fold, value[1..])) + ts) == Literals(Fold(fold, value)) + ts;
    }
  }

  lemma {:induction false} LiteralsThenRun(t: string, s: string)
    ensures Matches(Literals(t) + [AnyRun], s) <==> t <= s
  {
    var ts := Literals(t) + [AnyRun];
    if t == [] {
      assert ts == [AnyRun] && ts[1..] == [];
      RunMatchesAll(s);
    } else {
      assert ts[0] == Literal(t[0]) && ts[1..] == Literals(t[1..]) + [AnyRun];
      if s != [] {
        LiteralsThenRun(t[1..], s[1..]);
        if t[0] == s[0] && t[1..] <= s[1..] {
          assert t == [t[0]] + t[1..] && s == [s[0]] + s[1..];
        }
      }
    }
  }

  lemma {:induction false} RunMatchesAll(s: string)
    ensures Matches([AnyRun], s)
  {
    assert [AnyRun][1..] == [];
    if s != [] { RunMatchesAll(s[1..]); }
  }

  lemma {:induction false} RunAnywhere(t: string, s: string)
    ensures Matches([AnyRun] + (Literals(t) + [AnyRun]), s) <==> Contains(s, t)
  {
    var ts := Literals(t) + [AnyRun];
    assert ([AnyRun] + ts)[1..] == ts;
    LiteralsThenRun(t, s);
    assert s[0..] == s;
    if s != [] {
      RunAnywhere(t, s[1..]);
      if Contains(s[1..], t) {
        var i :| 0 <= i <= |s[1..]| && t <= s[1..][i..];
        assert s[1..][i..] == s[i + 1..];
      }
      if Contains(s, t) && !(t <= s) {
        var i :| 0 <= i <= |s| && t <= s[i..];
        assert s[1..][i - 1..] == s[i..];
      }
    }
  }

  /** The pattern search runs is never an error, and it matches exactly the titles
      that contain the term as the characters typed, whatever their case. */
  lemma SearchIsLiteral(fold: char -> char, term: string, title: string)
    requires KeepsMeta(fold)
    ensures ILike(fold, title, "%" + EscapeLike(term) + "%")
         == Some(Contains(Fold(fold, title), Fold(fold, term)))
  {
    EscapeLikeIsOnePass(term);
    var pattern := "%" + EscapeEach(term) + "%";
    OneToken('%');
    EscapedTokens(fold, term, "%", [AnyRun]);
    var body := Fold(fold, EscapeEach(term)) + "%";
    assert Fold(fold, pattern) == "%" + body && ("%" + body)[1..] == body;
    var lits := Literals(Fold(fold, term));
    assert Tokens(Fold(fold, pattern)) == Some([AnyRun] + (lits + [AnyRun]));
    RunAnywhere(Fold(fold, term), Fold(fold, title));
  }

  /** ASCII lower-casing is such a folding. */
  lemma LowerAsciiKeepsMeta()
    ensures KeepsMeta(LowerAscii)
  {}
}
