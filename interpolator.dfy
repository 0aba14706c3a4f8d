/** Placeholder interpolation: substitutes literal parameter values for the
    `?`, `@p{i}` or `:{i+1}` placeholders of a SQL text. */
module Interpolator {
  import opened Text

  datatype PlaceholderType = Question | SqlServer | Oracle

  /** Parameter values, one per line, trimmed, blank lines dropped. */
  function ParseParameters(input: String): (params: seq<String>)
    ensures forall i :: 0 <= i < |params| ==> params[i] != [] && IsTrimmed(params[i]) && NoneIn(params[i], LineBreaks)
  {
    Parse(input, LineBreaks)
  }

  // ============================================================ `?` style

  /** The number of `?` characters in `s`. */
  function CountQ(s: String): nat
  {
    if s == [] then 0 else (if s[0] == '?' then 1 else 0) + CountQ(s[1..])
  }

  lemma {:induction false} CountQAppend(a: String, b: String)
    ensures CountQ(a + b) == CountQ(a) + CountQ(b)
  {
    if a == [] {
      assert a + b == b;
    } else {
      assert (a + b)[0] == a[0] && (a + b)[1..] == a[1..] + b;
      CountQAppend(a[1..], b);
    }
  }

  /** What the scan emits for one character once `k` parameters have been
      consumed: a `?` takes the next unused parameter while there is one,
      every other character, and a `?` met after the parameters run out, is
      copied. */
  function Emit(c: char, params: seq<String>, k: nat, addQuotes: bool): String
    requires k <= |params|
  {
    if c == '?' && k < |params| then Quote(params[k], addQuotes) else [c]
  }

  /** The consumption index after one character. */
  function Next(c: char, params: seq<String>, k: nat): (k': nat)
    requires k <= |params|
    ensures k' <= |params|
  {
    if c == '?' && k < |params| then k + 1 else k
  }

  /** What the left-to-right scan emits for `s` once `k` parameters have been
      consumed. */
  function QuestionFrom(s: String, params: seq<String>, k: nat, addQuotes: bool): String
    requires k <= |params|
    decreases |s|
  {
    if s == [] then []
    else Emit(s[0], params, k, addQuotes) + QuestionFrom(s[1..], params, Next(s[0], params, k), addQuotes)
  }

  /** `replaceQuestionMarks`: one pass over `sql` with a consumption index.
      `consumed` is the final value of that index, which never passes the
      number of parameters. */
  method ReplaceQuestionMarks(sql: String, params: seq<String>, addQuotes: bool)
    returns (result: String, ghost consumed: nat)
    ensures result == QuestionFrom(sql, params, 0, addQuotes)
    ensures consumed == Min(CountQ(sql), |params|)
  {
    var idx := 0;
    result := [];
    var i := 0;
    while i < |sql|
      invariant 0 <= i <= |sql|
      invariant idx == Min(CountQ(sql[..i]), |params|)
      invariant result + QuestionFrom(sql[i..], params, idx, addQuotes) == QuestionFrom(sql, params, 0, addQuotes)
    {
      var c := sql[i];
      QuestionStep(sql, params, i, idx, addQuotes, result);
      if c == '?' {
        if idx < |params| {
          result := result + Quote(params[idx], addQuotes);
          idx := idx + 1;
        } else {
          result := result + ['?'];
        }
      } else {
        result := result + [c];
      }
      i := i + 1;
    }
    assert sql[..i] == sql;
    consumed := idx;
  }

  /** One step of the scan keeps its invariant: emitting `Emit` for the
      character at `i` and moving the index to `Next`, which again counts the
      `?` seen so far. */
  lemma QuestionStep(sql: String, params: seq<String>, i: nat, k: nat, addQuotes: bool, done: String)
    requires i < |sql| && k == Min(CountQ(sql[..i]), |params|)
    requires done + QuestionFrom(sql[i..], params, k, addQuotes) == QuestionFrom(sql, params, 0, addQuotes)
    ensures Next(sql[i], params, k) == Min(CountQ(sql[..i + 1]), |params|)
    ensures done + Emit(sql[i], params, k, addQuotes) + QuestionFrom(sql[i + 1..], params, Next(sql[i], params, k), addQuotes)
         == QuestionFrom(sql, params, 0, addQuotes)
  {
    assert sql[..i + 1] == sql[..i] + [sql[i]];
    CountQAppend(sql[..i], [sql[i]]);
    assert sql[i..][0] == sql[i] && sql[i..][1..] == sql[i + 1..];
    var e, rest := Emit(sql[i], params, k, addQuotes), QuestionFrom(sql[i + 1..], params, Next(sql[i], params, k), addQuotes);
    assert QuestionFrom(sql[i..], params, k, addQuotes) == e + rest;
    assert done + (e + rest) == done + e + rest;
  }

  /** The scan of a text that starts with `c`. */
  lemma QuestionCons(c: char, b: String, params: seq<String>, k: nat, addQuotes: bool)
    requires k <= |params|
    ensures QuestionFrom([c] + b, params, k, addQuotes)
         == Emit(c, params, k, addQuotes) + QuestionFrom(b, params, Next(c, params, k), addQuotes)
  {
    assert ([c] + b)[0] == c && ([c] + b)[1..] == b;
  }

  /** The scan is compositional: the second half continues with the index the
      first half left. */
  lemma {:induction false} QuestionAppend(a: String, b: String, params: seq<String>, k: nat, addQuotes: bool)
    requires k <= |params|
    ensures QuestionFrom(a + b, params, k, addQuotes)
         == QuestionFrom(a, params, k, addQuotes) + QuestionFrom(b, params, Min(k + CountQ(a), |params|), addQuotes)
    decreases |a|
  {
    if a == [] {
      assert a + b == b;
    } else {
      var c, a' := a[0], a[1..];
      var e, k' := Emit(c, params, k, addQuotes), Next(c, params, k);
      var m := Min(k + CountQ(a), |params|);
      var x, rest := QuestionFrom(a', params, k', addQuotes), QuestionFrom(b, params, m, addQuotes);
      calc {
        QuestionFrom(a + b, params, k, addQuotes);
        { assert (a + b)[0] == c && (a + b)[1..] == a' + b; }
        e + QuestionFrom(a' + b, params, k', addQuotes);
        { assert Min(k' + CountQ(a'), |params|) == m;
          QuestionAppend(a', b, params, k', addQuotes); }
        e + (x + rest);
        { assert e + (x + rest) == (e + x) + rest; }
        (e + x) + rest;
      }
    }
  }

  /** Text without `?` is copied unchanged. */
  lemma {:induction false} QuestionWithoutMarks(s: String, params: seq<String>, k: nat, addQuotes: bool)
    requires k <= |params| && NoneIn(s, {'?'})
    ensures CountQ(s) == 0
    ensures QuestionFrom(s, params, k, addQuotes) == s
    decreases |s|
  {
    if s != [] {
      QuestionWithoutMarks(s[1..], params, k, addQuotes);
    }
  }

  /** Once every parameter is consumed the rest of the text is copied
      unchanged, `?` included. */
  lemma {:induction false} QuestionExhausted(s: String, params: seq<String>, addQuotes: bool)
    ensures QuestionFrom(s, params, |params|, addQuotes) == s
    decreases |s|
  {
    if s != [] {
      QuestionExhausted(s[1..], params, addQuotes);
    }
  }

  /** The `?` preceded by exactly `k` others, for `k < |params|`, becomes
      `params[k]` (quoted if asked); the scan then goes on with index `k + 1`. */
  lemma QuestionKth(a: String, b: String, params: seq<String>, addQuotes: bool)
    requires CountQ(a) < |params|
    ensures QuestionFrom(a + (['?'] + b), params, 0, addQuotes)
         == QuestionFrom(a, params, 0, addQuotes) + (Quote(params[CountQ(a)], addQuotes)
            + QuestionFrom(b, params, CountQ(a) + 1, addQuotes))
  {
    QuestionAppend(a, ['?'] + b, params, 0, addQuotes);
    QuestionCons('?', b, params, CountQ(a), addQuotes);
  }

  /** A `?` preceded by at least `|params|` others stays `?`, and everything
      after it is copied unchanged. */
  lemma QuestionLeftover(a: String, b: String, params: seq<String>, addQuotes: bool)
    requires CountQ(a) >= |params|
    ensures QuestionFrom(a + (['?'] + b), params, 0, addQuotes)
         == QuestionFrom(a, params, 0, addQuotes) + (['?'] + b)
  {
    QuestionAppend(a, ['?'] + b, params, 0, addQuotes);
    QuestionExhausted(['?'] + b, params, addQuotes);
  }

  // ============================================================ indexed styles

  predicate IsDigit(c: char)
  {
    '0' <= c <= '9'
  }

  function DigitChar(d: nat): (c: char)
    requires d < 10
    ensures IsDigit(c)
  {
    (d + '0' as int) as char
  }

  /** `${n}`: the decimal numeral of `n`, without leading zeros. */
  function Dec(n: nat): (r: String)
    ensures r != []
    ensures forall k :: 0 <= k < |r| ==> IsDigit(r[k])
    ensures n < 10 <==> |r| == 1
  {
    if n < 10 then [DigitChar(n)] else Dec(n / 10) + [DigitChar(n % 10)]
  }

  /** A larger number never has a shorter numeral. */
  lemma {:induction false} DecLengthMonotone(a: nat, b: nat)
    requires a <= b
    ensures |Dec(a)| <= |Dec(b)|
    decreases b
  {
    if a >= 10 {
      DecLengthMonotone(a / 10, b / 10);
    }
  }

  /** Different numbers have different numerals. */
  lemma {:induction false} DecInjective(a: nat, b: nat)
    requires Dec(a) == Dec(b)
    ensures a == b
    decreases a
  {
    if a >= 10 {
      var da, db := Dec(a), Dec(b);
      assert da[..|da| - 1] == Dec(a / 10) && da[|da| - 1] == DigitChar(a % 10);
      assert db[..|db| - 1] == Dec(b / 10) && db[|db| - 1] == DigitChar(b % 10);
      DecInjective(a / 10, b / 10);
    }
  }

  /** The character every placeholder of the style starts with. */
  function Marker(style: PlaceholderType): char
  {
    if style == SqlServer then '@' else ':'
  }

  /** The text before the number in a placeholder. */
  function TokenPrefix(style: PlaceholderType): (r: String)
    ensures r != [] && r[0] == Marker(style)
    ensures NoneIn(r[1..], {Marker(style)})
    ensures forall k :: 0 <= k < |r| ==> !IsDigit(r[k])
  {
    if style == SqlServer then "@p" else ":"
  }

  /** The number in the placeholder of parameter `i`: sqlserver counts from
      0, oracle from 1. */
  function TokenNumber(style: PlaceholderType, i: nat): nat
  {
    if style == SqlServer then i else i + 1
  }

  /** The placeholder of parameter `i`: `@p{i}` for sqlserver, `:{i+1}`
      otherwise. */
  function Token(style: PlaceholderType, i: nat): (r: String)
    ensures r != [] && r[0] == Marker(style)
    ensures NoneIn(r[1..], {Marker(style)})
  {
    var r := TokenPrefix(style) + Dec(TokenNumber(style, i));
    assert r[1..] == TokenPrefix(style)[1..] + Dec(TokenNumber(style, i));
    r
  }

  /** `s.replace(new RegExp(escaped(pat), 'g'), rep)` read literally: every
      occurrence of `pat`, found left to right without overlap, becomes `rep`. */
  function ReplaceAll(s: String, pat: String, rep: String): String
    requires pat != []
    decreases |s|
  {
    if |s| < |pat| then s
    else if s[..|pat|] == pat then rep + ReplaceAll(s[|pat|..], pat, rep)
    else [s[0]] + ReplaceAll(s[1..], pat, rep)
  }

  /** Text that does not contain the first character of the pattern passes
      through unchanged, and the scan resumes right after it. */
  lemma {:induction false} ReplaceAllSkip(x: String, rest: String, pat: String, rep: String)
    requires pat != [] && NoneIn(x, {pat[0]})
    ensures ReplaceAll(x + rest, pat, rep) == x + ReplaceAll(rest, pat, rep)
    decreases |x|
  {
    if x == [] {
      assert x + rest == rest;
    } else if |x + rest| < |pat| {
      assert ReplaceAll(rest, pat, rep) == rest;
    } else {
      assert (x + rest)[..|pat|][0] == x[0];
      assert (x + rest)[0] == x[0] && (x + rest)[1..] == x[1..] + rest;
      ReplaceAllSkip(x[1..], rest, pat, rep);
    }
  }

  /** An occurrence of the pattern is replaced by `rep` exactly as given. */
  lemma ReplaceAllVerbatim(x: String, rest: String, pat: String, rep: String)
    requires pat != [] && NoneIn(x, {pat[0]})
    ensures ReplaceAll(x + pat + rest, pat, rep) == x + rep + ReplaceAll(rest, pat, rep)
  {
    ReplaceAllSkip(x, pat + rest, pat, rep);
    assert x + pat + rest == x + (pat + rest);
    assert (pat + rest)[..|pat|] == pat && (pat + rest)[|pat|..] == rest;
  }

  /** Substitutes, for `i` from `n - 1` down to `0`, `params[i]` at every
      occurrence of the placeholder of `i`. */
  function ReplaceDescending(s: String, params: seq<String>, style: PlaceholderType, addQuotes: bool, n: nat): String
    requires n <= |params|
    decreases n
  {
    if n == 0 then s
    else ReplaceDescending(ReplaceAll(s, Token(style, n - 1), Quote(params[n - 1], addQuotes)),
                           params, style, addQuotes, n - 1)
  }

  /** `replaceIndexedPlaceholders`: the loop runs from the last parameter
      down to the first, rebinding `result` each time. */
  method ReplaceIndexedPlaceholders(sql: String, params: seq<String>, style: PlaceholderType, addQuotes: bool)
    returns (result: String)
    ensures result == ReplaceDescending(sql, params, style, addQuotes, |params|)
  {
    result := sql;
    var i: int := |params| - 1;
    while i >= 0
      invariant -1 <= i < |params|
      invariant ReplaceDescending(result, params, style, addQuotes, i + 1)
             == ReplaceDescending(sql, params, style, addQuotes, |params|)
    {
      result := ReplaceAll(result, Token(style, i), Quote(params[i], addQuotes));
      i := i - 1;
    }
  }

  // ============================================================ dispatch

  /** What `interpolateQuery` returns. */
  function Interpolation(sql: String, params: seq<String>, style: PlaceholderType, addQuotes: bool): String
  {
    if style == Question then QuestionFrom(sql, params, 0, addQuotes)
    else ReplaceDescending(sql, params, style, addQuotes, |params|)
  }

  /** `interpolateQuery`: the `?` scan for question style, the descending
      indexed replacement otherwise. */
  method InterpolateQuery(sql: String, params: seq<String>, style: PlaceholderType, addQuotes: bool)
    returns (r: String)
    ensures r == Interpolation(sql, params, style, addQuotes)
  {
    if style == Question {
      ghost var consumed;
      r, consumed := ReplaceQuestionMarks(sql, params, addQuotes);
    } else {
      r := ReplaceIndexedPlaceholders(sql, params, style, addQuotes);
    }
  }

  /** With no parameters every style returns the SQL text unchanged. */
  lemma InterpolateNoParams(sql: String, style: PlaceholderType, addQuotes: bool)
    ensures Interpolation(sql, [], style, addQuotes) == sql
  {
    if style == Question {
      QuestionExhausted(sql, [], addQuotes);
    }
  }

  /** Two `?` and two parameters: `"a=? AND b=?"` becomes
      `"a='1' AND b='x'"` for any texts around the marks that have no `?`. */
  lemma QuestionTwoParams(a: String, b: String, params: seq<String>)
    requires |params| == 2 && NoneIn(a, {'?'}) && NoneIn(b, {'?'})
    ensures Interpolation(a + (['?'] + (b + ['?'])), params, Question, true)
         == a + (Quote(params[0], true) + (b + Quote(params[1], true)))
  {
    var p0, p1 := Quote(params[0], true), Quote(params[1], true);
    assert QuestionFrom(b + ['?'], params, 1, true) == b + p1 by {
      QuestionWithoutMarks(b, params, 1, true);
      QuestionAppend(b, ['?'], params, 1, true);
      assert ['?'] + [] == ['?'];
      QuestionCons('?', [], params, 1, true);
      assert QuestionFrom(['?'], params, 1, true) == p1 + [] == p1;
    }
    calc {
      Interpolation(a + (['?'] + (b + ['?'])), params, Question, true);
      QuestionFrom(a + (['?'] + (b + ['?'])), params, 0, true);
      { QuestionWithoutMarks(a, params, 0, true);
        QuestionKth(a, b + ['?'], params, true); }
      a + (p0 + QuestionFrom(b + ['?'], params, 1, true));
      a + (p0 + (b + p1));
    }
  }

  /** The worked example of the `?` style. */
  lemma QuestionExample(a: String, b: String)
    requires a == "SELECT * FROM t WHERE a=" && b == " AND b="
    ensures Interpolation(a + "?" + b + "?", ["1", "x"], Question, true) == a + "'1'" + b + "'x'"
  {
    var q, one, x: String := "?", "'1'", "'x'";
    assert q == ['?'] && a + q + b + q == a + (['?'] + (b + ['?']));
    assert Quote("1", true) == one && Quote("x", true) == x;
    QuestionTwoParams(a, b, ["1", "x"]);
    assert a + (one + (b + x)) == a + one + b + x;
  }

  // ============================================================ why descending order

  /** A SQL text seen as literal text and placeholders of parameters. */
  datatype Piece = Placeholder(index: nat) | Literal(text: String)

  /** The SQL text the pieces spell in a style. */
  function Render(ps: seq<Piece>, style: PlaceholderType): String
  {
    if ps == [] then []
    else (match ps[0]
          case Placeholder(i) => Token(style, i)
          case Literal(t) => t) + Render(ps[1..], style)
  }

  predicate IndicesBelow(ps: seq<Piece>, n: nat)
  {
    forall k :: 0 <= k < |ps| && ps[k].Placeholder? ==> ps[k].index < n
  }

  /** The intended result: every placeholder replaced by its own value. */
  function Fill(ps: seq<Piece>, params: seq<String>, addQuotes: bool): String
    requires IndicesBelow(ps, |params|)
  {
    if ps == [] then []
    else (match ps[0]
          case Placeholder(i) => Quote(params[i], addQuotes)
          case Literal(t) => t) + Fill(ps[1..], params, addQuotes)
  }

  /** Literal text never holds the placeholder marker, and a placeholder is
      followed by the end of the text, by another placeholder, or by
      non-empty literal text that does not start with a digit (`:1` followed
      by `0` is the placeholder `:10`). */
  predicate Delimited(ps: seq<Piece>, style: PlaceholderType)
  {
    && (forall k :: 0 <= k < |ps| && ps[k].Literal? ==> NoneIn(ps[k].text, {Marker(style)}))
    && (forall k :: 0 <= k < |ps| - 1 && ps[k].Placeholder? ==>
          ps[k + 1].Placeholder? || Opens(ps[k + 1].text))
  }

  /** Text that cannot extend the number of a placeholder in front of it. */
  predicate Opens(w: String)
  {
    w != [] && !IsDigit(w[0])
  }

  /** Every placeholder written right after another placeholder has a value
      that cannot extend the number of the one in front once substituted. */
  predicate FollowersOpen(ps: seq<Piece>, params: seq<String>, addQuotes: bool)
  {
    forall k :: 0 < k < |ps| && ps[k - 1].Placeholder? && ps[k].Placeholder? && ps[k].index < |params| ==>
      Opens(Quote(params[ps[k].index], addQuotes))
  }

  /** Replaces the placeholders of parameter `i` by literal text `w`. */
  function SubstituteOne(ps: seq<Piece>, i: nat, w: String): (r: seq<Piece>)
    ensures |r| == |ps|
  {
    seq(|ps|, k requires 0 <= k < |ps| => if ps[k] == Placeholder(i) then Literal(w) else ps[k])
  }

  /** The placeholder of a smaller number, followed by a non-digit or by the
      end, does not start with the placeholder of a larger number. */
  lemma TokenMismatch(style: PlaceholderType, j: nat, i: nat, rest: String)
    requires j < i
    requires rest == [] || !IsDigit(rest[0])
    requires |Token(style, j) + rest| >= |Token(style, i)|
    ensures (Token(style, j) + rest)[..|Token(style, i)|] != Token(style, i)
  {
    var p := TokenPrefix(style);
    var dj, di := Dec(TokenNumber(style, j)), Dec(TokenNumber(style, i));
    var ti := Token(style, i);
    var t := Token(style, j) + rest;
    assert t == p + (dj + rest) && ti == p + di;
    DecLengthMonotone(TokenNumber(style, j), TokenNumber(style, i));
    if |dj| == |di| {
      DecDistinct(TokenNumber(style, j), TokenNumber(style, i));
      assert t[..|ti|][|p|..] == dj;
      assert ti[|p|..] == di;
    } else {
      assert t[|p| + |dj|] == rest[0] && !IsDigit(rest[0]);
      assert ti[|p| + |dj|] == di[|dj|] && IsDigit(di[|dj|]);
      assert t[..|ti|][|p| + |dj|] != ti[|p| + |dj|];
    }
  }

  lemma DecDistinct(a: nat, b: nat)
    requires a != b
    ensures Dec(a) != Dec(b)
  {
    if Dec(a) == Dec(b) {
      DecInjective(a, b);
    }
  }

  /** The placeholder of a smaller number passes through unchanged when the
      placeholder of a larger number is replaced. */
  lemma ReplaceSkipsSmallerToken(style: PlaceholderType, j: nat, i: nat, rest: String, w: String)
    requires j < i
    requires rest == [] || !IsDigit(rest[0])
    ensures ReplaceAll(Token(style, j) + rest, Token(style, i), w) == Token(style, j) + ReplaceAll(rest, Token(style, i), w)
  {
    var tj, ti := Token(style, j), Token(style, i);
    var t := tj + rest;
    if |t| < |ti| {
      assert ReplaceAll(t, ti, w) == t && ReplaceAll(rest, ti, w) == rest;
    } else {
      var h, y := tj[0], tj[1..];
      var r := ReplaceAll(rest, ti, w);
      assert tj == [h] + y;
      assert t == [h] + (y + rest);
      assert [h] + (y + r) == tj + r;
      TokenMismatch(style, j, i, rest);
      assert NoneIn(y, {ti[0]});
      ReplaceAllMismatch(h, y, rest, ti, w);
    }
  }

  /** A text that does not start with the pattern, and whose tail up to
      `rest` lacks the pattern's first character, keeps its head and that part. */
  lemma ReplaceAllMismatch(h: char, y: String, rest: String, pat: String, rep: String)
    requires pat != [] && NoneIn(y, {pat[0]})
    requires |[h] + (y + rest)| >= |pat| && ([h] + (y + rest))[..|pat|] != pat
    ensures ReplaceAll([h] + (y + rest), pat, rep) == [h] + (y + ReplaceAll(rest, pat, rep))
  {
    var u := y + rest;
    assert ([h] + u)[0] == h && ([h] + u)[1..] == u;
    ReplaceAllSkip(y, rest, pat, rep);
  }

  /** One step of the descending loop: when every remaining placeholder has a
      number at most `i`, replacing the placeholder of `i` by `w` turns exactly
      those pieces into `w`. */
  lemma {:induction false} ReplaceOne(ps: seq<Piece>, style: PlaceholderType, i: nat, w: String)
    requires Delimited(ps, style) && IndicesBelow(ps, i + 1)
    ensures ReplaceAll(Render(ps, style), Token(style, i), w) == Render(SubstituteOne(ps, i, w), style)
    decreases |ps|
  {
    var ti := Token(style, i);
    if ps != [] {
      var rest := Render(ps[1..], style);
      assert Delimited(ps[1..], style) && IndicesBelow(ps[1..], i + 1);
      ReplaceOne(ps[1..], style, i, w);
      assert SubstituteOne(ps, i, w)[1..] == SubstituteOne(ps[1..], i, w);
      match ps[0]
      case Literal(t) =>
        assert ti[0] == Marker(style);
        ReplaceAllSkip(t, rest, ti, w);
      case Placeholder(j) =>
        if j == i {
          assert (ti + rest)[..|ti|] == ti && (ti + rest)[|ti|..] == rest;
        } else {
          FollowerNotDigit(ps, style);
          ReplaceSkipsSmallerToken(style, j, i, rest, w);
        }
    }
  }

  /** In delimited pieces, the text rendered after a placeholder does not
      start with a digit. */
  lemma FollowerNotDigit(ps: seq<Piece>, style: PlaceholderType)
    requires Delimited(ps, style) && ps != [] && ps[0].Placeholder?
    ensures var rest := Render(ps[1..], style); rest == [] || !IsDigit(rest[0])
  {
    if |ps| > 1 {
      var rest := Render(ps[1..], style);
      match ps[1]
      case Literal(t) =>
        assert rest == t + Render(ps[2..], style);
      case Placeholder(m) =>
        assert rest == Token(style, m) + Render(ps[2..], style);
    }
  }

  /** Substituting the value of the largest number, free of the marker, for
      its placeholders keeps the pieces delimited and lowers the bound. */
  lemma SubstituteOneKeeps(ps: seq<Piece>, params: seq<String>, style: PlaceholderType, addQuotes: bool, i: nat)
    requires i < |params| && NoneIn(Quote(params[i], addQuotes), {Marker(style)})
    requires Delimited(ps, style) && IndicesBelow(ps, i + 1) && FollowersOpen(ps, params, addQuotes)
    ensures var next := SubstituteOne(ps, i, Quote(params[i], addQuotes));
            Delimited(next, style) && IndicesBelow(next, i) && FollowersOpen(next, params, addQuotes)
  {
    var w := Quote(params[i], addQuotes);
    var next := SubstituteOne(ps, i, w);
    forall k | 0 <= k < |ps| - 1 && next[k].Placeholder?
      ensures next[k + 1].Placeholder? || Opens(next[k + 1].text)
    {
      if ps[k + 1] == Placeholder(i) {
        assert 0 < k + 1 < |ps| && ps[k].Placeholder? && ps[k + 1].Placeholder?;
      }
    }
  }

  lemma {:induction false} RenderWithoutPlaceholders(ps: seq<Piece>, style: PlaceholderType, params: seq<String>, addQuotes: bool)
    requires IndicesBelow(ps, 0)
    ensures Render(ps, style) == Fill(ps, params, addQuotes)
    decreases |ps|
  {
    if ps != [] {
      assert IndicesBelow(ps[1..], 0);
      RenderWithoutPlaceholders(ps[1..], style, params, addQuotes);
    }
  }

  lemma {:induction false} FillSubstituteOne(ps: seq<Piece>, params: seq<String>, addQuotes: bool, i: nat)
    requires i < |params| && IndicesBelow(ps, |params|)
    ensures IndicesBelow(SubstituteOne(ps, i, Quote(params[i], addQuotes)), |params|)
    ensures Fill(SubstituteOne(ps, i, Quote(params[i], addQuotes)), params, addQuotes) == Fill(ps, params, addQuotes)
    decreases |ps|
  {
    var w := Quote(params[i], addQuotes);
    if ps != [] {
      assert SubstituteOne(ps, i, w)[1..] == SubstituteOne(ps[1..], i, w);
      assert IndicesBelow(ps[1..], |params|);
      FillSubstituteOne(ps[1..], params, addQuotes, i);
    }
  }

  /** The first round of the descending loop, seen on the pieces. */
  lemma DescendingUnfold(ps: seq<Piece>, params: seq<String>, style: PlaceholderType, addQuotes: bool, n: nat)
    requires 0 < n <= |params|
    requires Delimited(ps, style) && IndicesBelow(ps, n)
    ensures ReplaceDescending(Render(ps, style), params, style, addQuotes, n)
         == ReplaceDescending(Render(SubstituteOne(ps, n - 1, Quote(params[n - 1], addQuotes)), style), params, style, addQuotes, n - 1)
  {
    ReplaceOne(ps, style, n - 1, Quote(params[n - 1], addQuotes));
  }

  /** Descending substitution is correct: when literal text holds no marker,
      no placeholder is followed by a digit, a placeholder written right after
      another has a value that does not start with a digit, and no value holds
      the marker, each placeholder becomes its own parameter's value, so `:1`
      is never matched inside `:10`. */
  lemma {:induction false} DescendingFills(ps: seq<Piece>, params: seq<String>, style: PlaceholderType, addQuotes: bool, n: nat)
    requires n <= |params|
    requires Delimited(ps, style) && IndicesBelow(ps, n) && FollowersOpen(ps, params, addQuotes)
    requires forall k :: 0 <= k < |params| ==> NoneIn(params[k], {Marker(style)})
    ensures ReplaceDescending(Render(ps, style), params, style, addQuotes, n) == Fill(ps, params, addQuotes)
    decreases n
  {
    if n == 0 {
      RenderWithoutPlaceholders(ps, style, params, addQuotes);
    } else {
      var next := SubstituteOne(ps, n - 1, Quote(params[n - 1], addQuotes));
      DescendingStep(ps, params, style, addQuotes, n);
      DescendingFills(next, params, style, addQuotes, n - 1);
    }
  }

  /** One round of the descending loop on delimited pieces: the pieces left
      are still delimited with smaller numbers, fill to the same text, and the
      remaining rounds see their rendering. */
  lemma DescendingStep(ps: seq<Piece>, params: seq<String>, style: PlaceholderType, addQuotes: bool, n: nat)
    requires 0 < n <= |params|
    requires Delimited(ps, style) && IndicesBelow(ps, n) && FollowersOpen(ps, params, addQuotes)
    requires NoneIn(params[n - 1], {Marker(style)})
    ensures var next := SubstituteOne(ps, n - 1, Quote(params[n - 1], addQuotes));
            && Delimited(next, style) && IndicesBelow(next, n - 1) && FollowersOpen(next, params, addQuotes)
            && Fill(next, params, addQuotes) == Fill(ps, params, addQuotes)
            && ReplaceDescending(Render(ps, style), params, style, addQuotes, n)
               == ReplaceDescending(Render(next, style), params, style, addQuotes, n - 1)
  {
    QuoteNoneIn(params[n - 1], addQuotes, {Marker(style)});
    SubstituteOneKeeps(ps, params, style, addQuotes, n - 1);
    FillSubstituteOne(ps, params, addQuotes, n - 1);
    DescendingUnfold(ps, params, style, addQuotes, n);
  }

  /** The same statement for `interpolateQuery` in the two indexed styles. */
  lemma IndexedFillsPlaceholders(ps: seq<Piece>, params: seq<String>, style: PlaceholderType, addQuotes: bool)
    requires style != Question
    requires Delimited(ps, style) && IndicesBelow(ps, |params|) && FollowersOpen(ps, params, addQuotes)
    requires forall k :: 0 <= k < |params| ==> NoneIn(params[k], {Marker(style)})
    ensures Interpolation(Render(ps, style), params, style, addQuotes) == Fill(ps, params, addQuotes)
  {
    DescendingFills(ps, params, style, addQuotes, |params|);
  }

  /** The `:1` / `:10` case: with ten or more oracle parameters, `:10` takes the
      tenth value whole and `:1` the first. */
  lemma OracleTenKeepsOne(a: String, b: String, params: seq<String>, addQuotes: bool)
    requires |params| >= 10
    requires forall k :: 0 <= k < |params| ==> NoneIn(params[k], {':'})
    requires NoneIn(a, {':'}) && NoneIn(b, {':'}) && b != [] && !IsDigit(b[0])
    ensures Interpolation(a + (":1" + (b + ":10")), params, Oracle, addQuotes)
         == a + (Quote(params[0], addQuotes) + (b + Quote(params[9], addQuotes)))
  {
    var ps := [Literal(a), Placeholder(0), Literal(b), Placeholder(9)];
    OracleTenPieces(a, b, params, addQuotes);
    assert Delimited(ps, Oracle) && IndicesBelow(ps, |params|) && FollowersOpen(ps, params, addQuotes) by {
      assert ps[1 + 1] == Literal(b) && ps[3] == Placeholder(9);
    }
    IndexedFillsPlaceholders(ps, params, Oracle, addQuotes);
  }

  /** The pieces of `a:1b:10`: how they render and what they fill to. */
  lemma OracleTenPieces(a: String, b: String, params: seq<String>, addQuotes: bool)
    requires |params| >= 10
    ensures var ps := [Literal(a), Placeholder(0), Literal(b), Placeholder(9)];
            && Render(ps, Oracle) == a + (":1" + (b + ":10"))
            && Fill(ps, params, addQuotes) == a + (Quote(params[0], addQuotes) + (b + Quote(params[9], addQuotes)))
  {
    var t0, t9 := Token(Oracle, 0), Token(Oracle, 9);
    OracleTokens();
    var p0, p9 := Quote(params[0], addQuotes), Quote(params[9], addQuotes);
    var last := [Placeholder(9)];
    var tail := [Literal(b)] + last;
    var mid := [Placeholder(0)] + tail;
    var ps := [Literal(a)] + mid;
    assert Render(last, Oracle) == t9 && Fill(last, params, addQuotes) == p9 by {
      assert last[0] == Placeholder(9) && last[1..] == [];
      assert t9 + [] == t9 && p9 + [] == p9;
    }
    assert Render(tail, Oracle) == b + t9 && Fill(tail, params, addQuotes) == b + p9 by {
      assert tail[0] == Literal(b) && tail[1..] == last;
    }
    assert Render(mid, Oracle) == t0 + (b + t9) && Fill(mid, params, addQuotes) == p0 + (b + p9) by {
      assert mid[0] == Placeholder(0) && mid[1..] == tail;
    }
    assert Render(ps, Oracle) == a + (t0 + (b + t9)) && Fill(ps, params, addQuotes) == a + (p0 + (b + p9)) by {
      assert ps[0] == Literal(a) && ps[1..] == mid;
    }
    assert ps == [Literal(a), Placeholder(0), Literal(b), Placeholder(9)];
  }

  /** With quoting on, every value opens with `'`, so placeholders may be
      written back to back. */
  lemma FollowersOpenQuoted(ps: seq<Piece>, params: seq<String>)
    ensures FollowersOpen(ps, params, true)
  {
    forall k | 0 < k < |ps| && ps[k - 1].Placeholder? && ps[k].Placeholder? && ps[k].index < |params|
      ensures Opens(Quote(params[ps[k].index], true))
    {
      QuoteParts(params[ps[k].index], true);
    }
  }

  /** Back-to-back oracle placeholders `:1:2` take the first and the second
      value, when the second value does not start with a digit. */
  lemma OracleAdjacent(params: seq<String>, addQuotes: bool)
    requires |params| >= 2
    requires forall k :: 0 <= k < |params| ==> NoneIn(params[k], {':'})
    requires Opens(Quote(params[1], addQuotes))
    ensures Interpolation(":1:2", params, Oracle, addQuotes)
         == Quote(params[0], addQuotes) + Quote(params[1], addQuotes)
  {
    var t0, t1 := Token(Oracle, 0), Token(Oracle, 1);
    assert t0 == ":1" && t1 == ":2";
    var p0, p1 := Quote(params[0], addQuotes), Quote(params[1], addQuotes);
    var last := [Placeholder(1)];
    var ps := [Placeholder(0)] + last;
    assert Render(last, Oracle) == t1 && Fill(last, params, addQuotes) == p1 by {
      assert last[0] == Placeholder(1) && last[1..] == [];
      assert t1 + [] == t1 && p1 + [] == p1;
    }
    assert Render(ps, Oracle) == t0 + t1 && Fill(ps, params, addQuotes) == p0 + p1 by {
      assert ps[0] == Placeholder(0) && ps[1..] == last;
    }
    assert t0 + t1 == ":1:2";
    assert ps == [Placeholder(0), Placeholder(1)];
    assert Delimited(ps, Oracle) && IndicesBelow(ps, |params|) && FollowersOpen(ps, params, addQuotes);
    IndexedFillsPlaceholders(ps, params, Oracle, addQuotes);
  }

  /** Text without the marker passes through the rest of the descending loop. */
  lemma {:induction false} DescendingWithoutMarker(s: String, params: seq<String>, style: PlaceholderType, addQuotes: bool, n: nat)
    requires n <= |params| && NoneIn(s, {Marker(style)})
    ensures ReplaceDescending(s, params, style, addQuotes, n) == s
    decreases n
  {
    if n > 0 {
      ReplaceAllSkip(s, [], Token(style, n - 1), Quote(params[n - 1], addQuotes));
      assert s + [] == s;
      DescendingWithoutMarker(s, params, style, addQuotes, n - 1);
    }
  }

  /** Why a value written right after a placeholder must not start with a
      digit: in `:1:11` with the eleventh value `0`, the first round leaves
      `:10`, which the next round takes for the tenth placeholder. The whole
      text becomes the tenth value, where the first value followed by `0` is
      meant. */
  lemma AdjacentDigitValue(params: seq<String>)
    requires |params| == 11 && params[10] == "0"
    requires NoneIn(params[9], {':'})
    ensures Render([Placeholder(0), Placeholder(10)], Oracle) == ":1:11"
    ensures Interpolation(":1:11", params, Oracle, false) == params[9]
  {
    OracleTokens();
    var two := [Placeholder(0), Placeholder(10)];
    assert Render(two, Oracle) == ":1:11" by {
      assert two[1..] == [Placeholder(10)] && two[1..][1..] == [];
    }
    calc {
      Interpolation(":1:11", params, Oracle, false);
      ReplaceDescending(ReplaceAll(":1:11", Token(Oracle, 10), Quote(params[10], false)), params, Oracle, false, 10);
      { assert Quote(params[10], false) == "0"; ElevenLeavesTen(); }
      ReplaceDescending(":10", params, Oracle, false, 10);
      ReplaceDescending(ReplaceAll(":10", Token(Oracle, 9), Quote(params[9], false)), params, Oracle, false, 9);
      { assert Quote(params[9], false) == params[9]; ReplaceAllWhole(":10", params[9]); }
      ReplaceDescending(params[9], params, Oracle, false, 9);
      { DescendingWithoutMarker(params[9], params, Oracle, false, 9); }
      params[9];
    }
  }

  /** The Oracle placeholders of the first, tenth and eleventh values. */
  lemma OracleTokens()
    ensures Token(Oracle, 0) == ":1" && Token(Oracle, 9) == ":10" && Token(Oracle, 10) == ":11"
  {
  }

  /** Replacing `:11` by `0` in `:1:11` leaves `:10`. */
  lemma ElevenLeavesTen()
    ensures ReplaceAll(":1:11", ":11", "0") == ":10"
  {
    var t10 := ":11";
    assert ":1:11"[..3] != t10 && ":1:11"[1..] == "1:11";
    assert "1:11"[..3] != t10 && "1:11"[1..] == t10;
    assert t10[..3] == t10 && t10[3..] == [];
  }

  /** Text that is exactly the pattern becomes the replacement. */
  lemma ReplaceAllWhole(pat: String, rep: String)
    requires pat != []
    ensures ReplaceAll(pat, pat, rep) == rep
  {
    assert pat[..|pat|] == pat && pat[|pat|..] == [];
  }

  /** The same loop run from the first parameter up: what the descending
      order avoids. */
  function ReplaceAscending(s: String, params: seq<String>, style: PlaceholderType, addQuotes: bool, i: nat): String
    requires i <= |params|
    decreases |params| - i
  {
    if i == |params| then s
    else ReplaceAscending(ReplaceAll(s, Token(style, i), Quote(params[i], addQuotes)),
                          params, style, addQuotes, i + 1)
  }

  lemma {:induction false} AscendingWithoutMarker(s: String, params: seq<String>, style: PlaceholderType, addQuotes: bool, i: nat)
    requires i <= |params| && NoneIn(s, {Marker(style)})
    ensures ReplaceAscending(s, params, style, addQuotes, i) == s
    decreases |params| - i
  {
    if i < |params| {
      ReplaceAllSkip(s, [], Token(style, i), Quote(params[i], addQuotes));
      assert s + [] == s;
      AscendingWithoutMarker(s, params, style, addQuotes, i + 1);
    }
  }

  /** In ascending order `:1` is replaced inside `:10`, leaving the first value
      followed by a stray `0`; the descending order gives the tenth value. */
  lemma AscendingSplitsTen(params: seq<String>, addQuotes: bool)
    requires |params| >= 10
    requires forall k :: 0 <= k < |params| ==> NoneIn(params[k], {':'})
    ensures ReplaceAscending(":10", params, Oracle, addQuotes, 0) == Quote(params[0], addQuotes) + "0"
    ensures Interpolation(":10", params, Oracle, addQuotes) == Quote(params[9], addQuotes)
  {
    var w := Quote(params[0], addQuotes);
    assert Token(Oracle, 0) == ":1";
    assert ":10"[..2] == ":1" && ":10"[2..] == "0";
    assert ReplaceAll("0", ":1", w) == "0";
    assert ReplaceAll(":10", ":1", w) == w + "0";
    assert NoneIn(w + "0", {':'});
    AscendingWithoutMarker(w + "0", params, Oracle, addQuotes, 1);
    var ps := [Placeholder(9)];
    assert Render(ps, Oracle) == ":10";
    IndexedFillsPlaceholders(ps, params, Oracle, addQuotes);
  }

  // ============================================================ `$` patterns in values

  /** How `String.prototype.replace` reads a replacement string when the
      pattern has no capture groups: `$$` is `$`, `$&` the match, `` $` `` the
      text before the match, `$'` the text after it; any other `$` is kept. */
  function ExpandReplacement(rep: String, matched: String, before: String, after: String): String
    decreases |rep|
  {
    if rep == [] then []
    else if rep[0] == '$' && |rep| >= 2 && rep[1] == '$' then ['$'] + ExpandReplacement(rep[2..], matched, before, after)
    else if rep[0] == '$' && |rep| >= 2 && rep[1] == '&' then matched + ExpandReplacement(rep[2..], matched, before, after)
    else if rep[0] == '$' && |rep| >= 2 && rep[1] == '`' then before + ExpandReplacement(rep[2..], matched, before, after)
    else if rep[0] == '$' && |rep| >= 2 && rep[1] == '\'' then after + ExpandReplacement(rep[2..], matched, before, after)
    else [rep[0]] + ExpandReplacement(rep[1..], matched, before, after)
  }

  /** A replacement without `$` is inserted as it is. */
  lemma {:induction false} ExpandWithoutDollar(rep: String, matched: String, before: String, after: String)
    requires NoneIn(rep, {'$'})
    ensures ExpandReplacement(rep, matched, before, after) == rep
    decreases |rep|
  {
    if rep != [] {
      ExpandWithoutDollar(rep[1..], matched, before, after);
    }
  }

  /** `s.replace(regex, rep)` as the source calls it, where `done` is the text
      already scanned and `s` the rest: the value is passed as a replacement
      string, so its `$` patterns are expanded against each match. */
  function ReplaceAllAsWritten(done: String, s: String, pat: String, rep: String): String
    requires pat != []
    decreases |s|
  {
    if |s| < |pat| then s
    else if s[..|pat|] == pat then
      ExpandReplacement(rep, pat, done, s[|pat|..]) + ReplaceAllAsWritten(done + pat, s[|pat|..], pat, rep)
    else [s[0]] + ReplaceAllAsWritten(done + [s[0]], s[1..], pat, rep)
  }

  /** The source's replacement agrees with the literal one whenever the value
      has no `$`. */
  lemma {:induction false} AsWrittenWithoutDollar(done: String, s: String, pat: String, rep: String)
    requires pat != [] && NoneIn(rep, {'$'})
    ensures ReplaceAllAsWritten(done, s, pat, rep) == ReplaceAll(s, pat, rep)
    decreases |s|
  {
    if |s| >= |pat| {
      if s[..|pat|] == pat {
        ExpandWithoutDollar(rep, pat, done, s[|pat|..]);
        AsWrittenWithoutDollar(done + pat, s[|pat|..], pat, rep);
      } else {
        AsWrittenWithoutDollar(done + [s[0]], s[1..], pat, rep);
      }
    }
  }

  /** The descending loop as the source writes it. */
  function DescendingAsWritten(s: String, params: seq<String>, style: PlaceholderType, addQuotes: bool, n: nat): String
    requires n <= |params|
    decreases n
  {
    if n == 0 then s
    else DescendingAsWritten(ReplaceAllAsWritten([], s, Token(style, n - 1), Quote(params[n - 1], addQuotes)),
                             params, style, addQuotes, n - 1)
  }

  /** A value `$&` given for `:1` in the SQL text `:1` comes out as `:1`
      again (the match is re-inserted), where the value itself is meant. */
  lemma DollarValueReinsertsPlaceholder()
    ensures DescendingAsWritten(":1", ["$&"], Oracle, false, 1) == ":1"
    ensures Interpolation(":1", ["$&"], Oracle, false) == "$&"
  {
    assert Token(Oracle, 0) == ":1";
    assert ExpandReplacement("$&", ":1", [], []) == ":1";
    assert ReplaceAllAsWritten(":1", [], ":1", "$&") == [];
    assert ReplaceAllAsWritten([], ":1", ":1", "$&") == ":1";
    assert ReplaceAll(":1"[2..], ":1", "$&") == [];
    assert ReplaceAll(":1", ":1", "$&") == "$&";
  }

  /** Only values containing `$` tell the source's loop from the literal one. */
  lemma {:induction false} DescendingAsWrittenWithoutDollar(s: String, params: seq<String>, style: PlaceholderType, addQuotes: bool, n: nat)
    requires n <= |params|
    requires forall k :: 0 <= k < |params| ==> NoneIn(params[k], {'$'})
    ensures DescendingAsWritten(s, params, style, addQuotes, n) == ReplaceDescending(s, params, style, addQuotes, n)
    decreases n
  {
    if n > 0 {
      var w := Quote(params[n - 1], addQuotes);
      QuoteNoneIn(params[n - 1], addQuotes, {'$'});
      AsWrittenWithoutDollar([], s, Token(style, n - 1), w);
      DescendingAsWrittenWithoutDollar(ReplaceAll(s, Token(style, n - 1), w), params, style, addQuotes, n - 1);
    }
  }
}
