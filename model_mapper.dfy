/** The model mapper: snake_case and PascalCase conversion of identifiers,
    and the C# auto-property template. Letters are ASCII; `toUpperCase` and
    `toLowerCase` act on `A`-`Z` and `a`-`z` only. */
module ModelMapper {
  import opened Text

  /** `parseNames`: `Parse` over whitespace and commas. */
  function ParseNames(input: String): (names: seq<String>)
    ensures forall i :: 0 <= i < |names| ==> names[i] != [] && NoneIn(names[i], WhitespaceOrComma)
  {
    Parse(input, WhitespaceOrComma)
  }

  // ---------------------------------------------------------------- ASCII case

  predicate IsUpper(c: char) { 'A' <= c <= 'Z' }

  predicate IsLower(c: char) { 'a' <= c <= 'z' }

  /** No character of `s` is an upper-case letter. */
  predicate NoUpper(s: String)
  {
    forall i :: 0 <= i < |s| ==> !IsUpper(s[i])
  }

  /** `toUpperCase` of one character: lower-case letters move to upper case,
      everything else is kept. */
  function UpperChar(c: char): (u: char)
    ensures !IsLower(u)
    ensures IsLower(c) ==> IsUpper(u)
    ensures !IsLower(c) ==> u == c
  {
    if IsLower(c) then (c as int - 32) as char else c
  }

  /** `toLowerCase` of one character; upper-casing undoes it on upper-case
      letters and lower-casing undoes upper-casing on lower-case letters. */
  function LowerChar(c: char): (l: char)
    ensures !IsUpper(l)
    ensures IsUpper(c) ==> IsLower(l) && UpperChar(l) == c
    ensures IsLower(c) ==> LowerChar(UpperChar(c)) == c
    ensures !IsUpper(c) ==> l == c
  {
    if IsUpper(c) then (c as int + 32) as char else c
  }

  /** `toLowerCase`: the same length, no upper-case letter left, and only
      upper-case letters changed. */
  function Lower(s: String): (r: String)
    ensures |r| == |s| && NoUpper(r)
    ensures forall i :: 0 <= i < |s| ==> (r[i] == s[i] <==> !IsUpper(s[i]))
    ensures forall i :: 0 <= i < |s| ==> r[i] == LowerChar(s[i])
  {
    seq(|s|, i requires 0 <= i < |s| => LowerChar(s[i]))
  }

  lemma LowerAppend(a: String, b: String)
    ensures Lower(a + b) == Lower(a) + Lower(b)
  {
    assert forall i :: 0 <= i < |a + b| ==> Lower(a + b)[i] == (Lower(a) + Lower(b))[i];
  }

  lemma LowerNoUpper(s: String)
    requires NoUpper(s)
    ensures Lower(s) == s
  {
  }

  /** Lower-casing keeps underscores where they are. */
  lemma {:induction false} LowerRemove(s: String)
    ensures Remove(Lower(s), {'_'}) == Lower(Remove(s, {'_'}))
  {
    if s != [] {
      assert s == [s[0]] + s[1..];
      LowerAppend([s[0]], s[1..]);
      assert Lower(s)[1..] == Lower(s[1..]);
      LowerRemove(s[1..]);
      if s[0] != '_' {
        LowerAppend([s[0]], Remove(s[1..], {'_'}));
      }
    }
  }

  // ---------------------------------------------------------------- snakeToPascal

  /** `s.split(sep)` for a one-character separator: every separator ends a
      piece, so adjacent separators give empty pieces. */
  function SplitOn(s: String, sep: char): (pieces: seq<String>)
    ensures |pieces| > 0
    ensures forall i :: 0 <= i < |pieces| ==> sep !in pieces[i]
  {
    if s == [] then [[]]
    else
      var rest := SplitOn(s[1..], sep);
      if s[0] == sep then [[]] + rest
      else [[s[0]] + rest[0]] + rest[1..]
  }

  /** A separator between two strings separates their pieces. */
  lemma {:induction false} SplitOnAppend(a: String, b: String, sep: char)
    ensures SplitOn(a + [sep] + b, sep) == SplitOn(a, sep) + SplitOn(b, sep)
  {
    if a == [] {
      assert a + [sep] + b == [sep] + b;
      assert ([sep] + b)[1..] == b;
    } else {
      assert (a + [sep] + b)[1..] == a[1..] + [sep] + b;
      SplitOnAppend(a[1..], b, sep);
    }
  }

  lemma {:induction false} SplitOnWord(w: String, sep: char)
    requires sep !in w
    ensures SplitOn(w, sep) == [w]
  {
    if w != [] {
      SplitOnWord(w[1..], sep);
      assert [w[0]] + w[1..] == w;
    }
  }

  lemma {:induction false} SplitOnRemove(s: String, sep: char)
    ensures Concat(SplitOn(s, sep)) == Remove(s, {sep})
  {
    if s != [] {
      var rest := SplitOn(s[1..], sep);
      SplitOnRemove(s[1..], sep);
      if s[0] == sep {
        assert Concat([[]] + rest) == [] + Concat(rest);
      } else {
        assert rest == [rest[0]] + rest[1..];
        assert Concat(rest) == rest[0] + Concat(rest[1..]);
        assert Concat([[s[0]] + rest[0]] + rest[1..]) == [s[0]] + rest[0] + Concat(rest[1..]);
      }
    }
  }

  /** `filter(word => word.length > 0)`. */
  function DropEmpty(xs: seq<String>): (r: seq<String>)
    ensures forall i :: 0 <= i < |r| ==> r[i] != []
    ensures forall i :: 0 <= i < |r| ==> exists j :: 0 <= j < |xs| && r[i] == xs[j]
  {
    if xs == [] then []
    else if xs[0] == [] then DropEmpty(xs[1..])
    else [xs[0]] + DropEmpty(xs[1..])
  }

  lemma {:induction false} DropEmptyAppend(xs: seq<String>, ys: seq<String>)
    ensures DropEmpty(xs + ys) == DropEmpty(xs) + DropEmpty(ys)
  {
    if xs == [] {
      assert xs + ys == ys;
    } else {
      assert (xs + ys)[1..] == xs[1..] + ys;
      DropEmptyAppend(xs[1..], ys);
    }
  }

  lemma {:induction false} DropEmptyConcat(xs: seq<String>)
    ensures Concat(DropEmpty(xs)) == Concat(xs)
  {
    if xs != [] {
      DropEmptyConcat(xs[1..]);
      if xs[0] != [] {
        assert Concat([xs[0]] + DropEmpty(xs[1..])) == xs[0] + Concat(DropEmpty(xs[1..]));
      }
    }
  }

  /** The non-empty `_`-separated words of `s`. */
  function Words(s: String): (ws: seq<String>)
    ensures forall i :: 0 <= i < |ws| ==> ws[i] != [] && '_' !in ws[i]
  {
    var pieces := SplitOn(s, '_');
    var ws := DropEmpty(pieces);
    assert forall i :: 0 <= i < |ws| ==> '_' !in ws[i];
    ws
  }

  /** `word.charAt(0).toUpperCase() + word.slice(1).toLowerCase()`. */
  function Capitalize(w: String): String
  {
    if w == [] then [] else [UpperChar(w[0])] + Lower(w[1..])
  }

  /** `words.map(Capitalize)`. */
  function Capitalized(ws: seq<String>): (r: seq<String>)
    ensures |r| == |ws|
  {
    seq(|ws|, i requires 0 <= i < |ws| => Capitalize(ws[i]))
  }

  lemma CapitalizedAppend(xs: seq<String>, ys: seq<String>)
    ensures Capitalized(xs + ys) == Capitalized(xs) + Capitalized(ys)
  {
  }

  /** `snakeToPascal`; the empty string maps to itself. */
  function SnakeToPascal(snake: String): String
  {
    Concat(Capitalized(Words(snake)))
  }

  /** Capitalising a word changes the case of its letters and nothing else. */
  lemma CapitalizeLower(w: String)
    ensures Lower(Capitalize(w)) == Lower(w)
  {
    if w != [] {
      var c, t := w[0], w[1..];
      var u := UpperChar(c);
      assert LowerChar(u) == LowerChar(c);
      assert Lower([u]) == [LowerChar(u)] && Lower([c]) == [LowerChar(c)];
      calc {
        Lower(Capitalize(w));
        Lower([u] + Lower(t));
        { LowerAppend([u], Lower(t)); }
        Lower([u]) + Lower(Lower(t));
        { LowerNoUpper(Lower(t)); }
        Lower([c]) + Lower(t);
        { LowerAppend([c], t); }
        Lower([c] + t);
        { assert [c] + t == w; }
        Lower(w);
      }
    }
  }

  lemma {:induction false} CapitalizedLower(ws: seq<String>)
    ensures Lower(Concat(Capitalized(ws))) == Lower(Concat(ws))
  {
    if ws != [] {
      CapitalizedLower(ws[1..]);
      assert Capitalized(ws)[1..] == Capitalized(ws[1..]);
      LowerAppend(Capitalize(ws[0]), Concat(Capitalized(ws[1..])));
      LowerAppend(ws[0], Concat(ws[1..]));
      CapitalizeLower(ws[0]);
    }
  }

  /** The output of `snakeToPascal` has no underscore, and apart from letter
      case it is the input with its underscores removed. */
  lemma SnakeToPascalLetters(snake: String)
    ensures '_' !in SnakeToPascal(snake)
    ensures Lower(SnakeToPascal(snake)) == Lower(Remove(snake, {'_'}))
    ensures |SnakeToPascal(snake)| == |Remove(snake, {'_'})|
  {
    var r := SnakeToPascal(snake);
    SplitOnRemove(snake, '_');
    DropEmptyConcat(SplitOn(snake, '_'));
    CapitalizedLower(Words(snake));
    var clean := Remove(snake, {'_'});
    forall i | 0 <= i < |r|
      ensures r[i] != '_'
    {
      assert Lower(r)[i] == Lower(clean)[i];
    }
  }

  /** Each `_` ends a word: converting `a_b` converts `a` and `b` apart. */
  lemma SnakeToPascalAppend(a: String, b: String)
    ensures SnakeToPascal(a + "_" + b) == SnakeToPascal(a) + SnakeToPascal(b)
  {
    SplitOnAppend(a, b, '_');
    DropEmptyAppend(SplitOn(a, '_'), SplitOn(b, '_'));
    CapitalizedAppend(Words(a), Words(b));
    ConcatAppend(Capitalized(Words(a)), Capitalized(Words(b)));
  }

  /** A single word is capitalised. */
  lemma SnakeToPascalWord(w: String)
    requires w != [] && '_' !in w
    ensures SnakeToPascal(w) == Capitalize(w)
  {
    SplitOnWord(w, '_');
    assert DropEmpty([w]) == [w];
    assert Words(w) == [w];
    assert Capitalized([w]) == [Capitalize(w)];
    assert Concat([Capitalize(w)]) == Capitalize(w) + [];
  }

  /** Words joined by underscores become the concatenation of the
      capitalised words. */
  lemma {:induction false} SnakeToPascalJoin(ws: seq<String>)
    requires forall i :: 0 <= i < |ws| ==> ws[i] != [] && '_' !in ws[i]
    ensures SnakeToPascal(Join(ws, "_")) == Concat(Capitalized(ws))
  {
    if |ws| == 1 {
      SnakeToPascalWord(ws[0]);
      assert Concat(Capitalized(ws)) == Capitalize(ws[0]) + [];
    } else if |ws| > 1 {
      var w, rest := ws[0], ws[1..];
      assert Concat(Capitalized(ws)) == Capitalize(w) + Concat(Capitalized(rest)) by {
        assert Capitalized(ws)[0] == Capitalize(w) && Capitalized(ws)[1..] == Capitalized(rest);
      }
      calc {
        SnakeToPascal(Join(ws, "_"));
        SnakeToPascal(w + "_" + Join(rest, "_"));
        { SnakeToPascalAppend(w, Join(rest, "_")); }
        SnakeToPascal(w) + SnakeToPascal(Join(rest, "_"));
        { SnakeToPascalWord(w); SnakeToPascalJoin(rest); }
        Capitalize(w) + Concat(Capitalized(rest));
      }
    }
  }

  // ---------------------------------------------------------------- pascalToSnake

  /** `replace(/([A-Z])/g, '_$1')` on one character. */
  function Mark(c: char): (r: String)
  {
    if IsUpper(c) then ['_', c] else [c]
  }

  /** `replace(/([A-Z])/g, '_$1')`: an underscore in front of every
      upper-case letter. */
  function Underscored(s: String): (r: String)
    ensures |r| >= |s|
  {
    if s == [] then [] else Mark(s[0]) + Underscored(s[1..])
  }

  lemma {:induction false} UnderscoredAppend(a: String, b: String)
    ensures Underscored(a + b) == Underscored(a) + Underscored(b)
  {
    if a == [] {
      assert a + b == b;
    } else {
      assert (a + b)[1..] == a[1..] + b;
      UnderscoredAppend(a[1..], b);
    }
  }

  lemma {:induction false} UnderscoredNoUpper(s: String)
    requires NoUpper(s)
    ensures Underscored(s) == s
  {
    if s != [] {
      UnderscoredNoUpper(s[1..]);
      assert [s[0]] + s[1..] == s;
    }
  }

  lemma {:induction false} UnderscoredRemove(s: String)
    ensures Remove(Underscored(s), {'_'}) == Remove(s, {'_'})
  {
    if s != [] {
      UnderscoredRemove(s[1..]);
      RemoveAppend(Mark(s[0]), Underscored(s[1..]), {'_'});
      assert s == [s[0]] + s[1..];
      RemoveAppend([s[0]], s[1..], {'_'});
      if IsUpper(s[0]) {
        assert Mark(s[0]) == ['_'] + [s[0]];
        RemoveAppend(['_'], [s[0]], {'_'});
      }
    }
  }

  /** `replace(/^_/, '')`. */
  function StripLeadingUnderscore(s: String): (r: String)
    ensures s != [] && s[0] == '_' ==> r == s[1..]
    ensures s == [] || s[0] != '_' ==> r == s
  {
    if s != [] && s[0] == '_' then s[1..] else s
  }

  lemma StripLower(s: String)
    ensures Lower(StripLeadingUnderscore(s)) == StripLeadingUnderscore(Lower(s))
  {
  }

  /** `pascalToSnake`; the empty string maps to itself. */
  function PascalToSnake(pascal: String): (snake: String)
    ensures NoUpper(snake)
  {
    Lower(StripLeadingUnderscore(Underscored(pascal)))
  }

  /** Apart from underscores, the output of `pascalToSnake` is the input
      lower-cased. */
  lemma PascalToSnakeLetters(pascal: String)
    ensures Remove(PascalToSnake(pascal), {'_'}) == Lower(Remove(pascal, {'_'}))
  {
    var u := Underscored(pascal);
    var t := StripLeadingUnderscore(u);
    LowerRemove(t);
    UnderscoredRemove(pascal);
    if u != [] && u[0] == '_' {
      assert u == [u[0]] + t;
      RemoveAppend([u[0]], t, {'_'});
    }
  }

  lemma StripAppend(x: String, y: String)
    requires x != []
    ensures StripLeadingUnderscore(x + y) == StripLeadingUnderscore(x) + y
  {
    assert (x + y)[0] == x[0];
    if x[0] == '_' {
      assert (x + y)[1..] == x[1..] + y;
    }
  }

  /** Every upper-case letter after the first character starts a new
      `_`-separated word, lower-cased. */
  lemma PascalToSnakeAtUpper(pascal: String, i: nat)
    requires 0 < i < |pascal| && IsUpper(pascal[i])
    ensures PascalToSnake(pascal) == PascalToSnake(pascal[..i]) + "_" + PascalToSnake(pascal[i..])
    ensures PascalToSnake(pascal[i..])[0] == LowerChar(pascal[i])
  {
    var a, b := pascal[..i], pascal[i..];
    assert pascal == a + b;
    UnderscoredAppend(a, b);
    var ua, ub := Underscored(a), Underscored(b);
    var rest := [b[0]] + Underscored(b[1..]);
    assert b[0] == pascal[i];
    assert ub == ['_'] + rest;
    StripAppend(ua, ub);
    assert StripLeadingUnderscore(ub) == rest;
    LowerAppend(StripLeadingUnderscore(ua), ub);
    LowerAppend(['_'], rest);
    assert Lower(['_']) == "_";
    assert Lower(rest)[0] == LowerChar(pascal[i]);
  }

  /** Input without upper-case letters is returned unchanged, except that a
      leading underscore is dropped. */
  lemma PascalToSnakeNoUpper(pascal: String)
    requires NoUpper(pascal)
    ensures PascalToSnake(pascal) == StripLeadingUnderscore(pascal)
    ensures pascal == [] || pascal[0] != '_' ==> PascalToSnake(pascal) == pascal
  {
    UnderscoredNoUpper(pascal);
    LowerNoUpper(StripLeadingUnderscore(pascal));
  }

  /** Both conversions return the empty string unchanged. */
  lemma EmptyUnchanged()
    ensures SnakeToPascal([]) == [] && PascalToSnake([]) == []
  {
  }

  // ---------------------------------------------------------------- round trips

  /** A PascalCase word: an upper-case letter, then characters that are
      neither upper-case letters nor underscores. */
  predicate IsPascalWord(w: String)
  {
    w != [] && IsUpper(w[0]) && NoUpper(w[1..]) && '_' !in w
  }

  /** A snake_case word: a lower-case letter, then characters that are
      neither upper-case letters nor underscores. */
  predicate IsSnakeWord(w: String)
  {
    w != [] && IsLower(w[0]) && NoUpper(w) && '_' !in w
  }

  /** `words.map(w => w.toLowerCase())`. */
  function Lowered(ws: seq<String>): (r: seq<String>)
    ensures |r| == |ws|
  {
    seq(|ws|, i requires 0 <= i < |ws| => Lower(ws[i]))
  }

  lemma PascalWordMarks(w: String)
    requires IsPascalWord(w)
    ensures Underscored(w) == "_" + w
    ensures Lower(Underscored(w)) == "_" + Lower(w)
  {
    UnderscoredNoUpper(w[1..]);
    var u := Underscored(w);
    assert u == Mark(w[0]) + w[1..];
    forall i | 0 <= i < |u|
      ensures u[i] == ("_" + w)[i]
    {
      if i >= 2 {
        assert u[i] == w[1..][i - 2];
      }
    }
    LowerAppend("_", w);
    assert Lower("_") == "_";
  }

  lemma PascalWordLower(w: String)
    requires IsPascalWord(w)
    ensures IsSnakeWord(Lower(w))
  {
    var l := Lower(w);
    assert l[0] == LowerChar(w[0]);
    forall j | 0 <= j < |w|
      ensures l[j] != '_'
    {
      assert w[j] != '_';
    }
  }

  lemma {:induction false} PascalWordsMarks(ws: seq<String>)
    requires ws != [] && forall i :: 0 <= i < |ws| ==> IsPascalWord(ws[i])
    ensures Lower(Underscored(Concat(ws))) == "_" + Join(Lowered(ws), "_")
  {
    var w, rest := ws[0], ws[1..];
    PascalWordMarks(w);
    var lw := Lower(w);
    assert Lowered(ws)[0] == lw;
    if |ws| == 1 {
      assert rest == [];
      assert Concat(ws) == w + [] == w;
      assert Join(Lowered(ws), "_") == lw;
    } else {
      PascalWordsMarks(rest);
      var tail := Join(Lowered(rest), "_");
      assert Lowered(ws)[1..] == Lowered(rest);
      assert Join(Lowered(ws), "_") == lw + "_" + tail;
      var c := Concat(rest);
      assert Concat(ws) == w + c;
      UnderscoredAppend(w, c);
      LowerAppend(Underscored(w), Underscored(c));
      assert Lower(Underscored(Concat(ws))) == ("_" + lw) + ("_" + tail);
      UnderscoreAssoc(lw, tail);
    }
  }

  lemma UnderscoreAssoc(a: String, b: String)
    ensures ("_" + a) + ("_" + b) == "_" + (a + "_" + b)
  {
  }

  /** A run of PascalCase words becomes the lower-cased words joined by
      underscores. */
  lemma PascalToSnakeWords(ws: seq<String>)
    requires forall i :: 0 <= i < |ws| ==> IsPascalWord(ws[i])
    ensures PascalToSnake(Concat(ws)) == Join(Lowered(ws), "_")
    ensures forall i :: 0 <= i < |ws| ==> IsSnakeWord(Lowered(ws)[i])
  {
    forall i | 0 <= i < |ws|
      ensures IsSnakeWord(Lowered(ws)[i])
    {
      PascalWordLower(ws[i]);
    }
    if ws != [] {
      PascalWordsMarks(ws);
      StripLower(Underscored(Concat(ws)));
    }
  }

  lemma SnakeWordCapitalized(w: String)
    requires IsSnakeWord(w)
    ensures IsPascalWord(Capitalize(w))
    ensures Lower(Capitalize(w)) == w
  {
    LowerNoUpper(w[1..]);
    CapitalizeLower(w);
    LowerNoUpper(w);
  }

  lemma PascalWordLowered(w: String)
    requires IsPascalWord(w)
    ensures Capitalize(Lower(w)) == w
  {
    var l := Lower(w);
    assert l[1..] == w[1..] by {
      forall i | 0 <= i < |w| - 1 ensures l[1..][i] == w[1..][i] {
        assert !IsUpper(w[1..][i]);
      }
    }
    assert UpperChar(l[0]) == w[0];
  }

  /** Round trip from PascalCase: converting to snake_case and back gives
      the identifier back. */
  lemma PascalSnakePascal(ws: seq<String>)
    requires forall i :: 0 <= i < |ws| ==> IsPascalWord(ws[i])
    ensures SnakeToPascal(PascalToSnake(Concat(ws))) == Concat(ws)
  {
    PascalToSnakeWords(ws);
    SnakeToPascalJoin(Lowered(ws));
    forall i | 0 <= i < |ws|
      ensures Capitalized(Lowered(ws))[i] == ws[i]
    {
      PascalWordLowered(ws[i]);
    }
    assert Capitalized(Lowered(ws)) == ws;
  }

  /** Round trip from snake_case: converting to PascalCase and back gives
      the identifier back. */
  lemma SnakePascalSnake(ws: seq<String>)
    requires forall i :: 0 <= i < |ws| ==> IsSnakeWord(ws[i])
    ensures PascalToSnake(SnakeToPascal(Join(ws, "_"))) == Join(ws, "_")
  {
    SnakeToPascalJoin(ws);
    var ps := Capitalized(ws);
    forall i | 0 <= i < |ws|
      ensures IsPascalWord(ps[i]) && Lowered(ps)[i] == ws[i]
    {
      SnakeWordCapitalized(ws[i]);
    }
    assert Lowered(ps) == ws;
    PascalToSnakeWords(ps);
  }

  // ---------------------------------------------------------------- examples

  /** Two words joined by an underscore: each is capitalised. */
  lemma SnakeToPascalTwoWords(a: String, b: String)
    requires a != [] && '_' !in a && b != [] && '_' !in b
    ensures SnakeToPascal(a + "_" + b) == Capitalize(a) + Capitalize(b)
  {
    SnakeToPascalWord(a);
    SnakeToPascalWord(b);
    SnakeToPascalAppend(a, b);
  }

  /** `user_id` becomes `UserId`. */
  lemma SnakeToPascalUserId(snake: String)
    requires snake == "user_id"
    ensures SnakeToPascal(snake) == "UserId"
  {
    var a, b: String := "user", "id";
    assert snake == a + "_" + b;
    SnakeToPascalTwoWords(a, b);
    UserIdWords();
  }

  lemma UserIdWords()
    ensures Capitalize("user") == "User" && Capitalize("id") == "Id"
  {
    var t: String := "ser";
    assert "user" == ['u'] + t;
    LowerNoUpper(t);
    assert "id" == ['i'] + ['d'];
    LowerNoUpper(['d']);
  }

  /** `CREATED_AT` becomes `CreatedAt`. */
  lemma SnakeToPascalCreatedAt(snake: String)
    requires snake == "CREATED_AT"
    ensures SnakeToPascal(snake) == "CreatedAt"
  {
    var a, b: String := "CREATED", "AT";
    assert snake == a + "_" + b;
    SnakeToPascalTwoWords(a, b);
    CreatedAtWords();
  }

  lemma CreatedAtWords()
    ensures Capitalize("CREATED") == "Created" && Capitalize("AT") == "At"
  {
    CreatedWord();
    assert "AT" == ['A'] + ['T'];
    assert Lower(['T']) == ['t'];
    CapitalizeCapital('A', ['T']);
  }

  lemma CreatedWord()
    ensures Capitalize("CREATED") == "Created"
  {
    var t, l: String := "REATED", "reated";
    assert "CREATED" == ['C'] + t;
    CapitalizeCapital('C', t);
    assert Lower(t) == l;
    assert ['C'] + l == "Created";
  }

  /** A word that already starts with a capital keeps it. */
  lemma CapitalizeCapital(c: char, t: String)
    requires !IsLower(c)
    ensures Capitalize([c] + t) == [c] + Lower(t)
  {
    assert ([c] + t)[1..] == t;
  }

  /** Two PascalCase words: lower-cased and joined by an underscore. */
  lemma PascalToSnakeTwoWords(a: String, b: String)
    requires IsPascalWord(a) && IsPascalWord(b)
    ensures PascalToSnake(a + b) == Lower(a) + "_" + Lower(b)
  {
    var ws := [a, b];
    PascalToSnakeWords(ws);
    assert ws[1..] == [b] && ws[1..][1..] == [];
    assert Concat(ws[1..]) == b + [];
    assert Concat(ws) == a + b;
    assert Join(Lowered(ws), "_") == Lower(a) + "_" + Lower(b);
  }

  /** `UserId` becomes `user_id`. */
  lemma PascalToSnakeUserId(pascal: String)
    requires pascal == "UserId"
    ensures PascalToSnake(pascal) == "user_id"
  {
    var a, b: String := "User", "Id";
    assert pascal == a + b;
    PascalToSnakeTwoWords(a, b);
    assert Lower(a) == "user";
    assert Lower(b) == "id";
  }

  /** `CreatedAt` becomes `created_at`. */
  lemma PascalToSnakeCreatedAt(pascal: String)
    requires pascal == "CreatedAt"
    ensures PascalToSnake(pascal) == "created_at"
  {
    var ra, rb: String := "reated", "t";
    var a, b := ['C'] + ra, ['A'] + rb;
    assert pascal == a + b;
    PascalWordOf('C', ra);
    PascalWordOf('A', rb);
    PascalToSnakeTwoWords(a, b);
    CreatedAtPieces(ra, rb);
  }

  /** The lowered words of `CreatedAt`, joined by `_`. */
  lemma CreatedAtPieces(ra: String, rb: String)
    requires ra == "reated" && rb == "t"
    ensures [LowerChar('C')] + ra + "_" + ([LowerChar('A')] + rb) == "created_at"
  {
    assert LowerChar('C') == 'c' && LowerChar('A') == 'a';
  }

  /** An upper-case letter followed by text without upper-case letters or
      underscores is a PascalCase word, lower-cased at its head only. */
  lemma PascalWordOf(c: char, r: String)
    requires IsUpper(c) && NoUpper(r) && '_' !in r
    ensures IsPascalWord([c] + r)
    ensures Lower([c] + r) == [LowerChar(c)] + r
  {
    assert ([c] + r)[0] == c && ([c] + r)[1..] == r;
    LowerAppend([c], r);
    LowerNoUpper(r);
  }

  // ---------------------------------------------------------------- properties

  /** `generateProperty`: the type is not checked against `CSharpDataTypes`. */
  function GenerateProperty(name: String, dataType: String): String
  {
    "public " + dataType + " " + name + " { get; set; }"
  }

  /** The tokens of a property declaration, space-separated. */
  lemma PropertyJoin(name: String, dataType: String)
    ensures GenerateProperty(name, dataType) == Join(["public", dataType, name, "{", "get;", "set;", "}"], " ")
  {
    var tokens := ["public", dataType, name, "{", "get;", "set;", "}"];
    var d, pub, tail: String := " ", "public", "{ get; set; }";
    assert Join(tokens[5..], d) == "set; }";
    assert Join(tokens[4..], d) == "get;" + d + Join(tokens[5..], d) == "get; set; }";
    assert Join(tokens[3..], d) == "{" + d + Join(tokens[4..], d) == tail;
    assert Join(tokens[2..], d) == name + d + Join(tokens[3..], d);
    assert Join(tokens[1..], d) == dataType + d + Join(tokens[2..], d);
    assert Join(tokens, d) == pub + d + Join(tokens[1..], d);
    assert "public " == pub + d && " { get; set; }" == d + tail;
    var x, y := pub + d + dataType, name + d + tail;
    assert pub + d + (dataType + d + y) == x + d + y;
  }

  /** A property declaration is seven whitespace-separated tokens, with the
      type in second and the name in third place. */
  lemma PropertyTokens(name: String, dataType: String)
    requires name != [] && NoneIn(name, Whitespace)
    requires dataType != [] && NoneIn(dataType, Whitespace)
    ensures Split(GenerateProperty(name, dataType), Whitespace)
            == ["public", dataType, name, "{", "get;", "set;", "}"]
  {
    var tokens := ["public", dataType, name, "{", "get;", "set;", "}"];
    PropertyJoin(name, dataType);
    assert NoneIn("public", Whitespace) && NoneIn("{", Whitespace) && NoneIn("get;", Whitespace)
        && NoneIn("set;", Whitespace) && NoneIn("}", Whitespace);
    var d: String := " ";
    assert AllIn(d, Whitespace);
    SplitJoin(tokens, d, Whitespace);
  }

  /** An empty name (what `snakeToPascal` makes of `___`) leaves two spaces in
      a row, which the split on whitespace runs reads as one: the declaration
      has six tokens and the name is simply missing. */
  lemma PropertyTokensEmptyName(dataType: String)
    requires dataType != [] && NoneIn(dataType, Whitespace)
    ensures Split(GenerateProperty([], dataType), Whitespace)
            == ["public", dataType, "{", "get;", "set;", "}"]
  {
    var pub, one, tail: String := "public", " ", "{ get; set; }";
    var braces := ["{", "get;", "set;", "}"];
    assert NoneIn(pub, Whitespace) && AllIn(one, Whitespace) && tail[0] == '{';
    PropertyShape([], dataType);
    BracesTokens();
    SplitGap(pub, dataType, one, tail, Whitespace);
    TwoThenFour(pub, dataType, braces[0], braces[1], braces[2], braces[3]);
  }

  /** Concatenation of list displays, spelled out for six elements. */
  lemma TwoThenFour<T>(a: T, b: T, c: T, d: T, e: T, f: T)
    ensures [a, b] + [c, d, e, f] == [a, b, c, d, e, f]
  {
  }

  /** The declaration as its words, each followed by one space. */
  lemma PropertyShape(name: String, dataType: String)
    ensures GenerateProperty(name, dataType)
            == "public" + (" " + (dataType + (" " + (name + (" " + "{ get; set; }")))))
  {
    var d, pub, tail: String := " ", "public", "{ get; set; }";
    assert "public " == pub + d && " { get; set; }" == d + tail;
    var x := dataType + (d + (name + (d + tail)));
    assert pub + d + dataType + d + name + (d + tail) == pub + (d + x);
  }

  /** The tail of every property declaration. */
  lemma BracesTokens()
    ensures Split("{ get; set; }", Whitespace) == ["{", "get;", "set;", "}"]
  {
    var braces := ["{", "get;", "set;", "}"];
    var one: String := " ";
    assert Join(braces, one) == "{ get; set; }" by {
      assert Join(braces[2..], one) == "set; }";
      assert Join(braces[1..], one) == "get;" + one + Join(braces[2..], one);
      assert Join(braces, one) == "{" + one + Join(braces[1..], one);
    }
    assert NoneIn("{", Whitespace) && NoneIn("get;", Whitespace) && NoneIn("set;", Whitespace)
        && NoneIn("}", Whitespace);
    SplitJoin(braces, one, Whitespace);
  }

  /** Two words, an empty word and the rest, each after a run of separators:
      the empty word vanishes into the doubled run, leaving the two words in
      front of the rest. */
  lemma SplitGap(w: String, t: String, d: String, rest: String, cs: set<char>)
    requires NoneIn(w, cs) && t != [] && NoneIn(t, cs)
    requires d != [] && AllIn(d, cs)
    requires rest != [] && rest[0] !in cs
    ensures Split(w + (d + (t + (d + ([] + (d + rest))))), cs) == [w, t] + Split(rest, cs)
  {
    var e := d + d;
    assert d + ([] + (d + rest)) == e + rest;
    assert AllIn(e, cs) by { forall i | 0 <= i < |e| ensures e[i] in cs { if i >= |d| { assert e[i] == d[i - |d|]; } } }
    SplitRun(e, rest, cs);
    SplitWord(t, e + rest, cs);
    assert t + [] == t;
    var typed := t + (e + rest);
    assert typed[0] == t[0];
    SplitRun(d, typed, cs);
    SplitWord(w, d + typed, cs);
    assert w + [] == w;
  }

  /** `csharpDataTypes`, in order. */
  const CSharpDataTypes: seq<String> :=
    ["string", "int", "long", "decimal", "double", "bool", "DateTime", "Guid", "object"]

  /** The listed types are distinct single tokens, so every one of them fits
      `PropertyTokens`. */
  lemma DataTypesAreTokens()
    ensures forall i :: 0 <= i < |CSharpDataTypes| ==>
              CSharpDataTypes[i] != [] && NoneIn(CSharpDataTypes[i], Whitespace)
    ensures forall i, j :: 0 <= i < j < |CSharpDataTypes| ==> CSharpDataTypes[i] != CSharpDataTypes[j]
  {
  }
}
