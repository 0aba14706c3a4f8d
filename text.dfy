/** Text helpers shared by the four transformers: the ASCII character classes,
    `String.prototype.trim`, the "split on a run of separators, trim, drop
    empties" normalisation used by every `parse*` function, `Array.prototype.join`
    and single-quote wrapping. */
module Text {

  type String = seq<char>

  /** The ASCII members of JavaScript's `\s` class, which are also the ASCII
      characters `trim` removes. */
  const Whitespace: set<char> := {' ', '\t', '\n', '\U{000B}', '\U{000C}', '\r'}

  /** The class `[\r\n]` used for newline-separated input. */
  const LineBreaks: set<char> := {'\r', '\n'}

  /** The class `[\s,]` used for column and identifier lists. */
  const WhitespaceOrComma: set<char> := Whitespace + {','}

  /** The smaller of two numbers. */
  function Min(a: int, b: int): int
  {
    if a <= b then a else b
  }

  /** No character of `s` belongs to `cs`. */
  predicate NoneIn(s: String, cs: set<char>)
  {
    forall i :: 0 <= i < |s| ==> s[i] !in cs
  }

  /** Every character of `s` belongs to `cs`. */
  predicate AllIn(s: String, cs: set<char>)
  {
    forall i :: 0 <= i < |s| ==> s[i] in cs
  }

  /** `s` has no whitespace at either end. */
  predicate IsTrimmed(s: String)
  {
    s == [] || (s[0] !in Whitespace && s[|s| - 1] !in Whitespace)
  }

  /** The characters of `s` that are not in `cs`, in order. */
  function Remove(s: String, cs: set<char>): (r: String)
    ensures NoneIn(r, cs)
    ensures |r| <= |s|
  {
    if s == [] then []
    else if s[0] in cs then Remove(s[1..], cs)
    else [s[0]] + Remove(s[1..], cs)
  }

  lemma {:induction false} RemoveAppend(a: String, b: String, cs: set<char>)
    ensures Remove(a + b, cs) == Remove(a, cs) + Remove(b, cs)
  {
    if a == [] {
      assert a + b == b;
    } else {
      assert (a + b)[0] == a[0] && (a + b)[1..] == a[1..] + b;
      RemoveAppend(a[1..], b, cs);
      if a[0] !in cs {
        calc {
          Remove(a + b, cs);
          [a[0]] + Remove(a[1..] + b, cs);
          [a[0]] + (Remove(a[1..], cs) + Remove(b, cs));
          ([a[0]] + Remove(a[1..], cs)) + Remove(b, cs);
        }
      }
    }
  }

  /** The concatenation of a list of sequences. */
  function Concat<T>(xs: seq<seq<T>>): seq<T>
  {
    if xs == [] then [] else xs[0] + Concat(xs[1..])
  }

  lemma {:induction false} ConcatAppend<T>(xs: seq<seq<T>>, ys: seq<seq<T>>)
    ensures Concat(xs + ys) == Concat(xs) + Concat(ys)
  {
    if xs == [] {
      assert xs + ys == ys;
    } else {
      assert (xs + ys)[0] == xs[0] && (xs + ys)[1..] == xs[1..] + ys;
      ConcatAppend(xs[1..], ys);
      calc {
        Concat(xs + ys);
        xs[0] + Concat(xs[1..] + ys);
        xs[0] + (Concat(xs[1..]) + Concat(ys));
        (xs[0] + Concat(xs[1..])) + Concat(ys);
      }
    }
  }

  // ---------------------------------------------------------------- trim

  function TrimStart(s: String): (r: String)
    ensures |r| <= |s| && r == s[|s| - |r|..]
    ensures forall i :: 0 <= i < |s| - |r| ==> s[i] in Whitespace
    ensures r == [] || r[0] !in Whitespace
  {
    if s != [] && s[0] in Whitespace then TrimStart(s[1..]) else s
  }

  function TrimEnd(s: String): (r: String)
    ensures |r| <= |s| && r == s[..|r|]
    ensures forall i :: |r| <= i < |s| ==> s[i] in Whitespace
    ensures r == [] || r[|r| - 1] !in Whitespace
  {
    if s != [] && s[|s| - 1] in Whitespace then TrimEnd(s[..|s| - 1]) else s
  }

  /** `String.prototype.trim` over ASCII whitespace: no whitespace is left at
      either end. `TrimParts` states that the result is a contiguous part of
      `s` and that everything removed is whitespace. */
  function Trim(s: String): (r: String)
    ensures IsTrimmed(r)
    ensures |r| <= |s|
  {
    var t := TrimStart(s);
    var r := TrimEnd(t);
    assert r != [] ==> r[0] == t[0];
    r
  }

  /** The number of leading characters `TrimStart` drops. */
  function Leading(s: String): nat
  {
    |s| - |TrimStart(s)|
  }

  /** What `trim` removes: the result sits in `s` after `Leading(s)`
      characters, and the characters before it and those after it are all
      whitespace. */
  lemma TrimParts(s: String)
    ensures Leading(s) + |Trim(s)| <= |s|
    ensures Trim(s) == s[Leading(s)..Leading(s) + |Trim(s)|]
    ensures AllIn(s[..Leading(s)], Whitespace)
    ensures AllIn(s[Leading(s) + |Trim(s)|..], Whitespace)
  {
    TrimEndDropped(TrimStart(s));
    SliceParts(s, TrimStart(s), Trim(s), Whitespace, Leading(s));
    TrimStartDropped(s);
  }

  /** A prefix `r` of the suffix `t` of `s` that starts at `k` is a slice of
      `s`, and what follows it in `t` is what follows the slice in `s`. */
  lemma SliceParts(s: String, t: String, r: String, cs: set<char>, k: nat)
    requires k + |t| == |s| && t == s[k..]
    requires |r| <= |t| && r == t[..|r|]
    requires AllIn(t[|r|..], cs)
    ensures k + |r| <= |s| && r == s[k..k + |r|]
    ensures AllIn(s[k + |r|..], cs)
  {
    assert s[k + |r|..] == t[|r|..];
  }

  lemma TrimStartDropped(s: String)
    ensures AllIn(s[..Leading(s)], Whitespace)
  {
    var k := Leading(s);
    forall i | 0 <= i < k
      ensures s[..k][i] in Whitespace
    {
    }
  }

  lemma TrimEndDropped(t: String)
    ensures AllIn(t[|TrimEnd(t)|..], Whitespace)
  {
    var m := |TrimEnd(t)|;
    forall i | 0 <= i < |t| - m
      ensures t[m..][i] in Whitespace
    {
      assert t[m..][i] == t[m + i];
    }
  }

  /** Trimming only removes characters, so it introduces none of `cs`. */
  lemma TrimNoneIn(s: String, cs: set<char>)
    requires NoneIn(s, cs)
    ensures NoneIn(Trim(s), cs)
  {
    var t := TrimStart(s);
    assert Trim(s) == t[..|Trim(s)|];
  }

  /** Trimming a string that has no whitespace at its ends changes nothing. */
  lemma TrimTrimmed(s: String)
    requires IsTrimmed(s)
    ensures Trim(s) == s
  {
  }

  // ---------------------------------------------------------------- split

  /** `s.split(/[cs]+/)`: the pieces between maximal runs of separator
      characters. A run at either end yields an empty first or last piece,
      and the empty string yields one empty piece. */
  function Split(s: String, cs: set<char>): (pieces: seq<String>)
    ensures |pieces| > 0
    ensures forall i :: 0 <= i < |pieces| ==> NoneIn(pieces[i], cs)
    decreases |s|
  {
    if s == [] then [[]]
    else
      var rest := Split(s[1..], cs);
      if s[0] in cs then
        (if |s| > 1 && s[1] in cs then rest else [[]] + rest)
      else
        [[s[0]] + rest[0]] + rest[1..]
  }

  /** Splitting loses only the separators: the pieces put back together are
      the input with its separator characters removed, in order. */
  lemma {:induction false} SplitKeepsOrder(s: String, cs: set<char>)
    ensures Concat(Split(s, cs)) == Remove(s, cs)
    decreases |s|
  {
    if s != [] {
      var rest := Split(s[1..], cs);
      SplitKeepsOrder(s[1..], cs);
      if s[0] in cs {
        if |s| > 1 && s[1] in cs {
        } else {
          assert ([[]] + rest)[1..] == rest;
        }
      } else {
        assert Concat(rest) == rest[0] + Concat(rest[1..]);
        assert ([[s[0]] + rest[0]] + rest[1..])[1..] == rest[1..];
      }
    }
  }

  /** A word with no separator glues onto the first piece of what follows. */
  lemma {:induction false} SplitWord(x: String, rest: String, cs: set<char>)
    requires NoneIn(x, cs)
    ensures Split(x + rest, cs) == [x + Split(rest, cs)[0]] + Split(rest, cs)[1..]
    decreases |x|
  {
    var r := Split(rest, cs);
    if x == [] {
      assert x + rest == rest;
      assert x + r[0] == r[0];
      assert [r[0]] + r[1..] == r;
    } else {
      assert (x + rest)[0] == x[0] && (x + rest)[1..] == x[1..] + rest;
      SplitWord(x[1..], rest, cs);
      assert [x[0]] + (x[1..] + Split(rest, cs)[0]) == x + Split(rest, cs)[0];
    }
  }

  /** A non-empty run of separators followed by a non-separator (or by the
      end) starts a new piece. */
  lemma {:induction false} SplitRun(d: String, rest: String, cs: set<char>)
    requires d != [] && AllIn(d, cs)
    requires rest == [] || rest[0] !in cs
    ensures Split(d + rest, cs) == [[]] + Split(rest, cs)
    decreases |d|
  {
    assert (d + rest)[1..] == d[1..] + rest;
    if |d| > 1 {
      SplitRun(d[1..], rest, cs);
    }
  }

  // ---------------------------------------------------------------- join

  /** `xs.join(d)`. */
  function Join(xs: seq<String>, d: String): String
  {
    if |xs| == 0 then []
    else if |xs| == 1 then xs[0]
    else xs[0] + d + Join(xs[1..], d)
  }

  lemma {:induction false} JoinAppend(xs: seq<String>, ys: seq<String>, d: String)
    requires xs != [] && ys != []
    ensures Join(xs + ys, d) == Join(xs, d) + d + Join(ys, d)
    decreases |xs|
  {
    if |xs| == 1 {
      assert (xs + ys)[1..] == ys;
    } else {
      assert (xs + ys)[1..] == xs[1..] + ys;
      JoinAppend(xs[1..], ys, d);
    }
  }

  /** A joined list has no character of `cs` when neither the items nor the
      delimiter have one. */
  lemma {:induction false} JoinNoneIn(xs: seq<String>, d: String, cs: set<char>)
    requires forall i :: 0 <= i < |xs| ==> NoneIn(xs[i], cs)
    requires NoneIn(d, cs)
    ensures NoneIn(Join(xs, d), cs)
  {
    if |xs| > 1 {
      JoinNoneIn(xs[1..], d, cs);
    }
  }

  /** Splitting a list joined with a run of separators gives the list back,
      when its items are non-empty and free of separators. */
  lemma {:induction false} SplitJoin(xs: seq<String>, d: String, cs: set<char>)
    requires xs != []
    requires forall i :: 0 <= i < |xs| ==> xs[i] != [] && NoneIn(xs[i], cs)
    requires d != [] && AllIn(d, cs)
    ensures Split(Join(xs, d), cs) == xs
  {
    if |xs| == 1 {
      SplitWord(xs[0], [], cs);
      assert xs[0] + [] == xs[0];
      assert Split([], cs) == [[]];
      assert [xs[0] + []] == xs;
    } else {
      var tail := Join(xs[1..], d);
      assert Split(d + tail, cs) == [[]] + xs[1..] by {
        SplitJoin(xs[1..], d, cs);
        assert tail == [] || tail[0] !in cs by {
          if |xs| == 2 { assert tail == xs[1]; }
          else { assert tail == xs[1] + d + Join(xs[2..], d); }
        }
        SplitRun(d, tail, cs);
      }
      var after := Split(d + tail, cs);
      calc {
        Split(Join(xs, d), cs);
        { assert Join(xs, d) == xs[0] + (d + tail); }
        Split(xs[0] + (d + tail), cs);
        { SplitWord(xs[0], d + tail, cs); }
        [xs[0] + after[0]] + after[1..];
        { assert after[0] == [] && after[1..] == xs[1..] && xs[0] + [] == xs[0]; }
        [xs[0]] + xs[1..];
        xs;
      }
    }
  }

  // ---------------------------------------------------------------- parse

  /** Trims every piece and keeps the non-empty ones, in order. */
  function TrimAndDropEmpty(pieces: seq<String>, ghost cs: set<char>): (r: seq<String>)
    requires forall j :: 0 <= j < |pieces| ==> NoneIn(pieces[j], cs)
    ensures |r| <= |pieces|
    ensures forall i :: 0 <= i < |r| ==> r[i] != [] && IsTrimmed(r[i]) && NoneIn(r[i], cs)
  {
    if pieces == [] then []
    else
      var t := Trim(pieces[0]);
      TrimNoneIn(pieces[0], cs);
      if t == [] then TrimAndDropEmpty(pieces[1..], cs)
      else [t] + TrimAndDropEmpty(pieces[1..], cs)
  }

  /** Trimming and dropping empties works piece by piece. */
  lemma {:induction false} TrimAndDropEmptyAppend(xs: seq<String>, ys: seq<String>, cs: set<char>)
    requires forall j :: 0 <= j < |xs| ==> NoneIn(xs[j], cs)
    requires forall j :: 0 <= j < |ys| ==> NoneIn(ys[j], cs)
    ensures TrimAndDropEmpty(xs + ys, cs) == TrimAndDropEmpty(xs, cs) + TrimAndDropEmpty(ys, cs)
    decreases |xs|
  {
    if xs == [] {
      assert xs + ys == ys;
    } else {
      assert (xs + ys)[0] == xs[0] && (xs + ys)[1..] == xs[1..] + ys;
      TrimAndDropEmptyAppend(xs[1..], ys, cs);
    }
  }

  /** One piece is kept trimmed, or dropped when it is blank. */
  lemma TrimAndDropEmptyOne(p: String, cs: set<char>)
    requires NoneIn(p, cs)
    ensures TrimAndDropEmpty([p], cs) == if Trim(p) == [] then [] else [Trim(p)]
  {
    assert [p][1..] == [];
  }

  /** The normalisation behind every `parse*` function:
      `s.split(/[cs]+/).map(x => x.trim()).filter(x => x.length > 0)`. */
  function Parse(s: String, cs: set<char>): (r: seq<String>)
    ensures forall i :: 0 <= i < |r| ==> r[i] != [] && IsTrimmed(r[i]) && NoneIn(r[i], cs)
  {
    TrimAndDropEmpty(Split(s, cs), cs)
  }

  /** Two pieces of text around a run of separators parse separately, each
      trimmed and dropped when blank, in their order. */
  lemma ParseTwoPieces(a: String, d: String, b: String, cs: set<char>)
    requires NoneIn(a, cs) && NoneIn(b, cs)
    requires d != [] && AllIn(d, cs)
    ensures Parse(a + d + b, cs) == TrimAndDropEmpty([a], cs) + TrimAndDropEmpty([b], cs)
  {
    assert Split(b, cs) == [b] by {
      SplitWord(b, [], cs);
      assert b + [] == b && Split([], cs) == [[]];
    }
    assert Split(d + b, cs) == [[]] + [b] by {
      SplitRun(d, b, cs);
    }
    assert Split(a + d + b, cs) == [a, b] by {
      SplitWord(a, d + b, cs);
      assert a + d + b == a + (d + b) && a + [] == a;
    }
    assert [a, b] == [a] + [b];
    TrimAndDropEmptyAppend([a], [b], cs);
  }

  /** One character padded by a space on each side trims to that character. */
  lemma TrimPadded(c: char)
    requires c !in Whitespace
    ensures Trim([' ', c, ' ']) == [c]
  {
    var s := [' ', c, ' '];
    assert TrimStart(s) == [c, ' '] by {
      assert s[1..] == [c, ' '];
    }
    assert TrimEnd([c, ' ']) == [c] by {
      assert [c, ' '][..1] == [c];
    }
  }

  /** A padded value on a line of its own is kept as the bare value. */
  lemma PaddedLine(x: char)
    requires x !in Whitespace
    ensures NoneIn([' ', x, ' '], LineBreaks)
    ensures TrimAndDropEmpty([[' ', x, ' ']], LineBreaks) == [[x]]
  {
    assert x != '\n' && x != '\r';
    TrimPadded(x);
    TrimAndDropEmptyOne([' ', x, ' '], LineBreaks);
  }

  /** Two values padded with spaces, a blank line between them: both come
      back trimmed, in order, and the blank line is dropped. */
  lemma ParsePaddedPair(x: char, y: char)
    requires x !in Whitespace && y !in Whitespace
    ensures Parse([' ', x, ' ', '\n', '\n', ' ', y, ' '], LineBreaks) == [[x], [y]]
  {
    var a, d, b: String := [' ', x, ' '], ['\n', '\n'], [' ', y, ' '];
    assert a + d + b == [' ', x, ' ', '\n', '\n', ' ', y, ' '];
    PaddedLine(x);
    PaddedLine(y);
    assert AllIn(d, LineBreaks);
    ParseTwoPieces(a, d, b, LineBreaks);
    assert [[x]] + [[y]] == [[x], [y]];
  }

  /** Parsing a list of clean items joined by a run of separators returns
      exactly that list: nothing is lost, merged, split or reordered. */
  lemma {:induction false} ParseJoin(xs: seq<String>, d: String, cs: set<char>)
    requires forall i :: 0 <= i < |xs| ==> xs[i] != [] && IsTrimmed(xs[i]) && NoneIn(xs[i], cs)
    requires d != [] && AllIn(d, cs)
    ensures Parse(Join(xs, d), cs) == xs
  {
    if xs == [] {
      assert Split([], cs) == [[]];
      assert Trim([]) == [];
    } else {
      SplitJoin(xs, d, cs);
      KeepClean(xs, cs);
      assert Parse(Join(xs, d), cs) == TrimAndDropEmpty(xs, cs);
    }
  }

  lemma {:induction false} KeepClean(xs: seq<String>, cs: set<char>)
    requires forall i :: 0 <= i < |xs| ==> xs[i] != [] && IsTrimmed(xs[i]) && NoneIn(xs[i], cs)
    ensures TrimAndDropEmpty(xs, cs) == xs
  {
    if xs != [] {
      TrimTrimmed(xs[0]);
      KeepClean(xs[1..], cs);
    }
  }

  /** Parsing is idempotent: re-parsing its own output, joined by separators,
      gives the same list. */
  lemma ParseIdempotent(s: String, d: String, cs: set<char>)
    requires d != [] && AllIn(d, cs)
    ensures Parse(Join(Parse(s, cs), d), cs) == Parse(s, cs)
  {
    ParseJoin(Parse(s, cs), d, cs);
  }

  /** Clean values typed one per line parse back to themselves. */
  lemma ParseLinesJoin(xs: seq<String>)
    requires forall i :: 0 <= i < |xs| ==> xs[i] != [] && IsTrimmed(xs[i]) && NoneIn(xs[i], LineBreaks)
    ensures Parse(Join(xs, "\n"), LineBreaks) == xs
  {
    var d: String := "\n";
    assert AllIn(d, LineBreaks);
    ParseJoin(xs, d, LineBreaks);
  }

  /** Names free of whitespace and commas, typed as a comma-separated list,
      parse back to themselves: nothing is dropped, merged or reordered, and
      duplicates are kept. */
  lemma ParseCommaListJoin(xs: seq<String>)
    requires forall i :: 0 <= i < |xs| ==> xs[i] != [] && NoneIn(xs[i], WhitespaceOrComma)
    ensures Parse(Join(xs, ", "), WhitespaceOrComma) == xs
  {
    var d: String := ", ";
    assert AllIn(d, WhitespaceOrComma);
    forall i | 0 <= i < |xs|
      ensures IsTrimmed(xs[i])
    {
      assert xs[i][0] !in WhitespaceOrComma && xs[i][|xs[i]| - 1] !in WhitespaceOrComma;
    }
    ParseJoin(xs, d, WhitespaceOrComma);
  }

  // ---------------------------------------------------------------- quoting

  /** `'${v}'` when `addQuotes` is set, `v` otherwise; quotes inside `v` are
      not escaped. */
  function Quote(v: String, addQuotes: bool): String
  {
    if addQuotes then ['\''] + v + ['\''] else v
  }

  /** Without quotes the value is returned as it is; with quotes it sits
      between two single quotes, unchanged, so removing the first and last
      character gives it back. */
  lemma QuoteParts(v: String, addQuotes: bool)
    ensures !addQuotes ==> Quote(v, addQuotes) == v
    ensures addQuotes ==> var r := Quote(v, addQuotes);
              |r| == |v| + 2 && r[0] == '\'' && r[|r| - 1] == '\'' && r[1..|r| - 1] == v
  {
  }

  /** Quoting adds only single quotes. */
  lemma QuoteNoneIn(v: String, addQuotes: bool, cs: set<char>)
    requires NoneIn(v, cs) && '\'' !in cs
    ensures NoneIn(Quote(v, addQuotes), cs)
  {
  }
}
