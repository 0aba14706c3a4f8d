/** The IN-clause builder: turns a list of values into `IN (...)`, cut into
    one line per 1000 values when Oracle's limit on IN lists applies. */
module InClause {
  import opened Text

  /** Oracle accepts at most this many expressions in one IN list. */
  const OracleInClauseLimit: nat := 1000

  datatype Separator = Comma | Pipe

  datatype InClauseOptions = InClauseOptions(addQuotes: bool, separator: Separator, oracleSplit: bool)

  /** Values, one per line, trimmed, blank lines dropped. */
  function ParseInputValues(input: String): (values: seq<String>)
    ensures forall i :: 0 <= i < |values| ==> values[i] != [] && IsTrimmed(values[i]) && NoneIn(values[i], LineBreaks)
  {
    Parse(input, LineBreaks)
  }

  function SeparatorText(separator: Separator): String
  {
    if separator == Comma then ", " else " | "
  }

  /** Each value, quoted when asked. */
  function Format(values: seq<String>, addQuotes: bool): (r: seq<String>)
    ensures |r| == |values|
  {
    seq(|values|, i requires 0 <= i < |values| => Quote(values[i], addQuotes))
  }

  /** The number of chunks of at most `OracleInClauseLimit` items that `n`
      items fill. */
  function ChunkCount(n: nat): nat
  {
    (n + OracleInClauseLimit - 1) / OracleInClauseLimit
  }

  /** The consecutive chunks of `xs`: chunk `k` starts at item
      `k * OracleInClauseLimit`. Every chunk is non-empty and has at most
      `OracleInClauseLimit` items, and all but the last have exactly that many. */
  function ChunksOf(xs: seq<String>): (r: seq<seq<String>>)
    ensures |r| == ChunkCount(|xs|)
    ensures forall k :: 0 <= k < |r| ==> 0 < |r[k]| <= OracleInClauseLimit
    ensures forall k :: 0 <= k < |r| - 1 ==> |r[k]| == OracleInClauseLimit
  {
    seq(ChunkCount(|xs|), k requires 0 <= k < ChunkCount(|xs|) =>
      xs[k * OracleInClauseLimit .. Min(k * OracleInClauseLimit + OracleInClauseLimit, |xs|)])
  }

  /** Past the first chunk, the chunks are those of the rest of the list. */
  lemma ChunksOfStep(xs: seq<String>)
    requires |xs| > OracleInClauseLimit
    ensures ChunksOf(xs) == [xs[..OracleInClauseLimit]] + ChunksOf(xs[OracleInClauseLimit..])
  {
    var r, t := ChunksOf(xs), ChunksOf(xs[OracleInClauseLimit..]);
    assert |r| == |t| + 1;
    var n, rest := |xs|, xs[OracleInClauseLimit..];
    forall k | 0 < k < |r|
      ensures r[k] == t[k - 1]
    {
      var a := (k - 1) * OracleInClauseLimit;
      assert a + OracleInClauseLimit == k * OracleInClauseLimit;
      var b := Min(a + OracleInClauseLimit, n - OracleInClauseLimit);
      assert 0 <= a <= b <= |rest| && t[k - 1] == rest[a..b];
      assert rest[a..b] == xs[a + OracleInClauseLimit..b + OracleInClauseLimit] by {
        forall j | 0 <= j < b - a
          ensures rest[a..b][j] == xs[a + OracleInClauseLimit..b + OracleInClauseLimit][j]
        {
          assert rest[a..b][j] == rest[a + j] == xs[OracleInClauseLimit + a + j];
        }
      }
    }
  }

  /** The chunks put back together are the list: nothing dropped, repeated or
      reordered. */
  lemma {:induction false} ChunksCover(xs: seq<String>)
    ensures Concat(ChunksOf(xs)) == xs
    decreases |xs|
  {
    if |xs| == 0 {
    } else if |xs| <= OracleInClauseLimit {
      assert ChunkCount(|xs|) == 1;
      assert ChunksOf(xs)[0] == xs[0..|xs|] == xs;
      assert ChunksOf(xs) == [xs];
      assert Concat([xs]) == xs + Concat([]);
    } else {
      ChunksOfStep(xs);
      ChunksCover(xs[OracleInClauseLimit..]);
      assert xs[..OracleInClauseLimit] + xs[OracleInClauseLimit..] == xs;
    }
  }

  /** The chunking loop of `generateInClause`: `i` steps through the list by
      `OracleInClauseLimit`, pushing the slice that starts at `i`. */
  method SplitIntoChunks(formatted: seq<String>) returns (chunks: seq<seq<String>>)
    ensures chunks == ChunksOf(formatted)
    ensures Concat(chunks) == formatted
  {
    chunks := [];
    var i := 0;
    while i < |formatted|
      invariant i == |chunks| * OracleInClauseLimit
      invariant |chunks| <= ChunkCount(|formatted|)
      invariant chunks == ChunksOf(formatted)[..|chunks|]
    {
      chunks := chunks + [formatted[i..Min(i + OracleInClauseLimit, |formatted|)]];
      i := i + OracleInClauseLimit;
    }
    assert chunks == ChunksOf(formatted);
    ChunksCover(formatted);
  }

  /** Line `i` of a split clause: the first opens the IN list, every later one
      adds `OR column IN (...)`. */
  function ClauseLine(chunk: seq<String>, i: nat, sep: String): String
  {
    if i == 0 then "IN (" + Join(chunk, sep) + ")"
    else "OR column IN (" + Join(chunk, sep) + ")"
  }

  function ClauseLines(chunks: seq<seq<String>>, sep: String): (r: seq<String>)
    ensures |r| == |chunks|
  {
    seq(|chunks|, i requires 0 <= i < |chunks| => ClauseLine(chunks[i], i, sep))
  }

  /** What `generateInClause` returns. */
  function InClauseText(values: seq<String>, options: InClauseOptions): String
  {
    var sep := SeparatorText(options.separator);
    var formatted := Format(values, options.addQuotes);
    if options.oracleSplit && |formatted| > OracleInClauseLimit then
      Join(ClauseLines(ChunksOf(formatted), sep), "\n")
    else
      "IN (" + Join(formatted, sep) + ")"
  }

  /** `generateInClause`. */
  method GenerateInClause(values: seq<String>, options: InClauseOptions) returns (r: String)
    ensures r == InClauseText(values, options)
  {
    var sep := SeparatorText(options.separator);
    var formatted := Format(values, options.addQuotes);
    if options.oracleSplit && |formatted| > OracleInClauseLimit {
      var chunks := SplitIntoChunks(formatted);
      r := Join(ClauseLines(chunks, sep), "\n");
    } else {
      r := "IN (" + Join(formatted, sep) + ")";
    }
  }

  /** Without splitting, or with at most `OracleInClauseLimit` values, the
      result is one `IN (...)` list of all the formatted values; the empty
      list gives `IN ()`. */
  lemma SingleClause(values: seq<String>, options: InClauseOptions)
    requires !options.oracleSplit || |values| <= OracleInClauseLimit
    ensures InClauseText(values, options)
         == "IN (" + Join(Format(values, options.addQuotes), SeparatorText(options.separator)) + ")"
    ensures values == [] ==> InClauseText(values, options) == "IN ()"
  {
  }

  /** Asking for the split changes nothing up to `OracleInClauseLimit` values. */
  lemma SplitOnlyAboveLimit(values: seq<String>, options: InClauseOptions)
    requires |values| <= OracleInClauseLimit
    ensures InClauseText(values, options.(oracleSplit := true)) == InClauseText(values, options.(oracleSplit := false))
  {
  }

  /** With the split, the lines of the result are exactly the clause lines of
      the chunks: `ChunkCount(|values|)` of them, the first `IN (...)` and the
      rest `OR column IN (...)`, together holding every formatted value once
      and in order. */
  lemma SplitClauseLines(values: seq<String>, options: InClauseOptions)
    requires options.oracleSplit && |values| > OracleInClauseLimit
    requires forall i :: 0 <= i < |values| ==> NoneIn(values[i], {'\n'})
    ensures var chunks := ChunksOf(Format(values, options.addQuotes));
            && Split(InClauseText(values, options), {'\n'}) == ClauseLines(chunks, SeparatorText(options.separator))
            && |chunks| == ChunkCount(|values|)
            && Concat(chunks) == Format(values, options.addQuotes)
  {
    var sep := SeparatorText(options.separator);
    var formatted := Format(values, options.addQuotes);
    var chunks := ChunksOf(formatted);
    var lines := ClauseLines(chunks, sep);
    forall j | 0 <= j < |formatted|
      ensures NoneIn(formatted[j], {'\n'})
    {
      QuoteNoneIn(values[j], options.addQuotes, {'\n'});
    }
    ClauseLinesClean(formatted, sep);
    SplitJoin(lines, "\n", {'\n'});
    ChunksCover(formatted);
  }

  /** The clause lines of values without a newline are non-empty and hold no
      newline. */
  lemma ClauseLinesClean(formatted: seq<String>, sep: String)
    requires forall j :: 0 <= j < |formatted| ==> NoneIn(formatted[j], {'\n'})
    requires NoneIn(sep, {'\n'})
    ensures var lines := ClauseLines(ChunksOf(formatted), sep);
            forall i :: 0 <= i < |lines| ==> lines[i] != [] && NoneIn(lines[i], {'\n'})
  {
    var chunks := ChunksOf(formatted);
    var lines := ClauseLines(chunks, sep);
    forall i | 0 <= i < |lines|
      ensures lines[i] != [] && NoneIn(lines[i], {'\n'})
    {
      var chunk := chunks[i];
      assert forall m :: 0 <= m < |chunk| ==> chunk[m] == formatted[i * OracleInClauseLimit + m];
      JoinNoneIn(chunk, sep, {'\n'});
    }
  }

  /** Between 1001 and 2000 values the split gives two lines: the first 1000
      formatted values, then the rest. */
  lemma TwoClauseLines(values: seq<String>, options: InClauseOptions)
    requires options.oracleSplit && OracleInClauseLimit < |values| <= 2 * OracleInClauseLimit
    ensures var f, sep := Format(values, options.addQuotes), SeparatorText(options.separator);
            var first := "IN (" + Join(f[..OracleInClauseLimit], sep) + ")";
            var second := "OR column IN (" + Join(f[OracleInClauseLimit..], sep) + ")";
            InClauseText(values, options) == first + "\n" + second
  {
    var f, sep := Format(values, options.addQuotes), SeparatorText(options.separator);
    var chunks := ChunksOf(f);
    assert ChunkCount(|f|) == 2;
    assert chunks[0] == f[..OracleInClauseLimit];
    assert chunks[1] == f[OracleInClauseLimit..];
    var lines := ClauseLines(chunks, sep);
    assert lines[0] == "IN (" + Join(f[..OracleInClauseLimit], sep) + ")";
    assert lines[1] == "OR column IN (" + Join(f[OracleInClauseLimit..], sep) + ")";
    assert lines[1..] == [lines[1]];
    assert Join(lines, "\n") == lines[0] + "\n" + lines[1];
  }
}
