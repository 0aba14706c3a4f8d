/** The CRUD generator: fixed-shape SELECT, INSERT, UPDATE and DELETE
    templates built from a table name, a column list and a bind-parameter
    prefix. Every template is a single expression; the lemmas below describe
    the output line by line. */
module Crud {
  import opened Text

  datatype QueryType = Select | Insert | Update | Delete

  /** `sqlserver` binds with `@name`, `oracle` with `:name`. */
  datatype ParamStyle = SqlServer | Oracle

  /** Used when the table name is blank. */
  const DefaultTableName: String := "[TABLE_NAME]"

  /** The indentation of column and SET lines. */
  const Indent: String := "    "

  // ---------------------------------------------------------------- input

  /** `parseColumns`: `Parse` over whitespace and commas. */
  function ParseColumns(input: String): (columns: seq<String>)
    ensures forall i :: 0 <= i < |columns| ==> columns[i] != [] && NoneIn(columns[i], WhitespaceOrComma)
  {
    Parse(input, WhitespaceOrComma)
  }

  /** The bind prefix of a parameter style. */
  function BindPrefix(style: ParamStyle): (prefix: char)
    ensures prefix in {'@', ':'}
    ensures prefix == '@' <==> style == SqlServer
  {
    match style
    case SqlServer => '@'
    case Oracle => ':'
  }

  lemma DefaultTableNameTrimmed()
    ensures DefaultTableName != [] && IsTrimmed(DefaultTableName)
  {
    assert DefaultTableName[0] == '[';
  }

  /** `tableName.trim() || '[TABLE_NAME]'`. */
  function TableName(tableName: String): (table: String)
    ensures table != [] && IsTrimmed(table)
    ensures Trim(tableName) != [] ==> table == Trim(tableName)
    ensures Trim(tableName) == [] ==> table == DefaultTableName
  {
    var t := Trim(tableName);
    DefaultTableNameTrimmed();
    if t != [] then t else DefaultTableName
  }

  /** Normalising a table name twice is the same as once. */
  lemma TableNameIdempotent(tableName: String)
    ensures TableName(TableName(tableName)) == TableName(tableName)
  {
    TrimTrimmed(TableName(tableName));
  }

  // ---------------------------------------------------------------- templates

  /** `columns.map(c => prefix + c)`. */
  function Prefixed(columns: seq<String>, prefix: String): (r: seq<String>)
    ensures |r| == |columns|
    ensures forall i :: 0 <= i < |columns| ==> r[i] == prefix + columns[i]
  {
    seq(|columns|, i requires 0 <= i < |columns| => prefix + columns[i])
  }

  /** The UPDATE template's `    c = <prefix>c` lines, one per column. */
  function SetClauses(columns: seq<String>, prefix: char): (r: seq<String>)
    ensures |r| == |columns|
  {
    seq(|columns|, i requires 0 <= i < |columns| => Indent + columns[i] + " = " + [prefix] + columns[i])
  }

  /* Each multi-line template literal is written as the list of its lines
     joined by newlines. */

  function GenerateSelect(table: String, columns: seq<String>): String
  {
    Join(["SELECT",
          Indent + Join(columns, ",\n    "),
          "FROM " + table,
          "WHERE 1=1"], "\n")
  }

  function GenerateInsert(table: String, columns: seq<String>, prefix: char): String
  {
    Join(["INSERT INTO " + table + " (",
          Indent + Join(columns, ",\n    "),
          ") VALUES (",
          Indent + Join(Prefixed(columns, [prefix]), ",\n    "),
          ")"], "\n")
  }

  function GenerateUpdate(table: String, columns: seq<String>, prefix: char): String
  {
    Join(["UPDATE " + table,
          "SET",
          Join(SetClauses(columns, prefix), ",\n"),
          "WHERE [condition]"], "\n")
  }

  function GenerateDelete(table: String): String
  {
    Join(["DELETE FROM " + table,
          "WHERE [condition]"], "\n")
  }

  /** `generateCrud`: the template of the query type, over the normalised
      table name and the style's bind prefix. */
  function GenerateCrud(tableName: String, columns: seq<String>, queryType: QueryType, style: ParamStyle): String
  {
    var prefix := BindPrefix(style);
    var table := TableName(tableName);
    match queryType
    case Select => GenerateSelect(table, columns)
    case Insert => GenerateInsert(table, columns, prefix)
    case Update => GenerateUpdate(table, columns, prefix)
    case Delete => GenerateDelete(table)
  }

  // ---------------------------------------------------------------- exact text

  /** Four lines joined by `d`. */
  lemma JoinFour(a: String, b: String, c: String, e: String, d: String)
    ensures Join([a, b, c, e], d) == a + d + b + d + c + d + e
  {
    var xs := [a, b, c, e];
    assert xs[1..] == [b, c, e] && xs[1..][1..] == [c, e] && xs[1..][1..][1..] == [e];
    var r := c + d + e;
    assert Join([c, e], d) == r;
    assert Join([b, c, e], d) == b + d + r;
    assert Join(xs, d) == a + d + (b + d + r);
  }

  /** SELECT, written as the single template literal it is. */
  lemma SelectText(table: String, columns: seq<String>)
    ensures GenerateSelect(table, columns)
         == "SELECT\n    " + Join(columns, ",\n    ") + "\nFROM " + table + "\nWHERE 1=1"
  {
    var nl, j, select, from, where := "\n", Join(columns, ",\n    "), "SELECT", "FROM ", "WHERE 1=1";
    JoinFour(select, Indent + j, from + table, where, nl);
    var x, y, z: String := "SELECT\n    ", "\nFROM ", "\nWHERE 1=1";
    assert x == select + nl + Indent && y == nl + from && z == nl + where;
    Regroup(select, nl, Indent, j, from, table, where);
  }

  /** INSERT, written as the single template literal it is. */
  lemma InsertTemplate(table: String, columns: seq<String>, prefix: char)
    ensures GenerateInsert(table, columns, prefix)
         == "INSERT INTO " + table + " (\n    " + Join(columns, ",\n    ") + "\n) VALUES (\n    "
            + Join(Prefixed(columns, [prefix]), ",\n    ") + "\n)"
  {
    var nl, j1, j2 := "\n", Join(columns, ",\n    "), Join(Prefixed(columns, [prefix]), ",\n    ");
    var head, values, close := "INSERT INTO " + table + " (", ") VALUES (", ")";
    var lines := [head, Indent + j1, values, Indent + j2, close];
    assert lines[1..] == [Indent + j1, values, Indent + j2, close];
    JoinFour(Indent + j1, values, Indent + j2, close, nl);
    assert Join(lines, nl) == head + nl + Join(lines[1..], nl);
    var x, y, z: String := " (\n    ", "\n) VALUES (\n    ", "\n)";
    assert x == " (" + nl + Indent && y == nl + values + nl + Indent && z == nl + close;
    assert head == "INSERT INTO " + table + " (";
    RegroupInsert("INSERT INTO " + table, " (", nl, Indent, j1, values, j2, close);
  }

  lemma RegroupInsert(h: String, o: String, n: String, i: String, j1: String, v: String, j2: String, c: String)
    ensures h + o + n + ((i + j1) + n + v + n + (i + j2) + n + c)
         == h + (o + n + i) + j1 + (n + v + n + i) + j2 + (n + c)
  {
  }

  /** UPDATE, written as the single template literal it is. */
  lemma UpdateText(table: String, columns: seq<String>, prefix: char)
    ensures GenerateUpdate(table, columns, prefix)
         == "UPDATE " + table + "\nSET\n" + Join(SetClauses(columns, prefix), ",\n") + "\nWHERE [condition]"
  {
    var nl, j, update, setLine, where := "\n", Join(SetClauses(columns, prefix), ",\n"), "UPDATE ", "SET", "WHERE [condition]";
    JoinFour(update + table, setLine, j, where, nl);
    var x, z: String := "\nSET\n", "\nWHERE [condition]";
    assert x == nl + setLine + nl && z == nl + where;
    RegroupUpdate(update + table, nl, setLine, j, where);
  }

  lemma RegroupUpdate(u: String, n: String, s: String, j: String, w: String)
    ensures u + n + s + n + j + n + w == u + (n + s + n) + j + (n + w)
  {
  }

  /** DELETE, written as the single template literal it is. */
  lemma DeleteText(table: String)
    ensures GenerateDelete(table) == "DELETE FROM " + table + "\nWHERE [condition]"
  {
    var nl, where := "\n", "WHERE [condition]";
    var lines := ["DELETE FROM " + table, where];
    assert lines[1..] == [where];
    assert Join(lines, nl) == "DELETE FROM " + table + nl + where;
    var z: String := "\nWHERE [condition]";
    assert z == nl + where;
  }

  lemma Regroup(s: String, n: String, i: String, j: String, f: String, t: String, w: String)
    ensures s + n + (i + j) + n + (f + t) + n + w == (s + n + i) + j + (n + f) + t + (n + w)
  {
  }

  // ---------------------------------------------------------------- lines

  /** Every item but the last followed by `s`. */
  function Suffixed(xs: seq<String>, s: String): (r: seq<String>)
    ensures |r| == |xs|
  {
    seq(|xs|, i requires 0 <= i < |xs| => if i + 1 < |xs| then xs[i] + s else xs[i])
  }

  /** A prefix in front of a list joined with `d + prefix` is the list of
      prefixed items joined with `d`. */
  lemma {:induction false} PrefixJoin(xs: seq<String>, prefix: String, d: String)
    requires xs != []
    ensures prefix + Join(xs, d + prefix) == Join(Prefixed(xs, prefix), d)
  {
    if |xs| > 1 {
      PrefixJoin(xs[1..], prefix, d);
      assert Prefixed(xs, prefix)[1..] == Prefixed(xs[1..], prefix);
      calc {
        prefix + Join(xs, d + prefix);
        prefix + (xs[0] + (d + prefix) + Join(xs[1..], d + prefix));
        (prefix + xs[0]) + d + (prefix + Join(xs[1..], d + prefix));
      }
    }
  }

  /** A list joined with `s + "\n"` is its lines, each but the last ending
      in `s`, joined with a newline. */
  lemma {:induction false} SuffixJoin(xs: seq<String>, s: String)
    requires xs != []
    ensures Join(xs, s + "\n") == Join(Suffixed(xs, s), "\n")
  {
    if |xs| > 1 {
      SuffixJoin(xs[1..], s);
      assert Suffixed(xs, s)[1..] == Suffixed(xs[1..], s);
      assert xs[0] + (s + "\n") == (xs[0] + s) + "\n";
    }
  }

  /** The indented column lines of SELECT and INSERT: line `i` is the
      column, indented, with a comma unless it is the last. */
  function ColumnLines(columns: seq<String>): (lines: seq<String>)
    ensures |lines| == |columns|
    ensures forall i :: 0 <= i < |columns| ==>
              lines[i] == Indent + columns[i] + (if i + 1 < |columns| then "," else "")
  {
    Suffixed(Prefixed(columns, Indent), ",")
  }

  /** The SET lines of UPDATE: line `i` assigns column `i` its own bind
      parameter, with a comma unless it is the last. */
  function SetLines(columns: seq<String>, prefix: char): (lines: seq<String>)
    ensures |lines| == |columns|
    ensures forall i :: 0 <= i < |columns| ==>
              lines[i] == Indent + columns[i] + " = " + [prefix] + columns[i] + (if i + 1 < |columns| then "," else "")
  {
    Suffixed(SetClauses(columns, prefix), ",")
  }

  /** `"    " + columns.join(",\n    ")` is the column lines joined by newlines. */
  lemma ColumnBlock(columns: seq<String>)
    requires columns != []
    ensures Indent + Join(columns, ",\n    ") == Join(ColumnLines(columns), "\n")
  {
    assert ",\n    " == ",\n" + Indent;
    assert ",\n" == "," + "\n";
    PrefixJoin(columns, Indent, ",\n");
    SuffixJoin(Prefixed(columns, Indent), ",");
  }

  /** Non-empty lines without a newline. */
  predicate CleanLines(xs: seq<String>)
  {
    forall i :: 0 <= i < |xs| ==> xs[i] != [] && NoneIn(xs[i], {'\n'})
  }

  lemma CleanAppend(xs: seq<String>, ys: seq<String>)
    requires CleanLines(xs) && CleanLines(ys)
    ensures CleanLines(xs + ys)
  {
    forall i | 0 <= i < |xs + ys|
      ensures (xs + ys)[i] != [] && NoneIn((xs + ys)[i], {'\n'})
    {
      if i >= |xs| {
        assert (xs + ys)[i] == ys[i - |xs|];
      }
    }
  }

  /** Clean lines joined by newlines split back into those lines. */
  lemma LinesOf(xs: seq<String>)
    requires xs != [] && CleanLines(xs)
    ensures Split(Join(xs, "\n"), {'\n'}) == xs
  {
    SplitJoin(xs, "\n", {'\n'});
  }

  /** A joined block inside a joined list is the same as its items spliced in. */
  lemma JoinFlatten(before: seq<String>, block: seq<String>, after: seq<String>, d: String)
    requires before != [] && block != [] && after != []
    ensures Join(before + [Join(block, d)] + after, d) == Join(before + block + after, d)
  {
    JoinAppend(before, [Join(block, d)], d);
    JoinAppend(before + [Join(block, d)], after, d);
    JoinAppend(before, block, d);
    JoinAppend(before + block, after, d);
  }

  lemma ColumnLinesClean(columns: seq<String>)
    requires forall i :: 0 <= i < |columns| ==> NoneIn(columns[i], {'\n'})
    ensures CleanLines(ColumnLines(columns))
  {
    var lines := ColumnLines(columns);
    forall i | 0 <= i < |columns|
      ensures lines[i] != [] && NoneIn(lines[i], {'\n'})
    {
      assert NoneIn(Indent, {'\n'}) && NoneIn(",", {'\n'});
    }
  }

  lemma SetLinesClean(columns: seq<String>, prefix: char)
    requires prefix != '\n'
    requires forall i :: 0 <= i < |columns| ==> NoneIn(columns[i], {'\n'})
    ensures CleanLines(SetLines(columns, prefix))
  {
    var lines := SetLines(columns, prefix);
    forall i | 0 <= i < |columns|
      ensures lines[i] != [] && NoneIn(lines[i], {'\n'})
    {
      var c := columns[i];
      assert NoneIn(Indent, {'\n'}) && NoneIn(" = ", {'\n'}) && NoneIn(",", {'\n'});
      assert SetClauses(columns, prefix)[i] == Indent + c + " = " + [prefix] + c;
    }
  }

  /** SELECT: a `SELECT` line, one indented line per column (each but the
      last ending in a comma), the `FROM` line and `WHERE 1=1`. */
  lemma SelectLines(table: String, columns: seq<String>)
    requires columns != []
    requires NoneIn(table, {'\n'})
    requires forall i :: 0 <= i < |columns| ==> NoneIn(columns[i], {'\n'})
    ensures Split(GenerateSelect(table, columns), {'\n'})
            == ["SELECT"] + ColumnLines(columns) + ["FROM " + table, "WHERE 1=1"]
  {
    var block := ColumnLines(columns);
    ColumnBlock(columns);
    var before, after := ["SELECT"], ["FROM " + table, "WHERE 1=1"];
    assert before + [Join(block, "\n")] + after
        == ["SELECT", Indent + Join(columns, ",\n    "), "FROM " + table, "WHERE 1=1"];
    JoinFlatten(before, block, after, "\n");
    ColumnLinesClean(columns);
    assert NoneIn("SELECT", {'\n'}) && NoneIn("FROM " + table, {'\n'}) && NoneIn("WHERE 1=1", {'\n'});
    assert CleanLines(before) && CleanLines(after);
    CleanAppend(before, block);
    CleanAppend(before + block, after);
    LinesOf(before + block + after);
  }

  /** INSERT: the header line, one line per column, the `) VALUES (` line,
      one line per bind parameter (the prefixed column, in the same position),
      and the closing parenthesis. */
  lemma InsertLines(table: String, columns: seq<String>, prefix: char)
    requires columns != []
    requires NoneIn(table, {'\n'}) && prefix != '\n'
    requires forall i :: 0 <= i < |columns| ==> NoneIn(columns[i], {'\n'})
    ensures Split(GenerateInsert(table, columns, prefix), {'\n'})
            == ["INSERT INTO " + table + " ("] + ColumnLines(columns) + [") VALUES ("]
               + ColumnLines(Prefixed(columns, [prefix])) + [")"]
  {
    var n := |columns|;
    var params := Prefixed(columns, [prefix]);
    var names, binds := ColumnLines(columns), ColumnLines(params);
    var header, middle, close := "INSERT INTO " + table + " (", ") VALUES (", ")";
    InsertText(table, columns, prefix);
    forall i | 0 <= i < n
      ensures NoneIn(params[i], {'\n'})
    {
      assert params[i] == [prefix] + columns[i];
    }
    ColumnLinesClean(columns);
    ColumnLinesClean(params);
    assert NoneIn(header, {'\n'}) && NoneIn(middle, {'\n'}) && NoneIn(close, {'\n'});
    assert CleanLines([header]) && CleanLines([middle]) && CleanLines([close]);
    CleanAppend([header], names);
    CleanAppend([header] + names, [middle]);
    CleanAppend([header] + names + [middle], binds);
    CleanAppend([header] + names + [middle] + binds, [close]);
    LinesOf([header] + names + [middle] + binds + [close]);
  }

  lemma InsertText(table: String, columns: seq<String>, prefix: char)
    requires columns != []
    ensures var names, binds := ColumnLines(columns), ColumnLines(Prefixed(columns, [prefix]));
            GenerateInsert(table, columns, prefix)
            == Join(["INSERT INTO " + table + " ("] + names + [") VALUES ("] + binds + [")"], "\n")
  {
    var params := Prefixed(columns, [prefix]);
    var names, binds := ColumnLines(columns), ColumnLines(params);
    ColumnBlock(columns);
    ColumnBlock(params);
    var header, middle, close := "INSERT INTO " + table + " (", ") VALUES (", ")";
    assert [header] + [Join(names, "\n")] + ([middle, Join(binds, "\n"), close])
        == [header, Indent + Join(columns, ",\n    "), middle, Indent + Join(params, ",\n    "), close];
    JoinFlatten([header], names, [middle, Join(binds, "\n"), close], "\n");
    assert [header] + names + [middle, Join(binds, "\n"), close]
        == ([header] + names + [middle]) + [Join(binds, "\n")] + [close];
    JoinFlatten([header] + names + [middle], binds, [close], "\n");
  }

  /** UPDATE: the `UPDATE` line, `SET`, one `    c = <prefix>c` line per
      column (each but the last ending in a comma) and the `WHERE` line. */
  lemma UpdateLines(table: String, columns: seq<String>, prefix: char)
    requires columns != []
    requires NoneIn(table, {'\n'}) && prefix != '\n'
    requires forall i :: 0 <= i < |columns| ==> NoneIn(columns[i], {'\n'})
    ensures Split(GenerateUpdate(table, columns, prefix), {'\n'})
            == ["UPDATE " + table, "SET"] + SetLines(columns, prefix) + ["WHERE [condition]"]
  {
    var clauses := SetLines(columns, prefix);
    SuffixJoin(SetClauses(columns, prefix), ",");
    assert ",\n" == "," + "\n";
    var first, last := "UPDATE " + table, "WHERE [condition]";
    var before, after := [first, "SET"], [last];
    assert before + [Join(clauses, "\n")] + after
        == [first, "SET", Join(SetClauses(columns, prefix), ",\n"), last];
    JoinFlatten(before, clauses, after, "\n");
    SetLinesClean(columns, prefix);
    assert NoneIn(first, {'\n'}) && NoneIn(last, {'\n'}) && NoneIn("SET", {'\n'});
    assert CleanLines(before) && CleanLines(after);
    CleanAppend(before, clauses);
    CleanAppend(before + clauses, after);
    LinesOf(before + clauses + after);
  }

  /** DELETE: two lines that depend on the table name only. */
  lemma DeleteLines(table: String)
    requires NoneIn(table, {'\n'})
    ensures Split(GenerateDelete(table), {'\n'}) == ["DELETE FROM " + table, "WHERE [condition]"]
  {
    var first, last := "DELETE FROM " + table, "WHERE [condition]";
    assert NoneIn(first, {'\n'}) && NoneIn(last, {'\n'});
    SplitJoin([first, last], "\n", {'\n'});
  }

  /** The lines each statement is meant to have: it opens with its keyword
      and the table name, INSERT and UPDATE bind every column in order with
      the prefix, and DELETE names only the table. */
  function StatementLines(table: String, columns: seq<String>, queryType: QueryType, prefix: char): seq<String>
  {
    match queryType
    case Select => ["SELECT"] + ColumnLines(columns) + ["FROM " + table, "WHERE 1=1"]
    case Insert => ["INSERT INTO " + table + " ("] + ColumnLines(columns) + [") VALUES ("]
                   + ColumnLines(Prefixed(columns, [prefix])) + [")"]
    case Update => ["UPDATE " + table, "SET"] + SetLines(columns, prefix) + ["WHERE [condition]"]
    case Delete => ["DELETE FROM " + table, "WHERE [condition]"]
  }

  /** The generator proper, line by line: for every query type the output's
      lines are `StatementLines` of the normalised table name and the style's
      bind prefix. */
  lemma CrudLines(tableName: String, columns: seq<String>, queryType: QueryType, style: ParamStyle)
    requires columns != [] && NoneIn(tableName, {'\n'})
    requires forall i :: 0 <= i < |columns| ==> NoneIn(columns[i], {'\n'})
    ensures Split(GenerateCrud(tableName, columns, queryType, style), {'\n'})
            == StatementLines(TableName(tableName), columns, queryType, BindPrefix(style))
  {
    match queryType
    case Select => CrudSelect(tableName, columns, style);
    case Insert => CrudInsert(tableName, columns, style);
    case Update => CrudUpdate(tableName, columns, style);
    case Delete => CrudDelete(tableName, columns, style);
  }

  /** A newline-free table name stays newline-free once normalised. */
  lemma TableNameClean(tableName: String)
    requires NoneIn(tableName, {'\n'})
    ensures NoneIn(TableName(tableName), {'\n'})
  {
    if Trim(tableName) != [] {
      TrimNoneIn(tableName, {'\n'});
    } else {
      DefaultTableNameClean();
    }
  }

  lemma DefaultTableNameClean()
    ensures NoneIn(DefaultTableName, {'\n'})
  {
    assert '\n' !in DefaultTableName;
  }

  /** `CrudLines` for SELECT. */
  lemma CrudSelect(tableName: String, columns: seq<String>, style: ParamStyle)
    requires columns != [] && NoneIn(tableName, {'\n'})
    requires forall i :: 0 <= i < |columns| ==> NoneIn(columns[i], {'\n'})
    ensures Split(GenerateCrud(tableName, columns, Select, style), {'\n'})
            == StatementLines(TableName(tableName), columns, Select, BindPrefix(style))
  {
    TableNameClean(tableName);
    calc {
      Split(GenerateCrud(tableName, columns, Select, style), {'\n'});
      Split(GenerateSelect(TableName(tableName), columns), {'\n'});
      { SelectLines(TableName(tableName), columns); }
      StatementLines(TableName(tableName), columns, Select, BindPrefix(style));
    }
  }

  /** `CrudLines` for INSERT. */
  lemma CrudInsert(tableName: String, columns: seq<String>, style: ParamStyle)
    requires columns != [] && NoneIn(tableName, {'\n'})
    requires forall i :: 0 <= i < |columns| ==> NoneIn(columns[i], {'\n'})
    ensures Split(GenerateCrud(tableName, columns, Insert, style), {'\n'})
            == StatementLines(TableName(tableName), columns, Insert, BindPrefix(style))
  {
    TableNameClean(tableName);
    calc {
      Split(GenerateCrud(tableName, columns, Insert, style), {'\n'});
      Split(GenerateInsert(TableName(tableName), columns, BindPrefix(style)), {'\n'});
      { InsertLines(TableName(tableName), columns, BindPrefix(style)); }
      StatementLines(TableName(tableName), columns, Insert, BindPrefix(style));
    }
  }

  /** `CrudLines` for UPDATE. */
  lemma CrudUpdate(tableName: String, columns: seq<String>, style: ParamStyle)
    requires columns != [] && NoneIn(tableName, {'\n'})
    requires forall i :: 0 <= i < |columns| ==> NoneIn(columns[i], {'\n'})
    ensures Split(GenerateCrud(tableName, columns, Update, style), {'\n'})
            == StatementLines(TableName(tableName), columns, Update, BindPrefix(style))
  {
    TableNameClean(tableName);
    calc {
      Split(GenerateCrud(tableName, columns, Update, style), {'\n'});
      Split(GenerateUpdate(TableName(tableName), columns, BindPrefix(style)), {'\n'});
      { UpdateLines(TableName(tableName), columns, BindPrefix(style)); }
      StatementLines(TableName(tableName), columns, Update, BindPrefix(style));
    }
  }

  /** `CrudLines` for DELETE. */
  lemma CrudDelete(tableName: String, columns: seq<String>, style: ParamStyle)
    requires columns != [] && NoneIn(tableName, {'\n'})
    requires forall i :: 0 <= i < |columns| ==> NoneIn(columns[i], {'\n'})
    ensures Split(GenerateCrud(tableName, columns, Delete, style), {'\n'})
            == StatementLines(TableName(tableName), columns, Delete, BindPrefix(style))
  {
    TableNameClean(tableName);
    calc {
      Split(GenerateCrud(tableName, columns, Delete, style), {'\n'});
      Split(GenerateDelete(TableName(tableName)), {'\n'});
      { DeleteLines(TableName(tableName)); }
      StatementLines(TableName(tableName), columns, Delete, BindPrefix(style));
    }
  }

  /** DELETE does not depend on the columns or the parameter style. */
  lemma DeleteIgnoresColumns(tableName: String, columns: seq<String>, style: ParamStyle,
                             columns': seq<String>, style': ParamStyle)
    ensures GenerateCrud(tableName, columns, Delete, style) == GenerateCrud(tableName, columns', Delete, style')
  {
  }
}
