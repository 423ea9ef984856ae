/** The frontend's reading of a ClickHouse answer (CClickHouseHelper
    parseResult): tab-separated output becomes rows keyed by column name,
    numbered from 0 in input order; a scalar answer is the text with every
    carriage return, newline and tab taken out. */
module ClickHouseHelper {
  import opened Wrappers
  import opened Text

  /** A PHP array from column name to field text. */
  type Row = map<string, string>

  /** The keys paired with the values position by position, a later
      duplicate key overwriting an earlier one. */
  function Zip(keys: seq<string>, values: seq<string>): (m: Row)
    requires |keys| == |values|
    ensures m.Keys == set j | 0 <= j < |keys| :: keys[j]
  {
    if |keys| == 0 then map[]
    else
      var n := |keys| - 1;
      var m0 := Zip(keys[..n], values[..n]);
      assert forall j :: 0 <= j < n ==> keys[..n][j] == keys[j];
      m0[keys[n] := values[n]]
  }

  /** array_combine: no row (PHP's false) when the counts differ. */
  function Combine(keys: seq<string>, values: seq<string>): (r: Option<Row>)
    ensures r.Some? <==> |keys| == |values|
    ensures r.Some? ==> r.value.Keys == set j | 0 <= j < |keys| :: keys[j]
  {
    if |keys| == |values| then Some(Zip(keys, values)) else None
  }

  /** A key maps to the value at its last position. */
  lemma {:induction false} ZipLast(keys: seq<string>, values: seq<string>, j: nat)
    requires |keys| == |values| && j < |keys|
    requires forall b :: j < b < |keys| ==> keys[b] != keys[j]
    ensures Zip(keys, values)[keys[j]] == values[j]
  {
    var n := |keys| - 1;
    if j < n {
      ZipLast(keys[..n], values[..n], j);
    }
  }

  /** With distinct column names every field lands under its own column. */
  lemma CombineDistinct(keys: seq<string>, values: seq<string>)
    requires |keys| == |values|
    requires forall a, b :: 0 <= a < b < |keys| ==> keys[a] != keys[b]
    ensures Combine(keys, values).Some?
    ensures forall j :: 0 <= j < |keys| ==> Combine(keys, values).value[keys[j]] == values[j]
  {
    forall j | 0 <= j < |keys|
      ensures Zip(keys, values)[keys[j]] == values[j]
    {
      ZipLast(keys, values, j);
    }
  }

  /** The test for a line that yields a row: something is left once
      newlines are taken out. */
  predicate Kept(line: string)
  {
    |RemoveChar('\n', line)| > 0
  }

  /** A piece of a newline split yields a row exactly when it is not empty. */
  lemma KeptIffNonEmpty(line: string)
    requires '\n' !in line
    ensures Kept(line) <==> line != ""
  {
    RemoveCharAbsent('\n', line);
  }

  /** The lines that yield rows, in input order. */
  function KeptLines(lines: seq<string>): (kept: seq<string>)
    ensures |kept| <= |lines|
    ensures forall k :: 0 <= k < |kept| ==> Kept(kept[k])
  {
    if |lines| == 0 then []
    else
      var n := |lines| - 1;
      KeptLines(lines[..n]) + (if Kept(lines[n]) then [lines[n]] else [])
  }

  /** The rows, in input order: each kept line's tab-separated fields
      combined with the columns. */
  function RowsOf(lines: seq<string>, columns: seq<string>): (rows: seq<Option<Row>>)
    ensures |rows| == |KeptLines(lines)|
  {
    var kept := KeptLines(lines);
    seq(|kept|, k requires 0 <= k < |kept| => Combine(columns, Explode('\t', kept[k])))
  }

  /** A PHP list: the entries keyed 0, 1, 2, ... */
  function Numbered<T>(entries: seq<T>): (m: map<nat, T>)
    ensures forall k: nat :: k in m <==> k < |entries|
    ensures forall k: nat :: k < |entries| ==> m[k] == entries[k]
  {
    map k: nat | k < |entries| :: entries[k]
  }

  /** The table a text decodes to. */
  function TableOf(data: string, columns: seq<string>): map<nat, Option<Row>>
  {
    Numbered(RowsOf(Explode('\n', data), columns))
  }

  lemma RowsOfAppend(lines: seq<string>, line: string, columns: seq<string>)
    ensures RowsOf(lines + [line], columns) ==
            RowsOf(lines, columns) + (if Kept(line) then [Combine(columns, Explode('\t', line))] else [])
  {
    assert (lines + [line])[..|lines|] == lines;
  }

  lemma NumberedAppend<T>(entries: seq<T>, x: T)
    ensures Numbered(entries + [x]) == Numbered(entries)[|entries| := x]
  {
  }

  /** One more line of the split adds its row, numbered next, exactly when
      the line is kept. */
  lemma RowsStep(lines: seq<string>, i: nat, columns: seq<string>)
    requires i < |lines|
    ensures var before, after := RowsOf(lines[..i], columns), RowsOf(lines[..i + 1], columns);
            if Kept(lines[i])
            then |after| == |before| + 1 &&
                 Numbered(after) == Numbered(before)[|before| := Combine(columns, Explode('\t', lines[i]))]
            else after == before
  {
    assert lines[..i + 1] == lines[..i] + [lines[i]];
    RowsOfAppend(lines[..i], lines[i], columns);
    NumberedAppend(RowsOf(lines[..i], columns), Combine(columns, Explode('\t', lines[i])));
  }

  /** What parseResult returns: a table or a scalar string. */
  datatype Parsed = Table(rows: map<nat, Option<Row>>) | Single(text: string)

  /** The characters taken out of a scalar answer. */
  predicate Stripped(c: char)
  {
    c == '\r' || c == '\n' || c == '\t'
  }

  /** str_replace(["\r", "\n", "\t"], '', data): each character removed in
      turn. */
  function StripSingle(data: string): (r: string)
    ensures |r| <= |data|
    ensures forall c :: c in r <==> c in data && !Stripped(c)
  {
    RemoveChar('\t', RemoveChar('\n', RemoveChar('\r', data)))
  }

  /** The reference: the characters that are not stripped, in order. */
  function Unstripped(s: string): string
  {
    if |s| == 0 then [] else (if Stripped(s[0]) then [] else [s[0]]) + Unstripped(s[1..])
  }

  /** Stripping keeps exactly the other characters, in their order. */
  lemma {:induction false} StripSingleFilters(s: string)
    ensures StripSingle(s) == Unstripped(s)
  {
    if |s| > 0 {
      StripSingleFilters(s[1..]);
      var head := if s[0] == '\r' then [] else [s[0]];
      assert RemoveChar('\r', s) == head + RemoveChar('\r', s[1..]);
      RemoveCharAppend('\n', head, RemoveChar('\r', s[1..]));
      var head2 := RemoveChar('\n', head);
      RemoveCharAppend('\t', head2, RemoveChar('\n', RemoveChar('\r', s[1..])));
    }
  }

  /** Stripping distributes over concatenation. */
  lemma StripSingleAppend(a: string, b: string)
    ensures StripSingle(a + b) == StripSingle(a) + StripSingle(b)
  {
    RemoveCharAppend('\r', a, b);
    RemoveCharAppend('\n', RemoveChar('\r', a), RemoveChar('\r', b));
    RemoveCharAppend('\t', RemoveChar('\n', RemoveChar('\r', a)), RemoveChar('\n', RemoveChar('\r', b)));
  }

  /** Stripping twice is stripping once. */
  lemma StripSingleIdempotent(s: string)
    ensures StripSingle(StripSingle(s)) == StripSingle(s)
  {
    var r := StripSingle(s);
    RemoveCharAbsent('\r', r);
    RemoveCharAbsent('\n', r);
    RemoveCharAbsent('\t', r);
  }

  /** parseResult: in table mode every line of the newline split that
      holds something becomes the next numbered row; otherwise the scalar
      is stripped. */
  method ParseResult(data: string, isTableResult: bool, columns: seq<string>) returns (result: Parsed)
    ensures isTableResult ==> result == Table(TableOf(data, columns))
    ensures !isTableResult ==> result == Single(StripSingle(data))
  {
    if !isTableResult {
      return Single(StripSingle(data));
    }
    var rows: map<nat, Option<Row>> := map[];
    var lines := Explode('\n', data);
    var curline: nat := 0;
    for i := 0 to |lines|
      invariant curline == |RowsOf(lines[..i], columns)|
      invariant rows == Numbered(RowsOf(lines[..i], columns))
    {
      var line := lines[i];
      RowsStep(lines, i, columns);
      if |RemoveChar('\n', line)| > 0 {
        rows := rows[curline := Combine(columns, Explode('\t', line))];
        curline := curline + 1;
      }
    }
    assert lines[..|lines|] == lines;
    result := Table(rows);
  }

  /** Non-empty lines that are all kept come back as themselves. */
  lemma {:induction false} KeptAll(lines: seq<string>)
    requires forall k :: 0 <= k < |lines| ==> Kept(lines[k])
    ensures KeptLines(lines) == lines
  {
    if |lines| > 0 {
      var n := |lines| - 1;
      KeptAll(lines[..n]);
      assert lines[..n] + [lines[n]] == lines;
    }
  }

  /** A newline split of newline-free pieces each ended by a newline: the
      pieces and one empty piece after the last newline. */
  lemma SplitLines(lines: seq<string>)
    requires |lines| >= 1
    requires forall r :: 0 <= r < |lines| ==> '\n' !in lines[r]
    ensures Explode('\n', Join('\n', lines) + "\n") == lines + [""]
  {
    ExplodeJoinThen('\n', lines, "");
    assert Join('\n', lines) + "\n" == Join('\n', lines) + ['\n'] + "";
  }

  /** A final empty line yields no row. */
  lemma KeptTrailingEmpty(lines: seq<string>)
    ensures KeptLines(lines + [""]) == KeptLines(lines)
  {
    assert (lines + [""])[..|lines|] == lines;
    assert RemoveChar('\n', "") == "";
  }

  /** Newline-free, non-empty lines, each ended by a newline, decode to one
      row per line, numbered in order. */
  lemma TableOfLines(lines: seq<string>, columns: seq<string>)
    requires |lines| >= 1
    requires forall r :: 0 <= r < |lines| ==> '\n' !in lines[r] && lines[r] != ""
    ensures TableOf(Join('\n', lines) + "\n", columns) ==
            Numbered(seq(|lines|, r requires 0 <= r < |lines| => Combine(columns, Explode('\t', lines[r]))))
  {
    forall r | 0 <= r < |lines|
      ensures Kept(lines[r])
    {
      KeptIffNonEmpty(lines[r]);
    }
    SplitLines(lines);
    KeptTrailingEmpty(lines);
    KeptAll(lines);
    assert KeptLines(Explode('\n', Join('\n', lines) + "\n")) == lines;
  }

  /** Rows of tab-separated fields, each line ended by a newline, decode
      to one row per line in order, every field under its column, when the
      columns are distinct and match the fields in number. */
  lemma TableRoundTrip(table: seq<seq<string>>, columns: seq<string>)
    requires |table| >= 1 && |columns| >= 1
    requires forall a, b :: 0 <= a < b < |columns| ==> columns[a] != columns[b]
    requires forall r :: 0 <= r < |table| ==> |table[r]| == |columns|
    requires forall r, f :: 0 <= r < |table| && 0 <= f < |table[r]| ==>
               '\t' !in table[r][f] && '\n' !in table[r][f]
    requires forall r :: 0 <= r < |table| ==> Join('\t', table[r]) != ""
    ensures var t := TableOf(Join('\n', seq(|table|, r requires 0 <= r < |table| => Join('\t', table[r]))) + "\n", columns);
            (forall r: nat :: r in t <==> r < |table|) &&
            forall r, f :: 0 <= r < |table| && 0 <= f < |columns| ==>
              t[r].Some? && t[r].value[columns[f]] == table[r][f]
  {
    var lines := seq(|table|, r requires 0 <= r < |table| => Join('\t', table[r]));
    forall r | 0 <= r < |table|
      ensures '\n' !in lines[r]
      ensures Explode('\t', lines[r]) == table[r]
    {
      JoinFree(table[r], '\n', '\t');
      ExplodeJoin('\t', table[r]);
    }
    TableOfLines(lines, columns);
    forall r | 0 <= r < |table|
      ensures Combine(columns, table[r]).Some?
      ensures forall f :: 0 <= f < |columns| ==> Combine(columns, table[r]).value[columns[f]] == table[r][f]
    {
      CombineDistinct(columns, table[r]);
    }
  }

  /** Joining pieces free of a character gives a text free of it, when
      that character is not the separator. */
  lemma {:induction false} JoinFree(parts: seq<string>, c: char, sep: char)
    requires |parts| >= 1 && c != sep
    requires forall k :: 0 <= k < |parts| ==> c !in parts[k]
    ensures c !in Join(sep, parts)
  {
    if |parts| > 1 {
      JoinFree(parts[1..], c, sep);
    }
  }
}
