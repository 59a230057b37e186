/** Delimited text: the comma-separated fields and newline-terminated lines
    that the holiday table is written in, and the comma escape applied to
    holiday names. */
module Text {

  /** The fields of one line, separated by `sep`: Join(["a", "b"], ',') == "a,b". */
  function Join(fields: seq<string>, sep: char): string
  {
    if |fields| == 0 then "" else fields[0] + Prefixed(fields[1..], sep)
  }

  /** Every field preceded by `sep`, in order: the text a loop produces that
      appends `sep + field` once per field. */
  function Prefixed(fields: seq<string>, sep: char): string
  {
    if |fields| == 0 then ""
    else Prefixed(fields[..|fields| - 1], sep) + [sep] + fields[|fields| - 1]
  }

  /** A row written as one line of the table: its fields joined by ',' and ended by '\n'. */
  function Line(fields: seq<string>): string
  {
    Join(fields, ',') + "\n"
  }

  /** A table written as text, one line per row, in row order. */
  function Render(rows: seq<seq<string>>): string
  {
    if |rows| == 0 then "" else Render(rows[..|rows| - 1]) + Line(rows[|rows| - 1])
  }

  lemma RenderSnoc(rows: seq<seq<string>>, row: seq<string>)
    ensures Render(rows + [row]) == Render(rows) + Line(row)
  {
    assert (rows + [row])[..|rows|] == rows;
  }

  /** A rendered table begins with the line of its first row. */
  lemma {:induction false} RenderStartsWithFirst(first: seq<string>, rows: seq<seq<string>>)
    ensures Line(first) <= Render([first] + rows)
    decreases |rows|
  {
    var all := [first] + rows;
    if |rows| == 0 {
      assert all[..0] == [];
    } else {
      assert all[..|all| - 1] == [first] + rows[..|rows| - 1];
      RenderStartsWithFirst(first, rows[..|rows| - 1]);
    }
  }

  /** A row of two fields, as text. */
  lemma LineOfTwo(a: string, b: string)
    ensures Line([a, b]) == a + "," + b + "\n"
  {
    assert [a, b][1..] == [b];
    assert [b][..0] == [];
    assert Prefixed([b], ',') == [','] + b;
  }

  /** A table of two rows of two fields, as text. */
  lemma TwoByTwo(a: string, b: string, c: string, d: string)
    ensures Render([[a, b], [c, d]]) == a + "," + b + "\n" + c + "," + d + "\n"
  {
    assert Render([[a, b]]) == a + "," + b + "\n" by {
      RenderSnoc([], [a, b]);
      assert [[a, b]] == [] + [[a, b]];
      LineOfTwo(a, b);
    }
    assert Render([[a, b], [c, d]]) == Render([[a, b]]) + Line([c, d]) by {
      RenderSnoc([[a, b]], [c, d]);
      assert [[a, b], [c, d]] == [[a, b]] + [[c, d]];
    }
    LineOfTwo(c, d);
  }

  /** The pieces of `s` between occurrences of `sep`; there is always at least one. */
  function Split(s: string, sep: char): (r: seq<string>)
    ensures |r| > 0
  {
    if |s| == 0 then [""]
    else
      var rest := Split(s[1..], sep);
      assert s == [s[0]] + s[1..];
      if s[0] == sep then [""] + rest
      else [[s[0]] + rest[0]] + rest[1..]
  }

  /** There is one piece more than there are separators. */
  lemma {:induction false} SplitCount(s: string, sep: char)
    ensures |Split(s, sep)| == 1 + multiset(s)[sep]
  {
    if |s| > 0 {
      assert s == [s[0]] + s[1..];
      assert multiset(s) == multiset([s[0]]) + multiset(s[1..]);
      SplitCount(s[1..], sep);
    }
  }

  /** Reads a rendered table back: the text is cut at every '\n', the empty
      piece after the last '\n' is dropped, and each line is cut at every ','. */
  function Parse(text: string): seq<seq<string>>
  {
    var lines := Split(text, '\n');
    seq(|lines| - 1, i requires 0 <= i < |lines| - 1 => Split(lines[i], ','))
  }

  /** `name.replace(",", "|")`: every comma becomes a pipe and every other
      character is kept where it was, so the result holds no comma. */
  function Escape(name: string): (r: string)
    ensures |r| == |name|
    ensures ',' !in r
  {
    seq(|name|, i requires 0 <= i < |name| => if name[i] == ',' then '|' else name[i])
  }

  /** Escaping changes a name exactly when the name holds a comma, so escaping twice is escaping once. */
  lemma EscapeFixedPoint(name: string)
    ensures Escape(name) == name <==> ',' !in name
    ensures Escape(Escape(name)) == Escape(name)
  {
    if ',' in name {
      var i :| 0 <= i < |name| && name[i] == ',';
      assert Escape(name)[i] != name[i];
    } else {
      assert forall i :: 0 <= i < |name| ==> Escape(name)[i] == name[i];
    }
  }

  /** Escaping leaves every character other than ',' and '|' where it finds it, so it adds no line break. */
  lemma EscapeKeepsOtherChars(name: string, c: char)
    requires c != ',' && c != '|'
    ensures c in Escape(name) <==> c in name
  {
    if c in name {
      var i :| 0 <= i < |name| && name[i] == c;
      assert Escape(name)[i] == c;
    }
    if c in Escape(name) {
      var i :| 0 <= i < |name| && Escape(name)[i] == c;
      assert name[i] == c;
    }
  }

  lemma {:induction false} PrefixedCons(f: string, rest: seq<string>, sep: char)
    ensures Prefixed([f] + rest, sep) == [sep] + f + Prefixed(rest, sep)
    decreases |rest|
  {
    var all := [f] + rest;
    if |rest| == 0 {
      assert all[..|all| - 1] == [];
    } else {
      assert all[..|all| - 1] == [f] + rest[..|rest| - 1];
      PrefixedCons(f, rest[..|rest| - 1], sep);
    }
  }

  lemma JoinSnoc(fields: seq<string>, f: string, sep: char)
    requires |fields| > 0
    ensures Join(fields + [f], sep) == Join(fields, sep) + [sep] + f
  {
    assert (fields + [f])[1..] == fields[1..] + [f];
    assert (fields[1..] + [f])[..|fields[1..]|] == fields[1..];
  }

  lemma {:induction false} JoinFree(fields: seq<string>, sep: char, c: char)
    requires c != sep
    requires forall i :: 0 <= i < |fields| ==> c !in fields[i]
    ensures c !in Join(fields, sep)
  {
    if |fields| > 0 {
      PrefixedFree(fields[1..], sep, c);
    }
  }

  lemma {:induction false} PrefixedFree(fields: seq<string>, sep: char, c: char)
    requires c != sep
    requires forall i :: 0 <= i < |fields| ==> c !in fields[i]
    ensures c !in Prefixed(fields, sep)
  {
    if |fields| > 0 {
      PrefixedFree(fields[..|fields| - 1], sep, c);
    }
  }

  /** Cutting at a separator splits the pieces of both sides apart. */
  lemma {:induction false} SplitAtSep(a: string, b: string, sep: char)
    ensures Split(a + [sep] + b, sep) == Split(a, sep) + Split(b, sep)
  {
    var s := a + [sep] + b;
    if |a| == 0 {
      assert s[1..] == b;
    } else {
      assert s[1..] == a[1..] + [sep] + b;
      SplitAtSep(a[1..], b, sep);
    }
  }

  lemma JoinCons(fields: seq<string>, sep: char)
    requires |fields| >= 2
    ensures Join(fields, sep) == fields[0] + [sep] + Join(fields[1..], sep)
  {
    var rest := fields[1..];
    var p := Prefixed(rest[1..], sep);
    assert Prefixed(rest, sep) == [sep] + rest[0] + p by {
      assert rest == [rest[0]] + rest[1..];
      PrefixedCons(rest[0], rest[1..], sep);
    }
    assert Join(rest, sep) == rest[0] + p;
    assert Join(fields, sep) == fields[0] + ([sep] + rest[0] + p);
  }

  /** Split undoes Join when no field holds the separator. */
  lemma {:induction false} SplitJoin(fields: seq<string>, sep: char)
    requires |fields| > 0
    requires forall i :: 0 <= i < |fields| ==> sep !in fields[i]
    ensures Split(Join(fields, sep), sep) == fields
  {
    if |fields| == 1 {
      SplitJoinOne(fields, sep);
    } else {
      SplitJoin(fields[1..], sep);
      SplitJoinStep(fields, sep);
    }
  }

  lemma SplitJoinOne(fields: seq<string>, sep: char)
    requires |fields| == 1 && sep !in fields[0]
    ensures Split(Join(fields, sep), sep) == fields
  {
    SplitNoSep(fields[0], sep);
    assert Join(fields, sep) == fields[0] + Prefixed([], sep) == fields[0];
    assert fields == [fields[0]];
  }

  lemma SplitJoinStep(fields: seq<string>, sep: char)
    requires |fields| >= 2 && sep !in fields[0]
    requires Split(Join(fields[1..], sep), sep) == fields[1..]
    ensures Split(Join(fields, sep), sep) == fields
  {
    var first := fields[0];
    var tail := Join(fields[1..], sep);
    SplitNoSep(first, sep);
    JoinCons(fields, sep);
    SplitAtSep(first, tail, sep);
    assert fields == [first] + fields[1..];
  }

  lemma {:induction false} SplitNoSep(s: string, sep: char)
    requires sep !in s
    ensures Split(s, sep) == [s]
  {
    if |s| > 0 {
      assert s == [s[0]] + s[1..];
      SplitNoSep(s[1..], sep);
    }
  }

  /** Join undoes Split: cutting a text at a separator loses nothing. */
  lemma {:induction false} JoinSplit(s: string, sep: char)
    ensures Join(Split(s, sep), sep) == s
  {
    if |s| > 0 {
      var rest := Split(s[1..], sep);
      JoinSplit(s[1..], sep);
      assert rest == [rest[0]] + rest[1..];
      PrefixedCons(rest[0], rest[1..], sep);
      assert s == [s[0]] + s[1..];
    }
  }

  /** The rendered table is its lines joined by '\n', with a final '\n'. */
  lemma {:induction false} RenderAsJoin(rows: seq<seq<string>>)
    requires |rows| > 0
    ensures Render(rows) == Join(seq(|rows|, i requires 0 <= i < |rows| => Join(rows[i], ',')), '\n') + "\n"
  {
    var lines := seq(|rows|, i requires 0 <= i < |rows| => Join(rows[i], ','));
    if |rows| > 1 {
      var init := rows[..|rows| - 1];
      var initLines := seq(|init|, i requires 0 <= i < |init| => Join(init[i], ','));
      RenderAsJoin(init);
      assert lines == initLines + [Join(rows[|rows| - 1], ',')];
      JoinSnoc(initLines, Join(rows[|rows| - 1], ','), '\n');
    }
  }

  /** Reading a rendered table gives back the table, provided every row has a
      field and no field holds a ',' or a '\n'. */
  lemma ParseRender(rows: seq<seq<string>>)
    requires |rows| > 0
    requires forall i :: 0 <= i < |rows| ==> |rows[i]| > 0
    requires forall i, j :: 0 <= i < |rows| && 0 <= j < |rows[i]| ==> ',' !in rows[i][j] && '\n' !in rows[i][j]
    ensures Parse(Render(rows)) == rows
  {
    var lines := seq(|rows|, i requires 0 <= i < |rows| => Join(rows[i], ','));
    forall i | 0 <= i < |rows|
      ensures '\n' !in lines[i] && Split(lines[i], ',') == rows[i]
    {
      JoinFree(rows[i], ',', '\n');
      SplitJoin(rows[i], ',');
    }
    RenderAsJoin(rows);
    SplitAtSep(Join(lines, '\n'), "", '\n');
    assert Join(lines, '\n') + [ '\n' ] + "" == Render(rows);
    SplitJoin(lines, '\n');
    assert Split(Render(rows), '\n') == lines + [""];
  }
}
