/**
 * The save-string parsers of `MazeGame` (GameFiles/MazeGame.py): `parse_position`,
 * `str_to_class`, `parse_list` and `parse_dict` read back what Python's `str()`
 * writes for a position, a `MazeCell`, the grid and the traps dictionary.
 * Each parser returns `Err` with the exception the Python code raises instead.
 */
module SaveParsing {
  import opened Wrappers
  import opened PyStr
  import opened MazeCells

  const Parens: set<char> := {'(', ')'}
  const Angles: set<char> := {'<', '>'}
  const Brackets: set<char> := {'[', ']'}
  const Braces: set<char> := {'{', '}'}

  // ---------------------------------------------------------------- loops that may raise

  /** `Ok(acc + t)` for `Ok(t)`; an error passes through. */
  function Prefixed<T>(acc: seq<T>, r: Result<seq<T>>): Result<seq<T>>
  {
    match r
    case Ok(t) => Ok(acc + t)
    case Err(e) => Err(e)
  }

  /** A Python loop that converts each item in turn and raises on the first item that
      fails: either every item converts, or the error is the first failing item's. */
  function Traverse<A, B>(f: A -> Result<B>, xs: seq<A>): (r: Result<seq<B>>)
    ensures r.Ok? <==> forall i :: 0 <= i < |xs| ==> f(xs[i]).Ok?
    ensures r.Ok? ==> |r.value| == |xs| && forall i :: 0 <= i < |xs| ==> r.value[i] == f(xs[i]).value
    ensures r.Err? ==> exists i :: 0 <= i < |xs| && f(xs[i]) == Err(r.error) && forall j :: 0 <= j < i ==> f(xs[j]).Ok?
  {
    if |xs| == 0 then Ok([])
    else match f(xs[0])
      case Err(e) => Err(e)
      case Ok(y) => Prefixed([y], Traverse(f, xs[1..]))
  }

  // ---------------------------------------------------------------- positions

  /** `str()` of an optional position: `None` or `(x, y)`. */
  function PositionRepr(p: Option<Coord>): string
  {
    match p
    case None => "None"
    case Some(c) => "(" + IntToString(c.0) + ", " + IntToString(c.1) + ")"
  }

  /** `parse_position`: `'None'` is `None`; otherwise the string without surrounding
      parentheses must split on `','` into exactly two integers. Every failure
      (too few or too many pieces, a piece `int()` rejects) is a `ValueError`. */
  function ParsePosition(s: string): (r: Result<Option<Coord>>)
    ensures r.Err? ==> r.error == ValueError
    ensures r == Ok(None) <==> s == "None"
  {
    if s == "None" then Ok(None)
    else
      var parts := Split(Strip(s, Parens), ",");
      if |parts| != 2 then Err(ValueError)
      else match (ParseInt(parts[0]), ParseInt(parts[1]))
        case (Some(x), Some(y)) => Ok(Some((x, y)))
        case _ => Err(ValueError)
  }

  /** `parse_position` reads back every position `str()` writes. */
  lemma ParsePositionRepr(p: Option<Coord>)
    ensures ParsePosition(PositionRepr(p)) == Ok(p)
  {
    if p.Some? {
      var s := PositionRepr(p);
      assert s != "None" by {
        assert s[0] != "None"[0];
      }
      var parts := PositionParts(p.value.0, p.value.1, s);
      ParseIntToString(p.value.0);
      ParseIntSpaced(p.value.1);
    }
  }

  /** The pieces `parse_position` splits `str((a, b))` into. */
  lemma PositionParts(a: int, b: int, s: string) returns (parts: seq<string>)
    requires s == PositionRepr(Some((a, b)))
    ensures parts == Split(Strip(s, Parens), ",")
    ensures parts == [IntToString(a), " " + IntToString(b)]
  {
    NoSignInDecimal(a, ',');
    NoSignInDecimal(b, ',');
    parts := PairParts(IntToString(a), IntToString(b), s);
  }

  lemma PairParts(x: string, y: string, s: string) returns (parts: seq<string>)
    requires |x| > 0 && x[0] !in Parens && |y| > 0 && y[|y| - 1] !in Parens
    requires ',' !in x && ',' !in y
    requires s == "(" + x + ", " + y + ")"
    ensures parts == Split(Strip(s, Parens), ",") && parts == [x, " " + y]
  {
    var body := x + ", " + y;
    parts := [x, " " + y];
    assert s == "(" + body + ")";
    StripWrapped("(", body, ")", Parens);
    PairJoin(x, y);
    SepFreeSingle(parts, ',');
    SplitJoin(parts, ",");
  }

  lemma PairJoin(x: string, y: string)
    ensures Join([x, " " + y], ",") == x + ", " + y
  {
    assert [x, " " + y][1..] == [" " + y];
  }

  // ---------------------------------------------------------------- cells

  /** `str_to_class`: strip `<`/`>` and split on `'='`. `['']` and `['None']` give
      `None`; otherwise the x and y values are the integers before the first `','`
      of the second and third pieces, and the fourth piece is the type. A missing
      piece is an `IndexError`, a bad integer a `ValueError`, checked in that order. */
  function StrToClass(s: string): (r: Result<Option<Cell>>)
    ensures r.Ok? && r.value.Some? ==> Canonical(r.value.value.kind)
  {
    CellOfData(Split(Strip(s, Angles), "="))
  }

  /** The pieces of `useful_data` turned into a cell, or the error raised on the way. */
  function CellOfData(data: seq<string>): (r: Result<Option<Cell>>)
    ensures r.Ok? && r.value.Some? ==> Canonical(r.value.value.kind)
  {
    if data == [""] || data == ["None"] then Ok(None)
    else if |data| < 2 then Err(IndexError)
    else match LeadingInt(data[1])
      case None => Err(ValueError)
      case Some(x) =>
        if |data| < 3 then Err(IndexError)
        else match LeadingInt(data[2])
          case None => Err(ValueError)
          case Some(y) =>
            if |data| < 4 then Err(IndexError)
            else Ok(Some(Cell((x, y), KindOf(data[3]))))
  }

  /** `int(piece.split(',')[0])`. */
  function LeadingInt(piece: string): Option<int>
  {
    ParseInt(Split(piece, ",")[0])
  }

  /** `str_to_class` gives `None` exactly when the string, stripped of `<` and `>`,
      is empty or `None`. */
  lemma StrToClassNone(s: string)
    ensures StrToClass(s) == Ok(None) <==> Strip(s, Angles) in {"", "None"}
  {
    SplitNone(Strip(s, Angles));
  }

  lemma SplitNone(t: string)
    ensures CellOfData(Split(t, "=")) == Ok(None) <==> t == "" || t == "None"
  {
    var data := Split(t, "=");
    CellOfDataNone(data);
    if |data| == 1 {
      SplitAlone(t, "=");
    }
    if t == "" || t == "None" {
      NoneSplitsAlone(t);
    }
  }

  lemma NoneSplitsAlone(t: string)
    requires t == "" || t == "None"
    ensures Split(t, "=") == [t]
  {
    SepFreeByFirstChar(t, "=");
    SplitJoin([t], "=");
  }

  lemma CellOfDataNone(data: seq<string>)
    ensures CellOfData(data) == Ok(None) <==> data == [""] || data == ["None"]
  {
  }

  /** A type name `__repr__` writes and `str_to_class` reads back unchanged: no `'='`
      (the split would cut it), no `'<'` or `'>'` (the strip and the row split would
      eat them) and no `'['` (the grid split would cut it). */
  predicate SafeName(name: string)
  {
    '=' !in name && '<' !in name && '>' !in name && '[' !in name
  }

  /** `__repr__` without its angle brackets. */
  function ReprBody(c: Cell): string
  {
    "x=" + IntToString(c.coord.0) + ", y=" + IntToString(c.coord.1) + ", type=" + TypeName(c.kind)
  }

  lemma ReprIsWrappedBody(c: Cell)
    ensures Repr(c) == "<" + ReprBody(c) + ">"
  {
  }

  /** `str_to_class` inverts `__repr__` for a canonical type with a safe name, also when
      the leading `<` has been consumed by the row split. */
  lemma StrToClassBody(c: Cell, pre: string)
    requires Canonical(c.kind) && SafeName(TypeName(c.kind))
    requires pre == "" || pre == "<"
    ensures StrToClass(pre + ReprBody(c) + ">") == Ok(Some(c))
  {
    var data := CellParts(c, pre);
    CellOfParts(c.coord.0, c.coord.1, TypeName(c.kind));
    KindOfTypeName(c.kind);
  }

  /** The cell `str_to_class` builds from the pieces of a `__repr__`. */
  lemma CellOfParts(x: int, y: int, n: string)
    ensures CellOfData(["x", IntToString(x) + ", y", IntToString(y) + ", type", n]) == Ok(Some(Cell((x, y), KindOf(n))))
  {
    var d1, d2 := IntToString(x) + ", y", IntToString(y) + ", type";
    LeadingIntOf(x, ", y");
    LeadingIntOf(y, ", type");
    CellOfFour("x", d1, d2, n, x, y);
  }

  /** Four pieces whose second and third lead with integers make a cell. */
  lemma CellOfFour(d0: string, d1: string, d2: string, n: string, x: int, y: int)
    requires LeadingInt(d1) == Some(x) && LeadingInt(d2) == Some(y)
    ensures CellOfData([d0, d1, d2, n]) == Ok(Some(Cell((x, y), KindOf(n))))
  {
    var data := [d0, d1, d2, n];
    assert data[1] == d1 && data[2] == d2 && data[3] == n;
    assert |data| == 4 && data != [""] && data != ["None"];
  }

  /** The integer before the first comma of `str(n) + tail`, when `tail` starts with one. */
  lemma LeadingIntOf(n: int, tail: string)
    requires |tail| > 0 && tail[0] == ','
    ensures LeadingInt(IntToString(n) + tail) == Some(n)
  {
    var d := IntToString(n);
    NoSignInDecimal(n, ',');
    SplitFirst(d, ',', tail[1..]);
    assert d + tail == d + [','] + tail[1..];
    ParseIntToString(n);
  }

  /** The pieces `str_to_class` splits a cell's `__repr__` into. */
  lemma CellParts(c: Cell, pre: string) returns (data: seq<string>)
    requires SafeName(TypeName(c.kind))
    requires pre == "" || pre == "<"
    ensures data == Split(Strip(pre + ReprBody(c) + ">", Angles), "=")
    ensures data == ["x", IntToString(c.coord.0) + ", y", IntToString(c.coord.1) + ", type", TypeName(c.kind)]
  {
    var x, y := IntToString(c.coord.0), IntToString(c.coord.1);
    assert '=' !in x && '=' !in y by {
      NoSignInDecimal(c.coord.0, '=');
      NoSignInDecimal(c.coord.1, '=');
    }
    data := BodyParts(x, y, TypeName(c.kind), pre);
  }

  /** Decimal strings hold only digits and `-`. */
  lemma NoSignInDecimal(n: int, ch: char)
    requires ch != '-' && !IsDigit(ch)
    ensures ch !in IntToString(n)
  {
  }

  lemma BodyParts(x: string, y: string, n: string, pre: string) returns (data: seq<string>)
    requires '=' !in x && '=' !in y && '=' !in n && '<' !in n && '>' !in n
    requires pre == "" || pre == "<"
    ensures data == Split(Strip(pre + ("x=" + x + ", y=" + y + ", type=" + n) + ">", Angles), "=")
    ensures data == ["x", x + ", y", y + ", type", n]
  {
    data := ["x", x + ", y", y + ", type", n];
    StripBody(x, y, n, pre);
    ReprBodyJoin(x, y, n);
    BodyPartsSepFree(x, y, n);
    SplitJoin(data, "=");
  }

  /** `strip('<>')` removes exactly the brackets `__repr__` adds. */
  lemma StripBody(x: string, y: string, n: string, pre: string)
    requires '<' !in n && '>' !in n
    requires pre == "" || pre == "<"
    ensures Strip(pre + ("x=" + x + ", y=" + y + ", type=" + n) + ">", Angles) == "x=" + x + ", y=" + y + ", type=" + n
  {
    var body := "x=" + x + ", y=" + y + ", type=" + n;
    assert body[0] == 'x';
    if n == "" {
      assert body[|body| - 1] == '=';
    } else {
      assert body[|body| - 1] == n[|n| - 1];
    }
    StripWrapped(pre, body, ">", Angles);
  }

  lemma BodyPartsSepFree(x: string, y: string, n: string)
    requires '=' !in x && '=' !in y && '=' !in n
    ensures var data := ["x", x + ", y", y + ", type", n];
      forall k :: 0 <= k < |data| ==> SepFree(data[k], "=")
  {
    var data := ["x", x + ", y", y + ", type", n];
    forall k | 0 <= k < |data| ensures SepFree(data[k], "=") {
      SepFreeByFirstChar(data[k], "=");
    }
  }

  /** The `=`-separated pieces of a `__repr__` body. */
  lemma ReprBodyJoin(x: string, y: string, n: string)
    ensures Join(["x", x + ", y", y + ", type", n], "=") == "x=" + x + ", y=" + y + ", type=" + n
  {
    var data := ["x", x + ", y", y + ", type", n];
    var d1, d2, d3 := data[1..], data[1..][1..], data[1..][1..][1..];
    assert d3 == [n];
    assert d2 == [y + ", type", n];
    assert d1 == [x + ", y", y + ", type", n];
    assert Join(d2, "=") == y + ", type" + "=" + n;
    assert Join(d1, "=") == x + ", y" + "=" + Join(d2, "=");
    assert Join(data, "=") == "x" + "=" + Join(d1, "=");
    assert "x=" == "x" + "=";
    assert ", y=" == ", y" + "=";
    assert ", type=" == ", type" + "=";
  }

  /** `str_to_class(repr(cell))` is the cell again. */
  lemma StrToClassRepr(c: Cell)
    requires Canonical(c.kind) && SafeName(TypeName(c.kind))
    ensures StrToClass(Repr(c)) == Ok(Some(c))
  {
    ReprIsWrappedBody(c);
    StrToClassBody(c, "<");
  }

  // ---------------------------------------------------------------- the grid

  /** The cells of one row of `parse_list`: the row without brackets, split on `', <'`,
      each piece through `str_to_class`. */
  function RowValue(row: string): Result<seq<Option<Cell>>>
  {
    Traverse(StrToClass, Split(Strip(row, Brackets), ", <"))
  }

  /** What `parse_list` returns or raises: `'None'` is `None`, `'[]'` the empty list;
      otherwise the string without outer brackets is split into rows on `'], ['`. */
  function ListValue(s: string): Result<Option<seq<seq<Option<Cell>>>>>
  {
    if s == "None" then Ok(None)
    else if s == "[]" then Ok(Some([]))
    else match Traverse(RowValue, Split(Strip(s, Brackets), "], ["))
      case Ok(g) => Ok(Some(g))
      case Err(e) => Err(e)
  }

  /** The step of a loop that has converted one more item. */
  lemma TraverseStep<A, B>(f: A -> Result<B>, xs: seq<A>, i: nat, acc: seq<B>, y: B)
    requires i < |xs| && f(xs[i]) == Ok(y)
    ensures Prefixed(acc, Traverse(f, xs[i..])) == Prefixed(acc + [y], Traverse(f, xs[i + 1..]))
  {
    assert xs[i..][0] == xs[i];
    assert xs[i..][1..] == xs[i + 1..];
    var rest := Traverse(f, xs[i + 1..]);
    assert Traverse(f, xs[i..]) == Prefixed([y], rest);
    if rest.Ok? {
      assert acc + ([y] + rest.value) == (acc + [y]) + rest.value;
    }
  }

  lemma PrefixedNothing<T>(r: Result<seq<T>>)
    ensures Prefixed([], r) == r
  {
    if r.Ok? {
      assert [] + r.value == r.value;
    }
  }

  /** The step of a loop whose next item raises. */
  lemma TraverseStop<A, B>(f: A -> Result<B>, xs: seq<A>, i: nat, acc: seq<B>)
    requires i < |xs| && f(xs[i]).Err?
    ensures Prefixed(acc, Traverse(f, xs[i..])) == Err(f(xs[i]).error)
  {
    assert xs[i..][0] == xs[i];
  }

  /** `parse_list`: the nested loops append each converted cell to its row and each row
      to the list; the first cell `str_to_class` cannot convert raises out of both. */
  method ParseList(listStr: string) returns (r: Result<Option<seq<seq<Option<Cell>>>>>)
    ensures r == ListValue(listStr)
  {
    if listStr == "None" {
      return Ok(None);
    } else if listStr == "[]" {
      return Ok(Some([]));
    }
    var rows := Split(Strip(listStr, Brackets), "], [");
    var newList: seq<seq<Option<Cell>>> := [];
    var i := 0;
    assert rows[0..] == rows;
    PrefixedNothing(Traverse(RowValue, rows));
    while i < |rows|
      invariant 0 <= i <= |rows|
      invariant Traverse(RowValue, rows) == Prefixed(newList, Traverse(RowValue, rows[i..]))
    {
      var row := ParseRow(rows[i]);
      if row.Err? {
        TraverseStop(RowValue, rows, i, newList);
        return Err(row.error);
      }
      var newRow := row.value;
      TraverseStep(RowValue, rows, i, newList, newRow);
      newList := newList + [newRow];
      i := i + 1;
    }
    assert rows[i..] == [] && newList + [] == newList;
    return Ok(Some(newList));
  }

  /** The inner loop of `parse_list`: each cell of one row converted by `str_to_class`
      and appended, or the first error it raises. */
  method ParseRow(rowStr: string) returns (r: Result<seq<Option<Cell>>>)
    ensures r == RowValue(rowStr)
  {
    var cells := Split(Strip(rowStr, Brackets), ", <");
    var newRow: seq<Option<Cell>> := [];
    var j := 0;
    assert cells[0..] == cells;
    PrefixedNothing(Traverse(StrToClass, cells));
    while j < |cells|
      invariant 0 <= j <= |cells|
      invariant RowValue(rowStr) == Prefixed(newRow, Traverse(StrToClass, cells[j..]))
    {
      var cell := StrToClass(cells[j]);
      if cell.Err? {
        TraverseStop(StrToClass, cells, j, newRow);
        return Err(cell.error);
      }
      TraverseStep(StrToClass, cells, j, newRow, cell.value);
      newRow := newRow + [cell.value];
      j := j + 1;
    }
    assert cells[j..] == [] && newRow + [] == newRow;
    return Ok(newRow);
  }

  /** `str()` of a list whose items print as `items`: `[a, b, c]`. */
  function ListRepr(items: seq<string>): string
  {
    "[" + Join(items, ", ") + "]"
  }

  /** The `__repr__` of each cell of a row. */
  function CellReprs(row: seq<Cell>): (r: seq<string>)
    ensures |r| == |row| && forall j :: 0 <= j < |row| ==> r[j] == Repr(row[j])
  {
    seq(|row|, j requires 0 <= j < |row| => Repr(row[j]))
  }

  /** `str()` of the grid, as `save_game` writes it: a list of rows, each a list of cells. */
  function GridRepr(g: seq<seq<Cell>>): string
  {
    ListRepr(seq(|g|, i requires 0 <= i < |g| => ListRepr(CellReprs(g[i]))))
  }

  /** A cell whose `__repr__` reads back: a canonical type with a safe name. */
  predicate Saveable(c: Cell)
  {
    Canonical(c.kind) && SafeName(TypeName(c.kind))
  }

  /** The grid as `parse_list` returns it: every cell wrapped, as `str_to_class` returns it. */
  function Loaded(g: seq<seq<Cell>>): (r: seq<seq<Option<Cell>>>)
    ensures |r| == |g| && forall i :: 0 <= i < |g| ==> |r[i]| == |g[i]|
    ensures forall i, j :: 0 <= i < |g| && 0 <= j < |g[i]| ==> r[i][j] == Some(g[i][j])
  {
    seq(|g|, i requires 0 <= i < |g| => seq(|g[i]|, j requires 0 <= j < |g[i]| => Some(g[i][j])))
  }

  /** `parse_list` reads back the grid `str()` writes, when no row is empty and every type
      name is safe. (An empty row does not come back: `[[]]` parses as `[[None]]`.) */
  lemma ParseListRepr(g: seq<seq<Cell>>)
    requires forall i :: 0 <= i < |g| ==> |g[i]| > 0
    requires forall i, j :: 0 <= i < |g| && 0 <= j < |g[i]| ==> Saveable(g[i][j])
    ensures ListValue(GridRepr(g)) == Ok(Some(Loaded(g)))
  {
    if |g| == 0 {
      assert GridRepr(g) == "[]";
    } else {
      var bodies := RowBodies(g);
      var rows := GridRows(bodies, GridRepr(g));
      TraverseAllOk(RowValue, bodies, Loaded(g));
    }
  }

  /** The rows of a grid's `str()` between the row brackets, each of which reads back
      as its row. */
  lemma RowBodies(g: seq<seq<Cell>>) returns (bodies: seq<string>)
    requires forall i :: 0 <= i < |g| ==> |g[i]| > 0
    requires forall i, j :: 0 <= i < |g| && 0 <= j < |g[i]| ==> Saveable(g[i][j])
    ensures |bodies| == |g|
    ensures forall i :: 0 <= i < |bodies| ==>
      |bodies[i]| > 0 && bodies[i][0] == '<' && bodies[i][|bodies[i]| - 1] == '>' && '[' !in bodies[i]
    ensures forall i :: 0 <= i < |bodies| ==> RowValue(bodies[i]) == Ok(Loaded(g)[i])
    ensures GridRepr(g) == "[" + Join(Affixed(bodies, "[", "]"), ", ") + "]"
  {
    bodies := seq(|g|, i requires 0 <= i < |g| => Join(CellReprs(g[i]), ", "));
    RowBodiesRead(g, bodies);
    GridReprAffixed(g, bodies);
  }

  lemma RowBodiesRead(g: seq<seq<Cell>>, bodies: seq<string>)
    requires forall i :: 0 <= i < |g| ==> |g[i]| > 0
    requires forall i, j :: 0 <= i < |g| && 0 <= j < |g[i]| ==> Saveable(g[i][j])
    requires |bodies| == |g| && forall i :: 0 <= i < |g| ==> bodies[i] == Join(CellReprs(g[i]), ", ")
    ensures forall i :: 0 <= i < |bodies| ==>
      |bodies[i]| > 0 && bodies[i][0] == '<' && bodies[i][|bodies[i]| - 1] == '>' && '[' !in bodies[i]
    ensures forall i :: 0 <= i < |bodies| ==> RowValue(bodies[i]) == Ok(Loaded(g)[i])
  {
    var loaded := Loaded(g);
    forall i | 0 <= i < |g|
      ensures |bodies[i]| > 0 && bodies[i][0] == '<' && bodies[i][|bodies[i]| - 1] == '>'
      ensures '[' !in bodies[i]
      ensures RowValue(bodies[i]) == Ok(loaded[i])
    {
      RowBodyShape(g[i]);
      RowBodyValue(g[i]);
      assert loaded[i] == seq(|g[i]|, k requires 0 <= k < |g[i]| => Some(g[i][k]));
    }
  }

  lemma GridReprAffixed(g: seq<seq<Cell>>, bodies: seq<string>)
    requires |bodies| == |g| && forall i :: 0 <= i < |g| ==> bodies[i] == Join(CellReprs(g[i]), ", ")
    ensures GridRepr(g) == "[" + Join(Affixed(bodies, "[", "]"), ", ") + "]"
  {
    assert seq(|g|, i requires 0 <= i < |g| => ListRepr(CellReprs(g[i]))) == Affixed(bodies, "[", "]");
  }

  /** A loop whose every item converts returns the converted items. */
  lemma TraverseAllOk<A, B>(f: A -> Result<B>, xs: seq<A>, ys: seq<B>)
    requires |xs| == |ys| && forall i :: 0 <= i < |xs| ==> f(xs[i]) == Ok(ys[i])
    ensures Traverse(f, xs) == Ok(ys)
  {
    var t := Traverse(f, xs);
    assert t.Ok?;
    assert t.value == ys;
  }

  /** The rows `parse_list` splits the `str()` of a non-empty grid into are the rows' bodies. */
  lemma GridRows(bodies: seq<string>, s: string) returns (rows: seq<string>)
    requires |bodies| > 0
    requires forall i :: 0 <= i < |bodies| ==>
      |bodies[i]| > 0 && bodies[i][0] == '<' && bodies[i][|bodies[i]| - 1] == '>' && '[' !in bodies[i]
    requires s == "[" + Join(Affixed(bodies, "[", "]"), ", ") + "]"
    ensures s != "None" && s != "[]"
    ensures rows == Split(Strip(s, Brackets), "], [") && rows == bodies
  {
    var j := Join(bodies, "], [");
    GridJoin(bodies);
    Rewrap(j, s);
    assert s[0] == '[' && s[1] == '[';
    JoinEnds(bodies, "], [");
    StripWrapped("[[", j, "]]", Brackets);
    forall i | 0 <= i < |bodies| ensures SepFree(bodies[i], "], [") {
      GridSepFree(bodies[i]);
    }
    SplitJoin(bodies, "], [");
    rows := bodies;
  }

  lemma GridJoin(bodies: seq<string>)
    requires |bodies| > 0
    ensures Join(Affixed(bodies, "[", "]"), ", ") == "[" + Join(bodies, "], [") + "]"
  {
    assert "]" + ", " + "[" == "], [";
    JoinAffixed(bodies, "[", "]", ", ");
  }

  lemma Rewrap(j: string, s: string)
    requires s == "[" + ("[" + j + "]") + "]"
    ensures s == "[[" + j + "]]"
  {
  }

  lemma GridSepFree(p: string)
    requires '[' !in p
    ensures SepFree(p, "], [")
  {
    SepFreeByLastChar(p, "], [");
  }

  /** A row's body (its `str()` without brackets) starts with `<`, ends with `>` and has no `[`. */
  lemma RowBodyShape(row: seq<Cell>)
    requires |row| > 0 && forall k :: 0 <= k < |row| ==> Saveable(row[k])
    ensures var b := Join(CellReprs(row), ", ");
      |b| > 0 && b[0] == '<' && b[|b| - 1] == '>' && '[' !in b
  {
    var reprs := CellReprs(row);
    forall k | 0 <= k < |row| ensures '[' !in reprs[k] {
      ReprAvoids(row[k], '[');
    }
    JoinAvoids(reprs, ", ", '[');
    ReprIsWrappedBody(row[0]);
    ReprIsWrappedBody(row[|row| - 1]);
    JoinEnds(reprs, ", ");
  }

  /** `parse_list` reads a row's cells back from the row's body. */
  lemma RowBodyValue(row: seq<Cell>)
    requires |row| > 0 && forall k :: 0 <= k < |row| ==> Saveable(row[k])
    ensures RowValue(Join(CellReprs(row), ", ")) == Ok(seq(|row|, k requires 0 <= k < |row| => Some(row[k])))
  {
    var inners, pieces := RowPieces(row);
    PiecesToCells(row, inners, pieces);
  }

  /** The pieces `parse_list` splits one row's body into: the cells' `__repr__`s, the
      first with its `<` and the others without, which the split on `', <'` consumed. */
  lemma RowPieces(row: seq<Cell>) returns (inners: seq<string>, pieces: seq<string>)
    requires |row| > 0 && forall k :: 0 <= k < |row| ==> Saveable(row[k])
    ensures |inners| == |row| && forall k :: 0 <= k < |row| ==> inners[k] == ReprBody(row[k]) + ">"
    ensures |pieces| == |inners| && pieces[0] == "<" + inners[0]
    ensures forall k :: 1 <= k < |pieces| ==> pieces[k] == inners[k]
    ensures Split(Strip(Join(CellReprs(row), ", "), Brackets), ", <") == pieces
  {
    var b := Join(CellReprs(row), ", ");
    RowBodyShape(row);
    StripClean(b, Brackets);
    inners := Inners(row);
    assert "<" == ['<'] && ", <" == ", " + ['<'];
    pieces := OpenerPieces(inners, b, '<');
  }

  /** Each cell's `__repr__` without its leading `<`. */
  function Inners(row: seq<Cell>): (r: seq<string>)
    requires forall k :: 0 <= k < |row| ==> Saveable(row[k])
    ensures |r| == |row| && CellReprs(row) == Affixed(r, "<", "")
    ensures forall k :: 0 <= k < |row| ==> r[k] == ReprBody(row[k]) + ">" && '<' !in r[k]
  {
    var r := seq(|row|, k requires 0 <= k < |row| => ReprBody(row[k]) + ">");
    assert forall k :: 0 <= k < |row| ==> CellReprs(row)[k] == "<" + r[k] + "" && '<' !in r[k] by {
      forall k | 0 <= k < |row| ensures CellReprs(row)[k] == "<" + r[k] + "" && '<' !in r[k] {
        ReprAsAffixed(row[k]);
        ReprAvoids(row[k], '<');
      }
    }
    r
  }

  lemma PiecesToCells(row: seq<Cell>, inners: seq<string>, pieces: seq<string>)
    requires |row| > 0 && forall k :: 0 <= k < |row| ==> Saveable(row[k])
    requires |inners| == |row| && forall k :: 0 <= k < |row| ==> inners[k] == ReprBody(row[k]) + ">"
    requires |pieces| == |inners| && pieces[0] == "<" + inners[0]
    requires forall k :: 1 <= k < |pieces| ==> pieces[k] == inners[k]
    ensures Traverse(StrToClass, pieces) == Ok(seq(|row|, k requires 0 <= k < |row| => Some(row[k])))
  {
    var cells := seq(|row|, k requires 0 <= k < |row| => Some(row[k]));
    forall k | 0 <= k < |pieces| ensures StrToClass(pieces[k]) == Ok(cells[k]) {
      if k == 0 {
        PieceToCell(row[0], pieces[0], "<");
      } else {
        PieceToCell(row[k], pieces[k], "");
      }
    }
    TraverseAllOk(StrToClass, pieces, cells);
  }

  lemma ReprAsAffixed(c: Cell)
    ensures Repr(c) == "<" + (ReprBody(c) + ">") + ""
  {
    ReprIsWrappedBody(c);
  }

  /** A piece of a row split, with or without its leading `<`, reads back as its cell. */
  lemma PieceToCell(c: Cell, piece: string, pre: string)
    requires Saveable(c) && (pre == "" || pre == "<")
    requires piece == pre + (ReprBody(c) + ">")
    ensures StrToClass(piece) == Ok(Some(c))
  {
    assert piece == pre + ReprBody(c) + ">";
    StrToClassBody(c, pre);
  }

  /** Splitting `<a>, <b>, <c>` on `', <'` leaves `<a>`, `b>`, `c>`: the first item keeps its
      opening character. The same holds for `(` and the traps dictionary's `', ('`. */
  lemma OpenerPieces(inners: seq<string>, b: string, open: char) returns (pieces: seq<string>)
    requires open != ',' && open != ' '
    requires |inners| > 0 && forall k :: 0 <= k < |inners| ==> open !in inners[k]
    requires b == Join(Affixed(inners, [open], ""), ", ")
    ensures pieces == Split(b, ", " + [open])
    ensures |pieces| == |inners| && pieces[0] == [open] + inners[0]
    ensures forall k :: 1 <= k < |pieces| ==> pieces[k] == inners[k]
  {
    var sep := ", " + [open];
    pieces := [[open] + inners[0]] + inners[1..];
    OpenerJoin(inners, open);
    forall k | 0 <= k < |pieces| ensures SepFree(pieces[k], sep) {
      OpenerSepFree(pieces[k], k == 0, open);
    }
    SplitJoin(pieces, sep);
  }

  lemma OpenerJoin(inners: seq<string>, open: char)
    requires |inners| > 0
    ensures Join(Affixed(inners, [open], ""), ", ") == Join([[open] + inners[0]] + inners[1..], ", " + [open])
  {
    assert "" + ", " + [open] == ", " + [open];
    JoinAffixed(inners, [open], "", ", ");
    JoinHeadPrefix([open], inners, ", " + [open]);
    var j := Join(inners, ", " + [open]);
    assert [open] + j + "" == [open] + j;
  }

  lemma OpenerSepFree(p: string, first: bool, open: char)
    requires open != ',' && open != ' '
    requires if first then |p| > 0 && p[0] == open && open !in p[1..] else open !in p
    ensures SepFree(p, ", " + [open])
  {
    if first {
      forall i | 2 <= i < |p| ensures p[i] != open {
        assert p[i] == p[1..][i - 1];
      }
    }
    SepFreeByLastChar(p, ", " + [open]);
  }

  /** A cell's `__repr__` has `<` only at its start and no `[` when its type name has neither. */
  lemma ReprAvoids(c: Cell, ch: char)
    requires ch == '<' || ch == '['
    requires Saveable(c)
    ensures ch !in ReprBody(c) + ">"
    ensures ch == '[' ==> ch !in Repr(c)
  {
    ReprBodyAvoids(c, ch);
    ReprIsWrappedBody(c);
  }

  /** The characters `<` and `[` occur in a cell's `__repr__` body only through its type name. */
  lemma ReprBodyAvoids(c: Cell, ch: char)
    requires ch == '<' || ch == '['
    requires ch !in TypeName(c.kind)
    ensures ch !in ReprBody(c)
  {
    NoSignInDecimal(c.coord.0, ch);
    NoSignInDecimal(c.coord.1, ch);
  }

  // ---------------------------------------------------------------- the traps dictionary

  /** The value of a traps entry, the list `[activated, type]`. */
  datatype TrapInfo = TrapInfo(activated: bool, trapType: int)

  const Quote: set<char> := {'\''}

  /** One entry of `parse_dict`, `'(a, b): [flag, n]'`, or the error it raises. The value
      `[flag != 'False', int(n)]` is evaluated before the key `(int(a), int(b))`, and each
      left to right, which fixes which error a malformed entry raises. */
  function EntryValue(row: string): Result<(Coord, TrapInfo)>
  {
    var keyVal := Split(Strip(row, Quote), ": ");
    if |keyVal| < 2 then Err(IndexError)
    else EntryOf(Split(Strip(keyVal[1], Brackets), ","), Split(Strip(keyVal[0], Parens), ", "))
  }

  /** The key and value built from the value's pieces `val` and the key's pieces `coord`. */
  function EntryOf(val: seq<string>, coord: seq<string>): Result<(Coord, TrapInfo)>
    requires |val| >= 1 && |coord| >= 1
  {
    if |val| < 2 then Err(IndexError)
    else match ParseInt(val[1])
      case None => Err(ValueError)
      case Some(n) =>
        match ParseInt(coord[0])
        case None => Err(ValueError)
        case Some(x) =>
          if |coord| < 2 then Err(IndexError)
          else match ParseInt(coord[1])
            case None => Err(ValueError)
            case Some(y) => Ok(((x, y), TrapInfo(val[0] != "False", n)))
  }

  /** Entry `i` is the last one with its key. */
  predicate LastWithKey(es: seq<(Coord, TrapInfo)>, i: int)
    requires 0 <= i < |es|
  {
    forall j :: i < j < |es| ==> es[j].0 != es[i].0
  }

  /** The dictionary that assigning the entries in order builds. */
  function MapOf(es: seq<(Coord, TrapInfo)>): map<Coord, TrapInfo>
  {
    if |es| == 0 then map[]
    else MapOf(es[..|es| - 1])[es[|es| - 1].0 := es[|es| - 1].1]
  }

  lemma MapOfAppend(es: seq<(Coord, TrapInfo)>, e: (Coord, TrapInfo))
    ensures MapOf(es + [e]) == MapOf(es)[e.0 := e.1]
  {
    assert (es + [e])[..|es|] == es;
  }

  /** The keys of `MapOf(es)` are exactly the entries' keys. */
  lemma {:induction false} MapOfKeys(es: seq<(Coord, TrapInfo)>)
    ensures forall k :: k in MapOf(es) <==> exists i :: 0 <= i < |es| && es[i].0 == k
  {
    if |es| > 0 {
      var init := es[..|es| - 1];
      var last := es[|es| - 1];
      MapOfKeys(init);
      assert MapOf(es) == MapOf(init)[last.0 := last.1];
      forall k | k in MapOf(es) ensures exists i :: 0 <= i < |es| && es[i].0 == k {
        if k != last.0 {
          var i :| 0 <= i < |init| && init[i].0 == k;
          assert es[i] == init[i];
        }
      }
      forall k | exists i :: 0 <= i < |es| && es[i].0 == k ensures k in MapOf(es) {
        var i :| 0 <= i < |es| && es[i].0 == k;
        if i < |es| - 1 {
          assert init[i] == es[i];
        }
      }
    }
  }

  /** A key maps to the value of the last entry with that key. */
  lemma {:induction false} MapOfLast(es: seq<(Coord, TrapInfo)>, i: int)
    requires 0 <= i < |es| && LastWithKey(es, i)
    ensures es[i].0 in MapOf(es) && MapOf(es)[es[i].0] == es[i].1
  {
    var init := es[..|es| - 1];
    var last := es[|es| - 1];
    assert MapOf(es) == MapOf(init)[last.0 := last.1];
    if i < |es| - 1 {
      assert init[i] == es[i];
      assert LastWithKey(init, i);
      MapOfLast(init, i);
    }
  }

  /** What `parse_dict` returns or raises: `'None'` is `None`, `'{}'` the empty
      dictionary; otherwise the string without braces is split into entries on `', ('`. */
  function DictValue(s: string): Result<Option<map<Coord, TrapInfo>>>
  {
    if s == "None" then Ok(None)
    else if s == "{}" then Ok(Some(map[]))
    else match Traverse(EntryValue, Split(Strip(s, Braces), ", ("))
      case Ok(es) => Ok(Some(MapOf(es)))
      case Err(e) => Err(e)
  }

  /** `parse_dict`: the loop assigns each entry into the new dictionary, a later entry
      overwriting an earlier one with the same key; the first malformed entry raises. */
  method ParseDict(listStr: string) returns (r: Result<Option<map<Coord, TrapInfo>>>)
    ensures r == DictValue(listStr)
  {
    if listStr == "None" {
      return Ok(None);
    } else if listStr == "{}" {
      return Ok(Some(map[]));
    }
    var rows := Split(Strip(listStr, Braces), ", (");
    var newDict: map<Coord, TrapInfo> := map[];
    ghost var entries: seq<(Coord, TrapInfo)> := [];
    var i := 0;
    assert rows[0..] == rows;
    PrefixedNothing(Traverse(EntryValue, rows));
    while i < |rows|
      invariant 0 <= i <= |rows|
      invariant Traverse(EntryValue, rows) == Prefixed(entries, Traverse(EntryValue, rows[i..]))
      invariant newDict == MapOf(entries)
    {
      var entry := EntryValue(rows[i]);
      if entry.Err? {
        TraverseStop(EntryValue, rows, i, entries);
        return Err(entry.error);
      }
      var (key, value) := entry.value;
      TraverseStep(EntryValue, rows, i, entries, (key, value));
      MapOfAppend(entries, (key, value));
      newDict := newDict[key := value];
      entries := entries + [(key, value)];
      i := i + 1;
    }
    assert rows[i..] == [] && entries + [] == entries;
    return Ok(Some(newDict));
  }

  /** `str()` of a boolean. */
  function BoolRepr(b: bool): string
  {
    if b then "True" else "False"
  }

  /** `str()` of one traps entry: `(a, b): [flag, n]`. */
  function EntryRepr(e: (Coord, TrapInfo)): string
  {
    PositionRepr(Some(e.0)) + ": " + ListRepr([BoolRepr(e.1.activated), IntToString(e.1.trapType)])
  }

  /** `str()` of each entry, in order. */
  function EntryReprs(es: seq<(Coord, TrapInfo)>): (r: seq<string>)
    ensures |r| == |es| && forall k :: 0 <= k < |es| ==> r[k] == EntryRepr(es[k])
  {
    seq(|es|, i requires 0 <= i < |es| => EntryRepr(es[i]))
  }

  /** `str()` of the traps dictionary, its entries in insertion order. */
  function DictRepr(es: seq<(Coord, TrapInfo)>): string
  {
    "{" + Join(EntryReprs(es), ", ") + "}"
  }

  /** `parse_dict` reads back the dictionary `str()` writes; a key written twice keeps its
      last value, as in the dictionary itself. */
  lemma ParseDictRepr(es: seq<(Coord, TrapInfo)>)
    ensures DictValue(DictRepr(es)) == Ok(Some(MapOf(es)))
  {
    if |es| == 0 {
      assert DictRepr(es) == "{}";
    } else {
      var j := Join(EntryReprs(es), ", ");
      DictBodyShape(es);
      DictStrip(j, DictRepr(es));
      var inners := EntryInners(es);
      assert "(" == ['('] && ", (" == ", " + ['('];
      var pieces := OpenerPieces(inners, j, '(');
      PiecesToEntries(es, inners, pieces);
    }
  }

  /** The body of a non-empty dictionary's `str()` starts with `(` and ends with `]`. */
  lemma DictBodyShape(es: seq<(Coord, TrapInfo)>)
    requires |es| > 0
    ensures var j := Join(EntryReprs(es), ", ");
      |j| > 0 && j[0] == '(' && j[|j| - 1] == ']'
  {
    var reprs := EntryReprs(es);
    EntryInnerFacts(es[0]);
    EntryInnerFacts(es[|es| - 1]);
    EntryInnerEnds(es[|es| - 1], "(", reprs[|es| - 1]);
    JoinEnds(reprs, ", ");
  }

  lemma DictStrip(j: string, s: string)
    requires |j| > 0 && j[0] == '(' && j[|j| - 1] == ']'
    requires s == "{" + j + "}"
    ensures s != "None" && s != "{}" && Strip(s, Braces) == j
  {
    assert s[1] == '(';
    StripWrapped("{", j, "}", Braces);
  }

  lemma PiecesToEntries(es: seq<(Coord, TrapInfo)>, inners: seq<string>, pieces: seq<string>)
    requires |es| > 0
    requires |inners| == |es| && forall k :: 0 <= k < |es| ==> inners[k] == EntryInner(es[k])
    requires |pieces| == |inners| && pieces[0] == "(" + inners[0]
    requires forall k :: 1 <= k < |pieces| ==> pieces[k] == inners[k]
    ensures Traverse(EntryValue, pieces) == Ok(es)
  {
    forall k | 0 <= k < |pieces| ensures EntryValue(pieces[k]) == Ok(es[k]) {
      if k == 0 {
        EntryFromPiece(es[0], "(", pieces[0]);
      } else {
        EntryFromPiece(es[k], "", pieces[k]);
      }
    }
    TraverseAllOk(EntryValue, pieces, es);
  }

  /** Each entry's `str()` without its leading `(`. */
  function EntryInners(es: seq<(Coord, TrapInfo)>): (r: seq<string>)
    ensures |r| == |es| && EntryReprs(es) == Affixed(r, "(", "")
    ensures forall k :: 0 <= k < |es| ==> r[k] == EntryInner(es[k]) && '(' !in r[k]
  {
    var r := seq(|es|, k requires 0 <= k < |es| => EntryInner(es[k]));
    assert forall k :: 0 <= k < |es| ==> EntryRepr(es[k]) == "(" + r[k] + "" && '(' !in r[k] by {
      forall k | 0 <= k < |es| ensures EntryRepr(es[k]) == "(" + r[k] + "" && '(' !in r[k] {
        EntryInnerFacts(es[k]);
      }
    }
    r
  }

  /** An entry's `str()` after its leading `(`: `a, b): [flag, n]`. */
  function EntryInner(e: (Coord, TrapInfo)): string
  {
    KeyInner(e.0) + ": " + ListRepr([BoolRepr(e.1.activated), IntToString(e.1.trapType)])
  }

  function KeyInner(c: Coord): string
  {
    IntToString(c.0) + ", " + IntToString(c.1) + ")"
  }

  lemma EntryInnerFacts(e: (Coord, TrapInfo))
    ensures EntryRepr(e) == "(" + EntryInner(e) + ""
    ensures '(' !in EntryInner(e)
  {
    var l := ListRepr([BoolRepr(e.1.activated), IntToString(e.1.trapType)]);
    NoSignInDecimal(e.1.trapType, '(');
    PairListAvoids(BoolRepr(e.1.activated), IntToString(e.1.trapType), '(');
    KeyInnerFacts(e.0);
    assert EntryInner(e) == KeyInner(e.0) + (": " + l);
  }

  lemma KeyInnerFacts(c: Coord)
    ensures PositionRepr(Some(c)) == "(" + KeyInner(c)
    ensures '(' !in KeyInner(c)
  {
    NoSignInDecimal(c.0, '(');
    NoSignInDecimal(c.1, '(');
  }

  /** A two-item list's `str()` holds a character only when an item does (or it is
      one of `[`, `,`, ` `, `]`). */
  lemma PairListAvoids(b: string, n: string, ch: char)
    requires ch !in b && ch !in n && ch !in "[, ]"
    ensures ch !in ListRepr([b, n])
  {
    assert [b, n][1..] == [n];
    assert Join([b, n], ", ") == b + ", " + n;
    assert ListRepr([b, n]) == "[" + (b + ", " + n) + "]";
  }

  lemma EntryInnerEnds(e: (Coord, TrapInfo), pre: string, piece: string)
    requires piece == pre + EntryInner(e)
    ensures |piece| > 0 && piece[|piece| - 1] == ']'
  {
  }

  /** A piece of the dictionary split, with or without its leading `(`, reads back as its entry. */
  lemma EntryFromPiece(e: (Coord, TrapInfo), pre: string, piece: string)
    requires pre == "" || pre == "("
    requires piece == pre + EntryInner(e)
    ensures EntryValue(piece) == Ok(e)
  {
    var key, v := EntrySplit(e, pre, piece);
    KeySide(e.0, pre, key);
    ValueSide(e.1, v);
    EntryValueOfParts(key, v, piece, BoolRepr(e.1.activated), " " + IntToString(e.1.trapType),
                      IntToString(e.0.0), IntToString(e.0.1));
    EntryOfParts(e);
  }

  lemma EntrySplit(e: (Coord, TrapInfo), pre: string, piece: string) returns (key: string, v: string)
    requires pre == "" || pre == "("
    requires piece == pre + EntryInner(e)
    ensures key == pre + KeyInner(e.0) && v == ListRepr([BoolRepr(e.1.activated), IntToString(e.1.trapType)])
    ensures Split(Strip(piece, Quote), ": ") == [key, v]
  {
    key := pre + KeyInner(e.0);
    v := ListRepr([BoolRepr(e.1.activated), IntToString(e.1.trapType)]);
    PieceIsKeyValue(pre, e, piece);
    KeyAvoids(pre, e.0, key);
    NoSignInDecimal(e.1.trapType, ':');
    ValueAvoids(BoolRepr(e.1.activated), IntToString(e.1.trapType), v);
    KeyValueSplit(key, v, piece);
  }

  lemma KeySide(c: Coord, pre: string, key: string)
    requires pre == "" || pre == "("
    requires key == pre + KeyInner(c)
    ensures Split(Strip(key, Parens), ", ") == [IntToString(c.0), IntToString(c.1)]
  {
    KeyAvoids(pre, c, key);
    KeyParts(pre, IntToString(c.0), IntToString(c.1), key);
  }

  lemma ValueSide(t: TrapInfo, v: string)
    requires v == ListRepr([BoolRepr(t.activated), IntToString(t.trapType)])
    ensures Split(Strip(v, Brackets), ",") == [BoolRepr(t.activated), " " + IntToString(t.trapType)]
  {
    NoSignInDecimal(t.trapType, ',');
    NoSignInDecimal(t.trapType, ']');
    ValueParts(BoolRepr(t.activated), IntToString(t.trapType), v);
  }

  lemma PieceIsKeyValue(pre: string, e: (Coord, TrapInfo), piece: string)
    requires piece == pre + EntryInner(e)
    ensures piece == (pre + KeyInner(e.0)) + ": " + ListRepr([BoolRepr(e.1.activated), IntToString(e.1.trapType)])
  {
  }

  lemma EntryValueOfParts(key: string, v: string, piece: string, b: string, vn: string, x: string, y: string)
    requires Split(Strip(piece, Quote), ": ") == [key, v]
    requires Split(Strip(v, Brackets), ",") == [b, vn]
    requires Split(Strip(key, Parens), ", ") == [x, y]
    ensures EntryValue(piece) == EntryOf([b, vn], [x, y])
  {
  }

  lemma KeyAvoids(pre: string, c: Coord, key: string)
    requires pre == "" || pre == "("
    requires key == pre + KeyInner(c)
    ensures ':' !in key && |key| > 0 && key[0] != '\''
    ensures var x, y := IntToString(c.0), IntToString(c.1);
      |x| > 0 && x[0] !in Parens && |y| > 0 && y[|y| - 1] !in Parens && ',' !in x && ',' !in y
  {
    NoSignInDecimal(c.0, ':');
    NoSignInDecimal(c.1, ':');
    NoSignInDecimal(c.0, ',');
    NoSignInDecimal(c.1, ',');
    var x := IntToString(c.0);
    assert key[0] == if pre == "" then x[0] else '(';
  }

  lemma ValueAvoids(b: string, n: string, v: string)
    requires b == "True" || b == "False"
    requires ':' !in n
    requires v == ListRepr([b, n])
    ensures ':' !in v && |v| > 0 && v[|v| - 1] == ']'
  {
    assert [b, n][1..] == [n];
    assert Join([b, n], ", ") == b + ", " + n;
  }

  lemma KeyValueSplit(key: string, v: string, piece: string)
    requires ':' !in key && ':' !in v
    requires |key| > 0 && key[0] != '\'' && |v| > 0 && v[|v| - 1] != '\''
    requires piece == key + ": " + v
    ensures Split(Strip(piece, Quote), ": ") == [key, v]
  {
    StripClean(piece, Quote);
    assert [key, v][1..] == [v];
    SepFreeByFirstChar(key, ": ");
    SepFreeByFirstChar(v, ": ");
    SplitJoin([key, v], ": ");
  }

  lemma ValueParts(b: string, n: string, v: string)
    requires b == "True" || b == "False"
    requires |n| > 0 && n[|n| - 1] !in Brackets && ',' !in n
    requires v == ListRepr([b, n])
    ensures Split(Strip(v, Brackets), ",") == [b, " " + n]
  {
    ValueStrip(b, n, v);
    CommaSplit(b, n);
  }

  lemma ValueStrip(b: string, n: string, v: string)
    requires |b| > 0 && b[0] !in Brackets
    requires |n| > 0 && n[|n| - 1] !in Brackets
    requires v == ListRepr([b, n])
    ensures Strip(v, Brackets) == b + ", " + n
  {
    var body := b + ", " + n;
    assert [b, n][1..] == [n];
    assert Join([b, n], ", ") == body;
    assert body[0] == b[0] && body[|body| - 1] == n[|n| - 1];
    StripWrapped("[", body, "]", Brackets);
  }

  lemma CommaSplit(b: string, n: string)
    requires ',' !in b && ',' !in n
    ensures Split(b + ", " + n, ",") == [b, " " + n]
  {
    PairJoin(b, n);
    assert ',' !in " " + n;
    SepFreeSingle([b, " " + n], ',');
    SplitJoin([b, " " + n], ",");
  }

  lemma KeyParts(pre: string, x: string, y: string, key: string)
    requires pre == "" || pre == "("
    requires |x| > 0 && x[0] !in Parens && |y| > 0 && y[|y| - 1] !in Parens && ',' !in x && ',' !in y
    requires key == pre + (x + ", " + y + ")")
    ensures Split(Strip(key, Parens), ", ") == [x, y]
  {
    KeyStrip(pre, x, y, key);
    PairSplit(x, y);
  }

  lemma KeyStrip(pre: string, x: string, y: string, key: string)
    requires pre == "" || pre == "("
    requires |x| > 0 && x[0] !in Parens && |y| > 0 && y[|y| - 1] !in Parens
    requires key == pre + (x + ", " + y + ")")
    ensures Strip(key, Parens) == x + ", " + y
  {
    var body := x + ", " + y;
    assert key == pre + body + ")";
    assert body[0] == x[0] && body[|body| - 1] == y[|y| - 1];
    StripWrapped(pre, body, ")", Parens);
  }

  lemma PairSplit(x: string, y: string)
    requires ',' !in x && ',' !in y
    ensures Split(x + ", " + y, ", ") == [x, y]
  {
    assert [x, y][1..] == [y];
    assert Join([x, y], ", ") == x + ", " + y;
    SepFreeByFirstChar(x, ", ");
    SepFreeByFirstChar(y, ", ");
    SplitJoin([x, y], ", ");
  }

  lemma EntryOfParts(e: (Coord, TrapInfo))
    ensures EntryOf([BoolRepr(e.1.activated), " " + IntToString(e.1.trapType)],
                    [IntToString(e.0.0), IntToString(e.0.1)]) == Ok(e)
  {
    ParseIntSpaced(e.1.trapType);
    ParseIntToString(e.0.0);
    ParseIntToString(e.0.1);
    EntryOfInts(BoolRepr(e.1.activated), " " + IntToString(e.1.trapType), IntToString(e.0.0), IntToString(e.0.1),
                e.1.trapType, e.0.0, e.0.1);
  }

  lemma EntryOfInts(b: string, v: string, cx: string, cy: string, n: int, x: int, y: int)
    requires ParseInt(v) == Some(n) && ParseInt(cx) == Some(x) && ParseInt(cy) == Some(y)
    ensures EntryOf([b, v], [cx, cy]) == Ok(((x, y), TrapInfo(b != "False", n)))
  {
  }
}
