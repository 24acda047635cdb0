/**
 * The two textual forms of a matrix: the display form `{1 2 3, 4 5 6}`
 * (rows in order, separated by ", ", each row's elements separated by " ",
 * inside braces) and the debug form `Matrix(row=2, col=3, {1 2 3, 4 5 6})`.
 * The display form is written out step by step, as the formatter does;
 * `Render` says what it writes, and parsers that invert both forms show that
 * the rows come back from the display form, except for a single row without
 * columns, and the shape from the debug form.
 */
module MatrixFormat {
  import opened Results
  import opened Text
  import opened Matrices

  /** The decimal texts of the elements of row i, in column order. */
  function ElementTexts(m: Matrix, i: nat): (ts: seq<string>)
    requires WellFormed(m) && i < m.row
    ensures |ts| == m.col
  {
    seq(m.col, j requires 0 <= j < m.col => IntToString(Row(m, i)[j]))
  }

  /** Element text j of row i is the text of the element stored at i * col + j. */
  lemma ElementTextAt(m: Matrix, i: nat, j: nat)
    requires WellFormed(m) && i < m.row && j < m.col
    ensures Pos(i, j, m.col) < |m.data|
    ensures ElementTexts(m, i)[j] == IntToString(m.data[Pos(i, j, m.col)])
  {
    CellInBounds(i, j, m.row, m.col);
  }

  /** Row i as text: its elements separated by single spaces. */
  function RowText(m: Matrix, i: nat): string
    requires WellFormed(m) && i < m.row
  {
    Join(" ", ElementTexts(m, i))
  }

  /** The texts of all rows, in row order. */
  function RowTexts(m: Matrix): (ts: seq<string>)
    requires WellFormed(m)
    ensures |ts| == m.row
  {
    seq(m.row, i requires 0 <= i < m.row => RowText(m, i))
  }

  /** Entry i of the row texts is the text of row i. */
  lemma RowTextsAt(m: Matrix, i: nat)
    requires WellFormed(m) && i < m.row
    ensures RowTexts(m)[i] == RowText(m, i)
  {
  }

  /** The display form: the row texts separated by ", ", inside braces. */
  function Render(m: Matrix): string
    requires WellFormed(m)
  {
    "{" + Join(", ", RowTexts(m)) + "}"
  }

  /**
   * The inner loop of the formatter: appends the elements of row i to what
   * has been written, with a space after each element but the row's last.
   */
  method WriteRow(m: Matrix, i: nat, written: string) returns (s: string)
    requires WellFormed(m) && i < m.row
    ensures s == written + RowText(m, i)
  {
    ghost var elements := ElementTexts(m, i);
    s := written;
    var j := 0;
    while j < m.col
      invariant 0 <= j <= m.col
      invariant s == written + WrittenSoFar(" ", elements, j)
    {
      ElementTextAt(m, i, j);
      WrittenSoFarStep(" ", elements, j, written);
      var x := m.data[Pos(i, j, m.col)];
      s := s + IntToString(x);
      if j < m.col - 1 {
        s := s + " ";
      }
      j := j + 1;
    }
    WrittenAllIsJoin(" ", elements);
  }

  /**
   * The formatter: writes "{", then every row through `WriteRow`, with ", "
   * after each row but the last, then "}". Writing cannot fail here.
   */
  method Display(m: Matrix) returns (s: string)
    requires WellFormed(m)
    ensures s == Render(m)
  {
    ghost var rows := RowTexts(m);
    s := "{";
    var i := 0;
    while i < m.row
      invariant 0 <= i <= m.row
      invariant s == "{" + WrittenSoFar(", ", rows, i)
    {
      RowTextsAt(m, i);
      WrittenSoFarStep(", ", rows, i, "{");
      s := WriteRow(m, i, s);
      if i < m.row - 1 {
        s := s + ", ";
      }
      i := i + 1;
    }
    WrittenAllIsJoin(", ", rows);
    s := s + "}";
  }

  /**
   * The debug form: "Matrix(row=", the row count, ", col=", the column
   * count, ", ", the display form and ")".
   */
  function DebugText(m: Matrix): (d: string)
    requires WellFormed(m)
    ensures |d| == 20 + |NatToString(m.row)| + |NatToString(m.col)| + |Render(m)|
    ensures d[..11] == "Matrix(row="
    ensures d[11 + |NatToString(m.row)|..17 + |NatToString(m.row)|] == ", col="
    ensures d[|d| - |Render(m)| - 3..] == ", " + Render(m) + ")"
  {
    DebugLayout(NatToString(m.row), NatToString(m.col), Render(m));
    "Matrix(row=" + (NatToString(m.row) + (", col=" + (NatToString(m.col) + (", " + (Render(m) + ")")))))
  }

  /** Where the pieces of the debug layout sit, for any counts and display text. */
  lemma DebugLayout(r: string, c: string, body: string)
    ensures var d := "Matrix(row=" + (r + (", col=" + (c + (", " + (body + ")")))));
      && |d| == 20 + |r| + |c| + |body|
      && d[..11] == "Matrix(row="
      && d[11 + |r|..17 + |r|] == ", col="
      && d[|d| - |body| - 3..] == ", " + body + ")"
  {
    var tail := ", " + (body + ")");
    var after := ", col=" + (c + tail);
    var d := "Matrix(row=" + (r + after);
    assert d[11..] == r + after;
    assert d[11 + |r|..] == after;
    assert after[..6] == ", col=";
    assert d[|d| - |tail|..] == tail;
    assert tail == ", " + body + ")";
  }

  /** The rows of a matrix as sequences, in row order. */
  function Rows(m: Matrix): (rs: seq<seq<int>>)
    requires WellFormed(m)
    ensures |rs| == m.row
    ensures forall i :: 0 <= i < m.row ==> rs[i] == Row(m, i)
  {
    seq(m.row, i requires 0 <= i < m.row => Row(m, i))
  }

  /** Reads one row: integers separated by single spaces; "" reads as a row without elements. */
  function ParseRow(t: string): Option<seq<int>>
  {
    if t == "" then Some([]) else MapAll(ParseInt, Split(t, ' '))
  }

  /** Removes the space that follows a row separator's comma. */
  function DropSpace(t: string): Option<string>
  {
    if |t| >= 1 && t[0] == ' ' then Some(t[1..]) else None
  }

  /** Reads the display form back into its rows; "{}" reads as no rows. */
  function ParseDisplay(s: string): Option<seq<seq<int>>>
  {
    if |s| < 2 || s[0] != '{' || s[|s| - 1] != '}' then None
    else
      var body := s[1..|s| - 1];
      if body == "" then Some([])
      else
        var pieces := Split(body, ',');
        match MapAll(DropSpace, pieces[1..])
        case None => None
        case Some(rest) => MapAll(ParseRow, [pieces[0]] + rest)
  }

  /** Reads `tag` followed by a run of digits; gives their value and what follows. */
  function ParseField(s: string, tag: string): Option<(nat, string)>
  {
    if |s| < |tag| || s[..|tag|] != tag then None
    else
      var t := s[|tag|..];
      var n := LeadingDigits(t);
      if n == 0 then None else Some((NumeralValue(t[..n]), t[n..]))
  }

  /**
   * Reads `rowTag`, the row count, `colTag`, the column count, then ", ",
   * the display form and a closing parenthesis.
   */
  function ParseShape(s: string, rowTag: string, colTag: string): Option<(nat, nat, string)>
  {
    match ParseField(s, rowTag)
    case None => None
    case Some((r, t)) =>
      match ParseField(t, colTag)
      case None => None
      case Some((c, w)) =>
        if |w| < 3 || w[..2] != ", " || w[|w| - 1] != ')' then None
        else Some((r, c, w[2..|w| - 1]))
  }

  /** Reads the debug form back into the shape and the display form. */
  function ParseDebug(s: string): Option<(nat, nat, string)>
  {
    ParseShape(s, "Matrix(row=", ", col=")
  }

  /** Every row text parses back to its row. */
  lemma RowTextRoundTrip(m: Matrix, i: nat)
    requires WellFormed(m) && i < m.row
    ensures ParseRow(RowText(m, i)) == Some(Row(m, i))
  {
    var ts := ElementTexts(m, i);
    if m.col == 0 {
      assert ts == [];
      return;
    }
    assert |RowText(m, i)| >= 1 by {
      JoinCoversLast(" ", ts);
    }
    forall j, k | 0 <= j < |ts| && 0 <= k < |ts[j]|
      ensures ts[j][k] != ' '
    {
    }
    assert [' '] + "" == " ";
    SplitJoin(ts, ' ', "");
    var pieces := Split(RowText(m, i), ' ');
    assert forall j :: 1 <= j < |ts| ==> pieces[j] == "" + ts[j];
    forall j | 0 <= j < |pieces|
      ensures ParseInt(pieces[j]) == Some(Row(m, i)[j])
    {
      if j >= 1 {
        assert "" + ts[j] == ts[j];
      }
      IntToStringRoundTrip(Row(m, i)[j]);
    }
    MapAllSome(ParseInt, pieces, Row(m, i));
  }

  /** No row text contains the comma that separates rows. */
  lemma RowTextHasNoComma(m: Matrix, i: nat)
    requires WellFormed(m) && i < m.row
    ensures forall k :: 0 <= k < |RowText(m, i)| ==> RowText(m, i)[k] != ','
  {
    JoinAvoids(" ", ElementTexts(m, i), ',');
  }

  /**
   * Parsing inverts the display layout for any list of row texts free of
   * commas, each of which parses, unless it is a single empty text.
   */
  lemma ParseDisplayOfRows(rows: seq<string>, values: seq<seq<int>>)
    requires |rows| == |values| >= 1 && (|rows| >= 2 || |rows[0]| >= 1)
    requires forall r, k :: 0 <= r < |rows| && 0 <= k < |rows[r]| ==> rows[r][k] != ','
    requires forall r :: 0 <= r < |rows| ==> ParseRow(rows[r]) == Some(values[r])
    ensures ParseDisplay("{" + Join(", ", rows) + "}") == Some(values)
  {
    var body := Join(", ", rows);
    var s := "{" + body + "}";
    assert s[1..|s| - 1] == body;
    JoinCoversLast(", ", rows);
    SplitDisplayBody(rows);
    assert [Split(body, ',')[0]] + rows[1..] == rows;
    MapAllSome(ParseRow, rows, values);
  }

  /**
   * Splitting the joined row texts at commas gives the first text, then the
   * others, each behind the space that follows its comma.
   */
  lemma SplitDisplayBody(rows: seq<string>)
    requires |rows| >= 1
    requires forall r, k :: 0 <= r < |rows| && 0 <= k < |rows[r]| ==> rows[r][k] != ','
    ensures Split(Join(", ", rows), ',')[0] == rows[0]
    ensures MapAll(DropSpace, Split(Join(", ", rows), ',')[1..]) == Some(rows[1..])
  {
    assert [','] + " " == ", ";
    SplitJoin(rows, ',', " ");
    var pieces := Split(Join(", ", rows), ',');
    forall r | 0 <= r < |pieces[1..]|
      ensures DropSpace(pieces[1..][r]) == Some(rows[1..][r])
    {
      assert pieces[1..][r] == " " + rows[r + 1];
    }
    MapAllSome(DropSpace, pieces[1..], rows[1..]);
  }

  /**
   * The display form determines the rows of every matrix except a single
   * row without columns, which displays as "{}" like a matrix without rows:
   * parsing it gives them back.
   */
  lemma DisplayRoundTrip(m: Matrix)
    requires WellFormed(m) && (m.col >= 1 || m.row != 1)
    ensures ParseDisplay(Render(m)) == Some(Rows(m))
  {
    var rows := RowTexts(m);
    if m.row == 0 {
      assert Rows(m) == [];
    } else {
      assert m.row >= 2 || |rows[0]| >= 1 by {
        if m.row == 1 {
          RowTextsAt(m, 0);
          JoinCoversLast(" ", ElementTexts(m, 0));
        }
      }
      forall r, k | 0 <= r < |rows| && 0 <= k < |rows[r]|
        ensures rows[r][k] != ','
      {
        RowTextsAt(m, r);
        RowTextHasNoComma(m, r);
      }
      forall r | 0 <= r < |rows|
        ensures ParseRow(rows[r]) == Some(Rows(m)[r])
      {
        RowTextsAt(m, r);
        RowTextRoundTrip(m, r);
      }
      ParseDisplayOfRows(rows, Rows(m));
    }
  }

  /** A tag, a numeral and text not starting with a digit read back as the numeral's value. */
  lemma ParseFieldOf(tag: string, d: string, rest: string)
    requires IsNumeral(d) && (|rest| == 0 || !IsDigit(rest[0]))
    ensures ParseField(tag + (d + rest), tag) == Some((NumeralValue(d), rest))
  {
    var t := d + rest;
    assert (tag + t)[..|tag|] == tag && (tag + t)[|tag|..] == t;
    LeadingDigitsOfNumeral(d, rest);
    assert t[..|d|] == d && t[|d|..] == rest;
  }

  /** Parsing inverts the debug layout for any two numerals and any display text. */
  lemma ParseShapeOf(rowTag: string, colTag: string, r: string, c: string, body: string)
    requires IsNumeral(r) && IsNumeral(c) && |colTag| >= 1 && !IsDigit(colTag[0])
    ensures ParseShape(rowTag + (r + (colTag + (c + (", " + (body + ")"))))), rowTag, colTag)
         == Some((NumeralValue(r), NumeralValue(c), body))
  {
    var tail := ", " + (body + ")");
    var rest := colTag + (c + tail);
    ParseFieldOf(rowTag, r, rest);
    ParseFieldOf(colTag, c, tail);
    ClosingOf(body);
  }

  /** The text after the column count: ", ", the display form, ")". */
  lemma ClosingOf(body: string)
    ensures var tail := ", " + (body + ")");
      |tail| >= 3 && tail[..2] == ", " && tail[|tail| - 1] == ')' && tail[2..|tail| - 1] == body
  {
    var tail := ", " + (body + ")");
    assert tail[..2] == ", ";
    assert tail[2..] == body + ")";
    assert (body + ")")[..|body|] == body;
  }

  /** The debug form gives back the shape and the display form. */
  lemma DebugRoundTrip(m: Matrix)
    requires WellFormed(m)
    ensures ParseDebug(DebugText(m)) == Some((m.row, m.col, Render(m)))
  {
    ParseShapeOf("Matrix(row=", ", col=", NatToString(m.row), NatToString(m.col), Render(m));
    NatToStringRoundTrip(m.row);
    NatToStringRoundTrip(m.col);
  }

  /** A matrix without rows displays as "{}". */
  lemma DisplayNoRows(m: Matrix)
    requires WellFormed(m) && m.row == 0
    ensures Render(m) == "{}"
  {
  }

  /**
   * A one-row matrix without columns also displays as "{}", so the display
   * form alone cannot tell it from a matrix without rows.
   */
  lemma DisplayEmptyRowIsAmbiguous()
    ensures Render(New([], 1, 0)) == Render(New([], 0, 3)) == "{}"
  {
    var m := New([], 1, 0);
    assert ElementTexts(m, 0) == [];
    assert RowTexts(m) == [""];
  }

  /**
   * Two or more rows without columns are told apart: the empty rows are
   * still separated by ", ".
   */
  lemma DisplayEmptyRows()
    ensures Render(New([], 2, 0)) == "{, }"
    ensures ParseDisplay("{, }") == Some([[], []])
  {
    var m := New([], 2, 0);
    assert ElementTexts(m, 0) == [] && ElementTexts(m, 1) == [];
    RenderOfTwo(m);
    DisplayRoundTrip(m);
    assert Rows(m) == [[], []];
  }

  /** A row of two elements as text. */
  lemma RowTextOfTwo(m: Matrix, i: nat)
    requires WellFormed(m) && i < m.row && m.col == 2
    ensures Pos(i, 1, 2) < |m.data|
    ensures RowText(m, i) == IntToString(m.data[Pos(i, 0, 2)]) + " " + IntToString(m.data[Pos(i, 1, 2)])
  {
    ElementTextAt(m, i, 0);
    ElementTextAt(m, i, 1);
    assert ElementTexts(m, i) == [ElementTexts(m, i)[0], ElementTexts(m, i)[1]];
    JoinTwo(" ", ElementTexts(m, i)[0], ElementTexts(m, i)[1]);
  }

  /** A row of three elements as text. */
  lemma RowTextOfThree(m: Matrix, i: nat)
    requires WellFormed(m) && i < m.row && m.col == 3
    ensures Pos(i, 2, 3) < |m.data|
    ensures RowText(m, i)
         == IntToString(m.data[Pos(i, 0, 3)]) + " " + IntToString(m.data[Pos(i, 1, 3)]) + " " + IntToString(m.data[Pos(i, 2, 3)])
  {
    ElementTextAt(m, i, 0);
    ElementTextAt(m, i, 1);
    ElementTextAt(m, i, 2);
    var ts := ElementTexts(m, i);
    assert ts == [ts[0], ts[1], ts[2]];
    JoinThree(" ", ts[0], ts[1], ts[2]);
  }

  /** The display form of a matrix with two rows. */
  lemma RenderOfTwo(m: Matrix)
    requires WellFormed(m) && m.row == 2
    ensures Render(m) == "{" + (RowText(m, 0) + ", " + RowText(m, 1)) + "}"
  {
    RowTextsAt(m, 0);
    RowTextsAt(m, 1);
    assert RowTexts(m) == [RowText(m, 0), RowText(m, 1)];
    JoinTwo(", ", RowText(m, 0), RowText(m, 1));
  }

  /** The display form of a matrix with three rows. */
  lemma RenderOfThree(m: Matrix)
    requires WellFormed(m) && m.row == 3
    ensures Render(m) == "{" + (RowText(m, 0) + ", " + RowText(m, 1) + ", " + RowText(m, 2)) + "}"
  {
    RowTextsAt(m, 0);
    RowTextsAt(m, 1);
    RowTextsAt(m, 2);
    assert RowTexts(m) == [RowText(m, 0), RowText(m, 1), RowText(m, 2)];
    JoinThree(", ", RowText(m, 0), RowText(m, 1), RowText(m, 2));
  }

  /** The texts of the small numbers in the examples below. */
  lemma SmallTexts()
    ensures IntToString(1) == "1" && IntToString(2) == "2" && IntToString(3) == "3"
    ensures IntToString(4) == "4" && IntToString(5) == "5" && IntToString(6) == "6"
  {
  }

  /** The 2 × 3 matrix over 1..6 displays as {1 2 3, 4 5 6}. */
  lemma DisplayTwoByThree(m: Matrix)
    requires m == New([1, 2, 3, 4, 5, 6], 2, 3)
    ensures Render(m) == "{1 2 3, 4 5 6}"
  {
    RowTextOfThree(m, 0);
    RowTextOfThree(m, 1);
    RenderOfTwo(m);
    SmallTexts();
    TwoByThreeText();
  }

  /** The pieces of the 2 × 3 display form put together. */
  lemma TwoByThreeText()
    ensures "{" + ("1" + " " + "2" + " " + "3" + ", " + ("4" + " " + "5" + " " + "6")) + "}" == "{1 2 3, 4 5 6}"
  {
  }

  /** The same six values read as a 3 × 2 matrix display as {1 2, 3 4, 5 6}. */
  lemma DisplayThreeByTwo(m: Matrix)
    requires m == New([1, 2, 3, 4, 5, 6], 3, 2)
    ensures Render(m) == "{1 2, 3 4, 5 6}"
  {
    RowTextOfTwo(m, 0);
    RowTextOfTwo(m, 1);
    RowTextOfTwo(m, 2);
    RenderOfThree(m);
    SmallTexts();
    ThreeByTwoText();
  }

  /** The pieces of the 3 × 2 display form put together. */
  lemma ThreeByTwoText()
    ensures "{" + ("1" + " " + "2" + ", " + ("3" + " " + "4") + ", " + ("5" + " " + "6")) + "}" == "{1 2, 3 4, 5 6}"
  {
  }

  /** The texts of the numbers in the product example. */
  lemma ProductTexts()
    ensures IntToString(22) == "22" && IntToString(28) == "28"
    ensures IntToString(49) == "49" && IntToString(64) == "64"
  {
  }

  /** The display form of the product of the two example matrices. */
  lemma DisplayOfExampleProduct()
    ensures Product(New([1, 2, 3, 4, 5, 6], 2, 3), New([1, 2, 3, 4, 5, 6], 3, 2)).Ok?
    ensures Render(Product(New([1, 2, 3, 4, 5, 6], 2, 3), New([1, 2, 3, 4, 5, 6], 3, 2)).value)
         == "{22 28, 49 64}"
  {
    ProductExample();
    DisplayOfProductValue(Product(New([1, 2, 3, 4, 5, 6], 2, 3), New([1, 2, 3, 4, 5, 6], 3, 2)).value);
  }

  /** The display form of the 2 × 2 product matrix. */
  lemma DisplayOfProductValue(m: Matrix)
    requires m == New([22, 28, 49, 64], 2, 2)
    ensures Render(m) == "{22 28, 49 64}"
  {
    RowTextOfTwo(m, 0);
    RowTextOfTwo(m, 1);
    RenderOfTwo(m);
    ProductTexts();
    ProductText();
  }

  /** The pieces of the product's display form put together. */
  lemma ProductText()
    ensures "{" + ("22" + " " + "28" + ", " + ("49" + " " + "64")) + "}" == "{22 28, 49 64}"
  {
  }

  /** The debug form of the product of the two example matrices. */
  lemma DebugOfExampleProduct()
    ensures Product(New([1, 2, 3, 4, 5, 6], 2, 3), New([1, 2, 3, 4, 5, 6], 3, 2)).Ok?
    ensures DebugText(Product(New([1, 2, 3, 4, 5, 6], 2, 3), New([1, 2, 3, 4, 5, 6], 3, 2)).value)
         == "Matrix(row=2, col=2, {22 28, 49 64})"
  {
    ProductExample();
    DebugOfProductValue(Product(New([1, 2, 3, 4, 5, 6], 2, 3), New([1, 2, 3, 4, 5, 6], 3, 2)).value);
  }

  /** The debug form of the 2 × 2 product matrix. */
  lemma DebugOfProductValue(m: Matrix)
    requires m == New([22, 28, 49, 64], 2, 2)
    ensures DebugText(m) == "Matrix(row=2, col=2, {22 28, 49 64})"
  {
    DisplayOfProductValue(m);
    assert NatToString(2) == "2";
    DebugTextOfProduct();
  }

  /** The pieces of the product's debug form put together. */
  lemma DebugTextOfProduct()
    ensures "Matrix(row=" + ("2" + (", col=" + ("2" + (", " + ("{22 28, 49 64}" + ")")))))
         == "Matrix(row=2, col=2, {22 28, 49 64})"
  {
  }
}
