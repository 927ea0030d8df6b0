/**
 * String builders and parsers: the HTML of a new table, the cleaning of the formatBlock
 * argument, the heading level of pasted Word paragraphs and the conversion of an `rgb()`
 * colour into hex notation.
 */
module Markup {
  import opened Wrappers
  import opened Strings

  predicate StartsWith(s: string, prefix: string)
  {
    |prefix| <= |s| && s[..|prefix|] == prefix
  }

  // ---- insertTable ----

  const TableOpen: string := "<table style='border-collapse: collapse; width: 100%;'>"
  const RowOpen: string := "<tr>"
  const RowClose: string := "</tr>"
  const CellOpen: string := "<td"
  const Cell: string := CellOpen + " style='border: 1px solid #999; padding: 8px; min-width: 60px;'>&nbsp;</td>"
  const TableClose: string := "</table><br/>"

  /** `n` copies of `s`, each appended at the end. */
  function Repeat(s: string, n: nat): string
  {
    if n == 0 then [] else Repeat(s, n - 1) + s
  }

  lemma {:induction false} RepeatFront(s: string, n: nat)
    requires n > 0
    ensures Repeat(s, n) == s + Repeat(s, n - 1)
  {
    if n > 1 {
      RepeatFront(s, n - 1);
    }
  }

  function RowHtml(cols: nat): string
  {
    RowOpen + Repeat(Cell, cols) + RowClose
  }

  function TableHtml(rows: nat, cols: nat): string
  {
    TableOpen + Repeat(RowHtml(cols), rows) + TableClose
  }

  lemma Assoc(a: string, b: string, c: string)
    ensures (a + b) + c == a + (b + c)
  {
  }

  lemma AppendRow(prefix: string, cells: string)
    ensures prefix + RowOpen + cells + RowClose == prefix + (RowOpen + cells + RowClose)
  {
  }

  lemma RepeatSnoc(prefix: string, s: string, n: nat)
    ensures prefix + Repeat(s, n) + s == prefix + Repeat(s, n + 1)
  {
    assert Repeat(s, n + 1) == Repeat(s, n) + s;
  }

  /** `insertTable`'s markup, built by appending in two nested loops. */
  method InsertTable(rows: nat, cols: nat) returns (html: string)
    ensures html == TableHtml(rows, cols)
  {
    html := TableOpen;
    for i := 0 to rows
      invariant html == TableOpen + Repeat(RowHtml(cols), i)
    {
      var row := html + RowOpen;
      for j := 0 to cols
        invariant row == html + RowOpen + Repeat(Cell, j)
      {
        RepeatSnoc(html + RowOpen, Cell, j);
        row := row + Cell;
      }
      AppendRow(html, Repeat(Cell, cols));
      RepeatSnoc(TableOpen, RowHtml(cols), i);
      html := row + RowClose;
    }
    html := html + TableClose;
  }

  /** Counts the cells at the front of `s`; returns the count and what follows them. */
  function ParseCells(s: string): (r: (nat, string))
    ensures |r.1| <= |s|
    decreases |s|
  {
    if StartsWith(s, Cell) then
      var (n, rest) := ParseCells(s[|Cell|..]);
      (n + 1, rest)
    else (0, s)
  }

  /** The cell count of each row, up to the closing of the table. */
  function ParseRows(s: string): Option<seq<nat>>
    decreases |s|
  {
    if s == TableClose then Some([])
    else if StartsWith(s, RowOpen) then
      var (n, rest) := ParseCells(s[|RowOpen|..]);
      if StartsWith(rest, RowClose) then
        match ParseRows(rest[|RowClose|..])
        case Some(counts) => Some([n] + counts)
        case None => None
      else None
    else None
  }

  /** Reads a table built by `InsertTable` back: the number of cells in each of its rows. */
  function ParseTable(html: string): Option<seq<nat>>
  {
    if StartsWith(html, TableOpen) then ParseRows(html[|TableOpen|..]) else None
  }

  lemma {:induction false} ParseCellsRepeat(n: nat, rest: string)
    requires StartsWith(rest, RowClose)
    ensures ParseCells(Repeat(Cell, n) + rest) == (n, rest)
  {
    if n == 0 {
      assert Repeat(Cell, n) + rest == rest;
      assert !StartsWith(rest, Cell) by {
        assert rest[1] == rest[..|RowClose|][1] == '/';
        if |Cell| <= |rest| {
          assert Cell[1] == 't';
          assert rest[..|Cell|][1] == rest[1];
        }
      }
    } else {
      RepeatFront(Cell, n);
      var s := Repeat(Cell, n) + rest;
      assert s == Cell + (Repeat(Cell, n - 1) + rest);
      assert s[..|Cell|] == Cell;
      assert s[|Cell|..] == Repeat(Cell, n - 1) + rest;
      ParseCellsRepeat(n - 1, rest);
    }
  }

  /** `n` copies of `v`. */
  function Copies(n: nat, v: nat): (r: seq<nat>)
    ensures |r| == n && forall i :: 0 <= i < n ==> r[i] == v
  {
    if n == 0 then [] else [v] + Copies(n - 1, v)
  }

  /** One row at the front: its cell count is read, then the rest of the rows. */
  lemma ParseRowsCons(cols: nat, after: string)
    ensures ParseRows(RowHtml(cols) + after)
            == if ParseRows(after).Some? then Some([cols] + ParseRows(after).value) else None
  {
    var s := RowHtml(cols) + after;
    var inner := Repeat(Cell, cols) + (RowClose + after);
    assert s == RowOpen + inner;
    assert s != TableClose by {
      assert s[1] == 't';
    }
    assert s[..|RowOpen|] == RowOpen;
    assert s[|RowOpen|..] == inner;
    assert (RowClose + after)[..|RowClose|] == RowClose;
    ParseCellsRepeat(cols, RowClose + after);
    assert (RowClose + after)[|RowClose|..] == after;
  }

  lemma {:induction false} ParseRowsRepeat(rows: nat, cols: nat)
    ensures ParseRows(Repeat(RowHtml(cols), rows) + TableClose) == Some(Copies(rows, cols))
  {
    if rows == 0 {
      assert Repeat(RowHtml(cols), rows) + TableClose == TableClose;
    } else {
      RepeatFront(RowHtml(cols), rows);
      var after := Repeat(RowHtml(cols), rows - 1) + TableClose;
      Assoc(RowHtml(cols), Repeat(RowHtml(cols), rows - 1), TableClose);
      ParseRowsCons(cols, after);
      ParseRowsRepeat(rows - 1, cols);
      assert [cols] + seq(rows - 1, _ => cols) == Copies(rows, cols);
    }
  }

  /**
   * The table markup starts with the table's opening tag, ends with `</table><br/>`, and
   * holds exactly `rows` rows of exactly `cols` cells each.
   */
  lemma TableRoundTrip(rows: nat, cols: nat)
    ensures StartsWith(TableHtml(rows, cols), TableOpen)
    ensures TableHtml(rows, cols)[|TableHtml(rows, cols)| - |TableClose|..] == TableClose
    ensures ParseTable(TableHtml(rows, cols)) == Some(Copies(rows, cols))
  {
    var html := TableHtml(rows, cols);
    Assoc(TableOpen, Repeat(RowHtml(cols), rows), TableClose);
    assert html[..|TableOpen|] == TableOpen;
    assert html[|TableOpen|..] == Repeat(RowHtml(cols), rows) + TableClose;
    ParseRowsRepeat(rows, cols);
  }

  // ---- The formatBlock argument ----

  predicate IsAngleBracket(c: char)
  {
    c == '<' || c == '>'
  }

  predicate NotAngleBracket(c: char)
  {
    !IsAngleBracket(c)
  }

  /** `arg ? arg.replace(/[<>]/g, '') : arg`: a missing or empty argument is passed on as it is. */
  function CleanFormatBlockArg(arg: Option<string>): (r: Option<string>)
    ensures r.Some? <==> arg.Some?
    ensures r.Some? ==> forall i :: 0 <= i < |r.value| ==> !IsAngleBracket(r.value[i])
  {
    if arg.None? || arg.value == "" then arg else Some(Filter(arg.value, NotAngleBracket))
  }

  /**
   * A tag written with its brackets (`<h2>`) becomes the bare tag name, an argument without
   * brackets is left as it is, and cleaning twice is the same as once.
   */
  lemma CleanFormatBlockArgSpec(name: string)
    requires forall i :: 0 <= i < |name| ==> !IsAngleBracket(name[i])
    ensures CleanFormatBlockArg(Some("<" + name + ">")) == Some(name)
    ensures CleanFormatBlockArg(Some(name)) == Some(name)
  {
    FilterAppend("<" + name, ">", NotAngleBracket);
    FilterAppend("<", name, NotAngleBracket);
    FilterKeepsKept(name, NotAngleBracket);
    FilterDropsAll("<", NotAngleBracket);
    FilterDropsAll(">", NotAngleBracket);
    assert Filter("<" + name + ">", NotAngleBracket) == [] + name + [];
    assert [] + name + [] == name;
  }

  // ---- Word headings ----

  /** `el.style['mso-heading'] || el.getAttribute('mso-heading')`. */
  function HeadingLevel(styleValue: Option<string>, attribute: Option<string>): Option<string>
  {
    if styleValue.Some? && styleValue.value != "" then styleValue else attribute
  }

  /**
   * The tag a Word heading becomes: the digits of the level read as a number, `h1` to `h6`
   * for 1 to 6, `p` for anything else and when there is no level.
   */
  function HeadingTag(level: Option<string>): (tag: string)
    ensures tag == "p" || (|tag| == 2 && tag[0] == 'h' && '1' <= tag[1] <= '6')
  {
    if level.None? || level.value == "" then "p"
    else
      match ParseInt(Filter(level.value, IsDigit))
      case Some(n) => if 1 <= n <= 6 then "h" + [('0' as int + n) as char] else "p"
      case None => "p"
  }

  predicate NoDigits(s: string)
  {
    forall i :: 0 <= i < |s| ==> !IsDigit(s[i])
  }

  /** The digits of a level that holds one number among digit-free text. */
  lemma {:induction false} DigitsOfLevel(pre: string, digits: string, post: string)
    requires NoDigits(pre) && AllDigits(digits) && NoDigits(post)
    ensures Filter(pre + digits + post, IsDigit) == digits
  {
    FilterAppend(pre + digits, post, IsDigit);
    FilterAppend(pre, digits, IsDigit);
    FilterDropsAll(pre, IsDigit);
    FilterDropsAll(post, IsDigit);
    FilterKeepsKept(digits, IsDigit);
    assert [] + digits + [] == digits;
  }

  /**
   * A level holding one number among digit-free text (`"2"`, `"heading 2"`) names the heading
   * `h1` to `h6` when the number is 1 to 6, and a paragraph otherwise.
   */
  lemma HeadingTagOfNumber(pre: string, k: nat, post: string)
    requires NoDigits(pre) && NoDigits(post)
    ensures HeadingTag(Some(pre + Decimal(k) + post)) == if 1 <= k <= 6 then "h" + Decimal(k) else "p"
  {
    DigitsOfLevel(pre, Decimal(k), post);
    ParseIntOfDecimal(k, []);
    assert Decimal(k) + [] == Decimal(k);
  }

  // ---- rgbToHex ----

  function HexDigit(d: nat): char
    requires d < 16
  {
    if d < 10 then ('0' as int + d) as char else ('a' as int + d - 10) as char
  }

  /** `Number.prototype.toString(16)`: lower-case hex digits without leading zeros. */
  function Hex(v: nat): (s: string)
    ensures s != []
    ensures |s| == 1 <==> v < 16
    ensures v < 256 ==> |s| <= 2
  {
    if v < 16 then [HexDigit(v)] else Hex(v / 16) + [HexDigit(v % 16)]
  }

  /** A hex channel: `hex.length === 1 ? '0' + hex : hex`. */
  function PaddedHex(v: nat): (s: string)
    ensures |s| >= 2
    ensures v < 256 <==> |s| == 2
  {
    var h := Hex(v);
    if |h| == 1 then "0" + h else h
  }

  function HexDigitValue(c: char): nat
  {
    if '0' <= c <= '9' then c as int - '0' as int
    else if 'a' <= c <= 'f' then c as int - 'a' as int + 10
    else 0
  }

  /** The number a string of hex digits stands for. */
  function HexValue(s: string): nat
    decreases |s|
  {
    if s == [] then 0 else HexValue(s[..|s| - 1]) * 16 + HexDigitValue(s[|s| - 1])
  }

  lemma {:induction false} HexRoundTrip(v: nat)
    ensures HexValue(Hex(v)) == v
  {
    if v >= 16 {
      HexRoundTrip(v / 16);
      var s := Hex(v);
      assert s[..|s| - 1] == Hex(v / 16);
    }
  }

  /** A padded channel reads back as the channel value. */
  lemma PaddedHexRoundTrip(v: nat)
    ensures HexValue(PaddedHex(v)) == v
  {
    HexRoundTrip(v);
    var h := Hex(v);
    if |h| == 1 {
      assert ("0" + h)[..1] == "0";
    }
  }

  /**
   * `rgbToHex`: `#000000` for a missing value, one not starting with `rgb`, or one with
   * fewer than three digit runs; otherwise `#` and the first three digit runs, each read as a
   * decimal number and written as a padded hex channel.
   */
  function RgbToHex(rgb: Option<string>): (hex: string)
    ensures |hex| >= 7 && hex[0] == '#'
  {
    if rgb.None? || rgb.value == "" || !StartsWith(rgb.value, "rgb") then "#000000"
    else
      var values := Runs(rgb.value, IsDigit);
      if |values| < 3 then "#000000"
      else
        "#" + PaddedHex(DecimalValue(values[0])) + PaddedHex(DecimalValue(values[1]))
            + PaddedHex(DecimalValue(values[2]))
  }

  /** A number as written: a non-empty run of digits. */
  predicate IsNumeral(d: string)
  {
    d != [] && AllDigits(d)
  }

  /** The digit runs of `rgb`, an opening, then three numerals with separators, then the rest. */
  lemma {:induction false} RunsOfNotation(open: string, dr: string, sep1: string, dg: string, sep2: string, db: string, rest: string)
    requires NoDigits("rgb" + open) && NoDigits(sep1) && NoDigits(sep2)
    requires IsNumeral(dr) && IsNumeral(dg) && IsNumeral(db)
    requires sep1 != [] && sep2 != []
    requires rest == [] || !IsDigit(rest[0])
    ensures Runs("rgb" + open + (dr + (sep1 + (dg + (sep2 + (db + rest))))), IsDigit)
            == [dr, dg, db] + Runs(rest, IsDigit)
  {
    var tail3 := db + rest;
    var tail2 := sep2 + tail3;
    var tail1 := dg + tail2;
    var tail0 := sep1 + tail1;
    RunsCons(db, rest, IsDigit);
    RunsSkip(sep2, tail3, IsDigit);
    RunsCons(dg, tail2, IsDigit);
    RunsSkip(sep1, tail1, IsDigit);
    RunsCons(dr, tail0, IsDigit);
    RunsSkip("rgb" + open, dr + tail0, IsDigit);
  }

  /**
   * The `rgb()` functional notation (with any digit-free opening and separators, and anything
   * after the blue channel, such as an alpha value) converts to `#` and the three channels in
   * hex.
   */
  lemma RgbToHexOfNotation(open: string, dr: string, sep1: string, dg: string, sep2: string, db: string, rest: string)
    requires NoDigits(open) && NoDigits(sep1) && NoDigits(sep2)
    requires IsNumeral(dr) && IsNumeral(dg) && IsNumeral(db)
    requires sep1 != [] && sep2 != []
    requires rest == [] || !IsDigit(rest[0])
    ensures RgbToHex(Some("rgb" + open + (dr + (sep1 + (dg + (sep2 + (db + rest)))))))
            == "#" + PaddedHex(DecimalValue(dr)) + PaddedHex(DecimalValue(dg)) + PaddedHex(DecimalValue(db))
  {
    var s := "rgb" + open + (dr + (sep1 + (dg + (sep2 + (db + rest)))));
    NoDigitsAppend("rgb", open);
    RunsOfNotation(open, dr, sep1, dg, sep2, db, rest);
    var values := Runs(s, IsDigit);
    assert values[..3] == [dr, dg, db];
    assert s[..3] == "rgb";
    RgbToHexOfRuns(s, dr, dg, db);
  }

  lemma NoDigitsAppend(a: string, b: string)
    requires NoDigits(a) && NoDigits(b)
    ensures NoDigits(a + b)
  {
    forall i | 0 <= i < |a + b|
      ensures !IsDigit((a + b)[i])
    {
      if i >= |a| {
        assert (a + b)[i] == b[i - |a|];
      }
    }
  }

  /** A value starting with `rgb` and holding at least three digit runs converts them. */
  lemma RgbToHexOfRuns(s: string, dr: string, dg: string, db: string)
    requires StartsWith(s, "rgb")
    requires IsNumeral(dr) && IsNumeral(dg) && IsNumeral(db)
    requires |Runs(s, IsDigit)| >= 3 && Runs(s, IsDigit)[..3] == [dr, dg, db]
    ensures RgbToHex(Some(s)) == "#" + PaddedHex(DecimalValue(dr)) + PaddedHex(DecimalValue(dg)) + PaddedHex(DecimalValue(db))
  {
    var values := Runs(s, IsDigit);
    assert values[0] == dr && values[1] == dg && values[2] == db by {
      assert values[..3][0] == values[0] && values[..3][1] == values[1] && values[..3][2] == values[2];
    }
  }

  lemma Regroup(a: string, b: string, x1: string, x2: string, x3: string, x4: string, x5: string, x6: string)
    ensures (a + b) + x1 + x2 + x3 + x4 + x5 + x6 == a + b + (x1 + (x2 + (x3 + (x4 + (x5 + x6)))))
  {
  }

  lemma HexChannels(x: string, y: string, z: string)
    requires |x| == 2 && |y| == 2 && |z| == 2
    ensures var hex := "#" + x + y + z;
      |hex| == 7 && hex[1..3] == x && hex[3..5] == y && hex[5..7] == z
  {
  }

  /** `rgb(r, g, b)` as a browser writes it converts to `#` and the three padded hex channels. */
  lemma RgbToHexOfDecimals(r: nat, g: nat, b: nat)
    ensures RgbToHex(Some("rgb(" + Decimal(r) + ", " + Decimal(g) + ", " + Decimal(b) + ")"))
            == "#" + PaddedHex(r) + PaddedHex(g) + PaddedHex(b)
  {
    var dr, dg, db := Decimal(r), Decimal(g), Decimal(b);
    assert "rgb(" == "rgb" + "(";
    Regroup("rgb", "(", dr, ", ", dg, ", ", db, ")");
    RgbToHexOfNotation("(", dr, ", ", dg, ", ", db, ")");
    DecimalRoundTrip(r);
    DecimalRoundTrip(g);
    DecimalRoundTrip(b);
  }

  /**
   * For `rgb(r, g, b)` with channels 0 to 255 the result is a seven-character hex colour
   * whose three channels read back as `r`, `g` and `b`.
   */
  lemma RgbToHexChannels(r: nat, g: nat, b: nat)
    requires r < 256 && g < 256 && b < 256
    ensures var hex := RgbToHex(Some("rgb(" + Decimal(r) + ", " + Decimal(g) + ", " + Decimal(b) + ")"));
      |hex| == 7 && HexValue(hex[1..3]) == r && HexValue(hex[3..5]) == g && HexValue(hex[5..7]) == b
  {
    RgbToHexOfDecimals(r, g, b);
    HexChannels(PaddedHex(r), PaddedHex(g), PaddedHex(b));
    PaddedHexRoundTrip(r);
    PaddedHexRoundTrip(g);
    PaddedHexRoundTrip(b);
  }
}
