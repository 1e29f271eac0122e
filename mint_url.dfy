/** The grid codec of musigen/api/mint.py: a URL is the rows of a synth-pad grid, each a
    bare lower-case hexadecimal number, followed by a scale and a bpm, all joined by dashes. */
module MintUrl {

  import opened Wrappers
  import opened Text

  datatype Fields = Fields(grid: seq<int>, scale: string, bpm: string)

  /** The list comprehension of int(row, 16): every row parsed in order; the first row that
      is not a base-16 literal raises ValueError. */
  function ParseRows(rows: seq<string>): (r: Result<seq<int>>)
    ensures r.Err? ==> r.error == InvalidLiteral
    ensures r.Ok? ==> |r.value| == |rows|
  {
    if rows == [] then Ok([])
    else match ParseHexInt(rows[0])
      case None => Err(InvalidLiteral)
      case Some(v) =>
        match ParseRows(rows[1..])
        case Err(error) => Err(error)
        case Ok(vs) => Ok([v] + vs)
  }

  /** The rows parse exactly when each row is a base-16 literal, and then each value is the
      row's. */
  lemma {:induction false} ParseRowsPointwise(rows: seq<string>)
    ensures ParseRows(rows).Ok? <==> forall k :: 0 <= k < |rows| ==> ParseHexInt(rows[k]).Some?
    ensures ParseRows(rows).Ok? ==>
              forall k :: 0 <= k < |rows| ==> ParseHexInt(rows[k]) == Some(ParseRows(rows).value[k])
  {
    if rows != [] {
      match ParseHexInt(rows[0])
      case None =>
      case Some(v) =>
        ParseRowsPointwise(rows[1..]);
        match ParseRows(rows[1..])
        case Err(_) => TailRefused(rows, ParseHexInt);
        case Ok(vs) => TailParsed(rows, v, vs, ParseHexInt);
    }
  }

  lemma TailRefused(rows: seq<string>, parse: string -> Option<int>)
    requires |rows| >= 1 && !(forall k :: 0 <= k < |rows[1..]| ==> parse(rows[1..][k]).Some?)
    ensures !(forall k :: 0 <= k < |rows| ==> parse(rows[k]).Some?)
  {
    var k :| 0 <= k < |rows[1..]| && parse(rows[1..][k]).None?;
    assert rows[1..][k] == rows[k + 1];
  }

  lemma TailParsed(rows: seq<string>, v: int, vs: seq<int>, parse: string -> Option<int>)
    requires |rows| >= 1 && parse(rows[0]) == Some(v) && |vs| == |rows| - 1
    requires forall k :: 0 <= k < |vs| ==> parse(rows[1..][k]) == Some(vs[k])
    ensures forall k :: 0 <= k < |rows| ==> parse(rows[k]) == Some(([v] + vs)[k])
  {
    forall k | 0 <= k < |rows| ensures parse(rows[k]) == Some(([v] + vs)[k]) {
      if k > 0 {
        assert rows[k] == rows[1..][k - 1];
      }
    }
  }

  /** Rows that all parse give the grid of their values. */
  lemma RowsParsed(rows: seq<string>, grid: seq<int>)
    requires |rows| == |grid| && forall k :: 0 <= k < |rows| ==> ParseHexInt(rows[k]) == Some(grid[k])
    ensures ParseRows(rows) == Ok(grid)
  {
    ParseRowsPointwise(rows);
    var r := ParseRows(rows);
    assert r.Ok?;
    assert r.value == grid;
  }

  /** decodeUrl: split on every '-', pop the bpm and then the scale from the end, and parse
      what is left as grid rows. A URL without a dash splits into one piece, and the second
      pop raises IndexError. */
  function Decode(url: string): (r: Result<Fields>)
    ensures r.Err? && r.error == IndexOutOfRange <==> '-' !in url
    ensures r.Err? ==> r.error == IndexOutOfRange || r.error == InvalidLiteral
    ensures r.Ok? ==> '-' !in r.value.scale && '-' !in r.value.bpm
  {
    var parts := Split(url, '-');
    SplitMany(url, '-');
    if |parts| < 2 then Err(IndexOutOfRange)
    else match ParseRows(parts[..|parts| - 2])
      case Err(error) => Err(error)
      case Ok(grid) => Ok(Fields(grid, parts[|parts| - 2], parts[|parts| - 1]))
  }

  /** hex(row)[2:]: the bare digits for a row >= 0, and "x" then the digits for a negative
      row, whose hex starts with "-0x". */
  function HexRow(n: int): (s: string)
    ensures n >= 0 ==> s == HexDigits(n)
    ensures n < 0 ==> s == "x" + HexDigits(-n)
    ensures '-' !in s
  {
    if n >= 0 then HexPrefix(n); Hex(n)[2..]
    else HexNegative(n); Hex(n)[2..]
  }

  function HexRows(grid: seq<int>): (rows: seq<string>)
    ensures |rows| == |grid| && forall k :: 0 <= k < |grid| ==> rows[k] == HexRow(grid[k])
  {
    seq(|grid|, k requires 0 <= k < |grid| => HexRow(grid[k]))
  }

  /** encodeUrl: the rows joined by '-', then "-", the scale, "-" and the bpm. An empty grid
      joins to the empty string. */
  function Encode(f: Fields): (url: string)
    ensures EndsWith(url, "-" + f.scale + "-" + f.bpm)
  {
    Join(HexRows(f.grid), '-') + "-" + f.scale + "-" + f.bpm
  }

  /** `s` ends with `t`. */
  predicate EndsWith(s: string, t: string)
  {
    |t| <= |s| && s[|s| - |t|..] == t
  }

  /** A split yields at least two pieces exactly when the separator occurs. */
  lemma SplitMany(s: string, c: char)
    ensures |Split(s, c)| >= 2 <==> c in s
  {
    var i := IndexOf(s, c);
    if i == |s| {
      assert c !in s;
    }
  }

  /** The encoding of a non-empty grid is the join of its rows, its scale and its bpm. */
  lemma EncodeJoin(f: Fields)
    requires |f.grid| >= 1
    ensures Encode(f) == Join(HexRows(f.grid) + [f.scale] + [f.bpm], '-')
  {
    var rows := HexRows(f.grid);
    JoinSnoc(rows, f.scale, '-');
    JoinSnoc(rows + [f.scale], f.bpm, '-');
  }

  /** Splitting the encoding of a non-empty grid gives back its rows, its scale and its bpm,
      when neither the scale nor the bpm holds a dash. */
  lemma SplitEncode(f: Fields)
    requires |f.grid| >= 1 && '-' !in f.scale && '-' !in f.bpm
    ensures Split(Encode(f), '-') == HexRows(f.grid) + [f.scale] + [f.bpm]
  {
    EncodeJoin(f);
    SplitJoin(HexRows(f.grid) + [f.scale] + [f.bpm], '-');
  }

  /** Decoding the encoding of a non-empty grid of rows >= 0 gives back the grid, the scale
      and the bpm, when neither the scale nor the bpm holds a dash. */
  lemma DecodeEncode(f: Fields)
    requires |f.grid| >= 1 && forall k :: 0 <= k < |f.grid| ==> f.grid[k] >= 0
    requires '-' !in f.scale && '-' !in f.bpm
    ensures Decode(Encode(f)) == Ok(f)
  {
    SplitEncode(f);
    GridParsed(f.grid);
    DecodeParts(Encode(f), HexRows(f.grid), f.scale, f.bpm, f.grid);
  }

  /** Decoding a URL that splits into rows, a scale and a bpm, when the rows parse. */
  lemma DecodeParts(url: string, rows: seq<string>, scale: string, bpm: string, grid: seq<int>)
    requires Split(url, '-') == rows + [scale] + [bpm] && ParseRows(rows) == Ok(grid)
    ensures Decode(url) == Ok(Fields(grid, scale, bpm))
  {
    var parts := rows + [scale] + [bpm];
    assert parts[..|parts| - 2] == rows;
  }

  /** Decoding a URL that splits into rows, a scale and a bpm fails when a row does not
      parse. */
  lemma DecodeRefused(url: string, rows: seq<string>, scale: string, bpm: string)
    requires Split(url, '-') == rows + [scale] + [bpm] && ParseRows(rows).Err?
    ensures Decode(url) == Err(InvalidLiteral)
  {
    var parts := rows + [scale] + [bpm];
    assert parts[..|parts| - 2] == rows;
  }

  /** The rendered rows of a grid of rows >= 0 parse back to the grid. */
  lemma GridParsed(grid: seq<int>)
    requires forall k :: 0 <= k < |grid| ==> grid[k] >= 0
    ensures ParseRows(HexRows(grid)) == Ok(grid)
  {
    var rows := HexRows(grid);
    forall k | 0 <= k < |rows| ensures ParseHexInt(rows[k]) == Some(grid[k]) {
      HexRoundTrip(grid[k]);
    }
    RowsParsed(rows, grid);
  }

  /** An empty grid encodes to "-scale-bpm", whose empty first field is not a base-16
      literal. */
  lemma EmptyGridFails(scale: string, bpm: string)
    requires '-' !in scale && '-' !in bpm
    ensures Encode(Fields([], scale, bpm)) == "-" + scale + "-" + bpm
    ensures Decode(Encode(Fields([], scale, bpm))) == Err(InvalidLiteral)
  {
    var url := Encode(Fields([], scale, bpm));
    assert HexRows([]) == [];
    JoinThree(["", scale, bpm], '-');
    SplitJoin(["", scale, bpm], '-');
    assert ["", scale, bpm] == [""] + [scale] + [bpm];
    EmptyLiteral();
    RowsRefused([""], 0);
    DecodeRefused(url, [""], scale, bpm);
  }

  lemma EmptyLiteral()
    ensures ParseHexInt("") == None
  {
    assert Strip("") == "";
  }

  /** A negative row renders as "x" and digits, which int(_, 16) refuses: the grid does not
      survive the round trip. */
  lemma NegativeRowFails(f: Fields, k: nat)
    requires k < |f.grid| && f.grid[k] < 0
    requires '-' !in f.scale && '-' !in f.bpm
    ensures Decode(Encode(f)) == Err(InvalidLiteral)
  {
    var rows := HexRows(f.grid);
    SplitEncode(f);
    assert rows[k] == "x" + HexDigits(-f.grid[k]);
    XRowRefused(-f.grid[k]);
    RowsRefused(rows, k);
    DecodeRefused(Encode(f), rows, f.scale, f.bpm);
  }

  lemma RowsRefused(rows: seq<string>, k: nat)
    requires k < |rows| && ParseHexInt(rows[k]).None?
    ensures ParseRows(rows) == Err(InvalidLiteral)
  {
    ParseRowsPointwise(rows);
  }

  lemma XRowRefused(m: nat)
    ensures ParseHexInt("x" + HexDigits(m)) == None
  {
    var u := "x" + HexDigits(m);
    var ds := DigitsOf(m, 16);
    PlainDigits(ds);
    forall i | 0 <= i < |u| ensures !IsSpace(u[i]) {
      if i > 0 {
        assert u[i] == HexDigits(m)[i - 1];
      }
    }
    assert u[1] == HexDigits(m)[0];
    ParsePlain(u);
    HexDigitRunHead(u);
  }

  /** A digit run starts with a digit. */
  lemma {:induction false} HexDigitRunHead(u: string)
    ensures HexDigitRun(u).Some? ==> HexValue(u[0]).Some?
    decreases |u|
  {
    if u != [] && HexDigitRun(u).Some? {
      var init := u[..|u| - 1];
      if init != [] {
        if init[|init| - 1] == '_' {
          HexDigitRunHead(init[..|init| - 1]);
        } else {
          HexDigitRunHead(init);
        }
      }
    }
  }

  /** Decoding is not one-to-one: "0A-s-b" decodes to the grid [10], which encodes as
      "a-s-b". */
  lemma NotCanonical()
    ensures Decode("0A-s-b") == Ok(Fields([10], "s", "b"))
    ensures Encode(Fields([10], "s", "b")) == "a-s-b"
  {
    DecodeSample();
    EncodeSample();
  }

  lemma DecodeSample()
    ensures Decode("0A-s-b") == Ok(Fields([10], "s", "b"))
  {
    var parts := Split("0A-s-b", '-');
    SplitSample();
    assert parts[..1] == ["0A"] && parts[1] == "s" && parts[2] == "b";
    RowsSample();
  }

  lemma EncodeSample()
    ensures Encode(Fields([10], "s", "b")) == "a-s-b"
  {
    TenRow();
    assert Join(["a"], '-') == "a";
    assert "a" + "-" + "s" + "-" + "b" == "a-s-b";
  }

  lemma SplitSample()
    ensures Split("0A-s-b", '-') == ["0A", "s", "b"]
  {
    SplitJoin(["0A", "s", "b"], '-');
    JoinThree(["0A", "s", "b"], '-');
    assert "0A" + ['-'] + "s" + ['-'] + "b" == "0A-s-b";
  }

  lemma RowsSample()
    ensures ParseRows(["0A"]) == Ok([10])
  {
    var rows := ["0A"];
    ZeroALiteral();
    assert rows[0] == "0A" && rows[1..] == [];
    assert ParseRows(rows[1..]) == Ok([]);
    assert [10] + [] == [10];
  }

  lemma ZeroALiteral()
    ensures ParseHexInt("0A") == Some(10)
  {
    ZeroARun();
    ParsePlain("0A");
    assert ValueOf([0, 10], 16) == 10 by {
      assert [0, 10][..1] == [0] && [0][..0] == [];
    }
  }

  lemma ZeroARun()
    ensures HexDigitRun("0A") == Some([0, 10])
  {
    assert "0A"[..1] == "0" && "0"[..0] == [];
    assert HexValue('A') == Some(10) && HexValue('0') == Some(0);
    assert HexDigitRun("0") == Some([0]);
    assert [0] + [10] == [0, 10];
  }

  lemma TenRow()
    ensures HexRows([10]) == ["a"]
  {
    assert DigitsOf(10, 16) == [10];
    assert HexDigits(10) == "a";
    assert HexRow(10) == "a";
  }
}
