/** String helpers the modelled code takes from Python's runtime: str(int), hex(int), int(s, 16),
    str.split, str.rsplit, str.join and str.strip. */
module Text {

  import opened Wrappers

  /** The digits of n in the given base, most significant first; 0 has the single digit 0. */
  function DigitsOf(n: nat, base: nat): (ds: seq<nat>)
    requires base >= 2
    ensures |ds| >= 1
    ensures forall i :: 0 <= i < |ds| ==> ds[i] < base
    ensures |ds| > 1 ==> ds[0] != 0
  {
    if n < base then [n]
    else
      DivFacts(n, base);
      DigitsOf(n / base, base) + [n % base]
  }

  lemma DivFacts(n: nat, base: nat)
    requires base >= 2 && n >= base
    ensures 1 <= n / base < n && n % base < base
    ensures n == (n / base) * base + n % base
  {
    var q, r := n / base, n % base;
    assert n == base * q + r;
    assert base * q >= 2 * q;
  }

  /** The number a digit sequence denotes, most significant digit first. */
  function ValueOf(ds: seq<nat>, base: nat): nat
  {
    if ds == [] then 0 else ValueOf(ds[..|ds| - 1], base) * base + ds[|ds| - 1]
  }

  lemma {:induction false} DigitsRoundTrip(n: nat, base: nat)
    requires base >= 2
    ensures ValueOf(DigitsOf(n, base), base) == n
  {
    if n >= base {
      DivFacts(n, base);
      DigitsRoundTrip(n / base, base);
      var ds := DigitsOf(n / base, base) + [n % base];
      assert ds[..|ds| - 1] == DigitsOf(n / base, base);
    }
  }

  const HexAlphabet: string := "0123456789abcdef"

  /** The lower-case character of a digit below 16. */
  function DigitChar(d: nat): char
    requires d < 16
  {
    HexAlphabet[d]
  }

  function Render(ds: seq<nat>): (s: string)
    requires forall i :: 0 <= i < |ds| ==> ds[i] < 16
    ensures |s| == |ds|
  {
    seq(|ds|, i requires 0 <= i < |ds| => DigitChar(ds[i]))
  }

  /** Python's str(n) for an int. */
  function DecimalString(n: int): string
  {
    if n < 0 then "-" + Render(DigitsOf(-n, 10)) else Render(DigitsOf(n, 10))
  }

  /** The lower-case hexadecimal digits of n, without prefix. */
  function HexDigits(n: nat): string
  {
    Render(DigitsOf(n, 16))
  }

  /** Python's hex(n): "0x" followed by the digits, with a leading '-' for negative n. */
  function Hex(n: int): string
  {
    if n < 0 then "-0x" + HexDigits(-n) else "0x" + HexDigits(n)
  }

  /** The value of a hexadecimal digit character of either case. */
  function HexValue(c: char): (r: Option<nat>)
    ensures r.Some? ==> r.value < 16
  {
    if '0' <= c <= '9' then Some(c as int - '0' as int)
    else if 'a' <= c <= 'f' then Some(c as int - 'a' as int + 10)
    else if 'A' <= c <= 'F' then Some(c as int - 'A' as int + 10)
    else None
  }

  lemma HexValueOfDigitChar(d: nat)
    requires d < 16
    ensures HexValue(DigitChar(d)) == Some(d)
  {
    assert HexAlphabet == ['0', '1', '2', '3', '4', '5', '6', '7', '8', '9', 'a', 'b', 'c', 'd', 'e', 'f'];
  }

  /** The position of the first `c` in `s`, or |s| if there is none. */
  function IndexOf(s: string, c: char): (i: nat)
    ensures i <= |s|
    ensures i < |s| ==> s[i] == c
    ensures forall j :: 0 <= j < i ==> s[j] != c
  {
    if s == [] then 0 else if s[0] == c then 0 else 1 + IndexOf(s[1..], c)
  }

  /** The position of the last `c` in `s`, if any. */
  function LastIndexOf(s: string, c: char): (r: Option<nat>)
    ensures r.None? <==> c !in s
    ensures r.Some? ==> r.value < |s| && s[r.value] == c && c !in s[r.value + 1..]
  {
    if s == [] then None
    else if s[|s| - 1] == c then Some(|s| - 1)
    else LastIndexOf(s[..|s| - 1], c)
  }

  /** The number of occurrences of `c` in `s`. */
  function Count(s: string, c: char): nat
  {
    if s == [] then 0 else (if s[0] == c then 1 else 0) + Count(s[1..], c)
  }

  lemma {:induction false} CountAppend(a: string, b: string, c: char)
    ensures Count(a + b, c) == Count(a, c) + Count(b, c)
  {
    if a != [] {
      assert (a + b)[1..] == a[1..] + b;
      CountAppend(a[1..], b, c);
    } else {
      assert a + b == b;
    }
  }

  lemma {:induction false} CountZero(s: string, c: char)
    ensures Count(s, c) == 0 <==> c !in s
  {
    if s != [] {
      CountZero(s[1..], c);
      assert s == [s[0]] + s[1..];
    }
  }

  /** Python's s.split(c): the pieces between the occurrences of c; always at least one. */
  function Split(s: string, c: char): (parts: seq<string>)
    ensures |parts| >= 1
    ensures forall k :: 0 <= k < |parts| ==> c !in parts[k]
    decreases |s|
  {
    var i := IndexOf(s, c);
    if i == |s| then [s] else [s[..i]] + Split(s[i + 1..], c)
  }

  /** Python's c.join(parts). */
  function Join(parts: seq<string>, c: char): string
  {
    if |parts| == 0 then ""
    else if |parts| == 1 then parts[0]
    else parts[0] + [c] + Join(parts[1..], c)
  }

  /** Splitting a join gives back the pieces when none of them contains the separator. */
  lemma {:induction false} SplitJoin(parts: seq<string>, c: char)
    requires |parts| >= 1
    requires forall k :: 0 <= k < |parts| ==> c !in parts[k]
    ensures Split(Join(parts, c), c) == parts
  {
    if |parts| > 1 {
      SplitCons(parts[0], c, Join(parts[1..], c));
      SplitJoin(parts[1..], c);
      assert parts == [parts[0]] + parts[1..];
    } else {
      assert IndexOf(parts[0], c) == |parts[0]|;
    }
  }

  /** A piece free of the separator, then the separator, splits off as the first piece. */
  lemma SplitCons(p: string, c: char, rest: string)
    requires c !in p
    ensures Split(p + [c] + rest, c) == [p] + Split(rest, c)
  {
    var s := p + [c] + rest;
    assert s[|p|] == c;
    assert forall j :: 0 <= j < |p| ==> s[j] == p[j];
    assert IndexOf(s, c) == |p|;
    assert s[..|p|] == p;
    assert s[|p| + 1..] == rest;
  }

  /** Joining the pieces of a split gives back the string. */
  lemma {:induction false} JoinSplit(s: string, c: char)
    ensures Join(Split(s, c), c) == s
    decreases |s|
  {
    var i := IndexOf(s, c);
    if i < |s| {
      JoinSplit(s[i + 1..], c);
      var rest := Split(s[i + 1..], c);
      assert Split(s, c) == [s[..i]] + rest;
      assert ([s[..i]] + rest)[1..] == rest;
      assert s == s[..i] + [c] + s[i + 1..];
    }
  }

  /** Joining one more piece at the end. */
  lemma {:induction false} JoinSnoc(parts: seq<string>, last: string, c: char)
    requires |parts| >= 1
    ensures Join(parts + [last], c) == Join(parts, c) + [c] + last
  {
    if |parts| == 1 {
      assert (parts + [last])[1..] == [last];
    } else {
      assert (parts + [last])[1..] == parts[1..] + [last];
      JoinSnoc(parts[1..], last, c);
    }
  }

  /** Python's whitespace characters (str.isspace). */
  predicate IsSpace(ch: char)
  {
    ('\U{9}' <= ch <= '\U{D}') || ('\U{1C}' <= ch <= '\U{20}') || ch == '\U{85}' || ch == '\U{A0}' ||
    ch == '\U{1680}' || ('\U{2000}' <= ch <= '\U{200A}') || ch == '\U{2028}' || ch == '\U{2029}' ||
    ch == '\U{202F}' || ch == '\U{205F}' || ch == '\U{3000}'
  }

  /** The string without leading and trailing whitespace. */
  function Strip(s: string): (t: string)
    ensures |t| <= |s|
    ensures (forall i :: 0 <= i < |s| ==> !IsSpace(s[i])) ==> t == s
  {
    if s != [] && IsSpace(s[0]) then Strip(s[1..])
    else if s != [] && IsSpace(s[|s| - 1]) then Strip(s[..|s| - 1])
    else s
  }

  lemma JoinThree(parts: seq<string>, c: char)
    requires |parts| == 3
    ensures Join(parts, c) == parts[0] + [c] + parts[1] + [c] + parts[2]
  {
    assert parts[1..][1..] == [parts[2]];
    assert Join(parts[1..], c) == parts[1] + [c] + parts[2];
  }

  /** Python's s.rsplit(c, maxsplit): at most maxsplit cuts, taken at the last occurrences of c;
      only the first piece can still contain c. */
  function RSplit(s: string, c: char, maxsplit: nat): (parts: seq<string>)
    ensures 1 <= |parts| <= maxsplit + 1
    ensures forall k :: 1 <= k < |parts| ==> c !in parts[k]
    decreases maxsplit
  {
    if maxsplit == 0 then [s]
    else match LastIndexOf(s, c)
      case None => [s]
      case Some(j) => RSplit(s[..j], c, maxsplit - 1) + [s[j + 1..]]
  }

  /** Joining the pieces of an rsplit gives back the string. */
  lemma {:induction false} RSplitJoin(s: string, c: char, maxsplit: nat)
    ensures Join(RSplit(s, c, maxsplit), c) == s
    decreases maxsplit
  {
    if maxsplit > 0 && LastIndexOf(s, c).Some? {
      var j := LastIndexOf(s, c).value;
      var parts := RSplit(s[..j], c, maxsplit - 1);
      RSplitStep(s, c, maxsplit, j);
      RSplitJoin(s[..j], c, maxsplit - 1);
      JoinSnoc(parts, s[j + 1..], c);
      Rejoin(s, c, j);
      assert Join(RSplit(s, c, maxsplit), c) == s[..j] + [c] + s[j + 1..];
    } else {
      assert RSplit(s, c, maxsplit) == [s];
    }
  }

  lemma RSplitStep(s: string, c: char, maxsplit: nat, j: nat)
    requires maxsplit > 0 && LastIndexOf(s, c) == Some(j)
    ensures RSplit(s, c, maxsplit) == RSplit(s[..j], c, maxsplit - 1) + [s[j + 1..]]
  {
  }

  lemma Rejoin(s: string, c: char, j: nat)
    requires j < |s| && s[j] == c
    ensures s[..j] + [c] + s[j + 1..] == s
  {
  }

  /** An rsplit makes as many cuts as there are occurrences of c, up to maxsplit. */
  lemma {:induction false} RSplitCount(s: string, c: char, maxsplit: nat)
    ensures |RSplit(s, c, maxsplit)| == 1 + (if Count(s, c) < maxsplit then Count(s, c) else maxsplit)
    decreases maxsplit
  {
    CountZero(s, c);
    if maxsplit > 0 {
      match LastIndexOf(s, c)
      case None =>
      case Some(j) =>
        RSplitCount(s[..j], c, maxsplit - 1);
        CountCut(s, c, j);
    }
  }

  /** Cutting at the last occurrence of c removes one occurrence. */
  lemma CountCut(s: string, c: char, j: nat)
    requires j < |s| && s[j] == c && c !in s[j + 1..]
    ensures Count(s, c) == Count(s[..j], c) + 1
  {
    assert s == s[..j] + ([c] + s[j + 1..]);
    CountAppend(s[..j], [c] + s[j + 1..], c);
    CountAppend([c], s[j + 1..], c);
    CountZero(s[j + 1..], c);
    assert [c][1..] == [];
  }

  /** The last c of p + [c] + t, when t holds none, is the one between them. */
  lemma {:induction false} LastIndexOfJoin(p: string, c: char, t: string)
    requires c !in t
    ensures LastIndexOf(p + [c] + t, c) == Some(|p|)
    decreases |t|
  {
    if t != [] {
      var u := p + [c] + t;
      assert u[..|u| - 1] == p + [c] + t[..|t| - 1];
      LastIndexOfJoin(p, c, t[..|t| - 1]);
    } else {
      assert p + [c] + t == p + [c];
    }
  }

  /** The digits of a digit string with single underscores between digits (Python's integer
      literal grammar), most significant first; None for anything else. */
  function HexDigitRun(u: string): (r: Option<seq<nat>>)
    ensures r.Some? ==> |r.value| >= 1 && forall i :: 0 <= i < |r.value| ==> r.value[i] < 16
  {
    if u == [] then None
    else match HexValue(u[|u| - 1])
      case None => None
      case Some(d) =>
        var init := u[..|u| - 1];
        if init == [] then Some([d])
        else if init[|init| - 1] == '_' then
          (if |init| == 1 then None
           else match HexDigitRun(init[..|init| - 1])
             case None => None
             case Some(ds) => Some(ds + [d]))
        else match HexDigitRun(init)
          case None => None
          case Some(ds) => Some(ds + [d])
  }

  /** Python's int(s, 16): surrounding whitespace, an optional sign, an optional 0x or 0X
      prefix (which may be followed by one underscore) and hexadecimal digits of either case,
      single underscores allowed between them; None where Python raises ValueError. */
  function ParseHexInt(s: string): (r: Option<int>)
    ensures Strip(s) == "" ==> r.None?
    ensures r.Some? && r.value < 0 ==> Strip(s)[0] == '-'
  {
    var t := Strip(s);
    var negative := |t| > 0 && t[0] == '-';
    match HexDigitRun(Unprefixed(Unsigned(t)))
    case None => None
    case Some(ds) =>
      var v: int := ValueOf(ds, 16);
      Some(if negative then -v else v)
  }

  /** The literal without its sign. */
  function Unsigned(t: string): string
  {
    if |t| > 0 && (t[0] == '-' || t[0] == '+') then t[1..] else t
  }

  /** The digits without a 0x or 0X prefix and the one underscore that may follow it. */
  function Unprefixed(u: string): string
  {
    if |u| >= 2 && u[0] == '0' && (u[1] == 'x' || u[1] == 'X') then
      (if |u| >= 3 && u[2] == '_' then u[3..] else u[2..])
    else u
  }

  /** Rendered digits parse back. */
  lemma {:induction false} HexDigitRunRender(ds: seq<nat>)
    requires |ds| >= 1 && forall i :: 0 <= i < |ds| ==> ds[i] < 16
    ensures HexDigitRun(Render(ds)) == Some(ds)
  {
    var u := Render(ds);
    var d := ds[|ds| - 1];
    HexValueOfDigitChar(d);
    assert u[|u| - 1] == DigitChar(d);
    if |ds| == 1 {
      assert u[..|u| - 1] == [];
      assert ds == [d];
    } else {
      var init := ds[..|ds| - 1];
      RenderInit(ds);
      HexDigitRunRender(init);
      AlphabetChar(init[|init| - 1]);
      RunSnoc(u, init, d);
      assert ds == init + [d];
    }
  }

  /** One more digit, after a digit, extends the run. */
  lemma RunSnoc(u: string, init: seq<nat>, d: nat)
    requires |u| >= 2 && d < 16 && HexValue(u[|u| - 1]) == Some(d)
    requires HexDigitRun(u[..|u| - 1]) == Some(init)
    requires u[|u| - 2] != '_'
    ensures HexDigitRun(u) == Some(init + [d])
  {
    assert u[..|u| - 1][|u| - 2] == u[|u| - 2];
  }

  lemma RenderInit(ds: seq<nat>)
    requires |ds| >= 1 && forall i :: 0 <= i < |ds| ==> ds[i] < 16
    ensures Render(ds)[..|ds| - 1] == Render(ds[..|ds| - 1])
  {
  }

  /** hex(n)[2:] is the bare digits of n >= 0; they contain no '-'. */
  lemma HexPrefix(n: nat)
    ensures Hex(n)[2..] == HexDigits(n)
    ensures '-' !in HexDigits(n)
  {
    assert Hex(n) == "0x" + HexDigits(n);
    HexDigitsPlain(n);
  }

  lemma HexDigitsPlain(n: nat)
    ensures '-' !in HexDigits(n)
  {
    var ds := DigitsOf(n, 16);
    forall i | 0 <= i < |ds| ensures HexDigits(n)[i] != '-' {
      AlphabetChar(ds[i]);
    }
  }

  /** For n < 0, hex(n)[2:] is "x" and the digits of -n. */
  lemma HexNegative(n: int)
    requires n < 0
    ensures Hex(n)[2..] == "x" + HexDigits(-n)
    ensures '-' !in Hex(n)[2..]
  {
    var d := HexDigits(-n);
    HexDigitsPlain(-n);
    assert Hex(n) == "-0x" + d;
    assert ("-0x" + d)[2..] == "x" + d;
    forall i | 0 <= i < |"x" + d| ensures ("x" + d)[i] != '-' {
      if i > 0 {
        assert ("x" + d)[i] == d[i - 1];
      }
    }
  }

  /** int(hex(n)[2:], 16) == n for n >= 0. */
  lemma HexRoundTrip(n: nat)
    ensures ParseHexInt(HexDigits(n)) == Some(n)
  {
    var ds := DigitsOf(n, 16);
    var u := HexDigits(n);
    HexDigitRunRender(ds);
    DigitsRoundTrip(n, 16);
    PlainDigits(ds);
    ParsePlain(u);
  }

  /** int(u, 16) of an unsigned, unprefixed string without surrounding whitespace is the
      value of its digit run. */
  lemma ParsePlain(u: string)
    requires forall i :: 0 <= i < |u| ==> !IsSpace(u[i])
    requires |u| > 0 ==> u[0] != '-' && u[0] != '+'
    requires |u| > 1 ==> u[1] != 'x' && u[1] != 'X'
    ensures ParseHexInt(u) == match HexDigitRun(u)
                              case None => None
                              case Some(ds) => Some(ValueOf(ds, 16))
  {
    assert Strip(u) == u;
    assert Unsigned(u) == u;
    assert Unprefixed(u) == u;
  }

  /** Rendered digits hold no whitespace, sign, prefix letter or underscore. */
  lemma PlainDigits(ds: seq<nat>)
    requires forall i :: 0 <= i < |ds| ==> ds[i] < 16
    ensures forall i :: 0 <= i < |ds| ==> !IsSpace(Render(ds)[i])
    ensures forall i :: 0 <= i < |ds| ==> Render(ds)[i] != '-' && Render(ds)[i] != '+'
    ensures forall i :: 0 <= i < |ds| ==> Render(ds)[i] != 'x' && Render(ds)[i] != 'X'
  {
    forall i | 0 <= i < |ds| ensures !IsSpace(Render(ds)[i]) && Render(ds)[i] != '-' && Render(ds)[i] != '+' &&
                                     Render(ds)[i] != 'x' && Render(ds)[i] != 'X' {
      AlphabetChar(ds[i]);
    }
  }

  lemma AlphabetChar(d: nat)
    requires d < 16
    ensures var ch := DigitChar(d);
            !IsSpace(ch) && ch != '-' && ch != '+' && ch != 'x' && ch != 'X' && ch != '_' && (ch == '0' <==> d == 0)
  {
    assert HexAlphabet == ['0', '1', '2', '3', '4', '5', '6', '7', '8', '9', 'a', 'b', 'c', 'd', 'e', 'f'];
  }
}
