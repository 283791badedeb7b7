/** `ParseLine`: one line of a board file, a list of `n,` items, becomes a row
    of cells. The `istringstream` the program reads from is modelled by the
    part of the line not yet consumed. */
module LineParser {
  import opened CppInt
  import opened Board

  datatype Option<T> = None | Some(value: T)

  /** A successful extraction: the value read and the input left after it. */
  datatype Read<T> = Read(value: T, rest: string)

  /** The characters `>>` skips before a value (`isspace` in the C locale). */
  predicate IsSpace(c: char) {
    c == ' ' || '\t' <= c <= '\r'
  }

  /** `s` is whitespace only. */
  predicate AllSpace(s: string) {
    s == [] || (IsSpace(s[0]) && AllSpace(s[1..]))
  }

  predicate IsDigit(c: char) {
    '0' <= c <= '9'
  }

  predicate AllDigits(s: string) {
    forall k :: 0 <= k < |s| ==> IsDigit(s[k])
  }

  /** The length of the longest prefix of `s` made of decimal digits. */
  function DigitCount(s: string): (n: nat)
    ensures n <= |s| && AllDigits(s[..n])
    ensures n == |s| || !IsDigit(s[n])
  {
    if s != [] && IsDigit(s[0]) then 1 + DigitCount(s[1..]) else 0
  }

  function DigitValue(c: char): nat
    requires IsDigit(c)
  {
    c as int - '0' as int
  }

  /** The number a string of decimal digits denotes. */
  function Value(ds: string): nat
    requires AllDigits(ds)
  {
    if ds == [] then 0 else Value(ds[..|ds| - 1]) * 10 + DigitValue(ds[|ds| - 1])
  }

  /** What `>> n` reads once the whitespace and the sign are behind it: the
      longest run of digits, of which there must be at least one, negated
      after a minus sign. A value outside `int` sets the stream's failbit, so
      the extraction fails. */
  function ReadDigits(negative: bool, u: string): (r: Option<Read<int>>)
    ensures r.Some? ==> |r.value.rest| < |u|
    ensures r.Some? ==> IsInt32(r.value.value)
    ensures r.Some? ==> r.value.rest == [] || !IsDigit(r.value.rest[0])
    ensures DigitCount(u) == 0 ==> r.None?
  {
    var n := DigitCount(u);
    if n == 0 then None
    else
      var magnitude: int := Value(u[..n]);
      var v := if negative then -magnitude else magnitude;
      if IsInt32(v) then Some(Read(v, u[n..])) else None
  }

  /** `sline >> n` for an `int n`: skip whitespace, then read an optional
      sign and the digits. */
  function ReadInt(s: string): (r: Option<Read<int>>)
    ensures r.Some? ==> |r.value.rest| < |s|
    ensures r.Some? ==> IsInt32(r.value.value)
    ensures r.Some? ==> r.value.rest == [] || !IsDigit(r.value.rest[0])
    ensures (forall k :: 0 <= k < |s| ==> !IsDigit(s[k])) ==> r.None?
  {
    if s == [] then None
    else if IsSpace(s[0]) then ReadInt(s[1..])
    else if s[0] == '-' || s[0] == '+' then ReadDigits(s[0] == '-', s[1..])
    else ReadDigits(false, s)
  }

  /** `sline >> c` for a `char c`: the next character that is not whitespace. */
  function ReadChar(s: string): (r: Option<Read<char>>)
    ensures r.None? <==> AllSpace(s)
    ensures r.Some? ==> !IsSpace(r.value.value) && |r.value.rest| < |s|
  {
    if s == [] then None
    else if IsSpace(s[0]) then ReadChar(s[1..])
    else Some(Read(s[0], s[1..]))
  }

  /** The cell a parsed number stands for: 0 is empty, anything else an obstacle. */
  function CellOf(n: int): (c: State)
    ensures c == Empty <==> n == 0
    ensures c == Empty || c == Obstacle
  {
    if n == 0 then Empty else Obstacle
  }

  /** The row the loop `while (sline >> n >> c && c == ',')` builds from the
      input `s`: one cell per number that is followed by a comma, stopping at
      the first extraction that fails or the first separator that is not a
      comma. Each cell consumes at least two characters. */
  function ParseFrom(s: string): (row: seq<State>)
    ensures forall k :: 0 <= k < |row| ==> row[k] == Empty || row[k] == Obstacle
    ensures 2 * |row| <= |s|
    decreases |s|
  {
    match ReadInt(s)
    case None => []
    case Some(Read(n, afterNumber)) =>
      match ReadChar(afterNumber)
      case None => []
      case Some(Read(c, afterSeparator)) =>
        if c != ',' then [] else [CellOf(n)] + ParseFrom(afterSeparator)
  }

  /** `ParseLine`: reads `n` and `c` until the pair cannot be read or `c` is
      not a comma, appending one cell per pair. */
  method ParseLine(line: string) returns (row: seq<State>)
    ensures row == ParseFrom(line)
  {
    var rest := line;
    row := [];
    while true
      invariant row + ParseFrom(rest) == ParseFrom(line)
      decreases |rest|
    {
      var number := ReadInt(rest);
      if number.None? {
        assert ParseFrom(rest) == [];
        break;
      }
      var separator := ReadChar(number.value.rest);
      if separator.None? || separator.value.value != ',' {
        assert ParseFrom(rest) == [];
        break;
      }
      assert ParseFrom(rest) == [CellOf(number.value.value)] + ParseFrom(separator.value.rest);
      row := row + [CellOf(number.value.value)];
      rest := separator.value.rest;
    }
  }

  // Board-file lines as a program writes them; ParseFrom inverts this writer.

  function DigitChar(d: nat): (c: char)
    requires d < 10
    ensures IsDigit(c) && DigitValue(c) == d
  {
    ('0' as int + d) as char
  }

  /** The decimal spelling of `v`, without leading zeros. */
  function Decimal(v: nat): (r: string)
    ensures r != [] && AllDigits(r)
  {
    if v < 10 then [DigitChar(v)] else Decimal(v / 10) + [DigitChar(v % 10)]
  }

  /** The sign a number may be written with. */
  predicate IsSign(sign: string) {
    sign == "" || sign == "+" || sign == "-"
  }

  /** A non-empty run of decimal digits, leading zeros allowed. */
  type Digits = s: string | s != [] && AllDigits(s) witness "0"

  /** The number that `sign` followed by the digits of `magnitude` denotes. */
  function Signed(sign: string, magnitude: nat): int {
    if sign == "-" then -(magnitude as int) else magnitude
  }

  /** One `n,` item as a board file may spell it: whitespace, an optional
      sign, the digits, whitespace, then the comma. */
  datatype Item = Item(lead: string, sign: string, digits: Digits, trail: string)

  /** The number an item spells. */
  function Number(item: Item): int {
    Signed(item.sign, Value(item.digits))
  }

  /** The item is spelled with whitespace where whitespace goes, a sign, and
      a value that fits an `int`. */
  predicate WellFormed(item: Item) {
    && AllSpace(item.lead) && IsSign(item.sign) && AllSpace(item.trail)
    && IsInt32(Number(item))
  }

  /** Every item of the line is well formed. */
  predicate AllWellFormed(items: seq<Item>) {
    items == [] || (WellFormed(items[0]) && AllWellFormed(items[1..]))
  }

  function ItemText(item: Item): string {
    item.lead + item.sign + item.digits + item.trail + ","
  }

  /** A line made of `items`, as in "0,1,0," or " 0 , -1,+00,". */
  function Line(items: seq<Item>): string {
    if items == [] then "" else ItemText(items[0]) + Line(items[1..])
  }

  /** The row `items` stand for. */
  function Cells(items: seq<Item>): (row: seq<State>)
    ensures |row| == |items|
    ensures forall k :: 0 <= k < |items| ==>
              row[k] == CellOf(Number(items[k]))
  {
    if items == [] then []
    else [CellOf(Number(items[0]))] + Cells(items[1..])
  }

  /** Regrouping concatenations, stated over arbitrary sequences so that no
      proof has to look inside the pieces to regroup them. */
  lemma {:induction false} Regroup<T>(a: seq<T>, b: seq<T>, c: seq<T>, d: seq<T>)
    ensures a + b + c + d == a + (b + c + d)
  {
  }

  lemma {:induction false} RegroupPair<T>(a: seq<T>, b: seq<T>, c: seq<T>)
    ensures a + b + c == a + (b + c)
  {
  }

  lemma {:induction false} SplitAppend<T>(a: seq<T>, b: seq<T>)
    ensures (a + b)[..|a|] == a && (a + b)[|a|..] == b
  {
  }

  lemma {:induction false} RegroupAfter<T>(a: seq<T>, b: seq<T>, c: seq<T>, d: seq<T>, e: seq<T>)
    ensures a + b + c + d + e == a + (b + c + d + e)
  {
  }

  lemma {:induction false} ValueOfDecimal(v: nat)
    ensures Value(Decimal(v)) == v
  {
    if v >= 10 {
      var d := Decimal(v);
      assert d[..|d| - 1] == Decimal(v / 10);
      ValueOfDecimal(v / 10);
    }
  }

  lemma {:induction false} DigitCountOfPrefix(d: string, t: string)
    requires AllDigits(d)
    requires t == [] || !IsDigit(t[0])
    ensures DigitCount(d + t) == |d|
  {
    if d != [] {
      assert (d + t)[1..] == d[1..] + t;
      DigitCountOfPrefix(d[1..], t);
    }
  }

  /** Whitespace before a number does not change what `>> n` reads. */
  lemma {:induction false} ReadIntAfterSpace(w: string, x: string)
    requires AllSpace(w)
    ensures ReadInt(w + x) == ReadInt(x)
  {
    if w == [] {
      assert w + x == x;
    } else {
      assert (w + x)[0] == w[0] && (w + x)[1..] == w[1..] + x;
      ReadIntAfterSpace(w[1..], x);
    }
  }

  /** Whitespace before a character does not change what `>> c` reads. */
  lemma {:induction false} ReadCharAfterSpace(w: string, x: string)
    requires AllSpace(w)
    ensures ReadChar(w + x) == ReadChar(x)
  {
    if w == [] {
      assert w + x == x;
    } else {
      assert (w + x)[0] == w[0] && (w + x)[1..] == w[1..] + x;
      ReadCharAfterSpace(w[1..], x);
    }
  }

  lemma {:induction false} ReadIntAtDigit(u: string)
    requires u != [] && IsDigit(u[0])
    ensures ReadInt(u) == ReadDigits(false, u)
  {
  }

  lemma {:induction false} ReadIntAtSign(c: char, u: string)
    requires c == '+' || c == '-'
    ensures ReadInt([c] + u) == ReadDigits(c == '-', u)
  {
    assert ([c] + u)[1..] == u;
  }

  /** A run of digits followed by a non-digit reads back as the number the
      digits denote, signed, when that fits an `int`. */
  lemma {:induction false} ReadDigitsRun(negative: bool, d: string, t: string)
    requires d != [] && AllDigits(d)
    requires t == [] || !IsDigit(t[0])
    ensures ReadDigits(negative, d + t) ==
              var r: int := if negative then -(Value(d) as int) else Value(d);
              if IsInt32(r) then Some(Read(r, t)) else None
  {
    DigitCountOfPrefix(d, t);
    SplitAppend(d, t);
  }

  /** An optional sign and a run of digits read back as the signed number
      the digits denote when it fits an `int`; otherwise the extraction fails. */
  lemma {:induction false} ReadIntSigned(sign: string, d: string, t: string)
    requires IsSign(sign) && d != [] && AllDigits(d)
    requires t == [] || !IsDigit(t[0])
    ensures ReadInt(sign + d + t) ==
              var r := Signed(sign, Value(d));
              if IsInt32(r) then Some(Read(r, t)) else None
  {
    var u := d + t;
    ReadDigitsRun(sign == "-", d, t);
    RegroupPair(sign, d, t);
    if sign == "" {
      assert sign + u == u && u[0] == d[0];
      ReadIntAtDigit(u);
    } else {
      assert sign + u == [sign[0]] + u;
      ReadIntAtSign(sign[0], u);
    }
  }

  /** Whitespace, an optional sign and a run of digits read back as the
      signed number the digits denote when it fits an `int`; otherwise the
      extraction fails. */
  lemma {:induction false} ReadIntWritten(w: string, sign: string, d: Digits, t: string)
    requires AllSpace(w) && IsSign(sign)
    requires t == [] || !IsDigit(t[0])
    ensures ReadInt(w + sign + d + t) ==
              var r := Signed(sign, Value(d));
              if IsInt32(r) then Some(Read(r, t)) else None
  {
    Regroup(w, sign, d, t);
    ReadIntAfterSpace(w, sign + d + t);
    ReadIntSigned(sign, d, t);
  }

  /** `>> n` fails when the first character after the whitespace starts no
      number: it is neither a digit nor a sign followed by a digit, as in
      `x1`, `,1`, `- 1` or `+-1`. */
  lemma {:induction false} ReadIntNoNumber(w: string, x: string)
    requires AllSpace(w)
    requires x == [] || (!IsSpace(x[0]) && !IsDigit(x[0])
                         && !((x[0] == '+' || x[0] == '-') && |x| > 1 && IsDigit(x[1])))
    ensures ReadInt(w + x) == None
  {
    ReadIntAfterSpace(w, x);
    if x != [] && (x[0] == '+' || x[0] == '-') {
      assert x == [x[0]] + x[1..];
      ReadIntAtSign(x[0], x[1..]);
    }
  }

  /** The value round trip: writing `v` in decimal (after whitespace and an
      optional sign) and reading it back gives the signed `v` when it fits
      an `int`, and fails otherwise. This is `ReadIntWritten` for the digits
      `Decimal` produces. */
  lemma {:induction false} ReadIntSpelled(w: string, sign: string, v: nat, t: string)
    requires AllSpace(w) && IsSign(sign)
    requires t == [] || !IsDigit(t[0])
    ensures ReadInt(w + sign + Decimal(v) + t) ==
              if IsInt32(Signed(sign, v)) then Some(Read(Signed(sign, v), t)) else None
  {
    ReadIntWritten(w, sign, Decimal(v), t);
    ValueOfDecimal(v);
  }

  /** `>> c` skips whitespace and reads the first character that is not
      whitespace, leaving what follows it: after `0,1` the separator read
      from `";"` or `" x"` is that character, not a comma. */
  lemma {:induction false} ReadCharAt(w: string, c: char, tail: string)
    requires AllSpace(w) && !IsSpace(c)
    ensures ReadChar(w + [c] + tail) == Some(Read(c, tail))
  {
    RegroupPair(w, [c], tail);
    ReadCharAfterSpace(w, [c] + tail);
    assert ([c] + tail)[1..] == tail;
  }

  /** In particular `>> c` skips the whitespace before a comma and reads it. */
  lemma {:induction false} ReadCharComma(w: string, tail: string)
    requires AllSpace(w)
    ensures ReadChar(w + "," + tail) == Some(Read(',', tail))
  {
    ReadCharAt(w, ',', tail);
  }

  /** One complete item gives one cell and leaves the rest to parse. */
  lemma {:induction false} ParseFromItem(item: Item, tail: string)
    requires WellFormed(item)
    ensures ParseFrom(ItemText(item) + tail) ==
              [CellOf(Number(item))] + ParseFrom(tail)
  {
    var rest := item.trail + "," + tail;
    Regroup(item.lead + item.sign + item.digits, item.trail, ",", tail);
    assert rest[0] == ',' || IsSpace(rest[0]);
    ReadIntWritten(item.lead, item.sign, item.digits, rest);
    ReadCharComma(item.trail, tail);
  }

  /** Parsing a run of complete items and then anything else yields the
      items' cells followed by what the rest parses to. */
  lemma {:induction false} ParseFromLine(items: seq<Item>, t: string)
    requires AllWellFormed(items)
    ensures ParseFrom(Line(items) + t) == Cells(items) + ParseFrom(t)
  {
    if items == [] {
      assert Line(items) + t == t;
    } else {
      var tail := Line(items[1..]) + t;
      var first := CellOf(Number(items[0]));
      calc {
        ParseFrom(Line(items) + t);
      == { RegroupPair(ItemText(items[0]), Line(items[1..]), t); }
        ParseFrom(ItemText(items[0]) + tail);
      == { ParseFromItem(items[0], tail); }
        [first] + ParseFrom(tail);
      == { ParseFromLine(items[1..], t); }
        [first] + (Cells(items[1..]) + ParseFrom(t));
      == { RegroupPair([first], Cells(items[1..]), ParseFrom(t)); }
        Cells(items) + ParseFrom(t);
      }
    }
  }

  /** A line written as complete `n,` items parses back to exactly their
      cells: 0 (with any sign) empty, any other value an obstacle. */
  lemma {:induction false} ParseRendered(items: seq<Item>)
    requires AllWellFormed(items)
    ensures ParseFrom(Line(items)) == Cells(items)
  {
    ParseFromLine(items, "");
    assert Line(items) + "" == Line(items);
  }

  /** A number that gives no cell: it does not fit an `int`, or no comma
      follows it because the line ends (possibly after whitespace, as in a
      CRLF line) or the next character after whitespace is not a comma. */
  lemma {:induction false} ParseUnterminated(w: string, sign: string, d: Digits, t: string)
    requires AllSpace(w) && IsSign(sign)
    requires t == [] || !IsDigit(t[0])
    requires !IsInt32(Signed(sign, Value(d))) || ReadChar(t).None? || ReadChar(t).value.value != ','
    ensures ParseFrom(w + sign + d + t) == []
  {
    ReadIntWritten(w, sign, d, t);
  }

  /** So a line of complete items followed by such a number parses to the
      items' cells only: the row's length is the number of complete items
      before it. */
  lemma {:induction false} ParseDropsUnterminated(items: seq<Item>, w: string, sign: string, d: Digits, t: string)
    requires AllWellFormed(items)
    requires AllSpace(w) && IsSign(sign)
    requires t == [] || !IsDigit(t[0])
    requires !IsInt32(Signed(sign, Value(d))) || ReadChar(t).None? || ReadChar(t).value.value != ','
    ensures ParseFrom(Line(items) + w + sign + d + t) == Cells(items)
  {
    RegroupAfter(Line(items), w, sign, d, t);
    ParseFromLine(items, w + sign + d + t);
    ParseUnterminated(w, sign, d, t);
    assert Cells(items) + [] == Cells(items);
  }

  /** The row ends at the first item that does not start with a number:
      `0,x1,` parses to one empty cell. */
  lemma {:induction false} ParseStopsAtNonNumber(items: seq<Item>, w: string, x: string)
    requires AllWellFormed(items)
    requires AllSpace(w)
    requires x == [] || (!IsSpace(x[0]) && !IsDigit(x[0])
                         && !((x[0] == '+' || x[0] == '-') && |x| > 1 && IsDigit(x[1])))
    ensures ParseFrom(Line(items) + w + x) == Cells(items)
  {
    RegroupPair(Line(items), w, x);
    ParseFromLine(items, w + x);
    ReadIntNoNumber(w, x);
    assert Cells(items) + [] == Cells(items);
  }
}
