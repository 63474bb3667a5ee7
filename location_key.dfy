/** The string key "row,column" under which the TypeScript solver records a
  * visited location, with integers written the way a template literal
  * writes them (decimal, a leading '-' for negatives). Distinct locations
  * get distinct keys, so a set of keys behaves as a set of locations. */
module LocationKey {
  import opened Grid

  predicate IsDigit(ch: char)
  {
    '0' <= ch <= '9'
  }

  function DigitChar(d: int): (ch: char)
    requires 0 <= d < 10
    ensures IsDigit(ch) && ch as int - '0' as int == d
  {
    ('0' as int + d) as char
  }

  /** Decimal notation of `n` without leading zeros. */
  function NatToString(n: nat): (s: string)
    ensures |s| >= 1 && forall k :: 0 <= k < |s| ==> IsDigit(s[k])
  {
    if n < 10 then [DigitChar(n)] else NatToString(n / 10) + [DigitChar(n % 10)]
  }

  function DigitValue(ch: char): nat
    requires IsDigit(ch)
  {
    ch as int - '0' as int
  }

  /** Reads a string of decimal digits back as a number. */
  function ParseDigits(s: string): nat
    requires forall k :: 0 <= k < |s| ==> IsDigit(s[k])
  {
    if |s| == 0 then 0 else ParseDigits(s[..|s| - 1]) * 10 + DigitValue(s[|s| - 1])
  }

  lemma {:induction false} ParseNatToString(n: nat)
    ensures ParseDigits(NatToString(n)) == n
  {
    var s := NatToString(n);
    if n >= 10 {
      ParseNatToString(n / 10);
      assert s[..|s| - 1] == NatToString(n / 10);
    }
  }

  function IntToString(i: int): (s: string)
    ensures |s| >= 1 && forall k :: 0 <= k < |s| ==> s[k] != ','
  {
    if i < 0 then "-" + NatToString(-i) else NatToString(i)
  }

  /** Reads back what `IntToString` writes. */
  function ParseInt(s: string): int
  {
    if |s| > 0 && s[0] == '-' && (forall k :: 0 <= k < |s[1..]| ==> IsDigit(s[1..][k])) then 0 - ParseDigits(s[1..])
    else if forall k :: 0 <= k < |s| ==> IsDigit(s[k]) then ParseDigits(s)
    else 0
  }

  lemma IntToStringRoundTrip(i: int)
    ensures ParseInt(IntToString(i)) == i
  {
    var s := IntToString(i);
    if i < 0 {
      assert s[1..] == NatToString(-i);
      ParseNatToString(-i);
    } else {
      ParseNatToString(i);
    }
  }

  /** The text before the first comma. */
  function BeforeComma(s: string): string
  {
    if |s| == 0 || s[0] == ',' then "" else [s[0]] + BeforeComma(s[1..])
  }

  /** The text after the first comma. */
  function AfterComma(s: string): string
  {
    if |s| == 0 then "" else if s[0] == ',' then s[1..] else AfterComma(s[1..])
  }

  lemma {:induction false} SplitAtComma(x: string, y: string)
    requires forall k :: 0 <= k < |x| ==> x[k] != ','
    ensures BeforeComma(x + "," + y) == x && AfterComma(x + "," + y) == y
  {
    if |x| > 0 {
      SplitAtComma(x[1..], y);
      assert (x + "," + y)[1..] == x[1..] + "," + y;
    }
  }

  /** The key `${row},${column}`: it splits at its one comma into the
    * decimal renderings of the row and of the column. */
  function Key(l: Location): (k: string)
    ensures BeforeComma(k) == IntToString(l.row) && AfterComma(k) == IntToString(l.column)
  {
    SplitAtComma(IntToString(l.row), IntToString(l.column));
    IntToString(l.row) + "," + IntToString(l.column)
  }

  function ParseKey(k: string): Location
  {
    Location(ParseInt(BeforeComma(k)), ParseInt(AfterComma(k)))
  }

  lemma KeyRoundTrip(l: Location)
    ensures ParseKey(Key(l)) == l
  {
    IntToStringRoundTrip(l.row);
    IntToStringRoundTrip(l.column);
  }

  /** Distinct locations have distinct keys. */
  lemma KeyInjective(a: Location, b: Location)
    ensures Key(a) == Key(b) <==> a == b
  {
    KeyRoundTrip(a);
    KeyRoundTrip(b);
  }

  /** `keys` holds exactly the keys of `locations`. */
  ghost predicate KeysOf(keys: set<string>, locations: set<Location>)
  {
    forall l {:trigger Key(l)} :: l in locations <==> Key(l) in keys
  }

  /** The set holding one location's key stands for that location alone. */
  lemma KeysOfSingle(l: Location)
    ensures KeysOf({Key(l)}, {l})
  {
    forall m ensures m == l <==> Key(m) == Key(l) {
      KeyInjective(m, l);
    }
  }

  /** Adding a location's key to the keys adds the location. */
  lemma KeysOfAdd(keys: set<string>, locations: set<Location>, l: Location)
    requires KeysOf(keys, locations)
    ensures KeysOf(keys + {Key(l)}, locations + {l})
  {
    forall m ensures m in locations + {l} <==> Key(m) in keys + {Key(l)} {
      KeyInjective(m, l);
    }
  }
}
