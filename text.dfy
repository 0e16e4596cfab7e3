/** String helpers the diagnostics need: joining and splitting on a
    separator (Python's `str.join` and `str.split`), substring search
    (Python's `in` on strings) and decimal rendering of naturals. */
module Text {

  /** `sep.join(parts)`: the parts in order with `sep` between neighbours
      and nothing after the last one. */
  function Join(sep: string, parts: seq<string>): (s: string)
    ensures parts == [] ==> s == ""
    ensures parts != [] ==> IsPrefix(parts[0], s)
    ensures parts != [] ==> IsSuffix(parts[|parts| - 1], s)
    ensures |parts| > 1 ==> IsPrefix(parts[0] + sep, s)
    decreases |parts|
  {
    if |parts| == 0 then ""
    else if |parts| == 1 then parts[0]
    else parts[0] + sep + Join(sep, parts[1..])
  }

  lemma JoinThree(sep: string, a: string, b: string, c: string)
    ensures Join(sep, [a, b, c]) == a + sep + b + sep + c
  {
    var parts := [a, b, c];
    assert parts[1..] == [b, c];
    assert parts[1..][1..] == [c];
    assert Join(sep, [b, c]) == b + sep + c;
  }

  /** Each of three joined parts occurs in the joined string. */
  lemma JoinThreeContains(sep: string, a: string, b: string, c: string)
    ensures IsInfix(a, Join(sep, [a, b, c]))
    ensures IsInfix(b, Join(sep, [a, b, c]))
    ensures IsInfix(c, Join(sep, [a, b, c]))
  {
    JoinThree(sep, a, b, c);
    var s := Join(sep, [a, b, c]);
    assert s == "" + a + (sep + b + sep + c);
    InfixOfConcat("", a, sep + b + sep + c);
    assert s == (a + sep) + b + (sep + c);
    InfixOfConcat(a + sep, b, sep + c);
    assert s == (a + sep + b + sep) + c + "";
    InfixOfConcat(a + sep + b + sep, c, "");
  }

  predicate IsPrefix(p: string, s: string) {
    |p| <= |s| && s[..|p|] == p
  }

  predicate IsSuffix(p: string, s: string) {
    |p| <= |s| && s[|s| - |p|..] == p
  }

  /** `needle in hay` for Python strings. */
  predicate IsInfix(needle: string, hay: string) {
    exists i :: 0 <= i <= |hay| && IsPrefix(needle, hay[i..])
  }

  lemma InfixOfConcat(a: string, b: string, c: string)
    ensures IsInfix(b, a + b + c)
  {
    var s := a + b + c;
    assert s[|a|..][..|b|] == b;
  }

  /** Index of the first `c` in `s`, or `|s|` when there is none. */
  function IndexOf(s: string, c: char): (i: nat)
    ensures i <= |s|
    ensures i < |s| ==> s[i] == c
    ensures forall j :: 0 <= j < i ==> s[j] != c
    decreases |s|
  {
    if |s| == 0 then 0
    else if s[0] == c then 0
    else 1 + IndexOf(s[1..], c)
  }

  /** `s.split(c)`: the pieces between occurrences of `c`; a string
      without `c` (the empty string included) is one piece. */
  function Split(s: string, c: char): (pieces: seq<string>)
    ensures |pieces| > 0
    decreases |s|
  {
    var i := IndexOf(s, c);
    if i == |s| then [s] else [s[..i]] + Split(s[i + 1..], c)
  }

  lemma SplitNone(x: string, c: char)
    requires c !in x
    ensures Split(x, c) == [x]
  {
  }

  lemma SplitFirst(x: string, c: char, t: string)
    requires c !in x
    ensures Split(x + [c] + t, c) == [x] + Split(t, c)
  {
    var s := x + [c] + t;
    var i := IndexOf(s, c);
    assert s[|x|] == c;
    assert s[..|x|] == x;
    assert i == |x|;
    assert s[i + 1..] == t;
  }

  /** Splitting a join on the separator character gives the parts back,
      provided no part contains that character. */
  lemma {:induction false} SplitJoin(parts: seq<string>, c: char)
    requires parts != []
    requires forall k :: 0 <= k < |parts| ==> c !in parts[k]
    ensures Split(Join([c], parts), c) == parts
    decreases |parts|
  {
    var x := parts[0];
    assert c !in x;
    if |parts| == 1 {
      SplitNone(x, c);
    } else {
      var rest := parts[1..];
      assert Join([c], parts) == x + [c] + Join([c], rest);
      SplitFirst(x, c, Join([c], rest));
      forall k | 0 <= k < |rest| ensures c !in rest[k] {
        assert rest[k] == parts[k + 1];
      }
      SplitJoin(rest, c);
      assert parts == [x] + rest;
    }
  }

  function Digit(d: nat): (ch: char)
    requires d < 10
    ensures '0' <= ch <= '9'
    ensures ch as int - '0' as int == d
  {
    ('0' as int + d) as char
  }

  /** Decimal rendering of a natural number, as `str(n)` or an f-string
      gives it: no sign, no leading zeros. */
  function NatToString(n: nat): (s: string)
    ensures |s| > 0
    ensures forall i :: 0 <= i < |s| ==> '0' <= s[i] <= '9'
    ensures s[0] == '0' <==> n == 0
    ensures |s| > 1 ==> s[0] != '0'
    decreases n
  {
    if n < 10 then [Digit(n)] else NatToString(n / 10) + [Digit(n % 10)]
  }

  predicate IsDecimal(s: string) {
    forall i :: 0 <= i < |s| ==> '0' <= s[i] <= '9'
  }

  /** The number a string of decimal digits denotes. */
  function DecimalValue(s: string): nat
    requires IsDecimal(s)
    decreases |s|
  {
    if s == [] then 0
    else DecimalValue(s[..|s| - 1]) * 10 + (s[|s| - 1] as int - '0' as int)
  }

  /** Reading back a rendered number gives the number: different numbers
      render differently. */
  lemma {:induction false} DecimalRoundTrip(n: nat)
    ensures DecimalValue(NatToString(n)) == n
    decreases n
  {
    var s := NatToString(n);
    if n >= 10 {
      assert s[..|s| - 1] == NatToString(n / 10);
      DecimalRoundTrip(n / 10);
    }
  }
}
