/** The two pieces of java.lang that the course-record parser relies on:
    `String.split` with a one-character literal separator and `Integer.parseInt`. */
module Text {
  import opened Maybe

  /** Position of the first `d` in `s`. */
  function IndexOf(s: string, d: char): (i: nat)
    requires d in s
    ensures i < |s| && s[i] == d && d !in s[..i]
  {
    if s[0] == d then 0
    else
      var j := IndexOf(s[1..], d);
      assert s[..j + 1] == [s[0]] + s[1..][..j];
      1 + j
  }

  /** The first occurrence is the only position holding `d` with no `d` before it. */
  lemma IndexOfUnique(s: string, d: char, n: nat)
    requires n < |s| && s[n] == d && d !in s[..n]
    ensures IndexOf(s, d) == n
  {
  }

  /** The pieces joined by `d`, the inverse of `Pieces`. */
  function Join(xs: seq<string>, d: char): string
    requires |xs| >= 1
    decreases |xs|
  {
    if |xs| == 1 then xs[0] else xs[0] + [d] + Join(xs[1..], d)
  }

  /** Every piece of `s` between occurrences of `d`, empty pieces included. */
  function Pieces(s: string, d: char): (r: seq<string>)
    ensures |r| >= 1
    decreases |s|
  {
    if d !in s then [s]
    else
      var i := IndexOf(s, d);
      [s[..i]] + Pieces(s[i + 1..], d)
  }

  /** The pieces hold no separator, and joined by it they give the text back. */
  lemma {:induction false} JoinOfPieces(s: string, d: char)
    ensures forall k :: 0 <= k < |Pieces(s, d)| ==> d !in Pieces(s, d)[k]
    ensures Join(Pieces(s, d), d) == s
    decreases |s|
  {
    if d in s {
      var i := IndexOf(s, d);
      var rest := Pieces(s[i + 1..], d);
      JoinOfPieces(s[i + 1..], d);
      var r := Pieces(s, d);
      assert r == [s[..i]] + rest && r[1..] == rest;
      assert s == s[..i] + [d] + s[i + 1..];
    }
  }

  /** Drops the empty strings at the end of `xs`. */
  function DropTrailingEmpty(xs: seq<string>): seq<string> {
    if xs != [] && xs[|xs| - 1] == "" then DropTrailingEmpty(xs[..|xs| - 1]) else xs
  }

  /** What is dropped is exactly the run of empty strings at the end: the result is a prefix,
      does not end in an empty string, and everything after it is empty. */
  lemma {:induction false} DropTrailingEmptyShape(xs: seq<string>)
    ensures var r := DropTrailingEmpty(xs);
      && |r| <= |xs| && r == xs[..|r|]
      && (r != [] ==> r[|r| - 1] != "")
      && forall k :: |r| <= k < |xs| ==> xs[k] == ""
    decreases |xs|
  {
    if xs != [] && xs[|xs| - 1] == "" {
      var ys := xs[..|xs| - 1];
      DropTrailingEmptyShape(ys);
      var r := DropTrailingEmpty(ys);
      assert ys[..|r|] == xs[..|r|];
      assert forall k :: |r| <= k < |ys| ==> xs[k] == ys[k];
    }
  }

  /** `s.split(d)` in Java: when `d` does not occur the result is `[s]` itself (so `""` gives
      `[""]`); otherwise the pieces, with trailing empty pieces removed. */
  function Split(s: string, d: char): seq<string> {
    if d !in s then [s] else DropTrailingEmpty(Pieces(s, d))
  }

  /** Splitting what was joined gives the pieces back, as long as no piece holds the
      separator and the last piece is not empty. */
  lemma {:induction false} PiecesOfJoin(xs: seq<string>, d: char)
    requires |xs| >= 1
    requires forall k :: 0 <= k < |xs| ==> d !in xs[k]
    ensures Pieces(Join(xs, d), d) == xs
    decreases |xs|
  {
    if |xs| > 1 {
      var s := Join(xs, d);
      var n := |xs[0]|;
      var t := Join(xs[1..], d);
      assert s == xs[0] + [d] + t;
      assert s[n] == d && s[..n] == xs[0] && s[n + 1..] == t;
      IndexOfUnique(s, d, n);
      assert Pieces(s, d) == [xs[0]] + Pieces(t, d);
      PiecesOfJoin(xs[1..], d);
      assert xs == [xs[0]] + xs[1..];
    }
  }

  lemma SplitOfJoin(xs: seq<string>, d: char)
    requires |xs| >= 1 && xs[|xs| - 1] != ""
    requires forall k :: 0 <= k < |xs| ==> d !in xs[k]
    ensures Split(Join(xs, d), d) == xs
  {
    PiecesOfJoin(xs, d);
    if |xs| > 1 {
      var s := Join(xs, d);
      assert s == xs[0] + [d] + Join(xs[1..], d);
      assert s[|xs[0]|] == d;
    }
  }

  predicate IsDigit(c: char) {
    '0' <= c <= '9'
  }

  predicate AllDigits(s: string) {
    forall k :: 0 <= k < |s| ==> IsDigit(s[k])
  }

  /** The decimal value of a string of ASCII digits. */
  function DigitsValue(s: string): nat
    requires AllDigits(s)
    decreases |s|
  {
    if s == [] then 0 else 10 * DigitsValue(s[..|s| - 1]) + (s[|s| - 1] as int - '0' as int)
  }

  const Int32Min: int := -0x8000_0000
  const Int32Max: int := 0x7fff_ffff

  /** The range of a Java `int`. */
  predicate IsInt32(n: int) {
    Int32Min <= n <= Int32Max
  }

  /** `Integer.parseInt(s)` in radix 10: an optional sign, at least one digit, and a value that
      fits an `int`; anything else is a NumberFormatException, here `None`. */
  function ParseInt(s: string): (r: Option<int>)
    ensures r.Some? ==> IsInt32(r.value)
  {
    var signed := |s| > 0 && (s[0] == '-' || s[0] == '+');
    var digits := if signed then s[1..] else s;
    if digits == [] || !AllDigits(digits) then None
    else
      var v: int := if s[0] == '-' then -(DigitsValue(digits) as int) else DigitsValue(digits);
      if IsInt32(v) then Some(v) else None
  }

  function DigitChar(d: nat): char
    requires d < 10
  {
    ('0' as int + d) as char
  }

  /** Decimal notation of a natural number, without leading zeros. */
  function NatToString(n: nat): string
    decreases n
  {
    if n < 10 then [DigitChar(n)] else NatToString(n / 10) + [DigitChar(n % 10)]
  }

  /** `Integer.toString(n)`. */
  function IntToString(n: int): string {
    if n < 0 then "-" + NatToString(-n) else NatToString(n)
  }

  lemma {:induction false} NatToStringDigits(n: nat)
    ensures NatToString(n) != [] && AllDigits(NatToString(n))
    ensures DigitsValue(NatToString(n)) == n
    decreases n
  {
    if n >= 10 {
      NatToStringDigits(n / 10);
      var s := NatToString(n);
      assert s[..|s| - 1] == NatToString(n / 10);
    }
  }

  /** `Integer.parseInt` reads back what `Integer.toString` writes, for every `int`. */
  lemma ParseIntOfIntToString(n: int)
    requires IsInt32(n)
    ensures ParseInt(IntToString(n)) == Some(n)
  {
    var s := IntToString(n);
    if n < 0 {
      NatToStringDigits(-n);
      assert s[0] == '-' && s[1..] == NatToString(-n);
      assert -(DigitsValue(s[1..]) as int) == n;
    } else {
      NatToStringDigits(n);
      assert s == NatToString(n) && IsDigit(s[0]);
    }
  }

  /** The written form of an `int` is a non-empty run of digits after an optional minus sign,
      so it never holds a field or list separator. */
  lemma IntToStringShape(n: int)
    ensures IntToString(n) != ""
    ensures forall k :: 0 <= k < |IntToString(n)| ==> IsDigit(IntToString(n)[k]) || IntToString(n)[k] == '-'
  {
    if n < 0 {
      NatToStringDigits(-n);
      assert IntToString(n)[1..] == NatToString(-n);
    } else {
      NatToStringDigits(n);
    }
  }
}
