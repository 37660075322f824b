/** The few Python string operations the converter relies on: `find`, `rfind`, slicing,
    `split(' ')`, `int` on a token, and the search for a fixed substring (`MatchAt`,
    `Contains`) that `re.search` does for a pattern without special characters. */
module PyStr {
  import opened Types

  /** `s.find(ch)`: the index of the first `ch` in `s`, or -1. */
  function Find(s: string, ch: char): (r: int)
    ensures -1 <= r < |s|
    ensures r == -1 <==> ch !in s
    ensures 0 <= r ==> s[r] == ch && forall k :: 0 <= k < r ==> s[k] != ch
  {
    if s == [] then -1
    else if s[0] == ch then 0
    else
      var k := Find(s[1..], ch);
      assert s == [s[0]] + s[1..];
      if k == -1 then -1 else k + 1
  }

  /** `s.rfind(ch)`: the index of the last `ch` in `s`, or -1. */
  function RFind(s: string, ch: char): (r: int)
    ensures -1 <= r < |s|
    ensures r == -1 <==> ch !in s
    ensures 0 <= r ==> s[r] == ch && forall k :: r < k < |s| ==> s[k] != ch
  {
    if s == [] then -1
    else if s[|s| - 1] == ch then
      |s| - 1
    else
      var k := RFind(s[..|s| - 1], ch);
      assert s == s[..|s| - 1] + [s[|s| - 1]];
      k
  }

  /** How Python normalises one bound of a slice of a sequence of length `n`:
      a negative bound counts from the end, and the result is clamped to `[0, n]`. */
  function SliceBound(i: int, n: nat): (k: nat)
    ensures k <= n
    ensures 0 <= i ==> k == Min(i, n)
    ensures i < 0 ==> k == (if i + n < 0 then 0 else i + n)
  {
    if i < 0 then (if i + n < 0 then 0 else i + n)
    else if i > n then n
    else i
  }

  /** `s[i:j]`. */
  function Slice(s: string, i: int, j: int): (r: string)
    ensures |r| <= |s|
    ensures 0 <= i <= j ==> r == s[Min(i, |s|)..Min(j, |s|)]
    ensures 0 <= j <= i ==> r == []
    ensures |r| > 0 ==> SliceBound(i, |s|) + |r| <= |s| && r == s[SliceBound(i, |s|)..SliceBound(i, |s|) + |r|]
  {
    var a := SliceBound(i, |s|);
    var b := SliceBound(j, |s|);
    if a < b then s[a..b] else []
  }

  /** `s.split(sep)` with an explicit one-character separator: every occurrence of `sep`
      cuts, so two adjacent separators give an empty piece and `""` gives `[""]`. */
  function Split(s: string, sep: char): (r: seq<string>)
    ensures |r| >= 1
    ensures forall i :: 0 <= i < |r| ==> sep !in r[i]
    decreases |s|
  {
    var k := Find(s, sep);
    if k == -1 then [s]
    else [s[..k]] + Split(s[k + 1..], sep)
  }

  /** `sep.join(parts)`: the inverse of `Split`. */
  function Join(parts: seq<string>, sep: char): string
  {
    if |parts| == 0 then []
    else if |parts| == 1 then parts[0]
    else parts[0] + [sep] + Join(parts[1..], sep)
  }

  /** Splitting loses nothing: joining the pieces with the separator gives the string back. */
  lemma {:induction false} JoinSplit(s: string, sep: char)
    ensures Join(Split(s, sep), sep) == s
    decreases |s|
  {
    var k := Find(s, sep);
    if k != -1 {
      var rest := s[k + 1..];
      var tail := Split(rest, sep);
      var pieces := Split(s, sep);
      JoinSplit(rest, sep);
      assert pieces == [s[..k]] + tail;
      assert |pieces| >= 2 && pieces[0] == s[..k] && pieces[1..] == tail;
      assert Join(pieces, sep) == s[..k] + [sep] + Join(tail, sep);
      assert s == s[..k] + [sep] + rest;
    }
  }

  /** Pieces without the separator are recovered exactly by splitting their join. */
  lemma {:induction false} SplitJoin(parts: seq<string>, sep: char)
    requires |parts| >= 1
    requires forall i :: 0 <= i < |parts| ==> sep !in parts[i]
    ensures Split(Join(parts, sep), sep) == parts
  {
    if |parts| == 1 {
      assert Find(parts[0], sep) == -1;
    } else {
      var s := Join(parts, sep);
      var rest := Join(parts[1..], sep);
      assert s == parts[0] + [sep] + rest;
      var k := Find(s, sep);
      assert s[|parts[0]|] == sep;
      assert s[..|parts[0]|] == parts[0];
      assert k == |parts[0]|;
      assert s[..k] == parts[0];
      assert s[k + 1..] == rest;
      SplitJoin(parts[1..], sep);
    }
  }

  /** `pat` occurs in `s` at index `p`. */
  predicate MatchAt(s: string, pat: string, p: int)
  {
    0 <= p && p + |pat| <= |s| && forall k | 0 <= k < |pat| :: s[p + k] == pat[k]
  }

  /** `re.search(pat, s)` for a pattern without special characters: `pat` occurs in `s`. */
  predicate Contains(s: string, pat: string)
  {
    exists p | 0 <= p <= |s| - |pat| :: MatchAt(s, pat, p)
  }

  predicate IsDigit(c: char)
  {
    '0' <= c <= '9'
  }

  /** A non-empty run of ASCII digits. */
  predicate IsDigits(s: string)
  {
    |s| > 0 && forall i :: 0 <= i < |s| ==> IsDigit(s[i])
  }

  function DigitValue(c: char): nat
    requires IsDigit(c)
  {
    c as int - '0' as int
  }

  /** The value of a decimal numeral. */
  function DigitsValue(s: string): nat
    requires forall i :: 0 <= i < |s| ==> IsDigit(s[i])
  {
    if s == [] then 0
    else DigitsValue(s[..|s| - 1]) * 10 + DigitValue(s[|s| - 1])
  }

  /** `int(tok)` for the literals a header holds: an optional sign and a run of ASCII digits.
      Anything else is a `ValueError`, here `None`. */
  function ParseInt(tok: string): (r: Option<int>)
    ensures r.Some? ==> tok != [] && ' ' !in tok
  {
    if |tok| > 0 && (tok[0] == '-' || tok[0] == '+') then
      var digits := tok[1..];
      if IsDigits(digits) then
        assert tok == [tok[0]] + digits;
        var v: int := DigitsValue(digits);
        Some(if tok[0] == '-' then -v else v)
      else None
    else if IsDigits(tok) then Some(DigitsValue(tok))
    else None
  }

  /** `[int(x) for x in toks]`: all tokens parse, or the whole list fails. */
  function ParseInts(toks: seq<string>): (r: Option<seq<int>>)
    ensures r.Some? <==> forall i :: 0 <= i < |toks| ==> ParseInt(toks[i]).Some?
    ensures r.Some? ==> |r.value| == |toks| && forall i :: 0 <= i < |toks| ==> ParseInt(toks[i]) == Some(r.value[i])
  {
    if toks == [] then Some([])
    else
      var head := ParseInt(toks[0]);
      var tail := ParseInts(toks[1..]);
      assert forall i :: 1 <= i < |toks| ==> toks[i] == toks[1..][i - 1];
      if head.Some? && tail.Some? then Some([head.value] + tail.value) else None
  }

  /** The decimal numeral of `n`, as the program that wrote the header would print it. */
  function Decimal(n: nat): (s: string)
    ensures |s| > 0
  {
    var last := [('0' as int + n % 10) as char];
    if n < 10 then last else Decimal(n / 10) + last
  }

  function Decimals(ns: seq<nat>): (parts: seq<string>)
    ensures |parts| == |ns|
  {
    seq(|ns|, i requires 0 <= i < |ns| => Decimal(ns[i]))
  }

  lemma {:induction false} DecimalValue(n: nat)
    ensures IsDigits(Decimal(n)) && DigitsValue(Decimal(n)) == n
  {
    var s := Decimal(n);
    if n >= 10 {
      DecimalValue(n / 10);
      assert s[..|s| - 1] == Decimal(n / 10);
    }
  }

  lemma DecimalNoSpace(n: nat)
    ensures ' ' !in Decimal(n)
  {
    DecimalValue(n);
    var s := Decimal(n);
    assert forall k :: 0 <= k < |s| ==> s[k] != ' ';
  }

  /** `int` reads back what the numeral printer writes, with or without a sign. */
  lemma ParseIntDecimal(n: nat)
    ensures ParseInt(Decimal(n)) == Some(n)
    ensures ParseInt("+" + Decimal(n)) == Some(n)
    ensures ParseInt("-" + Decimal(n)) == Some(-(n as int))
  {
    DecimalValue(n);
    assert ("+" + Decimal(n))[1..] == Decimal(n);
    assert ("-" + Decimal(n))[1..] == Decimal(n);
  }
}
