/** `Util._stripQuotes`: the part of a line between its first and its last double quote. */
module Util {
  import opened Types
  import opened PyStr

  /** `line[line.find('"') + 1 : line.rfind('"')]`, with Python's slice rules: always one
      contiguous piece of the line. */
  function StripQuotes(line: string): (r: string)
    ensures |r| <= |line|
    ensures exists a, b | 0 <= a <= b <= |line| :: r == line[a..b]
  {
    var r := Slice(line, Find(line, '"') + 1, RFind(line, '"'));
    var a := SliceBound(Find(line, '"') + 1, |line|);
    var start := if r == [] then 0 else a;
    assert 0 <= start <= start + |r| <= |line| && r == line[start..start + |r|];
    r
  }

  /** With a first quote at `f` and a last quote at `l > f`, the result is what lies strictly
      between them, whatever quotes it contains itself. */
  lemma StripQuotesBetween(line: string, f: int, l: int)
    requires 0 <= f < l < |line|
    requires line[f] == '"' && line[l] == '"'
    requires '"' !in line[..f] && '"' !in line[l + 1..]
    ensures StripQuotes(line) == line[f + 1..l]
  {
    var a := Find(line, '"');
    var b := RFind(line, '"');
    assert a == f;
    assert b == l;
  }

  /** A quoted field followed by a suffix with no quote (the `,` and newline of an XPM line)
      strips back to the field. */
  lemma StripQuotesWrapped(s: string, t: string)
    requires '"' !in t
    ensures StripQuotes(['"'] + s + ['"'] + t) == s
  {
    var line := ['"'] + s + ['"'] + t;
    assert line[..0] == [];
    assert line[|s| + 2..] == t;
    StripQuotesBetween(line, 0, |s| + 1);
    assert line[1..|s| + 1] == s;
  }

  /** Without a quote, `find` and `rfind` give -1 and the slice `line[0:-1]` drops the last
      character. */
  lemma StripQuotesNoQuote(line: string)
    requires '"' !in line
    ensures StripQuotes(line) == if line == [] then [] else line[..|line| - 1]
  {
  }

  /** With exactly one quote, `find` and `rfind` agree and the slice is empty. */
  lemma StripQuotesOneQuote(line: string, p: int)
    requires 0 <= p < |line| && line[p] == '"'
    requires forall q :: 0 <= q < |line| && q != p ==> line[q] != '"'
    ensures StripQuotes(line) == []
  {
    var a := Find(line, '"');
    var b := RFind(line, '"');
    assert a == p;
    assert b == p;
  }
}
