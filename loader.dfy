/** `XpmLoader`: reads the header, the colour table and the pixel rows of an XPM image.
    The file is a sequence of lines as `readline` returns them, read through a cursor;
    reading past the last line gives the empty string, as `readline` does at end of file. */
module Loader {
  import opened Types
  import opened PyStr
  import opened Util

  /** `f.readline()` with the file positioned at line `i`. */
  function ReadLine(lines: seq<string>, i: nat): string
  {
    if i < |lines| then lines[i] else []
  }

  /** A line that `load_values` passes over: one that does not start with a double quote. */
  predicate Skipped(line: string)
  {
    line != [] && line[0] != '"'
  }

  /** The index of the line `load_values` stops at when it starts reading at `pos`:
      every line before it is skipped, and it is itself either quoted or the end of input. */
  function HeaderLine(lines: seq<string>, pos: nat): (q: nat)
    ensures pos <= q
    ensures forall p :: pos <= p < q ==> Skipped(ReadLine(lines, p))
    ensures !Skipped(ReadLine(lines, q))
    decreases |lines| - pos
  {
    if Skipped(ReadLine(lines, pos)) then HeaderLine(lines, pos + 1) else pos
  }

  /** The integers of a header line: the stripped text split on single spaces, each piece
      read by `int`. */
  function HeaderValues(line: string): (r: Result<seq<int>>)
    ensures r.Err? ==> r.error == BadInteger
    ensures r.Ok? ==> |r.value| == |Split(StripQuotes(line), ' ')|
  {
    match ParseInts(Split(StripQuotes(line), ' '))
    case None => Err(BadInteger)
    case Some(v) => Ok(v)
  }

  /** A header as an XPM writer emits it, the numbers `ns` in decimal separated by single
      spaces between quotes and followed by a suffix without quotes (`,` and the newline),
      reads back as exactly those numbers. */
  lemma HeaderValuesRoundTrip(ns: seq<nat>, suffix: string)
    requires |ns| >= 1 && '"' !in suffix
    ensures HeaderValues(['"'] + Join(Decimals(ns), ' ') + ['"'] + suffix) == Ok(ns)
  {
    var parts := Decimals(ns);
    forall i | 0 <= i < |parts| ensures ' ' !in parts[i] && ParseInt(parts[i]) == Some(ns[i]) {
      DecimalNoSpace(ns[i]);
      ParseIntDecimal(ns[i]);
    }
    var text := Join(parts, ' ');
    StripQuotesWrapped(text, suffix);
    SplitJoin(parts, ' ');
    var v := ParseInts(parts);
    assert v.value == ns;
  }

  /** `re.search(r'c None', line)` succeeds. */
  predicate HasCNone(line: string)
  {
    Contains(line, "c None")
  }

  /** The pattern `c (#......)` matches at `p`: the text `c #` followed by six characters,
      none of them a newline (Python's `.` does not match one). */
  predicate ColorMatchAt(line: string, p: int)
  {
    0 <= p && p + 9 <= |line| && line[p] == 'c' && line[p + 1] == ' ' && line[p + 2] == '#' &&
    forall k | p + 3 <= k < p + 9 :: line[k] != '\n'
  }

  /** The leftmost match of `c (#......)` at or after `i`. */
  function FindColorFrom(line: string, i: nat): (r: Option<nat>)
    ensures r.Some? ==> i <= r.value && ColorMatchAt(line, r.value)
    ensures r.Some? ==> forall p :: i <= p < r.value ==> !ColorMatchAt(line, p)
    ensures r.None? ==> forall p :: i <= p ==> !ColorMatchAt(line, p)
    decreases |line| - i
  {
    if i + 9 > |line| then None
    else if ColorMatchAt(line, i) then Some(i)
    else FindColorFrom(line, i + 1)
  }

  /** `re.search(r'c (#......)', line).group(1)`: the seven characters from the `#` of the
      leftmost match, or `None` when there is no match. */
  function FindColor(line: string): (r: Option<string>)
    ensures r.None? <==> forall p :: !ColorMatchAt(line, p)
    ensures r.Some? ==> exists p :: ColorMatchAt(line, p) && r.value == line[p + 2..p + 9] &&
                          forall q :: 0 <= q < p ==> !ColorMatchAt(line, q)
  {
    match FindColorFrom(line, 0)
    case None => None
    case Some(p) => Some(line[p + 2..p + 9])
  }

  /** The `n` lines read from `pos` on, each stripped of its quotes: what the loops of
      `load_colormap` and `load_pixelmap` work on. */
  function Stripped(lines: seq<string>, pos: nat, n: nat): (texts: seq<string>)
    ensures |texts| == n
  {
    seq(n, j requires 0 <= j < n => StripQuotes(ReadLine(lines, pos + j)))
  }

  /** Reading one more line appends its stripped text. */
  lemma StrippedSnoc(lines: seq<string>, pos: nat, i: nat)
    ensures Stripped(lines, pos, i + 1) == Stripped(lines, pos, i) + [StripQuotes(ReadLine(lines, pos + i))]
  {
  }

  /** A colour-table line that stops the loader: no `c None` and no colour. */
  predicate Malformed(line: string)
  {
    !HasCNone(line) && FindColor(line).None?
  }

  /** The colour table after `load_colormap` has gone through the stripped lines `texts`,
      starting from `m0`: a `c None` line is passed over, a line with a colour binds its code
      `line[:cwidth]`, and a line with neither fails. */
  function ColormapAfter(m0: map<string, string>, texts: seq<string>, cwidth: int)
    : (r: Result<map<string, string>>)
    ensures r.Err? ==> r.error == MalformedColorEntry
  {
    if texts == [] then Ok(m0)
    else
      match ColormapAfter(m0, texts[..|texts| - 1], cwidth)
      case Err(e) => Err(e)
      case Ok(m) =>
        var line := texts[|texts| - 1];
        if HasCNone(line) then Ok(m)
        else
          match FindColor(line)
          case None => Err(MalformedColorEntry)
          case Some(c) => Ok(m[Slice(line, 0, cwidth) := c])
  }

  /** Reference definition of a table entry: the colour of the LAST line of `texts` that
      carries a colour and has code `key`, searching backwards. */
  function LastColor(texts: seq<string>, cwidth: int, key: string): Option<string>
  {
    if texts == [] then None
    else
      var line := texts[|texts| - 1];
      if !HasCNone(line) && FindColor(line).Some? && Slice(line, 0, cwidth) == key then FindColor(line)
      else LastColor(texts[..|texts| - 1], cwidth, key)
  }

  function Lookup(m: map<string, string>, key: string): Option<string>
  {
    if key in m then Some(m[key]) else None
  }

  /** `load_colormap` fails exactly when one of its lines is malformed. */
  lemma {:induction false} ColormapFailure(m0: map<string, string>, texts: seq<string>, cwidth: int)
    ensures ColormapAfter(m0, texts, cwidth).Err? <==> exists j :: 0 <= j < |texts| && Malformed(texts[j])
  {
    if texts != [] {
      var init := texts[..|texts| - 1];
      ColormapFailure(m0, init, cwidth);
      assert forall j :: 0 <= j < |init| ==> init[j] == texts[j];
      if ColormapAfter(m0, texts, cwidth).Err? && ColormapAfter(m0, init, cwidth).Ok? {
        assert Malformed(texts[|texts| - 1]);
      }
    }
  }

  /** On success every code maps to the colour of its last colour line, and a code that no
      colour line names keeps its entry in `m0` (or stays absent): later lines overwrite
      earlier ones, and `c None` lines add nothing. */
  lemma {:induction false} ColormapLookup(m0: map<string, string>, texts: seq<string>, cwidth: int, key: string)
    requires ColormapAfter(m0, texts, cwidth).Ok?
    ensures Lookup(ColormapAfter(m0, texts, cwidth).value, key) ==
            if LastColor(texts, cwidth, key).Some? then LastColor(texts, cwidth, key) else Lookup(m0, key)
  {
    if texts != [] {
      ColormapLookup(m0, texts[..|texts| - 1], cwidth, key);
    }
  }

  /** A code whose colour-table lines all say `c None` gets no entry, so a pixel using it
      cannot be looked up later. */
  lemma CNoneCodeAbsent(m0: map<string, string>, texts: seq<string>, cwidth: int, key: string)
    requires ColormapAfter(m0, texts, cwidth).Ok?
    requires key !in m0
    requires forall j :: 0 <= j < |texts| && Slice(texts[j], 0, cwidth) == key ==> HasCNone(texts[j])
    ensures key !in ColormapAfter(m0, texts, cwidth).value
  {
    NoColorLineNoEntry(texts, cwidth, key);
    ColormapLookup(m0, texts, cwidth, key);
  }

  lemma {:induction false} NoColorLineNoEntry(texts: seq<string>, cwidth: int, key: string)
    requires forall j :: 0 <= j < |texts| && Slice(texts[j], 0, cwidth) == key ==> HasCNone(texts[j])
    ensures LastColor(texts, cwidth, key).None?
  {
    if texts != [] {
      var init := texts[..|texts| - 1];
      assert forall j :: 0 <= j < |init| ==> init[j] == texts[j];
      NoColorLineNoEntry(init, cwidth, key);
    }
  }

  /** Once a prefix of the colour-table lines fails, every longer prefix fails. */
  lemma {:induction false} ColormapStaysFailed(m0: map<string, string>, texts: seq<string>, cwidth: int, i: nat)
    requires i <= |texts|
    requires ColormapAfter(m0, texts[..i], cwidth).Err?
    ensures ColormapAfter(m0, texts, cwidth).Err?
  {
    if i == |texts| {
      assert texts[..i] == texts;
    } else {
      var init := texts[..|texts| - 1];
      assert init[..i] == texts[..i];
      ColormapStaysFailed(m0, init, cwidth, i);
    }
  }

  /** `[line[cwidth*j : cwidth*(j+1)] for j in range(width)]`. */
  function PixelRow(line: string, width: int, cwidth: int): (row: seq<string>)
    ensures |row| == Count(width)
  {
    seq(Count(width), j => Slice(line, cwidth * j, cwidth * (j + 1)))
  }

  /** Code `j` of a row, `line[cwidth*j : cwidth*(j+1)]`: at most `cwidth` characters, and
      exactly the `j`-th `cwidth`-wide slice when the line reaches its end. */
  lemma CodeAt(line: string, cwidth: int, j: int)
    requires 0 <= cwidth && 0 <= j
    ensures 0 <= cwidth * j <= cwidth * (j + 1) == cwidth * j + cwidth
    ensures |Slice(line, cwidth * j, cwidth * (j + 1))| <= cwidth
    ensures cwidth * (j + 1) <= |line| ==> Slice(line, cwidth * j, cwidth * (j + 1)) == line[cwidth * j..cwidth * (j + 1)]
  {
    var a := cwidth * j;
    var b := cwidth * (j + 1);
    assert b == a + cwidth;
    assert 0 <= a;
  }

  lemma MulMonotone(c: int, a: int, b: int)
    requires 0 <= c && a <= b
    ensures c * a <= c * b
  {
    assert c * b - c * a == c * (b - a);
    assert 0 <= c * (b - a);
  }

  lemma CodeEndWithin(line: string, width: int, cwidth: int, j: int)
    requires 0 <= cwidth && 0 <= j < width
    requires width * cwidth <= |line|
    ensures cwidth * (j + 1) <= |line|
  {
    MulMonotone(cwidth, j + 1, width);
    assert width * cwidth == cwidth * width;
  }

  /** Code `j` of a pixel row has at most `cwidth` characters; when the line holds at least
      `width * cwidth` characters it is exactly the `j`-th `cwidth`-wide slice of the line,
      otherwise it may come out short or empty. */
  lemma PixelRowCode(line: string, width: int, cwidth: int, j: int)
    requires 0 <= cwidth && 0 <= j < Count(width)
    ensures 0 <= cwidth * j <= cwidth * (j + 1)
    ensures |PixelRow(line, width, cwidth)[j]| <= cwidth
    ensures width * cwidth <= |line| ==> cwidth * (j + 1) <= |line|
    ensures width * cwidth <= |line| ==>
              |PixelRow(line, width, cwidth)[j]| == cwidth &&
              PixelRow(line, width, cwidth)[j] == line[cwidth * j..cwidth * (j + 1)]
  {
    CodeAt(line, cwidth, j);
    if width * cwidth <= |line| {
      CodeEndWithin(line, width, cwidth, j);
    }
  }

  function Concat(parts: seq<string>): string
  {
    if parts == [] then [] else Concat(parts[..|parts| - 1]) + parts[|parts| - 1]
  }

  /** Appending the slice `line[a..b]` to pieces that spell `line[..a]` spells `line[..b]`. */
  lemma ConcatStep(parts: seq<string>, line: string, a: int, b: int)
    requires 0 <= a <= b <= |line| && |parts| > 0
    requires Concat(parts[..|parts| - 1]) == line[..a] && parts[|parts| - 1] == line[a..b]
    ensures Concat(parts) == line[..b]
  {
    assert Concat(parts) == Concat(parts[..|parts| - 1]) + parts[|parts| - 1];
    assert line[..b] == line[..a] + line[a..b];
  }

  /** The codes of a long enough line tile its first `width * cwidth` characters: slicing
      them out loses nothing. */
  lemma {:induction false} PixelRowTiles(line: string, width: nat, cwidth: nat)
    requires 0 <= width * cwidth <= |line|
    ensures Concat(PixelRow(line, width, cwidth)) == line[..width * cwidth]
  {
    if width > 0 {
      var w := width - 1;
      LastCode(cwidth, w);
      PixelRowTiles(line, w, cwidth);
      var row := PixelRow(line, width, cwidth);
      assert row[..w] == PixelRow(line, w, cwidth);
      CodeAt(line, cwidth, w);
      ConcatStep(row, line, cwidth * w, cwidth * (w + 1));
    }
  }

  /** Where the last of `w + 1` codes starts and ends. */
  lemma LastCode(cwidth: nat, w: nat)
    ensures 0 <= w * cwidth == cwidth * w <= cwidth * (w + 1) == (w + 1) * cwidth
  {
    assert cwidth * (w + 1) == cwidth * w + cwidth;
  }

  /** The pixel rows `load_pixelmap` appends, read from line `pos` on. */
  function PixelRows(texts: seq<string>, width: int, cwidth: int): (rows: seq<seq<string>>)
    ensures |rows| == |texts|
    ensures forall i :: 0 <= i < |rows| ==> |rows[i]| == Count(width)
  {
    seq(|texts|, i requires 0 <= i < |texts| => PixelRow(texts[i], width, cwidth))
  }

  /** The abstract value of a loaded image: the four attributes the blockizer reads. */
  datatype Image = Image(width: int, height: int, colormap: map<string, string>, pixelmap: seq<seq<string>>)

  /** What `load_values` returns when the file is read from its start. */
  function ParseHeader(lines: seq<string>): (r: Result<seq<int>>)
    ensures r.Err? ==> r.error == EndOfInput || r.error == BadInteger
    ensures r == Err(EndOfInput) <==> ReadLine(lines, HeaderLine(lines, 0)) == []
  {
    var header := ReadLine(lines, HeaderLine(lines, 0));
    if header == [] then Err(EndOfInput) else HeaderValues(header)
  }

  /** The colour table and the pixel rows read after the header line, given the header's
      values `width height numcol cwidth`. */
  function ParseBody(lines: seq<string>, pos: nat, v: seq<int>): (r: Result<Image>)
    requires |v| == 4
    ensures r.Err? ==> r.error == MalformedColorEntry
    ensures r.Ok? ==> r.value.width == v[0] && r.value.height == v[1] && |r.value.pixelmap| == Count(v[1])
  {
    match ColormapAfter(map[], Stripped(lines, pos, Count(v[2])), v[3])
    case Err(e) => Err(e)
    case Ok(cm) => Ok(Image(v[0], v[1], cm, PixelRows(Stripped(lines, pos + Count(v[2]), Count(v[1])), v[0], v[3])))
  }

  /** What `XpmLoader(fname)` computes, or the error it raises. */
  function ParseXpm(lines: seq<string>): (r: Result<Image>)
  {
    var header := ParseHeader(lines);
    if header.Err? then Err(header.error)
    else if |header.value| != 4 then Err(HeaderArity)
    else ParseBody(lines, HeaderLine(lines, 0) + 1, header.value)
  }

  /** A loaded image has `height` rows (none when `height` is negative) of `width` codes
      each (none when `width` is negative): the grid `blockize` walks. */
  lemma ParseXpmShape(lines: seq<string>)
    requires ParseXpm(lines).Ok?
    ensures var img := ParseXpm(lines).value;
      |img.pixelmap| == Count(img.height) &&
      forall r | 0 <= r < |img.pixelmap| :: |img.pixelmap[r]| == Count(img.width)
  {
  }

  /** A loaded image takes its size from the header's first two values, and the parse fails
      with `HeaderArity` exactly when the header reads but does not hold four values. */
  lemma ParseXpmHeader(lines: seq<string>)
    ensures ParseXpm(lines).Ok? ==>
              ParseHeader(lines).Ok? && |ParseHeader(lines).value| == 4 &&
              ParseXpm(lines).value.width == ParseHeader(lines).value[0] &&
              ParseXpm(lines).value.height == ParseHeader(lines).value[1]
    ensures ParseXpm(lines) == Err(HeaderArity) <==> ParseHeader(lines).Ok? && |ParseHeader(lines).value| != 4
  {
  }

  /** Once the colour table is read, the body is the table and the pixel rows after it. */
  lemma ParseBodyOk(lines: seq<string>, pos: nat, v: seq<int>, cm: map<string, string>, rows: seq<seq<string>>)
    requires |v| == 4
    requires ColormapAfter(map[], Stripped(lines, pos, Count(v[2])), v[3]) == Ok(cm)
    requires rows == [] + PixelRows(Stripped(lines, pos + Count(v[2]), Count(v[1])), v[0], v[3])
    ensures ParseBody(lines, pos, v) == Ok(Image(v[0], v[1], cm, rows))
  {
    assert [] + PixelRows(Stripped(lines, pos + Count(v[2]), Count(v[1])), v[0], v[3]) ==
           PixelRows(Stripped(lines, pos + Count(v[2]), Count(v[1])), v[0], v[3]);
  }

  /** A header that cannot be read fails the whole parse. */
  lemma ParseXpmHeaderErr(lines: seq<string>)
    requires ParseHeader(lines).Err?
    ensures ParseXpm(lines) == Err(ParseHeader(lines).error)
  {
  }

  /** A header without exactly four values fails the whole parse. */
  lemma ParseXpmArity(lines: seq<string>)
    requires ParseHeader(lines).Ok? && |ParseHeader(lines).value| != 4
    ensures ParseXpm(lines) == Err(HeaderArity)
  {
  }

  /** After a header of four values, the parse is that of the body. */
  lemma ParseXpmBody(lines: seq<string>, v: seq<int>)
    requires ParseHeader(lines) == Ok(v) && |v| == 4
    ensures ParseXpm(lines) == ParseBody(lines, HeaderLine(lines, 0) + 1, v)
  {
    assert ParseHeader(lines).value == v;
  }

  /** A malformed colour-table line fails the body. */
  lemma ParseBodyErr(lines: seq<string>, pos: nat, v: seq<int>)
    requires |v| == 4
    requires ColormapAfter(map[], Stripped(lines, pos, Count(v[2])), v[3]).Err?
    ensures ParseBody(lines, pos, v) == Err(MalformedColorEntry)
  {
  }

  class XpmLoader {
    var colormap: map<string, string>
    var pixelmap: seq<seq<string>>
    var width: int
    var height: int

    function Snapshot(): Image
      reads this
    {
      Image(width, height, colormap, pixelmap)
    }

    /** The empty loader `__init__` starts from, before reading. */
    constructor Empty()
      ensures colormap == map[] && pixelmap == [] && width == 0 && height == 0
    {
      colormap := map[];
      pixelmap := [];
      width := 0;
      height := 0;
    }

    /** `load_values`: skip the lines that do not start with a quote, then read the integers
        of the first quoted line. Also returns the cursor after that line. */
    method LoadValues(lines: seq<string>, pos: nat) returns (r: Result<seq<int>>, next: nat)
      ensures next == HeaderLine(lines, pos) + 1
      ensures ReadLine(lines, HeaderLine(lines, pos)) == [] ==> r == Err(EndOfInput)
      ensures ReadLine(lines, HeaderLine(lines, pos)) != [] ==> r == HeaderValues(ReadLine(lines, HeaderLine(lines, pos)))
    {
      var cursor := pos;
      while true
        invariant pos <= cursor
        invariant HeaderLine(lines, cursor) == HeaderLine(lines, pos)
        decreases |lines| - cursor
      {
        var line := ReadLine(lines, cursor);
        cursor := cursor + 1;
        if line == [] {
          return Err(EndOfInput), cursor;
        }
        if line[0] != '"' {
          continue;
        }
        var values := ParseInts(Split(StripQuotes(line), ' '));
        if values.None? {
          return Err(BadInteger), cursor;
        }
        return Ok(values.value), cursor;
      }
    }

    /** `load_colormap`: read `numcol` lines into the colour table. On failure the table holds
        the entries of the lines before the malformed one. */
    method LoadColormap(lines: seq<string>, pos: nat, numcol: int, cwidth: int) returns (r: Result<nat>)
      modifies this`colormap
      ensures var after := ColormapAfter(old(colormap), Stripped(lines, pos, Count(numcol)), cwidth);
        after.Ok? ==> r == Ok(pos + Count(numcol)) && colormap == after.value
      ensures var after := ColormapAfter(old(colormap), Stripped(lines, pos, Count(numcol)), cwidth);
        after.Err? ==>
          r == Err(MalformedColorEntry) &&
          exists i :: 0 <= i < Count(numcol) && ColormapAfter(old(colormap), Stripped(lines, pos, i), cwidth) == Ok(colormap) &&
                      ColormapAfter(old(colormap), Stripped(lines, pos, i + 1), cwidth).Err?
    {
      ghost var all := Stripped(lines, pos, Count(numcol));
      var i := 0;
      while i < numcol
        invariant 0 <= i <= Count(numcol)
        invariant ColormapAfter(old(colormap), Stripped(lines, pos, i), cwidth) == Ok(colormap)
      {
        var line := StripQuotes(ReadLine(lines, pos + i));
        StrippedSnoc(lines, pos, i);
        var code := Slice(line, 0, cwidth);
        if HasCNone(line) {
          i := i + 1;
          continue;
        }
        var color := FindColor(line);
        if color.None? {
          assert all[..i + 1] == Stripped(lines, pos, i + 1);
          ColormapStaysFailed(old(colormap), all, cwidth, i + 1);
          return Err(MalformedColorEntry);
        }
        colormap := colormap[code := color.value];
        i := i + 1;
      }
      r := Ok(pos + Count(numcol));
    }

    /** `load_pixelmap`: append `height` rows of `width` codes each. */
    method LoadPixelmap(lines: seq<string>, pos: nat, cwidth: int) returns (next: nat)
      modifies this`pixelmap
      ensures pixelmap == old(pixelmap) + PixelRows(Stripped(lines, pos, Count(height)), width, cwidth)
      ensures next == pos + Count(height)
    {
      var i := 0;
      while i < height
        invariant 0 <= i <= Count(height)
        invariant pixelmap == old(pixelmap) + PixelRows(Stripped(lines, pos, i), width, cwidth)
      {
        var line := StripQuotes(ReadLine(lines, pos + i));
        StrippedSnoc(lines, pos, i);
        var row := seq(Count(width), j => Slice(line, cwidth * j, cwidth * (j + 1)));
        pixelmap := pixelmap + [row];
        i := i + 1;
      }
      next := pos + Count(height);
    }

    /** The part of `XpmLoader(fname)` after `load_values`: store the size, then
        `load_colormap` and `load_pixelmap` from line `pos` on, given the header's values
        `width height numcol cwidth`. */
    method LoadBody(lines: seq<string>, pos: nat, v: seq<int>) returns (r: Result<nat>)
      requires |v| == 4 && colormap == map[] && pixelmap == []
      modifies this
      ensures r.Err? ==> ParseBody(lines, pos, v) == Err(r.error)
      ensures r.Ok? ==> ParseBody(lines, pos, v) == Ok(Snapshot())
    {
      var numcol, cwidth := v[2], v[3];
      width, height := v[0], v[1];
      var c := LoadColormap(lines, pos, numcol, cwidth);
      if c.Err? {
        ParseBodyErr(lines, pos, v);
        return Err(c.error);
      }
      ghost var cm := colormap;
      var next := LoadPixelmap(lines, pos + Count(numcol), cwidth);
      ParseBodyOk(lines, pos, v, cm, pixelmap);
      return Ok(next);
    }

    /** `XpmLoader(fname)`: the header, then the colour table, then the pixel rows. */
    static method Load(lines: seq<string>) returns (r: Result<XpmLoader>)
      ensures r.Err? ==> ParseXpm(lines) == Err(r.error)
      ensures r.Ok? ==> fresh(r.value) && ParseXpm(lines) == Ok(r.value.Snapshot())
    {
      var x := new XpmLoader.Empty();
      var values, next := x.LoadValues(lines, 0);
      assert ParseHeader(lines) == values;
      if values.Err? {
        ParseXpmHeaderErr(lines);
        return Err(values.error);
      }
      if |values.value| != 4 {
        ParseXpmArity(lines);
        return Err(HeaderArity);
      }
      ParseXpmBody(lines, values.value);
      var body := x.LoadBody(lines, next, values.value);
      if body.Err? {
        return Err(body.error);
      }
      return Ok(x);
    }
  }

}
