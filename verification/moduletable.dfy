/** The loaded-module table: the `lmn` listing, its parse into records with
    the line pattern `^(\w{6,16}) (\w{8,16})\s+(\w+) (.+)$` (global,
    multi-line), and the lookup of a module by exact name. */
module ModuleTable {
  import opened Wrappers
  import opened Js
  import Codec
  import Channel

  /** `IModules`: one row of the listing. */
  datatype ModuleRecord = ModuleRecord(baseAddr: Number, endAddr: Number, moduleName: string, name: string)

  /** The listing command and the tokens that mark the end of its output;
      the reply is collected over every chunk. */
  function ListRequest(): (r: Codec.Request)
    ensures r.collect && |r.tokens| == 2 && r.command == "lmn"
  {
    Codec.Request("lmn", ["Unloaded", "modules:"], true)
  }

  // ---------------------------------------------------------------------------
  // Lines

  predicate NoTerminator(s: string) {
    forall i :: 0 <= i < |s| ==> !IsLineTerminator(s[i])
  }

  /** First line-terminator index at or after `from`, or `|s|`. */
  function LineBreak(s: string, from: nat): (k: nat)
    requires from <= |s|
    ensures from <= k <= |s|
    ensures forall i :: from <= i < k ==> !IsLineTerminator(s[i])
    ensures k < |s| ==> IsLineTerminator(s[k])
    decreases |s| - from
  {
    if from == |s| || IsLineTerminator(s[from]) then from else LineBreak(s, from + 1)
  }

  /** The lines `^` and `$` delimit in multi-line mode: the text between
      consecutive line terminators. */
  function SplitLines(s: string): (ls: seq<string>)
    ensures |ls| >= 1
    ensures forall i :: 0 <= i < |ls| ==> NoTerminator(ls[i])
    decreases |s|
  {
    var k := LineBreak(s, 0);
    if k == |s| then [s] else [s[..k]] + SplitLines(s[k + 1..])
  }

  /** Lines joined with `\n`, as the console prints them. */
  function JoinLines(ls: seq<string>): string
    requires |ls| >= 1
  {
    if |ls| == 1 then ls[0] else ls[0] + "\n" + JoinLines(ls[1..])
  }

  lemma LineBreakOfLine(l: string, rest: string)
    requires NoTerminator(l)
    ensures LineBreak(l + "\n" + rest, 0) == |l|
  {
    var s := l + "\n" + rest;
    assert forall i :: 0 <= i < |l| ==> s[i] == l[i];
    assert s[|l|] == '\n';
  }

  /** A line and its terminator split off the front. */
  lemma SplitLinesCons(l: string, rest: string)
    requires NoTerminator(l)
    ensures SplitLines(l + "\n" + rest) == [l] + SplitLines(rest)
  {
    var s := l + "\n" + rest;
    LineBreakOfLine(l, rest);
    assert s[..|l|] == l && s[|l| + 1..] == rest;
  }

  /** Splitting joined lines gives the lines back. */
  lemma {:induction false} SplitJoin(ls: seq<string>)
    requires |ls| >= 1 && forall i :: 0 <= i < |ls| ==> NoTerminator(ls[i])
    ensures SplitLines(JoinLines(ls)) == ls
  {
    if |ls| == 1 {
      assert LineBreak(ls[0], 0) == |ls[0]|;
    } else {
      var l, rest := ls[0], JoinLines(ls[1..]);
      assert JoinLines(ls) == l + "\n" + rest;
      SplitLinesCons(l, rest);
      SplitJoin(ls[1..]);
      assert ls == [l] + ls[1..];
    }
  }

  // ---------------------------------------------------------------------------
  // One line

  predicate AllWord(s: string) {
    forall i :: 0 <= i < |s| ==> IsWordChar(s[i])
  }

  predicate AllSpace(s: string) {
    forall i :: 0 <= i < |s| ==> IsSpace(s[i])
  }

  /** The five pieces a matching line splits into: the three word groups,
      the white space between the second and third, and the name group. */
  datatype Groups = Groups(base: string, end: string, gap: string, moduleName: string, name: string)

  /** The line pattern, read as a predicate on a decomposition of one line. */
  predicate Shape(line: string, g: Groups) {
    line == g.base + " " + g.end + g.gap + g.moduleName + " " + g.name
    && 6 <= |g.base| <= 16 && AllWord(g.base)
    && 8 <= |g.end| <= 16 && AllWord(g.end)
    && |g.gap| >= 1 && AllSpace(g.gap)
    && |g.moduleName| >= 1 && AllWord(g.moduleName)
    && |g.name| >= 1 && NoTerminator(g.name)
  }

  /** The record the source builds from a match. */
  function RecordOf(g: Groups): ModuleRecord {
    ModuleRecord(ParseHex(g.base), ParseHex(g.end), Trim(g.moduleName), Trim(g.name))
  }

  /** End of the run of `\w` characters starting at `from`. */
  function WordEnd(s: string, from: nat): (k: nat)
    requires from <= |s|
    ensures from <= k <= |s|
    ensures forall i :: from <= i < k ==> IsWordChar(s[i])
    ensures k < |s| ==> !IsWordChar(s[k])
    decreases |s| - from
  {
    if from == |s| || !IsWordChar(s[from]) then from else WordEnd(s, from + 1)
  }

  /** The match of the line pattern against one line, as its groups. Every
      quantifier of the pattern is followed by a character its class
      excludes, so each group is the maximal run of its class and the match
      is found without backtracking. */
  function MatchLine(line: string): Option<Groups> {
    var e1 := WordEnd(line, 0);
    if !(6 <= e1 <= 16 && e1 < |line| && line[e1] == ' ') then None
    else
      var e2 := WordEnd(line, e1 + 1);
      if !(8 <= e2 - (e1 + 1) <= 16 && e2 < |line| && IsSpace(line[e2])) then None
      else
        var s3 := Codec.SkipSpace(line, e2);
        var e3 := WordEnd(line, s3);
        if !(s3 < e3 && e3 + 1 < |line| && line[e3] == ' ' && NoTerminator(line[e3 + 1..])) then None
        else Some(Groups(line[..e1], line[e1 + 1..e2], line[e2..s3], line[s3..e3], line[e3 + 1..]))
  }

  /** One row of `modules()`: the record built from the match, if the line matches. */
  function ParseLine(line: string): Option<ModuleRecord> {
    match MatchLine(line)
    case Some(g) => Some(RecordOf(g))
    case None => None
  }

  /** Whatever the matcher accepts has the shape of the pattern. */
  lemma MatchLineSound(line: string)
    ensures MatchLine(line).Some? ==> Shape(line, MatchLine(line).value)
  {
    if MatchLine(line).Some? {
      var e1 := WordEnd(line, 0);
      var e2 := WordEnd(line, e1 + 1);
      var s3 := Codec.SkipSpace(line, e2);
      var e3 := WordEnd(line, s3);
      assert MatchLine(line).value == Groups(line[..e1], line[e1 + 1..e2], line[e2..s3], line[s3..e3], line[e3 + 1..]);
      SplitAtGroups(line, e1, e2, s3, e3);
      SliceIsWord(line, 0, e1);
      SliceIsWord(line, e1 + 1, e2);
      SliceIsSpace(line, e2, s3);
      SliceIsWord(line, s3, e3);
    }
  }

  lemma SliceIsWord(s: string, a: nat, b: nat)
    requires a <= b <= |s| && forall i :: a <= i < b ==> IsWordChar(s[i])
    ensures AllWord(s[a..b])
  {
    assert forall i :: 0 <= i < b - a ==> s[a..b][i] == s[a + i];
  }

  lemma SliceIsSpace(s: string, a: nat, b: nat)
    requires a <= b <= |s| && forall i :: a <= i < b ==> IsSpace(s[i])
    ensures AllSpace(s[a..b])
  {
    assert forall i :: 0 <= i < b - a ==> s[a..b][i] == s[a + i];
  }

  /** Every line of the pattern's shape is accepted, with exactly the groups
      of that shape: the decomposition is unique. */
  lemma {:induction false} MatchLineComplete(line: string, g: Groups)
    requires Shape(line, g)
    ensures MatchLine(line) == Some(g)
  {
    var e1 := |g.base|;
    var e2 := e1 + 1 + |g.end|;
    var s3 := e2 + |g.gap|;
    var e3 := s3 + |g.moduleName|;
    ShapeIndices(line, g);
    ShapeSlices(line, g);
    MatchAtBoundaries(line, g, e1, e2, s3, e3);
  }

  /** The matcher run on a line whose group boundaries are known. */
  lemma MatchAtBoundaries(line: string, g: Groups, e1: nat, e2: nat, s3: nat, e3: nat)
    requires 6 <= e1 <= 16 && 8 <= e2 - (e1 + 1) <= 16 && e2 < s3 < e3 && e3 + 1 < |line|
    requires forall i :: 0 <= i < e1 ==> IsWordChar(line[i])
    requires line[e1] == ' ' && line[e3] == ' '
    requires forall i :: e1 + 1 <= i < e2 ==> IsWordChar(line[i])
    requires forall i :: e2 <= i < s3 ==> IsSpace(line[i])
    requires forall i :: s3 <= i < e3 ==> IsWordChar(line[i])
    requires line[..e1] == g.base && line[e1 + 1..e2] == g.end && line[e2..s3] == g.gap
    requires line[s3..e3] == g.moduleName && line[e3 + 1..] == g.name && NoTerminator(g.name)
    ensures MatchLine(line) == Some(g)
  {
    SpaceIsNotWord(line[e2]);
    SpaceIsNotWord(line[e3]);
    WordIsNotSpace(line[s3]);
    WordEndAt(line, 0, e1);
    WordEndAt(line, e1 + 1, e2);
    SkipSpaceAt(line, e2, s3);
    WordEndAt(line, s3, e3);
    assert NoTerminator(line[e3 + 1..]);
    assert Groups(line[..e1], line[e1 + 1..e2], line[e2..s3], line[s3..e3], line[e3 + 1..]) == g;
  }

  /** A line matches exactly when some decomposition has the pattern's shape,
      and the record is then built from that decomposition. */
  lemma ParseLineMatches(line: string)
    ensures ParseLine(line).Some? <==> exists g :: Shape(line, g)
    ensures forall g :: Shape(line, g) ==> ParseLine(line) == Some(RecordOf(g))
  {
    MatchLineSound(line);
    forall g | Shape(line, g)
      ensures ParseLine(line) == Some(RecordOf(g))
    {
      MatchLineComplete(line, g);
    }
  }

  lemma ShapeIndices(line: string, g: Groups)
    requires Shape(line, g)
    ensures var e1 := |g.base|; var e2 := e1 + 1 + |g.end|;
            var s3 := e2 + |g.gap|; var e3 := s3 + |g.moduleName|;
            e3 + 1 < |line|
            && (forall i :: 0 <= i < e1 ==> IsWordChar(line[i]))
            && line[e1] == ' '
            && (forall i :: e1 + 1 <= i < e2 ==> IsWordChar(line[i]))
            && (forall i :: e2 <= i < s3 ==> IsSpace(line[i]))
            && (forall i :: s3 <= i < e3 ==> IsWordChar(line[i]))
            && line[e3] == ' '
  {
    var e1 := |g.base|;
    var e2 := e1 + 1 + |g.end|;
    var s3 := e2 + |g.gap|;
    var e3 := s3 + |g.moduleName|;
    assert forall i :: 0 <= i < e1 ==> line[i] == g.base[i];
    assert forall i :: e1 + 1 <= i < e2 ==> line[i] == g.end[i - e1 - 1];
    assert forall i :: e2 <= i < s3 ==> line[i] == g.gap[i - e2];
    assert forall i :: s3 <= i < e3 ==> line[i] == g.moduleName[i - s3];
  }

  /** A line cut at the four group boundaries is the concatenation of the
      pieces, the two single spaces included. */
  lemma SplitAtGroups(line: string, e1: nat, e2: nat, s3: nat, e3: nat)
    requires e1 < e2 <= s3 <= e3 < |line| && line[e1] == ' ' && line[e3] == ' '
    ensures line == line[..e1] + " " + line[e1 + 1..e2] + line[e2..s3] + line[s3..e3] + " " + line[e3 + 1..]
  {
    assert line == line[..e3 + 1] + line[e3 + 1..];
    assert line[..e3 + 1] == line[..e3] + " ";
    assert line[..e3] == line[..s3] + line[s3..e3];
    assert line[..s3] == line[..e2] + line[e2..s3];
    assert line[..e2] == line[..e1 + 1] + line[e1 + 1..e2];
    assert line[..e1 + 1] == line[..e1] + " ";
  }

  lemma SpaceIsNotWord(c: char)
    ensures IsSpace(c) ==> !IsWordChar(c)
  {
  }

  lemma WordIsNotSpace(c: char)
    ensures IsWordChar(c) ==> !IsSpace(c)
  {
  }

  /** A run of word characters ending before a non-word character is the run `WordEnd` finds. */
  lemma WordEndAt(s: string, from: nat, k: nat)
    requires from <= k <= |s|
    requires forall i :: from <= i < k ==> IsWordChar(s[i])
    requires k < |s| ==> !IsWordChar(s[k])
    ensures WordEnd(s, from) == k
  {
  }

  lemma SkipSpaceAt(s: string, from: nat, k: nat)
    requires from <= k <= |s|
    requires forall i :: from <= i < k ==> IsSpace(s[i])
    requires k < |s| ==> !IsSpace(s[k])
    ensures Codec.SkipSpace(s, from) == k
  {
  }

  lemma ShapeSlices(line: string, g: Groups)
    requires Shape(line, g)
    ensures var e1 := |g.base|; var e2 := e1 + 1 + |g.end|;
            var s3 := e2 + |g.gap|; var e3 := s3 + |g.moduleName|;
            e3 + 1 <= |line|
            && line[..e1] == g.base && line[e1 + 1..e2] == g.end && line[e2..s3] == g.gap
            && line[s3..e3] == g.moduleName && line[e3 + 1..] == g.name
  {
  }

  // ---------------------------------------------------------------------------
  // The table

  /** The records `parse` finds in `ls`, in the order of the lines. */
  function Collect(ls: seq<string>, parse: string -> Option<ModuleRecord>): (rs: seq<ModuleRecord>)
    ensures |rs| <= |ls|
  {
    if |ls| == 0 then []
    else
      var rest := Collect(ls[1..], parse);
      match parse(ls[0])
      case Some(r) => [r] + rest
      case None => rest
  }

  /** The records of the lines that match, in the order of the lines. */
  function ParseLines(ls: seq<string>): (rs: seq<ModuleRecord>)
    ensures |rs| <= |ls|
  {
    Collect(ls, ParseLine)
  }

  /** `modules()`: every match of the pattern in the listing text. */
  function ParseModules(text: string): seq<ModuleRecord> {
    ParseLines(SplitLines(text))
  }

  /** Parsing is line by line: the records of two runs of lines are the
      records of each, in order. */
  lemma ParseLinesAppend(a: seq<string>, b: seq<string>)
    ensures ParseLines(a + b) == ParseLines(a) + ParseLines(b)
  {
    CollectAppend(a, b, ParseLine);
  }

  lemma {:induction false} CollectAppend(a: seq<string>, b: seq<string>, parse: string -> Option<ModuleRecord>)
    ensures Collect(a + b, parse) == Collect(a, parse) + Collect(b, parse)
    decreases |a|
  {
    if |a| == 0 {
      assert a + b == b;
    } else {
      assert (a + b)[0] == a[0];
      assert (a + b)[1..] == a[1..] + b;
      CollectAppend(a[1..], b, parse);
    }
  }

  // ---------------------------------------------------------------------------
  // Lookup

  /** Index of the first record named exactly `name`. */
  function FindIndex(rs: seq<ModuleRecord>, name: string): (r: Option<nat>)
    ensures r.Some? ==> r.value < |rs| && rs[r.value].name == name
    ensures r.Some? ==> forall j :: 0 <= j < r.value ==> rs[j].name != name
    ensures r.None? <==> forall j :: 0 <= j < |rs| ==> rs[j].name != name
  {
    if |rs| == 0 then None
    else if rs[0].name == name then Some(0)
    else
      match FindIndex(rs[1..], name)
      case Some(i) => Some(i + 1)
      case None => None
  }

  /** `module(name)`: `modules.find(m => m.name === name)`. */
  function Find(rs: seq<ModuleRecord>, name: string): (r: Option<ModuleRecord>)
    ensures r.Some? <==> exists j :: 0 <= j < |rs| && rs[j].name == name
    ensures r.Some? ==> r.value.name == name && r.value in rs
    ensures r.Some? ==> exists j :: 0 <= j < |rs| && rs[j] == r.value && forall k :: 0 <= k < j ==> rs[k].name != name
  {
    match FindIndex(rs, name)
    case Some(i) => Some(rs[i])
    case None => None
  }

  /** `baseAddress(name)`: `module?.baseAddr`. */
  function BaseAddress(rs: seq<ModuleRecord>, name: string): (r: Option<Number>)
    ensures r.Some? <==> exists j :: 0 <= j < |rs| && rs[j].name == name
    ensures r.Some? ==> exists j :: 0 <= j < |rs| && rs[j].name == name && rs[j].baseAddr == r.value
                          && forall k :: 0 <= k < j ==> rs[k].name != name
  {
    match Find(rs, name)
    case Some(m) => Some(m.baseAddr)
    case None => None
  }

  /** A record placed in front of the table shadows every later record of the
      same name. */
  lemma FirstMatchWins(m: ModuleRecord, rs: seq<ModuleRecord>)
    ensures Find([m] + rs, m.name) == Some(m)
  {
    assert ([m] + rs)[0] == m;
  }

  /** Records named differently do not affect the lookup. */
  lemma OtherNamesIgnored(m: ModuleRecord, rs: seq<ModuleRecord>, name: string)
    requires m.name != name
    ensures Find([m] + rs, name) == Find(rs, name)
  {
    assert ([m] + rs)[1..] == rs;
  }

  // ---------------------------------------------------------------------------
  // Rendering a listing

  /** `n` in hexadecimal, left-padded with zeros to `width` digits. */
  function HexFixed(n: nat, width: nat): (s: string)
    ensures |s| >= 1 && AllDigitsIn(s, 16)
    ensures |Digits(n, 16)| <= width ==> |s| == width
    ensures DigitsValue(s, 16) == n
    decreases width
  {
    if |Digits(n, 16)| >= width then
      DigitsValueOfDigits(n, 16);
      Digits(n, 16)
    else
      var s := HexFixed(n, width - 1);
      DigitsValueLeadingZero(s, 16);
      "0" + s
  }

  /** The records a listing of fixed-width addresses can show exactly. */
  predicate Renderable(r: ModuleRecord, width: nat) {
    8 <= width <= 16
    && r.baseAddr.Int? && r.baseAddr.v >= 0 && |Digits(r.baseAddr.v, 16)| <= width
    && r.endAddr.Int? && r.endAddr.v >= 0 && |Digits(r.endAddr.v, 16)| <= width
    && |r.moduleName| >= 1 && AllWord(r.moduleName)
    && |r.name| >= 1 && NoTerminator(r.name) && !IsSpace(r.name[0]) && !IsSpace(r.name[|r.name| - 1])
  }

  function RenderGroups(r: ModuleRecord, width: nat): Groups
    requires Renderable(r, width)
  {
    Groups(HexFixed(r.baseAddr.v, width), HexFixed(r.endAddr.v, width), "   ", r.moduleName, r.name)
  }

  /** One listing row: `<base> <end>   <module> <name>`. */
  function RenderLine(r: ModuleRecord, width: nat): string
    requires Renderable(r, width)
  {
    var g := RenderGroups(r, width);
    g.base + " " + g.end + g.gap + g.moduleName + " " + g.name
  }

  /** The column header the console prints above the rows. */
  const Header: string := "start    end        module name"

  /** The blank line and the marker line the listing ends with. */
  const Trailer: seq<string> := ["", "Unloaded modules:"]

  /** A listing: the header, one row per record, and the trailing marker. */
  function Listing(rs: seq<ModuleRecord>, width: nat): string
    requires forall i :: 0 <= i < |rs| ==> Renderable(rs[i], width)
  {
    JoinLines([Header] + Rows(rs, width) + Trailer)
  }

  function Rows(rs: seq<ModuleRecord>, width: nat): (ls: seq<string>)
    requires forall i :: 0 <= i < |rs| ==> Renderable(rs[i], width)
    ensures |ls| == |rs|
    ensures forall i :: 0 <= i < |ls| ==> ls[i] == RenderLine(rs[i], width)
  {
    if |rs| == 0 then [] else [RenderLine(rs[0], width)] + Rows(rs[1..], width)
  }

  lemma HexFixedIsWord(n: nat, width: nat)
    ensures AllWord(HexFixed(n, width))
  {
    var s := HexFixed(n, width);
    forall i | 0 <= i < |s|
      ensures IsWordChar(s[i])
    {
      assert IsDigitIn(s[i], 16);
    }
  }

  lemma ParseHexOfFixed(n: nat, width: nat)
    ensures ParseHex(HexFixed(n, width)) == Int(n)
  {
    var s := HexFixed(n, width);
    ParseHexOfDigits(s, "");
    assert s + "" == s;
  }

  /** A rendered row has the shape of the line pattern. */
  lemma RenderShape(r: ModuleRecord, width: nat)
    requires Renderable(r, width)
    ensures Shape(RenderLine(r, width), RenderGroups(r, width))
  {
    var g := RenderGroups(r, width);
    HexFixedIsWord(r.baseAddr.v, width);
    HexFixedIsWord(r.endAddr.v, width);
    assert AllSpace(g.gap);
  }

  /** The groups of a rendered row give back the record. */
  lemma RecordOfRender(r: ModuleRecord, width: nat)
    requires Renderable(r, width)
    ensures RecordOf(RenderGroups(r, width)) == r
  {
    ParseHexOfFixed(r.baseAddr.v, width);
    ParseHexOfFixed(r.endAddr.v, width);
    var m := r.moduleName;
    WordIsNotSpace(m[0]);
    WordIsNotSpace(m[|m| - 1]);
    assert Trim(m) == m;
  }

  /** A rendered row parses back to its record. */
  lemma ParseLineOfRender(r: ModuleRecord, width: nat)
    requires Renderable(r, width)
    ensures ParseLine(RenderLine(r, width)) == Some(r)
  {
    RenderShape(r, width);
    MatchLineComplete(RenderLine(r, width), RenderGroups(r, width));
    RecordOfRender(r, width);
  }

  lemma RenderedLineHasNoTerminator(r: ModuleRecord, width: nat)
    requires Renderable(r, width)
    ensures NoTerminator(RenderLine(r, width))
  {
    var g := RenderGroups(r, width);
    HexFixedIsWord(r.baseAddr.v, width);
    HexFixedIsWord(r.endAddr.v, width);
    var line := RenderLine(r, width);
    forall i | 0 <= i < |line|
      ensures !IsLineTerminator(line[i])
    {
      assert IsWordChar(line[i]) || line[i] == ' ' || line[i] in g.name;
    }
  }

  /** The header line does not match: its first word is too short. */
  lemma HeaderIsNotARow()
    ensures ParseLine(Header).None?
  {
    WordEndAt(Header, 0, 5);
  }

  /** Neither does the marker line that ends the listing: its second word is too short. */
  lemma TrailerIsNotARow()
    ensures ParseLines(Trailer) == []
  {
    var t := Trailer[1];
    WordEndAt(t, 0, 8);
    WordEndAt(t, 9, 16);
    assert ParseLine(t).None?;
    assert ParseLine(Trailer[0]).None?;
    assert Trailer[1..][1..] == [];
  }

  lemma HeaderHasNoTerminator()
    ensures NoTerminator(Header)
  {
    forall i | 0 <= i < |Header|
      ensures !IsLineTerminator(Header[i])
    {
      assert Header[i] == ' ' || IsWordChar(Header[i]);
    }
  }

  lemma TrailerHasNoTerminator()
    ensures forall i :: 0 <= i < |Trailer| ==> NoTerminator(Trailer[i])
  {
    var t := Trailer[1];
    forall i | 0 <= i < |t|
      ensures !IsLineTerminator(t[i])
    {
      assert t[i] == ' ' || t[i] == ':' || IsWordChar(t[i]);
    }
  }

  /** Lines that each parse to a record give those records, in order. */
  lemma ParseEveryLine(ls: seq<string>, rs: seq<ModuleRecord>)
    requires |ls| == |rs| && forall i :: 0 <= i < |ls| ==> ParseLine(ls[i]) == Some(rs[i])
    ensures ParseLines(ls) == rs
  {
    CollectEvery(ls, rs, ParseLine);
  }

  lemma {:induction false} CollectEvery(ls: seq<string>, rs: seq<ModuleRecord>, parse: string -> Option<ModuleRecord>)
    requires |ls| == |rs| && forall i :: 0 <= i < |ls| ==> parse(ls[i]) == Some(rs[i])
    ensures Collect(ls, parse) == rs
    decreases |ls|
  {
    if |ls| > 0 {
      var t, u := ls[1..], rs[1..];
      forall i | 0 <= i < |t|
        ensures parse(t[i]) == Some(u[i])
      {
        assert t[i] == ls[i + 1] && u[i] == rs[i + 1];
      }
      CollectEvery(t, u, parse);
      assert parse(ls[0]) == Some(rs[0]);
      assert rs == [rs[0]] + u;
    }
  }

  lemma ParseRows(rs: seq<ModuleRecord>, width: nat)
    requires forall i :: 0 <= i < |rs| ==> Renderable(rs[i], width)
    ensures ParseLines(Rows(rs, width)) == rs
  {
    var rows := Rows(rs, width);
    forall i | 0 <= i < |rs|
      ensures ParseLine(rows[i]) == Some(rs[i])
    {
      ParseLineOfRender(rs[i], width);
    }
    ParseEveryLine(rows, rs);
  }

  /** Parsing a listing gives back exactly its records, in order: the header
      and the trailing lines contribute nothing. */
  lemma ParseModulesOfListing(rs: seq<ModuleRecord>, width: nat)
    requires forall i :: 0 <= i < |rs| ==> Renderable(rs[i], width)
    ensures ParseModules(Listing(rs, width)) == rs
  {
    ListingLinesHaveNoTerminator(rs, width);
    ParseListingLines(rs, width);
    ParseModulesOfLines([Header] + Rows(rs, width) + Trailer);
  }

  /** Joining lines and parsing the text finds the records of the lines. */
  lemma ParseModulesOfLines(ls: seq<string>)
    requires |ls| >= 1 && forall i :: 0 <= i < |ls| ==> NoTerminator(ls[i])
    ensures ParseModules(JoinLines(ls)) == ParseLines(ls)
  {
    SplitJoin(ls);
  }

  lemma ListingLinesHaveNoTerminator(rs: seq<ModuleRecord>, width: nat)
    requires forall i :: 0 <= i < |rs| ==> Renderable(rs[i], width)
    ensures var ls := [Header] + Rows(rs, width) + Trailer;
            forall i :: 0 <= i < |ls| ==> NoTerminator(ls[i])
  {
    var rows := Rows(rs, width);
    forall i | 0 <= i < |rs|
      ensures NoTerminator(rows[i])
    {
      RenderedLineHasNoTerminator(rs[i], width);
    }
    HeaderHasNoTerminator();
    TrailerHasNoTerminator();
    var ls := [Header] + rows + Trailer;
    forall i | 0 <= i < |ls| ensures NoTerminator(ls[i]) {
      if i == 0 {} else if i <= |rows| { assert ls[i] == rows[i - 1]; } else { assert ls[i] == Trailer[i - 1 - |rows|]; }
    }
  }

  lemma ParseListingLines(rs: seq<ModuleRecord>, width: nat)
    requires forall i :: 0 <= i < |rs| ==> Renderable(rs[i], width)
    ensures ParseLines([Header] + Rows(rs, width) + Trailer) == rs
  {
    var rows := Rows(rs, width);
    HeaderIsNotARow();
    TrailerIsNotARow();
    ParseRows(rs, width);
    assert [Header] + rows + Trailer == [Header] + (rows + Trailer);
    ParseLinesAppend([Header], rows + Trailer);
    ParseLinesAppend(rows, Trailer);
    assert ParseLines([Header]) == [];
  }

  /** A token of the last line is a token of the joined text. */
  lemma {:induction false} IncludesLastLine(ls: seq<string>, sub: string)
    requires |ls| >= 1 && Includes(ls[|ls| - 1], sub)
    ensures Includes(JoinLines(ls), sub)
    decreases |ls|
  {
    if |ls| > 1 {
      var rest := ls[1..];
      assert rest[|rest| - 1] == ls[|ls| - 1];
      IncludesLastLine(rest, sub);
      Channel.IncludesPrepend(ls[0] + "\n", JoinLines(rest), sub);
      assert ls[0] + "\n" + JoinLines(rest) == (ls[0] + "\n") + JoinLines(rest);
    }
  }

  /** Text that ends with the trailer holds both end markers the listing
      request waits for. */
  lemma TrailerMarksTheEnd(ls: seq<string>)
    ensures Channel.AllPresent(ListRequest().tokens, JoinLines(ls + Trailer))
  {
    var lines := ls + Trailer;
    var marker := lines[|lines| - 1];
    assert marker == Trailer[1];
    MarkerHoldsTokens(marker);
    IncludesLastLine(lines, "Unloaded");
    IncludesLastLine(lines, "modules:");
  }

  lemma MarkerHoldsTokens(m: string)
    requires m == Trailer[1]
    ensures Includes(m, "Unloaded") && Includes(m, "modules:")
  {
    var front, back := "Unloaded", "modules:";
    assert m == front + " " + back;
    assert front <= m;
    assert m[9..] == back;
    assert Includes(back, back);
    Channel.IncludesPrepend(m[..9], back, back);
    assert m[..9] + back == m;
  }

  // ---------------------------------------------------------------------------
  // 64-bit listings

  /** A 64-bit address as the console prints it: two 8-digit halves joined
      by a backtick. */
  function Split64(x: string): string
    requires |x| == 16
  {
    x[..8] + "`" + x[8..]
  }

  /** What follows the two addresses in a row. */
  function RowTail(g: Groups): string {
    g.gap + g.moduleName + " " + g.name
  }

  /** A 64-bit row as the console prints it. */
  function RenderLine64(r: ModuleRecord): string
    requires Renderable(r, 16)
  {
    var g := RenderGroups(r, 16);
    Split64(g.base) + (" " + (Split64(g.end) + RowTail(g)))
  }

  function Rows64(rs: seq<ModuleRecord>): (ls: seq<string>)
    requires forall i :: 0 <= i < |rs| ==> Renderable(rs[i], 16)
    ensures |ls| == |rs|
  {
    if |rs| == 0 then [] else [RenderLine64(rs[0])] + Rows64(rs[1..])
  }

  lemma {:induction false} Row64At(rs: seq<ModuleRecord>, i: nat)
    requires forall i :: 0 <= i < |rs| ==> Renderable(rs[i], 16)
    requires i < |rs|
    ensures Rows64(rs)[i] == RenderLine64(rs[i])
    decreases i
  {
    if i > 0 {
      Row64At(rs[1..], i - 1);
    }
  }

  /** A 64-bit listing: the header, one 64-bit row per record, and the
      trailing marker. */
  function Listing64(rs: seq<ModuleRecord>): string
    requires forall i :: 0 <= i < |rs| ==> Renderable(rs[i], 16)
  {
    JoinLines([Header] + Rows64(rs) + Trailer)
  }

  /** Every line normalised on its own. */
  function NormaliseEach(ls: seq<string>): (ns: seq<string>)
    ensures |ns| == |ls|
    ensures forall i :: 0 <= i < |ls| ==> ns[i] == Channel.Normalise(ls[i])
  {
    if |ls| == 0 then [] else [Channel.Normalise(ls[0])] + NormaliseEach(ls[1..])
  }

  /** No group spans a line break: normalising joined lines normalises each line. */
  lemma {:induction false} NormaliseJoinLines(ls: seq<string>)
    requires |ls| >= 1
    ensures Channel.Normalise(JoinLines(ls)) == JoinLines(NormaliseEach(ls))
    decreases |ls|
  {
    if |ls| > 1 {
      var rest := ls[1..];
      var tail := JoinLines(rest);
      assert JoinLines(ls) == ls[0] + ("\n" + tail);
      Channel.NormaliseBreak(ls[0], "\n" + tail);
      assert "\n" + tail == ['\n'] + tail;
      Channel.NormaliseNonHexThen('\n', tail);
      NormaliseJoinLines(rest);
      var ns := NormaliseEach(ls);
      assert ns[1..] == NormaliseEach(rest);
      assert JoinLines(ns) == ns[0] + "\n" + JoinLines(ns[1..]);
    }
  }

  lemma NoBacktickInFrame()
    ensures forall i :: 0 <= i < |Header| ==> Header[i] != '`'
    ensures forall j, i :: 0 <= j < |Trailer| && 0 <= i < |Trailer[j]| ==> Trailer[j][i] != '`'
  {
    var t := Trailer[1];
    assert forall i :: 0 <= i < |Header| ==> Header[i] == ' ' || IsWordChar(Header[i]);
    assert forall i :: 0 <= i < |t| ==> t[i] == ' ' || t[i] == ':' || IsWordChar(t[i]);
  }

  /** Joining the backtick groups turns a 64-bit listing into the plain
      listing of the same records. */
  lemma Listing64Normalises(rs: seq<ModuleRecord>)
    requires forall i :: 0 <= i < |rs| ==> Renderable(rs[i], 16)
    requires forall i, k :: 0 <= i < |rs| && 0 <= k < |rs[i].name| ==> rs[i].name[k] != '`'
    ensures Channel.Normalise(Listing64(rs)) == Listing(rs, 16)
  {
    var wide := [Header] + Rows64(rs) + Trailer;
    var plain := [Header] + Rows(rs, 16) + Trailer;
    NormaliseJoinLines(wide);
    NoBacktickInFrame();
    var ns := NormaliseEach(wide);
    forall i | 0 <= i < |wide|
      ensures ns[i] == plain[i]
    {
      if i == 0 {
        Channel.NormaliseWithoutBackticks(Header);
      } else if i <= |rs| {
        Row64At(rs, i - 1);
        assert wide[i] == RenderLine64(rs[i - 1]) && plain[i] == RenderLine(rs[i - 1], 16);
        NormalisedRowParses(rs[i - 1]);
      } else {
        assert wide[i] == Trailer[i - 1 - |rs|] && plain[i] == wide[i];
        Channel.NormaliseWithoutBackticks(wide[i]);
      }
    }
    assert ns == plain;
  }

  lemma RenderedLine64HasNoTerminator(r: ModuleRecord)
    requires Renderable(r, 16)
    ensures NoTerminator(RenderLine64(r))
  {
    Line64HasNoTerminator(RenderGroups(r, 16));
  }

  lemma Line64HasNoTerminator(g: Groups)
    requires |g.base| == 16 && AllDigitsIn(g.base, 16) && |g.end| == 16 && AllDigitsIn(g.end, 16)
    requires g.gap == "   " && AllWord(g.moduleName) && NoTerminator(g.name)
    ensures NoTerminator(Split64(g.base) + (" " + (Split64(g.end) + RowTail(g))))
  {
    Split64HasNoTerminator(g.base);
    Split64HasNoTerminator(g.end);
    RowTailHasNoTerminator(g);
    assert NoTerminator(" ");
    NoTerminatorAppend(Split64(g.end), RowTail(g));
    NoTerminatorAppend(" ", Split64(g.end) + RowTail(g));
    NoTerminatorAppend(Split64(g.base), " " + (Split64(g.end) + RowTail(g)));
  }

  lemma Split64HasNoTerminator(x: string)
    requires |x| == 16 && AllDigitsIn(x, 16)
    ensures NoTerminator(Split64(x))
  {
    var y := Split64(x);
    forall i | 0 <= i < |y|
      ensures !IsLineTerminator(y[i])
    {
      if i < 8 {
        assert y[i] == x[i] && IsDigitIn(x[i], 16);
      } else if i > 8 {
        assert y[i] == x[i - 1] && IsDigitIn(x[i - 1], 16);
      }
    }
  }

  lemma RowTailHasNoTerminator(g: Groups)
    requires g.gap == "   " && AllWord(g.moduleName) && NoTerminator(g.name)
    ensures NoTerminator(RowTail(g))
  {
    var gap, m, n := g.gap, g.moduleName, g.name;
    assert NoTerminator(gap) && NoTerminator(" ");
    WordHasNoTerminator(m);
    NoTerminatorAppend(" ", n);
    NoTerminatorAppend(m, " " + n);
    NoTerminatorAppend(gap, m + (" " + n));
    assert RowTail(g) == gap + (m + (" " + n));
  }

  lemma WordHasNoTerminator(s: string)
    requires AllWord(s)
    ensures NoTerminator(s)
  {
    forall i | 0 <= i < |s|
      ensures !IsLineTerminator(s[i])
    {
      assert IsWordChar(s[i]);
    }
  }

  lemma NoTerminatorAppend(a: string, b: string)
    requires NoTerminator(a) && NoTerminator(b)
    ensures NoTerminator(a + b)
  {
    assert forall i :: |a| <= i < |a + b| ==> (a + b)[i] == b[i - |a|];
  }

  lemma Rows64HaveNoTerminator(rs: seq<ModuleRecord>)
    requires forall i :: 0 <= i < |rs| ==> Renderable(rs[i], 16)
    ensures AllLines(Rows64(rs))
  {
    var rows := Rows64(rs);
    forall i | 0 <= i < |rows|
      ensures NoTerminator(rows[i])
    {
      Row64At(rs, i);
      RenderedLine64HasNoTerminator(rs[i]);
    }
  }

  /** No element of `ls` holds a line terminator. */
  predicate AllLines(ls: seq<string>) {
    forall i :: 0 <= i < |ls| ==> NoTerminator(ls[i])
  }

  lemma Rows64AreSkipped(rs: seq<ModuleRecord>)
    requires forall i :: 0 <= i < |rs| ==> Renderable(rs[i], 16)
    ensures NoneMatch(Rows64(rs))
  {
    var rows := Rows64(rs);
    forall i | 0 <= i < |rows|
      ensures ParseLine(rows[i]).None?
    {
      Row64At(rs, i);
      BacktickRowIsSkipped(rs[i]);
    }
  }

  /** No line of `ls` matches the pattern. */
  predicate NoneMatch(ls: seq<string>) {
    forall i :: 0 <= i < |ls| ==> ParseLine(ls[i]).None?
  }

  /** Rows that each fail to match, framed by the header and the trailer and
      joined, give no record. */
  lemma ParseFramedNone(rows: seq<string>)
    requires AllLines(rows) && NoneMatch(rows)
    ensures ParseModules(JoinLines([Header] + rows + Trailer)) == []
  {
    var ls := [Header] + rows + Trailer;
    HeaderHasNoTerminator();
    TrailerHasNoTerminator();
    forall i | 0 <= i < |ls|
      ensures NoTerminator(ls[i])
    {
      if 1 <= i <= |rows| {
        assert ls[i] == rows[i - 1];
      } else if i > |rows| {
        assert ls[i] == Trailer[i - 1 - |rows|];
      }
    }
    ParseModulesOfLines(ls);
    CollectNone(rows, ParseLine);
    HeaderIsNotARow();
    TrailerIsNotARow();
    assert ls == [Header] + (rows + Trailer);
    ParseLinesAppend([Header], rows + Trailer);
    ParseLinesAppend(rows, Trailer);
    assert ParseLines([Header]) == [];
  }

  /** Parsing a 64-bit listing as it arrives finds no record at all. */
  lemma ParseListing64Raw(rs: seq<ModuleRecord>)
    requires forall i :: 0 <= i < |rs| ==> Renderable(rs[i], 16)
    ensures ParseModules(Listing64(rs)) == []
  {
    Rows64HaveNoTerminator(rs);
    Rows64AreSkipped(rs);
    ParseFramedNone(Rows64(rs));
  }

  lemma {:induction false} CollectNone(ls: seq<string>, parse: string -> Option<ModuleRecord>)
    requires forall i :: 0 <= i < |ls| ==> parse(ls[i]).None?
    ensures Collect(ls, parse) == []
    decreases |ls|
  {
    if |ls| > 0 {
      assert parse(ls[0]).None?;
      assert forall i :: 0 <= i < |ls[1..]| ==> ls[1..][i] == ls[i + 1];
      CollectNone(ls[1..], parse);
    }
  }

  /** Read as it arrives, a 64-bit row never matches: the first word stops at
      the backtick after eight digits, where the pattern wants a space. */
  lemma BacktickRowIsSkipped(r: ModuleRecord)
    requires Renderable(r, 16)
    ensures ParseLine(RenderLine64(r)).None?
  {
    var g := RenderGroups(r, 16);
    var b := g.base;
    assert forall i :: 0 <= i < 16 ==> IsDigitIn(b[i], 16);
    GroupFirstRowIsSkipped(b, " " + (Split64(g.end) + RowTail(g)));
  }

  lemma GroupFirstRowIsSkipped(b: string, rest: string)
    requires |b| == 16 && forall i :: 0 <= i < 16 ==> IsHexDigit(b[i])
    ensures ParseLine(Split64(b) + rest).None?
  {
    var line := Split64(b) + rest;
    assert forall i :: 0 <= i < 8 ==> line[i] == b[i];
    assert line[8] == '`';
    WordEndAt(line, 0, 8);
  }

  /** Joining the backtick groups first turns the 64-bit row into the plain
      16-digit row, which parses back to the record. */
  lemma NormalisedRowParses(r: ModuleRecord)
    requires Renderable(r, 16)
    requires forall i :: 0 <= i < |r.name| ==> r.name[i] != '`'
    ensures Channel.Normalise(RenderLine64(r)) == RenderLine(r, 16)
    ensures ParseLine(Channel.Normalise(RenderLine64(r))) == Some(r)
  {
    var g := RenderGroups(r, 16);
    assert forall i :: 0 <= i < 16 ==> IsDigitIn(g.base[i], 16) && IsDigitIn(g.end[i], 16);
    NoBacktickInTail(r);
    NormaliseTwoGroups(g.base, g.end, RowTail(g));
    RenderLineRegrouped(r);
    ParseLineOfRender(r, 16);
  }

  lemma RenderLineRegrouped(r: ModuleRecord)
    requires Renderable(r, 16)
    ensures var g := RenderGroups(r, 16);
            RenderLine(r, 16) == g.base + (" " + (g.end + RowTail(g)))
  {
    var g := RenderGroups(r, 16);
    Regroup(g.base, g.end, g.gap, g.moduleName, g.name);
  }

  lemma Regroup(b: string, e: string, gap: string, m: string, n: string)
    ensures b + " " + e + gap + m + " " + n == b + (" " + (e + (gap + m + " " + n)))
  {
  }

  lemma NormaliseTwoGroups(b: string, e: string, tail: string)
    requires |b| == 16 && forall i :: 0 <= i < 16 ==> IsHexDigit(b[i])
    requires |e| == 16 && forall i :: 0 <= i < 16 ==> IsHexDigit(e[i])
    requires forall i :: 0 <= i < |tail| ==> tail[i] != '`'
    ensures Channel.Normalise(Split64(b) + (" " + (Split64(e) + tail))) == b + (" " + (e + tail))
  {
    var rest := Split64(e) + tail;
    NormaliseSplit64Then(b, " " + rest);
    assert " " + rest == [' '] + rest;
    Channel.NormaliseNonHexThen(' ', rest);
    NormaliseSplit64Then(e, tail);
    Channel.NormaliseWithoutBackticks(tail);
  }

  lemma NormaliseSplit64Then(x: string, rest: string)
    requires |x| == 16 && forall i :: 0 <= i < 16 ==> IsHexDigit(x[i])
    ensures Channel.Normalise(Split64(x) + rest) == x + Channel.Normalise(rest)
  {
    Channel.NormaliseGroupThen(x[..8], x[8..], rest);
    assert x[..8] + x[8..] == x;
  }

  lemma NoBacktickInTail(r: ModuleRecord)
    requires Renderable(r, 16)
    requires forall i :: 0 <= i < |r.name| ==> r.name[i] != '`'
    ensures var tail := RowTail(RenderGroups(r, 16));
            forall i :: 0 <= i < |tail| ==> tail[i] != '`'
  {
    var g := RenderGroups(r, 16);
    assert '`' !in g.gap;
    assert '`' !in g.moduleName by {
      assert forall i :: 0 <= i < |g.moduleName| ==> IsWordChar(g.moduleName[i]);
    }
    assert '`' !in g.name;
    assert '`' !in RowTail(g);
  }
}
