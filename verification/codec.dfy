/** The type codec: the console commands that read (`d<code> <hex> L 1`) and
    write (`e<code> <hex> <value>`) one typed value, and the decoding of the
    reply text back into a value. Two decoders are modelled: that of the
    `Debugger` class (src/modules/debugger.ts) and the legacy one of
    src/modules/dbg.ts. */
module Codec {
  import opened Wrappers
  import opened Js
  import opened MemoryTypes
  import Channel

  /** A console request: the command line, the tokens whose presence completes
      the reply, and whether chunks are collected across. */
  datatype Request = Request(command: string, tokens: seq<string>, collect: bool)

  /** A value handed to `write`: JavaScript `number | string`. */
  datatype Arg = NumArg(n: Number) | StrArg(s: string)

  /** What `read` resolves to. `Decimal(token)` stands for `Number(token)` on
      a token that is not a plain integer, whose decimal reading is left
      uninterpreted; `Rejected` is a read whose promise rejects. */
  datatype Reading = Numeric(n: Number) | Decimal(token: string) | Text(s: string) | Undefined | Rejected

  // ---------------------------------------------------------------------------
  // Commands and what the console makes of them

  /** A display command as the console parses it. */
  datatype Display = Display(tag: Tag, address: Number)

  /** A write command as the console parses it. */
  datatype Edit = Edit(tag: Tag, address: Number, value: string)

  /** Index of the first space of `s` at or after `from`, or `|s|`. */
  function NextBlank(s: string, from: nat): (k: nat)
    requires from <= |s|
    ensures from <= k <= |s|
    ensures forall i :: from <= i < k ==> s[i] != ' '
    ensures k < |s| ==> s[k] == ' '
    decreases |s| - from
  {
    if from == |s| || s[from] == ' ' then from else NextBlank(s, from + 1)
  }

  /** `<verb><code> <address> <rest>` split into its parts. */
  function SplitCommand(cmd: string, verb: char): Option<(Tag, Number, string)> {
    if |cmd| < 3 || cmd[0] != verb || cmd[2] != ' ' || FromCode(cmd[1]).None? then None
    else
      var k := NextBlank(cmd, 3);
      if k == |cmd| then None
      else Some((FromCode(cmd[1]).value, ParseHex(cmd[3..k]), cmd[k + 1..]))
  }

  /** How the console reads `d<code> <address> L 1`. */
  function ParseDisplay(cmd: string): Option<Display> {
    match SplitCommand(cmd, 'd')
    case Some((t, a, rest)) => if rest == "L 1" then Some(Display(t, a)) else None
    case None => None
  }

  /** How the console reads `e<code> <address> <value>`. */
  function ParseEdit(cmd: string): Option<Edit> {
    match SplitCommand(cmd, 'e')
    case Some((t, a, rest)) => Some(Edit(t, a, rest))
    case None => None
  }

  /** `<verb><code> <hex address> <rest>`, the shape of both typed commands. */
  function CommandLine(verb: char, t: Tag, address: int, rest: string): string {
    [verb, Code(t), ' '] + ToHex(address) + " " + rest
  }

  lemma SplitCommandOf(verb: char, t: Tag, address: int, rest: string)
    ensures SplitCommand(CommandLine(verb, t, address, rest), verb) == Some((t, Int(address), rest))
  {
    var h := ToHex(address);
    var cmd := CommandLine(verb, t, address, rest);
    FromCodeOfCode(t);
    HexHasNoBlank(address);
    assert cmd[3..3 + |h|] == h;
    assert forall i :: 3 <= i < 3 + |h| ==> cmd[i] == h[i - 3];
    assert cmd[3 + |h|] == ' ';
    assert NextBlank(cmd, 3) == 3 + |h|;
    assert cmd[3 + |h| + 1..] == rest;
    ParseHexOfToHex(address);
  }

  lemma HexHasNoBlank(n: int)
    ensures forall i :: 0 <= i < |ToHex(n)| ==> ToHex(n)[i] != ' ' && !IsSpace(ToHex(n)[i]) && ToHex(n)[i] != '`'
  {
    if n < 0 {
      var d := Digits(-n, 16);
      assert ToHex(n) == "-" + d;
      assert forall i :: 1 <= i < |ToHex(n)| ==> ToHex(n)[i] == d[i - 1];
    }
  }

  /** `read`'s request: `d<code> <hex address> L 1`, complete as soon as the
      hexadecimal address shows in the output. The console reads the tag and
      the address back out of the command. */
  function ReadRequest(t: Tag, address: int): (r: Request)
    ensures ParseDisplay(r.command) == Some(Display(t, Int(address)))
    ensures r.tokens == [ToHex(address)] && !r.collect
  {
    SplitCommandOf('d', t, address, "L 1");
    Request(CommandLine('d', t, address, "L 1"), [ToHex(address)], false)
  }

  /** The text `write` renders a value as: `value.toString(16)` for hex tags,
      which is hexadecimal for a number and the string itself for a string,
      and `${value}` for `float`/`double`. */
  function RenderValue(t: Tag, v: Arg): (s: string)
    ensures v.StrArg? ==> s == v.s
    ensures v.NumArg? && v.n.Int? && IsHexType(t) ==> ParseHex(s) == v.n
    ensures v.NumArg? && v.n.Int? && !IsHexType(t) ==> DecimalInteger(s) == Some(v.n.v)
  {
    match v
    case StrArg(s) => s
    case NumArg(n) =>
      NumberRenderingsReadBack(n);
      if IsHexType(t) then NumberToHex(n) else NumberToDecimal(n)
  }

  lemma NumberRenderingsReadBack(n: Number)
    ensures n.Int? ==> ParseHex(NumberToHex(n)) == n
    ensures n.Int? ==> DecimalInteger(NumberToDecimal(n)) == Some(n.v)
  {
    if n.Int? {
      ParseHexOfToHex(n.v);
      DecimalIntegerOfDecimal(n.v);
    }
  }

  /** `write`'s request: `e<code> <hex address> <value>`, complete at the prompt.
      The console reads back the tag, the address and the rendered value. */
  function WriteRequest(t: Tag, address: int, v: Arg): (r: Request)
    ensures ParseEdit(r.command) == Some(Edit(t, Int(address), RenderValue(t, v)))
    ensures r.tokens == [Channel.Prompt] && !r.collect
  {
    SplitCommandOf('e', t, address, RenderValue(t, v));
    Request(CommandLine('e', t, address, RenderValue(t, v)), [Channel.Prompt], false)
  }

  /** The dbg.ts `write`: the value text is sent unchanged. */
  function LegacyWriteRequest(t: Tag, address: int, value: string): (r: Request)
    ensures ParseEdit(r.command) == Some(Edit(t, Int(address), value))
    ensures r.tokens == [Channel.Prompt] && !r.collect
  {
    SplitCommandOf('e', t, address, value);
    Request(CommandLine('e', t, address, value), [Channel.Prompt], false)
  }

  // ---------------------------------------------------------------------------
  // Finding the value in the reply: `${hex}\s+(.+?)\s`

  /** First index at or after `from` that is not white space, or `|s|`. */
  function SkipSpace(s: string, from: nat): (k: nat)
    requires from <= |s|
    ensures from <= k <= |s|
    ensures forall i :: from <= i < k ==> IsSpace(s[i])
    ensures k < |s| ==> !IsSpace(s[k])
    decreases |s| - from
  {
    if from == |s| || !IsSpace(s[from]) then from else SkipSpace(s, from + 1)
  }

  /** First white-space index at or after `from`, or `|s|`. */
  function FindSpace(s: string, from: nat): (k: nat)
    requires from <= |s|
    ensures from <= k <= |s|
    ensures forall i :: from <= i < k ==> !IsSpace(s[i])
    ensures k < |s| ==> IsSpace(s[k])
    decreases |s| - from
  {
    if from == |s| || IsSpace(s[from]) then from else FindSpace(s, from + 1)
  }

  /** The regex's backtracking fallback: when no white space follows the
      first token, `\s+` gives back characters and `(.+?)` captures a single
      white-space character at the largest index `p <= hi` that `.` accepts
      (not a line terminator). */
  function LastDotChar(s: string, lo: int, hi: int): (r: Option<string>)
    requires 0 <= lo && hi < |s|
    ensures r.Some? ==> |r.value| == 1
    decreases hi - lo
  {
    if hi < lo then None
    else if !IsLineTerminator(s[hi]) then Some([s[hi]])
    else LastDotChar(s, lo, hi - 1)
  }

  /** The capture when the match starts at index `i`, if it can start there. */
  function TokenAt(text: string, hex: string, i: nat): Option<string> {
    if i + |hex| > |text| || text[i..i + |hex|] != hex then None
    else
      var s := i + |hex|;
      var j := SkipSpace(text, s);
      if j == s then None
      else
        var k := FindSpace(text, j);
        if k < |text| then Some(text[j..k])
        else LastDotChar(text, s + 1, j - 2)
  }

  /** `regex.exec(text)`: the capture of the leftmost match at or after `i`. */
  function TokenFrom(text: string, hex: string, i: nat): (r: Option<string>)
    requires i <= |text|
    ensures r.Some? ==> exists p :: i <= p <= |text| && TokenAt(text, hex, p) == r
    ensures r.None? ==> forall p :: i <= p <= |text| ==> TokenAt(text, hex, p).None?
    decreases |text| - i
  {
    var here := TokenAt(text, hex, i);
    if here.Some? then here
    else if i == |text| then None
    else TokenFrom(text, hex, i + 1)
  }

  /** No match starts at an index from `lo` up to, not including, `hi`. */
  predicate NoTokenIn(text: string, hex: string, lo: nat, hi: nat) {
    forall q :: lo <= q < hi ==> TokenAt(text, hex, q).None?
  }

  /** `exec` returns the leftmost match: the capture is the one of the
      first index at which a match starts. */
  lemma {:induction false} TokenFromIsLeftmost(text: string, hex: string, i: nat)
    requires i <= |text|
    ensures forall p :: i <= p <= |text| && TokenAt(text, hex, p).Some? && NoTokenIn(text, hex, i, p) ==>
              TokenFrom(text, hex, i) == TokenAt(text, hex, p)
    decreases |text| - i
  {
    if TokenAt(text, hex, i).None? && i < |text| {
      TokenFromIsLeftmost(text, hex, i + 1);
      forall p | i <= p <= |text| && TokenAt(text, hex, p).Some? && NoTokenIn(text, hex, i, p)
        ensures TokenFrom(text, hex, i) == TokenAt(text, hex, p)
      {
        assert NoTokenIn(text, hex, i + 1, p);
      }
    }
  }

  /** The value token after the first occurrence of the hex address that is
      followed by white space and a token. */
  function ExtractToken(text: string, hex: string): Option<string> {
    TokenFrom(text, hex, 0)
  }

  /** A reply that begins `<hex><white space><token><white space>` yields that token. */
  lemma {:induction false} TokenOfReply(hex: string, gap: string, token: string, tail: string)
    requires |gap| >= 1 && forall i :: 0 <= i < |gap| ==> IsSpace(gap[i])
    requires |token| >= 1 && forall i :: 0 <= i < |token| ==> !IsSpace(token[i])
    requires |tail| >= 1 && IsSpace(tail[0])
    ensures ExtractToken(hex + gap + token + tail, hex) == Some(token)
  {
    var text := hex + gap + token + tail;
    var s := |hex|;
    assert text[0..|hex|] == hex;
    assert forall i :: s <= i < s + |gap| ==> text[i] == gap[i - s];
    assert text[s + |gap|] == token[0];
    assert SkipSpace(text, s) == s + |gap|;
    var j := s + |gap|;
    assert forall i :: j <= i < j + |token| ==> text[i] == token[i - j];
    assert text[j + |token|] == tail[0];
    assert FindSpace(text, j) == j + |token|;
    assert text[j..j + |token|] == token;
    assert TokenAt(text, hex, 0) == Some(token);
  }

  // ---------------------------------------------------------------------------
  // Decoding

  /** `Number(token)`. */
  function NumberOf(token: string): Reading {
    match DecimalInteger(token)
    case Some(v) => Numeric(Int(v))
    case None => Decimal(token)
  }

  /** The `Debugger` class's `read` decoding: hex tags strip backticks and
      parse base 16, `float`/`double` parse as decimal, strings are returned
      as captured. With no capture, a hex read rejects (`undefined.replace`),
      a decimal read gives NaN and a string read gives `undefined`. */
  function DecodeRead(t: Tag, address: int, reply: string): (r: Reading)
    ensures r.Rejected? <==> IsNumericType(t) && IsHexType(t) && ExtractToken(reply, ToHex(address)).None?
    ensures r.Undefined? <==> IsStringType(t) && ExtractToken(reply, ToHex(address)).None?
    ensures IsStringType(t) ==> r.Text? || r.Undefined?
    ensures IsNumericType(t) && IsHexType(t) ==> r.Numeric? || r.Rejected?
    ensures r.Text? ==> ExtractToken(reply, ToHex(address)) == Some(r.s)
    ensures IsNumericType(t) && IsHexType(t) && ExtractToken(reply, ToHex(address)).Some? ==>
              r == Numeric(ParseHex(Without(ExtractToken(reply, ToHex(address)).value, '`')))
    ensures IsNumericType(t) && !IsHexType(t) ==>
              r == (if ExtractToken(reply, ToHex(address)).Some? then NumberOf(ExtractToken(reply, ToHex(address)).value)
                    else Numeric(NaN))
  {
    var res := ExtractToken(reply, ToHex(address));
    if IsNumericType(t) then
      if IsHexType(t) then
        match res
        case None => Rejected
        case Some(token) => Numeric(ParseHex(Without(token, '`')))
      else
        match res
        case None => Numeric(NaN)
        case Some(token) => NumberOf(token)
    else
      match res
      case None => Undefined
      case Some(token) => Text(token)
  }

  /** The dbg.ts `read` decoding: `double` parses as decimal,
      `dword` parses base 16 without touching backticks, and every other tag
      returns the captured token as text. */
  function DecodeReadLegacy(t: Tag, address: int, reply: string): (r: Reading)
    ensures t != Double && t != Dword ==> r.Text? || r.Undefined?
    ensures t == Dword ==> r.Numeric?
    ensures r.Undefined? <==> t != Double && t != Dword && ExtractToken(reply, ToHex(address)).None?
    ensures !r.Rejected?
    ensures r.Text? ==> ExtractToken(reply, ToHex(address)) == Some(r.s)
    ensures t == Dword ==> r == Numeric(ParseHex(ExtractToken(reply, ToHex(address)).GetOr("undefined")))
    ensures t == Double ==>
              r == (if ExtractToken(reply, ToHex(address)).Some? then NumberOf(ExtractToken(reply, ToHex(address)).value)
                    else Numeric(NaN))
  {
    var res := ExtractToken(reply, ToHex(address));
    if t == Double then
      match res
      case None => Numeric(NaN)
      case Some(token) => NumberOf(token)
    else if t == Dword then
      Numeric(ParseHex(res.GetOr("undefined")))
    else
      match res
      case None => Undefined
      case Some(token) => Text(token)
  }

  // ---------------------------------------------------------------------------
  // A stand-in for the debugger

  /** The target as the console shows it: the value text displayed at each
      address. */
  datatype Console = Console(cells: map<int, string>)

  /** What a display shows at an address the target does not map. */
  const Unmapped: string := "????????"

  /** The rest of a display reply after the value. */
  const ReplyTail: string := "\n" + Channel.Prompt + " "

  /** What the console does with one command line: a write stores the value
      text, a display replies `<hex address>  <value>` and the prompt. */
  function Execute(c: Console, cmd: string): (Console, string) {
    match ParseEdit(cmd)
    case Some(Edit(_, Int(a), v)) => (Console(c.cells[a := v]), Channel.Prompt + " ")
    case _ =>
      match ParseDisplay(cmd)
      case Some(Display(_, Int(a))) =>
        (c, ToHex(a) + "  " + (if a in c.cells then c.cells[a] else Unmapped) + ReplyTail)
      case _ => (c, Channel.Prompt + " ")
  }

  /** One more than the largest value a numeric hex tag's cell holds: one,
      two, four or eight bytes, and `dword` a pointer of a 64-bit target. */
  function CellLimit(t: Tag): nat
    requires IsNumericType(t) && IsHexType(t)
  {
    match t
    case Byte => 0x100
    case Byte2 => 0x1_0000
    case Byte4 => 0x1_0000_0000
    case Byte8 => 0x1_0000_0000_0000_0000
    case Dword => 0x1_0000_0000_0000_0000
  }

  /** The values a display shows as one token of the tag: one word of text
      for the string tags, an integer for the others. */
  predicate Displayable(t: Tag, v: Arg) {
    if IsStringType(t) then
      v.StrArg? && |v.s| >= 1 && forall i :: 0 <= i < |v.s| ==> !IsSpace(v.s[i])
    else v.NumArg? && v.n.Int?
  }

  /** The values a write and a read of the same tag agree on: displayable,
      and for the numeric hex tags a value that fits the cell. */
  predicate Representable(t: Tag, v: Arg) {
    Displayable(t, v) && (IsNumericType(t) && IsHexType(t) ==> 0 <= v.n.v < CellLimit(t))
  }

  /** What reading back a representable value yields. */
  function Expected(t: Tag, v: Arg): Reading
    requires Displayable(t, v)
  {
    if IsStringType(t) then Text(v.s) else Numeric(v.n)
  }

  /** Writing a representable value and reading it back with the same tag
      returns it: the encoding and the decoding are inverse. */
  lemma WriteThenRead(c: Console, t: Tag, address: int, v: Arg)
    requires Representable(t, v)
    ensures var after := Execute(c, WriteRequest(t, address, v).command).0;
            DecodeRead(t, address, Execute(after, ReadRequest(t, address).command).1) == Expected(t, v)
  {
    var after := Execute(c, WriteRequest(t, address, v).command).0;
    var value := RenderValue(t, v);
    assert address in after.cells && after.cells[address] == value;
    ConsoleDisplaysCell(after, t, address);
    RenderedValueIsOneToken(t, v);
    DecodeOfDisplay(t, address, v);
  }

  /** A string written with white space in it reads back as its first word
      only: the reply pattern captures up to the first blank. */
  lemma StringReadStopsAtBlank(c: Console, t: Tag, address: int, w: string, more: string)
    requires IsStringType(t)
    requires |w| >= 1 && forall i :: 0 <= i < |w| ==> !IsSpace(w[i])
    ensures var after := Execute(c, WriteRequest(t, address, StrArg(w + " " + more)).command).0;
            DecodeRead(t, address, Execute(after, ReadRequest(t, address).command).1) == Text(w)
  {
    var value := w + " " + more;
    var after := Execute(c, WriteRequest(t, address, StrArg(value)).command).0;
    assert address in after.cells && after.cells[address] == value;
    ConsoleDisplaysCell(after, t, address);
    DecodeOfWordThenMore(t, address, w, more);
  }

  lemma DecodeOfWordThenMore(t: Tag, address: int, w: string, more: string)
    requires IsStringType(t)
    requires |w| >= 1 && forall i :: 0 <= i < |w| ==> !IsSpace(w[i])
    ensures DecodeRead(t, address, ToHex(address) + "  " + (w + " " + more) + ReplyTail) == Text(w)
  {
    var hex, tail := ToHex(address), " " + more + ReplyTail;
    assert hex + "  " + (w + " " + more) + ReplyTail == hex + "  " + w + tail;
    TokenOfReply(hex, "  ", w, tail);
  }

  lemma ConsoleDisplaysCell(c: Console, t: Tag, address: int)
    requires address in c.cells
    ensures Execute(c, ReadRequest(t, address).command).1 == ToHex(address) + "  " + c.cells[address] + ReplyTail
  {
    var rd := ReadRequest(t, address);
    assert ParseEdit(rd.command).None?;
  }

  lemma ConsoleShowsUnmapped(c: Console, t: Tag, address: int)
    requires address !in c.cells
    ensures Execute(c, ReadRequest(t, address).command).1 == ToHex(address) + "  " + Unmapped + ReplyTail
  {
    var rd := ReadRequest(t, address);
    assert ParseEdit(rd.command).None?;
  }

  /** The unmapped marker is one token that is not a number. */
  lemma UnmappedIsOneToken()
    ensures |Unmapped| >= 1 && Unmapped[0] == '?'
    ensures forall i :: 0 <= i < |Unmapped| ==> !IsSpace(Unmapped[i]) && Unmapped[i] != '`'
  {
    assert forall i :: 0 <= i < |Unmapped| ==> Unmapped[i] == '?';
  }

  /** A representable value renders as one non-empty token without white
      space; a number renders without backticks too. */
  lemma RenderedValueIsOneToken(t: Tag, v: Arg)
    requires Displayable(t, v)
    ensures var value := RenderValue(t, v);
            |value| >= 1 && forall i :: 0 <= i < |value| ==> !IsSpace(value[i])
    ensures var value := RenderValue(t, v);
            !IsStringType(t) ==> forall i :: 0 <= i < |value| ==> value[i] != '`'
  {
    if !IsStringType(t) {
      if IsHexType(t) {
        HexHasNoBlank(v.n.v);
        assert |ToHex(v.n.v)| >= 1;
      } else {
        DecimalHasNoBlank(v.n.v);
      }
    }
  }

  lemma DecodeOfDisplay(t: Tag, address: int, v: Arg)
    requires Displayable(t, v)
    requires var value := RenderValue(t, v);
             |value| >= 1 && forall i :: 0 <= i < |value| ==> !IsSpace(value[i])
    requires var value := RenderValue(t, v);
             !IsStringType(t) ==> forall i :: 0 <= i < |value| ==> value[i] != '`'
    ensures DecodeRead(t, address, ToHex(address) + "  " + RenderValue(t, v) + ReplyTail) == Expected(t, v)
  {
    var value := RenderValue(t, v);
    TokenOfReply(ToHex(address), "  ", value, ReplyTail);
    if !IsStringType(t) {
      assert Without(value, '`') == value;
    }
  }

  lemma DecimalHasNoBlank(n: int)
    ensures |NumberToDecimal(Int(n))| >= 1
    ensures forall i :: 0 <= i < |NumberToDecimal(Int(n))| ==> !IsSpace(NumberToDecimal(Int(n))[i]) && NumberToDecimal(Int(n))[i] != '`'
  {
    if n < 0 {
      var d := Digits(-n, 10);
      assert NumberToDecimal(Int(n)) == "-" + d;
      assert forall i :: 1 <= i < |NumberToDecimal(Int(n))| ==> NumberToDecimal(Int(n))[i] == d[i - 1];
    }
  }

  /** A four-byte read whose reply shows `12345678` after the address
      decodes to 0x12345678. */
  lemma DisplayedWordDecodes(address: int)
    ensures DecodeRead(Byte4, address, ToHex(address) + "  " + "12345678" + "  ") == Numeric(Int(0x12345678))
  {
    var w := "12345678";
    WordDigits(w);
    DisplayedDigitsDecode(Byte4, address, w, "  ");
  }

  lemma WordDigits(w: string)
    requires w == "12345678"
    ensures |w| >= 1 && AllDigitsIn(w, 16) && DigitsValue(w, 16) == 0x12345678
  {
    assert AllDigitsIn(w, 16);
    assert w[..0] == [];
    assert DigitsValue(w[..1], 16) == 0x1 by { assert w[..1][..0] == w[..0]; }
    assert DigitsValue(w[..2], 16) == 0x12 by { assert w[..2][..1] == w[..1]; }
    assert DigitsValue(w[..3], 16) == 0x123 by { assert w[..3][..2] == w[..2]; }
    assert DigitsValue(w[..4], 16) == 0x1234 by { assert w[..4][..3] == w[..3]; }
    assert DigitsValue(w[..5], 16) == 0x12345 by { assert w[..5][..4] == w[..4]; }
    assert DigitsValue(w[..6], 16) == 0x123456 by { assert w[..6][..5] == w[..5]; }
    assert DigitsValue(w[..7], 16) == 0x1234567 by { assert w[..7][..6] == w[..6]; }
    assert DigitsValue(w[..8], 16) == 0x12345678 by { assert w[..8][..7] == w[..7]; }
    assert w[..8] == w;
  }

  /** A display showing a run of hexadecimal digits decodes to their value. */
  lemma DisplayedDigitsDecode(t: Tag, address: int, w: string, tail: string)
    requires IsNumericType(t) && IsHexType(t)
    requires |w| >= 1 && AllDigitsIn(w, 16)
    requires |tail| >= 1 && IsSpace(tail[0])
    ensures DecodeRead(t, address, ToHex(address) + "  " + w + tail) == Numeric(Int(DigitsValue(w, 16)))
  {
    var reply := ToHex(address) + "  " + w + tail;
    assert forall i :: 0 <= i < |w| ==> !IsSpace(w[i]);
    TokenOfReply(ToHex(address), "  ", w, tail);
    DigitTokenDecodes(t, address, reply, w);
  }

  lemma DigitTokenDecodes(t: Tag, address: int, reply: string, w: string)
    requires IsNumericType(t) && IsHexType(t)
    requires |w| >= 1 && AllDigitsIn(w, 16)
    requires ExtractToken(reply, ToHex(address)) == Some(w)
    ensures DecodeRead(t, address, reply) == Numeric(Int(DigitsValue(w, 16)))
  {
    assert Without(w, '`') == w by {
      assert forall i :: 0 <= i < |w| ==> w[i] != '`';
    }
    ParseHexOfDigitRun(w);
    HexTokenDecodes(t, address, reply, w);
  }

  lemma HexTokenDecodes(t: Tag, address: int, reply: string, token: string)
    requires IsNumericType(t) && IsHexType(t)
    requires ExtractToken(reply, ToHex(address)) == Some(token)
    ensures DecodeRead(t, address, reply) == Numeric(ParseHex(Without(token, '`')))
  {
  }

  // ---------------------------------------------------------------------------
  // 64-bit pointers

  /** The console prints a 64-bit pointer as two 8-digit halves joined by a
      backtick. The `Debugger` class's decoder strips the backtick and reads
      the whole pointer. */
  lemma {:induction false} DecodeReadJoinsPointerHalves(address: int, hi: string, lo: string, tail: string)
    requires |hi| >= 1 && AllDigitsIn(hi, 16) && |lo| >= 1 && AllDigitsIn(lo, 16)
    requires |tail| >= 1 && IsSpace(tail[0])
    ensures AllDigitsIn(hi + lo, 16)
    ensures DecodeRead(Dword, address, ToHex(address) + "  " + (hi + "`" + lo) + tail) == Numeric(Int(DigitsValue(hi + lo, 16)))
  {
    var token := hi + "`" + lo;
    PointerTokenIsOneToken(hi, lo);
    TokenOfReply(ToHex(address), "  ", token, tail);
    StripBacktick(hi, lo);
    ParseHexOfDigits(hi + lo, "");
    assert hi + lo + "" == hi + lo;
  }

  lemma StripBacktick(hi: string, lo: string)
    requires AllDigitsIn(hi, 16) && AllDigitsIn(lo, 16)
    ensures AllDigitsIn(hi + lo, 16)
    ensures Without(hi + "`" + lo, '`') == hi + lo
  {
    var b := "`";
    var left := hi + b;
    assert Without(b, '`') == [] by {
      assert b[1..] == [];
    }
    assert Without(left, '`') == hi by {
      WithoutAppend(hi, b, '`');
      DigitsAreNotBackticks(hi);
    }
    assert Without(left + lo, '`') == hi + lo by {
      WithoutAppend(left, lo, '`');
      DigitsAreNotBackticks(lo);
    }
    DigitsAppend(hi, lo, 16);
  }

  lemma DigitsAreNotBackticks(s: string)
    requires AllDigitsIn(s, 16)
    ensures Without(s, '`') == s
  {
    assert forall i :: 0 <= i < |s| ==> s[i] != '`';
  }

  /** The legacy decoder hands the same token to `parseInt` as it is, which
      stops at the backtick: only the high half is read. */
  lemma {:induction false} DecodeReadLegacyKeepsHighHalf(address: int, hi: string, lo: string, tail: string)
    requires |hi| >= 1 && AllDigitsIn(hi, 16) && |lo| >= 1 && AllDigitsIn(lo, 16)
    requires |tail| >= 1 && IsSpace(tail[0])
    ensures DecodeReadLegacy(Dword, address, ToHex(address) + "  " + (hi + "`" + lo) + tail) == Numeric(Int(DigitsValue(hi, 16)))
  {
    var token := hi + "`" + lo;
    PointerTokenIsOneToken(hi, lo);
    TokenOfReply(ToHex(address), "  ", token, tail);
    BacktickStopsParse(hi, lo);
    LegacyDwordParsesToken(address, ToHex(address) + "  " + token + tail, token);
  }

  lemma BacktickStopsParse(hi: string, lo: string)
    requires |hi| >= 1 && AllDigitsIn(hi, 16)
    ensures ParseHex(hi + "`" + lo) == Int(DigitsValue(hi, 16))
  {
    var rest := "`" + lo;
    assert hi + "`" + lo == hi + rest;
    assert rest[0] == '`' && !IsHexDigit(rest[0]);
    ParseHexOfDigits(hi, rest);
  }

  /** On a captured token without backticks, the two revisions decode a
      `dword`, a `double` and a string read alike. */
  lemma DecodersAgreeWithoutBacktick(t: Tag, address: int, reply: string, token: string)
    requires t == Dword || t == Double || IsStringType(t)
    requires ExtractToken(reply, ToHex(address)) == Some(token)
    requires forall i :: 0 <= i < |token| ==> token[i] != '`'
    ensures DecodeReadLegacy(t, address, reply) == DecodeRead(t, address, reply)
  {
  }

  /** With nothing captured, the two decoders differ on a `dword` read: the
      dbg.ts parses the word `undefined` to NaN where debugger.ts
      rejects. */
  lemma DecodersDifferOnMissingDword(address: int, reply: string)
    requires ExtractToken(reply, ToHex(address)).None?
    ensures DecodeReadLegacy(Dword, address, reply) == Numeric(NaN)
    ensures DecodeRead(Dword, address, reply) == Rejected
  {
    var u := "undefined";
    assert u[0] == 'u';
    ParseHexOfNonDigit(u);
  }

  lemma LegacyDwordParsesToken(address: int, reply: string, token: string)
    requires ExtractToken(reply, ToHex(address)) == Some(token)
    ensures DecodeReadLegacy(Dword, address, reply) == Numeric(ParseHex(token))
  {
  }

  /** Whenever the high half is not zero, the two decoders disagree on the
      same reply: the legacy one loses the low 32 bits. */
  lemma LegacyPointerDecodeDiffers(address: int, hi: string, lo: string, tail: string)
    requires |hi| >= 1 && AllDigitsIn(hi, 16) && |lo| >= 1 && AllDigitsIn(lo, 16)
    requires |tail| >= 1 && IsSpace(tail[0])
    requires DigitsValue(hi, 16) > 0
    ensures var reply := ToHex(address) + "  " + (hi + "`" + lo) + tail;
            DecodeReadLegacy(Dword, address, reply) != DecodeRead(Dword, address, reply)
  {
    DecodeReadJoinsPointerHalves(address, hi, lo, tail);
    DecodeReadLegacyKeepsHighHalf(address, hi, lo, tail);
    DigitsValueGrows(hi, lo, 16);
  }

  lemma PointerTokenIsOneToken(hi: string, lo: string)
    requires AllDigitsIn(hi, 16) && AllDigitsIn(lo, 16) && |hi| >= 1
    ensures var token := hi + "`" + lo;
            |token| >= 1 && forall i :: 0 <= i < |token| ==> !IsSpace(token[i])
  {
    var token := hi + "`" + lo;
    forall i | 0 <= i < |token|
      ensures !IsSpace(token[i])
    {
      if i < |hi| {
        assert token[i] == hi[i];
      } else if i > |hi| {
        assert token[i] == lo[i - |hi| - 1];
      }
    }
  }
}
