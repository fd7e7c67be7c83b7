/** The command channel: a command is written to the debugger's input as one
    line, and the reply is whatever the output listener has collected when
    every expected token occurs in it. The output stream is an explicit
    sequence of text chunks (one per `data` event). */
module Channel {
  import opened Wrappers
  import opened Js

  /** The console's ready prompt, the default expected token. */
  const Prompt: string := "0:000>"

  // ---------------------------------------------------------------------------
  // Writing commands

  /** The bytes written to the debugger's input for a run of commands, one
      `command + "\n"` per command. */
  function Frame(commands: seq<string>): string {
    if |commands| == 0 then "" else commands[0] + "\n" + Frame(commands[1..])
  }

  predicate NoNewline(s: string) {
    forall i :: 0 <= i < |s| ==> s[i] != '\n'
  }

  /** Index of the first newline of `s`, or `|s|` when there is none. */
  function LineEnd(s: string): (k: nat)
    ensures k <= |s| && NoNewline(s[..k])
    ensures k < |s| ==> s[k] == '\n'
  {
    if |s| == 0 || s[0] == '\n' then 0 else 1 + LineEnd(s[1..])
  }

  /** How the debugger splits its input into commands: one per line. */
  function Unframe(stream: string): seq<string>
    decreases |stream|
  {
    if |stream| == 0 then []
    else
      var k := LineEnd(stream);
      if k == |stream| then [stream] else [stream[..k]] + Unframe(stream[k + 1..])
  }

  lemma LineEndOfLine(c: string, rest: string)
    requires NoNewline(c)
    ensures LineEnd(c + "\n" + rest) == |c|
  {
    if |c| > 0 {
      assert (c + "\n" + rest)[1..] == c[1..] + "\n" + rest;
      LineEndOfLine(c[1..], rest);
    }
  }

  /** The debugger reads back exactly the commands that were written, in
      order, as long as none of them contains a newline. */
  lemma {:induction false} UnframeFrame(commands: seq<string>)
    requires forall i :: 0 <= i < |commands| ==> NoNewline(commands[i])
    ensures Unframe(Frame(commands)) == commands
  {
    if |commands| > 0 {
      var c := commands[0];
      var rest := Frame(commands[1..]);
      LineEndOfLine(c, rest);
      var s := c + "\n" + rest;
      assert s[..|c|] == c;
      assert s[|c| + 1..] == rest;
      UnframeFrame(commands[1..]);
    }
  }

  // ---------------------------------------------------------------------------
  // 64-bit group normalisation (`/([0-9a-f]{8})`([0-9a-f]{8})/gi` -> `$1$2`)

  predicate HexRun(s: string, from: nat, to: nat)
    requires from <= to <= |s|
  {
    forall k :: from <= k < to ==> IsHexDigit(s[k])
  }

  /** `s` holds an `XXXXXXXX`XXXXXXXX` group at index `i`. */
  predicate GroupAt(s: string, i: nat) {
    i + 17 <= |s| && s[i + 8] == '`' && HexRun(s, i, i + 8) && HexRun(s, i + 9, i + 17)
  }

  /** The global replacement, scanning left to right and resuming after each
      replaced group. */
  function Normalise(s: string): (t: string)
    ensures |t| <= |s|
    decreases |s|
  {
    if |s| < 17 then s
    else if GroupAt(s, 0) then s[..8] + s[9..17] + Normalise(s[17..])
    else [s[0]] + Normalise(s[1..])
  }

  /** Normalisation deletes backticks and nothing else. */
  lemma {:induction false} NormaliseDeletesOnlyBackticks(s: string)
    ensures Without(Normalise(s), '`') == Without(s, '`')
    decreases |s|
  {
    if |s| >= 17 {
      if GroupAt(s, 0) {
        NormaliseDeletesOnlyBackticks(s[17..]);
        GroupLosesOnlyItsBacktick(s);
        WithoutAppend(s[..8] + s[9..17], Normalise(s[17..]), '`');
        WithoutAppend(s[..17], s[17..], '`');
        assert s == s[..17] + s[17..];
      } else {
        NormaliseDeletesOnlyBackticks(s[1..]);
        WithoutAppend([s[0]], Normalise(s[1..]), '`');
        WithoutAppend([s[0]], s[1..], '`');
        assert s == [s[0]] + s[1..];
      }
    }
  }

  lemma GroupLosesOnlyItsBacktick(s: string)
    requires GroupAt(s, 0)
    ensures Without(s[..8] + s[9..17], '`') == Without(s[..17], '`')
  {
    var high, low := s[..8], s[9..17];
    GroupHalvesHaveNoBacktick(s);
    WithoutAppend(high, low, '`');
    assert Without(high + low, '`') == high + low;
    GroupWithoutBacktick(s);
  }

  lemma GroupHalvesHaveNoBacktick(s: string)
    requires GroupAt(s, 0)
    ensures Without(s[..8], '`') == s[..8] && Without(s[9..17], '`') == s[9..17]
  {
    var high, low := s[..8], s[9..17];
    assert HexRun(s, 0, 8) && HexRun(s, 9, 17);
    assert forall i :: 0 <= i < 8 ==> high[i] == s[i] && low[i] == s[i + 9];
    assert forall i :: 0 <= i < 8 ==> high[i] != '`' && low[i] != '`';
  }

  lemma GroupWithoutBacktick(s: string)
    requires GroupAt(s, 0)
    ensures Without(s[..17], '`') == s[..8] + s[9..17]
  {
    var high, low := s[..8], s[9..17];
    GroupHalvesHaveNoBacktick(s);
    var tick: string := "`";
    assert Without(tick, '`') == [];
    assert s[..17] == (high + tick) + low;
    WithoutAppend(high + tick, low, '`');
    WithoutAppend(high, tick, '`');
  }

  /** Text without backticks passes through unchanged. */
  lemma {:induction false} NormaliseWithoutBackticks(s: string)
    requires forall i :: 0 <= i < |s| ==> s[i] != '`'
    ensures Normalise(s) == s
    decreases |s|
  {
    if |s| >= 17 {
      assert !GroupAt(s, 0);
      NormaliseWithoutBackticks(s[1..]);
    }
  }

  /** A 64-bit address as the console prints it becomes its sixteen digits. */
  lemma JoinsOneGroup(high: string, low: string)
    requires |high| == 8 && |low| == 8
    requires forall i :: 0 <= i < 8 ==> IsHexDigit(high[i]) && IsHexDigit(low[i])
    ensures Normalise(high + "`" + low) == high + low
  {
    var s := high + "`" + low;
    assert s[..8] == high && s[9..17] == low;
    assert GroupAt(s, 0);
    assert Normalise(s[17..]) == [];
  }

  /** A group at the front is joined and the scan resumes after it. */
  lemma NormaliseGroupThen(high: string, low: string, rest: string)
    requires |high| == 8 && |low| == 8
    requires forall i :: 0 <= i < 8 ==> IsHexDigit(high[i]) && IsHexDigit(low[i])
    ensures Normalise(high + "`" + low + rest) == high + low + Normalise(rest)
  {
    var s := high + "`" + low + rest;
    assert s[..8] == high && s[9..17] == low && s[17..] == rest;
    assert GroupAt(s, 0);
  }

  /** A character that cannot begin a group is kept and the scan moves on. */
  lemma NormaliseNonHexThen(c: char, rest: string)
    requires !IsHexDigit(c)
    ensures Normalise([c] + rest) == [c] + Normalise(rest)
  {
    var s := [c] + rest;
    assert s[1..] == rest;
    if |s| >= 17 {
      assert s[0] == c && !IsHexDigit(s[0]);
      assert !HexRun(s, 0, 8);
    }
  }

  /** A character that is neither a hexadecimal digit nor a backtick cannot
      lie inside a group, so normalisation splits at it. */
  lemma {:induction false} NormaliseBreak(a: string, rest: string)
    requires |rest| >= 1 && !IsHexDigit(rest[0]) && rest[0] != '`'
    ensures Normalise(a + rest) == Normalise(a) + Normalise(rest)
    decreases |a|
  {
    var s := a + rest;
    if |a| == 0 {
      assert s == rest;
    } else if |s| < 17 {
      assert Normalise(a) == a && Normalise(rest) == rest;
    } else if GroupAt(s, 0) {
      GroupInsideLeft(a, rest);
      NormaliseBreak(a[17..], rest);
      BreakAfterGroup(a, rest);
    } else {
      NoGroupInPrefix(a, rest);
      NormaliseBreak(a[1..], rest);
      assert s[0] == a[0] && s[1..] == a[1..] + rest;
      FirstKept(s);
      FirstKept(a);
      BreakAfterChar(a, rest);
    }
  }

  lemma BreakAfterGroup(a: string, rest: string)
    requires |a| >= 17 && GroupAt(a, 0) && GroupAt(a + rest, 0)
    requires Normalise(a[17..] + rest) == Normalise(a[17..]) + Normalise(rest)
    ensures Normalise(a + rest) == Normalise(a) + Normalise(rest)
  {
    var s := a + rest;
    var head := a[..8] + a[9..17];
    assert s[..8] == a[..8] && s[9..17] == a[9..17] && s[17..] == a[17..] + rest;
    assert Normalise(s) == head + Normalise(a[17..] + rest);
    assert Normalise(a) == head + Normalise(a[17..]);
  }

  lemma BreakAfterChar(a: string, rest: string)
    requires |a| >= 1
    requires Normalise(a + rest) == [a[0]] + Normalise(a[1..] + rest)
    requires Normalise(a) == [a[0]] + Normalise(a[1..])
    requires Normalise(a[1..] + rest) == Normalise(a[1..]) + Normalise(rest)
    ensures Normalise(a + rest) == Normalise(a) + Normalise(rest)
  {
  }

  /** Without a group at its front, normalisation keeps the first character. */
  lemma FirstKept(a: string)
    requires |a| >= 1 && !GroupAt(a, 0)
    ensures Normalise(a) == [a[0]] + Normalise(a[1..])
  {
    if |a| < 17 {
      assert Normalise(a[1..]) == a[1..];
      assert a == [a[0]] + a[1..];
    }
  }

  /** A group at the front of `a + rest` lies within `a`. */
  lemma GroupInsideLeft(a: string, rest: string)
    requires |rest| >= 1 && !IsHexDigit(rest[0]) && rest[0] != '`'
    requires GroupAt(a + rest, 0)
    ensures |a| >= 17 && GroupAt(a, 0)
  {
    var s := a + rest;
    assert s[|a|] == rest[0];
    assert forall k :: 0 <= k < |a| ==> s[k] == a[k];
  }

  /** Without a group at the front of `a + rest`, there is none at the front of `a`. */
  lemma NoGroupInPrefix(a: string, rest: string)
    requires !GroupAt(a + rest, 0)
    ensures !GroupAt(a, 0)
  {
    assert forall k :: 0 <= k < |a| ==> (a + rest)[k] == a[k];
  }

  /** Normalisation is per chunk: a group split between two chunks is not joined. */
  lemma SplitGroupIsNotJoined()
    ensures Normalise("00007ff6`") + Normalise("a0010000") == "00007ff6`a0010000"
    ensures Normalise("00007ff6`a0010000") == "00007ff6a0010000"
  {
    JoinsOneGroup("00007ff6", "a0010000");
  }

  // ---------------------------------------------------------------------------
  // Collecting the reply

  /** Every expected token occurs in the collection. */
  predicate AllPresent(tokens: seq<string>, collection: string) {
    forall i :: 0 <= i < |tokens| ==> Includes(collection, tokens[i])
  }

  /** A chunk as the listener appends it. */
  function Prepare(chunk: string, normalise: bool): string {
    if normalise then Normalise(chunk) else chunk
  }

  /** The first `n` chunks, prepared and concatenated. */
  function Joined(chunks: seq<string>, normalise: bool, n: nat): string
    requires n <= |chunks|
  {
    if n == 0 then "" else Joined(chunks, normalise, n - 1) + Prepare(chunks[n - 1], normalise)
  }

  /** What the listener has collected right after chunk `j`: every chunk so
      far when collecting, only chunk `j` otherwise. */
  function Collected(chunks: seq<string>, collect: bool, normalise: bool, j: nat): string
    requires j < |chunks|
  {
    if collect then Joined(chunks, normalise, j + 1) else Prepare(chunks[j], normalise)
  }

  /** The reply: the index of the chunk that completed it and the text collected. */
  datatype Completion = Completion(index: nat, text: string)

  /** The text carried into chunk `i` by the listener. */
  function Carried(chunks: seq<string>, collect: bool, normalise: bool, i: nat): string
    requires i <= |chunks|
  {
    if collect then Joined(chunks, normalise, i) else ""
  }

  /** The `listen` loop from chunk `i` on: append the chunk; complete when every
      expected token is present; otherwise listen again, keeping the
      collection when `collect` is set and starting from empty when it is not. */
  function Listen(chunks: seq<string>, tokens: seq<string>, collect: bool, normalise: bool,
                  i: nat, collection: string): (r: Option<Completion>)
    requires i <= |chunks|
    requires collection == Carried(chunks, collect, normalise, i)
    ensures r.Some? ==> i <= r.value.index < |chunks|
    ensures r.Some? ==> r.value.text == Collected(chunks, collect, normalise, r.value.index)
    ensures r.Some? ==> AllPresent(tokens, r.value.text)
    ensures forall j :: i <= j < |chunks| && (r.None? || j < r.value.index) ==>
              !AllPresent(tokens, Collected(chunks, collect, normalise, j))
    decreases |chunks| - i
  {
    if i == |chunks| then None
    else
      var c := collection + Prepare(chunks[i], normalise);
      assert c == Collected(chunks, collect, normalise, i);
      if AllPresent(tokens, c) then Some(Completion(i, c))
      else Listen(chunks, tokens, collect, normalise, i + 1, if collect then c else "")
  }

  /** `fetchResults`: the first chunk after which every expected token is a
      substring of the collection completes the reply; `None` when no chunk of
      the stream does (the source then waits forever). */
  function Fetch(chunks: seq<string>, tokens: seq<string>, collect: bool, normalise: bool): (r: Option<Completion>)
    ensures r.Some? ==> r.value.index < |chunks| && AllPresent(tokens, r.value.text)
    ensures r.Some? ==> r.value.text == Collected(chunks, collect, normalise, r.value.index)
    ensures r.Some? ==> forall j :: 0 <= j < r.value.index ==> !AllPresent(tokens, Collected(chunks, collect, normalise, j))
    ensures r.None? <==> forall j :: 0 <= j < |chunks| ==> !AllPresent(tokens, Collected(chunks, collect, normalise, j))
  {
    var r := Listen(chunks, tokens, collect, normalise, 0, "");
    assert r.Some? ==> AllPresent(tokens, Collected(chunks, collect, normalise, r.value.index));
    r
  }

  /** With `collect`, the collection only grows: each chunk's collection
      extends the previous one. */
  lemma CollectionGrows(chunks: seq<string>, normalise: bool, j: nat)
    requires j + 1 < |chunks|
    ensures Collected(chunks, true, normalise, j) <= Collected(chunks, true, normalise, j + 1)
  {
  }

  /** The joined prefix of `m` chunks begins the joined prefix of `n >= m` chunks. */
  lemma {:induction false} JoinedExtends(chunks: seq<string>, normalise: bool, m: nat, n: nat)
    requires m <= n <= |chunks|
    ensures Joined(chunks, normalise, m) <= Joined(chunks, normalise, n)
    decreases n - m
  {
    if m < n {
      JoinedExtends(chunks, normalise, m, n - 1);
    }
  }

  /** A token found in a prefix is still found in the whole text. */
  lemma IncludesOfPrefix(a: string, b: string, sub: string)
    requires a <= b && Includes(a, sub)
    ensures Includes(b, sub)
  {
    IncludesAppend(a, b[|a|..], sub);
    assert a + b[|a|..] == b;
  }

  /** With `collect`, a stream whose tokens first all show once every chunk
      has arrived completes at its last chunk, with the whole stream joined. */
  lemma CompletesAtLast(chunks: seq<string>, tokens: seq<string>, normalise: bool)
    requires |chunks| >= 1
    requires AllPresent(tokens, Joined(chunks, normalise, |chunks|))
    requires !AllPresent(tokens, Joined(chunks, normalise, |chunks| - 1))
    ensures Fetch(chunks, tokens, true, normalise) == Some(Completion(|chunks| - 1, Joined(chunks, normalise, |chunks|)))
  {
    var last := |chunks| - 1;
    assert Collected(chunks, true, normalise, last) == Joined(chunks, normalise, |chunks|);
    forall j | 0 <= j < last
      ensures !AllPresent(tokens, Collected(chunks, true, normalise, j))
    {
      JoinedExtends(chunks, normalise, j + 1, last);
      var early := Joined(chunks, normalise, j + 1);
      var late := Joined(chunks, normalise, last);
      assert Collected(chunks, true, normalise, j) == early;
      if AllPresent(tokens, early) {
        forall e | 0 <= e < |tokens|
          ensures Includes(late, tokens[e])
        {
          IncludesOfPrefix(early, late, tokens[e]);
        }
      }
    }
    var r := Fetch(chunks, tokens, true, normalise);
    assert r.Some?;
    assert r.value.index == last;
  }

  lemma {:induction false} IncludesPrepend(a: string, b: string, sub: string)
    requires Includes(b, sub)
    ensures Includes(a + b, sub)
    decreases |a|
  {
    if |a| > 0 {
      IncludesPrepend(a[1..], b, sub);
      assert (a + b)[1..] == a[1..] + b;
    } else {
      assert a + b == b;
    }
  }

  /** Collecting never completes later than resetting: whatever chunk
      satisfies the tokens on its own also satisfies them when appended to
      the earlier chunks. */
  lemma CollectCompletesNoLater(chunks: seq<string>, tokens: seq<string>, normalise: bool)
    requires Fetch(chunks, tokens, false, normalise).Some?
    ensures Fetch(chunks, tokens, true, normalise).Some?
    ensures Fetch(chunks, tokens, true, normalise).value.index <= Fetch(chunks, tokens, false, normalise).value.index
  {
    var k := Fetch(chunks, tokens, false, normalise).value.index;
    var alone := Collected(chunks, false, normalise, k);
    var prefix := Joined(chunks, normalise, k);
    assert Collected(chunks, true, normalise, k) == prefix + alone;
    forall e | 0 <= e < |tokens|
      ensures Includes(Collected(chunks, true, normalise, k), tokens[e])
    {
      IncludesPrepend(prefix, alone, tokens[e]);
    }
    assert AllPresent(tokens, Collected(chunks, true, normalise, k));
  }

  // ---------------------------------------------------------------------------
  // Sending a command

  /** One command's traffic: what was written and the reply, if any. */
  datatype Exchange = Exchange(written: string, reply: Option<Completion>)

  /** `sendCommand` of the dbg module: write `command + "\n"`, then fetch with
      normalisation; `expect` defaults to the prompt and `collect` to false. */
  function SendCommand(command: string, tokens: Option<seq<string>>, collect: Option<bool>,
                       chunks: seq<string>): (r: Exchange)
    ensures NoNewline(command) ==> Unframe(r.written) == [command]
    ensures tokens.None? && collect.None? && r.reply.Some? ==>
              Includes(r.reply.value.text, Prompt) && r.reply.value.index < |chunks| && r.reply.value.text == Normalise(chunks[r.reply.value.index])
    ensures tokens.None? && collect.None? ==>
              forall j :: 0 <= j < |chunks| && (r.reply.None? || j < r.reply.value.index) ==> !Includes(Normalise(chunks[j]), Prompt)
  {
    UnframeOne(command);
    assert forall j :: 0 <= j < |chunks| ==> Collected(chunks, false, true, j) == Normalise(chunks[j]);
    assert forall x :: AllPresent([Prompt], x) <==> Includes(x, Prompt) by {
      forall x ensures AllPresent([Prompt], x) <==> Includes(x, Prompt) {
        assert [Prompt][0] == Prompt;
      }
    }
    Exchange(Frame([command]), Fetch(chunks, tokens.GetOr([Prompt]), collect.GetOr(false), true))
  }

  lemma UnframeOne(command: string)
    ensures NoNewline(command) ==> Unframe(Frame([command])) == [command]
  {
    if NoNewline(command) {
      UnframeFrame([command]);
    }
  }

  // ---------------------------------------------------------------------------
  // Word size of the target

  predicate IsDecimalDigit(c: char) {
    '0' <= c <= '9'
  }

  /** `is64Bit`: the two leading digits the process listing prints
      (`/^(\d{2})/`) equal `64`. */
  function Is64Bit(listing: string): (r: bool)
    ensures r <==> |listing| >= 2 && listing[0] == '6' && listing[1] == '4'
  {
    if |listing| >= 2 && IsDecimalDigit(listing[0]) && IsDecimalDigit(listing[1]) then listing[..2] == "64"
    else false
  }
}
