# memory.ts bridge: a Dafny model

memory.ts drives the `cdb` console debugger to read and write the memory of
another process. It sends typed display commands (`d<code> <hex> L 1`) and edit
commands (`e<code> <hex> <value>`). It collects the console's reply from the
output stream until some expected tokens show up. Then it decodes the value
that follows the echoed address. On top of that sit four more pieces:

- the module table parsed from `lmn`, with lookup by exact name;
- a pointer-chain resolver, `address(start, ...offsets)`, in three revisions;
- the typed accessor object returned by `memory()`;
- `detach` and the `is64Bit` probe.

The repository holds three implementations of the bridge, and the model
covers all of them:

- `src/modules/debugger.ts`, the standalone `Debugger` class;
- `src/modules/dbg.ts`, a `Memory` class with a simpler reply decoder, called
  the legacy decoder below;
- `src/modules/memory/async.ts` and `src/modules/memory/sync.ts`, built on
  `src/modules/dbg/index.ts` and `src/modules/dbg/types.ts`. These are the
  ones the entry point uses: `src/index.ts` imports `attach` from
  `src/modules/memory`, which builds the asynchronous `Memory`.

Modules, one file each:

- `Wrappers` (wrappers.dfy): `Option`.
- `Js` (js.dfy): the JavaScript behaviour the bridge relies on.
  - Numbers are an integer or NaN, and `+` absorbs NaN.
  - `n.toString(16)` and `String(n)` render numbers.
  - `parseInt(s, 16)` is modelled with leading white space, sign, `0x` and
    the longest digit prefix.
  - Also modelled: integer `Number(s)`, the `\s`, `\w` and line-terminator
    classes, `includes`, `replace(/c/g, '')`, `trim`.
- `MemoryTypes` (types.dfy): the nine `DataTypes` tags, their command letters
  and property names, and `isStringType` / `isNumericType` / `isHexType`.
- `Channel` (channel.dfy): the command channel.
  - Commands are framed one per line.
  - The `listen` loop over an explicit sequence of output chunks is modelled
    with and without `collect`.
  - So is the per-chunk joining of 64-bit `XXXXXXXX`XXXXXXXX` groups.
  - Also here: `sendCommand`'s defaults and `is64Bit`.
- `Codec` (codec.dfy): the typed commands and the reply decoding of both
  revisions.
  - The reply regex `${hex}\s+(.+?)\s` is modelled, including its
    backtracking fallback.
  - A stand-in console executes the commands against a map of displayed
    cells.
- `ModuleTable` (moduletable.dfy): the lines of a listing and the line
  pattern `^(\w{6,16}) (\w{8,16})\s+(\w+) (.+)$`.
  - The pattern is a deterministic matcher and also a reference predicate
    (`Shape`).
  - It also covers the records built from a match, `find` by name, and a
    renderer of listings used to state the round trip.
- `Resolver` (resolver.dfy): the pointer chain.
  - The target is explicit: a pointer-read oracle (`None` when the read's
    promise rejects) and a base-address oracle.
  - It has the loop (`Chain`), the recursive fold (`Walk`) and the
    reference definition (`PointerAt`).
  - The start is used directly in debugger.ts, dbg.ts and sync.ts, and
    dereferenced first in async.ts.
- `Facade` (facade.dfy): the `memory()` accessors, `module` / `baseAddress`
  with the process name as default, `modules()` over a chunk stream, and
  `detach`.
  - The asynchronous accessor is modelled as written and as its type
    promises.
  - The synchronous accessor's `get`/`set` are modelled too.
  - Pointer reads through the stand-in console are connected to the
    resolver's read oracle.

Behaviour of the code worth noting:

- String reads return the captured token as it is. No quote characters are
  stripped (debugger.ts:95).
- `collect` does not make the listener run past the first chunk that
  satisfies the tokens. It only keeps the text of earlier chunks instead of
  discarding it (debugger.ts:201-209).
- Nothing in the code stops a second command from being sent while one is
  pending.
- A string read returns the reply up to the first white space after the
  address, so `memory.ascii("a b")` followed by `memory.ascii()` gives `"a"`
  (debugger.ts:84-95, `Codec.StringReadStopsAtBlank`).
- `memory()` in the asynchronous revisions writes only truthy values (see
  Findings).

## Model

| member | source | states |
|---|---|---|
| MemoryTypes.FromCode | src/modules/dbg/types.ts:12-23 | a command letter decodes to the tag that uses it, and every tag's letter decodes |
| MemoryTypes.FromName | src/modules/dbg/types.ts:12-23 | `DataTypes[key]` is defined for exactly the nine tag names, and names the tag whose name it is |
| MemoryTypes.CodeInjective | src/modules/dbg/types.ts:12-23 | the nine command letters are pairwise distinct, so a letter names one tag |
| MemoryTypes.IsStringType | src/modules/dbg/types.ts:69-71 | a tag is a string tag exactly when it is `ascii` or `unicode` |
| MemoryTypes.IsNumericType | src/modules/dbg/types.ts:73-75 | the numeric tags are exactly the seven non-string tags |
| MemoryTypes.IsHexType | src/modules/dbg/types.ts:77-79 | a tag is rendered and parsed in hexadecimal unless it is `float` or `double`; the string tags count as hex |
| MemoryTypes.NumericHexTags | src/modules/dbg/types.ts:69-79 | numeric-and-hex holds exactly for byte, byte2, byte4, byte8 and dword |
| Js.Add | src/modules/debugger.ts:138 | adding an offset to a running address is NaN exactly when the address is NaN, and otherwise adds |
| Js.ParseHexOfToHex | src/modules/debugger.ts:81-89 | `parseInt(n.toString(16), 16)` gives back every integer `n`, negative ones included |
| Js.DecimalIntegerOfDecimal | src/modules/debugger.ts:92 | `Number(String(n))` gives back every integer `n` |
| Js.IncludesAt | src/modules/dbg/index.ts:43 | `s.includes(sub)` holds exactly when `sub` occurs at some index of `s` |
| Js.Without | src/modules/debugger.ts:89 | deleting every backtick leaves none, never lengthens the text, and is the identity on backtick-free text |
| Js.WithoutOne | src/modules/debugger.ts:89 | a single character is deleted exactly when it is the one being removed, and kept otherwise |
| Js.WithoutAppend | src/modules/debugger.ts:89 | deleting a character distributes over concatenation |
| Js.ParseHexOfNonDigit | src/modules/debugger.ts:89 | `parseInt(s, 16)` is NaN when the first character is neither white space, a sign nor a hexadecimal digit |
| Js.Trim | src/modules/debugger.ts:118-119 | `trim()` returns a slice of its input with no white space at either end, everything cut off on either side is white space, and text with no white space at its ends is kept |
| Js.TrimOfPadded | src/modules/debugger.ts:118-119 | trimming white space from around a text whose ends are not white space gives exactly that text |
| Channel.UnframeFrame | src/modules/dbg/index.ts:31-32 | writing each command followed by a newline lets the console read back exactly those commands, in order, if none contains a newline |
| Channel.Normalise | src/modules/dbg/index.ts:41 | the global group replacement never lengthens a chunk |
| Channel.NormaliseDeletesOnlyBackticks | src/modules/dbg/index.ts:41 | joining the 64-bit groups deletes backticks and nothing else |
| Channel.NormaliseWithoutBackticks | src/modules/dbg/index.ts:41 | a chunk without backticks passes through unchanged |
| Channel.JoinsOneGroup | src/modules/dbg/index.ts:41 | `XXXXXXXX`YYYYYYYY` of hex digits becomes the sixteen digits |
| Channel.SplitGroupIsNotJoined | src/modules/dbg/index.ts:40-41 | normalisation is per chunk: a group split between two chunks keeps its backtick |
| Channel.Listen | src/modules/debugger.ts:196-213 | the loop completes at a chunk exactly when every expected token is in the collection then; the collection is all chunks so far with `collect` and the current chunk alone without; no earlier chunk completed |
| Channel.Fetch | src/modules/dbg/index.ts:37-57 | the reply is the collection at the first chunk after which every token is present, and there is none exactly when no chunk completes |
| Channel.CollectionGrows | src/modules/dbg/index.ts:47-49 | with `collect`, each chunk's collection extends the previous one |
| Channel.CollectCompletesNoLater | src/modules/dbg/index.ts:43-51 | collecting completes no later than resetting, on the same stream |
| Channel.JoinedExtends | src/modules/dbg/index.ts:41-49 | the collection after m chunks is a prefix of the collection after any later chunk |
| Channel.CompletesAtLast | src/modules/dbg/index.ts:39-51 | when the tokens are all present in the whole stream's collection but not before its last chunk, the collecting listener resolves at the last chunk with the whole collection |
| Channel.NormaliseBreak | src/modules/dbg/index.ts:41 | a chunk splits at a character that is neither a hex digit nor a backtick, and normalising it is normalising each side |
| Channel.SendCommand | src/modules/dbg/index.ts:31-35 | the command is written as one line; by default the reply is the first normalised chunk containing the prompt `0:000>`, and no earlier chunk contains it |
| Channel.Is64Bit | src/modules/dbg/index.ts:5-13 | the target is 64-bit exactly when the listing begins with the two characters `64` |
| Codec.ReadRequest | src/modules/debugger.ts:81-83 | the console reads the tag and the address back out of the display command, and the reply completes when the hex address shows |
| Codec.RenderValue | src/modules/debugger.ts:104-108 | a number is rendered so that `parseInt(_, 16)` gives it back for hex tags and `Number(_)` for float/double; a string passes through |
| Codec.WriteRequest | src/modules/debugger.ts:101-109 | the console reads the tag, the address and the rendered value back out of the edit command; the reply completes at the prompt |
| Codec.LegacyWriteRequest | src/modules/dbg.ts:51-55 | the dbg.ts edit command carries the value text unchanged, and the console reads back tag, address and value |
| Codec.TokenFrom | src/modules/debugger.ts:84-85 | a capture found is the pattern's capture at some index from the start onwards, and there is none exactly when the pattern matches at no such index |
| Codec.TokenFromIsLeftmost | src/modules/debugger.ts:84-85 | the capture found is the one at the leftmost index where the pattern matches: at any match index with no match before it, the search returns that match |
| Codec.TokenOfReply | src/modules/debugger.ts:84-85 | a reply `<hex><white space><token><white space>` yields that token |
| Codec.DecodeRead | src/modules/debugger.ts:80-96 | with no capture, hex reads reject and string reads give undefined, and only then; a string read returns the captured token; a numeric hex read is `parseInt` of the token with its backticks deleted; a float/double read is `Number` of the token, NaN with no capture |
| Codec.DisplayedWordDecodes | src/modules/debugger.ts:84-89 | a four-byte read whose reply shows `12345678` after the address decodes to 0x12345678 |
| Codec.DisplayedDigitsDecode | src/modules/debugger.ts:84-89 | for every numeric hex tag, a displayed run of hexadecimal digits after the address decodes to its value |
| Codec.DigitTokenDecodes | src/modules/debugger.ts:88-89 | a captured run of hexadecimal digits decodes, for every numeric hex tag, to the value of those digits |
| Codec.DecodeReadLegacy | src/modules/dbg.ts:33-49 | the dbg.ts decoder never rejects; dword is `parseInt(token, 16)` with the token kept as it is (`"undefined"` with no capture); double is `Number(token)`, NaN with no capture; every other tag gives the raw captured token, or undefined |
| Codec.DecodersAgreeWithoutBacktick | src/modules/dbg.ts:40-48 | on a captured token without a backtick, the two decoders agree for dword, double and the string tags |
| Codec.DecodersDifferOnMissingDword | src/modules/dbg.ts:44-46 | with no capture, the dbg.ts dword read gives NaN where the debugger.ts one rejects |
| Codec.WriteThenRead | src/modules/debugger.ts:80-109 | writing a representable value and reading it back with the same tag through the console returns that value; for the hex tags a representable value fits the tag's cell (below 2^8, 2^16, 2^32 or 2^64), and for the string tags it is one word |
| Codec.StringReadStopsAtBlank | src/modules/debugger.ts:84-95 | a string written with white space in it reads back as its first word only |
| Codec.DecodeReadJoinsPointerHalves | src/modules/debugger.ts:88-90 | a 64-bit pointer printed as `hi`lo` decodes to the value of all sixteen digits |
| Codec.DecodeReadLegacyKeepsHighHalf | src/modules/dbg.ts:44-46 | the dbg.ts decoder reads only the high half of such a pointer |
| Codec.LegacyPointerDecodeDiffers | src/modules/dbg.ts:44-46 | whenever the high half is not zero, the two decoders disagree on the same reply |
| ModuleTable.SplitLines | src/modules/debugger.ts:113 | the text splits into at least one line, and no line holds a line terminator |
| ModuleTable.SplitJoin | src/modules/debugger.ts:113 | splitting lines joined with newlines gives the lines back |
| ModuleTable.MatchLineSound | src/modules/debugger.ts:113 | every line the matcher accepts has the pattern's shape, with the groups it reports |
| ModuleTable.MatchLineComplete | src/modules/debugger.ts:113 | every line of the pattern's shape is accepted with exactly those groups, so the decomposition is unique |
| ModuleTable.ParseLineMatches | src/modules/debugger.ts:113-120 | a line yields a record exactly when some decomposition has the pattern's shape, and the record is built from it |
| ModuleTable.ParseModulesOfLines | src/modules/debugger.ts:113 | the global multi-line match over a text of lines finds the records of those lines, in order |
| ModuleTable.ParseLinesAppend | src/modules/debugger.ts:113 | the records of two runs of lines are the records of each, in order |
| ModuleTable.ParseLineOfRender | src/modules/debugger.ts:113-120 | a listing row parses back to the record it shows, with hex addresses and trimmed names |
| ModuleTable.HeaderIsNotARow | src/modules/debugger.ts:113 | the listing's column header yields no record |
| ModuleTable.TrailerIsNotARow | src/modules/debugger.ts:112-113 | the blank line and the `Unloaded modules:` marker yield no record |
| ModuleTable.ParseRows | src/modules/debugger.ts:113-121 | rows parse to their records in the order of the rows |
| ModuleTable.ParseModulesOfListing | src/modules/debugger.ts:111-122 | parsing a whole listing gives back exactly its records, in order |
| ModuleTable.FindIndex | src/modules/debugger.ts:179 | the index found holds the name and no earlier record does; there is none exactly when no record has the name |
| ModuleTable.Find | src/modules/debugger.ts:177-180 | `module(name)` is defined exactly when some record has that exact name, and is the first such record |
| ModuleTable.BaseAddress | src/modules/debugger.ts:186-191 | `baseAddress(name)` is defined exactly when some record has the name, and is the first such record's base |
| ModuleTable.FirstMatchWins | src/modules/dbg.ts:101-104 | a record in front shadows every later record of the same name |
| ModuleTable.OtherNamesIgnored | src/modules/dbg.ts:101-104 | records with other names do not change the lookup |
| ModuleTable.BacktickRowIsSkipped | src/modules/debugger.ts:111-113 | a 64-bit row as the console prints it, with backticks, never matches the pattern |
| ModuleTable.NormalisedRowParses | src/modules/dbg/index.ts:41 | once its groups are joined, the 64-bit row is the plain row and parses to its record |
| ModuleTable.TrailerMarksTheEnd | src/modules/debugger.ts:111-112 | every listing, whatever its rows, holds both end markers of the `lmn` request |
| ModuleTable.Listing64Normalises | src/modules/dbg/index.ts:41 | joining the groups of a whole 64-bit listing gives the plain 16-digit listing of the same records |
| ModuleTable.ParseListing64Raw | src/modules/debugger.ts:111-113 | a whole 64-bit listing parsed as received yields no record at all |
| Resolver.Chain | src/modules/debugger.ts:137-145 | with k >= 1 offsets the loop resolves exactly when every one of the k-1 reads succeeds, to the last pointer plus the last offset; its reads are the reference definition's, and a rejection stops at the first failing read |
| Resolver.NoPointerAfterRejection | src/modules/debugger.ts:144 | once a pointer read rejects, no later running address exists |
| Resolver.Walk | src/modules/dbg.ts:83-93 | the fold issues only pointer reads, at most k-1 of them for k offsets and exactly k-1 when it resolves; with no offsets it returns the start |
| Resolver.WalkAgrees | src/modules/dbg.ts:83-93 | the fold resolves and reads exactly as the reference definition prescribes |
| Resolver.ChainIsWalk | src/modules/memory/sync.ts:56-66 | the loop and the fold compute the same outcome and the same reads |
| Resolver.TracesAgree | src/modules/debugger.ts:137-145 | two read sequences that both follow the reference definition and both run to the end or stop at a rejection are equal |
| Resolver.WalkSplits | src/modules/debugger.ts:137-147 | a chain resolves in two parts: the address of the first part is read as a pointer and the rest of the chain continues from it |
| Resolver.Begin | src/modules/memory/async.ts:63-71 | a module start lists the modules once and begins at base or 0; a numeric start begins at itself when direct and at the pointer read there when dereferenced |
| Resolver.Resolve | src/modules/debugger.ts:126-148 | a module start's requests begin with the listing and a numeric start's never do; every later request is a pointer read |
| Resolver.ResolveAgrees | src/modules/memory/async.ts:62-84 | once the start is found, the rest of the requests and the outcome are those the reference definition prescribes from that start |
| Resolver.ModuleStartResolves | src/modules/dbg.ts:72-93 | a module start found in the table lists the modules once and then chains from its base, in every revision |
| Resolver.NumericStartAlone | src/modules/debugger.ts:127-131 | a numeric start with no offsets is returned unchanged without any request |
| Resolver.SingleOffset | src/modules/debugger.ts:137-142 | one offset is added without a dereference |
| Resolver.AbsentModuleIsZero | src/modules/debugger.ts:133-135 | a module missing from the table contributes base 0, after one listing request |
| Resolver.VariantsDiffer | src/modules/memory/async.ts:65-67 | the asynchronous revision reads the pointer at a numeric start first and chains from what it holds, rejecting if that read rejects |
| Resolver.VariantsAgreeOnModules | src/modules/memory/async.ts:69-71 | for a module start the dereferencing and direct revisions are identical |
| Resolver.RequestCount | src/modules/memory/sync.ts:56-66 | a resolved chain of k >= 1 offsets issues k-1 pointer reads, plus one listing for a module start or one read for a dereferenced numeric start |
| Facade.CallAsWritten | src/modules/debugger.ts:162-171 | an unknown property does nothing; a known one writes exactly when the value is truthy and reads otherwise, always at the resolved address |
| Facade.Call | src/modules/dbg/types.ts:53-61 | the accessor as typed: a known property reads exactly when called without a value and otherwise writes the value given |
| Facade.WritingZeroReads | src/modules/debugger.ts:166-170 | `memory.byte(0)` reads instead of writing zero; the corrected accessor writes it |
| Facade.WritingEmptyStringReads | src/modules/memory/async.ts:96-100 | `memory.ascii("")` reads instead of writing the empty string; the corrected accessor writes it |
| Facade.SyncGet | src/modules/memory/sync.ts:76-79 | a property read reads at the resolved address for a known tag, and issues nothing for an unknown one |
| Facade.SyncSet | src/modules/memory/sync.ts:80-84 | an assignment to a known tag writes the value at the resolved address and reports true; an unknown tag writes nothing and reports false |
| Facade.SyncRun | src/modules/memory/sync.ts:72-88 | every use of one accessor object acts at the one address resolved when it was made, writing exactly on assignments to known tags |
| Facade.SyncWritesZero | src/modules/memory/sync.ts:80-84 | assigning zero through the synchronous accessor does write zero |
| Facade.StandaloneIsDirect | src/modules/debugger.ts:153-160 | the bare-address shortcut of the `Debugger` class's `memory()` changes nothing: it resolves as the synchronous revision does |
| Facade.AsyncBareAddressIsRead | src/modules/memory/async.ts:89-90 | the asynchronous `memory(n)` reads the pointer at `n` and uses it, where the `Debugger` class uses `n` itself without a request |
| Facade.ConsoleReadLoads | src/modules/debugger.ts:80-96 | a pointer read through the console at a mapped address gives the value stored there, and NaN at an unmapped one |
| Facade.ConsoleLoads | src/modules/debugger.ts:144 | the console over a memory map is a pointer reader that loads that map |
| Facade.TwoLevelChain | src/modules/debugger.ts:126-148 | `address(start, o1, o2)` over a memory map reads the pointer at `start + o1` once and adds `o2` to it |
| Facade.Module | src/modules/debugger.ts:177-180 | `module(name = processName)` is defined exactly when some record has that name, and is the first such record |
| Facade.BaseAddress | src/modules/dbg.ts:106-111 | `baseAddress(name = processName)` is the first matching record's base, and undefined exactly when no record has the name |
| Facade.Modules | src/modules/dbg.ts:57-68 | `modules()` completes exactly when both end markers have arrived, and parses every chunk received up to then |
| Facade.ModulesOfListingStream | src/modules/dbg.ts:57-68 | a listing spread over chunks, complete only with the last one, gives back exactly its records |
| Facade.ModulesOf64BitListing | src/modules/dbg/index.ts:37-57 | a 64-bit listing gives back its records when chunks are normalised, and no records when they are read as received |
| Facade.DetachCommands | src/modules/dbg.ts:96-99 | dbg.ts sends `.detach` then `q`, debugger.ts `qd` (debugger.ts:182-184); the console reads them back as sent |

## Left out

- Process spawning, the `tlist` query and the wait for the first prompt
  (debugger.ts:217-240, dbg.ts:137-160, dbg/index.ts:15-29) are I/O.
  - `is64Bit` is modelled on the listing text it receives.
  - The output stream is an explicit sequence of chunks.
- The worker thread and the `SharedArrayBuffer` spin-poll behind the
  synchronous revision (sync.ts:102-114), `src/modules/dbg/server.ts` and
  `src/modules/debuggerServer.ts` are cross-thread plumbing.
  - The synchronous revision's `sendCommand` is treated as an oracle.
- `src/modules/memory/spec.ts` and `src/modules/memory/index.ts` are not part
  of this model. The `_readCommand`, `_readPostProcess`, `_modulePostProcess`
  and `_detachCommand` helpers are not shown.
  - The asynchronous and synchronous revisions are therefore modelled through
    explicit oracles: a pointer reader and a base-address lookup.
  - Their accessors are modelled up to the action they take.
- `readBuffer`, `writeBuffer`, `alloc` and `free` (async.ts:32-48) are left
  out because they rest entirely on those unseen helpers.
- `src/modules/dbg/config.ts` (paths) and the client scripts under
  `src/examples` and `src/test` are left out.
- `Number(token)` is only modelled for tokens that are plain integers.
  - Fractions, exponents and `Infinity` give an uninterpreted
    `Decimal(token)`.
  - Floating-point rendering of a written float/double value is not
    modelled beyond integers.
- JavaScript numbers are unbounded integers or NaN. Precision loss above
  2^53 is not modelled.
- The module pattern is applied line by line. The rare match in which
  `\s+` between the second and third group spans a line break is not
  modelled.
- Inherited prototype property names (`toString`, `constructor`) are not
  modelled. `DataTypes[key]` is treated as defined only for the nine tag
  names.
- Listeners left behind by `detach`'s unawaited commands, and any
  interleaving of two pending commands, are not modelled.
- Facade.ReadPointer: a read at a NaN address is treated as a rejected read.
  The console's actual reply to `dp NaN L 1` is not modelled.
- Facade.MemoryAddress carries no contract of its own. Its behaviour is
  stated by `Facade.StandaloneIsDirect` and `Facade.AsyncBareAddressIsRead`.
- The stand-in console in `Codec` answers each display command with one
  chunk that echoes the address unpadded and without a backtick. Replies split
  over chunks and the padded, backticked echo of a 64-bit address are not
  modelled. `Facade.ConsoleReadLoads`, `Facade.ConsoleLoads`,
  `Facade.TwoLevelChain` and `Codec.WriteThenRead` hold for that console only.
- The base-address lookups of the asynchronous and synchronous revisions
  (async.ts:111-116, sync.ts:95-100) go through `module()` and the unseen
  `_modulePostProcess`. They are the resolver's base-address oracle;
  `Facade.BaseAddress` models the visible lookup of dbg.ts and debugger.ts.
- Codec.WriteThenRead: stated only for values that fit the tag's cell
  (`Codec.CellLimit`, with `dword` taken as a 64-bit pointer) and, for the
  string tags, for one word. The stand-in keeps the written value text as
  it is, so it does not model how the target truncates a negative or
  too-wide value (`eb <address> -1` storing `ff`).
- Channel.SendCommand states the reply only for the default tokens and
  `collect`. Other arguments are covered by `Channel.Fetch`.

## Findings

| source | as written | input that shows it | evidently intended | confidence | as-written member | corrected member |
|---|---|---|---|---|---|---|
| src/modules/debugger.ts:166-170 | the accessor writes only when `value` is truthy | `memory.byte(0)` | writing zero writes zero, as the `TMemory` type and the synchronous `set` promise | high, not executed | Facade.CallAsWritten (Facade.WritingZeroReads) | Facade.Call (Facade.CallsAgree) |
| src/modules/memory/async.ts:96-100 | the same truthiness test, carried over | `memory.ascii("")` | writing the empty string writes it | high, not executed | Facade.CallAsWritten (Facade.WritingEmptyStringReads) | Facade.Call (Facade.CallsAgree) |
| src/modules/dbg.ts:44-46 | a dword token goes to `parseInt(res, 16)` with its backtick, which stops the parse | `dp` at an address below 2^32 (so its echo has no backtick) on a 64-bit target, reply `<hex>  00007ff6`a0010000 `; the `hi`lo` value format is the one debugger.ts:89 and dbg/index.ts:41 are written to undo | the whole 64-bit pointer, as debugger.ts:89 reads it after stripping backticks | medium, not executed | Codec.DecodeReadLegacy (Codec.LegacyPointerDecodeDiffers) | Codec.DecodeRead (Codec.DecodeReadJoinsPointerHalves) |
| src/modules/debugger.ts:111-113 | listing rows are matched as received; on a 64-bit target the addresses carry a backtick, which `\w{6,16}` does not accept | row `00007ff6`a0010000 00007ff6`a0020000   app app.exe` | rows parse after the groups are joined, as dbg/index.ts:41 does for the asynchronous and synchronous classes | medium, not executed | ModuleTable.ParseLine (ModuleTable.BacktickRowIsSkipped, ModuleTable.ParseListing64Raw) | Facade.Modules with normalisation (Facade.ModulesOf64BitListing, ModuleTable.NormalisedRowParses) |
