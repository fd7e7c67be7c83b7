/** The user-facing surface: `memory(start, ...offsets)`, which resolves an
    address once and hands back an accessor object whose properties are the
    tag names, and the small session helpers around it (`module`,
    `baseAddress`, `detach`). The accessor's console traffic is described by
    the `Action` it performs. */
module Facade {
  import opened Wrappers
  import opened Js
  import opened MemoryTypes
  import Codec
  import Channel
  import ModuleTable
  import Resolver

  /** What an accessor is called with: nothing, a number or a string. */
  datatype Value = Absent | NumVal(n: Number) | StrVal(s: string)

  /** What one accessor use does at the resolved address. */
  datatype Action = NoAction | ReadAction(tag: Tag, address: Number) | WriteAction(tag: Tag, address: Number, arg: Codec.Arg)

  /** JavaScript truthiness: `0`, `NaN`, `""` and `undefined` are falsy. */
  predicate Truthy(v: Value) {
    match v
    case Absent => false
    case NumVal(n) => n.Int? && n.v != 0
    case StrVal(s) => |s| > 0
  }

  function ArgOf(v: Value): Codec.Arg
    requires !v.Absent?
  {
    match v
    case NumVal(n) => Codec.NumArg(n)
    case StrVal(s) => Codec.StrArg(s)
  }

  // ---------------------------------------------------------------------------
  // The asynchronous accessor (debugger.ts, memory/async.ts)

  /** `memory[key](value)` as written: an unknown key does nothing; a truthy
      value is written; any other value, `0` and `""` included, makes the
      call a read. */
  function CallAsWritten(key: string, value: Value, address: Number): (r: Action)
    ensures FromName(key).None? <==> r.NoAction?
    ensures r.WriteAction? <==> FromName(key).Some? && Truthy(value)
    ensures r.ReadAction? ==> r.address == address && Some(r.tag) == FromName(key)
    ensures r.WriteAction? ==> r.address == address && Some(r.tag) == FromName(key) && r.arg == ArgOf(value)
  {
    match FromName(key)
    case None => NoAction
    case Some(t) => if Truthy(value) then WriteAction(t, address, ArgOf(value)) else ReadAction(t, address)
  }

  /** The accessor as its type promises: called without a value it reads,
      called with one it writes that value. */
  function Call(key: string, value: Value, address: Number): (r: Action)
    ensures FromName(key).None? <==> r.NoAction?
    ensures r.ReadAction? <==> FromName(key).Some? && value.Absent?
    ensures r.ReadAction? ==> r.address == address && Some(r.tag) == FromName(key)
    ensures r.WriteAction? ==> r.address == address && Some(r.tag) == FromName(key) && r.arg == ArgOf(value)
  {
    match FromName(key)
    case None => NoAction
    case Some(t) => if value.Absent? then ReadAction(t, address) else WriteAction(t, address, ArgOf(value))
  }

  /** Writing zero through the accessor as written reads instead, and the
      value is never written. */
  lemma WritingZeroReads(t: Tag, address: Number)
    ensures CallAsWritten(Name(t), NumVal(Int(0)), address) == ReadAction(t, address)
    ensures Call(Name(t), NumVal(Int(0)), address) == WriteAction(t, address, Codec.NumArg(Int(0)))
  {
    FromNameOfName(t);
  }

  /** The same happens to the empty string. */
  lemma WritingEmptyStringReads(t: Tag, address: Number)
    ensures CallAsWritten(Name(t), StrVal(""), address) == ReadAction(t, address)
    ensures Call(Name(t), StrVal(""), address) == WriteAction(t, address, Codec.StrArg(""))
  {
    FromNameOfName(t);
  }

  /** The two accessors agree exactly on the calls whose value is absent or truthy. */
  lemma CallsAgree(key: string, value: Value, address: Number)
    ensures CallAsWritten(key, value, address) == Call(key, value, address)
            <==> FromName(key).None? || value.Absent? || Truthy(value)
  {
  }

  // ---------------------------------------------------------------------------
  // The synchronous accessor (memory/sync.ts)

  /** One use of the synchronous accessor: a property read or a property assignment. */
  datatype SyncUse = Get(key: string) | Set(key: string, value: Value)

  /** The proxy's `get`: a known key reads, an unknown one yields undefined
      without a request. */
  function SyncGet(key: string, address: Number): (r: Action)
    ensures r.NoAction? <==> FromName(key).None?
    ensures r.ReadAction? ==> r.address == address && Some(r.tag) == FromName(key)
    ensures !r.WriteAction?
  {
    match FromName(key)
    case None => NoAction
    case Some(t) => ReadAction(t, address)
  }

  /** The proxy's `set`: a known key writes and reports `true`, an unknown
      one writes nothing and reports `false`. */
  function SyncSet(key: string, value: Value, address: Number): (r: (Action, bool))
    requires !value.Absent?
    ensures r.1 <==> FromName(key).Some?
    ensures !r.1 ==> r.0 == NoAction
    ensures r.1 ==> r.0 == WriteAction(FromName(key).value, address, ArgOf(value))
  {
    match FromName(key)
    case None => (NoAction, false)
    case Some(t) => (WriteAction(t, address, ArgOf(value)), true)
  }

  /** A run of uses of one synchronous accessor object. */
  function SyncRun(uses: seq<SyncUse>, address: Number): (r: seq<Action>)
    requires forall i :: 0 <= i < |uses| ==> uses[i].Set? ==> !uses[i].value.Absent?
    ensures |r| == |uses|
    ensures forall i :: 0 <= i < |r| ==> !r[i].NoAction? ==> r[i].address == address
    ensures forall i :: 0 <= i < |r| ==> (r[i].NoAction? <==> FromName(uses[i].key).None?)
    ensures forall i :: 0 <= i < |r| ==> (r[i].WriteAction? <==> uses[i].Set? && FromName(uses[i].key).Some?)
  {
    if |uses| == 0 then []
    else
      var first := match uses[0]
        case Get(key) => SyncGet(key, address)
        case Set(key, value) => SyncSet(key, value, address).0;
      [first] + SyncRun(uses[1..], address)
  }

  /** Assigning zero through the synchronous accessor does write zero. */
  lemma SyncWritesZero(t: Tag, address: Number)
    ensures SyncSet(Name(t), NumVal(Int(0)), address) == (WriteAction(t, address, Codec.NumArg(Int(0))), true)
  {
    FromNameOfName(t);
  }

  // ---------------------------------------------------------------------------
  // Resolving the accessor's address

  /** The three `memory()` revisions. */
  datatype Revision = Standalone | Async | Sync

  /** `memory(start, ...offsets)`: the address every accessor of the
      returned object uses. The `Debugger` class returns a bare numeric
      start as it is and resolves everything else without dereferencing the
      start; the asynchronous one always resolves, dereferencing a numeric
      start; the synchronous one always resolves without dereferencing. */
  function MemoryAddress(revision: Revision, read: Number -> Option<Number>, baseOf: string -> Option<Number>,
                         start: Resolver.Start, offsets: seq<int>): Resolver.Resolution
  {
    match revision
    case Standalone =>
      if start.AtModule? || |offsets| > 0 then Resolver.Resolve(Resolver.Direct, read, baseOf, start, offsets)
      else Resolver.Resolution(Resolver.Resolved(Int(start.address)), [])
    case Async => Resolver.Resolve(Resolver.Dereferenced, read, baseOf, start, offsets)
    case Sync => Resolver.Resolve(Resolver.Direct, read, baseOf, start, offsets)
  }

  /** The shortcut of the `Debugger` class changes nothing: it is the
      non-dereferencing resolution, which the synchronous revision uses too. */
  lemma StandaloneIsDirect(read: Number -> Option<Number>, baseOf: string -> Option<Number>,
                        start: Resolver.Start, offsets: seq<int>)
    ensures MemoryAddress(Standalone, read, baseOf, start, offsets)
            == Resolver.Resolve(Resolver.Direct, read, baseOf, start, offsets)
            == MemoryAddress(Sync, read, baseOf, start, offsets)
  {
  }

  /** The asynchronous `memory(n)` with no offsets reads the pointer at `n`
      and uses what it finds, where the other revisions use `n` itself. */
  lemma AsyncBareAddressIsRead(read: Number -> Option<Number>, baseOf: string -> Option<Number>, n: int)
    ensures MemoryAddress(Standalone, read, baseOf, Resolver.AtAddress(n), [])
            == Resolver.Resolution(Resolver.Resolved(Int(n)), [])
    ensures read(Int(n)).Some? ==>
              MemoryAddress(Async, read, baseOf, Resolver.AtAddress(n), [])
              == Resolver.Resolution(Resolver.Resolved(Sum(Int(0), read(Int(n)).value)), [Resolver.ReadPointer(Int(n))])
    ensures read(Int(n)).None? ==>
              MemoryAddress(Async, read, baseOf, Resolver.AtAddress(n), [])
              == Resolver.Resolution(Resolver.Rejected, [Resolver.ReadPointer(Int(n))])
  {
  }

  // ---------------------------------------------------------------------------
  // The pointer reads against a console

  /** `read(dword, address)` against the stand-in console: the pointer the
      `Debugger` class's decoder finds in the display reply, `None` when the read
      rejects. The console answers a command naming no address with the
      prompt alone, so a read at NaN rejects. */
  function ReadPointer(c: Codec.Console, a: Number): Option<Number> {
    match a
    case NaN => None
    case Int(x) =>
      match Codec.DecodeRead(Dword, x, Codec.Execute(c, Codec.ReadRequest(Dword, x).command).1)
      case Numeric(n) => Some(n)
      case _ => None
  }

  /** The same as the read oracle a resolution takes. */
  function ConsoleRead(c: Codec.Console): Number -> Option<Number> {
    (a: Number) => ReadPointer(c, a)
  }

  /** The console showing a target memory: each mapped address displays its
      value in hexadecimal. */
  function ConsoleOf(mem: map<int, int>): Codec.Console {
    Codec.Console(map a | a in mem :: ToHex(mem[a]))
  }

  /** Reading pointers through the console gives the target memory's
      contents, and NaN at an unmapped address (the console shows `????????`
      there). */
  lemma ConsoleReadLoads(mem: map<int, int>, a: int)
    ensures ConsoleRead(ConsoleOf(mem))(Int(a)) == Some(if a in mem then Int(mem[a]) else NaN)
  {
    var c := ConsoleOf(mem);
    assert ConsoleRead(c)(Int(a)) == ReadPointer(c, Int(a));
    if a in mem {
      MappedCellDecodes(c, a, mem[a]);
    } else {
      UnmappedCellDecodes(c, a);
    }
  }

  lemma MappedCellDecodes(c: Codec.Console, a: int, n: int)
    requires a in c.cells && c.cells[a] == ToHex(n)
    ensures Codec.DecodeRead(Dword, a, Codec.Execute(c, Codec.ReadRequest(Dword, a).command).1) == Codec.Numeric(Int(n))
  {
    var v := Codec.NumArg(Int(n));
    assert Codec.RenderValue(Dword, v) == ToHex(n);
    Codec.ConsoleDisplaysCell(c, Dword, a);
    Codec.RenderedValueIsOneToken(Dword, v);
    Codec.DecodeOfDisplay(Dword, a, v);
  }

  lemma UnmappedCellDecodes(c: Codec.Console, a: int)
    requires a !in c.cells
    ensures Codec.DecodeRead(Dword, a, Codec.Execute(c, Codec.ReadRequest(Dword, a).command).1) == Codec.Numeric(NaN)
  {
    Codec.ConsoleShowsUnmapped(c, Dword, a);
    Codec.UnmappedIsOneToken();
    UnknownReplyDecodes(a, Codec.Unmapped, Codec.Execute(c, Codec.ReadRequest(Dword, a).command).1);
  }

  /** A display whose value is not a number decodes to NaN. */
  lemma UnknownReplyDecodes(a: int, q: string, reply: string)
    requires |q| >= 1 && q[0] == '?'
    requires forall i :: 0 <= i < |q| ==> !IsSpace(q[i]) && q[i] != '`'
    requires reply == ToHex(a) + "  " + q + Codec.ReplyTail
    ensures Codec.DecodeRead(Dword, a, reply) == Codec.Numeric(NaN)
  {
    Codec.TokenOfReply(ToHex(a), "  ", q, Codec.ReplyTail);
    ParseHexOfNonDigit(q);
  }

  /** `read` loads pointers from the target memory `mem`. */
  ghost predicate Loads(read: Number -> Option<Number>, mem: map<int, int>) {
    forall a: int :: read(Int(a)) == Some(if a in mem then Int(mem[a]) else NaN)
  }

  /** The console over a target memory is such a loader. */
  lemma ConsoleLoads(mem: map<int, int>)
    ensures Loads(ConsoleRead(ConsoleOf(mem)), mem)
  {
    forall a: int
      ensures ConsoleRead(ConsoleOf(mem))(Int(a)) == Some(if a in mem then Int(mem[a]) else NaN)
    {
      ConsoleReadLoads(mem, a);
    }
  }

  /** A two-offset chain over a target memory: one pointer read at the start
      plus the first offset, then the second offset added to what it held. */
  lemma TwoLevelChain(read: Number -> Option<Number>, mem: map<int, int>, baseOf: string -> Option<Number>,
                      start: int, o1: int, o2: int)
    requires Loads(read, mem) && start + o1 in mem
    ensures Resolver.Resolve(Resolver.Direct, read, baseOf, Resolver.AtAddress(start), [o1, o2])
            == Resolver.Resolution(Resolver.Resolved(Int(mem[start + o1] + o2)), [Resolver.ReadPointer(Int(start + o1))])
  {
    assert read(Int(start + o1)) == Some(Int(mem[start + o1]));
    TwoLevelRead(read, baseOf, start, o1, o2, mem[start + o1]);
  }

  lemma TwoLevelRead(read: Number -> Option<Number>, baseOf: string -> Option<Number>, start: int, o1: int, o2: int, p: int)
    requires read(Int(start + o1)) == Some(Int(p))
    ensures Resolver.Resolve(Resolver.Direct, read, baseOf, Resolver.AtAddress(start), [o1, o2])
            == Resolver.Resolution(Resolver.Resolved(Int(p + o2)), [Resolver.ReadPointer(Int(start + o1))])
  {
    assert Resolver.Walk(read, Int(p), [o2]) == Resolver.Resolution(Resolver.Resolved(Int(p + o2)), []);
    assert [o1, o2][1..] == [o2];
    assert Resolver.Walk(read, Int(start), [o1, o2])
           == Resolver.Resolution(Resolver.Resolved(Int(p + o2)), [Resolver.ReadPointer(Int(start + o1))]);
  }

  // ---------------------------------------------------------------------------
  // Session helpers

  /** The attached process; its name is the default module name. */
  datatype Session = Session(processName: string, is64bit: bool)

  /** `module(name = processName)` over the listed modules. */
  function Module(s: Session, table: seq<ModuleTable.ModuleRecord>, name: Option<string>): (r: Option<ModuleTable.ModuleRecord>)
    ensures r.Some? <==> exists j :: 0 <= j < |table| && table[j].name == name.GetOr(s.processName)
    ensures r.Some? ==> r.value in table && r.value.name == name.GetOr(s.processName)
    ensures r.Some? ==> exists j :: 0 <= j < |table| && table[j] == r.value
                          && forall k :: 0 <= k < j ==> table[k].name != name.GetOr(s.processName)
    ensures name.None? && r.Some? ==> r.value.name == s.processName
  {
    ModuleTable.Find(table, name.GetOr(s.processName))
  }

  /** `baseAddress(name = processName)`: the base of that module, or undefined. */
  function BaseAddress(s: Session, table: seq<ModuleTable.ModuleRecord>, name: Option<string>): (r: Option<Number>)
    ensures r.Some? <==> exists j :: 0 <= j < |table| && table[j].name == name.GetOr(s.processName)
    ensures r.Some? ==> exists j :: 0 <= j < |table| && table[j].name == name.GetOr(s.processName)
                          && table[j].baseAddr == r.value
                          && forall k :: 0 <= k < j ==> table[k].name != name.GetOr(s.processName)
  {
    match Module(s, table, name)
    case Some(m) => Some(m.baseAddr)
    case None => None
  }

  /** The module listing received over a chunk stream: collected until both
      end markers show, with the 64-bit groups joined per chunk when
      `normalise` is set (src/modules/dbg/index.ts) and left as they are
      otherwise (debugger.ts, dbg.ts). */
  function Modules(chunks: seq<string>, normalise: bool): (r: Option<seq<ModuleTable.ModuleRecord>>)
    ensures r.Some? <==> Channel.Fetch(chunks, ModuleTable.ListRequest().tokens, true, normalise).Some?
    ensures r.Some? ==>
              var done := Channel.Fetch(chunks, ModuleTable.ListRequest().tokens, true, normalise).value;
              r.value == ModuleTable.ParseModules(Channel.Joined(chunks, normalise, done.index + 1))
  {
    var req := ModuleTable.ListRequest();
    match Channel.Fetch(chunks, req.tokens, req.collect, normalise)
    case Some(done) => Some(ModuleTable.ParseModules(done.text))
    case None => None
  }

  /** A listing that arrives over several chunks, its end markers complete
      only in the last one, is parsed back to exactly its records. */
  lemma ModulesOfListingStream(chunks: seq<string>, normalise: bool, rs: seq<ModuleTable.ModuleRecord>, width: nat)
    requires |chunks| >= 1
    requires forall i :: 0 <= i < |rs| ==> ModuleTable.Renderable(rs[i], width)
    requires Channel.Joined(chunks, normalise, |chunks|) == ModuleTable.Listing(rs, width)
    requires !Channel.AllPresent(ModuleTable.ListRequest().tokens, Channel.Joined(chunks, normalise, |chunks| - 1))
    ensures Modules(chunks, normalise) == Some(rs)
  {
    ModuleTable.TrailerMarksTheEnd([ModuleTable.Header] + ModuleTable.Rows(rs, width));
    Channel.CompletesAtLast(chunks, ModuleTable.ListRequest().tokens, normalise);
    ModuleTable.ParseModulesOfListing(rs, width);
  }

  /** A 64-bit listing in one chunk: normalised, as the dbg module reads it,
      it gives back its records; read as it arrives, as the other modules
      read it, it gives none. */
  lemma ModulesOf64BitListing(rs: seq<ModuleTable.ModuleRecord>)
    requires forall i :: 0 <= i < |rs| ==> ModuleTable.Renderable(rs[i], 16)
    requires forall i, k :: 0 <= i < |rs| && 0 <= k < |rs[i].name| ==> rs[i].name[k] != '`'
    ensures Modules([ModuleTable.Listing64(rs)], true) == Some(rs)
    ensures Modules([ModuleTable.Listing64(rs)], false) == Some([])
  {
    Normalised64BitListing(rs);
    Raw64BitListing(rs);
  }

  lemma Normalised64BitListing(rs: seq<ModuleTable.ModuleRecord>)
    requires forall i :: 0 <= i < |rs| ==> ModuleTable.Renderable(rs[i], 16)
    requires forall i, k :: 0 <= i < |rs| && 0 <= k < |rs[i].name| ==> rs[i].name[k] != '`'
    ensures Modules([ModuleTable.Listing64(rs)], true) == Some(rs)
  {
    var chunks := [ModuleTable.Listing64(rs)];
    var tokens := ModuleTable.ListRequest().tokens;
    assert !Includes("", tokens[0]);
    assert !Channel.AllPresent(tokens, Channel.Joined(chunks, true, 0));
    ModuleTable.Listing64Normalises(rs);
    assert Channel.Joined(chunks, true, 1) == ModuleTable.Listing(rs, 16);
    ModulesOfListingStream(chunks, true, rs, 16);
  }

  lemma Raw64BitListing(rs: seq<ModuleTable.ModuleRecord>)
    requires forall i :: 0 <= i < |rs| ==> ModuleTable.Renderable(rs[i], 16)
    ensures Modules([ModuleTable.Listing64(rs)], false) == Some([])
  {
    var chunks := [ModuleTable.Listing64(rs)];
    var tokens := ModuleTable.ListRequest().tokens;
    assert !Includes("", tokens[0]);
    assert !Channel.AllPresent(tokens, Channel.Joined(chunks, false, 0));
    assert Channel.Joined(chunks, false, 1) == ModuleTable.Listing64(rs);
    ModuleTable.TrailerMarksTheEnd([ModuleTable.Header] + ModuleTable.Rows64(rs));
    Channel.CompletesAtLast(chunks, tokens, false);
    ModuleTable.ParseListing64Raw(rs);
  }

  /** The commands `detach` sends: `qd` in debugger.ts, `.detach`
      then `q` in dbg.ts. The console reads them back one per line. */
  function DetachCommands(legacy: bool): (cmds: seq<string>)
    ensures Channel.Unframe(Channel.Frame(cmds)) == cmds
    ensures legacy ==> cmds == [".detach", "q"]
    ensures !legacy ==> cmds == ["qd"]
  {
    var cmds := if legacy then [".detach", "q"] else ["qd"];
    assert forall i :: 0 <= i < |cmds| ==> Channel.NoNewline(cmds[i]);
    Channel.UnframeFrame(cmds);
    cmds
  }
}
