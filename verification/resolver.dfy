/** The pointer-chain resolver, `address(start, ...offsets)`: the running
    address starts at the start, and each offset is added to it; after every
    offset but the last, the running address is replaced by the pointer read
    at it. The target is explicit: `read` is the `read(dword, _)` round trip
    (`None` when it rejects) and `baseOf` is `baseAddress(_)`. */
module Resolver {
  import opened Wrappers
  import opened Js

  /** The start of a chain: a numeric address or a module name. */
  datatype Start = AtAddress(address: int) | AtModule(name: string)

  /** How a numeric start becomes the running address: used as it is
      (debugger.ts, dbg.ts, memory/sync.ts) or read through first
      (memory/async.ts). */
  datatype Variant = Direct | Dereferenced

  /** The requests a resolution sends to the console, in order. */
  datatype Step = ListModules | ReadPointer(at: Number)

  /** The address, or the rejection of a pointer read. */
  datatype Outcome = Resolved(address: Number) | Rejected

  datatype Resolution = Resolution(outcome: Outcome, trace: seq<Step>)

  /** A resolution preceded by one more request. */
  function After(step: Step, r: Resolution): Resolution {
    Resolution(r.outcome, [step] + r.trace)
  }

  predicate OnlyReads(trace: seq<Step>) {
    forall j :: 0 <= j < |trace| ==> trace[j].ReadPointer?
  }

  // ---------------------------------------------------------------------------
  // The reference definition

  /** The running address just before offset `i` is added, or `None` once a
      pointer read has rejected: the start for `i = 0`, and otherwise the
      pointer read at the previous running address plus the previous offset. */
  function PointerAt(read: Number -> Option<Number>, start: Number, offsets: seq<int>, i: nat): Option<Number>
    requires i < |offsets|
  {
    if i == 0 then Some(start)
    else
      match PointerAt(read, start, offsets, i - 1)
      case Some(p) => read(Add(p, offsets[i - 1]))
      case None => None
  }

  /** The `i`-th pointer read of a chain: at the running address plus offset `i`. */
  function ReadAt(read: Number -> Option<Number>, start: Number, offsets: seq<int>, i: nat): Step
    requires i < |offsets| && PointerAt(read, start, offsets, i).Some?
  {
    ReadPointer(Add(PointerAt(read, start, offsets, i).value, offsets[i]))
  }

  /** The `j`-th request of `trace` is the `j`-th read of the reference definition. */
  predicate IssuedAt(read: Number -> Option<Number>, start: Number, offsets: seq<int>, trace: seq<Step>, j: int) {
    0 <= j < |trace| && j < |offsets| && PointerAt(read, start, offsets, j).Some? && trace[j] == ReadAt(read, start, offsets, j)
  }

  /** `trace` is the first `|trace|` reads the reference definition issues. */
  predicate Follows(read: Number -> Option<Number>, start: Number, offsets: seq<int>, trace: seq<Step>) {
    forall j :: 0 <= j < |trace| ==> IssuedAt(read, start, offsets, trace, j)
  }

  /** The last read of `trace` rejected. */
  predicate Stopped(read: Number -> Option<Number>, start: Number, offsets: seq<int>, trace: seq<Step>) {
    1 <= |trace| < |offsets| && PointerAt(read, start, offsets, |trace|).None?
  }

  // ---------------------------------------------------------------------------
  // The loop

  /** The `for (const [i, offset] of offsets.entries())` loop, `break`
      included: add the offset, stop after the last one, otherwise read the
      pointer at the running address. */
  method Chain(read: Number -> Option<Number>, start: Number, offsets: seq<int>)
      returns (outcome: Outcome, trace: seq<Step>)
    ensures |offsets| == 0 ==> outcome == Resolved(start) && trace == []
    ensures |offsets| > 0 ==>
              (outcome.Resolved? <==> PointerAt(read, start, offsets, |offsets| - 1).Some?)
    ensures |offsets| > 0 && outcome.Resolved? ==>
              outcome.address == Add(PointerAt(read, start, offsets, |offsets| - 1).value, offsets[|offsets| - 1])
              && |trace| == |offsets| - 1
    ensures |offsets| > 0 ==> |trace| <= |offsets| - 1
    ensures Follows(read, start, offsets, trace)
    ensures outcome.Rejected? ==> Stopped(read, start, offsets, trace)
  {
    var address := start;
    trace := [];
    var i := 0;
    while i < |offsets|
      invariant 0 <= i <= |offsets|
      invariant i < |offsets| ==> PointerAt(read, start, offsets, i) == Some(address)
      invariant i == |offsets| ==> |offsets| == 0
      invariant |offsets| == 0 ==> address == start
      invariant |trace| == i
      invariant Follows(read, start, offsets, trace)
    {
      address := Add(address, offsets[i]);
      if i + 1 == |offsets| {
        break;
      }
      var pointer := read(address);
      FollowsExtend(read, start, offsets, trace);
      trace := trace + [ReadPointer(address)];
      if pointer.None? {
        NoPointerAfterRejection(read, start, offsets, i + 1, |offsets| - 1);
        return Rejected, trace;
      }
      address := pointer.value;
      i := i + 1;
    }
    outcome := Resolved(address);
  }

  lemma FollowsExtend(read: Number -> Option<Number>, start: Number, offsets: seq<int>, trace: seq<Step>)
    requires Follows(read, start, offsets, trace)
    requires |trace| < |offsets| && PointerAt(read, start, offsets, |trace|).Some?
    ensures Follows(read, start, offsets, trace + [ReadAt(read, start, offsets, |trace|)])
  {
    var longer := trace + [ReadAt(read, start, offsets, |trace|)];
    forall j | 0 <= j < |longer|
      ensures IssuedAt(read, start, offsets, longer, j)
    {
      if j < |trace| {
        assert IssuedAt(read, start, offsets, trace, j);
      }
    }
  }

  /** Once a read has rejected, no later running address exists. */
  lemma {:induction false} NoPointerAfterRejection(read: Number -> Option<Number>, start: Number, offsets: seq<int>, i: nat, k: nat)
    requires i <= k < |offsets|
    requires PointerAt(read, start, offsets, i).None?
    ensures PointerAt(read, start, offsets, k).None?
    decreases k - i
  {
    if k > i {
      NoPointerAfterRejection(read, start, offsets, i, k - 1);
    }
  }

  // ---------------------------------------------------------------------------
  // The fold

  /** The loop as a recursive fold over the offsets. */
  function Walk(read: Number -> Option<Number>, address: Number, offsets: seq<int>): (r: Resolution)
    ensures OnlyReads(r.trace)
    ensures |offsets| == 0 ==> r == Resolution(Resolved(address), [])
    ensures |offsets| > 0 ==> |r.trace| <= |offsets| - 1
    ensures |offsets| > 0 && r.outcome.Resolved? ==> |r.trace| == |offsets| - 1
    decreases |offsets|
  {
    if |offsets| == 0 then Resolution(Resolved(address), [])
    else
      var a := Add(address, offsets[0]);
      if |offsets| == 1 then Resolution(Resolved(a), [])
      else
        match read(a)
        case None => Resolution(Rejected, [ReadPointer(a)])
        case Some(p) => After(ReadPointer(a), Walk(read, p, offsets[1..]))
  }

  /** `r` is what the reference definition prescribes for the chain: it
      resolves exactly when every read succeeds, to the last running address
      plus the last offset; its reads are the reference's reads; and a
      rejection stops at the first failing read. */
  predicate Agrees(read: Number -> Option<Number>, start: Number, offsets: seq<int>, r: Resolution)
    requires |offsets| > 0
  {
    (r.outcome.Resolved? <==> PointerAt(read, start, offsets, |offsets| - 1).Some?)
    && (r.outcome.Resolved? ==> r.outcome.address == Add(PointerAt(read, start, offsets, |offsets| - 1).value, offsets[|offsets| - 1]))
    && Follows(read, start, offsets, r.trace)
    && (r.outcome.Rejected? ==> Stopped(read, start, offsets, r.trace))
  }

  /** The fold and the reference definition agree on the requests and on the
      outcome. */
  lemma {:induction false} WalkAgrees(read: Number -> Option<Number>, start: Number, offsets: seq<int>)
    requires |offsets| > 0
    ensures Agrees(read, start, offsets, Walk(read, start, offsets))
    decreases |offsets|
  {
    var a := Add(start, offsets[0]);
    if |offsets| > 1 {
      match read(a)
      case None =>
        assert PointerAt(read, start, offsets, 1).None?;
        NoPointerAfterRejection(read, start, offsets, 1, |offsets| - 1);
      case Some(p) =>
        WalkAgrees(read, p, offsets[1..]);
        AgreesAfterRead(read, start, offsets, p, Walk(read, p, offsets[1..]));
    }
  }

  /** One step of the fold: a chain that agrees from the first pointer read
      agrees from the start once that read is put in front. */
  lemma AgreesAfterRead(read: Number -> Option<Number>, start: Number, offsets: seq<int>, p: Number, rest: Resolution)
    requires |offsets| > 1 && read(Add(start, offsets[0])) == Some(p)
    requires Agrees(read, p, offsets[1..], rest)
    ensures Agrees(read, start, offsets, After(ReadPointer(Add(start, offsets[0])), rest))
  {
    var r := After(ReadPointer(Add(start, offsets[0])), rest);
    OutcomeAfterRead(read, start, offsets, p, rest);
    FollowsAfterRead(read, start, offsets, p, rest);
    if rest.outcome.Rejected? {
      StoppedAfterRead(read, start, offsets, p, rest);
    }
    assert Follows(read, start, offsets, r.trace);
    assert r.outcome.Rejected? ==> Stopped(read, start, offsets, r.trace);
  }

  /** The reads half of `AgreesAfterRead`. */
  lemma FollowsAfterRead(read: Number -> Option<Number>, start: Number, offsets: seq<int>, p: Number, rest: Resolution)
    requires |offsets| > 1 && read(Add(start, offsets[0])) == Some(p)
    requires Follows(read, p, offsets[1..], rest.trace)
    ensures Follows(read, start, offsets, After(ReadPointer(Add(start, offsets[0])), rest).trace)
  {
    var trace := After(ReadPointer(Add(start, offsets[0])), rest).trace;
    forall j | 0 <= j < |trace|
      ensures IssuedAt(read, start, offsets, trace, j)
    {
      ReadAfterRead(read, start, offsets, p, rest, j);
    }
  }

  /** The rejection half of `AgreesAfterRead`. */
  lemma StoppedAfterRead(read: Number -> Option<Number>, start: Number, offsets: seq<int>, p: Number, rest: Resolution)
    requires |offsets| > 1 && read(Add(start, offsets[0])) == Some(p)
    requires Stopped(read, p, offsets[1..], rest.trace)
    ensures Stopped(read, start, offsets, After(ReadPointer(Add(start, offsets[0])), rest).trace)
  {
    var r := After(ReadPointer(Add(start, offsets[0])), rest);
    assert |r.trace| == |rest.trace| + 1;
    PointerAtShift(read, start, offsets, p, |rest.trace|);
  }

  lemma FollowsAt(read: Number -> Option<Number>, start: Number, offsets: seq<int>, trace: seq<Step>, j: nat)
    requires Follows(read, start, offsets, trace) && j < |trace|
    ensures j < |offsets| && PointerAt(read, start, offsets, j).Some? && trace[j] == ReadAt(read, start, offsets, j)
  {
    assert IssuedAt(read, start, offsets, trace, j);
  }

  /** The `j`-th read of the chain from the start is the `j - 1`-th read of
      the chain from the first pointer. */
  lemma ReadAfterRead(read: Number -> Option<Number>, start: Number, offsets: seq<int>, p: Number, rest: Resolution, j: nat)
    requires |offsets| > 1 && read(Add(start, offsets[0])) == Some(p)
    requires Follows(read, p, offsets[1..], rest.trace)
    requires j < |rest.trace| + 1
    ensures IssuedAt(read, start, offsets, After(ReadPointer(Add(start, offsets[0])), rest).trace, j)
  {
    var tail := offsets[1..];
    var r := After(ReadPointer(Add(start, offsets[0])), rest);
    if j > 0 {
      FollowsAt(read, p, tail, rest.trace, j - 1);
      PointerAtShift(read, start, offsets, p, j - 1);
      assert r.trace[j] == rest.trace[j - 1];
      assert tail[j - 1] == offsets[j];
    }
  }

  /** The outcome half of `AgreesAfterRead`: the last running address is the
      same counted from the start or from the first pointer. */
  lemma OutcomeAfterRead(read: Number -> Option<Number>, start: Number, offsets: seq<int>, p: Number, rest: Resolution)
    requires |offsets| > 1 && read(Add(start, offsets[0])) == Some(p)
    requires Agrees(read, p, offsets[1..], rest)
    ensures var r := After(ReadPointer(Add(start, offsets[0])), rest);
            && (r.outcome.Resolved? <==> PointerAt(read, start, offsets, |offsets| - 1).Some?)
            && (r.outcome.Resolved? ==> r.outcome.address == Add(PointerAt(read, start, offsets, |offsets| - 1).value, offsets[|offsets| - 1]))
  {
    var tail := offsets[1..];
    var last := |offsets| - 1;
    PointerAtShift(read, start, offsets, p, last - 1);
    assert PointerAt(read, start, offsets, last) == PointerAt(read, p, tail, |tail| - 1);
    assert tail[|tail| - 1] == offsets[last];
  }

  /** Dropping the first offset: the chain from the first pointer read. */
  lemma {:induction false} PointerAtShift(read: Number -> Option<Number>, start: Number, offsets: seq<int>, p: Number, j: nat)
    requires j + 1 < |offsets| && read(Add(start, offsets[0])) == Some(p)
    ensures PointerAt(read, start, offsets, j + 1) == PointerAt(read, p, offsets[1..], j)
  {
    if j > 0 {
      PointerAtShift(read, start, offsets, p, j - 1);
      assert offsets[1..][j - 1] == offsets[j];
    }
  }

  /** The method and the fold are the same computation. */
  method ChainIsWalk(read: Number -> Option<Number>, start: Number, offsets: seq<int>)
      returns (outcome: Outcome, trace: seq<Step>)
    ensures Resolution(outcome, trace) == Walk(read, start, offsets)
  {
    outcome, trace := Chain(read, start, offsets);
    if |offsets| > 0 {
      WalkAgrees(read, start, offsets);
      var r := Walk(read, start, offsets);
      TracesAgree(read, start, offsets, trace, r.trace);
    }
  }

  /** Every running address before the end of a following trace exists. */
  lemma ReadsSucceedAlong(read: Number -> Option<Number>, start: Number, offsets: seq<int>, t: seq<Step>)
    requires Follows(read, start, offsets, t)
    ensures |t| <= |offsets|
    ensures forall k :: 0 <= k < |t| ==> PointerAt(read, start, offsets, k).Some?
  {
    if |t| > 0 {
      assert IssuedAt(read, start, offsets, t, |t| - 1);
    }
    forall k | 0 <= k < |t|
      ensures PointerAt(read, start, offsets, k).Some?
    {
      assert IssuedAt(read, start, offsets, t, k);
    }
  }

  /** A trace that follows the reference definition and either runs to the
      last offset or stops at a rejection is determined by the chain. */
  lemma TracesAgree(read: Number -> Option<Number>, start: Number, offsets: seq<int>, t1: seq<Step>, t2: seq<Step>)
    requires |offsets| > 0
    requires Follows(read, start, offsets, t1) && Follows(read, start, offsets, t2)
    requires |t1| == |offsets| - 1 || Stopped(read, start, offsets, t1)
    requires |t2| == |offsets| - 1 || Stopped(read, start, offsets, t2)
    ensures t1 == t2
  {
    ReadsSucceedAlong(read, start, offsets, t1);
    ReadsSucceedAlong(read, start, offsets, t2);
    forall j | 0 <= j < |t1|
      ensures t1[j] == t2[j]
    {
      assert IssuedAt(read, start, offsets, t1, j) && IssuedAt(read, start, offsets, t2, j);
    }
  }

  // ---------------------------------------------------------------------------
  // Starts and variants

  /** The running address before the first offset, with the requests that
      produce it: `0 + start`, `0 + read(dword, start)` in the dereferencing
      variant, or `0 + (baseAddress(name) ?? 0)`. */
  function Begin(variant: Variant, read: Number -> Option<Number>, baseOf: string -> Option<Number>, start: Start)
    : (r: (Option<Number>, seq<Step>))
    ensures start.AtModule? ==> r == (Some(Sum(Int(0), baseOf(start.name).GetOr(Int(0)))), [ListModules])
    ensures start.AtAddress? && variant == Direct ==> r == (Some(Int(start.address)), [])
    ensures start.AtAddress? && variant == Dereferenced ==>
              r.1 == [ReadPointer(Int(start.address))] && (r.0.Some? <==> read(Int(start.address)).Some?)
    ensures start.AtAddress? && variant == Dereferenced && r.0.Some? ==> r.0 == read(Int(start.address))
  {
    match start
    case AtModule(name) => (Some(Sum(Int(0), baseOf(name).GetOr(Int(0)))), [ListModules])
    case AtAddress(n) =>
      if variant == Direct then (Some(Sum(Int(0), Int(n))), [])
      else
        match read(Int(n))
        case Some(p) => (Some(Sum(Int(0), p)), [ReadPointer(Int(n))])
        case None => (None, [ReadPointer(Int(n))])
  }

  /** `address(start, ...offsets)` of the given variant. */
  function Resolve(variant: Variant, read: Number -> Option<Number>, baseOf: string -> Option<Number>,
                   start: Start, offsets: seq<int>): (r: Resolution)
    ensures |r.trace| >= 1 ==> (r.trace[0] == ListModules <==> start.AtModule?)
    ensures forall j :: 1 <= j < |r.trace| ==> r.trace[j].ReadPointer?
  {
    var (first, steps) := Begin(variant, read, baseOf, start);
    match first
    case None => Resolution(Rejected, steps)
    case Some(a) =>
      var w := Walk(read, a, offsets);
      Resolution(w.outcome, steps + w.trace)
  }

  /** A numeric start with no offsets is returned as it is, without a request. */
  lemma NumericStartAlone(read: Number -> Option<Number>, baseOf: string -> Option<Number>, n: int)
    ensures Resolve(Direct, read, baseOf, AtAddress(n), []) == Resolution(Resolved(Int(n)), [])
  {
  }

  /** A single offset is added without a dereference. */
  lemma SingleOffset(read: Number -> Option<Number>, baseOf: string -> Option<Number>, n: int, off: int)
    ensures Resolve(Direct, read, baseOf, AtAddress(n), [off]) == Resolution(Resolved(Int(n + off)), [])
  {
  }

  /** A module that is not loaded contributes base 0: the chain continues
      from address 0 after the listing request. */
  lemma AbsentModuleIsZero(variant: Variant, read: Number -> Option<Number>, baseOf: string -> Option<Number>,
                           name: string, offsets: seq<int>)
    requires baseOf(name).None?
    ensures Resolve(variant, read, baseOf, AtModule(name), offsets)
            == After(ListModules, Resolve(Direct, read, baseOf, AtAddress(0), offsets))
  {
  }

  /** A loaded module contributes its base: the chain continues from
      `0 + base` after the listing request. */
  lemma ModuleStartResolves(variant: Variant, read: Number -> Option<Number>, baseOf: string -> Option<Number>,
                            name: string, offsets: seq<int>, base: Number)
    requires baseOf(name) == Some(base)
    ensures Resolve(variant, read, baseOf, AtModule(name), offsets)
            == After(ListModules, Walk(read, Sum(Int(0), base), offsets))
  {
  }

  /** Whatever the start, once the running address before the first offset
      exists, the outcome and the pointer reads after the start's own
      requests are those of the reference definition from that address. */
  lemma ResolveAgrees(variant: Variant, read: Number -> Option<Number>, baseOf: string -> Option<Number>,
                      start: Start, offsets: seq<int>)
    requires |offsets| > 0
    requires Begin(variant, read, baseOf, start).0.Some?
    ensures var (first, steps) := Begin(variant, read, baseOf, start);
            var r := Resolve(variant, read, baseOf, start, offsets);
            |steps| <= |r.trace| && r.trace[..|steps|] == steps &&
            Agrees(read, first.value, offsets, Resolution(r.outcome, r.trace[|steps|..]))
  {
    var (first, steps) := Begin(variant, read, baseOf, start);
    var w := Walk(read, first.value, offsets);
    WalkAgrees(read, first.value, offsets);
    var r := Resolve(variant, read, baseOf, start, offsets);
    assert r.trace == steps + w.trace;
    assert r.trace[|steps|..] == w.trace;
    assert r.trace[..|steps|] == steps;
    assert Resolution(r.outcome, r.trace[|steps|..]) == w;
  }

  /** The two variants differ only on a numeric start: the dereferencing one
      reads the pointer at the start first and chains from it. */
  lemma VariantsDiffer(read: Number -> Option<Number>, baseOf: string -> Option<Number>, n: int, offsets: seq<int>)
    ensures Resolve(Direct, read, baseOf, AtAddress(n), offsets) == Walk(read, Int(n), offsets)
    ensures read(Int(n)).None? ==>
              Resolve(Dereferenced, read, baseOf, AtAddress(n), offsets) == Resolution(Rejected, [ReadPointer(Int(n))])
    ensures read(Int(n)).Some? ==>
              Resolve(Dereferenced, read, baseOf, AtAddress(n), offsets)
              == After(ReadPointer(Int(n)), Walk(read, Sum(Int(0), read(Int(n)).value), offsets))
  {
  }

  lemma VariantsAgreeOnModules(read: Number -> Option<Number>, baseOf: string -> Option<Number>, name: string, offsets: seq<int>)
    ensures Resolve(Dereferenced, read, baseOf, AtModule(name), offsets) == Resolve(Direct, read, baseOf, AtModule(name), offsets)
  {
  }

  /** Counting the requests: a resolved chain of `k >= 1` offsets issues
      `k - 1` pointer reads, plus one for a dereferenced numeric start, and a
      module start lists the modules once first. */
  lemma RequestCount(variant: Variant, read: Number -> Option<Number>, baseOf: string -> Option<Number>,
                     start: Start, offsets: seq<int>)
    requires |offsets| >= 1
    requires Resolve(variant, read, baseOf, start, offsets).outcome.Resolved?
    ensures var r := Resolve(variant, read, baseOf, start, offsets);
            |r.trace| == |offsets| - 1 + (if start.AtModule? || variant == Dereferenced then 1 else 0)
  {
  }

  /** Continuing a resolution `first` with the offsets `b`: a rejection
      stays as it is; a resolved address is dereferenced and the walk goes on
      from the pointer found there. */
  function Continue(read: Number -> Option<Number>, first: Resolution, b: seq<int>): Resolution {
    match first.outcome
    case Rejected => first
    case Resolved(p) =>
      match read(p)
      case None => Resolution(Rejected, first.trace + [ReadPointer(p)])
      case Some(q) =>
        var rest := Walk(read, q, b);
        Resolution(rest.outcome, first.trace + [ReadPointer(p)] + rest.trace)
  }

  /** Continuing commutes with a read put in front. */
  lemma ContinueAfter(read: Number -> Option<Number>, step: Step, first: Resolution, b: seq<int>)
    ensures Continue(read, After(step, first), b) == After(step, Continue(read, first, b))
  {
    match first.outcome
    case Rejected =>
    case Resolved(p) =>
      match read(p)
      case None =>
        assert [step] + first.trace + [ReadPointer(p)] == [step] + (first.trace + [ReadPointer(p)]);
      case Some(q) =>
        var rest := Walk(read, q, b);
        assert [step] + first.trace + [ReadPointer(p)] + rest.trace == [step] + (first.trace + [ReadPointer(p)] + rest.trace);
  }

  /** A chain can be resolved in two parts: the address of the first part is
      dereferenced once more and the rest of the chain continues from the
      pointer found there. */
  lemma {:induction false} WalkSplits(read: Number -> Option<Number>, start: Number, a: seq<int>, b: seq<int>)
    requires |a| >= 1 && |b| >= 1
    ensures Walk(read, start, a + b) == Continue(read, Walk(read, start, a), b)
    decreases |a|
  {
    var x := Add(start, a[0]);
    assert (a + b)[0] == a[0];
    if |a| == 1 {
      assert (a + b)[1..] == b;
    } else {
      assert (a + b)[1..] == a[1..] + b;
      match read(x)
      case None =>
      case Some(p) =>
        WalkSplits(read, p, a[1..], b);
        ContinueAfter(read, ReadPointer(x), Walk(read, p, a[1..]), b);
    }
  }
}
