/** The retrying orchestrator (examples/multi_agent_orchestrator.rs): a pipeline
    of agents with retries, backoff, early exit, an event trace and one chained
    commitment per completed step. */
module Orchestrator {
  import opened Types
  import opened Sequences
  import opened Text
  import opened Json
  import opened Readability
  import opened Hashing
  import opened Anchor
  import opened Context
  import opened Commitment

  datatype AgentTask = AgentTask(taskId: U64, input: seq<Byte>)

  datatype AgentError = Transient(message: string) | Permanent(message: string)

  datatype Reply = Done(output: seq<Byte>) | Error(error: AgentError)

  type Memory = map<string, seq<Byte>>

  /** An agent, by what it does with the shared memory on its `attempt`-th call
      of a run. An agent's own mutable state changes only when it is called, so
      within a run it is a function of the attempts already made. */
  datatype Agent = Agent(
    identity: string,
    execute: (nat, AgentTask, Memory, TripleAnchor) -> (Memory, Reply))

  datatype Event =
    | AgentStarted(agent: string, attempt: nat)
    | AgentRetrying(agent: string, attempt: nat, error: string)
    | AgentFailed(agent: string, failure: AgentError)
    | AgentSucceeded(agent: string)
    | OrchestratorComplete(receipts: nat)

  /** The observer's events and the delays requested between attempts. */
  class Trace {
    var events: seq<Event>
    var delays: seq<U64>

    constructor ()
      ensures events == [] && delays == []
    {
      events := [];
      delays := [];
    }

    method OnEvent(e: Event)
      modifies this
      ensures events == old(events) + [e] && delays == old(delays)
    {
      events := events + [e];
    }

    method Sleep(ms: U64)
      modifies this
      ensures delays == old(delays) + [ms] && events == old(events)
    {
      delays := delays + [ms];
    }
  }

  class MemoryStore {
    var kv: Memory

    constructor ()
      ensures kv == map[]
    {
      kv := map[];
    }
  }

  // ---------- one agent with retries ----------

  /** `2u64.pow(e)` without overflow checks. */
  function Pow2Wrapped(e: nat): U64 {
    if e == 0 then 1 else WrapMul(2, Pow2Wrapped(e - 1))
  }

  function Backoff(baseMs: U64, attempt: nat): U64
    requires attempt >= 1
  {
    WrapMul(baseMs, Pow2Wrapped(attempt - 1))
  }

  datatype Policy = Policy(maxRetries: U32, backoffBaseMs: U64)

  /** What an agent's attempts left behind. */
  datatype Attempts = Attempts(result: Reply, mem: Memory, events: seq<Event>, delays: seq<U64>)

  /** The loop from `attempt` on; `last` is the latest transient error. */
  function RetryFrom(agent: Agent, task: AgentTask, mem: Memory, anchor: TripleAnchor, p: Policy, attempt: nat,
                     last: Option<AgentError>): Attempts
    requires 1 <= attempt
    decreases p.maxRetries + 1 - attempt
  {
    if attempt > p.maxRetries then
      Attempts(Error(if last.Some? then last.value else Permanent("unknown")), mem, [], [])
    else
      var (mem', reply) := agent.execute(attempt, task, mem, anchor);
      var started := [AgentStarted(agent.identity, attempt)];
      if reply.Error? && reply.error.Transient? && attempt < p.maxRetries then
        var rest := RetryFrom(agent, task, mem', anchor, p, attempt + 1, Some(reply.error));
        rest.(events := started + [AgentRetrying(agent.identity, attempt, reply.error.message)] + rest.events,
              delays := [Backoff(p.backoffBaseMs, attempt)] + rest.delays)
      else
        Attempts(reply, mem', started, [])
  }

  function RunWithRetry(agent: Agent, task: AgentTask, mem: Memory, anchor: TripleAnchor, p: Policy): Attempts {
    RetryFrom(agent, task, mem, anchor, p, 1, None)
  }

  /** One turn of the loop: it ends with this attempt's reply, or notes the retry
      and goes on. */
  lemma RetryStep(agent: Agent, task: AgentTask, mem: Memory, anchor: TripleAnchor, p: Policy, attempt: nat,
                  last: Option<AgentError>, written: seq<Event>, delays: seq<U64>)
    requires 1 <= attempt <= p.maxRetries
    ensures var (mem', reply) := agent.execute(attempt, task, mem, anchor);
      var now := RetryFrom(agent, task, mem, anchor, p, attempt, last);
      if IsTransient(reply) && attempt < p.maxRetries then
        var rest := RetryFrom(agent, task, mem', anchor, p, attempt + 1, Some(reply.error));
        && now.result == rest.result && now.mem == rest.mem
        && written + now.events
           == written + [AgentStarted(agent.identity, attempt)]
              + [AgentRetrying(agent.identity, attempt, reply.error.message)] + rest.events
        && delays + now.delays == delays + [Backoff(p.backoffBaseMs, attempt)] + rest.delays
      else now == Attempts(reply, mem', [AgentStarted(agent.identity, attempt)], [])
  {}

  /** `run_agent_with_retry`. */
  method RunAgentWithRetry(agent: Agent, task: AgentTask, mem: MemoryStore, anchor: TripleAnchor, p: Policy,
                           trace: Trace)
    returns (result: Reply)
    modifies mem, trace
    ensures var a := RunWithRetry(agent, task, old(mem.kv), anchor, p);
      && result == a.result && mem.kv == a.mem
      && trace.events == old(trace.events) + a.events
      && trace.delays == old(trace.delays) + a.delays
  {
    ghost var all := RunWithRetry(agent, task, mem.kv, anchor, p);
    var lastTransient: Option<AgentError> := None;
    var attempt := 1;
    while attempt <= p.maxRetries
      invariant 1 <= attempt <= p.maxRetries + 1
      invariant var rest := RetryFrom(agent, task, mem.kv, anchor, p, attempt, lastTransient);
        && rest.result == all.result && rest.mem == all.mem
        && old(trace.events) + all.events == trace.events + rest.events
        && old(trace.delays) + all.delays == trace.delays + rest.delays
    {
      RetryStep(agent, task, mem.kv, anchor, p, attempt, lastTransient, trace.events, trace.delays);
      trace.OnEvent(AgentStarted(agent.identity, attempt));
      var (kv, reply) := agent.execute(attempt, task, mem.kv, anchor);
      mem.kv := kv;
      match reply {
        case Done(_) => return reply;
        case Error(Permanent(_)) => return reply;
        case Error(Transient(e)) =>
          if attempt < p.maxRetries {
            trace.OnEvent(AgentRetrying(agent.identity, attempt, e));
            trace.Sleep(Backoff(p.backoffBaseMs, attempt));
            lastTransient := Some(Transient(e));
          } else {
            return reply;
          }
      }
      attempt := attempt + 1;
    }
    result := Error(if lastTransient.Some? then lastTransient.value else Permanent("unknown"));
  }

  // ---------- what retrying does ----------

  /** Memory before the agent's `k`-th attempt. */
  function MemoryBefore(agent: Agent, task: AgentTask, mem: Memory, anchor: TripleAnchor, k: nat): Memory
    requires k >= 1
  {
    if k == 1 then mem
    else agent.execute(k - 1, task, MemoryBefore(agent, task, mem, anchor, k - 1), anchor).0
  }

  /** What the agent answers on its `k`-th attempt. */
  function ReplyAt(agent: Agent, task: AgentTask, mem: Memory, anchor: TripleAnchor, k: nat): Reply
    requires k >= 1
  {
    agent.execute(k, task, MemoryBefore(agent, task, mem, anchor, k), anchor).1
  }

  predicate IsTransient(r: Reply) {
    r.Error? && r.error.Transient?
  }

  /** Attempts `from..to`: each but the last is started and retried, the last only started. */
  function TraceOf(agent: Agent, task: AgentTask, mem: Memory, anchor: TripleAnchor, from: nat, to: nat): seq<Event>
    requires 1 <= from <= to
    decreases AbsDiff(to, from)
  {
    if from == to then [AgentStarted(agent.identity, to)]
    else
      var r := ReplyAt(agent, task, mem, anchor, from);
      [AgentStarted(agent.identity, from),
       AgentRetrying(agent.identity, from, if IsTransient(r) then r.error.message else "")]
      + TraceOf(agent, task, mem, anchor, from + 1, to)
  }

  function BackoffsOf(base: U64, from: nat, to: nat): seq<U64>
    requires 1 <= from <= to
    decreases AbsDiff(to, from)
  {
    if from == to then [] else [Backoff(base, from)] + BackoffsOf(base, from + 1, to)
  }

  /** `n` is the attempt that settles the matter: every earlier one was
      transient, and it either was not or used up the budget. */
  ghost predicate LastAttempt(agent: Agent, task: AgentTask, mem: Memory, anchor: TripleAnchor, p: Policy, n: nat) {
    && 1 <= n <= p.maxRetries
    && (forall k :: 1 <= k < n ==> IsTransient(ReplyAt(agent, task, mem, anchor, k)))
    && (n == p.maxRetries || !IsTransient(ReplyAt(agent, task, mem, anchor, n)))
  }

  lemma {:induction false} RetryRuns(agent: Agent, task: AgentTask, mem: Memory, anchor: TripleAnchor, p: Policy,
                                     attempt: nat, last: Option<AgentError>) returns (n: nat)
    requires 1 <= attempt <= p.maxRetries
    requires forall k :: 1 <= k < attempt ==> IsTransient(ReplyAt(agent, task, mem, anchor, k))
    ensures attempt <= n && LastAttempt(agent, task, mem, anchor, p, n)
    ensures RetryFrom(agent, task, MemoryBefore(agent, task, mem, anchor, attempt), anchor, p, attempt, last)
         == Attempts(ReplyAt(agent, task, mem, anchor, n), MemoryBefore(agent, task, mem, anchor, n + 1),
                     TraceOf(agent, task, mem, anchor, attempt, n), BackoffsOf(p.backoffBaseMs, attempt, n))
    decreases p.maxRetries - attempt
  {
    var r := ReplyAt(agent, task, mem, anchor, attempt);
    if IsTransient(r) && attempt < p.maxRetries {
      n := RetryRuns(agent, task, mem, anchor, p, attempt + 1, Some(r.error));
    } else {
      n := attempt;
    }
  }

  /** With a positive budget the answer is that of the last attempt made, its
      events are (Started Retrying)* Started with at most `maxRetries` starts,
      and one delay is requested per retry; the fallback error appears exactly
      when the budget is zero. */
  lemma RetryBehaviour(agent: Agent, task: AgentTask, mem: Memory, anchor: TripleAnchor, p: Policy) returns (n: nat)
    ensures p.maxRetries == 0 ==>
      RunWithRetry(agent, task, mem, anchor, p) == Attempts(Error(Permanent("unknown")), mem, [], [])
    ensures p.maxRetries > 0 ==>
      && LastAttempt(agent, task, mem, anchor, p, n)
      && RunWithRetry(agent, task, mem, anchor, p)
         == Attempts(ReplyAt(agent, task, mem, anchor, n), MemoryBefore(agent, task, mem, anchor, n + 1),
                     TraceOf(agent, task, mem, anchor, 1, n), BackoffsOf(p.backoffBaseMs, 1, n))
  {
    n := 0;
    if p.maxRetries > 0 {
      n := RetryRuns(agent, task, mem, anchor, p, 1, None);
    }
  }

  /** Where each event stands: attempt `k` is started at 2k - 2 and, unless it is
      the last, its retry with its error's text follows at 2k - 1. */
  lemma {:induction false} TraceAt(agent: Agent, task: AgentTask, mem: Memory, anchor: TripleAnchor, from: nat, to: nat,
                                   k: nat)
    requires 1 <= from <= k <= to
    requires forall i :: from <= i < to ==> IsTransient(ReplyAt(agent, task, mem, anchor, i))
    ensures var t := TraceOf(agent, task, mem, anchor, from, to);
      && |t| == 2 * (to - from) + 1
      && t[2 * (k - from)] == AgentStarted(agent.identity, k)
      && (k < to && IsTransient(ReplyAt(agent, task, mem, anchor, k)) ==>
            t[2 * (k - from) + 1]
              == AgentRetrying(agent.identity, k, ReplyAt(agent, task, mem, anchor, k).error.message))
    decreases AbsDiff(to, from)
  {
    if from == to {
    } else {
      TraceAt(agent, task, mem, anchor, from + 1, to, if k == from then k + 1 else k);
      var rest := TraceOf(agent, task, mem, anchor, from + 1, to);
      var t := TraceOf(agent, task, mem, anchor, from, to);
      assert t[2..] == rest;
      if k > from {
        assert t[2 * (k - from)] == rest[2 * (k - from - 1)];
        assert k < to ==> t[2 * (k - from) + 1] == rest[2 * (k - from - 1) + 1];
      }
    }
  }

  /** The delay after attempt `k`: the base doubled k - 1 times, modulo 2^64. */
  lemma {:induction false} DelayAt(base: U64, from: nat, to: nat, k: nat)
    requires 1 <= from <= k < to
    ensures var d := BackoffsOf(base, from, to);
      |d| == to - from && d[k - from] == base * (Pow2(k - 1) % TWO_64) % TWO_64
    decreases AbsDiff(to, from)
  {
    var rest := BackoffsOf(base, from + 1, to);
    BackoffsLength(base, from + 1, to);
    assert BackoffsOf(base, from, to) == [Backoff(base, from)] + rest;
    if k == from {
      Pow2WrappedExact(k - 1);
    } else {
      DelayAt(base, from + 1, to, k);
    }
  }

  lemma {:induction false} BackoffsLength(base: U64, from: nat, to: nat)
    requires 1 <= from <= to
    ensures |BackoffsOf(base, from, to)| == to - from
    decreases AbsDiff(to, from)
  {
    if from == to {
    } else {
      BackoffsLength(base, from + 1, to);
    }
  }

  function Pow2(e: nat): nat {
    if e == 0 then 1 else 2 * Pow2(e - 1)
  }

  function Sum(xs: seq<U64>): nat {
    if |xs| == 0 then 0 else xs[0] + Sum(xs[1..])
  }

  lemma {:induction false} Pow2Grows(a: nat, b: nat)
    requires a <= b
    ensures 1 <= Pow2(a) <= Pow2(b)
  {
    if b == 0 {
    } else if a == 0 {
      Pow2Grows(0, b - 1);
    } else {
      Pow2Grows(a - 1, b - 1);
    }
  }

  lemma {:induction false} Pow2WrappedExact(e: nat)
    ensures Pow2Wrapped(e) == Pow2(e) % TWO_64
  {
    if e == 0 {
    } else {
      Pow2WrappedExact(e - 1);
      DoubleMod64(Pow2(e - 1));
    }
  }

  lemma DoubleMod64(x: nat)
    ensures (2 * (x % TWO_64)) % TWO_64 == (2 * x) % TWO_64
  {
    var q, r := x / TWO_64, x % TWO_64;
    if 2 * r < TWO_64 {
      QuotientAndRest(2 * x, 2 * q, 2 * r);
    } else {
      QuotientAndRest(2 * x, 2 * q + 1, 2 * r - TWO_64);
      QuotientAndRest(2 * r, 1, 2 * r - TWO_64);
    }
  }

  lemma QuotientAndRest(x: nat, q: nat, r: nat)
    requires x == TWO_64 * q + r && r < TWO_64
    ensures x % TWO_64 == r
  {
    assert x / TWO_64 == q;
  }

  lemma ExactBackoff(base: U64, attempt: nat, r: nat)
    requires 1 <= attempt <= r && 0 < base && base * Pow2(r - 1) < TWO_64
    ensures Backoff(base, attempt) == base * Pow2(attempt - 1)
  {
    var x, y := Pow2(attempt - 1), Pow2(r - 1);
    Pow2Grows(attempt - 1, r - 1);
    Pow2WrappedExact(attempt - 1);
    Scale(base, x, y);
    SmallMod64(x);
    SmallMod64(base * x);
  }

  lemma SmallMod64(x: nat)
    requires x < TWO_64
    ensures x % TWO_64 == x
  {}

  lemma Scale(base: nat, x: nat, y: nat)
    requires 0 < base && x <= y
    ensures x <= base * x <= base * y
  {
    assert base * y == base * x + base * (y - x);
    assert base * x == x + (base - 1) * x;
  }

  /** While the largest delay fits u64, `r` retries request base * (2^r - 1)
      milliseconds in all. */
  lemma {:induction false} TotalBackoff(base: U64, from: nat, to: nat)
    requires 1 <= from <= to
    requires to > from ==> base * Pow2(to - 2) < TWO_64
    ensures Sum(BackoffsOf(base, from, to)) == base * (Pow2(to - 1) - Pow2(from - 1))
    decreases AbsDiff(to, from)
  {
    if from == to {
    } else {
      var rest := BackoffsOf(base, from + 1, to);
      assert BackoffsOf(base, from, to)[1..] == rest;
      TotalBackoff(base, from + 1, to);
      if base > 0 {
        ExactBackoff(base, from, to - 1);
      }
      Distribute(base, Pow2(from - 1), Pow2(from), Pow2(to - 1));
    }
  }

  /** A requested delay is never longer than the exact one, and shorter once that
      no longer fits u64. */
  lemma BackoffAtMost(base: U64, attempt: nat)
    requires attempt >= 1
    ensures Backoff(base, attempt) <= base * Pow2(attempt - 1)
    ensures base * Pow2(attempt - 1) >= TWO_64 ==> Backoff(base, attempt) < base * Pow2(attempt - 1)
  {
    var x, y := Pow2(attempt - 1), Pow2Wrapped(attempt - 1);
    Pow2WrappedExact(attempt - 1);
    RemainderAtMost(x);
    MulMonotone(base, y, x);
    RemainderAtMost(base * y);
  }

  lemma RemainderAtMost(x: nat)
    ensures x % TWO_64 <= x
  {}

  lemma MulMonotone(base: nat, x: nat, y: nat)
    requires x <= y
    ensures 0 <= base * x <= base * y
  {
    assert base * y == base * x + base * (y - x);
  }

  lemma {:induction false} BackoffShort(base: U64, from: nat, to: nat)
    requires 1 <= from <= to
    ensures Sum(BackoffsOf(base, from, to)) <= base * (Pow2(to - 1) - Pow2(from - 1))
    ensures to > from && base * Pow2(to - 2) >= TWO_64 ==>
      Sum(BackoffsOf(base, from, to)) < base * (Pow2(to - 1) - Pow2(from - 1))
    decreases AbsDiff(to, from)
  {
    if from == to {
    } else {
      assert BackoffsOf(base, from, to)[1..] == BackoffsOf(base, from + 1, to);
      BackoffShort(base, from + 1, to);
      BackoffAtMost(base, from);
      Distribute(base, Pow2(from - 1), Pow2(from), Pow2(to - 1));
    }
  }

  /** So `r` retries request base * (2^r - 1) in all exactly when the largest
      delay fits u64. */
  lemma TotalBackoffIff(base: U64, r: nat)
    ensures Sum(BackoffsOf(base, 1, r + 1)) == base * (Pow2(r) - 1)
       <==> r == 0 || base * Pow2(r - 1) < TWO_64
  {
    BackoffShort(base, 1, r + 1);
    if r == 0 || base * Pow2(r - 1) < TWO_64 {
      TotalBackoff(base, 1, r + 1);
    }
  }

  lemma Distribute(base: nat, x: nat, y: nat, z: nat)
    requires y == 2 * x
    ensures base * x + base * (z - y) == base * (z - x)
  {}

  // ---------- the pipeline ----------

  /** A byte-string literal. */
  function Ascii(s: string): seq<Byte> {
    seq(|s|, i requires 0 <= i < |s| => s[i] as int % 0x80)
  }

  /** It is the text's UTF-8, for an ASCII text. */
  lemma AsciiIsUtf8(s: string)
    requires IsAscii(s)
    ensures Ascii(s) == Utf8(s)
  {
    AsciiBytes(s);
    forall i | 0 <= i < |s| ensures Ascii(s)[i] == Codes(s)[i] {
      assert s[i] < 0x80 as char;
    }
  }

  function Label(crypto: Crypto, bytes: seq<Byte>): Hash32 {
    crypto.sha256(bytes)
  }

  /** The `{:?}` rendering of a byte list. */
  function DebugBytes(bs: seq<Byte>): string {
    "[" + (DebugItems(bs) + "]")
  }

  function DebugItems(bs: seq<Byte>): string {
    if |bs| == 0 then ""
    else if |bs| == 1 then Decimal(bs[0])
    else Decimal(bs[0]) + (", " + DebugItems(bs[1..]))
  }

  const F32_ZERO: U32 := 0
  const F32_ONE: U32 := 0x3F80_0000

  /** The context committed for a step: the agent, the task and its input. */
  function StepRoot(crypto: Crypto, agentId: string, task: AgentTask): ExecutionContextRoot {
    ExecutionContextRoot(
      Label(crypto, AgentPreimage(agentId)),
      Label(crypto, Ascii("orchestrator/v1")),
      Label(crypto, Ascii("task:") + Utf8(Decimal(task.taskId))),
      SamplingParams(F32_ZERO, 1, F32_ONE, task.taskId),
      Label(crypto, Ascii("rust-orchestrator-v1")),
      FlashAttention2,
      Bf16,
      InferenceConfig(0, Label(crypto, Ascii("none")), Label(crypto, Ascii("none"))),
      Label(crypto, InputPreimage(task.input)),
      None)
  }

  /** What follows the first item in a rendered list. */
  function AfterFirst(bs: seq<Byte>): string
    requires |bs| > 0
  {
    if |bs| == 1 then "]" else ", " + (DebugItems(bs[1..]) + "]")
  }

  lemma ItemRegroups(item: string, comma: string, rest: string, end: string)
    ensures (item + (comma + rest)) + end == item + (comma + (rest + end))
  {}

  lemma FirstItem(bs: seq<Byte>)
    requires |bs| > 0
    ensures DebugItems(bs) + "]" == Decimal(bs[0]) + AfterFirst(bs)
  {
    if |bs| > 1 {
      ItemRegroups(Decimal(bs[0]), ", ", DebugItems(bs[1..]), "]");
    }
  }

  lemma ItemStops(bs: seq<Byte>)
    requires |bs| > 0
    ensures Stops(AfterFirst(bs))
  {
    assert ", "[0] == ',';
  }

  lemma ItemStarts(bs: seq<Byte>)
    requires |bs| > 0
    ensures DebugItems(bs) + "]" != "]"
  {
    FirstItem(bs);
    assert IsDigit(Decimal(bs[0])[0]);
    assert (Decimal(bs[0]) + AfterFirst(bs))[0] == Decimal(bs[0])[0];
  }

  /** A rendered byte list is read back in one way. */
  lemma {:induction false} DebugItemsInjective(xs: seq<Byte>, ys: seq<Byte>)
    requires DebugItems(xs) + "]" == DebugItems(ys) + "]"
    ensures xs == ys
    decreases |xs|, 1
  {
    if |xs| == 0 && |ys| == 0 {
    } else if |xs| == 0 {
      ItemStarts(ys);
    } else if |ys| == 0 {
      ItemStarts(xs);
    } else {
      FirstItem(xs);
      FirstItem(ys);
      ItemStops(xs);
      ItemStops(ys);
      NumberIsText(Int(xs[0]));
      NumberIsText(Int(ys[0]));
      NumberCut(Decimal(xs[0]), Decimal(ys[0]), AfterFirst(xs), AfterFirst(ys));
      DecimalInjective(xs[0], ys[0]);
      AfterFirstInjective(xs, ys);
    }
  }

  lemma {:induction false} AfterFirstInjective(xs: seq<Byte>, ys: seq<Byte>)
    requires |xs| > 0 && |ys| > 0 && xs[0] == ys[0] && AfterFirst(xs) == AfterFirst(ys)
    ensures xs == ys
    decreases |xs|, 0
  {
    assert xs == [xs[0]] + xs[1..] && ys == [ys[0]] + ys[1..];
    if |xs| == 1 || |ys| == 1 {
      assert AfterFirst(xs)[0] == AfterFirst(ys)[0];
    } else {
      Cancel(", ", DebugItems(xs[1..]) + "]", DebugItems(ys[1..]) + "]");
      DebugItemsInjective(xs[1..], ys[1..]);
    }
  }

  lemma DebugBytesInjective(xs: seq<Byte>, ys: seq<Byte>)
    requires DebugBytes(xs) == DebugBytes(ys)
    ensures xs == ys
  {
    Cancel("[", DebugItems(xs) + "]", DebugItems(ys) + "]");
    DebugItemsInjective(xs, ys);
  }

  function AgentPreimage(agentId: string): seq<Byte> {
    Ascii("agent:") + Utf8(agentId)
  }

  function InputPreimage(input: seq<Byte>): seq<Byte> {
    Ascii("input:") + Utf8(DebugBytes(input))
  }

  /** The items in decimal, separated by a comma and a space. */
  lemma {:induction false} DebugItemsText(bs: seq<Byte>)
    ensures DebugItems(bs) == Joined(Map((b: Byte) => Decimal(b), bs), ", ")
  {
    var texts := Map((b: Byte) => Decimal(b), bs);
    if |bs| <= 1 {
    } else {
      DebugItemsText(bs[1..]);
      assert texts[1..] == Map((b: Byte) => Decimal(b), bs[1..]);
    }
  }

  lemma TaggedText(tag: string, text: string)
    requires IsAscii(tag)
    ensures Ascii(tag) + Utf8(text) == Utf8(tag + text)
  {
    AsciiIsUtf8(tag);
    Utf8Appends(tag, text);
  }

  /** The context spelled out: the agent, the task and its input in words, fixed
      labels elsewhere, and the task id as the seed. */
  lemma StepRootSpelled(crypto: Crypto, agentId: string, task: AgentTask)
    ensures var r := StepRoot(crypto, agentId, task);
      && r.weightsHash == crypto.sha256(Ascii("agent:") + Utf8(agentId))
      && r.tokenizerHash == crypto.sha256(Ascii("orchestrator/v1"))
      && r.systemPromptHash == crypto.sha256(Ascii("task:") + Utf8(Decimal(task.taskId)))
      && r.runtimeVersion == crypto.sha256(Ascii("rust-orchestrator-v1"))
      && r.inferenceConfig.stopSequencesRoot == r.inferenceConfig.penaltyParamsRoot == crypto.sha256(Ascii("none"))
      && r.inputManifestRoot == crypto.sha256(Ascii("input:") + Utf8(DebugBytes(task.input)))
    ensures var r := StepRoot(crypto, agentId, task);
      && r.samplingParams == SamplingParams(0, 1, 0x3F80_0000, task.taskId) && r.inferenceConfig.maxTokens == 0
      && r.attentionImplId == FlashAttention2 && r.precisionMode == Bf16 && r.kvCacheRoot == None
  {}

  /** Barring collisions of the two agent and the two input labels, a step's
      context determines the agent and the whole task. */
  lemma StepRootDetermines(crypto: Crypto, a: string, t: AgentTask, b: string, u: AgentTask)
    requires crypto.NoCollision(AgentPreimage(a), AgentPreimage(b))
    requires crypto.NoCollision(InputPreimage(t.input), InputPreimage(u.input))
    ensures StepRoot(crypto, a, t) == StepRoot(crypto, b, u) <==> a == b && t == u
  {
    if StepRoot(crypto, a, t) == StepRoot(crypto, b, u) {
      Cancel(Ascii("agent:"), Utf8(a), Utf8(b));
      Utf8Injective(a, b);
      Cancel(Ascii("input:"), Utf8(DebugBytes(t.input)), Utf8(DebugBytes(u.input)));
      Utf8Injective(DebugBytes(t.input), DebugBytes(u.input));
      DebugBytesInjective(t.input, u.input);
      assert t.taskId == StepRoot(crypto, a, t).samplingParams.seed;
    }
  }

  function OutputHash(crypto: Crypto, output: seq<Byte>): Hash32 {
    crypto.sha256(Ascii("agent-output-v1") + output)
  }

  /** The tag and the output, hashed. */
  lemma OutputHashSpelled(crypto: Crypto, output: seq<Byte>)
    ensures OutputHash(crypto, output) == crypto.sha256(Ascii("agent-output-v1") + output)
  {}

  /** Barring a collision of the two tagged outputs, equal output hashes mean equal outputs. */
  lemma OutputHashBinds(crypto: Crypto, x: seq<Byte>, y: seq<Byte>)
    requires crypto.NoCollision(Ascii("agent-output-v1") + x, Ascii("agent-output-v1") + y)
    ensures OutputHash(crypto, x) == OutputHash(crypto, y) <==> x == y
  {
    OutputHashSpelled(crypto, x);
    OutputHashSpelled(crypto, y);
    if OutputHash(crypto, x) == OutputHash(crypto, y) {
      Cancel(Ascii("agent-output-v1"), x, y);
    }
  }

  function Digests(crypto: Crypto, cs: seq<FreshnessCommitment>): seq<Byte> {
    if |cs| == 0 then [] else Digests(crypto, cs[..|cs|-1]) + SigningDigest(crypto, cs[|cs|-1])
  }

  /** SHA-256 over a tag and the signing digests, in order. */
  function ChainHash(crypto: Crypto, cs: seq<FreshnessCommitment>): Hash32 {
    crypto.sha256(Ascii("orchestration-chain-v1") + Digests(crypto, cs))
  }

  /** The tag and the digests, hashed. */
  lemma ChainHashSpelled(crypto: Crypto, cs: seq<FreshnessCommitment>)
    ensures ChainHash(crypto, cs) == crypto.sha256(Ascii("orchestration-chain-v1") + Digests(crypto, cs))
  {}

  method ComputeChainHash(crypto: Crypto, cs: seq<FreshnessCommitment>) returns (h: Hash32)
    ensures h == ChainHash(crypto, cs)
  {
    var tag := Ascii("orchestration-chain-v1");
    var hasher := new Hasher();
    hasher.Update(tag);
    assert hasher.fed == tag;
    FeedDigests(crypto, cs, hasher);
    h := hasher.Finalize(crypto);
  }

  method FeedDigests(crypto: Crypto, cs: seq<FreshnessCommitment>, hasher: Hasher)
    modifies hasher
    ensures hasher.fed == old(hasher.fed) + Digests(crypto, cs)
  {
    for i := 0 to |cs|
      invariant hasher.fed == old(hasher.fed) + Digests(crypto, cs[..i])
    {
      assert cs[..i+1][..i] == cs[..i];
      hasher.Update(SigningDigest(crypto, cs[i]));
      Append(old(hasher.fed), Digests(crypto, cs[..i]), SigningDigest(crypto, cs[i]));
    }
    assert cs[..|cs|] == cs;
  }

  /** One block later, two seconds later, same Drand round. */
  function NextAnchor(a: TripleAnchor): TripleAnchor {
    TripleAnchor(WrapAdd(a.blockHeight, 1), (a.teeTimestamp + 2_000_000_000) % TWO_128, a.drandRound)
  }

  datatype Receipt = Receipt(taskId: U64, commitments: seq<FreshnessCommitment>, chainHash: Hash32,
                             finalAnchor: TripleAnchor)

  datatype Outcome =
    | Complete(receipt: Receipt)
    | Failed(failedAgent: string, failure: AgentError, partialReceipts: seq<FreshnessCommitment>)

  datatype Setup = Setup(crypto: Crypto, key: SigningKey, policy: Policy)

  /** `start` moved on by `i` steps. */
  function AnchorAt(start: TripleAnchor, i: nat): TripleAnchor {
    TripleAnchor((start.blockHeight + i) % TWO_64, (start.teeTimestamp + 2_000_000_000 * i) % TWO_128, start.drandRound)
  }

  lemma NextAnchorAt(start: TripleAnchor, i: nat)
    ensures NextAnchor(AnchorAt(start, i)) == AnchorAt(start, i + 1)
    ensures AnchorAt(start, 0) == start
  {
    StepMod64(start.blockHeight + i, 1);
    StepMod128(start.teeTimestamp + 2_000_000_000 * i, 2_000_000_000);
  }

  lemma StepMod64(x: nat, d: nat)
    ensures (x % TWO_64 + d) % TWO_64 == (x + d) % TWO_64
  {}

  lemma StepMod128(x: nat, d: nat)
    ensures (x % TWO_128 + d) % TWO_128 == (x + d) % TWO_128
  {}

  /** One run of a pipeline. */
  datatype Job = Job(setup: Setup, agents: seq<Agent>, task: AgentTask, start: TripleAnchor)
  {
    /** The shared memory agent `i` finds, when none before it failed. */
    function MemAt(i: nat): Memory
      requires i <= |agents|
    {
      if i == 0 then map[]
      else RunWithRetry(agents[i-1], task, MemAt(i - 1), AnchorAt(start, i - 1), setup.policy).mem
    }

    /** What agent `i` does, when none before it failed. */
    function AttemptsAt(i: nat): Attempts
      requires i < |agents|
    {
      RunWithRetry(agents[i], task, MemAt(i), AnchorAt(start, i), setup.policy)
    }

    function CommitmentAt(i: nat): FreshnessCommitment
      requires i < |agents| && AttemptsAt(i).result.Done?
    {
      Commit(setup.crypto, setup.key, StepRoot(setup.crypto, agents[i].identity, task),
             OutputHash(setup.crypto, AttemptsAt(i).result.output), AnchorAt(start, i))
    }

    predicate FirstDone(n: nat)
      requires n <= |agents|
    {
      forall i :: 0 <= i < n ==> AttemptsAt(i).result.Done?
    }

    /** The commitments of the first `n` agents, in order. */
    function Commitments(n: nat): (r: seq<FreshnessCommitment>)
      requires n <= |agents| && FirstDone(n)
      ensures |r| == n && forall i :: 0 <= i < n ==> r[i] == CommitmentAt(i)
    {
      if n == 0 then [] else Commitments(n - 1) + [CommitmentAt(n - 1)]
    }

    /** The events of the first `n` agents, each block closed by its success. */
    function Events(n: nat): seq<Event>
      requires n <= |agents|
    {
      if n == 0 then [] else Events(n - 1) + (AttemptsAt(n - 1).events + [AgentSucceeded(agents[n-1].identity)])
    }

    function Delays(n: nat): seq<U64>
      requires n <= |agents|
    {
      if n == 0 then [] else Delays(n - 1) + AttemptsAt(n - 1).delays
    }

    /** The receipt of a completed run. */
    function Completed(): Receipt
      requires FirstDone(|agents|)
    {
      var cs := Commitments(|agents|);
      Receipt(task.taskId, cs, ChainHash(setup.crypto, cs), AnchorAt(start, |agents|))
    }

    /** What a run stopped at agent `k` hands over, and its last events. */
    function Stopped(k: nat): Outcome
      requires k < |agents| && FirstDone(k) && AttemptsAt(k).result.Error?
    {
      Failed(agents[k].identity, AttemptsAt(k).result.error, Commitments(k))
    }

    function StoppedEvents(k: nat): seq<Event>
      requires k < |agents| && AttemptsAt(k).result.Error?
    {
      Events(k) + (AttemptsAt(k).events + [AgentFailed(agents[k].identity, AttemptsAt(k).result.error)])
    }

    /** The run completes: one commitment per agent, each at its own anchor,
        sealed by the hash of their digests. */
    ghost predicate Completes(outcome: Outcome, events: seq<Event>, delays: seq<U64>) {
      && FirstDone(|agents|)
      && outcome == Complete(Completed())
      && events == Events(|agents|) + [OrchestratorComplete(|agents|)]
      && delays == Delays(|agents|)
    }

    /** The run stops at agent `k`, handing over exactly the first `k` commitments. */
    ghost predicate FailsAt(k: nat, outcome: Outcome, events: seq<Event>, delays: seq<U64>) {
      && k < |agents| && FirstDone(k) && AttemptsAt(k).result.Error?
      && outcome == Stopped(k)
      && events == StoppedEvents(k)
      && delays == Delays(k) + AttemptsAt(k).delays
    }
  }

  lemma AfterDone(job: Job, i: nat)
    requires i < |job.agents| && job.FirstDone(i) && job.AttemptsAt(i).result.Done?
    ensures job.FirstDone(i + 1)
  {
    forall k | 0 <= k < i + 1 ensures job.AttemptsAt(k).result.Done? {
      assert k < i || k == i;
    }
  }

  lemma NextCommitment(job: Job, i: nat)
    requires i < |job.agents| && job.FirstDone(i) && job.FirstDone(i + 1)
    ensures job.Commitments(i + 1) == job.Commitments(i) + [job.CommitmentAt(i)]
  {}

  lemma NextStep(job: Job, i: nat)
    requires i < |job.agents|
    ensures job.MemAt(i + 1) == job.AttemptsAt(i).mem
    ensures job.Events(i + 1) == job.Events(i) + (job.AttemptsAt(i).events + [AgentSucceeded(job.agents[i].identity)])
    ensures job.Delays(i + 1) == job.Delays(i) + job.AttemptsAt(i).delays
    ensures NextAnchor(AnchorAt(job.start, i)) == AnchorAt(job.start, i + 1)
  {
    NextAnchorAt(job.start, i);
  }

  /** How agent `i`'s block of events is closed. */
  function Closing(job: Job, i: nat): Event
    requires i < |job.agents|
  {
    match job.AttemptsAt(i).result
    case Done(_) => AgentSucceeded(job.agents[i].identity)
    case Error(e) => AgentFailed(job.agents[i].identity, e)
  }

  /** Agent `i` of the run: its attempts, then the closing event. */
  method RunStep(job: Job, i: nat, mem: MemoryStore, anchor: TripleAnchor, trace: Trace) returns (result: Reply)
    requires i < |job.agents| && mem.kv == job.MemAt(i) && anchor == AnchorAt(job.start, i)
    modifies mem, trace
    ensures result == job.AttemptsAt(i).result && mem.kv == job.AttemptsAt(i).mem
    ensures trace.events == old(trace.events) + (job.AttemptsAt(i).events + [Closing(job, i)])
    ensures trace.delays == old(trace.delays) + job.AttemptsAt(i).delays
  {
    result := RunAgentWithRetry(job.agents[i], job.task, mem, anchor, job.setup.policy, trace);
    Append(old(trace.events), job.AttemptsAt(i).events, [Closing(job, i)]);
    match result {
      case Done(_) => trace.OnEvent(AgentSucceeded(job.agents[i].identity));
      case Error(e) => trace.OnEvent(AgentFailed(job.agents[i].identity, e));
    }
  }

  /** `Orchestrator::run`: it completes when every agent is done, and otherwise
      fails at the first agent that is not. */
  method Run(job: Job, trace: Trace) returns (outcome: Outcome, ghost events: seq<Event>, ghost delays: seq<U64>)
    modifies trace
    ensures trace.events == old(trace.events) + events && trace.delays == old(trace.delays) + delays
    ensures job.Completes(outcome, events, delays) || exists k: nat :: job.FailsAt(k, outcome, events, delays)
  {
    var mem := new MemoryStore();
    var commitments: seq<FreshnessCommitment> := [];
    var currentAnchor := job.start;
    NextAnchorAt(job.start, 0);
    events, delays := [], [];
    for i := 0 to |job.agents|
      invariant fresh(mem) && job.FirstDone(i)
      invariant mem.kv == job.MemAt(i) && commitments == job.Commitments(i) && currentAnchor == AnchorAt(job.start, i)
      invariant events == job.Events(i) && delays == job.Delays(i)
      invariant trace.events == old(trace.events) + events && trace.delays == old(trace.delays) + delays
    {
      var result := RunStep(job, i, mem, currentAnchor, trace);
      ghost var attempts := job.AttemptsAt(i);
      Append(old(trace.events), events, attempts.events + [Closing(job, i)]);
      Append(old(trace.delays), delays, attempts.delays);
      events, delays := events + (attempts.events + [Closing(job, i)]), delays + attempts.delays;
      if result.Error? {
        outcome := Failed(job.agents[i].identity, result.error, commitments);
        assert job.FailsAt(i, outcome, events, delays);
        return;
      }
      AfterDone(job, i);
      NextCommitment(job, i);
      NextStep(job, i);
      var commitment := CommitStep(job.setup, job.agents[i].identity, job.task, result.output, currentAnchor);
      commitments := commitments + [commitment];
      currentAnchor := NextAnchor(currentAnchor);
    }
    outcome := Seal(job, commitments, currentAnchor, trace);
    Append(old(trace.events), events, [OrchestratorComplete(|commitments|)]);
    events := events + [OrchestratorComplete(|commitments|)];
  }

  /** The end of a completed run. */
  method Seal(job: Job, commitments: seq<FreshnessCommitment>, finalAnchor: TripleAnchor, trace: Trace)
    returns (outcome: Outcome)
    modifies trace
    ensures outcome == Complete(Receipt(job.task.taskId, commitments, ChainHash(job.setup.crypto, commitments),
                                        finalAnchor))
    ensures trace.events == old(trace.events) + [OrchestratorComplete(|commitments|)]
    ensures trace.delays == old(trace.delays)
  {
    var chainHash := ComputeChainHash(job.setup.crypto, commitments);
    trace.OnEvent(OrchestratorComplete(|commitments|));
    outcome := Complete(Receipt(job.task.taskId, commitments, chainHash, finalAnchor));
  }

  method CommitStep(s: Setup, agentId: string, task: AgentTask, output: seq<Byte>, anchor: TripleAnchor)
    returns (c: FreshnessCommitment)
    ensures c == Commit(s.crypto, s.key, StepRoot(s.crypto, agentId, task), OutputHash(s.crypto, output), anchor)
  {
    c := CommitContext(s.crypto, s.key, StepRoot(s.crypto, agentId, task), OutputHash(s.crypto, output), anchor);
  }

  /** The chain preimage fixes how many steps there were and each digest in order. */
  lemma {:induction false} ChainCommitsToDigests(crypto: Crypto, xs: seq<FreshnessCommitment>,
                                                 ys: seq<FreshnessCommitment>)
    requires Digests(crypto, xs) == Digests(crypto, ys)
    ensures |xs| == |ys|
    ensures forall i :: 0 <= i < |xs| ==> SigningDigest(crypto, xs[i]) == SigningDigest(crypto, ys[i])
    decreases |xs|
  {
    DigestsLength(crypto, xs);
    DigestsLength(crypto, ys);
    if |xs| == 0 {
    } else {
      var n := |xs| - 1;
      Split(Digests(crypto, xs[..n]), SigningDigest(crypto, xs[n]), Digests(crypto, ys[..n]),
            SigningDigest(crypto, ys[n]));
      ChainCommitsToDigests(crypto, xs[..n], ys[..n]);
      assert forall i :: 0 <= i < n ==> xs[..n][i] == xs[i] && ys[..n][i] == ys[i];
    }
  }

  lemma {:induction false} DigestsLength(crypto: Crypto, cs: seq<FreshnessCommitment>)
    ensures |Digests(crypto, cs)| == 32 * |cs|
  {
    if |cs| == 0 {
    } else {
      DigestsLength(crypto, cs[..|cs|-1]);
    }
  }

  /** Digest `i` stands at its own 32 bytes. */
  lemma {:induction false} DigestAt(crypto: Crypto, cs: seq<FreshnessCommitment>, i: nat)
    requires i < |cs|
    ensures At(Digests(crypto, cs), 32 * i, SigningDigest(crypto, cs[i]))
  {
    var n := |cs| - 1;
    DigestsLength(crypto, cs[..n]);
    if i == n {
      assert At(SigningDigest(crypto, cs[n]), 0, SigningDigest(crypto, cs[n]));
      AtTail(Digests(crypto, cs[..n]), SigningDigest(crypto, cs[n]), 0, SigningDigest(crypto, cs[n]));
    } else {
      DigestAt(crypto, cs[..n], i);
      AtBefore(Digests(crypto, cs[..n]), SigningDigest(crypto, cs[n]), 32 * i, SigningDigest(crypto, cs[i]));
    }
  }

  lemma AtBefore<T>(a: seq<T>, rest: seq<T>, from: nat, field: seq<T>)
    requires At(a, from, field)
    ensures At(a + rest, from, field)
  {
    assert (a + rest)[from..from+|field|] == a[from..from+|field|];
  }

  /** The lists have one length and the same signing digests, in order. */
  ghost predicate SameDigests(crypto: Crypto, xs: seq<FreshnessCommitment>, ys: seq<FreshnessCommitment>) {
    |xs| == |ys| && forall i :: 0 <= i < |xs| ==> SigningDigest(crypto, xs[i]) == SigningDigest(crypto, ys[i])
  }

  lemma {:induction false} DigestsAgree(crypto: Crypto, xs: seq<FreshnessCommitment>, ys: seq<FreshnessCommitment>)
    requires SameDigests(crypto, xs, ys)
    ensures Digests(crypto, xs) == Digests(crypto, ys)
    decreases |xs|
  {
    if |xs| == 0 {
    } else {
      var n := |xs| - 1;
      assert forall i :: 0 <= i < n ==> xs[..n][i] == xs[i] && ys[..n][i] == ys[i];
      DigestsAgree(crypto, xs[..n], ys[..n]);
    }
  }

  /** What is hashed for a chain. */
  function ChainPreimage(crypto: Crypto, cs: seq<FreshnessCommitment>): seq<Byte> {
    Ascii("orchestration-chain-v1") + Digests(crypto, cs)
  }

  /** Barring a collision of the two chain preimages, equal chain hashes mean
      equally many steps with equal signing digests in order, and conversely. */
  lemma ChainHashBinds(crypto: Crypto, xs: seq<FreshnessCommitment>, ys: seq<FreshnessCommitment>)
    requires crypto.NoCollision(ChainPreimage(crypto, xs), ChainPreimage(crypto, ys))
    ensures ChainHash(crypto, xs) == ChainHash(crypto, ys) <==> SameDigests(crypto, xs, ys)
  {
    ChainHashSpelled(crypto, xs);
    ChainHashSpelled(crypto, ys);
    if ChainHash(crypto, xs) == ChainHash(crypto, ys) {
      Cancel(Ascii("orchestration-chain-v1"), Digests(crypto, xs), Digests(crypto, ys));
      ChainCommitsToDigests(crypto, xs, ys);
    }
    if SameDigests(crypto, xs, ys) {
      DigestsAgree(crypto, xs, ys);
    }
  }

  /** A completed run's receipt: one commitment per agent, the task's id, the
      chain hash over exactly those commitments, and the clocks advanced once per
      agent, without overflow. */
  lemma CompletedReceipt(job: Job)
    requires job.FirstDone(|job.agents|)
    ensures job.Completed().taskId == job.task.taskId && |job.Completed().commitments| == |job.agents|
    ensures job.Completed().chainHash
         == job.setup.crypto.sha256(ChainPreimage(job.setup.crypto, job.Completed().commitments))
    ensures AnchorsFit(job.start, |job.agents|) ==> job.Completed().finalAnchor == Advanced(job.start, |job.agents|)
  {
    ChainHashSpelled(job.setup.crypto, job.Completed().commitments);
    if AnchorsFit(job.start, |job.agents|) {
      AnchorsAdvance(job.start, |job.agents|);
    }
  }

  /** A failed run names agent `k` and its error, and hands over the commitments
      of the agents before it, each at its own step. */
  lemma FailedReceipt(job: Job, k: nat)
    requires k < |job.agents| && job.FirstDone(k) && job.AttemptsAt(k).result.Error?
    ensures job.Stopped(k).Failed? && job.Stopped(k).failedAgent == job.agents[k].identity
    ensures job.AttemptsAt(k).result == Error(job.Stopped(k).failure)
    ensures |job.Stopped(k).partialReceipts| == k
    ensures forall i :: 0 <= i < k ==>
      && job.Stopped(k).partialReceipts[i].anchor == AnchorAt(job.start, i)
      && job.Stopped(k).partialReceipts[i].outputHash == OutputHash(job.setup.crypto, job.AttemptsAt(i).result.output)
    ensures var events := job.StoppedEvents(k);
      |events| > 0 && events[|events|-1] == AgentFailed(job.agents[k].identity, job.Stopped(k).failure)
  {}

  predicate AnchorsFit(start: TripleAnchor, i: nat) {
    start.blockHeight + i < TWO_64 && start.teeTimestamp + 2_000_000_000 * i < TWO_128
  }

  function Advanced(start: TripleAnchor, i: nat): TripleAnchor
    requires AnchorsFit(start, i)
  {
    TripleAnchor(start.blockHeight + i, start.teeTimestamp + 2_000_000_000 * i, start.drandRound)
  }

  /** Step `i` is anchored `i` blocks and `i` times two seconds after the start,
      at the same Drand round. */
  lemma AnchorsAdvance(start: TripleAnchor, i: nat)
    requires AnchorsFit(start, i)
    ensures AnchorAt(start, i) == Advanced(start, i)
  {}

  /** Barring a collision of the two chain preimages, two completed runs get one
      chain hash exactly when their commitments have the same digests in order. */
  lemma ReceiptsBind(a: Job, b: Job)
    requires a.setup.crypto == b.setup.crypto && a.FirstDone(|a.agents|) && b.FirstDone(|b.agents|)
    requires a.setup.crypto.NoCollision(ChainPreimage(a.setup.crypto, a.Completed().commitments),
                                        ChainPreimage(a.setup.crypto, b.Completed().commitments))
    ensures a.Completed().chainHash == b.Completed().chainHash
       <==> SameDigests(a.setup.crypto, a.Completed().commitments, b.Completed().commitments)
  {
    ChainHashBinds(a.setup.crypto, a.Completed().commitments, b.Completed().commitments);
  }

  /** Agent `i`'s part of a run's events: all its attempts, then its success. */
  lemma EventsOfAgent(job: Job, n: nat, i: nat)
    requires i < n <= |job.agents|
    ensures At(job.Events(n), |job.Events(i)|, job.AttemptsAt(i).events + [AgentSucceeded(job.agents[i].identity)])
  {
    BlockStays(job, n, i, job.AttemptsAt(i).events + [AgentSucceeded(job.agents[i].identity)]);
  }

  lemma {:induction false} BlockStays(job: Job, n: nat, i: nat, block: seq<Event>)
    requires i < n <= |job.agents|
    requires block == job.AttemptsAt(i).events + [AgentSucceeded(job.agents[i].identity)]
    ensures At(job.Events(n), |job.Events(i)|, block)
  {
    if i == n - 1 {
      assert At(block, 0, block);
      AtTail(job.Events(i), block, 0, block);
    } else {
      BlockStays(job, n - 1, i, block);
      AtBefore(job.Events(n - 1), job.AttemptsAt(n - 1).events + [AgentSucceeded(job.agents[n-1].identity)],
               |job.Events(i)|, block);
    }
  }

  /** With a working key every commitment of a run verifies and binds its step. */
  lemma RunCommitmentsVerify(job: Job, n: nat, i: nat)
    requires job.setup.key.Signs(job.setup.crypto)
    requires i < n <= |job.agents| && job.FirstDone(n)
    ensures var c := job.Commitments(n)[i];
      && Verify(job.setup.crypto, c) == Ok(())
      && Binds(job.setup.crypto, c, StepRoot(job.setup.crypto, job.agents[i].identity, job.task))
      && c.outputHash == OutputHash(job.setup.crypto, job.AttemptsAt(i).result.output)
      && c.anchor == AnchorAt(job.start, i)
  {
    CommitVerifies(job.setup.crypto, job.setup.key, StepRoot(job.setup.crypto, job.agents[i].identity, job.task),
                   OutputHash(job.setup.crypto, job.AttemptsAt(i).result.output), AnchorAt(job.start, i));
  }
}
