/** The three concrete agents of examples/multi_agent_orchestrator.rs and when
    their pipeline completes. */
module DemoPipeline {
  import opened Types
  import opened Text
  import opened Anchor
  import opened Orchestrator

  const PRICE_E6: U64 := 28_500_000_000

  /** Times out on its first `flakiness` calls, counting `failed` earlier ones,
      then publishes the price; or always fails permanently. */
  function OraclePriceAgent(flakiness: U32, failed: U32, permanent: bool): Agent {
    Agent("oracle-price",
      (attempt: nat, task: AgentTask, mem: Memory, anchor: TripleAnchor) =>
        if permanent then (mem, Error(Permanent("oracle endpoint unreachable")))
        else if failed + attempt - 1 < flakiness then
          (mem, Error(Transient("oracle timeout (attempt " + Decimal(failed + attempt) + ")")))
        else (mem["price_e6" := LE64(PRICE_E6)], Done(LE64(PRICE_E6))))
  }

  /** Reads the price and writes whether it exceeds the threshold. */
  function DecisionAgent(thresholdE6: U64): Agent {
    Agent("decision",
      (attempt: nat, task: AgentTask, mem: Memory, anchor: TripleAnchor) =>
        if "price_e6" !in mem then (mem, Error(Permanent("price not in memory")))
        else if |mem["price_e6"]| != 8 then (mem, Error(Permanent("malformed price")))
        else
          var signal: seq<Byte> := [if FromLittleEndian(mem["price_e6"]) > thresholdE6 then 1 else 0];
          (mem["signal" := signal], Done(signal)))
  }

  function SettlementOutput(crypto: Crypto, taskId: U64, signal: seq<Byte>): Hash32 {
    crypto.sha256(Ascii("settlement-output-v1") + LE64(taskId) + signal)
  }

  /** Hashes the signal into the settlement payload. */
  function SettlementAgent(crypto: Crypto): Agent {
    Agent("settlement",
      (attempt: nat, task: AgentTask, mem: Memory, anchor: TripleAnchor) =>
        if "signal" !in mem then (mem, Error(Permanent("signal not in memory")))
        else if |mem["signal"]| != 1 then (mem, Error(Permanent("malformed signal")))
        else
          var output := SettlementOutput(crypto, task.taskId, mem["signal"]);
          (mem["settlement_hash" := output], Done(output)))
  }

  function Demo(setup: Setup, flakiness: U32, permanent: bool, thresholdE6: U64, task: AgentTask,
                start: TripleAnchor): Job {
    Job(setup,
        [OraclePriceAgent(flakiness, 0, permanent), DecisionAgent(thresholdE6), SettlementAgent(setup.crypto)],
        task, start)
  }

  /** An oracle that times out `flakiness` times answers within the budget
      exactly when the budget is larger, and publishes the price when it does. */
  lemma OracleAnswersIff(flakiness: U32, permanent: bool, task: AgentTask, mem: Memory, anchor: TripleAnchor, p: Policy)
    ensures var a := RunWithRetry(OraclePriceAgent(flakiness, 0, permanent), task, mem, anchor, p);
      && (a.result.Done? <==> !permanent && flakiness < p.maxRetries)
      && (a.result.Done? ==> a.result == Done(LE64(PRICE_E6)) && a.mem == mem["price_e6" := LE64(PRICE_E6)])
  {
    var agent := OraclePriceAgent(flakiness, 0, permanent);
    var n := RetryBehaviour(agent, task, mem, anchor, p);
    if p.maxRetries > 0 {
      OracleReplies(flakiness, permanent, task, mem, anchor, n);
      if !permanent && n <= flakiness {
        assert IsTransient(ReplyAt(agent, task, mem, anchor, n));
      }
      if n > 1 {
        OracleReplies(flakiness, permanent, task, mem, anchor, n - 1);
        assert IsTransient(ReplyAt(agent, task, mem, anchor, n - 1));
      }
    }
  }

  lemma {:induction false} OracleReplies(flakiness: U32, permanent: bool, task: AgentTask, mem: Memory,
                                         anchor: TripleAnchor, k: nat)
    requires k >= 1
    ensures var agent := OraclePriceAgent(flakiness, 0, permanent);
      && (permanent || k <= flakiness + 1 ==> MemoryBefore(agent, task, mem, anchor, k) == mem)
      && (ReplyAt(agent, task, mem, anchor, k).Done? <==> !permanent && k > flakiness)
      && (IsTransient(ReplyAt(agent, task, mem, anchor, k)) <==> !permanent && k <= flakiness)
  {
    if k == 1 {
    } else {
      OracleReplies(flakiness, permanent, task, mem, anchor, k - 1);
    }
  }

  /** An agent that succeeds at its first call is called once. */
  lemma FirstCallSucceeds(agent: Agent, task: AgentTask, mem: Memory, anchor: TripleAnchor, p: Policy)
    requires p.maxRetries > 0 && agent.execute(1, task, mem, anchor).1.Done?
    ensures RunWithRetry(agent, task, mem, anchor, p)
         == Attempts(agent.execute(1, task, mem, anchor).1, agent.execute(1, task, mem, anchor).0,
                     [AgentStarted(agent.identity, 1)], [])
  {}

  /** Given a published price, the decision agent writes its signal at once. */
  lemma DecisionAnswers(thresholdE6: U64, task: AgentTask, mem: Memory, anchor: TripleAnchor, p: Policy)
    requires p.maxRetries > 0 && "price_e6" in mem && mem["price_e6"] == LE64(PRICE_E6)
    ensures var signal: seq<Byte> := [if PRICE_E6 > thresholdE6 then 1 else 0];
      var a := RunWithRetry(DecisionAgent(thresholdE6), task, mem, anchor, p);
      a.result == Done(signal) && a.mem == mem["signal" := signal]
  {
    Widths();
    LittleEndianReads(PRICE_E6, 8);
    FirstCallSucceeds(DecisionAgent(thresholdE6), task, mem, anchor, p);
  }

  /** Given a signal, the settlement agent hashes it at once. */
  lemma SettlementAnswers(crypto: Crypto, task: AgentTask, mem: Memory, anchor: TripleAnchor, p: Policy)
    requires p.maxRetries > 0 && "signal" in mem && |mem["signal"]| == 1
    ensures RunWithRetry(SettlementAgent(crypto), task, mem, anchor, p).result
         == Done(SettlementOutput(crypto, task.taskId, mem["signal"]))
  {
    FirstCallSucceeds(SettlementAgent(crypto), task, mem, anchor, p);
  }

  lemma MemAfter(job: Job, i: nat)
    requires i < |job.agents|
    ensures job.MemAt(0) == map[] && job.MemAt(i + 1) == job.AttemptsAt(i).mem
  {}

  lemma DemoSettles(setup: Setup, flakiness: U32, thresholdE6: U64, task: AgentTask, start: TripleAnchor, job: Job)
    requires job == Demo(setup, flakiness, false, thresholdE6, task, start)
    requires flakiness < setup.policy.maxRetries
    ensures job.FirstDone(3)
    ensures job.AttemptsAt(2).result
         == Done(SettlementOutput(setup.crypto, task.taskId, [if PRICE_E6 > thresholdE6 then 1 else 0]))
  {
    MemAfter(job, 0);
    MemAfter(job, 1);
    OracleAnswersIff(flakiness, false, task, map[], AnchorAt(start, 0), setup.policy);
    DecisionAnswers(thresholdE6, task, job.MemAt(1), AnchorAt(start, 1), setup.policy);
    SettlementAnswers(setup.crypto, task, job.MemAt(2), AnchorAt(start, 2), setup.policy);
  }

  lemma DemoStops(setup: Setup, flakiness: U32, permanent: bool, thresholdE6: U64, task: AgentTask,
                  start: TripleAnchor, job: Job)
    requires job == Demo(setup, flakiness, permanent, thresholdE6, task, start)
    requires permanent || flakiness >= setup.policy.maxRetries
    ensures !job.AttemptsAt(0).result.Done?
  {
    MemAfter(job, 0);
    OracleAnswersIff(flakiness, permanent, task, map[], AnchorAt(start, 0), setup.policy);
  }

  /** The demo pipeline completes exactly when the oracle is not down for good
      and times out fewer times than the budget; the payload it settles then
      says whether the price exceeds the threshold. */
  lemma DemoCompletesIff(setup: Setup, flakiness: U32, permanent: bool, thresholdE6: U64, task: AgentTask,
                         start: TripleAnchor)
    ensures var job := Demo(setup, flakiness, permanent, thresholdE6, task, start);
      && (job.FirstDone(3) <==> !permanent && flakiness < setup.policy.maxRetries)
      && (job.FirstDone(3) ==>
            job.AttemptsAt(2).result
            == Done(setup.crypto.sha256(Ascii("settlement-output-v1") + LE64(task.taskId)
                                   + [if 28_500_000_000 > thresholdE6 then 1 else 0])))
  {
    var job := Demo(setup, flakiness, permanent, thresholdE6, task, start);
    if !permanent && flakiness < setup.policy.maxRetries {
      DemoSettles(setup, flakiness, thresholdE6, task, start, job);
    } else {
      DemoStops(setup, flakiness, permanent, thresholdE6, task, start, job);
    }
  }
}
