/** `PiRpcClient` (scripts/control-ui-i18n.ts): a promise chain of prompts over one child
    process, with one pending slot, a timeout and a heartbeat per prompt.

    A state machine describes what each callback does; the class below it updates the
    client's fields as the script does and is proved to take exactly those steps. */
module PiRpc {
  import opened Wrappers

  /** Why a prompt was rejected. */
  datatype Reason = Unavailable | PromptFailed(text: string) | BadReply(text: string) | TimedOut
                  | ProcessFailed(text: string) | WriteFailed(text: string)

  /** One call of `prompt`: a link of the promise chain. */
  datatype Link = Waiting | Started(id: nat) | Resolved(result: string) | Rejected(reason: Reason)
  {
    predicate Settled() {
      Resolved? || Rejected?
    }
  }

  datatype PendingPrompt = PendingPrompt(id: nat, responseReceived: bool)

  /** A parsed line of the child's output.  `id` is the number of a `req-` id, if it is one. */
  datatype StdoutLine = Response(id: Option<nat>, success: bool, error: string)
                      | AgentEnd(result: string) | AgentEndFailed(error: string) | OtherLine

  datatype Event = Prompt                            // prompt() is called
                 | Turn                              // the next link of the chain gets its turn
                 | Line(line: StdoutLine)
                 | TimerFires(id: nat)
                 | WriteFails(id: nat, error: string)
                 | ProcessError(error: string)
                 | ProcessClosed(error: string)
                 | Close                             // close() is called

  /** `timers` and `heartbeats` are the ids whose timeout and interval are still set;
      `written` lists the ids of the prompts written to the child. */
  datatype Client = Client(closed: bool, pending: Option<PendingPrompt>, requestCount: nat, links: seq<Link>,
                           timers: set<nat>, heartbeats: set<nat>, written: seq<nat>)

  const INITIAL := Client(false, None, 0, [], {}, {}, [])

  // ---------------------------------------------------------------- steps

  /** Settles the promise of prompt `id`; settling twice has no effect. */
  function Settle(links: seq<Link>, id: nat, outcome: Link): seq<Link> {
    if links == [] then []
    else [if links[0] == Started(id) then outcome else links[0]] + Settle(links[1..], id, outcome)
  }

  function ClearTimers(c: Client, id: nat): Client {
    c.(timers := c.timers - {id}, heartbeats := c.heartbeats - {id})
  }

  /** `pending.reject` or `pending.resolve` after the slot has been emptied. */
  function Finish(c: Client, id: nat, outcome: Link): Client {
    var c' := ClearTimers(c.(pending := None), id);
    c'.(links := Settle(c'.links, id, outcome))
  }

  function PendingRejected(c: Client, reason: Reason): Client {
    if c.pending.None? then c else Finish(c, c.pending.value.id, Rejected(reason))
  }

  /** The first link still waiting. */
  function Frontier(links: seq<Link>): (n: nat)
    ensures n <= |links|
    ensures forall i :: 0 <= i < n ==> !links[i].Waiting?
    ensures n < |links| ==> links[n].Waiting?
  {
    if links == [] || links[0].Waiting? then 0 else 1 + Frontier(links[1..])
  }

  /** The chain calls the next link once the one before it has settled. */
  predicate MayTurn(links: seq<Link>) {
    var n := Frontier(links);
    n < |links| && (n > 0 ==> links[n - 1].Settled())
  }

  function Turned(c: Client): Client {
    var n := Frontier(c.links);
    if !MayTurn(c.links) then c
    else if n > 0 && c.links[n - 1].Rejected? then c.(links := c.links[n := c.links[n - 1]])
    else if c.closed then c.(links := c.links[n := Rejected(Unavailable)])
    else
      var id := c.requestCount + 1;
      c.(requestCount := id,
         links := c.links[n := Started(id)],
         timers := c.timers + {id},
         heartbeats := c.heartbeats + {id},
         pending := Some(PendingPrompt(id, false)),
         written := c.written + [id])
  }

  function LineRead(c: Client, line: StdoutLine): Client {
    if c.pending.None? then c
    else
      var p := c.pending.value;
      match line
      case Response(id, success, error) =>
        if id != Some(p.id) then c
        else if success then c.(pending := Some(p.(responseReceived := true)))
        else Finish(c, p.id, Rejected(PromptFailed(error)))
      case AgentEnd(result) => Finish(c, p.id, Resolved(result))
      case AgentEndFailed(error) => Finish(c, p.id, Rejected(BadReply(error)))
      case OtherLine => c
  }

  function TimerFired(c: Client, id: nat): Client {
    if id !in c.timers then c
    else
      var c' := c.(timers := c.timers - {id});
      if c'.pending.Some? && c'.pending.value.id == id then
        c'.(pending := None, heartbeats := c'.heartbeats - {id}, closed := true,
            links := Settle(c'.links, id, Rejected(TimedOut)))
      else c'
  }

  function WriteFailure(c: Client, id: nat, error: string): Client {
    if id !in c.written then c
    else
      var c' := ClearTimers(c, id);
      var c'' := if c'.pending.Some? && c'.pending.value.id == id then c'.(pending := None) else c';
      c''.(links := Settle(c''.links, id, Rejected(WriteFailed(error))))
  }

  function Step(c: Client, e: Event): Client {
    match e
    case Prompt => c.(links := c.links + [Waiting])
    case Turn => Turned(c)
    case Line(line) => LineRead(c, line)
    case TimerFires(id) => TimerFired(c, id)
    case WriteFails(id, error) => WriteFailure(c, id, error)
    case ProcessError(error) => PendingRejected(c, ProcessFailed(error))
    case ProcessClosed(error) => PendingRejected(c.(closed := true), ProcessFailed(error))
    case Close => c.(closed := true)
  }

  function Run(c: Client, es: seq<Event>): Client
    decreases |es|
  {
    if es == [] then c else Run(Step(c, es[0]), es[1..])
  }

  // ---------------------------------------------------------------- invariant

  /** Settled links, then at most one started link, then waiting ones; a rejected link
      is only followed by links rejected for the same reason and waiting ones. */
  ghost predicate Chained(links: seq<Link>) {
    && (forall i, j :: 0 <= i < j < |links| && (links[i].Started? || links[i].Waiting?) ==> links[j].Waiting?)
    && (forall i, j :: 0 <= i < j < |links| && links[i].Rejected? ==> links[j] == links[i] || links[j].Waiting?)
  }

  /** The pending slot names the started link, and exactly its timers are set. */
  ghost predicate Inv(c: Client) {
    && Chained(c.links)
    && (forall i, id :: 0 <= i < |c.links| && c.links[i] == Started(id) ==> c.pending.Some? && c.pending.value.id == id)
    && (c.pending.Some? ==> exists i :: 0 <= i < |c.links| && c.links[i] == Started(c.pending.value.id))
    && c.timers == c.heartbeats == (if c.pending.Some? then {c.pending.value.id} else {})
    && |c.written| == c.requestCount
    && (forall i :: 0 <= i < |c.written| ==> c.written[i] == i + 1)
    && (c.pending.Some? ==> c.pending.value.id == c.requestCount > 0)
  }

  lemma {:induction false} SettleAt(links: seq<Link>, id: nat, outcome: Link)
    ensures |Settle(links, id, outcome)| == |links|
    ensures forall i :: 0 <= i < |links| ==>
              Settle(links, id, outcome)[i] == if links[i] == Started(id) then outcome else links[i]
  {
    if links != [] {
      SettleAt(links[1..], id, outcome);
    }
  }

  lemma SettleChained(links: seq<Link>, id: nat, outcome: Link)
    requires Chained(links) && outcome.Settled()
    ensures Chained(Settle(links, id, outcome))
  {
    SettleAt(links, id, outcome);
  }

  lemma TurnChained(links: seq<Link>, link: Link)
    requires Chained(links) && MayTurn(links)
    requires var n := Frontier(links); if n > 0 && links[n - 1].Rejected? then link == links[n - 1] else !link.Waiting?
    ensures Chained(links[Frontier(links) := link])
  {
    var n := Frontier(links);
    if n > 0 && links[n - 1].Resolved? {
      assert forall i :: 0 <= i < n ==> links[i].Resolved?;
    }
  }

  /** With the slot empty and a link to run, every earlier link has settled. */
  lemma NothingStarted(c: Client)
    requires Inv(c) && MayTurn(c.links)
    ensures c.pending.None?
  {
  }

  lemma TurnInv(c: Client)
    requires Inv(c)
    ensures Inv(Turned(c))
  {
    if MayTurn(c.links) {
      var n, c' := Frontier(c.links), Turned(c);
      NothingStarted(c);
      TurnChained(c.links, c'.links[n]);
      assert c'.links[n] == Started(c.requestCount + 1) || c'.links[n].Rejected?;
    }
  }

  lemma FinishInv(c: Client, outcome: Link)
    requires Inv(c) && c.pending.Some? && outcome.Settled()
    ensures Inv(Finish(c, c.pending.value.id, outcome))
  {
    SettleAt(c.links, c.pending.value.id, outcome);
    SettleChained(c.links, c.pending.value.id, outcome);
  }

  lemma NoSuchStarted(c: Client, id: nat, outcome: Link)
    requires Inv(c) && !(c.pending.Some? && c.pending.value.id == id)
    ensures Settle(c.links, id, outcome) == c.links
  {
    SettleAt(c.links, id, outcome);
  }

  lemma WriteFailsInv(c: Client, id: nat, error: string)
    requires Inv(c)
    ensures Inv(WriteFailure(c, id, error))
  {
    if c.pending.Some? && c.pending.value.id == id {
      FinishInv(c, Rejected(WriteFailed(error)));
    } else {
      NoSuchStarted(c, id, Rejected(WriteFailed(error)));
    }
  }

  /** Every callback keeps the invariant, whatever the order of events. */
  lemma StepInv(c: Client, e: Event)
    requires Inv(c)
    ensures Inv(Step(c, e))
  {
    match e {
      case Turn => TurnInv(c);
      case WriteFails(id, error) => WriteFailsInv(c, id, error);
      case TimerFires(id) =>
        if c.pending.Some? {
          FinishInv(c, Rejected(TimedOut));
        }
      case Line(line) => LineInv(c, line);
      case ProcessError(error) =>
        if c.pending.Some? {
          FinishInv(c, Rejected(ProcessFailed(error)));
        }
      case ProcessClosed(error) =>
        if c.pending.Some? {
          FinishInv(c.(closed := true), Rejected(ProcessFailed(error)));
        }
      case Prompt =>
        if c.pending.Some? {
          var i :| 0 <= i < |c.links| && c.links[i] == Started(c.pending.value.id);
          assert (c.links + [Waiting])[i] == Started(c.pending.value.id);
        }
      case Close =>
    }
  }

  lemma LineInv(c: Client, line: StdoutLine)
    requires Inv(c)
    ensures Inv(LineRead(c, line))
  {
    if c.pending.Some? {
      match line {
        case Response(_, _, error) => FinishInv(c, Rejected(PromptFailed(error)));
        case AgentEnd(result) => FinishInv(c, Resolved(result));
        case AgentEndFailed(error) => FinishInv(c, Rejected(BadReply(error)));
        case OtherLine =>
      }
    }
  }

  // ---------------------------------------------------------------- whole runs

  lemma {:induction false} RunKeeps(c: Client, es: seq<Event>)
    requires Inv(c)
    ensures Inv(Run(c, es))
    decreases |es|
  {
    if es != [] {
      StepInv(c, es[0]);
      RunKeeps(Step(c, es[0]), es[1..]);
    }
  }

  /** In every run one started prompt at most is unsettled, it is the pending one, its
      timeout and heartbeat are set, and no other prompt's are. */
  lemma OnePendingWithTimers(es: seq<Event>)
    ensures var c := Run(INITIAL, es);
            && (forall i, j :: 0 <= i < j < |c.links| ==> !(c.links[i].Started? && c.links[j].Started?))
            && (forall i, id :: 0 <= i < |c.links| && c.links[i] == Started(id) ==>
                  c.pending.Some? && c.pending.value.id == id)
            && (forall id :: id in c.timers <==> c.pending.Some? && c.pending.value.id == id)
            && c.heartbeats == c.timers
  {
    RunKeeps(INITIAL, es);
  }

  lemma SettleKeeps(links: seq<Link>, id: nat, outcome: Link, i: nat)
    requires i < |links| && links[i].Settled()
    ensures |Settle(links, id, outcome)| == |links| && Settle(links, id, outcome)[i] == links[i]
  {
    SettleAt(links, id, outcome);
  }

  lemma StepSettled(c: Client, e: Event, i: nat)
    requires Inv(c) && i < |c.links| && c.links[i].Settled()
    ensures i < |Step(c, e).links| && Step(c, e).links[i] == c.links[i]
  {
    if Step(c, e).links != c.links && !e.Prompt? && !e.Turn? {
      var id, outcome := SettledBy(c, e);
      SettleKeeps(c.links, id, outcome, i);
    }
  }

  /** Apart from new prompts and turns, an event changes the links by settling one at most. */
  lemma SettledBy(c: Client, e: Event) returns (id: nat, outcome: Link)
    requires Step(c, e).links != c.links && !e.Prompt? && !e.Turn?
    ensures Step(c, e).links == Settle(c.links, id, outcome)
  {
    match e {
      case Line(Response(_, _, error)) => id, outcome := c.pending.value.id, Rejected(PromptFailed(error));
      case Line(AgentEnd(result)) => id, outcome := c.pending.value.id, Resolved(result);
      case Line(AgentEndFailed(error)) => id, outcome := c.pending.value.id, Rejected(BadReply(error));
      case TimerFires(t) => id, outcome := t, Rejected(TimedOut);
      case WriteFails(w, error) => id, outcome := w, Rejected(WriteFailed(error));
      case ProcessError(error) => id, outcome := c.pending.value.id, Rejected(ProcessFailed(error));
      case ProcessClosed(error) => id, outcome := c.pending.value.id, Rejected(ProcessFailed(error));
      case _ => assert false;
    }
  }

  /** A prompt settles once: its result never changes afterwards. */
  lemma {:induction false} SettlesOnce(c: Client, es: seq<Event>, i: nat)
    requires Inv(c) && i < |c.links| && c.links[i].Settled()
    ensures i < |Run(c, es).links| && Run(c, es).links[i] == c.links[i]
    decreases |es|
  {
    if es != [] {
      StepInv(c, es[0]);
      StepSettled(c, es[0], i);
      SettlesOnce(Step(c, es[0]), es[1..], i);
    }
  }

  lemma StepAfterRejection(c: Client, e: Event, i: nat)
    requires Inv(c) && i < |c.links| && c.links[i].Rejected?
    ensures Step(c, e).written == c.written
  {
    if e.Turn? && MayTurn(c.links) {
      var n := Frontier(c.links);
      assert i <= n - 1;
      assert c.links[n - 1].Rejected?;
    }
  }

  /** After any rejected prompt nothing is ever written again, and every later prompt
      that settles is rejected for the same reason. */
  lemma {:induction false} NothingAfterRejection(c: Client, es: seq<Event>, i: nat)
    requires Inv(c) && i < |c.links| && c.links[i].Rejected?
    ensures Run(c, es).written == c.written
    ensures var links := Run(c, es).links;
            forall j :: i <= j < |links| ==> links[j] == c.links[i] || links[j].Waiting?
    decreases |es|
  {
    if es != [] {
      StepInv(c, es[0]);
      StepSettled(c, es[0], i);
      StepAfterRejection(c, es[0], i);
      NothingAfterRejection(Step(c, es[0]), es[1..], i);
    }
  }

  /** A pending prompt can always be settled by its own timeout, which also closes the client. */
  lemma TimeoutSettles(c: Client, i: nat, id: nat)
    requires Inv(c) && i < |c.links| && c.links[i] == Started(id)
    ensures id in c.timers
    ensures var c' := Step(c, TimerFires(id));
            |c'.links| == |c.links| && c'.links[i] == Rejected(TimedOut) && c'.closed && c'.pending.None?
  {
    SettleAt(c.links, id, Rejected(TimedOut));
  }

  /** A finished translation reaches the caller that is waiting for it. */
  lemma ReplyResolves(c: Client, i: nat, id: nat, result: string)
    requires Inv(c) && i < |c.links| && c.links[i] == Started(id)
    ensures var c' := Step(c, Line(AgentEnd(result)));
            && |c'.links| == |c.links| && c'.links[i] == Resolved(result)
            && c'.pending.None? && id !in c'.timers && id !in c'.heartbeats
  {
    SettleAt(c.links, id, Resolved(result));
  }

  /** What an event makes of the started prompt `id`. */
  ghost function FateOf(id: nat, e: Event): Link {
    match e
    case Line(AgentEnd(result)) => Resolved(result)
    case Line(AgentEndFailed(error)) => Rejected(BadReply(error))
    case Line(Response(answered, success, error)) =>
      if answered == Some(id) && !success then Rejected(PromptFailed(error)) else Started(id)
    case TimerFires(t) => if t == id then Rejected(TimedOut) else Started(id)
    case WriteFails(w, error) => if w == id then Rejected(WriteFailed(error)) else Started(id)
    case ProcessError(error) => Rejected(ProcessFailed(error))
    case ProcessClosed(error) => Rejected(ProcessFailed(error))
    case _ => Started(id)
  }

  /** After one event a started prompt has this fate, no other link has changed, and nothing
      was written. */
  lemma PromptFate(c: Client, e: Event, i: nat, id: nat)
    requires Inv(c) && i < |c.links| && c.links[i] == Started(id)
    ensures var links := Step(c, e).links;
            && links == (if e.Prompt? then c.links + [Waiting] else c.links[i := FateOf(id, e)])
            && Step(c, e).written == c.written
  {
    OtherLinks(c, i, id);
    if e.Line? {
      LineFate(c, e.line, i, id);
    } else if e.WriteFails? {
      WriteFate(c, e.id, e.error, i, id);
    } else {
      SettleOnly(c.links, i, id, FateOf(id, e));
      WrittenPending(c, i, id);
    }
  }

  lemma LineFate(c: Client, line: StdoutLine, i: nat, id: nat)
    requires Inv(c) && i < |c.links| && c.links[i] == Started(id)
    ensures LineRead(c, line).links == c.links[i := FateOf(id, Line(line))]
    ensures LineRead(c, line).written == c.written
  {
    OtherLinks(c, i, id);
    SettleOnly(c.links, i, id, FateOf(id, Line(line)));
  }

  lemma WriteFate(c: Client, w: nat, error: string, i: nat, id: nat)
    requires Inv(c) && i < |c.links| && c.links[i] == Started(id)
    ensures WriteFailure(c, w, error).links == c.links[i := FateOf(id, WriteFails(w, error))]
    ensures WriteFailure(c, w, error).written == c.written
  {
    OtherLinks(c, i, id);
    if w == id {
      SettleOnly(c.links, i, id, Rejected(WriteFailed(error)));
      WrittenPending(c, i, id);
    } else {
      NoSuchStarted(c, w, Rejected(WriteFailed(error)));
      assert c.links[i := Started(id)] == c.links;
    }
  }

  lemma SettleOnly(links: seq<Link>, i: nat, id: nat, outcome: Link)
    requires i < |links| && links[i] == Started(id) && forall j :: 0 <= j < |links| && j != i ==> links[j] != Started(id)
    ensures Settle(links, id, outcome) == links[i := outcome] && links[i := Started(id)] == links
  {
    SettleAt(links, id, outcome);
  }

  lemma WrittenPending(c: Client, i: nat, id: nat)
    requires Inv(c) && i < |c.links| && c.links[i] == Started(id)
    ensures id in c.timers && id in c.written
  {
    assert c.written[id - 1] == id;
  }

  lemma OtherLinks(c: Client, i: nat, id: nat)
    requires Inv(c) && i < |c.links| && c.links[i] == Started(id)
    ensures forall j :: 0 <= j < |c.links| && j != i ==> c.links[j] != Started(id)
    ensures !MayTurn(c.links)
  {
    forall j | 0 <= j < |c.links| && j != i ensures c.links[j] != Started(id) {
      assert i < j ==> c.links[j].Waiting?;
      assert j < i ==> !c.links[j].Started?;
    }
    if MayTurn(c.links) {
      NothingStarted(c);
    }
  }

  /** An acknowledged prompt goes on waiting, a refused one is rejected, and an answer to
      another request changes nothing. */
  lemma ResponseRead(c: Client, i: nat, id: nat, answered: Option<nat>, success: bool, error: string)
    requires Inv(c) && i < |c.links| && c.links[i] == Started(id)
    ensures var c' := Step(c, Line(Response(answered, success, error)));
            if answered != Some(id) then c' == c
            else if success then c' == c.(pending := Some(PendingPrompt(id, true)))
            else c' == c.(pending := None, timers := {}, heartbeats := {}, links := c.links[i := Rejected(PromptFailed(error))])
  {
    PromptFate(c, Line(Response(answered, success, error)), i, id);
  }

  /** The slot and both timers stay just as long as the prompt is unsettled, and the client
      is closed by the timeout, by the process or by the caller. */
  lemma PromptSlot(c: Client, e: Event, i: nat, id: nat)
    requires Inv(c) && i < |c.links| && c.links[i] == Started(id)
    ensures var c', pending := Step(c, e), FateOf(id, e).Started?;
            && (c'.pending.Some? <==> pending) && (pending ==> c'.pending.value.id == id)
            && c'.timers == c'.heartbeats == (if pending then {id} else {})
            && (c'.closed <==> c.closed || e == TimerFires(id) || e.ProcessClosed? || e.Close?)
  {
    OtherLinks(c, i, id);
    WrittenPending(c, i, id);
  }

  /** With no prompt started, only new prompts and turns change the links. */
  lemma IdleEvent(c: Client, e: Event)
    requires Inv(c) && c.pending.None?
    ensures var c' := Step(c, e);
            && (!e.Turn? ==> c'.links == (if e.Prompt? then c.links + [Waiting] else c.links) && c'.pending.None?)
            && (c'.closed <==> c.closed || e.ProcessClosed? || e.Close?)
  {
    if e.WriteFails? {
      NoSuchStarted(c, e.id, Rejected(WriteFailed(e.error)));
    }
  }

  /** The turn of the first waiting link once all before it have settled: it takes over a
      rejection, it is refused by a closed client, or its prompt is written. */
  lemma TurnTaken(c: Client, n: nat)
    requires Inv(c) && n < |c.links| && c.links[n].Waiting? && forall j :: 0 <= j < n ==> c.links[j].Settled()
    ensures var c', id := Step(c, Turn), c.requestCount + 1;
            if n > 0 && c.links[n - 1].Rejected? then c' == c.(links := c.links[n := c.links[n - 1]])
            else if c.closed then c' == c.(links := c.links[n := Rejected(Unavailable)])
            else c' == Client(false, Some(PendingPrompt(id, false)), id, c.links[n := Started(id)], {id}, {id}, c.written + [id])
  {
    assert Frontier(c.links) == n;
    NothingStarted(c);
  }

  // ---------------------------------------------------------------- the class

  class PiRpcClient {
    var closed: bool
    var pending: Option<PendingPrompt>
    var requestCount: nat
    var sequence: seq<Link>
    var timers: set<nat>
    var heartbeats: set<nat>
    var written: seq<nat>

    ghost function View(): Client
      reads this
    {
      Client(closed, pending, requestCount, sequence, timers, heartbeats, written)
    }

    constructor ()
      ensures View() == INITIAL
    {
      closed, pending, requestCount, sequence := false, None, 0, [];
      timers, heartbeats, written := {}, {}, [];
    }

    /** `pending.reject` and `pending.resolve`: clear both timers, settle the promise. */
    method SettlePrompt(id: nat, outcome: Link)
      modifies `timers, `heartbeats, `sequence
      ensures View() == ClearTimers(old(View()), id).(links := Settle(old(sequence), id, outcome))
    {
      timers := timers - {id};
      heartbeats := heartbeats - {id};
      sequence := Settle(sequence, id, outcome);
    }

    method RejectPending(reason: Reason)
      modifies this
      ensures View() == PendingRejected(old(View()), reason)
    {
      var p := pending;
      pending := None;
      if p.Some? {
        SettlePrompt(p.value.id, Rejected(reason));
      }
    }

    method HandleStdoutLine(line: StdoutLine)
      modifies this
      ensures View() == Step(old(View()), Line(line))
    {
      if pending.None? {
        return;
      }
      var p := pending.value;
      match line {
        case Response(id, success, error) =>
          if id != Some(p.id) {
            return;
          }
          if !success {
            pending := None;
            SettlePrompt(p.id, Rejected(PromptFailed(error)));
            return;
          }
          pending := Some(PendingPrompt(p.id, true));
        case AgentEnd(result) =>
          pending := None;
          SettlePrompt(p.id, Resolved(result));
        case AgentEndFailed(error) =>
          pending := None;
          SettlePrompt(p.id, Rejected(BadReply(error)));
        case OtherLine =>
      }
    }

    /** `prompt` appends a link to the chain. */
    method Prompt()
      modifies `sequence
      ensures View() == Step(old(View()), Event.Prompt)
    {
      sequence := sequence + [Waiting];
    }

    /** The function passed to `sequence.then`, run when the link before it has settled. */
    method TakeTurn()
      modifies this
      ensures View() == Step(old(View()), Turn)
    {
      var n := Frontier(sequence);
      if !(n < |sequence| && (n > 0 ==> sequence[n - 1].Settled())) {
        return;
      }
      if n > 0 && sequence[n - 1].Rejected? {
        sequence := sequence[n := sequence[n - 1]];
        return;
      }
      if closed {
        sequence := sequence[n := Rejected(Unavailable)];
        return;
      }
      requestCount := requestCount + 1;
      var id := requestCount;
      sequence := sequence[n := Started(id)];
      heartbeats := heartbeats + {id};
      timers := timers + {id};
      pending := Some(PendingPrompt(id, false));
      written := written + [id];
    }

    method OnTimer(id: nat)
      requires id in timers
      modifies this
      ensures View() == Step(old(View()), TimerFires(id))
    {
      timers := timers - {id};
      if pending.Some? && pending.value.id == id {
        pending := None;
        heartbeats := heartbeats - {id};
        CloseClient();
        sequence := Settle(sequence, id, Rejected(TimedOut));
      }
    }

    method OnWriteError(id: nat, error: string)
      requires id in written
      modifies this
      ensures View() == Step(old(View()), WriteFails(id, error))
    {
      timers := timers - {id};
      heartbeats := heartbeats - {id};
      if pending.Some? && pending.value.id == id {
        pending := None;
      }
      sequence := Settle(sequence, id, Rejected(WriteFailed(error)));
    }

    method OnProcessClose(error: string)
      modifies this
      ensures View() == Step(old(View()), ProcessClosed(error))
    {
      closed := true;
      RejectPending(ProcessFailed(error));
    }

    method CloseClient()
      modifies `closed
      ensures View() == Step(old(View()), Close)
    {
      if closed {
        return;
      }
      closed := true;
    }

    /** Lets one event happen, if it can. */
    method Handle(e: Event)
      modifies this
      ensures View() == Step(old(View()), e)
    {
      match e {
        case Prompt => Prompt();
        case Turn => TakeTurn();
        case Line(line) => HandleStdoutLine(line);
        case TimerFires(id) =>
          if id in timers {
            OnTimer(id);
          }
        case WriteFails(id, error) =>
          if id in written {
            OnWriteError(id, error);
          }
        case ProcessError(error) => RejectPending(ProcessFailed(error));
        case ProcessClosed(error) => OnProcessClose(error);
        case Close => CloseClient();
      }
    }

    method HandleAll(es: seq<Event>)
      modifies this
      ensures View() == Run(old(View()), es)
    {
      for i := 0 to |es|
        invariant Run(View(), es[i..]) == Run(old(View()), es)
      {
        assert es[i..][0] == es[i] && es[i..][1..] == es[i + 1..];
        Handle(es[i]);
      }
    }
  }

  /** The client's own fields after any sequence of calls and callbacks, and after more of
      them: what has settled stays, and after a rejection nothing more is written. */
  method Interleave(es: seq<Event>, later: seq<Event>) returns (client: PiRpcClient, ghost before: Client)
    ensures before == Run(INITIAL, es) && fresh(client) && client.View() == Run(before, later)
    ensures forall i, j :: 0 <= i < j < |client.sequence| ==> !(client.sequence[i].Started? && client.sequence[j].Started?)
    ensures client.timers == client.heartbeats == if client.pending.Some? then {client.pending.value.id} else {}
    ensures forall i :: 0 <= i < |before.links| && before.links[i].Settled() ==>
              i < |client.sequence| && client.sequence[i] == before.links[i]
    ensures (exists i :: 0 <= i < |before.links| && before.links[i].Rejected?) ==> client.written == before.written
  {
    client := new PiRpcClient();
    client.HandleAll(es);
    before := client.View();
    client.HandleAll(later);
    RunKeeps(INITIAL, es);
    RunKeeps(before, later);
    forall i | 0 <= i < |before.links| && before.links[i].Settled()
      ensures i < |client.sequence| && client.sequence[i] == before.links[i]
    {
      SettlesOnce(before, later, i);
    }
    if i :| 0 <= i < |before.links| && before.links[i].Rejected? {
      NothingAfterRejection(before, later, i);
    }
  }
}
