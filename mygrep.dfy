/** The pipe-based multi-process search: a dispatcher that hands out blocks of the file to a pool
    of workers, throttled by a turn arbiter, and folds the workers' results into statistics. */
module MyGrep {
  import opened Bytes
  import opened Blocks
  import opened Stats
  import opened Options

  // ---------------------------------------------------------------------------
  // Messages
  // ---------------------------------------------------------------------------

  datatype Kind = RequestWork | AssignBlock | ReportResult | FinishWork | WaitTurn

  /** The one message record carried over both pipes. Block times are opaque integers; the start and
      end timestamps of a block only feed the log and are left out. */
  datatype Message = Message(
    kind: Kind,
    pid: int,
    startPos: int,
    endPos: int,
    processTime: int,
    blockTime: int,
    linesFound: int,
    bytesProcessed: int)

  /** The start value of the minimum block time. */
  const MIN_TIME_START: int := 999999

  // The projections, folds and pid lists below mirror those of PsoPr, over this program's own
  // message record.

  function ProcessTimes(rs: seq<Message>): (r: seq<int>)
    ensures |r| == |rs| && forall i :: 0 <= i < |rs| ==> r[i] == rs[i].processTime
  {
    seq(|rs|, i requires 0 <= i < |rs| => rs[i].processTime)
  }

  function BlockTimes(rs: seq<Message>): (r: seq<int>)
    ensures |r| == |rs| && forall i :: 0 <= i < |rs| ==> r[i] == rs[i].blockTime
  {
    seq(|rs|, i requires 0 <= i < |rs| => rs[i].blockTime)
  }

  function LinesReported(rs: seq<Message>): (r: seq<int>)
    ensures |r| == |rs| && forall i :: 0 <= i < |rs| ==> r[i] == rs[i].linesFound
  {
    seq(|rs|, i requires 0 <= i < |rs| => rs[i].linesFound)
  }

  function BytesReported(rs: seq<Message>): (r: seq<int>)
    ensures |r| == |rs| && forall i :: 0 <= i < |rs| ==> r[i] == rs[i].bytesProcessed
  {
    seq(|rs|, i requires 0 <= i < |rs| => rs[i].bytesProcessed)
  }

  // ---------------------------------------------------------------------------
  // The end of the last complete line
  // ---------------------------------------------------------------------------

  /** find_last_complete_line: scans `buffer[..size]` backwards for its last newline and returns
      one past it, or `size` when there is none (so 0 for an empty buffer). */
  method FindLastCompleteLine(buffer: seq<byte>, size: nat) returns (r: int)
    requires size <= |buffer|
    ensures 0 <= r <= size
    ensures (exists k :: 0 <= k < size && buffer[k] == NL) ==>
      0 < r && buffer[r - 1] == NL && forall k :: r <= k < size ==> buffer[k] != NL
    ensures (forall k :: 0 <= k < size ==> buffer[k] != NL) ==> r == size
    ensures r == CompleteLinesEnd(buffer[..size])
  {
    var pos: int := size - 1;
    while pos >= 0 && buffer[pos] != NL
      invariant -1 <= pos < size
      invariant forall k :: pos < k < size ==> buffer[k] != NL
      decreases pos + 1
    {
      pos := pos - 1;
    }
    r := if pos >= 0 then pos + 1 else size;
    LastNewline(buffer, size, r);
  }

  // ---------------------------------------------------------------------------
  // The turn arbiter
  // ---------------------------------------------------------------------------

  /** C's `%`: the remainder takes the sign of the dividend. */
  function CRem(a: int, n: int): (r: int)
    requires n > 0
    ensures a >= 0 ==> 0 <= r < n
    ensures a < 0 ==> -n < r <= 0
  {
    if a >= 0 then a % n else -((-a) % n)
  }

  /** The arbiter's state, with the identity process order that init_turn_control builds. */
  datatype TurnState = TurnState(lastPid: int, currentTurn: int)

  /** is_process_turn's answer: never the pid granted last, otherwise only the pid whose remainder
      modulo the pool size is the process order's entry at the cursor. */
  predicate Grants(s: TurnState, pid: int, n: int)
    requires n > 0
  {
    s.lastPid != pid && s.currentTurn == CRem(pid, n)
  }

  /** is_process_turn's effect: a grant moves the cursor on and records the pid; a denial changes nothing. */
  function AfterRequest(s: TurnState, pid: int, n: int): (r: TurnState)
    requires n > 0
    ensures r == s <==> !Grants(s, pid, n)
    ensures 0 <= s.currentTurn < n ==> 0 <= r.currentTurn < n
  {
    if Grants(s, pid, n) then TurnState(pid, (s.currentTurn + 1) % n) else s
  }

  /** The pids granted, in order, when `requests` reach the arbiter one after another. */
  function GrantedPids(s: TurnState, requests: seq<int>, n: int): (r: seq<int>)
    requires n > 0
    ensures |r| <= |requests|
    decreases |requests|
  {
    if |requests| == 0 then []
    else (if Grants(s, requests[0], n) then [requests[0]] else [])
         + GrantedPids(AfterRequest(s, requests[0], n), requests[1..], n)
  }

  /** Every pid granted is one of the pids that asked. */
  lemma {:induction false} GrantedFromRequests(s: TurnState, requests: seq<int>, n: int)
    requires n > 0
    ensures forall k :: 0 <= k < |GrantedPids(s, requests, n)| ==> GrantedPids(s, requests, n)[k] in requests
    decreases |requests|
  {
    if |requests| > 0 {
      GrantedFromRequests(AfterRequest(s, requests[0], n), requests[1..], n);
      var rest := GrantedPids(AfterRequest(s, requests[0], n), requests[1..], n);
      forall k | 0 <= k < |rest| ensures rest[k] in requests {
        assert rest[k] in requests[1..];
      }
    }
  }

  /** Round robin: the first grant goes to the pid at the cursor, each later grant to the pid whose
      remainder follows the previous one's cyclically, and no pid is granted twice in a row. */
  lemma {:induction false} RoundRobin(s: TurnState, requests: seq<int>, n: int)
    requires n > 0 && 0 <= s.currentTurn < n
    ensures var g := GrantedPids(s, requests, n);
      && (|g| > 0 ==> CRem(g[0], n) == s.currentTurn && g[0] != s.lastPid)
      && (forall k :: 0 < k < |g| ==> CRem(g[k], n) == (CRem(g[k - 1], n) + 1) % n && g[k] != g[k - 1])
    decreases |requests|
  {
    if |requests| > 0 {
      var p := requests[0];
      var s' := AfterRequest(s, p, n);
      RoundRobin(s', requests[1..], n);
      var rest := GrantedPids(s', requests[1..], n);
      if Grants(s, p, n) {
        var g := [p] + rest;
        assert GrantedPids(s, requests, n) == g;
        forall k | 0 < k < |g| ensures CRem(g[k], n) == (CRem(g[k - 1], n) + 1) % n && g[k] != g[k - 1] {
          if k == 1 {
            assert g[1] == rest[0];
          } else {
            assert g[k] == rest[k - 1] && g[k - 1] == rest[k - 2];
          }
        }
      }
    }
  }

  /** The turn control record: the last pid granted, the cursor, and the process order. */
  class TurnControl {
    var lastPid: int
    var currentTurn: int
    const processOrder: array<int>

    /** The order is the identity and the cursor indexes it. */
    ghost predicate Valid()
      reads this, processOrder
    {
      && (forall i :: 0 <= i < processOrder.Length ==> processOrder[i] == i)
      && 0 <= currentTurn
      && (processOrder.Length > 0 ==> currentTurn < processOrder.Length)
    }

    function State(): TurnState
      reads this
    {
      TurnState(lastPid, currentTurn)
    }

    /** init_turn_control: identity order of the pool's size (none for a size that is not
        positive), cursor 0, no pid granted yet (0). */
    constructor (numProcesses: int)
      ensures Valid() && fresh(processOrder)
      ensures processOrder.Length == if numProcesses > 0 then numProcesses else 0
      ensures forall i :: 0 <= i < processOrder.Length ==> processOrder[i] == i
      ensures currentTurn == 0 && lastPid == 0
    {
      var order := new int[if numProcesses > 0 then numProcesses else 0];
      var i := 0;
      while i < order.Length
        invariant 0 <= i <= order.Length
        invariant forall k :: 0 <= k < i ==> order[k] == k
      {
        order[i] := i;
        i := i + 1;
      }
      lastPid := 0;
      currentTurn := 0;
      processOrder := order;
    }

    /** is_process_turn. */
    method IsProcessTurn(pid: int, numProcesses: int) returns (granted: bool)
      requires Valid() && numProcesses > 0 && processOrder.Length == numProcesses
      modifies this
      ensures Valid()
      ensures granted == Grants(old(State()), pid, numProcesses)
      ensures State() == AfterRequest(old(State()), pid, numProcesses)
      ensures granted ==> pid != old(lastPid) && processOrder[old(currentTurn)] == CRem(pid, numProcesses)
      ensures granted ==> currentTurn == (old(currentTurn) + 1) % numProcesses && lastPid == pid
      ensures !granted ==> currentTurn == old(currentTurn) && lastPid == old(lastPid)
    {
      if lastPid == pid {
        return false;
      }
      if processOrder[currentTurn] == CRem(pid, numProcesses) {
        currentTurn := (currentTurn + 1) % numProcesses;
        lastPid := pid;
        return true;
      }
      return false;
    }

    /** The arbiter with the repeated-pid check confined to pools of more than one process: a pool
        of one then gets every request granted. */
    method IsProcessTurnCorrected(pid: int, numProcesses: int) returns (granted: bool)
      requires Valid() && numProcesses > 0 && processOrder.Length == numProcesses
      modifies this
      ensures Valid()
      ensures granted == GrantsCorrected(old(State()), pid, numProcesses)
      ensures State() == AfterRequestCorrected(old(State()), pid, numProcesses)
    {
      if numProcesses > 1 && lastPid == pid {
        return false;
      }
      if processOrder[currentTurn] == CRem(pid, numProcesses) {
        currentTurn := (currentTurn + 1) % numProcesses;
        lastPid := pid;
        return true;
      }
      return false;
    }
  }

  /** With a pool of one, once the only worker has been granted a turn, it is never granted another:
      every later request of its is denied and leaves the arbiter as it was. */
  lemma {:induction false} SinglePoolStarves(pid: int, requests: seq<int>)
    requires forall k :: 0 <= k < |requests| ==> requests[k] == pid
    ensures GrantedPids(TurnState(pid, 0), requests, 1) == []
    decreases |requests|
  {
    if |requests| > 0 {
      assert !Grants(TurnState(pid, 0), pid, 1);
      SinglePoolStarves(pid, requests[1..]);
    }
  }

  /** The concrete case: one worker of pid 1000 asking three times from the initial state gets only
      the first turn, so with a file of more than BUFFER_SIZE bytes its later requests get WAIT_TURN
      for ever. */
  lemma SinglePoolExample()
    ensures GrantedPids(TurnState(0, 0), [1000, 1000, 1000], 1) == [1000]
  {
    assert Grants(TurnState(0, 0), 1000, 1);
    assert AfterRequest(TurnState(0, 0), 1000, 1) == TurnState(1000, 0);
    SinglePoolStarves(1000, [1000, 1000]);
    assert [1000, 1000, 1000][1..] == [1000, 1000];
  }

  /** A turn goes by remainder, not by place in the pool: when no pid that asks has the remainder
      the cursor points at, every request is denied and the arbiter never moves again. */
  lemma {:induction false} MissingRemainderStalls(s: TurnState, requests: seq<int>, n: int)
    requires n > 0
    requires forall k :: 0 <= k < |requests| ==> CRem(requests[k], n) != s.currentTurn
    ensures GrantedPids(s, requests, n) == []
    ensures TurnAfter(s, requests, n) == s
    decreases |requests|
  {
    if |requests| > 0 {
      assert !Grants(s, requests[0], n);
      MissingRemainderStalls(s, requests[1..], n);
    }
  }

  /** The concrete case: two workers of pids 1000 and 1002 share the remainder 0 modulo 2. After the
      first grant the cursor is 1, which neither has, so no later request is granted. */
  lemma RemainderCollisionExample(requests: seq<int>)
    requires forall k :: 0 <= k < |requests| ==> requests[k] in {1000, 1002}
    ensures GrantedPids(TurnState(0, 0), [1000] + requests, 2) == [1000]
  {
    var all := [1000] + requests;
    assert all[0] == 1000 && all[1..] == requests;
    assert CRem(1000, 2) == 0 && CRem(1002, 2) == 0;
    var after := AfterRequest(TurnState(0, 0), 1000, 2);
    assert after == TurnState(1000, 1);
    forall k | 0 <= k < |requests| ensures CRem(requests[k], 2) != after.currentTurn { }
    MissingRemainderStalls(after, requests, 2);
    assert GrantedPids(TurnState(0, 0), all, 2) == [1000] + GrantedPids(after, requests, 2);
  }


  predicate GrantsCorrected(s: TurnState, pid: int, n: int)
    requires n > 0
  {
    (n == 1 || s.lastPid != pid) && s.currentTurn == CRem(pid, n)
  }

  function AfterRequestCorrected(s: TurnState, pid: int, n: int): TurnState
    requires n > 0
  {
    if GrantsCorrected(s, pid, n) then TurnState(pid, (s.currentTurn + 1) % n) else s
  }

  function GrantedPidsCorrected(s: TurnState, requests: seq<int>, n: int): seq<int>
    requires n > 0
    decreases |requests|
  {
    if |requests| == 0 then []
    else (if GrantsCorrected(s, requests[0], n) then [requests[0]] else [])
         + GrantedPidsCorrected(AfterRequestCorrected(s, requests[0], n), requests[1..], n)
  }

  /** The corrected arbiter grants a pool of one every request it gets, and for larger pools it
      answers exactly as is_process_turn does. */
  lemma {:induction false} CorrectedArbiter(s: TurnState, requests: seq<int>, n: int)
    requires n > 0
    requires n == 1 ==> s.currentTurn == 0
    ensures n == 1 ==> GrantedPidsCorrected(s, requests, n) == requests
    ensures n > 1 ==> GrantedPidsCorrected(s, requests, n) == GrantedPids(s, requests, n)
    decreases |requests|
  {
    if |requests| > 0 {
      CorrectedArbiter(AfterRequestCorrected(s, requests[0], n), requests[1..], n);
      if n == 1 {
        assert [requests[0]] + requests[1..] == requests;
      }
    }
  }

  // ---------------------------------------------------------------------------
  // The dispatcher
  // ---------------------------------------------------------------------------

  /** The parent process's loop: the cursor into the file, the count of children still to be told
      to finish, the arbiter, and the statistics. `spans` and `results` record what was handed out
      and what was folded in. */
  class Dispatcher {
    const fileSize: nat
    const numProcesses: int
    const tc: TurnControl
    var nextPos: nat
    var activeChildren: int
    var totalTime: int
    var maxTime: int
    var minTime: int
    var bytesProcessed: int
    var totalMatches: int
    ghost var spans: seq<Span>
    ghost var results: seq<Message>

    /** The spans handed out so far are the first ones of the file's partition and tile [0, nextPos);
        children are told to finish only once the file is used up; the statistics are the folds of
        the results. */
    ghost predicate Valid()
      reads this, tc, tc.processOrder
    {
      HandedOut() && Tallied()
    }

    /** The hand-out half of Valid: the arbiter, the cursor, the spans and the active children. */
    ghost predicate HandedOut()
      reads this`nextPos, this`spans, this`activeChildren, tc, tc.processOrder
    {
      && tc.Valid()
      && tc.processOrder.Length == (if numProcesses > 0 then numProcesses else 0)
      && nextPos <= fileSize
      && spans + SpansFrom(nextPos, fileSize) == AllSpans(fileSize)
      && Contiguous(spans, 0, nextPos)
      && activeChildren <= numProcesses
      && (activeChildren < numProcesses ==> nextPos == fileSize)
    }

    /** The statistics half of Valid: every statistic is the fold of the results. */
    ghost predicate Tallied()
      reads this`results, this`totalTime, this`bytesProcessed, this`totalMatches, this`maxTime, this`minTime
    {
      && totalTime == Sum(ProcessTimes(results))
      && bytesProcessed == Sum(BytesReported(results))
      && totalMatches == Sum(LinesReported(results))
      && maxTime == RunningMax(0, BlockTimes(results))
      && minTime == RunningMin(MIN_TIME_START, BlockTimes(results))
    }

    /** The state before the first message: statistics zeroed except the minimum, a fresh arbiter,
        the cursor at 0 and every child active. */
    constructor (fileSize: nat, numProcesses: int)
      ensures Valid() && fresh(tc) && fresh(tc.processOrder)
      ensures this.fileSize == fileSize && this.numProcesses == numProcesses
      ensures nextPos == 0 && activeChildren == numProcesses
      ensures tc.State() == TurnState(0, 0)
      ensures spans == [] && results == []
      ensures totalTime == 0 && maxTime == 0 && minTime == MIN_TIME_START
      ensures bytesProcessed == 0 && totalMatches == 0
    {
      this.fileSize := fileSize;
      this.numProcesses := numProcesses;
      tc := new TurnControl(numProcesses);
      nextPos := 0;
      activeChildren := numProcesses;
      totalTime, maxTime, minTime := 0, 0, MIN_TIME_START;
      bytesProcessed, totalMatches := 0, 0;
      spans, results := [], [];
    }

    /** A REQUEST_WORK: FINISH_WORK once the file is used up, otherwise WAIT_TURN when the arbiter
        denies the turn and ASSIGN_BLOCK for the next span when it grants it. The reply is the
        request record with its type (and, for an assignment, its span) overwritten. */
    method HandleRequest(msg: Message) returns (reply: Message)
      requires Valid() && activeChildren > 0 && msg.kind == RequestWork
      modifies this, tc
      ensures Valid()
      ensures reply.pid == msg.pid && nextPos >= old(nextPos)
      ensures old(nextPos) >= fileSize ==>
        && reply == msg.(kind := FinishWork)
        && activeChildren == old(activeChildren) - 1
        && nextPos == old(nextPos) && spans == old(spans) && tc.State() == old(tc.State())
      ensures old(nextPos) < fileSize && !Grants(old(tc.State()), msg.pid, numProcesses) ==>
        && reply == msg.(kind := WaitTurn)
        && activeChildren == old(activeChildren)
        && nextPos == old(nextPos) && spans == old(spans) && tc.State() == old(tc.State())
      ensures old(nextPos) < fileSize && Grants(old(tc.State()), msg.pid, numProcesses) ==>
        && reply == msg.(kind := AssignBlock, startPos := old(nextPos), endPos := NextSpan(old(nextPos), fileSize).end)
        && activeChildren == old(activeChildren)
        && nextPos == reply.endPos
        && spans == old(spans) + [NextSpan(old(nextPos), fileSize)]
        && tc.State() == AfterRequest(old(tc.State()), msg.pid, numProcesses)
      ensures results == old(results)
      ensures totalTime == old(totalTime) && maxTime == old(maxTime) && minTime == old(minTime)
      ensures bytesProcessed == old(bytesProcessed) && totalMatches == old(totalMatches)
    {
      if nextPos < fileSize {
        var granted := tc.IsProcessTurn(msg.pid, numProcesses);
        if !granted {
          reply := msg.(kind := WaitTurn);
          return;
        }
        var endPos := nextPos + BUFFER_SIZE;
        if endPos > fileSize {
          endPos := fileSize;
        }
        var sp := Span(nextPos, endPos);
        assert sp == NextSpan(nextPos, fileSize);
        reply := msg.(kind := AssignBlock, startPos := nextPos, endPos := endPos);
        ContiguousExtend(spans, 0, nextPos, sp);
        assert SpansFrom(nextPos, fileSize) == [sp] + SpansFrom(endPos, fileSize);
        assert spans + [sp] + SpansFrom(endPos, fileSize) == spans + SpansFrom(nextPos, fileSize);
        spans := spans + [sp];
        nextPos := endPos;
      } else {
        reply := msg.(kind := FinishWork);
        activeChildren := activeChildren - 1;
      }
    }

    /** A REPORT_RESULT: sums the process time, the bytes and the matches, and keeps the running
        maximum and minimum of the block time. Nothing else changes. */
    method HandleResult(msg: Message)
      requires Valid() && msg.kind == ReportResult
      modifies this
      ensures Valid()
      ensures results == old(results) + [msg]
      ensures totalTime == old(totalTime) + msg.processTime
      ensures bytesProcessed == old(bytesProcessed) + msg.bytesProcessed
      ensures totalMatches == old(totalMatches) + msg.linesFound
      ensures maxTime == if msg.blockTime > old(maxTime) then msg.blockTime else old(maxTime)
      ensures minTime == if msg.blockTime < old(minTime) then msg.blockTime else old(minTime)
      ensures nextPos == old(nextPos) && activeChildren == old(activeChildren) && spans == old(spans)
    {
      FoldResult(results, msg);
      var newMax := if msg.blockTime > maxTime then msg.blockTime else maxTime;
      var newMin := if msg.blockTime < minTime then msg.blockTime else minTime;
      totalTime, bytesProcessed, totalMatches := totalTime + msg.processTime, bytesProcessed + msg.bytesProcessed, totalMatches + msg.linesFound;
      maxTime, minTime := newMax, newMin;
      results := results + [msg];
      assert HandedOut();
      assert Tallied();
    }

    /** The ledger now, for children counted from `active0`. */
    ghost function Now(active0: int): Ledger
      reads this, tc
    {
      Ledger(tc.State(), nextPos, active0 - activeChildren)
    }

    /** The `replies` so far are the replay from `start` and bring the ledger to the current state. */
    ghost predicate Replays(replies: seq<Message>, start: Ledger, active0: int)
      reads this, tc
    {
      Replayed(replies, start, Now(active0), fileSize, numProcesses)
    }

    /** One iteration of the loop: a request gets FINISH_WORK, WAIT_TURN or ASSIGN_BLOCK exactly as
        HandleRequest decides, a result is folded in, and any other message type is ignored. */
    method Step(msg: Message, ghost replies: seq<Message>, ghost start: Ledger, ghost active0: int)
      returns (reply: Option<Message>)
      requires Valid() && activeChildren > 0
      requires Replays(replies, start, active0)
      modifies this, tc
      ensures Valid()
      ensures reply.Some? <==> msg.kind == RequestWork
      ensures reply.Some? ==> reply.value.kind in {AssignBlock, WaitTurn, FinishWork}
      ensures msg.kind == RequestWork && old(nextPos) >= fileSize ==>
        && reply == Some(msg.(kind := FinishWork))
        && activeChildren == old(activeChildren) - 1
        && nextPos == old(nextPos) && spans == old(spans)
      ensures msg.kind == RequestWork && old(nextPos) < fileSize && !Grants(old(tc.State()), msg.pid, numProcesses) ==>
        && reply == Some(msg.(kind := WaitTurn))
        && activeChildren == old(activeChildren)
        && nextPos == old(nextPos) && spans == old(spans)
      ensures msg.kind == RequestWork && old(nextPos) < fileSize && Grants(old(tc.State()), msg.pid, numProcesses) ==>
        && reply == Some(msg.(kind := AssignBlock, startPos := old(nextPos), endPos := NextSpan(old(nextPos), fileSize).end))
        && activeChildren == old(activeChildren)
        && nextPos == NextSpan(old(nextPos), fileSize).end
        && spans == old(spans) + [NextSpan(old(nextPos), fileSize)]
      ensures msg.kind != RequestWork ==>
        nextPos == old(nextPos) && activeChildren == old(activeChildren) && spans == old(spans)
      ensures msg.kind == ReportResult ==>
        && results == old(results) + [msg]
        && totalTime == old(totalTime) + msg.processTime
        && bytesProcessed == old(bytesProcessed) + msg.bytesProcessed
        && totalMatches == old(totalMatches) + msg.linesFound
        && maxTime == (if msg.blockTime > old(maxTime) then msg.blockTime else old(maxTime))
        && minTime == (if msg.blockTime < old(minTime) then msg.blockTime else old(minTime))
      ensures msg.kind != ReportResult ==>
        && results == old(results)
        && totalTime == old(totalTime) && maxTime == old(maxTime) && minTime == old(minTime)
        && bytesProcessed == old(bytesProcessed) && totalMatches == old(totalMatches)
      ensures tc.State() ==
        if msg.kind == RequestWork && old(nextPos) < fileSize && Grants(old(tc.State()), msg.pid, numProcesses)
        then AfterRequest(old(tc.State()), msg.pid, numProcesses)
        else old(tc.State())
      ensures Replays(replies + Elems(reply), start, active0)
      ensures Pids(Elems(reply)) == Pids(RequestIn(msg))
      ensures Bounds(spans) == Bounds(old(spans)) + Assigned(Elems(reply))
      ensures results == old(results) + ReportIn(msg)
    {
      ghost var ledger := Now(active0);
      if msg.kind == RequestWork {
        ghost var before := spans;
        var r := HandleRequest(msg);
        reply := Some(r);
        if r.kind == AssignBlock {
          BoundsSnoc(before, NextSpan(ledger.cursor, fileSize));
        }
        assert Elems(reply) == [r];
        OneReply(r);
      } else {
        if msg.kind == ReportResult {
          HandleResult(msg);
        }
        reply := None;
      }
      ReplayReply(replies, reply, start, ledger, Now(active0), fileSize, numProcesses);
    }

    /** One turn of the loop in Run: the next message is handled and its reply, if any, written. */
    method Serve(inbox: seq<Message>, handled: nat, replies: seq<Message>, ghost spans0: seq<Span>,
                 ghost results0: seq<Message>, ghost start: Ledger, ghost active0: int)
      returns (written: seq<Message>)
      requires Valid() && activeChildren > 0 && handled < |inbox|
      requires Accounted(inbox[..handled], replies, spans0, spans, results0, results)
      requires Replays(replies, start, active0)
      modifies this, tc
      ensures Valid() && nextPos >= old(nextPos)
      ensures Accounted(inbox[..handled + 1], written, spans0, spans, results0, results)
      ensures Replays(written, start, active0)
    {
      ghost var spansBefore, resultsBefore := spans, results;
      var reply := Step(inbox[handled], replies, start, active0);
      PrefixSnoc(inbox, handled);
      AccountedStep(inbox[..handled], inbox[handled], replies, Elems(reply), spans0, spansBefore, spans, results0, resultsBefore, results);
      written := replies + Elems(reply);
    }

    /** The loop `while (active_children > 0)` over the messages that arrive on the request pipe, in
        order. It stops when every child has been told to finish or the messages run out. The
        messages handled are Accounted for: one reply per request, in order and to the requesting
        pid; the ASSIGN_BLOCK replies carry, in order, exactly the spans handed out during the run;
        the results folded in are the results among the messages handled. Once every child has
        been told to finish, the spans are the whole partition: every byte of the file went out in
        exactly one block. */
    method Run(inbox: seq<Message>) returns (replies: seq<Message>, handled: nat)
      requires Valid()
      modifies this, tc
      ensures Valid()
      ensures handled <= |inbox|
      ensures handled < |inbox| ==> activeChildren <= 0
      ensures nextPos >= old(nextPos)
      ensures Accounted(inbox[..handled], replies, old(spans), spans, old(results), results)
      ensures Replays(replies, old(Now(activeChildren)), old(activeChildren))
      ensures totalMatches == Sum(LinesReported(results)) && bytesProcessed == Sum(BytesReported(results))
      ensures totalTime == Sum(ProcessTimes(results))
      ensures maxTime == RunningMax(0, BlockTimes(results)) && minTime == RunningMin(MIN_TIME_START, BlockTimes(results))
      ensures activeChildren <= 0 < numProcesses ==>
        nextPos == fileSize && spans == AllSpans(fileSize) && Contiguous(spans, 0, fileSize)
    {
      replies := [];
      handled := 0;
      ReplayStart(Now(activeChildren), fileSize, numProcesses);
      AccountedStart(inbox, spans, results);
      while activeChildren > 0 && handled < |inbox|
        invariant Valid()
        invariant handled <= |inbox|
        invariant nextPos >= old(nextPos)
        invariant Accounted(inbox[..handled], replies, old(spans), spans, old(results), results)
        invariant Replays(replies, old(Now(activeChildren)), old(activeChildren))
        decreases |inbox| - handled
      {
        replies := Serve(inbox, handled, replies, old(spans), old(results), old(Now(activeChildren)), old(activeChildren));
        handled := handled + 1;
      }
      if activeChildren <= 0 < numProcesses {
        assert SpansFrom(fileSize, fileSize) == [];
        assert spans + [] == spans;
      }
    }
  }

  /** Folding one more result record into the statistics (as PsoPr.FoldResult does for its record). */
  lemma FoldResult(results: seq<Message>, msg: Message)
    ensures Sum(ProcessTimes(results + [msg])) == Sum(ProcessTimes(results)) + msg.processTime
    ensures Sum(BytesReported(results + [msg])) == Sum(BytesReported(results)) + msg.bytesProcessed
    ensures Sum(LinesReported(results + [msg])) == Sum(LinesReported(results)) + msg.linesFound
    ensures var m := RunningMax(0, BlockTimes(results));
      RunningMax(0, BlockTimes(results + [msg])) == if msg.blockTime > m then msg.blockTime else m
    ensures var m := RunningMin(MIN_TIME_START, BlockTimes(results));
      RunningMin(MIN_TIME_START, BlockTimes(results + [msg])) == if msg.blockTime < m then msg.blockTime else m
  {
    assert ProcessTimes(results + [msg]) == ProcessTimes(results) + [msg.processTime];
    assert BytesReported(results + [msg]) == BytesReported(results) + [msg.bytesProcessed];
    assert LinesReported(results + [msg]) == LinesReported(results) + [msg.linesFound];
    assert BlockTimes(results + [msg]) == BlockTimes(results) + [msg.blockTime];
    FoldOneMore(ProcessTimes(results), msg.processTime, 0, MIN_TIME_START);
    FoldOneMore(BytesReported(results), msg.bytesProcessed, 0, MIN_TIME_START);
    FoldOneMore(LinesReported(results), msg.linesFound, 0, MIN_TIME_START);
    FoldOneMore(BlockTimes(results), msg.blockTime, 0, MIN_TIME_START);
  }

  /** `msg` when it is a work request, and nothing otherwise. */
  function RequestIn(msg: Message): seq<Message>
  {
    if msg.kind == RequestWork then [msg] else []
  }

  /** `msg` when it is a result, and nothing otherwise. */
  function ReportIn(msg: Message): seq<Message>
  {
    if msg.kind == ReportResult then [msg] else []
  }

  /** The work requests among `msgs`, in order. */
  function Requests(msgs: seq<Message>): (r: seq<Message>)
    ensures |r| <= |msgs|
    ensures forall k :: 0 <= k < |r| ==> r[k].kind == RequestWork
  {
    if |msgs| == 0 then []
    else Requests(msgs[..|msgs| - 1]) + RequestIn(msgs[|msgs| - 1])
  }

  /** The results among `msgs`, in order. */
  function Reports(msgs: seq<Message>): (r: seq<Message>)
    ensures |r| <= |msgs|
    ensures forall k :: 0 <= k < |r| ==> r[k].kind == ReportResult
  {
    if |msgs| == 0 then []
    else Reports(msgs[..|msgs| - 1]) + ReportIn(msgs[|msgs| - 1])
  }

  /** The pids `msgs` carry, in order (as PsoPr.Pids). */
  function Pids(msgs: seq<Message>): (r: seq<int>)
    ensures |r| == |msgs| && forall i :: 0 <= i < |msgs| ==> r[i] == msgs[i].pid
  {
    seq(|msgs|, i requires 0 <= i < |msgs| => msgs[i].pid)
  }

  /** The (start, end) pairs of the ASSIGN_BLOCK replies among `replies`, in order. */
  function Assigned(replies: seq<Message>): seq<(int, int)>
  {
    if |replies| == 0 then []
    else
      var r := replies[|replies| - 1];
      Assigned(replies[..|replies| - 1]) + (if r.kind == AssignBlock then [(r.startPos, r.endPos)] else [])
  }

  /** What a stretch of the dispatcher loop owes the messages it `handled`: one reply per request,
      in order and to the requesting pid, each one of the three reply kinds; the ASSIGN_BLOCK
      replies carry, in order, the spans added after `spans0`; the results added after `results0`
      are the results among the messages handled. */
  ghost predicate Accounted(handled: seq<Message>, replies: seq<Message>, spans0: seq<Span>, spans: seq<Span>,
                            results0: seq<Message>, results: seq<Message>)
  {
    && Pids(replies) == Pids(Requests(handled))
    && (forall k :: 0 <= k < |replies| ==> replies[k].kind in {AssignBlock, WaitTurn, FinishWork})
    && Bounds(spans) == Bounds(spans0) + Assigned(replies)
    && results == results0 + Reports(handled)
  }

  /** Before any message is handled nothing is accounted for. */
  lemma AccountedStart(inbox: seq<Message>, spans: seq<Span>, results: seq<Message>)
    ensures Accounted(inbox[..0], [], spans, spans, results, results)
  {
    assert inbox[..0] == [];
  }

  /** A single reply's pid and span. */
  lemma OneReply(r: Message)
    ensures Pids([r]) == [r.pid]
    ensures Assigned([r]) == if r.kind == AssignBlock then [(r.startPos, r.endPos)] else []
  {
    assert [r][..0] == [];
  }

  /** The pids of two runs of messages, one after the other (as PsoPr.PidsAppend). */
  lemma PidsAppend(a: seq<Message>, b: seq<Message>)
    ensures Pids(a + b) == Pids(a) + Pids(b)
  {
    assert forall i :: 0 <= i < |b| ==> (a + b)[|a| + i] == b[i];
  }

  /** Handling one more message `m`, with at most one reply `more` for it, keeps the account. */
  lemma AccountedStep(handled: seq<Message>, m: Message, replies: seq<Message>, more: seq<Message>,
                      spans0: seq<Span>, spansBefore: seq<Span>, spans: seq<Span>,
                      results0: seq<Message>, resultsBefore: seq<Message>, results: seq<Message>)
    requires Accounted(handled, replies, spans0, spansBefore, results0, resultsBefore)
    requires |more| <= 1 && Pids(more) == Pids(RequestIn(m))
    requires forall k :: 0 <= k < |more| ==> more[k].kind in {AssignBlock, WaitTurn, FinishWork}
    requires Bounds(spans) == Bounds(spansBefore) + Assigned(more)
    requires results == resultsBefore + ReportIn(m)
    ensures Accounted(handled + [m], replies + more, spans0, spans, results0, results)
  {
    RepliedStep(handled, m, replies, more);
    AssignedStep(replies, more, spans0, spansBefore, spans);
    MessageAppended(handled, m);
    ConcatAssoc(results0, Reports(handled), ReportIn(m));
  }

  /** The replies stay one per request, in order, to the requesting pid, and of the three kinds. */
  lemma RepliedStep(handled: seq<Message>, m: Message, replies: seq<Message>, more: seq<Message>)
    requires Pids(replies) == Pids(Requests(handled))
    requires Pids(more) == Pids(RequestIn(m))
    requires forall k :: 0 <= k < |replies| ==> replies[k].kind in {AssignBlock, WaitTurn, FinishWork}
    requires forall k :: 0 <= k < |more| ==> more[k].kind in {AssignBlock, WaitTurn, FinishWork}
    ensures Pids(replies + more) == Pids(Requests(handled + [m]))
    ensures forall k :: 0 <= k < |replies + more| ==> (replies + more)[k].kind in {AssignBlock, WaitTurn, FinishWork}
  {
    MessageAppended(handled, m);
    PidsAppend(Requests(handled), RequestIn(m));
    PidsAppend(replies, more);
  }

  /** The assignments carry the spans handed out, in order. */
  lemma AssignedStep(replies: seq<Message>, more: seq<Message>, spans0: seq<Span>, spansBefore: seq<Span>, spans: seq<Span>)
    requires |more| <= 1
    requires Bounds(spansBefore) == Bounds(spans0) + Assigned(replies)
    requires Bounds(spans) == Bounds(spansBefore) + Assigned(more)
    ensures Bounds(spans) == Bounds(spans0) + Assigned(replies + more)
  {
    AssignedAppend(replies, more);
    ConcatAssoc(Bounds(spans0), Assigned(replies), Assigned(more));
  }

  /** Taking in one more message adds it to the requests or the results when it is one. */
  lemma MessageAppended(handled: seq<Message>, m: Message)
    ensures Requests(handled + [m]) == Requests(handled) + RequestIn(m)
    ensures Reports(handled + [m]) == Reports(handled) + ReportIn(m)
  {
    assert (handled + [m])[..|handled|] == handled;
  }

  /** Writing at most one more reply adds its span when it is an assignment. */
  lemma AssignedAppend(replies: seq<Message>, more: seq<Message>)
    requires |more| <= 1
    ensures Assigned(replies + more) == Assigned(replies) + Assigned(more)
  {
    if |more| == 0 {
      assert replies + more == replies;
    } else {
      assert (replies + more)[..|replies|] == replies;
      assert more[..0] == [];
    }
  }

  /** The arbiter's state after `requests` reach it one after another. */
  function TurnAfter(s: TurnState, requests: seq<int>, n: int): TurnState
    requires n > 0
    decreases |requests|
  {
    if |requests| == 0 then s else TurnAfter(AfterRequest(s, requests[0], n), requests[1..], n)
  }

  /** One more request at the arbiter: its state and its grants extend by that one request. */
  lemma {:induction false} TurnAfterSnoc(s: TurnState, requests: seq<int>, p: int, n: int)
    requires n > 0
    ensures TurnAfter(s, requests + [p], n) == AfterRequest(TurnAfter(s, requests, n), p, n)
    ensures GrantedPids(s, requests + [p], n) ==
      GrantedPids(s, requests, n) + (if Grants(TurnAfter(s, requests, n), p, n) then [p] else [])
    decreases |requests|
  {
    if |requests| == 0 {
      assert [p][1..] == [];
    } else {
      var s' := AfterRequest(s, requests[0], n);
      assert (requests + [p])[0] == requests[0] && (requests + [p])[1..] == requests[1..] + [p];
      TurnAfterSnoc(s', requests[1..], p, n);
      ConcatAssoc(if Grants(s, requests[0], n) then [requests[0]] else [], GrantedPids(s', requests[1..], n),
                  if Grants(TurnAfter(s', requests[1..], n), p, n) then [p] else []);
    }
  }

  /** The pid of a reply the arbiter was consulted for: every reply but FINISH_WORK. */
  function ConsultedIn(r: Message): seq<int>
  {
    if r.kind != FinishWork then [r.pid] else []
  }

  /** The pid of an ASSIGN_BLOCK reply. */
  function GrantedIn(r: Message): seq<int>
  {
    if r.kind == AssignBlock then [r.pid] else []
  }

  /** The pids of the requests among `replies` that reached the arbiter, in order. */
  function Consulted(replies: seq<Message>): seq<int>
  {
    if |replies| == 0 then [] else Consulted(replies[..|replies| - 1]) + ConsultedIn(replies[|replies| - 1])
  }

  /** The pids of the ASSIGN_BLOCK replies, in order. */
  function AssignedPids(replies: seq<Message>): seq<int>
  {
    if |replies| == 0 then [] else AssignedPids(replies[..|replies| - 1]) + GrantedIn(replies[|replies| - 1])
  }

  /** The number of FINISH_WORK replies (as PsoPr.Finished over its queue messages). */
  function Finished(replies: seq<Message>): nat
  {
    if |replies| == 0 then 0
    else Finished(replies[..|replies| - 1]) + (if replies[|replies| - 1].kind == FinishWork then 1 else 0)
  }

  /** The dispatcher loop's bookkeeping between two messages: the arbiter's state, the cursor into
      the file, and the number of children told to finish. */
  datatype Ledger = Ledger(turn: TurnState, cursor: int, finished: int)

  /** The reply kind the loop owes a request from `pid` in a file of `size` bytes: FINISH_WORK once
      the cursor is at the end, otherwise ASSIGN_BLOCK or WAIT_TURN as the arbiter grants or denies
      the turn. */
  function Owed(l: Ledger, pid: int, size: nat, n: int): Kind
    requires n > 0
  {
    if l.cursor >= size then FinishWork else if Grants(l.turn, pid, n) then AssignBlock else WaitTurn
  }

  /** The ledger after the reply `r`: an assignment moves the arbiter on and the cursor one block
      on (to the end of the file at most), a FINISH_WORK counts one more finished child, and a
      WAIT_TURN changes nothing. */
  function Booked(l: Ledger, r: Message, size: nat, n: int): Ledger
    requires n > 0
  {
    Ledger(if r.kind == AssignBlock then AfterRequest(l.turn, r.pid, n) else l.turn,
           if r.kind != AssignBlock then l.cursor
           else if l.cursor + BUFFER_SIZE > size then size else l.cursor + BUFFER_SIZE,
           if r.kind == FinishWork then l.finished + 1 else l.finished)
  }

  /** The reference for the loop's replies: starting from the ledger `start`, each reply must be
      the one owed to its request, and the ledger is booked reply by reply. None when some reply is
      not the one owed. */
  function Replay(replies: seq<Message>, start: Ledger, size: nat, n: int): Option<Ledger>
    requires n > 0
  {
    if |replies| == 0 then Some(start)
    else
      var last := replies[|replies| - 1];
      match Replay(replies[..|replies| - 1], start, size, n)
      case None => None
      case Some(l) => if last.kind == Owed(l, last.pid, size, n) then Some(Booked(l, last, size, n)) else None
  }

  /** The `replies` are the replay from `start` and bring the ledger to `now`; a pool that is not
      positive answers nothing. */
  ghost predicate Replayed(replies: seq<Message>, start: Ledger, now: Ledger, size: nat, n: int)
  {
    if n > 0 then Replay(replies, start, size, n) == Some(now) else replies == [] && now == start
  }

  /** Before the first reply the ledger is where it started. */
  lemma ReplayStart(start: Ledger, size: nat, n: int)
    ensures Replayed([], start, start, size, n)
  {
  }

  /** One more message: the ledger goes from `before` to `after`, with the reply (if any) the one
      owed and booked. */
  lemma ReplayReply(replies: seq<Message>, reply: Option<Message>, start: Ledger, before: Ledger, after: Ledger,
                    size: nat, n: int)
    requires Replayed(replies, start, before, size, n)
    requires reply.None? ==> after == before
    requires reply.Some? ==> n > 0 && reply.value.kind == Owed(before, reply.value.pid, size, n)
                             && after == Booked(before, reply.value, size, n)
    ensures Replayed(replies + Elems(reply), start, after, size, n)
  {
    if reply.Some? {
      assert (replies + Elems(reply))[..|replies|] == replies;
    } else {
      assert replies + Elems(reply) == replies;
    }
  }

  /** Every reply of a replay is the one owed given the ledger of the replies before it. */
  lemma {:induction false} ReplayAt(replies: seq<Message>, start: Ledger, size: nat, n: int, k: nat)
    requires n > 0 && Replay(replies, start, size, n).Some? && k < |replies|
    ensures Replay(replies[..k], start, size, n).Some?
    ensures replies[k].kind == Owed(Replay(replies[..k], start, size, n).value, replies[k].pid, size, n)
    ensures Replay(replies[..k + 1], start, size, n) == Some(Booked(Replay(replies[..k], start, size, n).value, replies[k], size, n))
    decreases |replies|
  {
    var before := replies[..|replies| - 1];
    if k < |before| {
      ReplayAt(before, start, size, n, k);
      assert replies[..k] == before[..k] && replies[..k + 1] == before[..k + 1] && replies[k] == before[k];
    } else {
      assert replies[..k + 1] == replies;
    }
  }

  /** Along a replay the cursor never moves back. */
  lemma {:induction false} CursorGrows(replies: seq<Message>, start: Ledger, size: nat, n: int, k: nat, j: nat)
    requires n > 0 && Replay(replies, start, size, n).Some? && k <= j <= |replies|
    ensures Replay(replies[..k], start, size, n).Some? && Replay(replies[..j], start, size, n).Some?
    ensures Replay(replies[..k], start, size, n).value.cursor <= Replay(replies[..j], start, size, n).value.cursor
    decreases j - k
  {
    if k == j {
      if j < |replies| {
        ReplayAt(replies, start, size, n, j);
      } else {
        assert replies[..j] == replies;
      }
    } else {
      CursorGrows(replies, start, size, n, k, j - 1);
      ReplayAt(replies, start, size, n, j - 1);
    }
  }

  /** Once a child is told to finish, every later request is told to finish too: the loop never
      hands out a block or asks the arbiter after its first FINISH_WORK. */
  lemma FinishIsFinal(replies: seq<Message>, start: Ledger, size: nat, n: int, k: nat, j: nat)
    requires n > 0 && Replay(replies, start, size, n).Some?
    requires k < j < |replies| && replies[k].kind == FinishWork
    ensures replies[j].kind == FinishWork
  {
    ReplayAt(replies, start, size, n, k);
    ReplayAt(replies, start, size, n, j);
    CursorGrows(replies, start, size, n, k, j);
  }

  /** What a replay adds up to: the finished children are the FINISH_WORK replies, the spans the
      cursor passed are one per ASSIGN_BLOCK reply, and the arbiter is where the consulted requests
      lead it, having granted exactly the ASSIGN_BLOCK pids. */
  lemma {:induction false} ReplayTotals(replies: seq<Message>, start: Ledger, size: nat, n: int)
    requires n > 0 && 0 <= start.cursor <= size && Replay(replies, start, size, n).Some?
    ensures var l := Replay(replies, start, size, n).value;
      && l.finished == start.finished + Finished(replies)
      && start.cursor <= l.cursor <= size
      && |SpansFrom(start.cursor, size)| == |AssignedPids(replies)| + |SpansFrom(l.cursor, size)|
      && l.turn == TurnAfter(start.turn, Consulted(replies), n)
      && AssignedPids(replies) == GrantedPids(start.turn, Consulted(replies), n)
    decreases |replies|
  {
    if |replies| > 0 {
      var before, r := replies[..|replies| - 1], replies[|replies| - 1];
      assert replies == before + [r];
      ReplayTotals(before, start, size, n);
      ReplyAppended(before, r);
      var l := Replay(before, start, size, n).value;
      var c := Consulted(before);
      TurnAfterSnoc(start.turn, c, r.pid, n);
      if r.kind == FinishWork {
        assert Consulted(replies) == c + [] == c;
        assert AssignedPids(replies) == AssignedPids(before) + [];
      } else {
        assert Consulted(replies) == c + [r.pid];
        if r.kind == WaitTurn {
          assert AfterRequest(l.turn, r.pid, n) == l.turn;
          assert AssignedPids(replies) == AssignedPids(before) + [];
        } else {
          SpansLeft(l.cursor, size);
        }
      }
    }
  }

  /** Appending one reply adds its own part to each record of the replies. */
  lemma ReplyAppended(replies: seq<Message>, r: Message)
    ensures Consulted(replies + [r]) == Consulted(replies) + ConsultedIn(r)
    ensures AssignedPids(replies + [r]) == AssignedPids(replies) + GrantedIn(r)
    ensures Finished(replies + [r]) == Finished(replies) + (if r.kind == FinishWork then 1 else 0)
  {
    assert (replies + [r])[..|replies|] == replies;
  }

  /** The folded statistics bound every result: the maximum block time is at least each one (and
      at least 0), the minimum at most each one (and at most 999999), and after one result the
      minimum is no more than the maximum. */
  lemma StatisticsBounds(results: seq<Message>)
    ensures forall i :: 0 <= i < |results| ==>
              RunningMin(MIN_TIME_START, BlockTimes(results)) <= results[i].blockTime <= RunningMax(0, BlockTimes(results))
    ensures RunningMin(MIN_TIME_START, BlockTimes(results)) <= MIN_TIME_START
    ensures RunningMax(0, BlockTimes(results)) >= 0
    ensures |results| > 0 ==> RunningMin(MIN_TIME_START, BlockTimes(results)) <= RunningMax(0, BlockTimes(results))
  {
    RunningMaxBounds(0, BlockTimes(results));
    RunningMinBounds(MIN_TIME_START, BlockTimes(results));
  }

  // ---------------------------------------------------------------------------
  // The worker
  // ---------------------------------------------------------------------------

  /** The result record a worker sends for the block `msg` assigns, given the bytes `data` it
      read: the assignment with its type, times, match count and the end of the last complete line
      filled in. The reported byte count is at most the bytes read and the match count at most the
      number of tokens. */
  function ResultFor(msg: Message, data: seq<byte>, matches: seq<byte> -> bool, processTime: int, blockTime: int): (r: Message)
    ensures r.kind == ReportResult && r.pid == msg.pid
    ensures r.startPos == msg.startPos && r.endPos == msg.endPos
    ensures r.processTime == processTime && r.blockTime == blockTime
    ensures 0 <= r.bytesProcessed <= |data|
    ensures 0 <= r.linesFound <= |Tokens(data)|
  {
    CountMatchingBounds(Tokens(data), matches);
    msg.(kind := ReportResult, processTime := processTime, blockTime := blockTime,
         linesFound := CountMatching(Tokens(data), matches), bytesProcessed := CompleteLinesEnd(data))
  }

  /** Reads the assigned bytes into a buffer of BUFFER_SIZE + 1 bytes and processes them. */
  method ProcessBlock(file: seq<byte>, msg: Message, matches: seq<byte> -> bool, processTime: int, blockTime: int)
    returns (report: Message)
    requires 0 <= msg.startPos <= msg.endPos <= msg.startPos + BUFFER_SIZE
    ensures report == ResultFor(msg, ReadAt(file, msg.startPos, msg.endPos - msg.startPos), matches, processTime, blockTime)
  {
    var data := ReadAt(file, msg.startPos, msg.endPos - msg.startPos);
    report := ProcessData(msg, data, matches, processTime, blockTime);
  }

  /** Terminates the bytes read with a NUL, finds the end of the last complete line and counts the
      matching strtok tokens. The times come from the clock and are parameters. */
  method ProcessData(msg: Message, data: seq<byte>, matches: seq<byte> -> bool, processTime: int, blockTime: int)
    returns (report: Message)
    ensures report == ResultFor(msg, data, matches, processTime, blockTime)
  {
    var buffer := data + [NUL];
    Terminated(data);
    var lastComplete := FindLastCompleteLine(buffer, |data|);
    var linesFound := CountMatchingTokens(buffer, matches);
    report := msg.(kind := ReportResult, processTime := processTime, blockTime := blockTime,
                   linesFound := linesFound, bytesProcessed := lastComplete);
  }

  /** What a worker does next. */
  datatype WorkerAction = Exit | Retry | Report(result: Message)

  /** The worker's reaction to the reply it read: leave the loop on FINISH_WORK, ask again on
      WAIT_TURN, and otherwise process the block and report it. */
  method WorkerStep(file: seq<byte>, reply: Message, matches: seq<byte> -> bool, processTime: int, blockTime: int)
    returns (action: WorkerAction)
    requires reply.kind !in {FinishWork, WaitTurn} ==> 0 <= reply.startPos <= reply.endPos <= reply.startPos + BUFFER_SIZE
    ensures action == Exit <==> reply.kind == FinishWork
    ensures action == Retry <==> reply.kind == WaitTurn
    ensures action.Report? ==>
      0 <= reply.startPos <= reply.endPos &&
      action.result == ResultFor(reply, ReadAt(file, reply.startPos, reply.endPos - reply.startPos), matches, processTime, blockTime)
  {
    if reply.kind == FinishWork {
      return Exit;
    }
    if reply.kind == WaitTurn {
      return Retry;
    }
    var report := ProcessBlock(file, reply, matches, processTime, blockTime);
    return Report(report);
  }

  /** With one result per span of the partition, each reporting the end of the last complete line
      of the bytes its worker read, the reported bytes add up to at most the file's size: a block's
      unfinished last line is not counted. */
  lemma ReportedBytesWithinFile(file: seq<byte>, results: seq<Message>)
    requires |results| == |AllSpans(|file|)|
    requires forall i :: 0 <= i < |results| ==>
      results[i].bytesProcessed == CompleteLinesEnd(ReadAt(file, AllSpans(|file|)[i].start, Length(AllSpans(|file|)[i])))
    ensures Sum(BytesReported(results)) <= |file|
  {
    var spans := AllSpans(|file|);
    ReadLengthsAt(file, spans);
    SumPointwise(BytesReported(results), ReadLengths(file, spans));
    ReadsAddUpToFile(file, 0);
  }
}
