/** The message-queue multi-process search: a dispatcher that hands out blocks of the file to
    whichever worker asks, with no turn arbiter, counts the workers it has told to finish, and
    folds their results into statistics. */
module PsoPr {
  import opened Bytes
  import opened Blocks
  import opened Stats
  import opened Options

  // ---------------------------------------------------------------------------
  // Messages
  // ---------------------------------------------------------------------------

  datatype Kind = RequestWork | AssignBlock | ReportResult | FinishWork

  /** The message record. The start and end timestamps only feed the log and are left out. */
  datatype Message = Message(
    kind: Kind,
    pid: int,
    startPos: int,
    endPos: int,
    processTime: int,
    linesFound: int,
    bytesProcessed: int)

  /** A queue entry: the message type the receiver selects on, and the record. */
  datatype QueueMessage = QueueMessage(mtype: int, msg: Message)

  /** What a receive returned: its byte count and the entry. */
  datatype Received = Received(size: int, entry: QueueMessage)

  /** sizeof(struct message) with the LP64 layout: two 4-byte fields, three 8-byte fields, a 4-byte
      field padded to 8, an 8-byte field and two 16-byte timevals. */
  const MESSAGE_SIZE: int := 80

  /** The message type of everything sent to the dispatcher. */
  const DISPATCHER_MTYPE: int := 1

  /** The start value of the minimum process time (1e9). */
  const MIN_TIME_START: int := 1000000000

  /** A record whose only set fields are its type and pid; the fields the source leaves
      uninitialised are 0 here. */
  function Bare(kind: Kind, pid: int): Message
  {
    Message(kind, pid, 0, 0, 0, 0, 0)
  }

  /** What a worker sends to ask for work. */
  function WorkRequest(pid: int): (q: QueueMessage)
    ensures q.mtype == DISPATCHER_MTYPE && q.msg.kind == RequestWork && q.msg.pid == pid
  {
    QueueMessage(DISPATCHER_MTYPE, Bare(RequestWork, pid))
  }

  // The projections, folds and pid lists below mirror those of MyGrep, over this program's own
  // message record.

  function ProcessTimes(rs: seq<Message>): (r: seq<int>)
    ensures |r| == |rs| && forall i :: 0 <= i < |rs| ==> r[i] == rs[i].processTime
  {
    seq(|rs|, i requires 0 <= i < |rs| => rs[i].processTime)
  }

  function LinesReported(rs: seq<Message>): (r: seq<int>)
    ensures |r| == |rs| && forall i :: 0 <= i < |rs| ==> r[i] == rs[i].linesFound
  {
    seq(|rs|, i requires 0 <= i < |rs| => rs[i].linesFound)
  }

  function BytesReported(rs: seq<Message>): (r: seq<int>)
    ensures |r| == |rs| && forall i :: 0 <= i < |rs| ==> r[i] == rs[i].bytesProcessed
  {
    seq(|rs|, i requires 0 <= i < |rs| => rs[i].bytesProcessed)
  }

  /** Folding one more result record into the statistics (as MyGrep.FoldResult does for its record). */
  lemma FoldResult(results: seq<Message>, msg: Message)
    ensures Sum(ProcessTimes(results + [msg])) == Sum(ProcessTimes(results)) + msg.processTime
    ensures Sum(BytesReported(results + [msg])) == Sum(BytesReported(results)) + msg.bytesProcessed
    ensures Sum(LinesReported(results + [msg])) == Sum(LinesReported(results)) + msg.linesFound
    ensures var m := RunningMax(0, ProcessTimes(results));
      RunningMax(0, ProcessTimes(results + [msg])) == if msg.processTime > m then msg.processTime else m
    ensures var m := RunningMin(MIN_TIME_START, ProcessTimes(results));
      RunningMin(MIN_TIME_START, ProcessTimes(results + [msg])) == if msg.processTime < m then msg.processTime else m
  {
    assert ProcessTimes(results + [msg]) == ProcessTimes(results) + [msg.processTime];
    assert BytesReported(results + [msg]) == BytesReported(results) + [msg.bytesProcessed];
    assert LinesReported(results + [msg]) == LinesReported(results) + [msg.linesFound];
    FoldOneMore(ProcessTimes(results), msg.processTime, 0, MIN_TIME_START);
    FoldOneMore(BytesReported(results), msg.bytesProcessed, 0, MIN_TIME_START);
    FoldOneMore(LinesReported(results), msg.linesFound, 0, MIN_TIME_START);
  }

  /** The folded maximum process time is at least 0 and every reported one, the minimum at most
      1e9 and every reported one, and once a result is in the minimum is no more than the maximum. */
  lemma StatisticsBounds(results: seq<Message>)
    ensures forall i :: 0 <= i < |results| ==>
              RunningMin(MIN_TIME_START, ProcessTimes(results)) <= results[i].processTime <= RunningMax(0, ProcessTimes(results))
    ensures RunningMin(MIN_TIME_START, ProcessTimes(results)) <= MIN_TIME_START
    ensures RunningMax(0, ProcessTimes(results)) >= 0
    ensures |results| > 0 ==> RunningMin(MIN_TIME_START, ProcessTimes(results)) <= RunningMax(0, ProcessTimes(results))
  {
    RunningMaxBounds(0, ProcessTimes(results));
    RunningMinBounds(MIN_TIME_START, ProcessTimes(results));
  }

  // ---------------------------------------------------------------------------
  // The dispatcher
  // ---------------------------------------------------------------------------

  /** The parent process's loop state: the cursor into the file, the number of workers told to
      finish, and the statistics. `spans` and `results` record what was handed out and folded in. */
  class Dispatcher {
    const fileSize: nat
    const numProc: int
    var nextPos: nat
    var finished: nat
    var totalTime: int
    var maxTime: int
    var minTime: int
    var bytesProcessed: int
    var totalMatches: int
    ghost var spans: seq<Span>
    ghost var results: seq<Message>

    /** The spans handed out are the first ones of the file's partition and tile [0, nextPos);
        workers are told to finish only once the file is used up; the statistics are the folds
        of the results. */
    ghost predicate Valid()
      reads this
    {
      HandedOut() && Tallied()
    }

    /** The hand-out half of Valid: the cursor, the spans and the finished count. */
    ghost predicate HandedOut()
      reads this`nextPos, this`spans, this`finished
    {
      && numProc > 0
      && nextPos <= fileSize
      && spans + SpansFrom(nextPos, fileSize) == AllSpans(fileSize)
      && Contiguous(spans, 0, nextPos)
      && (finished > 0 ==> nextPos == fileSize)
    }

    /** The statistics half of Valid: every statistic is the fold of the results. */
    ghost predicate Tallied()
      reads this`results, this`totalTime, this`bytesProcessed, this`totalMatches, this`maxTime, this`minTime
    {
      && totalTime == Sum(ProcessTimes(results))
      && bytesProcessed == Sum(BytesReported(results))
      && totalMatches == Sum(LinesReported(results))
      && maxTime == RunningMax(0, ProcessTimes(results))
      && minTime == RunningMin(MIN_TIME_START, ProcessTimes(results))
    }

    /** The state before the first receive: statistics zeroed except the minimum, the cursor at 0,
        nobody finished. */
    constructor (fileSize: nat, numProc: int)
      requires numProc > 0
      ensures Valid()
      ensures this.fileSize == fileSize && this.numProc == numProc
      ensures nextPos == 0 && finished == 0 && spans == [] && results == []
      ensures totalTime == 0 && maxTime == 0 && minTime == MIN_TIME_START
      ensures bytesProcessed == 0 && totalMatches == 0
    {
      this.fileSize := fileSize;
      this.numProc := numProc;
      nextPos, finished := 0, 0;
      totalTime, maxTime, minTime := 0, 0, MIN_TIME_START;
      bytesProcessed, totalMatches := 0, 0;
      spans, results := [], [];
    }

    /** A REQUEST_WORK: FINISH_WORK once the file is used up, and otherwise, with no turn check,
        ASSIGN_BLOCK for the next span. The reply goes to the requester's pid and carries it. */
    method HandleRequest(msg: Message) returns (reply: QueueMessage)
      requires Valid() && msg.kind == RequestWork
      modifies this
      ensures Valid()
      ensures reply.mtype == msg.pid && reply.msg.pid == msg.pid
      ensures nextPos >= old(nextPos)
      ensures old(nextPos) >= fileSize ==>
        && reply.msg == Bare(FinishWork, msg.pid)
        && finished == old(finished) + 1
        && nextPos == old(nextPos) && spans == old(spans)
      ensures old(nextPos) < fileSize ==>
        && reply.msg == Message(AssignBlock, msg.pid, old(nextPos), NextSpan(old(nextPos), fileSize).end, 0, 0, 0)
        && finished == old(finished)
        && nextPos == reply.msg.endPos
        && spans == old(spans) + [NextSpan(old(nextPos), fileSize)]
      ensures results == old(results)
      ensures totalTime == old(totalTime) && maxTime == old(maxTime) && minTime == old(minTime)
      ensures bytesProcessed == old(bytesProcessed) && totalMatches == old(totalMatches)
    {
      if nextPos >= fileSize {
        reply := QueueMessage(msg.pid, Bare(FinishWork, msg.pid));
        finished := finished + 1;
      } else {
        var endPos := nextPos + BUFFER_SIZE;
        if endPos > fileSize {
          endPos := fileSize;
        }
        var sp := Span(nextPos, endPos);
        assert sp == NextSpan(nextPos, fileSize);
        reply := QueueMessage(msg.pid, Message(AssignBlock, msg.pid, nextPos, endPos, 0, 0, 0));
        ContiguousExtend(spans, 0, nextPos, sp);
        assert SpansFrom(nextPos, fileSize) == [sp] + SpansFrom(endPos, fileSize);
        assert spans + [sp] + SpansFrom(endPos, fileSize) == spans + SpansFrom(nextPos, fileSize);
        spans := spans + [sp];
        nextPos := endPos;
      }
    }

    /** A REPORT_RESULT: sums the process time, the bytes and the matches, and keeps the running
        maximum and minimum of the process time. Nothing else changes. */
    method HandleResult(msg: Message)
      requires Valid() && msg.kind == ReportResult
      modifies this
      ensures Valid()
      ensures results == old(results) + [msg]
      ensures totalTime == old(totalTime) + msg.processTime
      ensures bytesProcessed == old(bytesProcessed) + msg.bytesProcessed
      ensures totalMatches == old(totalMatches) + msg.linesFound
      ensures maxTime == if msg.processTime > old(maxTime) then msg.processTime else old(maxTime)
      ensures minTime == if msg.processTime < old(minTime) then msg.processTime else old(minTime)
      ensures nextPos == old(nextPos) && finished == old(finished) && spans == old(spans)
    {
      FoldResult(results, msg);
      var newMax := if msg.processTime > maxTime then msg.processTime else maxTime;
      var newMin := if msg.processTime < minTime then msg.processTime else minTime;
      totalTime, bytesProcessed, totalMatches := totalTime + msg.processTime, bytesProcessed + msg.bytesProcessed, totalMatches + msg.linesFound;
      maxTime, minTime := newMax, newMin;
      results := results + [msg];
      assert Tallied();
    }

    /** One iteration of the loop: a receive of the wrong size is skipped; a request gets
        ASSIGN_BLOCK for the next span while the file lasts and FINISH_WORK after it, addressed to
        the requester; a result is folded in; any other message type is ignored. */
    method Step(r: Received) returns (reply: Option<QueueMessage>)
      requires Valid()
      modifies this
      ensures Valid()
      ensures reply.Some? <==> IsRequest(r)
      ensures IsRequest(r) && old(nextPos) >= fileSize ==>
        && reply == Some(QueueMessage(r.entry.msg.pid, Bare(FinishWork, r.entry.msg.pid)))
        && finished == old(finished) + 1
        && nextPos == old(nextPos) && spans == old(spans)
      ensures IsRequest(r) && old(nextPos) < fileSize ==>
        && reply == Some(QueueMessage(r.entry.msg.pid,
             Message(AssignBlock, r.entry.msg.pid, old(nextPos), NextSpan(old(nextPos), fileSize).end, 0, 0, 0)))
        && finished == old(finished)
        && nextPos == NextSpan(old(nextPos), fileSize).end
        && spans == old(spans) + [NextSpan(old(nextPos), fileSize)]
      ensures !IsRequest(r) ==> nextPos == old(nextPos) && finished == old(finished) && spans == old(spans)
      ensures IsReport(r) ==>
        && results == old(results) + [r.entry.msg]
        && totalTime == old(totalTime) + r.entry.msg.processTime
        && bytesProcessed == old(bytesProcessed) + r.entry.msg.bytesProcessed
        && totalMatches == old(totalMatches) + r.entry.msg.linesFound
        && maxTime == (if r.entry.msg.processTime > old(maxTime) then r.entry.msg.processTime else old(maxTime))
        && minTime == (if r.entry.msg.processTime < old(minTime) then r.entry.msg.processTime else old(minTime))
      ensures !IsReport(r) ==>
        && results == old(results)
        && totalTime == old(totalTime) && maxTime == old(maxTime) && minTime == old(minTime)
        && bytesProcessed == old(bytesProcessed) && totalMatches == old(totalMatches)
      ensures Addressees(Elems(reply)) == Pids(RequestIn(r))
      ensures reply.Some? ==>
        && reply.value.msg.pid == reply.value.mtype
        && reply.value.msg.kind in {AssignBlock, FinishWork}
        && (reply.value.msg.kind == AssignBlock <==> old(nextPos) < fileSize)
      ensures Bounds(spans) == Bounds(old(spans)) + Assigned(Elems(reply))
      ensures results == old(results) + ReportIn(r)
    {
      if r.size != MESSAGE_SIZE {
        return None;
      }
      var msg := r.entry.msg;
      if msg.kind == RequestWork {
        ghost var before := spans;
        ghost var cursor := nextPos;
        var q := HandleRequest(msg);
        reply := Some(q);
        if q.msg.kind == AssignBlock {
          BoundsSnoc(before, NextSpan(cursor, fileSize));
        }
      } else if msg.kind == ReportResult {
        HandleResult(msg);
        reply := None;
      } else {
        reply := None;
      }
    }

    /** One turn of the loop in Run: the next receive is handled and its reply, if any, sent. */
    method Serve(inbox: seq<Received>, handled: nat, replies: seq<QueueMessage>, ghost ahead: int,
                 ghost spans0: seq<Span>, ghost results0: seq<Message>, ghost finished0: int)
      returns (sent: seq<QueueMessage>)
      requires Valid() && handled < |inbox|
      requires |spans0| + ahead == |AllSpans(fileSize)|
      requires Accounted(inbox[..handled], replies, ahead, spans0, spans, results0, results)
      requires ahead >= 0 && finished == finished0 + Finished(replies)
      modifies this
      ensures Valid() && nextPos >= old(nextPos) && old(finished) <= finished <= old(finished) + 1
      ensures Accounted(inbox[..handled + 1], sent, ahead, spans0, spans, results0, results)
      ensures finished == finished0 + Finished(sent)
    {
      ghost var spansBefore, resultsBefore := spans, results;
      AccountedFinished(inbox[..handled], replies, ahead, spans0, spans, results0, results);
      assert |spans| + |SpansFrom(nextPos, fileSize)| == |AllSpans(fileSize)|;
      var reply := Step(inbox[handled]);
      PrefixSnoc(inbox, handled);
      AccountedStep(inbox[..handled], inbox[handled], replies, Elems(reply), ahead, spans0, spansBefore, spans,
                    results0, resultsBefore, results);
      sent := replies + Elems(reply);
      AccountedFinished(inbox[..handled + 1], sent, ahead, spans0, spans, results0, results);
    }

    /** The loop `while (finished < num_proc)` over the receives, in order. It stops when every
        worker has been told to finish or the receives run out. There is one reply per well-sized
        request, in order and addressed to the requester. The first replies are assignments, one
        for each span still to come when the run started, carrying those spans in order; every
        later reply is FINISH_WORK. The results folded in are the well-sized results among the
        receives handled. Once every worker is finished, the spans are the whole partition. */
    method Run(inbox: seq<Received>) returns (replies: seq<QueueMessage>, handled: nat)
      requires Valid() && finished <= numProc
      modifies this
      ensures Valid() && finished <= numProc
      ensures handled <= |inbox|
      ensures handled < |inbox| ==> finished == numProc
      ensures nextPos >= old(nextPos) && finished == old(finished) + Finished(replies)
      ensures Accounted(inbox[..handled], replies, |SpansFrom(old(nextPos), fileSize)|, old(spans), spans, old(results), results)
      ensures totalMatches == Sum(LinesReported(results)) && bytesProcessed == Sum(BytesReported(results))
      ensures totalTime == Sum(ProcessTimes(results))
      ensures maxTime == RunningMax(0, ProcessTimes(results)) && minTime == RunningMin(MIN_TIME_START, ProcessTimes(results))
      ensures finished >= numProc ==>
        nextPos == fileSize && spans == AllSpans(fileSize) && Contiguous(spans, 0, fileSize)
    {
      replies := [];
      handled := 0;
      assert |spans| + |SpansFrom(nextPos, fileSize)| == |AllSpans(fileSize)|;
      AccountedStart(inbox, |SpansFrom(nextPos, fileSize)|, spans, results);
      while finished < numProc && handled < |inbox|
        invariant Valid()
        invariant handled <= |inbox|
        invariant nextPos >= old(nextPos) && old(finished) <= finished <= numProc
        invariant Accounted(inbox[..handled], replies, |SpansFrom(old(nextPos), fileSize)|, old(spans), spans, old(results), results)
        invariant finished == old(finished) + Finished(replies)
        decreases |inbox| - handled
      {
        replies := Serve(inbox, handled, replies, |SpansFrom(old(nextPos), fileSize)|, old(spans), old(results), old(finished));
        handled := handled + 1;
      }
      if finished == numProc {
        assert SpansFrom(fileSize, fileSize) == [];
        assert spans + [] == spans;
      }
    }
  }

  /** Start-up: a pool size that is not positive is rejected before anything is handed out. */
  method Start(fileSize: nat, numProc: int) returns (d: Option<Dispatcher>)
    ensures d.None? <==> numProc <= 0
    ensures d.Some? ==>
      && fresh(d.value) && d.value.Valid() && d.value.numProc == numProc
      && d.value.fileSize == fileSize && d.value.nextPos == 0 && d.value.finished == 0
  {
    if numProc <= 0 {
      return None;
    }
    var disp := new Dispatcher(fileSize, numProc);
    return Some(disp);
  }

  /** A receive of the right size that holds a work request. */
  predicate IsRequest(r: Received)
  {
    r.size == MESSAGE_SIZE && r.entry.msg.kind == RequestWork
  }

  /** A receive of the right size that holds a result. */
  predicate IsReport(r: Received)
  {
    r.size == MESSAGE_SIZE && r.entry.msg.kind == ReportResult
  }

  /** The work request `r` holds when it is a well-sized one, and nothing otherwise. */
  function RequestIn(r: Received): seq<Message>
  {
    if IsRequest(r) then [r.entry.msg] else []
  }

  /** The result `r` holds when it is a well-sized one, and nothing otherwise. */
  function ReportIn(r: Received): seq<Message>
  {
    if IsReport(r) then [r.entry.msg] else []
  }

  /** The well-sized work requests among the receives `rs`, in order. */
  function Requests(rs: seq<Received>): (r: seq<Message>)
    ensures |r| <= |rs|
    ensures forall k :: 0 <= k < |r| ==> r[k].kind == RequestWork
  {
    if |rs| == 0 then []
    else Requests(rs[..|rs| - 1]) + RequestIn(rs[|rs| - 1])
  }

  /** The well-sized results among the receives `rs`, in order. */
  function Reports(rs: seq<Received>): (r: seq<Message>)
    ensures |r| <= |rs|
    ensures forall k :: 0 <= k < |r| ==> r[k].kind == ReportResult
  {
    if |rs| == 0 then []
    else Reports(rs[..|rs| - 1]) + ReportIn(rs[|rs| - 1])
  }

  /** The pids `msgs` carry, in order (as MyGrep.Pids). */
  function Pids(msgs: seq<Message>): (r: seq<int>)
    ensures |r| == |msgs| && forall i :: 0 <= i < |msgs| ==> r[i] == msgs[i].pid
  {
    seq(|msgs|, i requires 0 <= i < |msgs| => msgs[i].pid)
  }

  /** The message types `replies` are addressed with, in order. */
  function Addressees(replies: seq<QueueMessage>): (r: seq<int>)
    ensures |r| == |replies| && forall i :: 0 <= i < |replies| ==> r[i] == replies[i].mtype
  {
    seq(|replies|, i requires 0 <= i < |replies| => replies[i].mtype)
  }

  /** The number of FINISH_WORK replies (as MyGrep.Finished over its records). */
  function Finished(replies: seq<QueueMessage>): nat
  {
    if |replies| == 0 then 0
    else Finished(replies[..|replies| - 1]) + (if replies[|replies| - 1].msg.kind == FinishWork then 1 else 0)
  }

  /** When the first `ahead` replies are the ASSIGN_BLOCK ones and the rest FINISH_WORK, the
      replies past the first `ahead` are the FINISH_WORK ones. */
  lemma {:induction false} FinishedCount(replies: seq<QueueMessage>, ahead: int)
    requires ahead >= 0
    requires forall k :: 0 <= k < |replies| ==>
      replies[k].msg.kind in {AssignBlock, FinishWork} && (replies[k].msg.kind == AssignBlock <==> k < ahead)
    ensures Finished(replies) == |replies| - Min(|replies|, ahead)
    decreases |replies|
  {
    if |replies| > 0 {
      var before := replies[..|replies| - 1];
      forall k | 0 <= k < |before|
        ensures before[k].msg.kind in {AssignBlock, FinishWork} && (before[k].msg.kind == AssignBlock <==> k < ahead)
      {
        assert before[k] == replies[k];
      }
      FinishedCount(before, ahead);
    }
  }

  /** In an accounted stretch the replies past the first `ahead` are the FINISH_WORK ones. */
  lemma AccountedFinished(handled: seq<Received>, replies: seq<QueueMessage>, ahead: int,
                          spans0: seq<Span>, spans: seq<Span>, results0: seq<Message>, results: seq<Message>)
    requires ahead >= 0 && Accounted(handled, replies, ahead, spans0, spans, results0, results)
    ensures Finished(replies) == |replies| - Min(|replies|, ahead)
  {
    FinishedCount(replies, ahead);
  }

  /** The (start, end) pairs of the ASSIGN_BLOCK replies among `replies`, in order. */
  function Assigned(replies: seq<QueueMessage>): seq<(int, int)>
  {
    if |replies| == 0 then []
    else
      var r := replies[|replies| - 1].msg;
      Assigned(replies[..|replies| - 1]) + (if r.kind == AssignBlock then [(r.startPos, r.endPos)] else [])
  }

  /** What a stretch of the dispatcher loop owes the receives it `handled`: one reply per
      well-sized request, in order and addressed to the requester; the first `ahead` replies are
      assignments and the rest FINISH_WORK; the assignments carry, in order, the spans added
      after `spans0`; the results added after `results0` are the well-sized results handled. */
  ghost predicate Accounted(handled: seq<Received>, replies: seq<QueueMessage>, ahead: int,
                            spans0: seq<Span>, spans: seq<Span>, results0: seq<Message>, results: seq<Message>)
  {
    && Addressees(replies) == Pids(Requests(handled))
    && (forall k :: 0 <= k < |replies| ==>
          && replies[k].msg.pid == replies[k].mtype
          && replies[k].msg.kind in {AssignBlock, FinishWork}
          && (replies[k].msg.kind == AssignBlock <==> k < ahead))
    && Bounds(spans) == Bounds(spans0) + Assigned(replies)
    && |spans| == |spans0| + Min(|replies|, ahead)
    && results == results0 + Reports(handled)
  }

  /** Before any receive is handled nothing is accounted for. */
  lemma AccountedStart(inbox: seq<Received>, ahead: int, spans: seq<Span>, results: seq<Message>)
    requires ahead >= 0
    ensures Accounted(inbox[..0], [], ahead, spans, spans, results, results) && Finished([]) == 0
  {
    assert inbox[..0] == [];
  }

  /** Taking in one more receive adds it to the requests or the results when it is one. */
  lemma ReceiveAppended(handled: seq<Received>, r: Received)
    ensures Requests(handled + [r]) == Requests(handled) + RequestIn(r)
    ensures Reports(handled + [r]) == Reports(handled) + ReportIn(r)
  {
    assert (handled + [r])[..|handled|] == handled;
  }

  /** The pids of two runs of messages, one after the other (as MyGrep.PidsAppend). */
  lemma PidsAppend(a: seq<Message>, b: seq<Message>)
    ensures Pids(a + b) == Pids(a) + Pids(b)
  {
    assert forall i :: 0 <= i < |b| ==> (a + b)[|a| + i] == b[i];
  }

  /** The addresses of two runs of replies, one after the other. */
  lemma AddresseesAppend(a: seq<QueueMessage>, b: seq<QueueMessage>)
    ensures Addressees(a + b) == Addressees(a) + Addressees(b)
  {
    assert forall i :: 0 <= i < |b| ==> (a + b)[|a| + i] == b[i];
  }

  /** Sending at most one more reply adds its span when it is an assignment. */
  lemma AssignedAppend(replies: seq<QueueMessage>, more: seq<QueueMessage>)
    requires |more| <= 1
    ensures Assigned(replies + more) == Assigned(replies) + Assigned(more)
    ensures |Assigned(more)| == if |more| == 1 && more[0].msg.kind == AssignBlock then 1 else 0
  {
    if |more| == 0 {
      assert replies + more == replies;
    } else {
      assert (replies + more)[..|replies|] == replies;
      assert more[..0] == [];
    }
  }

  /** Handling one more receive `r`, with at most one reply `more` for it, keeps the account. */
  lemma AccountedStep(handled: seq<Received>, r: Received, replies: seq<QueueMessage>, more: seq<QueueMessage>,
                      ahead: int, spans0: seq<Span>, spansBefore: seq<Span>, spans: seq<Span>,
                      results0: seq<Message>, resultsBefore: seq<Message>, results: seq<Message>)
    requires Accounted(handled, replies, ahead, spans0, spansBefore, results0, resultsBefore)
    requires ahead >= 0 && |more| <= 1 && Addressees(more) == Pids(RequestIn(r))
    requires forall k :: 0 <= k < |more| ==>
      && more[k].msg.pid == more[k].mtype
      && more[k].msg.kind in {AssignBlock, FinishWork}
      && (more[k].msg.kind == AssignBlock <==> |spansBefore| - |spans0| < ahead)
    requires Bounds(spans) == Bounds(spansBefore) + Assigned(more)
    requires results == resultsBefore + ReportIn(r)
    ensures Accounted(handled + [r], replies + more, ahead, spans0, spans, results0, results)
  {
    AddressedStep(handled, r, replies, more);
    AssignedStep(replies, more, ahead, spans0, spansBefore, spans);
    ReceiveAppended(handled, r);
    ConcatAssoc(results0, Reports(handled), ReportIn(r));
  }

  /** The replies stay one per well-sized request, in order, addressed to the requester. */
  lemma AddressedStep(handled: seq<Received>, r: Received, replies: seq<QueueMessage>, more: seq<QueueMessage>)
    requires Addressees(replies) == Pids(Requests(handled))
    requires Addressees(more) == Pids(RequestIn(r))
    ensures Addressees(replies + more) == Pids(Requests(handled + [r]))
  {
    ReceiveAppended(handled, r);
    PidsAppend(Requests(handled), RequestIn(r));
    AddresseesAppend(replies, more);
  }

  /** The assignments stay first, and carry the spans handed out, in order. */
  lemma AssignedStep(replies: seq<QueueMessage>, more: seq<QueueMessage>, ahead: int,
                     spans0: seq<Span>, spansBefore: seq<Span>, spans: seq<Span>)
    requires ahead >= 0 && |more| <= 1
    requires forall k :: 0 <= k < |replies| ==>
      && replies[k].msg.pid == replies[k].mtype
      && replies[k].msg.kind in {AssignBlock, FinishWork}
      && (replies[k].msg.kind == AssignBlock <==> k < ahead)
    requires forall k :: 0 <= k < |more| ==>
      && more[k].msg.pid == more[k].mtype
      && more[k].msg.kind in {AssignBlock, FinishWork}
      && (more[k].msg.kind == AssignBlock <==> |spansBefore| - |spans0| < ahead)
    requires Bounds(spansBefore) == Bounds(spans0) + Assigned(replies)
    requires |spansBefore| == |spans0| + Min(|replies|, ahead)
    requires Bounds(spans) == Bounds(spansBefore) + Assigned(more)
    ensures forall k :: 0 <= k < |replies + more| ==>
      && (replies + more)[k].msg.pid == (replies + more)[k].mtype
      && (replies + more)[k].msg.kind in {AssignBlock, FinishWork}
      && ((replies + more)[k].msg.kind == AssignBlock <==> k < ahead)
    ensures Bounds(spans) == Bounds(spans0) + Assigned(replies + more)
    ensures |spans| == |spans0| + Min(|replies + more|, ahead)
  {
    AssignedAppend(replies, more);
    assert |Bounds(spans)| == |spans|;
    ConcatAssoc(Bounds(spans0), Assigned(replies), Assigned(more));
  }

  // ---------------------------------------------------------------------------
  // The worker
  // ---------------------------------------------------------------------------

  /** The result a worker of pid `pid` sends for the block `assign` names, given the bytes `data`
      it read: the number of bytes read and the number of matching tokens among them, addressed
      to the dispatcher. The match count is at most the number of tokens. */
  function ResultFor(pid: int, assign: Message, data: seq<byte>, matches: seq<byte> -> bool, processTime: int): (res: QueueMessage)
    ensures res.mtype == DISPATCHER_MTYPE && res.msg.kind == ReportResult && res.msg.pid == pid
    ensures res.msg.startPos == assign.startPos && res.msg.endPos == assign.endPos
    ensures res.msg.processTime == processTime
    ensures res.msg.bytesProcessed == |data|
    ensures 0 <= res.msg.linesFound <= |Tokens(data)|
  {
    CountMatchingBounds(Tokens(data), matches);
    QueueMessage(DISPATCHER_MTYPE,
      Message(ReportResult, pid, assign.startPos, assign.endPos, processTime, CountMatching(Tokens(data), matches), |data|))
  }

  /** Reads the assigned bytes into a buffer of BUFFER_SIZE + 1 bytes and processes them. */
  method ProcessBlock(file: seq<byte>, pid: int, assign: Message, matches: seq<byte> -> bool, processTime: int)
    returns (res: QueueMessage)
    requires 0 <= assign.startPos <= assign.endPos <= assign.startPos + BUFFER_SIZE
    ensures res == ResultFor(pid, assign, ReadAt(file, assign.startPos, assign.endPos - assign.startPos), matches, processTime)
  {
    var toread := assign.endPos - assign.startPos;
    var data := ReadAt(file, assign.startPos, toread);
    res := ProcessData(pid, assign, data, matches, processTime);
  }

  /** Terminates the bytes read with a NUL and counts the matching strtok tokens; the process time
      comes from the clock and is a parameter. */
  method ProcessData(pid: int, assign: Message, data: seq<byte>, matches: seq<byte> -> bool, processTime: int)
    returns (res: QueueMessage)
    ensures res == ResultFor(pid, assign, data, matches, processTime)
  {
    var n := |data|;
    var buffer := data + [NUL];
    Terminated(data);
    var lines := CountMatchingTokens(buffer, matches);
    res := QueueMessage(DISPATCHER_MTYPE,
      Message(ReportResult, pid, assign.startPos, assign.endPos, processTime, lines, n));
  }

  /** What a worker does next. */
  datatype WorkerAction = Exit | Report(result: QueueMessage)

  /** The worker's reaction to the entry it received: leave the loop on FINISH_WORK, and otherwise
      process the block it names and report it. */
  method WorkerStep(file: seq<byte>, pid: int, assign: Message, matches: seq<byte> -> bool, processTime: int)
    returns (action: WorkerAction)
    requires assign.kind != FinishWork ==> 0 <= assign.startPos <= assign.endPos <= assign.startPos + BUFFER_SIZE
    ensures action == Exit <==> assign.kind == FinishWork
    ensures action.Report? ==>
      0 <= assign.startPos <= assign.endPos &&
      action.result == ResultFor(pid, assign, ReadAt(file, assign.startPos, assign.endPos - assign.startPos), matches, processTime)
  {
    if assign.kind == FinishWork {
      return Exit;
    }
    var res := ProcessBlock(file, pid, assign, matches, processTime);
    return Report(res);
  }

  /** With one result per span of the partition, each reporting the bytes its worker read, the
      reported bytes add up to the file's size. */
  lemma {:induction false} ReportedBytesCoverFile(file: seq<byte>, results: seq<Message>)
    requires |results| == |AllSpans(|file|)|
    requires forall i :: 0 <= i < |results| ==>
      results[i].bytesProcessed == |ReadAt(file, AllSpans(|file|)[i].start, Length(AllSpans(|file|)[i]))|
    ensures Sum(BytesReported(results)) == |file|
  {
    var spans := AllSpans(|file|);
    ReadLengthsAt(file, spans);
    assert BytesReported(results) == ReadLengths(file, spans);
    ReadsAddUpToFile(file, 0);
  }
}
