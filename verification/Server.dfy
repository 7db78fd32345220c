/** The connections of the server (server/main.cpp): an I/O loop and a database worker share a map of
    connections and a queue of tasks.  Each method is what one of the two does under a lock, so a
    sequence of calls is an interleaving of the threads. */
module Server {

  type Id = nat
  type Text = seq<char>

  const EXIT := "exit;"
  const QUIT := "quit;"

  function LowerChar(c: char): char {
    if 'A' <= c <= 'Z' then c - 'A' + 'a' else c
  }

  function Lower(s: Text): (r: Text)
    ensures |r| == |s|
  {
    seq(|s|, i requires 0 <= i < |s| => LowerChar(s[i]))
  }

  predicate IsExit(line: Text) {
    Lower(line) == EXIT || Lower(line) == QUIT
  }

  /** Two spellings of one word, upper and lower case in any mixture. */
  predicate Spells(line: Text, small: Text, large: Text)
    requires |small| == |large|
  {
    |line| == |small| && forall i :: 0 <= i < |line| ==> line[i] == small[i] || line[i] == large[i]
  }

  /** The lines that end a connection are the two words, in any case. */
  lemma ExitMeans(line: Text)
    ensures IsExit(line) <==> Spells(line, "exit;", "EXIT;") || Spells(line, "quit;", "QUIT;")
  {
    if |line| == 5 {
      assert Lower(line) == [LowerChar(line[0]), LowerChar(line[1]), LowerChar(line[2]), LowerChar(line[3]),
                             LowerChar(line[4])];
    }
  }

  datatype ConnState = IDLE | READING | PENDING_RESULT | WRITING | CLOSED

  /** A connection; `lines`, `answers` and `sent` record what has been read, answered and sent on it. */
  datatype Connection = Connection(
    state: ConnState, recvBuffer: Text, response: Text, sendOffset: nat,
    received: Text, lines: seq<Text>, answers: seq<Answer>, sent: Text)

  /** A line and the response computed for it. */
  datatype Answer = Answer(line: Text, response: Text)

  datatype Task = Task(id: Id, line: Text)

  datatype Worker = Waiting | Taken(task: Task) | Working(task: Task) | Done(task: Task, response: Text)

  // ---- Lines ----

  /** Lines, each with its newline. */
  function Unlines(lines: seq<Text>): Text {
    if lines == [] then [] else Unlines(lines[..|lines| - 1]) + lines[|lines| - 1] + ['\n']
  }

  /** The lines that make a task. */
  function Accepted(lines: seq<Text>): seq<Text> {
    if lines == [] then []
    else if lines[|lines| - 1] == [] then Accepted(lines[..|lines| - 1])
    else Accepted(lines[..|lines| - 1]) + [lines[|lines| - 1]]
  }

  function Responses(answers: seq<Answer>): Text {
    if answers == [] then [] else Responses(answers[..|answers| - 1]) + answers[|answers| - 1].response
  }

  predicate OneLine(line: Text) { '\n' !in line }

  method FindNewline(s: Text) returns (i: int)
    ensures -1 <= i < |s|
    ensures i >= 0 ==> s[i] == '\n' && OneLine(s[..i])
    ensures i < 0 ==> OneLine(s)
  {
    i := 0;
    while i < |s| && s[i] != '\n'
      invariant 0 <= i <= |s| && OneLine(s[..i])
    {
      i := i + 1;
    }
    assert s[..|s|] == s;
    if i == |s| {
      return -1;
    }
  }

  /** `line` is the first line in a buffer. */
  predicate Starts(buffer: Text, line: Text) {
    |line| < |buffer| && buffer[..|line|] == line && buffer[|line|] == '\n' && OneLine(line)
  }

  lemma NoLonger(buffer: Text, line: Text, other: Text)
    requires |line| < |buffer| && buffer[|line|] == '\n' && |other| <= |buffer| && buffer[..|other|] == other
    requires OneLine(other)
    ensures |other| <= |line|
  {
    assert forall i :: 0 <= i < |other| ==> buffer[i] == other[i] && other[i] in other;
  }

  lemma StartsOnce(buffer: Text, line: Text, other: Text)
    requires Starts(buffer, line) && Starts(buffer, other)
    ensures line == other
  {
    NoLonger(buffer, line, other);
    NoLonger(buffer, other, line);
  }

  // ---- One connection ----

  /** What has come in on a connection is its lines and what is left in the buffer; the lines that make
      a task have been answered in order, up to the one still being worked on. */
  ghost predicate Consistent(c: Connection, pending: seq<Text>) {
    && c.received == Unlines(c.lines) + c.recvBuffer
    && (forall i :: 0 <= i < |c.lines| ==> OneLine(c.lines[i]) && !IsExit(c.lines[i]))
    && Accepted(c.lines) == Lines(c.answers) + pending
    && |pending| == (if c.state == PENDING_RESULT then 1 else 0)
    && (match c.state
        case WRITING =>
          && c.answers != [] && c.response == c.answers[|c.answers| - 1].response && c.sendOffset <= |c.response|
          && c.sent == Responses(c.answers[..|c.answers| - 1]) + c.response[..c.sendOffset]
        case CLOSED => c.sent <= Responses(c.answers)
        case _ => c.sent == Responses(c.answers))
  }

  function Lines(answers: seq<Answer>): (ls: seq<Text>)
    ensures |ls| == |answers| && forall i :: 0 <= i < |answers| ==> ls[i] == answers[i].line
  {
    seq(|answers|, i requires 0 <= i < |answers| => answers[i].line)
  }

  lemma LinesMore(answers: seq<Answer>, a: Answer)
    ensures Lines(answers + [a]) == Lines(answers) + [a.line]
  {
  }

  lemma UnlinesMore(lines: seq<Text>, line: Text)
    ensures Unlines(lines + [line]) == Unlines(lines) + line + ['\n']
    ensures Accepted(lines + [line]) == Accepted(lines) + if line == [] then [] else [line]
  {
    assert (lines + [line])[..|lines|] == lines;
  }

  lemma ResponsesMore(answers: seq<Answer>, a: Answer)
    ensures Responses(answers + [a]) == Responses(answers) + a.response
  {
    assert (answers + [a])[..|answers|] == answers;
  }

  lemma ResponsesLast(answers: seq<Answer>)
    requires answers != []
    ensures Responses(answers) == Responses(answers[..|answers| - 1]) + answers[|answers| - 1].response
  {
  }

  /** Takes the first line out of the buffer. */
  function TakeLine(c: Connection, nl: nat): Connection
    requires nl < |c.recvBuffer|
  {
    c.(recvBuffer := c.recvBuffer[nl + 1..], lines := c.lines + [c.recvBuffer[..nl]])
  }

  /** What the arrival of `data` makes of a connection that waits for input, and of the queue. */
  ghost predicate Reads(c: Connection, data: Text, d: Connection, id: Id, queue: seq<Task>, queue2: seq<Task>) {
    var buffer := c.recvBuffer + data;
    && (data == [] || OneLine(buffer) ==> d == Arrived(c, data) && queue2 == queue)
    && (forall line :: data != [] && Starts(buffer, line) ==>
          if IsExit(line) then d == Arrived(c, data).(state := CLOSED) && queue2 == queue
          else && d == TakeLine(Arrived(c, data), |line|).(state := if line == [] then IDLE else PENDING_RESULT)
               && queue2 == queue + if line == [] then [] else [Task(id, line)])
  }

  /** `lines`, then blank ones. */
  predicate BlanksMore(lines: seq<Text>, more: seq<Text>) {
    |lines| <= |more| && more[..|lines|] == lines && forall i :: |lines| <= i < |more| ==> more[i] == []
  }

  /** How a connection goes on when all of its response has been sent: it skips blank lines and takes
      the next one there is. */
  ghost predicate GoesOn(c: Connection, d: Connection, id: Id, queue: seq<Task>, queue2: seq<Task>)
    requires c.sendOffset <= |c.response|
  {
    && d.sent == c.sent + c.response[c.sendOffset..] && d.answers == c.answers && d.received == c.received
    && (match d.state
        case IDLE => BlanksMore(c.lines, d.lines) && OneLine(d.recvBuffer) && queue2 == queue
        case PENDING_RESULT =>
          && d.lines != [] && d.lines[|d.lines| - 1] != [] && BlanksMore(c.lines, d.lines[..|d.lines| - 1])
          && queue2 == queue + [Task(id, d.lines[|d.lines| - 1])]
        case CLOSED => BlanksMore(c.lines, d.lines) && (exists line :: Starts(d.recvBuffer, line) && IsExit(line))
          && queue2 == queue
        case _ => false)
  }

  lemma ReadsNone(c: Connection, data: Text, id: Id, queue: seq<Task>)
    requires data == [] || OneLine(c.recvBuffer + data)
    ensures Reads(c, data, Arrived(c, data), id, queue, queue)
  {
    assert forall line :: Starts(c.recvBuffer + data, line) ==> !OneLine(c.recvBuffer + data);
  }

  lemma ReadsLine(c: Connection, data: Text, line: Text, d: Connection, id: Id, queue: seq<Task>, queue2: seq<Task>)
    requires data != [] && Starts(c.recvBuffer + data, line)
    requires if IsExit(line) then d == Arrived(c, data).(state := CLOSED) && queue2 == queue
      else && d == TakeLine(Arrived(c, data), |line|).(state := if line == [] then IDLE else PENDING_RESULT)
           && queue2 == queue + if line == [] then [] else [Task(id, line)]
    ensures Reads(c, data, d, id, queue, queue2)
  {
    assert (c.recvBuffer + data)[|line|] in c.recvBuffer + data;
    forall other | Starts(c.recvBuffer + data, other) ensures other == line {
      StartsOnce(c.recvBuffer + data, line, other);
    }
  }

  /** `d` is on its way on from `c`, whose response has been sent. */
  ghost predicate Skipping(c: Connection, d: Connection)
    requires c.sendOffset <= |c.response|
  {
    && d.sent == c.sent + c.response[c.sendOffset..] && d.answers == c.answers && d.received == c.received
    && d.state == IDLE && BlanksMore(c.lines, d.lines)
  }

  lemma SkipStarts(c: Connection, d: Connection)
    requires c.sendOffset <= |c.response|
    requires d == SentOn(c, |c.response| - c.sendOffset).(response := [], sendOffset := 0, state := IDLE)
    ensures Skipping(c, d)
  {
    assert c.response[c.sendOffset..|c.response|] == c.response[c.sendOffset..];
  }

  lemma SkipBlank(c: Connection, d: Connection)
    requires c.sendOffset <= |c.response| && Skipping(c, d) && d.recvBuffer != []
    ensures Skipping(c, TakeLine(d, 0))
  {
  }

  lemma SkipEnds(c: Connection, d: Connection, line: Text, id: Id, queue: seq<Task>)
    requires c.sendOffset <= |c.response| && Skipping(c, d)
    ensures OneLine(d.recvBuffer) ==> GoesOn(c, d, id, queue, queue)
    ensures Starts(d.recvBuffer, line) && IsExit(line) ==> GoesOn(c, d.(state := CLOSED), id, queue, queue)
    ensures Starts(d.recvBuffer, line) && line != [] ==>
      GoesOn(c, TakeLine(d, |line|).(state := PENDING_RESULT), id, queue, queue + [Task(id, line)])
  {
    if Starts(d.recvBuffer, line) && line != [] {
      var more := TakeLine(d, |line|).lines;
      assert more == d.lines + [line] && more[..|more| - 1] == d.lines;
    }
  }

  lemma GoesOnPromptly(c: Connection, d: Connection, id: Id, queue: seq<Task>, queue2: seq<Task>)
    requires c.sendOffset <= |c.response| && GoesOn(c, d, id, queue, queue2)
    ensures Listening(d) ==> OneLine(d.recvBuffer)
  {
  }

  predicate Listening(c: Connection) { c.state == IDLE || c.state == READING }

  /** No complete line is left lying in a connection that waits for input. */
  ghost predicate Prompt(connections: map<Id, Connection>) {
    forall id :: id in connections && Listening(connections[id]) ==> OneLine(connections[id].recvBuffer)
  }

  /** A blank line arrives, and a complete one behind it: only the first is taken. */
  predicate LeavesLine(connections: map<Id, Connection>, step: Step) {
    && step.Receive? && step.id in connections && Listening(connections[step.id]) && !step.broken && step.data != []
    && var buffer := connections[step.id].recvBuffer + step.data;
      buffer[0] == '\n' && !OneLine(buffer[1..])
  }

  predicate BlankFirst(step: Step) { step.Receive? && step.data != [] && step.data[0] == '\n' }

  lemma StartsFull(before: Text, data: Text)
    requires before + data != [] && OneLine(before)
    ensures (before + data)[0] == '\n' ==> data != [] && data[0] == '\n'
  {
    if before != [] {
      assert before[0] in before;
    }
  }

  /** A line is left only where the input begins with a blank line. */
  lemma BlankBegins(connections: map<Id, Connection>, step: Step)
    requires Prompt(connections) && LeavesLine(connections, step)
    ensures BlankFirst(step)
  {
    StartsFull(connections[step.id].recvBuffer, step.data);
  }

  /** Input leaves a line lying exactly when it completes a blank line in front of another. */
  lemma ReadsPromptly(c: Connection, data: Text, d: Connection, id: Id, queue: seq<Task>, queue2: seq<Task>)
    requires Reads(c, data, d, id, queue, queue2) && OneLine(c.recvBuffer) && data != []
    ensures var buffer := c.recvBuffer + data;
      Listening(d) && !OneLine(d.recvBuffer) <==> buffer[0] == '\n' && !OneLine(buffer[1..])
  {
    var buffer := c.recvBuffer + data;
    var nl := FirstNewline(buffer);
    if nl < |buffer| {
      assert Starts(buffer, buffer[..nl]);
      if nl == 0 {
        assert buffer[..nl] == [] && !IsExit([]);
      }
    }
  }

  function FirstNewline(s: Text): (i: nat)
    ensures i <= |s| && OneLine(s[..i]) && (i < |s| ==> s[i] == '\n') && (i == |s| ==> OneLine(s))
  {
    if s == [] || s[0] == '\n' then 0 else
      var i := 1 + FirstNewline(s[1..]);
      assert s == [s[0]] + s[1..];
      assert s[..i] == [s[0]] + s[1..][..i - 1];
      i
  }

  lemma LineTaken(c: Connection, nl: nat, state: ConnState)
    requires nl < |c.recvBuffer| && c.recvBuffer[nl] == '\n' && OneLine(c.recvBuffer[..nl])
    requires !IsExit(c.recvBuffer[..nl])
    requires Consistent(c, []) && (c.state == IDLE || c.state == READING)
    requires state == PENDING_RESULT <==> c.recvBuffer[..nl] != []
    requires state == PENDING_RESULT || state == IDLE || state == READING
    ensures Consistent(TakeLine(c, nl).(state := state), if state == PENDING_RESULT then [c.recvBuffer[..nl]] else [])
  {
    var line := c.recvBuffer[..nl];
    UnlinesMore(c.lines, line);
    assert c.recvBuffer == line + ['\n'] + c.recvBuffer[nl + 1..];
    assert c.received == Unlines(c.lines + [line]) + c.recvBuffer[nl + 1..];
    assert Lines(c.answers) + [] == Lines(c.answers);
  }

  lemma Answered(c: Connection, line: Text, response: Text)
    requires Consistent(c, [line]) && c.state == PENDING_RESULT
    ensures Consistent(c.(response := response, sendOffset := 0, state := WRITING,
      answers := c.answers + [Answer(line, response)]), [])
  {
    var a := Answer(line, response);
    LinesMore(c.answers, a);
    ResponsesMore(c.answers, a);
    assert (c.answers + [a])[..|c.answers|] == c.answers;
    assert Lines(c.answers) + [line] == Lines(c.answers + [a]) + [];
    assert response[..0] == [];
    assert c.sent == Responses(c.answers) + response[..0];
  }

  lemma PendingSize(c: Connection, pending: seq<Text>)
    requires Consistent(c, pending)
    ensures |pending| == (if c.state == PENDING_RESULT then 1 else 0)
  {
  }

  lemma ConsistentMeans(c: Connection, pending: seq<Text>)
    requires Consistent(c, pending)
    ensures c.received == Unlines(c.lines) + c.recvBuffer && Accepted(c.lines) == Lines(c.answers) + pending
    ensures c.sent <= Responses(c.answers)
    ensures c.state == IDLE || c.state == READING || c.state == PENDING_RESULT ==> c.sent == Responses(c.answers)
  {
    hide Unlines, Accepted;
    if c.state == WRITING {
      ResponsesLast(c.answers);
      assert c.response == c.response[..c.sendOffset] + c.response[c.sendOffset..];
      assert Responses(c.answers) == c.sent + c.response[c.sendOffset..];
    }
  }

  const NEW_CONNECTION := Connection(IDLE, [], [], 0, [], [], [], [])

  lemma NewIsConsistent()
    ensures Consistent(NEW_CONNECTION, [])
  {
  }

  lemma ClosedIsConsistent(c: Connection)
    requires Consistent(c, []) && c.state != PENDING_RESULT
    ensures Consistent(c.(state := CLOSED), [])
  {
    if c.state == WRITING {
      ResponsesLast(c.answers);
      assert c.response == c.response[..c.sendOffset] + c.response[c.sendOffset..];
      assert Responses(c.answers) == c.sent + c.response[c.sendOffset..];
    }
  }

  /** The connection after `data` has arrived. */
  function Arrived(c: Connection, data: Text): Connection {
    c.(state := READING, recvBuffer := c.recvBuffer + data, received := c.received + data)
  }

  lemma ArrivedIsConsistent(c: Connection, data: Text)
    requires Consistent(c, []) && (c.state == IDLE || c.state == READING)
    ensures Consistent(Arrived(c, data), [])
  {
    assert Unlines(c.lines) + (c.recvBuffer + data) == Unlines(c.lines) + c.recvBuffer + data;
  }

  function Unsent(c: Connection): int { |c.response| - c.sendOffset }

  /** The connection after `n` more bytes of its response have been sent. */
  function SentOn(c: Connection, n: nat): Connection
    requires c.sendOffset + n <= |c.response|
  {
    c.(sent := c.sent + c.response[c.sendOffset..c.sendOffset + n], sendOffset := c.sendOffset + n)
  }

  lemma SentIsConsistent(c: Connection, n: nat)
    requires Consistent(c, []) && c.state == WRITING && c.sendOffset + n <= |c.response|
    ensures Consistent(SentOn(c, n), [])
    ensures c.sendOffset + n == |c.response| ==>
      Consistent(SentOn(c, n).(response := [], sendOffset := 0, state := IDLE), [])
  {
    hide Unlines, Accepted;
    assert c.response[..c.sendOffset + n] == c.response[..c.sendOffset] + c.response[c.sendOffset..c.sendOffset + n];
    ResponsesLast(c.answers);
    assert c.response[..|c.response|] == c.response;
  }

  // ---- Tasks of a connection ----

  /** The lines queued for a connection. */
  function Queued(queue: seq<Task>, id: Id): seq<Text> {
    if queue == [] then []
    else Queued(queue[..|queue| - 1], id) + if queue[|queue| - 1].id == id then [queue[|queue| - 1].line] else []
  }

  /** The lines of a connection the worker or the queue has. */
  function Pending(queue: seq<Task>, worker: Worker, id: Id): seq<Text> {
    (if !worker.Waiting? && worker.task.id == id then [worker.task.line] else []) + Queued(queue, id)
  }

  lemma QueuedMore(queue: seq<Task>, task: Task, id: Id)
    ensures Queued(queue + [task], id) == Queued(queue, id) + if task.id == id then [task.line] else []
  {
    assert (queue + [task])[..|queue|] == queue;
  }

  lemma {:induction false} QueuedFirst(queue: seq<Task>, id: Id)
    requires queue != []
    ensures Queued(queue, id) == (if queue[0].id == id then [queue[0].line] else []) + Queued(queue[1..], id)
  {
    var init := queue[..|queue| - 1];
    if init == [] {
      assert queue[1..] == [];
    } else {
      QueuedFirst(init, id);
      assert init[1..] == queue[1..][..|queue[1..]| - 1];
    }
  }

  lemma {:induction false} NotQueued(queue: seq<Task>, id: Id)
    ensures Queued(queue, id) == [] <==> forall i :: 0 <= i < |queue| ==> queue[i].id != id
  {
    if queue != [] {
      NotQueued(queue[..|queue| - 1], id);
      assert forall i :: 0 <= i < |queue| - 1 ==> queue[..|queue| - 1][i] == queue[i];
    }
  }

  // ---- The server ----

  datatype Step =
    | Accept
    | Receive(id: Id, data: Text, broken: bool)
    | Transmit(id: Id, bytes: int)
    | Remove
    | Pop
    | Find
    | Work(text: Text)
    | Store
  {
    predicate OfIo() { Accept? || Receive? || Transmit? || Remove? }
  }

  class ServerContext {
    var connections: map<Id, Connection>
    var nextId: nat
    var queue: seq<Task>
    var worker: Worker
    var toRemove: seq<Id>

    constructor ()
      ensures Valid() && connections == map[] && nextId == 1 && queue == [] && worker == Waiting
    {
      connections, nextId, queue, worker, toRemove := map[], 1, [], Waiting, [];
    }

    /** Every connection is consistent with the tasks there are for it; tasks are only of connections
        that are there. */
    ghost predicate Valid()
      reads this
    {
      && (forall id :: id in connections ==> id < nextId && Consistent(connections[id], Pending(queue, worker, id)))
      && (forall i :: 0 <= i < |queue| ==> queue[i].id in connections)
      && (!worker.Waiting? ==> worker.task.id in connections)
      && (forall i :: 0 <= i < |toRemove| ==>
        toRemove[i] < nextId && (toRemove[i] in connections ==> connections[toRemove[i]].state == CLOSED))
      && (forall id :: id in connections && connections[id].state == CLOSED ==> id in toRemove)
    }

    /** What the I/O loop may do to a connection: nothing while its task is outstanding. */
    twostate predicate OnlyTouches(id: Id)
      reads this
    {
      && old(connections).Keys <= connections.Keys
      && forall k :: k in old(connections) && (k != id || old(connections)[k].state == PENDING_RESULT) ==>
        connections[k] == old(connections)[k]
    }

    method AcceptClient()
      requires Valid()
      modifies this
      ensures Valid() && old(nextId) !in old(connections) && nextId == old(nextId) + 1
      ensures connections == old(connections)[old(nextId) := NEW_CONNECTION] && queue == old(queue)
      ensures worker == old(worker)
    {
      hide Consistent, Unlines, Accepted, Responses, Queued;
      forall i | 0 <= i < |queue| ensures queue[i].id != nextId {
      }
      NotQueued(queue, nextId);
      NewIsConsistent();
      connections := connections[nextId := NEW_CONNECTION];
      nextId := nextId + 1;
    }

    /** Hands the line over to the worker. */
    method PushTask(id: Id, c: Connection, line: Text)
      requires id in connections && c.state == PENDING_RESULT
      requires forall k :: k in connections && k != id ==>
        k < nextId && Consistent(connections[k], Pending(queue, worker, k))
      requires id < nextId && Pending(queue, worker, id) == [] && Consistent(c, [line])
      requires forall i :: 0 <= i < |queue| ==> queue[i].id in connections
      requires !worker.Waiting? ==> worker.task.id in connections
      requires forall i :: 0 <= i < |toRemove| ==>
        && toRemove[i] < nextId
        && (toRemove[i] in connections ==> toRemove[i] != id && connections[toRemove[i]].state == CLOSED)
      requires forall k :: k in connections && k != id && connections[k].state == CLOSED ==> k in toRemove
      modifies this`connections, this`queue
      ensures Valid() && connections == old(connections)[id := c] && queue == old(queue) + [Task(id, line)]
    {
      hide Consistent, Unlines, Accepted, Responses, Queued;
      connections := connections[id := c];
      queue := queue + [Task(id, line)];
      forall k | k in connections ensures Consistent(connections[k], Pending(queue, worker, k)) {
        QueuedMore(old(queue), Task(id, line), k);
        assert Pending(queue, worker, k) == Pending(old(queue), worker, k) + if k == id then [line] else [];
        assert k != id ==> Pending(queue, worker, k) == Pending(old(queue), worker, k);
        assert k == id ==> Pending(queue, worker, k) == [line];
      }
    }

    /** Leaves a connection open and without a task. */
    method KeepOpen(id: Id, c: Connection)
      requires Valid() && id in connections && connections[id].state != PENDING_RESULT
      requires connections[id].state != CLOSED
      requires Consistent(c, []) && c.state != PENDING_RESULT && c.state != CLOSED
      modifies this`connections
      ensures Valid() && connections == old(connections)[id := c]
    {
      hide Consistent, Unlines, Accepted, Responses, Queued;
      NoneOutstanding(id);
      connections := connections[id := c];
    }

    /** Closes the connection or hands its first line over to the worker. */
    method HandleLine(id: Id, c: Connection, line: Text)
      requires Valid() && id in connections && connections[id].state != PENDING_RESULT
      requires connections[id].state != CLOSED
      requires Listening(c) && Consistent(c, []) && Starts(c.recvBuffer, line) && (IsExit(line) || line != [])
      modifies this`connections, this`queue, this`toRemove
      ensures Valid()
      ensures connections
        == old(connections)[id := if IsExit(line) then c.(state := CLOSED)
        else TakeLine(c, |line|).(state := PENDING_RESULT)]
      ensures queue == if IsExit(line) then old(queue) else old(queue) + [Task(id, line)]
    {
      hide Consistent, Unlines, Accepted, Responses, Queued, Lower;
      NoneOutstanding(id);
      if IsExit(line) {
        Close(id, c);
      } else {
        LineTaken(c, |line|, PENDING_RESULT);
        PushTask(id, TakeLine(c, |line|).(state := PENDING_RESULT), line);
      }
    }

    /** Reads what has arrived on a connection, and at most one line of it. */
    method ReceiveFrom(id: Id, data: Text, broken: bool)
      requires Valid() && id in connections
      modifies this
      ensures Valid() && OnlyTouches(id) && connections.Keys == old(connections).Keys && worker == old(worker)
      ensures nextId == old(nextId)
      ensures !old(Listening(connections[id])) ==> connections == old(connections) && queue == old(queue)
      ensures old(Listening(connections[id])) && broken ==>
        connections == old(connections)[id := old(connections)[id].(state := CLOSED)] && queue == old(queue)
      ensures old(Listening(connections[id])) && !broken ==>
        Reads(old(connections)[id], data, connections[id], id, old(queue), queue)
    {
      hide Consistent, Unlines, Accepted, Responses, Queued, Reads, Lower, IsExit, Valid;
      var c := connections[id];
      if c.state != IDLE && c.state != READING {
        return;
      }
      NoneOutstanding(id);
      if broken {
        Close(id, c);
        return;
      }
      ArrivedIsConsistent(c, data);
      c := Arrived(c, data);
      if data == [] {
        ReadsNone(connections[id], data, id, queue);
        KeepOpen(id, c);
        return;
      }
      var nl := FindNewline(c.recvBuffer);
      if nl < 0 {
        ReadsNone(connections[id], data, id, queue);
        KeepOpen(id, c);
        return;
      }
      var line := c.recvBuffer[..nl];
      assert Starts(c.recvBuffer, line);
      if IsExit(line) || line != [] {
        HandleLine(id, c, line);
      } else {
        LineTaken(c, nl, IDLE);
        KeepOpen(id, TakeLine(c, nl).(state := IDLE));
      }
      ReadsLine(old(connections)[id], data, line, connections[id], id, old(queue), queue);
    }

    lemma NoneOutstanding(id: Id)
      requires Valid() && id in connections && connections[id].state != PENDING_RESULT
      ensures Pending(queue, worker, id) == [] && (worker.Waiting? || worker.task.id != id)
      ensures Consistent(connections[id], [])
      ensures forall i :: 0 <= i < |toRemove| && toRemove[i] == id ==> connections[id].state == CLOSED
    {
      PendingSize(connections[id], Pending(queue, worker, id));
    }

    /** Closes a connection without a task. */
    method Close(id: Id, c: Connection)
      requires Valid() && id in connections && Pending(queue, worker, id) == []
      requires c.state != PENDING_RESULT && Consistent(c, [])
      modifies this`connections, this`toRemove
      ensures Valid() && connections == old(connections)[id := c.(state := CLOSED)]
    {
      hide Consistent, Unlines, Accepted, Responses, Queued;
      ClosedIsConsistent(c);
      connections := connections[id := c.(state := CLOSED)];
      toRemove := toRemove + [id];
    }

    /** Sends on what is left of a response; when all of it is sent, goes on with the lines that have
        already arrived. */
    method TransmitTo(id: Id, bytes: int)
      requires Valid() && id in connections
      requires connections[id].state == WRITING ==> bytes <= |connections[id].response| - connections[id].sendOffset
      modifies this
      ensures Valid() && OnlyTouches(id) && connections.Keys == old(connections).Keys && worker == old(worker)
      ensures nextId == old(nextId)
      ensures old(connections)[id].state == WRITING && bytes < 0 ==>
        connections == old(connections)[id := old(connections)[id].(state := CLOSED)] && queue == old(queue)
      ensures old(connections)[id].state != WRITING || bytes == 0 ==>
        connections == old(connections) && queue == old(queue)
      ensures old(connections)[id].state == WRITING && bytes > 0 ==> var c := old(connections)[id];
        if bytes < |c.response| - c.sendOffset then connections[id] == SentOn(c, bytes) && queue == old(queue)
        else GoesOn(c, connections[id], id, old(queue), queue)
    {
      hide Consistent, Unlines, Accepted, Responses, Queued, GoesOn, Skipping, Lower, IsExit, Valid;
      var c := connections[id];
      if c.state != WRITING {
        return;
      }
      NoneOutstanding(id);
      if bytes < 0 {
        Close(id, c);
        return;
      }
      if bytes == 0 {
        return;
      }
      SentIsConsistent(c, bytes);
      c := SentOn(c, bytes);
      if c.sendOffset < |c.response| {
        KeepOpen(id, c);
        return;
      }
      c := c.(response := [], sendOffset := 0, state := IDLE);
      ghost var was := connections[id];
      SkipStarts(was, c);
      while true
        invariant c.state == IDLE && Consistent(c, [])
        invariant Skipping(was, c)
        invariant Valid() && connections == old(connections) && queue == old(queue) && worker == old(worker)
        invariant toRemove == old(toRemove) && nextId == old(nextId)
        decreases |c.recvBuffer|
      {
        var nl := FindNewline(c.recvBuffer);
        if nl < 0 {
          SkipEnds(was, c, [], id, queue);
          break;
        }
        var line := c.recvBuffer[..nl];
        SkipEnds(was, c, line, id, queue);
        assert Starts(c.recvBuffer, line);
        if IsExit(line) || line != [] {
          HandleLine(id, c, line);
          return;
        }
        LineTaken(c, nl, IDLE);
        SkipBlank(was, c);
        c := TakeLine(c, nl);
      }
      KeepOpen(id, c);
    }

    /** Erases the connections that have been closed. */
    method RemoveClosed()
      requires Valid()
      modifies this
      ensures Valid() && worker == old(worker) && queue == old(queue) && nextId == old(nextId)
      ensures forall id :: id in connections <==> id in old(connections) && old(connections)[id].state != CLOSED
      ensures forall id :: id in connections ==> connections[id] == old(connections)[id]
    {
      hide Consistent, Unlines, Accepted, Responses, Queued;
      var n := 0;
      while n < |toRemove|
        invariant n <= |toRemove| && toRemove == old(toRemove) && worker == old(worker) && queue == old(queue)
        invariant nextId == old(nextId)
        invariant Valid()
        invariant forall id :: id in old(connections) && old(connections)[id].state != CLOSED ==> id in connections
        invariant forall id :: id in connections ==> id in old(connections) && connections[id] == old(connections)[id]
        invariant forall i :: 0 <= i < n ==> toRemove[i] !in connections
        decreases |toRemove| - n
      {
        var id := toRemove[n];
        if id in connections {
          NoneOutstanding(id);
          NotQueued(queue, id);
          connections := connections - {id};
        }
        n := n + 1;
      }
      assert forall id :: id in toRemove ==> id !in connections;
      toRemove := [];
    }

    // The worker

    method PopTask()
      requires Valid() && worker == Waiting
      modifies this
      ensures Valid() && connections == old(connections) && nextId == old(nextId)
      ensures old(queue) == [] ==> worker == Waiting && queue == []
      ensures old(queue) != [] ==> worker == Taken(old(queue)[0]) && queue == old(queue)[1..]
    {
      hide Consistent, Unlines, Accepted, Responses, Queued;
      if queue == [] {
        return;
      }
      ghost var was := queue;
      worker := Taken(queue[0]);
      queue := queue[1..];
      forall id | id in connections ensures Pending(queue, worker, id) == Pending(was, Waiting, id) {
        QueuedFirst(was, id);
      }
      forall i | 0 <= i < |queue| ensures queue[i].id in connections {
        assert queue[i] == was[i + 1];
      }
    }

    /** Looks the connection up under the lock; from here on it is used without one. */
    method FindConnection()
      requires Valid() && worker.Taken?
      modifies this
      ensures Valid() && connections == old(connections) && queue == old(queue) && worker == Working(old(worker).task)
      ensures nextId == old(nextId)
    {
      hide Consistent, Unlines, Accepted, Responses, Queued;
      if worker.task.id !in connections {
        assert false;
      }
      ghost var w := worker;
      worker := Working(worker.task);
      assert forall id :: id in connections ==> Pending(queue, worker, id) == Pending(queue, w, id);
    }

    /** Runs the query, or finds that its database is gone; either way there is a response. */
    method RunQuery(response: Text)
      requires Valid() && worker.Working?
      modifies this
      ensures Valid() && connections == old(connections) && queue == old(queue)
      ensures worker == Done(old(worker).task, response) && nextId == old(nextId)
    {
      hide Consistent, Unlines, Accepted, Responses, Queued;
      ghost var w := worker;
      worker := Done(worker.task, response);
      assert forall id :: id in connections ==> Pending(queue, worker, id) == Pending(queue, w, id);
    }

    /** Puts the response into the connection, which is still there and still waits for it. */
    method StoreResponse()
      requires Valid() && worker.Done?
      modifies this
      ensures Valid() && queue == old(queue) && worker == Waiting && nextId == old(nextId)
      ensures connections.Keys == old(connections).Keys
      ensures var task := old(worker).task; var c := old(connections)[task.id];
        c.state == PENDING_RESULT && connections == old(connections)[task.id :=
          c.(response := old(worker).response, sendOffset := 0, state := WRITING,
            answers := c.answers + [Answer(task.line, old(worker).response)])]
    {
      hide Consistent, Unlines, Accepted, Responses, Queued;
      var id := worker.task.id;
      if id !in connections {
        assert false;
      }
      TaskOf(id);
      var c := connections[id];
      ghost var w := worker;
      Answered(c, worker.task.line, worker.response);
      connections := connections[id := c.(response := worker.response, sendOffset := 0, state := WRITING,
        answers := c.answers + [Answer(worker.task.line, worker.response)])];
      worker := Waiting;
      assert forall k :: k in connections && k != id ==> Pending(queue, worker, k) == Pending(queue, w, k);
      assert Pending(queue, worker, id) == [];
    }

    /** The connection of the worker's task waits for just that task. */
    lemma TaskOf(id: Id)
      requires Valid() && !worker.Waiting? && id == worker.task.id
      ensures id in connections && connections[id].state == PENDING_RESULT
      ensures Pending(queue, worker, id) == [worker.task.line] && Queued(queue, id) == []
    {
      PendingSize(connections[id], Pending(queue, worker, id));
    }

    /** A connection waits for a result exactly when the queue or the worker has one task for it; it has
        never more than one, and none otherwise. */
    lemma WaitsForOne(id: Id)
      requires Valid() && id in connections
      ensures |Pending(queue, worker, id)| == if connections[id].state == PENDING_RESULT then 1 else 0
    {
      assert Consistent(connections[id], Pending(queue, worker, id));
    }

    /** Every line that makes a task has got one response, in the order of the lines, but for the one
        line that is outstanding; and what has been sent are those responses, in that order. */
    lemma AnsweredInOrder(id: Id)
      requires Valid() && id in connections
      ensures var c := connections[id];
        && c.received == Unlines(c.lines) + c.recvBuffer
        && Accepted(c.lines) == Lines(c.answers) + Pending(queue, worker, id)
        && c.sent <= Responses(c.answers)
        && (c.state == IDLE || c.state == READING || c.state == PENDING_RESULT ==> c.sent == Responses(c.answers))
    {
      hide Consistent, Unlines, Accepted, Responses, Queued;
      ConsistentMeans(connections[id], Pending(queue, worker, id));
    }

    // All interleavings

    /** Receiving keeps a server prompt unless it leaves a line. */
    lemma StaysPrompt(was: map<Id, Connection>, is_: map<Id, Connection>, queue: seq<Task>, queue2: seq<Task>,
            step: Step)
      requires step.Receive? && step.id in was && is_.Keys == was.Keys
      requires forall k :: k in was && k != step.id ==> is_[k] == was[k]
      requires !Listening(was[step.id]) ==> is_ == was
      requires Listening(was[step.id]) && step.broken ==> is_[step.id].state == CLOSED
      requires Listening(was[step.id]) && !step.broken ==>
        Reads(was[step.id], step.data, is_[step.id], step.id, queue, queue2)
      ensures Prompt(was) ==> (Prompt(is_) <==> !LeavesLine(was, step))
    {
      if Prompt(was) && Listening(was[step.id]) && !step.broken {
        if step.data == [] {
          assert was[step.id].recvBuffer + [] == was[step.id].recvBuffer;
        } else {
          ReadsPromptly(was[step.id], step.data, is_[step.id], step.id, queue, queue2);
        }
      }
    }

    /** What a step does: that of its method if it can be taken, else nothing. */
    twostate predicate Stepped(step: Step)
      reads this
    {
      match step
      case Accept =>
        && connections == old(connections)[old(nextId) := NEW_CONNECTION] && nextId == old(nextId) + 1
        && queue == old(queue) && worker == old(worker)
      case Receive(id, data, broken) =>
        && nextId == old(nextId) && worker == old(worker) && connections.Keys == old(connections).Keys
        && (forall k :: k in old(connections) && k != id ==> connections[k] == old(connections)[k])
        && if id !in old(connections) || !Listening(old(connections)[id]) then
             connections == old(connections) && queue == old(queue)
           else if broken then
             connections[id] == old(connections)[id].(state := CLOSED) && queue == old(queue)
           else
             Reads(old(connections)[id], data, connections[id], id, old(queue), queue)
      case Transmit(id, bytes) =>
        && nextId == old(nextId) && worker == old(worker) && connections.Keys == old(connections).Keys
        && (forall k :: k in old(connections) && k != id ==> connections[k] == old(connections)[k])
        && if id !in old(connections) || old(connections)[id].state != WRITING || bytes == 0
             || bytes > Unsent(old(connections)[id]) then
             connections == old(connections) && queue == old(queue)
           else var c := old(connections)[id];
             if bytes < 0 then connections[id] == c.(state := CLOSED) && queue == old(queue)
             else if bytes < Unsent(c) then connections[id] == SentOn(c, bytes) && queue == old(queue)
             else GoesOn(c, connections[id], id, old(queue), queue)
      case Remove =>
        && nextId == old(nextId) && worker == old(worker) && queue == old(queue)
        && (forall k :: k in connections <==> k in old(connections) && old(connections)[k].state != CLOSED)
        && forall k :: k in connections ==> connections[k] == old(connections)[k]
      case Pop =>
        && nextId == old(nextId) && connections == old(connections)
        && if old(worker) != Waiting || old(queue) == [] then worker == old(worker) && queue == old(queue)
           else worker == Taken(old(queue)[0]) && queue == old(queue)[1..]
      case Find =>
        && nextId == old(nextId) && connections == old(connections) && queue == old(queue)
        && worker == if old(worker).Taken? then Working(old(worker).task) else old(worker)
      case Work(text) =>
        && nextId == old(nextId) && connections == old(connections) && queue == old(queue)
        && worker == if old(worker).Working? then Done(old(worker).task, text) else old(worker)
      case Store =>
        && nextId == old(nextId) && queue == old(queue)
        && if !old(worker).Done? then worker == old(worker) && connections == old(connections)
           else
             var task := old(worker).task;
             task.id in old(connections) &&
             var c := old(connections)[task.id];
             worker == Waiting && connections == old(connections)[task.id := c.(response := old(worker).response,
               sendOffset := 0, state := WRITING, answers := c.answers + [Answer(task.line, old(worker).response)])]
    }

    /** A connection that waits for a result is left alone but for its own response. */
    twostate predicate WaitingKept(step: Step)
      reads this
    {
      forall id :: id in old(connections) && old(connections)[id].state == PENDING_RESULT ==>
        id in connections
          && (connections[id] == old(connections)[id]
          || (step == Store && old(worker).Done? && old(worker).task.id == id))
    }

    /** A step of the I/O loop. */
    method DoIo(step: Step)
      requires Valid() && step.OfIo()
      modifies this
      ensures Valid() && Stepped(step) && WaitingKept(step)
      ensures old(Prompt(connections)) ==> (Prompt(connections) <==> !LeavesLine(old(connections), step))
    {
      hide Consistent, Unlines, Accepted, Responses, Queued, Reads, GoesOn, Pending;
      ghost var was := connections;
      match step {
        case Accept => AcceptClient();
        case Receive(id, data, broken) =>
          if id in connections {
            ReceiveFrom(id, data, broken);
            StaysPrompt(old(connections), connections, old(queue), queue, step);
          }
        case Transmit(id, bytes) =>
          if id in connections && bytes <= Unsent(connections[id]) {
            TransmitTo(id, bytes);
            if was[id].state == WRITING && 0 < bytes == Unsent(was[id]) {
              GoesOnPromptly(was[id], connections[id], id, old(queue), queue);
            }
          }
        case Remove => RemoveClosed();
      }
    }

    /** A step of the worker. */
    method DoWork(step: Step)
      requires Valid() && !step.OfIo()
      modifies this
      ensures Valid() && Stepped(step) && WaitingKept(step)
      ensures old(Prompt(connections)) ==> Prompt(connections)
    {
      hide Consistent, Unlines, Accepted, Responses, Queued, Reads, GoesOn, Pending;
      match step {
        case Pop => if worker == Waiting { PopTask(); }
        case Find => if worker.Taken? { FindConnection(); }
        case Work(text) => if worker.Working? { RunQuery(text); }
        case Store => if worker.Done? { StoreResponse(); }
      }
    }

    method Do(step: Step)
      requires Valid()
      modifies this
      ensures Valid() && Stepped(step) && WaitingKept(step)
      ensures !worker.Waiting? ==> worker.task.id in connections && connections[worker.task.id].state == PENDING_RESULT
      ensures old(Prompt(connections)) ==> (Prompt(connections) <==> !LeavesLine(old(connections), step))
    {
      hide Valid, Stepped, WaitingKept, Prompt;
      if step.OfIo() {
        DoIo(step);
      } else {
        DoWork(step);
      }
      if !worker.Waiting? {
        TaskOf(worker.task.id);
      }
    }

    /** In every interleaving of the I/O loop and the worker the connection the worker uses is there and
        waits for it, and a connection waits exactly when there is one task for it.  While no input
        begins with a blank line, no complete line is ever left lying. */
    method Interleave(steps: seq<Step>)
      requires Valid()
      modifies this
      ensures Valid()
      ensures !worker.Waiting? ==> worker.task.id in connections && connections[worker.task.id].state == PENDING_RESULT
      ensures forall id :: id in connections ==>
        |Pending(queue, worker, id)| == if connections[id].state == PENDING_RESULT then 1 else 0
      ensures old(Prompt(connections)) && (forall n :: 0 <= n < |steps| ==> !BlankFirst(steps[n])) ==>
        Prompt(connections)
    {
      for n := 0 to |steps|
        invariant Valid()
        invariant old(Prompt(connections)) && (forall m :: 0 <= m < n ==> !BlankFirst(steps[m])) ==> Prompt(connections)
      {
        if Prompt(connections) && LeavesLine(connections, steps[n]) {
          BlankBegins(connections, steps[n]);
        }
        Do(steps[n]);
      }
      if !worker.Waiting? {
        TaskOf(worker.task.id);
      }
      forall id | id in connections
        ensures |Pending(queue, worker, id)| == if connections[id].state == PENDING_RESULT then 1 else 0
      {
        WaitsForOne(id);
      }
    }
  }

  /** A complete line does stay behind: a client sends a blank line and another in one go, and the
      second is not handed over, although nothing is outstanding. */
  method LineLeftLying() returns (server: ServerContext)
    ensures fresh(server) && server.Valid() && !Prompt(server.connections)
    ensures server.queue == [] && server.worker == Waiting
  {
    hide Consistent, Unlines, Accepted, Responses, Queued, Reads, ServerContext.Valid, Lower;
    server := new ServerContext();
    server.AcceptClient();
    server.ReceiveFrom(1, TWO_LINES, false);
    BlankFirstOnly(server.connections[1], 1, server.queue);
  }

  const TWO_LINES := ['\n', 'a', '\n']

  lemma BlankFirstOnly(d: Connection, id: Id, queue2: seq<Task>)
    requires Reads(NEW_CONNECTION, TWO_LINES, d, id, [], queue2)
    ensures d.state == IDLE && !OneLine(d.recvBuffer) && queue2 == []
  {
    var buffer := NEW_CONNECTION.recvBuffer + TWO_LINES;
    assert buffer == TWO_LINES;
    assert Starts(buffer, []);
    assert |Lower([])| == 0;
    assert d.recvBuffer == TWO_LINES[1..] && d.recvBuffer[1] == '\n';
  }
}
