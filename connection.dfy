/**
  The request loop of the cache server (handleRequest) over one connection,
  read as a finite sequence of lines. Each round reads a header line; a
  valid set or replace header also reads the next line as the value. The
  replies are the protocol's fixed strings and the VALUE block of get.

  Each header line comes with a clock reading (`times[i]` for line `i`).
  For get it is the reading taken while handling the header; for set and
  replace it stands for the reading `set` takes after the value line has
  been read. The readings that line up with value lines are unused.
*/
module Connection {
  import opened Wrappers
  import opened GoInt
  import opened Protocol
  import opened Store

  const NotStoredReply: string := "NOT_STORED\r\n"
  const StoredReply: string := "STORED\r\n"
  const EndReply: string := "END\r\n"

  /** The reply to a get that found `e` under `key`: header line, then the value line. */
  function ValueReply(key: string, e: Entry): string {
    "VALUE " + key + " " + e.flags + " " + e.byteCount + "\r\n" + e.value + "\r\n"
  }

  /** The outcome of handling one header: the cache afterwards, the reply if any, and whether the value line was read. */
  datatype Step = Step(entries: map<string, Entry>, reply: Option<string>, readsValue: bool)

  /**
    One round of the loop for header line `header` at time `now`; `payload`
    is the line after it, None at the end of input (where the Go scanner
    yields the empty text). The contract is the reply table of the handler.
  */
  function Dispatch(m: map<string, Entry>, now: Int64, header: string, payload: Option<string>): (s: Step)
    // an invalid header: no reply, nothing read, nothing changed
    ensures s.reply.None? <==> ValidateRequest(header).None?
    ensures s.reply.None? ==> s.entries == m && !s.readsValue
    // set and replace read the value line and answer STORED or NOT_STORED
    ensures ValidateRequest(header).Some? && ValidateRequest(header).value.command != Get ==>
      var req := ValidateRequest(header).value;
      var key := req.args[1];
      var stores := if req.command == Set then key !in m else key in m;
      && s.readsValue
      && s.reply == Some(if stores then StoredReply else NotStoredReply)
      && (!stores ==> s.entries == m)
      && (stores ==> s.entries == m[key := Entry(if payload.Some? then payload.value else "", req.args[2],
                                                  ExpiryOf(req.args[3], now), req.args[4])])
    // get answers END when absent or expired, else echoes the stored entry
    ensures ValidateRequest(header).Some? && ValidateRequest(header).value.command == Get ==>
      var key := ValidateRequest(header).value.args[1];
      var live := key in m && !Expired(m[key], now);
      && !s.readsValue
      && s.reply == Some(if live then ValueReply(key, m[key]) else EndReply)
      && s.entries == if live || key !in m then m else m - {key}
  {
    match ValidateRequest(header)
    case None => Step(m, None, false)
    case Some(Request(command, args)) =>
      var key := args[1];
      if command == Get then
        var (found, after) := Lookup(m, key, now);
        Step(after, Some(if found.Some? then ValueReply(key, found.value) else EndReply), false)
      else
        var value := if payload.Some? then payload.value else "";
        if command == Replace && key !in m then Step(m, Some(NotStoredReply), true)
        else
          var (ok, after) := Put(m, key, value, args[2], args[3], args[4], command == Replace, now);
          Step(after, Some(if ok then StoredReply else NotStoredReply), true)
  }

  /** One round of the loop on the cache itself. */
  method HandleRequest(cache: Cache, now: Int64, header: string, payload: Option<string>)
    returns (reply: Option<string>, readsValue: bool)
    modifies cache
    ensures Step(cache.entries, reply, readsValue) == Dispatch(old(cache.entries), now, header, payload)
  {
    var request := ValidateRequest(header);
    if request.None? {
      return None, false;
    }
    var args := request.value.args;
    var key := args[1];
    match request.value.command
    case Get =>
      var result := cache.Get(key, now);
      if result.None? {
        return Some(EndReply), false;
      }
      return Some(ValueReply(key, result.value)), false;
    case Set =>
      var value := if payload.Some? then payload.value else "";
      var ok := cache.Set(key, value, args[2], args[3], args[4], false, now);
      return Some(if ok then StoredReply else NotStoredReply), true;
    case Replace =>
      var value := if payload.Some? then payload.value else "";
      if key !in cache.entries {
        return Some(NotStoredReply), true;
      }
      var ok := cache.Set(key, value, args[2], args[3], args[4], true, now);
      return Some(if ok then StoredReply else NotStoredReply), true;
  }

  /** The cache and the replies after handling every line in turn. */
  function Run(m: map<string, Entry>, lines: seq<string>, times: seq<Int64>): (r: (map<string, Entry>, seq<string>))
    requires |times| == |lines|
    decreases |lines|
  {
    if lines == [] then (m, [])
    else
      var s := Dispatch(m, times[0], lines[0], if |lines| > 1 then Some(lines[1]) else None);
      var next := if s.readsValue && |lines| > 1 then 2 else 1;
      var rest := Run(s.entries, lines[next..], times[next..]);
      (rest.0, (if s.reply.Some? then [s.reply.value] else []) + rest.1)
  }

  /** Every round consumes at least one line and sends at most one reply. */
  lemma {:induction false} RepliesBounded(m: map<string, Entry>, lines: seq<string>, times: seq<Int64>)
    requires |times| == |lines|
    ensures |Run(m, lines, times).1| <= |lines|
    decreases |lines|
  {
    if lines != [] {
      var s := Dispatch(m, times[0], lines[0], if |lines| > 1 then Some(lines[1]) else None);
      var next := if s.readsValue && |lines| > 1 then 2 else 1;
      RepliesBounded(s.entries, lines[next..], times[next..]);
    }
  }

  /** One round of `Run`, with the step and the next header's index named. */
  lemma RunStep(m: map<string, Entry>, lines: seq<string>, times: seq<Int64>, s: Step, next: nat)
    requires |times| == |lines| && |lines| > 0
    requires s == Dispatch(m, times[0], lines[0], if |lines| > 1 then Some(lines[1]) else None)
    requires next == if s.readsValue && |lines| > 1 then 2 else 1
    ensures next <= |lines|
    ensures Run(m, lines, times)
         == (Run(s.entries, lines[next..], times[next..]).0,
             (if s.reply.Some? then [s.reply.value] else []) + Run(s.entries, lines[next..], times[next..]).1)
  {
  }

  /**
    What the loop keeps: handling `lines[i..]` from the current cache, after
    the replies already sent, gives what handling all lines from the start gives.
  */
  ghost predicate ServedUpTo(start: map<string, Entry>, lines: seq<string>, times: seq<Int64>, i: nat,
                             current: map<string, Entry>, replies: seq<string>)
    requires |times| == |lines| && i <= |lines|
  {
    Run(start, lines, times) == (Run(current, lines[i..], times[i..]).0, replies + Run(current, lines[i..], times[i..]).1)
  }

  /** Nothing is handled yet at the start. */
  lemma ServedNothing(start: map<string, Entry>, lines: seq<string>, times: seq<Int64>)
    requires |times| == |lines|
    ensures ServedUpTo(start, lines, times, 0, start, [])
  {
    assert lines[0..] == lines && times[0..] == times;
    assert [] + Run(start, lines, times).1 == Run(start, lines, times).1;
  }

  /**
    Handling the lines from `i` on from cache `current` is: the step `s`
    (and its reply), then handling the lines from `next` on.
  */
  ghost predicate StepsTo(current: map<string, Entry>, lines: seq<string>, times: seq<Int64>, i: nat, s: Step, next: nat)
    requires |times| == |lines| && i <= next <= |lines|
  {
    Run(current, lines[i..], times[i..])
      == (Run(s.entries, lines[next..], times[next..]).0,
          (if s.reply.Some? then [s.reply.value] else []) + Run(s.entries, lines[next..], times[next..]).1)
  }

  /** One round of `Run` on the lines from `i` on. */
  lemma RunFrom(current: map<string, Entry>, lines: seq<string>, times: seq<Int64>, i: nat, s: Step, next: nat)
    requires |times| == |lines| && i < |lines|
    requires s == Dispatch(current, times[i], lines[i], if i + 1 < |lines| then Some(lines[i + 1]) else None)
    requires next == if s.readsValue && i + 1 < |lines| then i + 2 else i + 1
    ensures i < next <= |lines| && StepsTo(current, lines, times, i, s, next)
  {
    assert lines[i..][0] == lines[i] && times[i..][0] == times[i];
    assert |lines[i..]| > 1 ==> lines[i..][1] == lines[i + 1];
    RunStep(current, lines[i..], times[i..], s, next - i);
    assert lines[i..][next - i..] == lines[next..] && times[i..][next - i..] == times[next..];
  }

  /** Handling the header at `i` (and its value line, when read) keeps the loop's promise. */
  lemma ServedOneMore(start: map<string, Entry>, lines: seq<string>, times: seq<Int64>, i: nat,
                      current: map<string, Entry>, replies: seq<string>, s: Step, next: nat)
    requires |times| == |lines| && i < next <= |lines|
    requires ServedUpTo(start, lines, times, i, current, replies)
    requires StepsTo(current, lines, times, i, s, next)
    ensures ServedUpTo(start, lines, times, next, s.entries, replies + if s.reply.Some? then [s.reply.value] else [])
  {
    var said := if s.reply.Some? then [s.reply.value] else [];
    var rest := Run(s.entries, lines[next..], times[next..]);
    assert replies + (said + rest.1) == (replies + said) + rest.1;
  }

  /** Once every line is handled, the promise is the result. */
  lemma ServedAll(start: map<string, Entry>, lines: seq<string>, times: seq<Int64>,
                  current: map<string, Entry>, replies: seq<string>)
    requires |times| == |lines|
    requires ServedUpTo(start, lines, times, |lines|, current, replies)
    ensures Run(start, lines, times) == (current, replies)
  {
    assert lines[|lines|..] == [] && times[|lines|..] == [];
    assert replies + [] == replies;
  }

  /** The loop of handleRequest over a finite input; it stops when the lines run out. */
  method Serve(cache: Cache, lines: seq<string>, times: seq<Int64>) returns (replies: seq<string>)
    requires |times| == |lines|
    modifies cache
    ensures (cache.entries, replies) == Run(old(cache.entries), lines, times)
  {
    replies := [];
    var i := 0;
    ServedNothing(cache.entries, lines, times);
    while i < |lines|
      invariant i <= |lines|
      invariant ServedUpTo(old(cache.entries), lines, times, i, cache.entries, replies)
      decreases |lines| - i
    {
      var payload := if i + 1 < |lines| then Some(lines[i + 1]) else None;
      ghost var before := cache.entries;
      var reply, readsValue := HandleRequest(cache, times[i], lines[i], payload);
      var next := if readsValue && i + 1 < |lines| then i + 2 else i + 1;
      RunFrom(before, lines, times, i, Step(cache.entries, reply, readsValue), next);
      ServedOneMore(old(cache.entries), lines, times, i, before, replies, Step(cache.entries, reply, readsValue), next);
      if reply.Some? {
        replies := replies + [reply.value];
      } else {
        assert replies + [] == replies;
      }
      i := next;
    }
    ServedAll(old(cache.entries), lines, times, cache.entries, replies);
  }

  // ---------------------------------------------------------------------
  // Conversations.
  // ---------------------------------------------------------------------

  /** An invalid header is dropped on its own: no reply, no change, and the next line is read as a header. */
  lemma InvalidHeaderSkipped(m: map<string, Entry>, lines: seq<string>, times: seq<Int64>)
    requires |times| == |lines| && |lines| > 0
    requires ValidateRequest(lines[0]).None?
    ensures Run(m, lines, times) == Run(m, lines[1..], times[1..])
  {
    var s := Dispatch(m, times[0], lines[0], if |lines| > 1 then Some(lines[1]) else None);
    RunStep(m, lines, times, s, 1);
    assert [] + Run(m, lines[1..], times[1..]).1 == Run(m, lines[1..], times[1..]).1;
  }

  /** Handling no lines changes nothing and answers nothing. */
  lemma RunDone(m: map<string, Entry>, lines: seq<string>, times: seq<Int64>)
    requires |times| == |lines| == 0
    ensures Run(m, lines, times) == (m, [])
  {
  }

  /** The replies to a header line and its value line followed by one more header. */
  lemma TwoRequests(m: map<string, Entry>, first: string, value: string, second: string, now: Int64, later: Int64,
                    s1: Step, s2: Step)
    requires s1 == Dispatch(m, now, first, Some(value)) && s1.readsValue && s1.reply.Some?
    requires s2 == Dispatch(s1.entries, later, second, None) && s2.reply.Some?
    ensures Run(m, [first, value, second], [now, now, later]) == (s2.entries, [s1.reply.value, s2.reply.value])
  {
    RunStep(m, [first, value, second], [now, now, later], s1, 2);
    assert [first, value, second][2..] == [second] && [now, now, later][2..] == [later];
    RunStep(s1.entries, [second], [later], s2, 1);
    RunDone(s2.entries, [second][1..], [later][1..]);
    assert [s2.reply.value] + [] == [s2.reply.value];
    assert [s1.reply.value] + [s2.reply.value] == [s1.reply.value, s2.reply.value];
  }

  /** A header line and its value line, with nothing after. */
  lemma OneStore(m: map<string, Entry>, first: string, value: string, now: Int64, s: Step)
    requires s == Dispatch(m, now, first, Some(value)) && s.readsValue && s.reply.Some?
    ensures Run(m, [first, value], [now, now]) == (s.entries, [s.reply.value])
  {
    RunStep(m, [first, value], [now, now], s, 2);
    RunDone(s.entries, [first, value][2..], [now, now][2..]);
    assert [s.reply.value] + [] == [s.reply.value];
  }

  /** A set with exptime "0" of an absent key, then a get of that key at any later time, echoes the stored line. */
  lemma SetThenGet(m: map<string, Entry>, setLine: string, value: string, getLine: string, now: Int64, later: Int64,
                   args: seq<string>, getArgs: seq<string>)
    requires ValidateRequest(setLine) == Some(Request(Set, args)) && args[3] == "0" && args[1] !in m
    requires ValidateRequest(getLine) == Some(Request(Get, getArgs)) && getArgs[1] == args[1]
    ensures Run(m, [setLine, value, getLine], [now, now, later]).1
         == [StoredReply, ValueReply(args[1], Entry(value, args[2], MaxInt64, args[4]))]
  {
    var s1 := Dispatch(m, now, setLine, Some(value));
    TwoRequests(m, setLine, value, getLine, now, later, s1, Dispatch(s1.entries, later, getLine, None));
  }

  /** A replace of an absent key answers NOT_STORED, consumes the value line, and a following get finds nothing. */
  lemma ReplaceAbsentThenGet(m: map<string, Entry>, replaceLine: string, value: string, getLine: string,
                             now: Int64, later: Int64, args: seq<string>, getArgs: seq<string>)
    requires ValidateRequest(replaceLine) == Some(Request(Replace, args)) && args[1] !in m
    requires ValidateRequest(getLine) == Some(Request(Get, getArgs)) && getArgs[1] == args[1]
    ensures Run(m, [replaceLine, value, getLine], [now, now, later]) == (m, [NotStoredReply, EndReply])
  {
    var s1 := Dispatch(m, now, replaceLine, Some(value));
    TwoRequests(m, replaceLine, value, getLine, now, later, s1, Dispatch(s1.entries, later, getLine, None));
  }

  /** A plain set of a key already present answers NOT_STORED and keeps the old entry, even an expired one. */
  lemma SetPresentRefused(m: map<string, Entry>, setLine: string, value: string, now: Int64, args: seq<string>)
    requires ValidateRequest(setLine) == Some(Request(Set, args)) && args[1] in m
    ensures Run(m, [setLine, value], [now, now]) == (m, [NotStoredReply])
  {
    OneStore(m, setLine, value, now, Dispatch(m, now, setLine, Some(value)));
  }

  /** A replace of a key that has expired but was not yet evicted still stores. */
  lemma ReplaceExpiredStores(m: map<string, Entry>, replaceLine: string, value: string, now: Int64, args: seq<string>)
    requires ValidateRequest(replaceLine) == Some(Request(Replace, args))
    requires args[1] in m && Expired(m[args[1]], now)
    ensures var after := Run(m, [replaceLine, value], [now, now]);
      after.1 == [StoredReply] && args[1] in after.0 && after.0[args[1]].value == value
  {
    OneStore(m, replaceLine, value, now, Dispatch(m, now, replaceLine, Some(value)));
  }

  /** A set with a negative exptime, then a get of that key in the same second, answers END. */
  lemma NegativeExptimeThenGet(m: map<string, Entry>, setLine: string, value: string, getLine: string, now: Int64,
                               args: seq<string>, getArgs: seq<string>)
    requires 0 <= now
    requires ValidateRequest(setLine) == Some(Request(Set, args)) && args[1] !in m
    requires ParseInt(args[3]) < 0
    requires ValidateRequest(getLine) == Some(Request(Get, getArgs)) && getArgs[1] == args[1]
    ensures Run(m, [setLine, value, getLine], [now, now, now]).1 == [StoredReply, EndReply]
  {
    ParseIntNegative(args[3]);
    assert args[3] != "0";
    var s1 := Dispatch(m, now, setLine, Some(value));
    TwoRequests(m, setLine, value, getLine, now, now, s1, Dispatch(s1.entries, now, getLine, None));
  }

  /** A replace with exptime "0" of a present key, then a get of it, echoes the replacing line. */
  lemma ReplaceThenGet(m: map<string, Entry>, replaceLine: string, value: string, getLine: string,
                       now: Int64, later: Int64, replaceArgs: seq<string>, getArgs: seq<string>)
    requires ValidateRequest(replaceLine) == Some(Request(Replace, replaceArgs)) && replaceArgs[1] in m
    requires replaceArgs[3] == "0"
    requires ValidateRequest(getLine) == Some(Request(Get, getArgs)) && getArgs[1] == replaceArgs[1]
    ensures Run(m, [replaceLine, value, getLine], [now, now, later]).1
         == [StoredReply, ValueReply(replaceArgs[1], Entry(value, replaceArgs[2], MaxInt64, replaceArgs[4]))]
  {
    var s1 := Dispatch(m, now, replaceLine, Some(value));
    TwoRequests(m, replaceLine, value, getLine, now, later, s1, Dispatch(s1.entries, later, getLine, None));
  }
}
