/** The buffer that sends log lines in batches and keeps failed batches for a retry. */
module LogAppender {

  /** A line with the time at which it was appended. */
  datatype Entry = Entry(time: int, line: string)

  datatype Limits = Limits(lines: int, seconds: int)

  /** The buffers, together with everything appended so far and the accepted batches. */
  datatype State = State(buf: seq<Entry>, retrybuf: seq<Entry>, lastSent: int,
                         appended: seq<Entry>, delivered: seq<seq<Entry>>)

  /** A call, with the readings of the clock it makes and the answer of the callback. */
  datatype Event =
    | Call(line: string, appendTime: int, checkTime: int, submitTime: int, accepted: bool)
    | Submit(submitTime: int, accepted: bool)

  function SubmitStep(st: State, time: int, accepted: bool): State {
    if |st.buf| + |st.retrybuf| == 0 then st
    else if accepted then
      State([], [], time, st.appended, st.delivered + [st.buf + st.retrybuf])
    else
      State([], st.retrybuf + st.buf, time, st.appended, st.delivered)
  }

  /** The state after a call has stored its line, before it decides whether to submit. */
  function Stored(st: State, e: Event): State {
    if e.Submit? then st
    else
      var entry := Entry(e.appendTime, e.line);
      st.(buf := st.buf + [entry], appended := st.appended + [entry])
  }

  /** A call submits when the buffer is full or old enough. */
  predicate Due(limits: Limits, st: State, e: Event) {
    e.Submit? || |Stored(st, e).buf| >= limits.lines || e.checkTime - st.lastSent >= limits.seconds
  }

  function Step(limits: Limits, st: State, e: Event): State {
    if Due(limits, st, e) then SubmitStep(Stored(st, e), e.submitTime, e.accepted) else Stored(st, e)
  }

  function Run(limits: Limits, st: State, es: seq<Event>): State {
    if es == [] then st else Step(limits, Run(limits, st, es[..|es| - 1]), es[|es| - 1])
  }

  function Start(time: int): State {
    State([], [], time, [], [])
  }

  function Flatten(batches: seq<seq<Entry>>): seq<Entry> {
    if batches == [] then [] else Flatten(batches[..|batches| - 1]) + batches[|batches| - 1]
  }

  lemma FlattenPush(batches: seq<seq<Entry>>, b: seq<Entry>)
    ensures Flatten(batches + [b]) == Flatten(batches) + b
  {
    assert (batches + [b])[..|batches|] == batches;
  }

  // ----- nothing is lost and nothing is sent twice

  ghost predicate Conserved(st: State) {
    multiset(st.appended) == multiset(Flatten(st.delivered)) + multiset(st.buf) + multiset(st.retrybuf)
  }

  lemma StoreConserves(st: State, e: Event)
    requires Conserved(st)
    ensures Conserved(Stored(st, e))
  {
  }

  lemma SubmitConserves(st: State, time: int, accepted: bool)
    requires Conserved(st)
    ensures Conserved(SubmitStep(st, time, accepted))
  {
    FlattenPush(st.delivered, st.buf + st.retrybuf);
    assert multiset(Flatten(st.delivered) + (st.buf + st.retrybuf)) ==
           multiset(Flatten(st.delivered)) + multiset(st.buf) + multiset(st.retrybuf);
  }

  /** Over every sequence of calls and callback answers, the lines appended are the lines in
      accepted batches and the lines still held, each counted as often as it was appended;
      with a positive limit the buffer stays below it. */
  lemma {:induction false} RunConserves(limits: Limits, time: int, es: seq<Event>)
    ensures Conserved(Run(limits, Start(time), es))
    ensures limits.lines > 0 ==> |Run(limits, Start(time), es).buf| < limits.lines
    decreases |es|
  {
    if es != [] {
      RunConserves(limits, time, es[..|es| - 1]);
      var st, e := Run(limits, Start(time), es[..|es| - 1]), es[|es| - 1];
      StoreConserves(st, e);
      SubmitConserves(Stored(st, e), e.submitTime, e.accepted);
    }
  }

  // ----- when a batch is sent

  /** The call only stores its line: there is room for another, and the last attempt to send
      was not long ago. */
  predicate Waits(limits: Limits, st: State, e: Event) {
    e.Call? && |st.buf| + 1 < limits.lines && e.checkTime - st.lastSent < limits.seconds
  }

  /** The call tries to send what there is. */
  predicate Tries(limits: Limits, st: State, e: Event) {
    !Waits(limits, st, e) && (e.Call? || st.buf != [] || st.retrybuf != [])
  }

  lemma StepKinds(limits: Limits, st: State, e: Event)
    ensures var st' := Step(limits, st, e);
            && (st'.buf != [] <==> Waits(limits, st, e))
            && (Waits(limits, st, e) ==> st'.delivered == st.delivered && st'.retrybuf == st.retrybuf)
            && st'.lastSent == if Tries(limits, st, e) then e.submitTime else st.lastSent
  {
  }

  predicate TriesAt(limits: Limits, time: int, es: seq<Event>, k: nat)
    requires k < |es|
  {
    Tries(limits, Run(limits, Start(time), es[..k]), es[k])
  }

  /** Over every run, the time that is kept is that of the last attempt to send, or of the
      start; lines wait in the buffer only if the last call was within both limits. */
  lemma {:induction false} LastSentIs(limits: Limits, time: int, es: seq<Event>, k: int)
    requires -1 <= k < |es| && (k >= 0 ==> TriesAt(limits, time, es, k))
    requires forall j | k < j < |es| :: !TriesAt(limits, time, es, j)
    ensures Run(limits, Start(time), es).lastSent == if k >= 0 then es[k].submitTime else time
    ensures Run(limits, Start(time), es).buf != [] <==>
              es != [] && Waits(limits, Run(limits, Start(time), es[..|es| - 1]), es[|es| - 1])
    decreases |es|
  {
    hide Step, Tries, Waits;
    if es != [] {
      var n := |es| - 1;
      var front := es[..n];
      StepKinds(limits, Run(limits, Start(time), front), es[n]);
      if k < n {
        assert !TriesAt(limits, time, es, n);
        forall j | 0 <= j < n
          ensures TriesAt(limits, time, front, j) == TriesAt(limits, time, es, j)
        {
          assert front[..j] == es[..j];
        }
        LastSentIs(limits, time, front, k);
      }
    }
  }

  lemma {:induction false} BatchInFlatten(batches: seq<seq<Entry>>, j: nat, k: nat, e: Entry)
    requires j < k < |batches|
    ensures multiset(Flatten(batches))[e] >= multiset(batches[j])[e] + multiset(batches[k])[e]
    decreases |batches|
  {
    var front := batches[..|batches| - 1];
    if k < |batches| - 1 {
      BatchInFlatten(front, j, k, e);
    } else {
      OneBatchInFlatten(front, j, e);
    }
  }

  lemma {:induction false} OneBatchInFlatten(batches: seq<seq<Entry>>, j: nat, e: Entry)
    requires j < |batches|
    ensures multiset(Flatten(batches))[e] >= multiset(batches[j])[e]
    decreases |batches|
  {
    if j < |batches| - 1 {
      OneBatchInFlatten(batches[..|batches| - 1], j, e);
    }
  }

  /** An entry that was appended once is in at most one accepted batch. */
  lemma SentAtMostOnce(limits: Limits, time: int, es: seq<Event>, j: nat, k: nat, e: Entry)
    requires var st := Run(limits, Start(time), es);
             j < k < |st.delivered| && multiset(st.appended)[e] == 1
    ensures var st := Run(limits, Start(time), es);
            e !in st.delivered[j] || e !in st.delivered[k]
  {
    var st := Run(limits, Start(time), es);
    RunConserves(limits, time, es);
    BatchInFlatten(st.delivered, j, k, e);
    assert e in st.delivered[j] ==> e in multiset(st.delivered[j]);
    assert e in st.delivered[k] ==> e in multiset(st.delivered[k]);
  }

  // ----- order

  /** What was delivered, then what waits for a retry, then what is new, is the log in the
      order of appending. */
  ghost predicate InOrder(st: State) {
    Flatten(st.delivered) + st.retrybuf + st.buf == st.appended
  }

  ghost predicate NoRepeats(s: seq<Entry>) {
    forall i, j | 0 <= i < j < |s| :: s[i] != s[j]
  }

  /** An accepted batch puts new lines before old ones when it has both. */
  predicate Mixes(limits: Limits, st: State, e: Event) {
    Due(limits, st, e) && e.accepted && Stored(st, e).buf != [] && st.retrybuf != []
  }

  predicate EverMixes(limits: Limits, time: int, es: seq<Event>) {
    es != [] &&
    var front := es[..|es| - 1];
    EverMixes(limits, time, front) || Mixes(limits, Run(limits, Start(time), front), es[|es| - 1])
  }

  /** Some delivered line is not the one appended in that position. */
  ghost predicate OutOfOrder(st: State) {
    exists k :: 0 <= k < |Flatten(st.delivered)| && k < |st.appended| && Flatten(st.delivered)[k] != st.appended[k]
  }

  lemma OutOfOrderIsNot(st: State)
    requires OutOfOrder(st)
    ensures !InOrder(st)
  {
    var k :| 0 <= k < |Flatten(st.delivered)| && k < |st.appended| && Flatten(st.delivered)[k] != st.appended[k];
    assert (Flatten(st.delivered) + st.retrybuf + st.buf)[k] == Flatten(st.delivered)[k];
  }

  lemma StoreKeepsOrder(st: State, e: Event)
    requires InOrder(st)
    ensures InOrder(Stored(st, e))
  {
    assert Flatten(st.delivered) + st.retrybuf + Stored(st, e).buf ==
           Flatten(st.delivered) + st.retrybuf + st.buf + Stored(st, e).buf[|st.buf|..];
  }

  lemma SubmitKeepsOrder(st: State, time: int, accepted: bool)
    requires InOrder(st) && (accepted ==> st.buf + st.retrybuf == st.retrybuf + st.buf)
    ensures InOrder(SubmitStep(st, time, accepted))
  {
    FlattenPush(st.delivered, st.buf + st.retrybuf);
    var flat := Flatten(st.delivered);
    if accepted {
      assert flat + (st.retrybuf + st.buf) + [] + [] == flat + st.retrybuf + st.buf;
    } else {
      assert flat + (st.retrybuf + st.buf) + [] == flat + st.retrybuf + st.buf;
    }
  }

  lemma SubmitLosesOrder(st: State, time: int)
    requires InOrder(st) && st.buf + st.retrybuf != st.retrybuf + st.buf
    ensures OutOfOrder(SubmitStep(st, time, true))
  {
    var flat := Flatten(st.delivered);
    FlattenPush(st.delivered, st.buf + st.retrybuf);
    var sent, meant := st.buf + st.retrybuf, st.retrybuf + st.buf;
    var k :| 0 <= k < |sent| && sent[k] != meant[k];
    assert flat + st.retrybuf + st.buf == flat + meant;
    assert (flat + sent)[|flat| + k] != (flat + meant)[|flat| + k];
  }

  lemma DisorderStays(limits: Limits, st: State, e: Event)
    requires OutOfOrder(st)
    ensures OutOfOrder(Step(limits, st, e))
  {
    var k :| 0 <= k < |Flatten(st.delivered)| && k < |st.appended| && Flatten(st.delivered)[k] != st.appended[k];
    var a := Stored(st, e);
    FlattenPush(a.delivered, a.buf + a.retrybuf);
    var st' := Step(limits, st, e);
    assert Flatten(st'.delivered)[k] == Flatten(st.delivered)[k] && st'.appended[k] == st.appended[k];
  }

  /** An accepted batch is not in the order of appending: new lines, which stand before the
      retried ones, would read differently after them. */
  predicate Swaps(limits: Limits, st: State, e: Event) {
    Due(limits, st, e) && e.accepted && Stored(st, e).buf + st.retrybuf != st.retrybuf + Stored(st, e).buf
  }

  predicate EverSwaps(limits: Limits, time: int, es: seq<Event>) {
    es != [] &&
    var front := es[..|es| - 1];
    EverSwaps(limits, time, front) || Swaps(limits, Run(limits, Start(time), front), es[|es| - 1])
  }

  /** For every run, the log arrives in the order of appending if and only if no accepted
      batch was swapped; once the order is lost it stays lost. */
  lemma {:induction false} OrderIffNeverSwaps(limits: Limits, time: int, es: seq<Event>)
    ensures InOrder(Run(limits, Start(time), es)) <==> !EverSwaps(limits, time, es)
    ensures EverSwaps(limits, time, es) ==> OutOfOrder(Run(limits, Start(time), es))
    decreases |es|
  {
    if es != [] {
      var front, e := es[..|es| - 1], es[|es| - 1];
      var st := Run(limits, Start(time), front);
      OrderIffNeverSwaps(limits, time, front);
      if EverSwaps(limits, time, front) {
        DisorderStays(limits, st, e);
      } else {
        StoreKeepsOrder(st, e);
        if Swaps(limits, st, e) {
          SubmitLosesOrder(Stored(st, e), e.submitTime);
        } else if Due(limits, st, e) {
          SubmitKeepsOrder(Stored(st, e), e.submitTime, e.accepted);
        }
      }
      if EverSwaps(limits, time, es) {
        OutOfOrderIsNot(Run(limits, Start(time), es));
      }
    }
  }

  /** Only a batch with both new and retried lines can be swapped, and it is if they differ. */
  lemma SwapsMixes(limits: Limits, st: State, e: Event)
    ensures Swaps(limits, st, e) ==> Mixes(limits, st, e)
    ensures Mixes(limits, st, e) && Stored(st, e).buf[0] !in st.retrybuf ==> Swaps(limits, st, e)
  {
    var a, b := Stored(st, e).buf, st.retrybuf;
    if a == [] || b == [] {
      assert a + b == b + a;
    } else {
      assert (a + b)[0] == a[0] && (b + a)[0] == b[0];
    }
  }

  /** No accepted batch with both new and retried lines: the order is kept.  If no two entries
      are equal, such a batch always loses it. */
  lemma {:induction false} OrderIffNeverMixes(limits: Limits, time: int, es: seq<Event>)
    ensures !EverMixes(limits, time, es) ==> InOrder(Run(limits, Start(time), es))
    ensures NoRepeats(Run(limits, Start(time), es).appended) ==>
              (InOrder(Run(limits, Start(time), es)) <==> !EverMixes(limits, time, es))
    decreases |es|
  {
    OrderIffNeverSwaps(limits, time, es);
    if es != [] {
      var front, e := es[..|es| - 1], es[|es| - 1];
      var st := Run(limits, Start(time), front);
      assert st.appended <= Step(limits, st, e).appended;
      OrderIffNeverSwaps(limits, time, front);
      OrderIffNeverMixes(limits, time, front);
      SwapsMixes(limits, st, e);
      if NoRepeats(Run(limits, Start(time), es).appended) && InOrder(st) && Mixes(limits, st, e) {
        NewIsNotRetried(st, e);
      }
    }
  }

  lemma NewIsNotRetried(st: State, e: Event)
    requires InOrder(st) && NoRepeats(Stored(st, e).appended) && Stored(st, e).buf != []
    ensures Stored(st, e).buf[0] !in st.retrybuf
  {
    StoreKeepsOrder(st, e);
    var a, flat := Stored(st, e), Flatten(st.delivered);
    forall k | 0 <= k < |st.retrybuf|
      ensures st.retrybuf[k] != a.buf[0]
    {
      var all := flat + a.retrybuf + a.buf;
      assert all[|flat| + k] == st.retrybuf[k] && all[|flat| + |a.retrybuf|] == a.buf[0];
    }
  }

  /** The order can be lost: a line whose batch failed arrives after a later line. */
  lemma RetriedLineArrivesLate()
    ensures var es := [Call("a", 1, 1, 1, false), Call("b", 2, 2, 2, true)];
            Run(Limits(1, 10), Start(0), es).delivered == [[Entry(2, "b"), Entry(1, "a")]]
  {
    var e, e' := Call("a", 1, 1, 1, false), Call("b", 2, 2, 2, true);
    assert [e, e'][..1] == [e] && [e][..0] == [];
    var st := Run(Limits(1, 10), Start(0), [e]);
    assert st == Step(Limits(1, 10), Run(Limits(1, 10), Start(0), []), e);
    assert st.retrybuf == [Entry(1, "a")] && st.buf == [] && st.delivered == [];
    var a, b := Entry(1, "a"), Entry(2, "b");
    assert Stored(st, e').buf == [b] && [b] + [a] == [b, a];
    assert Step(Limits(1, 10), st, e').delivered == [[b, a]];
  }

  // ----- the object

  class Appender {
    const limits: Limits
    var buf: seq<Entry>
    var retrybuf: seq<Entry>
    var lastSent: int
    ghost var appended: seq<Entry>
    ghost var delivered: seq<seq<Entry>>

    constructor (limits: Limits, time: int)
      ensures this.limits == limits && View() == Start(time)
    {
      this.limits := limits;
      buf, retrybuf, lastSent := [], [], time;
      appended, delivered := [], [];
    }

    ghost function View(): State
      reads this
    {
      State(buf, retrybuf, lastSent, appended, delivered)
    }

    method Append(line: string, appendTime: int, checkTime: int, submitTime: int, accepted: bool)
      modifies this
      ensures View() == Step(limits, old(View()), Call(line, appendTime, checkTime, submitTime, accepted))
    {
      buf := buf + [Entry(appendTime, line)];
      appended := appended + [Entry(appendTime, line)];
      var delay := checkTime - lastSent;
      if |buf| >= limits.lines || delay >= limits.seconds {
        var _ := Send(submitTime, accepted);
      }
    }

    method Send(submitTime: int, accepted: bool) returns (ok: bool)
      modifies this
      ensures View() == Step(limits, old(View()), Submit(submitTime, accepted))
      ensures ok <==> |old(buf)| + |old(retrybuf)| == 0 || accepted
      ensures buf == [] && (ok ==> retrybuf == [])
    {
      if |buf| + |retrybuf| == 0 {
        return true;
      }
      lastSent := submitTime;
      if accepted {
        delivered := delivered + [buf + retrybuf];
        buf, retrybuf := [], [];
        return true;
      } else {
        retrybuf := retrybuf + buf;
        buf := [];
        return false;
      }
    }
  }
}
