/**
 The bounded log of a span (span.go): once it is full, its first records are kept as they are and the rest of the buffer
 is used as a ring; reading the log or finishing the span turns the ring back and sums up what was overwritten.
 */
module SpanLog {
  datatype LogField = StringField(key: string, text: string) | IntField(key: string, number: int)

  datatype LogRecord = LogRecord(timestamp: int, fields: seq<LogField>)

  /** How many records at the start of a full log are never overwritten. */
  function NumOld(max: nat): (n: nat)
    ensures n < max || max == 0
  {
    if max == 0 then 0 else (max - 1) / 2
  }

  /** Where in the ring the next record goes. */
  function Slot(dropped: nat, size: nat): (r: nat)
    requires size > 0
    ensures r < size
  {
    dropped % size
  }

  function Summary(timestamp: int, dropped: int): (r: LogRecord)
  {
    LogRecord(timestamp, [StringField("event", "dropped Span logs"), IntField("dropped_log_count", dropped),
                          StringField("component", "jaeger-client")])
  }

  function Rotated<T>(s: seq<T>, pos: nat): (r: seq<T>)
    requires pos <= |s|
    ensures |r| == |s|
  {
    s[pos..] + s[..pos]
  }

  /** The log a reader should see after the records `h` were appended under the limit `max` (0: no limit). */
  function Trimmed(h: seq<LogRecord>, max: nat): (r: seq<LogRecord>)
  {
    if max == 0 || |h| <= max then h
    else
      var numOld := NumOld(max);
      var oldest := |h| - (max - numOld);
      h[..numOld] + [Summary(h[oldest].timestamp, |h| - max + 1)] + h[oldest + 1..]
  }

  /**
   What was appended is what is left with the summary replaced by the records it stands for, the last of which it dates
   from.
   */
  lemma TrimmedAccounts(h: seq<LogRecord>, max: nat)
    requires 0 < max < |h|
    ensures var r := Trimmed(h, max);
            var numOld := (max - 1) / 2;
            var count := |h| - max + 1;
            |r| == max
            && h == r[..numOld] + h[numOld..numOld + count] + r[numOld + 1..]
            && r[numOld]
               == LogRecord(h[numOld + count - 1].timestamp,
                            [StringField("event", "dropped Span logs"), IntField("dropped_log_count", count),
                             StringField("component", "jaeger-client")])
            && max - 1 + count == |h|
  {
    var r := Trimmed(h, max);
    var numOld := (max - 1) / 2;
    var oldest := |h| - (max - numOld);
    assert r[..numOld] == h[..numOld];
    assert r[numOld + 1..] == h[oldest + 1..];
  }

  /** The rotation done so far, and what is still to come read off in the order it will come. */
  ghost function Outlook<T>(s: seq<T>, first: nat, middle: nat, next: nat): (r: seq<T>)
    requires first <= middle <= next <= |s|
  {
    s[..first] + (s[next..] + s[middle..next] + s[first..middle])
  }

  /** Records 0 to pos-1 of a[lo..] move to the end, in place. */
  method RotateLogBuffer<T>(a: array<T>, lo: nat, pos: nat)
    requires lo + pos <= a.Length && (pos == 0 || lo + pos < a.Length)
    modifies a
    ensures a[..] == old(a[..lo]) + Rotated(old(a[lo..]), pos)
  {
    hide Outlook, Rotated;
    var first, middle, next := lo, lo + pos, lo + pos;
    StartOutlook(a[..], lo, pos);
    while first != middle
      invariant lo <= first <= middle <= next <= a.Length
      invariant if first == middle then next == middle else next < a.Length
      invariant Outlook(a[..], first, middle, next) == Outlook(old(a[..]), lo, lo + pos, lo + pos)
      decreases a.Length - first
    {
      SwapStep(a[..], first, middle, next);
      ghost var now := a[..][first := a[next]][next := a[first]];
      a[first], a[next] := a[next], a[first];
      assert a[..] == now;
      first := first + 1;
      next := next + 1;
      WrapStep(now, first, middle, next);
      if next == a.Length {
        next := middle;
      } else if first == middle {
        middle := next;
      }
    }
    EndOutlook(a[..], first);
  }

  lemma EndOutlook<T>(s: seq<T>, first: nat)
    requires first <= |s|
    ensures Outlook(s, first, first, first) == s
  {
  }

  lemma StartOutlook<T>(s: seq<T>, lo: nat, pos: nat)
    requires lo + pos <= |s|
    ensures Outlook(s, lo, lo + pos, lo + pos) == s[..lo] + Rotated(s[lo..], pos)
  {
  }

  /** One swap puts the next element in place and changes nothing in the outlook. */
  lemma SwapStep<T>(was: seq<T>, first: nat, middle: nat, next: nat)
    requires first < middle <= next < |was|
    ensures var now := was[first := was[next]][next := was[first]];
            Outlook(now, first + 1, middle, next + 1) == Outlook(was, first, middle, next)
  {
  }

  /** Nor does bringing an index back. */
  lemma WrapStep<T>(s: seq<T>, first: nat, middle: nat, next: nat)
    requires first <= middle <= next <= |s|
    ensures next == |s| ==> Outlook(s, first, middle, middle) == Outlook(s, first, middle, next)
    ensures first == middle ==> Outlook(s, first, next, next) == Outlook(s, first, middle, next)
  {
  }

  method FixLogs(logs: array<LogRecord>, numDroppedLogs: nat)
    requires logs.Length > 0
    modifies logs
    ensures var numOld := NumOld(logs.Length);
            var pos := Slot(numDroppedLogs, logs.Length - numOld);
            var ring := Rotated(old(logs[numOld..]), pos);
            logs[..] == old(logs[..numOld]) + [Summary(ring[0].timestamp, numDroppedLogs + 1)] + ring[1..]
  {
    hide NumOld, Rotated, Summary, Slot;
    var numOld := NumOld(logs.Length);
    var numNew := logs.Length - numOld;
    RotateLogBuffer(logs, numOld, Slot(numDroppedLogs, numNew));
    ghost var ring := logs[numOld..];
    assert logs[..numOld] == old(logs[..numOld]) && ring == Rotated(old(logs[numOld..]), Slot(numDroppedLogs, numNew));
    var numDropped := numDroppedLogs + 1;
    logs[numOld] := Summary(logs[numOld].timestamp, numDropped);
    assert logs[..] == logs[..numOld] + [logs[numOld]] + logs[numOld + 1..];
    assert logs[numOld + 1..] == ring[1..];
  }

  /** The ring holds the latest records, the oldest of them at `dropped` modulo its size. */
  ghost predicate Stored(logs: seq<LogRecord>, dropped: nat, h: seq<LogRecord>, max: nat)
  {
    if max == 0 || |h| <= max then dropped == 0 && logs == h
    else
      var numOld := NumOld(max);
      |logs| == max && dropped == |h| - max && logs[..numOld] == h[..numOld]
      && Rotated(logs[numOld..], Slot(dropped, max - numOld)) == h[|h| - (max - numOld)..]
  }

  lemma SlotIsRest(x: nat, n: nat)
    requires n > 0
    ensures x / n * n + Slot(x, n) == x
  {
  }

  lemma NextSlot(dropped: nat, n: nat)
    requires n > 0
    ensures Slot(dropped + 1, n) == if Slot(dropped, n) + 1 == n then 0 else Slot(dropped, n) + 1
    ensures Slot(0, n) == 0
  {
    SlotIsRest(dropped, n);
    SlotIsRest(dropped + 1, n);
    SlotIsRest(0, n);
    var q, r := dropped / n, Slot(dropped, n);
    var p, m := (dropped + 1) / n, Slot(dropped + 1, n);
    hide Slot;
    Unique(0, 0 / n, n, 0, Slot(0, n));
    if r + 1 == n {
      Successor(q, n);
      Unique(q + 1, p, n, 0, m);
    } else {
      Unique(q, p, n, r + 1, m);
    }
  }

  lemma Successor(q: nat, n: nat)
    ensures (q + 1) * n == q * n + n
  {
  }

  lemma Unique(q: nat, p: nat, n: nat, r: nat, m: nat)
    requires r < n && m < n && q * n + r == p * n + m
    ensures r == m
  {
    if p < q { Gap(p, q, n); } else if q < p { Gap(q, p, n); }
  }

  lemma {:induction false} Gap(p: nat, q: nat, n: nat)
    requires p < q
    ensures p * n + n <= q * n
  {
    Successor(q - 1, n);
    if p < q - 1 { Gap(p, q - 1, n); }
  }

  /** Writing a record over the oldest one of a full log. */
  lemma StoredStep(logs: seq<LogRecord>, dropped: nat, h: seq<LogRecord>, max: nat, lr: LogRecord)
    requires 0 < max <= |h| && Stored(logs, dropped, h, max)
    ensures var at := NumOld(max) + Slot(dropped, max - NumOld(max));
            at < |logs| && Stored(logs[at := lr], dropped + 1, h + [lr], max)
  {
    hide Rotated, NumOld, Slot;
    var numOld, n := NumOld(max), max - NumOld(max);
    if |h| == max { NotYetRotated(logs[numOld..]); }
    NextSlot(dropped, n);
    RingGrows(logs, numOld, Slot(dropped, n), h, lr);
  }

  lemma NotYetRotated<T>(s: seq<T>)
    ensures Rotated(s, 0) == s
  {
  }

  lemma RingGrows<T>(logs: seq<T>, numOld: nat, pos: nat, h: seq<T>, x: T)
    requires numOld + pos < |logs| <= |h| && logs[..numOld] == h[..numOld]
    requires Rotated(logs[numOld..], pos) == h[|h| - (|logs| - numOld)..]
    ensures var now := logs[numOld + pos := x];
            var next := if numOld + pos + 1 == |logs| then 0 else pos + 1;
            now[..numOld] == (h + [x])[..numOld]
            && Rotated(now[numOld..], next) == (h + [x])[|h| + 1 - (|logs| - numOld)..]
  {
  }

  lemma TailOf<T>(ring: seq<T>, h: seq<T>, oldest: nat)
    requires oldest < |h| && ring == h[oldest..]
    ensures ring[0] == h[oldest] && ring[1..] == h[oldest + 1..]
  {
  }

  lemma FixedIsTrimmed(logs: seq<LogRecord>, dropped: nat, h: seq<LogRecord>, max: nat)
    requires max > 0 && dropped > 0 && Stored(logs, dropped, h, max)
    ensures var numOld := NumOld(max);
            var ring := Rotated(logs[numOld..], Slot(dropped, max - numOld));
            logs[..numOld] + [Summary(ring[0].timestamp, dropped + 1)] + ring[1..] == Trimmed(h, max)
  {
    hide Slot, Rotated, Summary;
    var numOld := NumOld(max);
    var oldest := |h| - (max - numOld);
    TailOf(Rotated(logs[numOld..], Slot(dropped, max - numOld)), h, oldest);
    assert Trimmed(h, max) == h[..numOld] + [Summary(h[oldest].timestamp, dropped + 1)] + h[oldest + 1..];
    hide Trimmed, NumOld;
  }

  class Span {
    const maxLogsPerSpan: nat
    var logs: array<LogRecord>
    var numDroppedLogs: nat
    /** Every record appended since the start, or since the log was last turned back for good. */
    ghost var history: seq<LogRecord>

    ghost predicate Valid()
      reads this, logs
    {
      Stored(logs[..], numDroppedLogs, history, maxLogsPerSpan)
    }

    constructor (maxLogsPerSpan: nat)
      ensures Valid() && fresh(logs) && history == [] && this.maxLogsPerSpan == maxLogsPerSpan
    {
      this.maxLogsPerSpan := maxLogsPerSpan;
      logs := new LogRecord[0];
      numDroppedLogs, history := 0, [];
    }

    /** logs is a slice in the source: appending to it leaves its old elements in a new array. */
    method AppendLogNoLocking(lr: LogRecord)
      requires Valid()
      modifies this, logs
      ensures Valid() && (logs == old(logs) || fresh(logs))
      ensures history == old(history) + [lr]
    {
      hide Rotated, NumOld, Slot;
      ghost var was := logs[..];
      history := history + [lr];
      if maxLogsPerSpan == 0 || logs.Length < maxLogsPerSpan {
        logs := Extended(logs, [lr]);
        return;
      }
      var numOld := NumOld(maxLogsPerSpan);
      var numNew := maxLogsPerSpan - numOld;
      StoredStep(logs[..], numDroppedLogs, old(history), maxLogsPerSpan, lr);
      logs[numOld + Slot(numDroppedLogs, numNew)] := lr;
      assert logs[..] == was[numOld + Slot(numDroppedLogs, numNew) := lr];
      numDroppedLogs := numDroppedLogs + 1;
    }

    method Log(lr: LogRecord, sampled: bool)
      requires Valid()
      modifies this, logs
      ensures Valid() && (logs == old(logs) || fresh(logs))
      ensures history == if sampled then old(history) + [lr] else old(history)
    {
      if sampled {
        AppendLogNoLocking(lr);
      }
    }

    /** The log as a reader sees it; the span is left as it was. */
    method Logs() returns (copy: array<LogRecord>)
      requires Valid()
      ensures fresh(copy) && copy[..] == Trimmed(history, maxLogsPerSpan)
    {
      hide Rotated, Summary, Slot;
      copy := Extended(logs, []);
      assert logs[..] + [] == logs[..];
      if numDroppedLogs != 0 {
        FixedIsTrimmed(logs[..], numDroppedLogs, history, maxLogsPerSpan);
        FixLogs(copy, numDroppedLogs);
      }
    }

    /** After it the log holds what Logs would have returned, and counts as freshly filled with that. */
    method FixLogsIfDropped()
      requires Valid()
      modifies this, logs
      ensures Valid() && logs == old(logs)
      ensures logs[..] == Trimmed(old(history), maxLogsPerSpan) && history == logs[..] && numDroppedLogs == 0
    {
      hide Rotated, Summary, Slot;
      history := Trimmed(history, maxLogsPerSpan);
      if numDroppedLogs == 0 {
        return;
      }
      FixedIsTrimmed(logs[..], numDroppedLogs, old(history), maxLogsPerSpan);
      FixLogs(logs, numDroppedLogs);
      numDroppedLogs := 0;
    }

    /** The part of FinishWithOptions that concerns the log; records given at the end are not subject to the limit. */
    method FinishLogs(bulk: seq<LogRecord>, sampled: bool)
      requires Valid()
      modifies this, logs
      ensures logs[..] == if sampled then Trimmed(old(history), maxLogsPerSpan) + bulk else old(logs[..])
    {
      if sampled {
        FixLogsIfDropped();
        logs := Extended(logs, bulk);
      }
    }
  }

  method Extended(a: array<LogRecord>, more: seq<LogRecord>) returns (b: array<LogRecord>)
    ensures fresh(b) && b[..] == a[..] + more
  {
    b := new LogRecord[a.Length + |more|](i requires 0 <= i < a.Length + |more| reads a =>
      if i < a.Length then a[i] else more[i - a.Length]);
  }
}
