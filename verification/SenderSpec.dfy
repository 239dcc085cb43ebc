/**
 The buffering rule of udpSender (transport_udp.go:116-180) on its own: spans of any kind, known by their size, are
 gathered under a byte budget and leave in batches.
 */
module SenderSpec {
  import Sequences

  /** `ready` once the process is known; `base` is its size and `used` the bytes counted so far. */
  datatype Sender<T> = Sender(limit: int, ready: bool, base: nat, used: int, buffer: seq<T>)

  /** What Append and Flush return: how many spans left or were refused, and whether there was no error. */
  datatype Outcome<T> = Outcome(n: nat, ok: bool, after: Sender<T>)

  function New<T>(limit: int): (s: Sender<T>)
  {
    Sender(limit, false, 0, 0, [])
  }

  function WithProcess<T>(s: Sender<T>, processSize: nat): (r: Sender<T>)
    ensures r.buffer == s.buffer
  {
    if s.ready then s else s.(ready := true, base := processSize, used := s.used + processSize)
  }

  /** `accepted` is the fate of the batch, if one is sent. */
  function Flush<T>(s: Sender<T>, accepted: bool): (r: Outcome<T>)
  {
    if s.buffer == [] then Outcome(0, true, s)
    else Outcome(|s.buffer|, accepted, s.(buffer := [], used := s.base))
  }

  function Append<T>(s: Sender<T>, x: T, size: nat, accepted: bool): (r: Outcome<T>)
  {
    if size > s.limit then Outcome(1, false, s)
    else if s.used + size < s.limit then Outcome(0, true, s.(buffer := s.buffer + [x], used := s.used + size))
    else if s.used + size == s.limit then Flush(s.(buffer := s.buffer + [x], used := s.used + size), accepted)
    else
      var f := Flush(s, accepted);
      f.(after := f.after.(buffer := [x], used := size + s.base))
  }

  /** No span is lost or counted twice: one comes in, and as many as are returned go out. */
  lemma Conservation<T>(s: Sender<T>, x: T, size: nat, accepted: bool)
    ensures var r := Append(s, x, size, accepted); |r.after.buffer| + r.n == |s.buffer| + 1
    ensures var r := Flush(s, accepted); |r.after.buffer| + r.n == |s.buffer| && r.after.buffer == []
  {
  }

  /** An error is returned for an item that is too large by itself, and for a batch that is not accepted. */
  lemma ErrorExactly<T>(s: Sender<T>, x: T, size: nat, accepted: bool)
    ensures var r := Append(s, x, size, accepted);
            (r.ok <==> size <= s.limit && (r.n == 0 || accepted)) && (size > s.limit ==> r.n == 1 && r.after == s)
    ensures var r := Flush(s, accepted); r.ok <==> r.n == 0 || accepted
  {
  }

  // ----- how full the batches are -----

  function Total<T>(items: seq<T>, size: T -> nat): (n: nat)
  {
    if items == [] then 0 else Total(items[..|items| - 1], size) + size(items[|items| - 1])
  }

  /** One call of Append or Flush, and what became of the batch if one was sent. */
  datatype Call<T> = AppendCall(x: T, accepted: bool) | FlushCall(accepted: bool)

  /** A batch that left; `early` if Flush sent it rather than Append. */
  datatype Batch<T> = Batch(items: seq<T>, early: bool)

  datatype History<T> = History(sender: Sender<T>, batches: seq<Batch<T>>)

  function Made<T>(h: History<T>, c: Call<T>, size: T -> nat): (r: Outcome<T>)
  {
    match c
    case AppendCall(x, accepted) => Append(h.sender, x, size(x), accepted)
    case FlushCall(accepted) => Flush(h.sender, accepted)
  }

  /** What a call has put before the sender, in order: all of it but what is left in the buffer has gone out. */
  function Offered<T>(h: History<T>, c: Call<T>, size: T -> nat): (items: seq<T>)
  {
    h.sender.buffer + if c.AppendCall? && size(c.x) <= h.sender.limit then [c.x] else []
  }

  function Step<T>(h: History<T>, c: Call<T>, size: T -> nat): (r: History<T>)
  {
    var after, offered := Made(h, c, size).after, Offered(h, c, size);
    var gone := if |after.buffer| < |offered| then offered[..|offered| - |after.buffer|] else [];
    History(after, h.batches + if gone == [] then [] else [Batch(gone, c.FlushCall?)])
  }

  /** Everything sent so far, in order. */
  function Flat<T>(batches: seq<Batch<T>>): (items: seq<T>)
  {
    if batches == [] then [] else batches[0].items + Flat(batches[1..])
  }

  /** The items that came after batch i. */
  function Behind<T>(h: History<T>, i: nat): (items: seq<T>)
    requires i < |h.batches|
  {
    Flat(h.batches[i + 1..]) + h.sender.buffer
  }

  /** A batch sent by Append was exactly full, or the next item would not have fitted in. */
  ghost predicate AsFullAsCanBe<T>(h: History<T>, i: nat, size: T -> nat)
    requires i < |h.batches|
  {
    var n := h.sender.base + Total(h.batches[i].items, size);
    h.batches[i].early || n == h.sender.limit
    || (Behind(h, i) != [] && n + size(Behind(h, i)[0]) > h.sender.limit)
  }

  /** More than one item never exceed the budget, and the buffer holds less than what fills it or a single item. */
  ghost predicate Gathered<T>(h: History<T>, size: T -> nat)
  {
    var s := h.sender;
    s.ready && s.used == s.base + Total(s.buffer, size)
    && (|s.buffer| >= 2 ==> s.used < s.limit)
    && (forall i :: 0 <= i < |h.batches| ==>
          h.batches[i].items != [] && AsFullAsCanBe(h, i, size)
          && (|h.batches[i].items| >= 2 ==> s.base + Total(h.batches[i].items, size) <= s.limit))
  }

  lemma TotalAppend<T>(items: seq<T>, x: T, size: T -> nat)
    ensures Total(items + [x], size) == Total(items, size) + size(x) && Total([x], size) == size(x)
  {
    assert (items + [x])[..|items|] == items && [x][..0] == [];
  }

  lemma {:induction false} FlatAppend<T>(batches: seq<Batch<T>>, b: Batch<T>)
    ensures Flat(batches + [b]) == Flat(batches) + b.items
  {
    if batches == [] {
      assert batches + [b] == [b] && [b][1..] == [] && b.items + [] == b.items;
    } else {
      assert (batches + [b])[0] == batches[0] && (batches + [b])[1..] == batches[1..] + [b];
      FlatAppend(batches[1..], b);
      assert batches[0].items + (Flat(batches[1..]) + b.items) == batches[0].items + Flat(batches[1..]) + b.items;
    }
  }

  /** What is behind a batch grows at its end. */
  lemma BehindGrows<T>(h: History<T>, i: nat, gone: seq<T>, early: bool, after: Sender<T>, x: seq<T>)
    requires i < |h.batches| && gone + after.buffer == h.sender.buffer + x
    ensures Behind(History(after, h.batches + if gone == [] then [] else [Batch(gone, early)]), i) == Behind(h, i) + x
    ensures Flat(h.batches + if gone == [] then [] else [Batch(gone, early)]) + after.buffer
         == Flat(h.batches) + h.sender.buffer + x
  {
    var b := Batch(gone, early);
    if gone == [] {
      assert h.batches + [] == h.batches && [] + after.buffer == after.buffer;
      assert Flat(h.batches[i + 1..]) + (h.sender.buffer + x) == Behind(h, i) + x;
    } else {
      assert (h.batches + [b])[i + 1..] == h.batches[i + 1..] + [b];
      FlatAppend(h.batches[i + 1..], b);
      FlatAppend(h.batches, b);
      assert Flat(h.batches[i + 1..]) + gone + after.buffer == Flat(h.batches[i + 1..]) + (gone + after.buffer);
      assert Flat(h.batches) + gone + after.buffer == Flat(h.batches) + (gone + after.buffer);
      assert Flat(h.batches[i + 1..]) + (h.sender.buffer + x) == Behind(h, i) + x;
    }
  }

  /** What goes out at a call, and what stays, is what was there, in order. */
  lemma StepParts<T>(h: History<T>, c: Call<T>, size: T -> nat) returns (gone: seq<T>)
    ensures var after := Made(h, c, size).after;
            gone + after.buffer == Offered(h, c, size)
            && Step(h, c, size) == History(after, h.batches + if gone == [] then [] else [Batch(gone, c.FlushCall?)])
  {
    var after, offered := Made(h, c, size).after, Offered(h, c, size);
    gone := if |after.buffer| < |offered| then offered[..|offered| - |after.buffer|] else [];
  }

  /** A batch just sent is as full as it can be. */
  lemma NewBatchFull<T>(h: History<T>, c: Call<T>, size: T -> nat, gone: seq<T>)
    requires Gathered(h, size) && gone != [] && gone + Made(h, c, size).after.buffer == Offered(h, c, size)
    ensures var s, stays := h.sender, Made(h, c, size).after.buffer;
            (c.FlushCall? || s.base + Total(gone, size) == s.limit
             || (stays != [] && s.base + Total(gone, size) + size(stays[0]) > s.limit))
            && (|gone| >= 2 ==> s.base + Total(gone, size) <= s.limit)
  {
    var s, stays := h.sender, Made(h, c, size).after.buffer;
    assert c.FlushCall? || size(c.x) > s.limit ==> Offered(h, c, size) == s.buffer;
    EndsAlike(gone, stays, Offered(h, c, size));
    if c.AppendCall? && size(c.x) <= s.limit {
      TotalAppend(s.buffer, c.x, size);
      assert stays == [c.x] ==> gone == s.buffer;
    }
    hide Total;
  }

  lemma EndsAlike<T>(gone: seq<T>, stays: seq<T>, all: seq<T>)
    requires gone + stays == all
    ensures stays == [] ==> gone == all
    ensures |stays| == 1 ==> all != [] && gone == all[..|all| - 1]
    ensures stays == all ==> gone == []
  {
    assert |gone| + |stays| == |all|;
  }

  /** What stays is counted right. */
  lemma StaysCounted<T>(h: History<T>, c: Call<T>, size: T -> nat)
    requires Gathered(h, size)
    ensures var s, after := h.sender, Made(h, c, size).after;
            after.ready && after.limit == s.limit && after.base == s.base
            && after.used == s.base + Total(after.buffer, size) && (|after.buffer| >= 2 ==> after.used < s.limit)
  {
    if c.AppendCall? {
      TotalAppend(h.sender.buffer, c.x, size);
      TotalAppend([], c.x, size);
    }
  }

  /** The batches sent before stay as full as they were. */
  lemma OldBatchFull<T>(h: History<T>, i: nat, size: T -> nat, gone: seq<T>, early: bool, after: Sender<T>, x: seq<T>)
    requires i < |h.batches| && AsFullAsCanBe(h, i, size) && gone + after.buffer == h.sender.buffer + x
    requires after.base == h.sender.base && after.limit == h.sender.limit
    ensures var r := History(after, h.batches + if gone == [] then [] else [Batch(gone, early)]);
            r.batches[i] == h.batches[i] && AsFullAsCanBe(r, i, size)
  {
    BehindGrows(h, i, gone, early, after, x);
    hide Total, Behind;
  }

  lemma GatheredStep<T>(h: History<T>, c: Call<T>, size: T -> nat)
    requires Gathered(h, size)
    ensures var r := Step(h, c, size);
            Gathered(r, size) && r.sender.base == h.sender.base && r.sender.limit == h.sender.limit
  {
    var r := Step(h, c, size);
    var gone := StepParts(h, c, size);
    StaysCounted(h, c, size);
    var x := if c.AppendCall? && size(c.x) <= h.sender.limit then [c.x] else [];
    assert Offered(h, c, size) == h.sender.buffer + x;
    hide Step, Total, Flat, AsFullAsCanBe;
    forall i | 0 <= i < |r.batches|
      ensures r.batches[i].items != [] && AsFullAsCanBe(r, i, size)
      ensures |r.batches[i].items| >= 2 ==> r.sender.base + Total(r.batches[i].items, size) <= r.sender.limit
    {
      if i < |h.batches| {
        OldBatchFull(h, i, size, gone, c.FlushCall?, r.sender, x);
      } else {
        LastBatchFull(h, c, size, gone, r);
      }
    }
  }

  lemma LastBatchFull<T>(h: History<T>, c: Call<T>, size: T -> nat, gone: seq<T>, r: History<T>)
    requires Gathered(h, size) && gone != [] && gone + Made(h, c, size).after.buffer == Offered(h, c, size)
    requires r == History(Made(h, c, size).after, h.batches + [Batch(gone, c.FlushCall?)])
    requires r.sender.base == h.sender.base && r.sender.limit == h.sender.limit
    ensures AsFullAsCanBe(r, |h.batches|, size)
    ensures |gone| >= 2 ==> r.sender.base + Total(gone, size) <= r.sender.limit
  {
    NewBatchFull(h, c, size, gone);
    hide Made, Gathered, Total;
    var i := |h.batches|;
    assert r.batches[i] == Batch(gone, c.FlushCall?) && r.batches[i + 1..] == [];
    assert Behind(r, i) == r.sender.buffer;
  }

  function Play<T>(h: History<T>, calls: seq<Call<T>>, size: T -> nat): (r: History<T>)
    decreases |calls|
  {
    if calls == [] then h else Play(Step(h, calls[0], size), calls[1..], size)
  }

  /** The items appended that were not refused. */
  function Taken<T>(calls: seq<Call<T>>, size: T -> nat, limit: int): (items: seq<T>)
  {
    if calls == [] then []
    else (if calls[0].AppendCall? && size(calls[0].x) <= limit then [calls[0].x] else []) + Taken(calls[1..], size, limit)
  }

  /**
   Over any run the batches and the buffer are the items, in order, each item once; every batch is as full as it can be
   unless Flush sent it; and only a batch of one item exceeds the budget.
   */
  lemma {:induction false} BatchesFull<T>(h: History<T>, calls: seq<Call<T>>, size: T -> nat)
    requires Gathered(h, size)
    ensures var r := Play(h, calls, size);
            Gathered(r, size) && r.sender.base == h.sender.base && r.sender.limit == h.sender.limit
            && Flat(r.batches) + r.sender.buffer == Flat(h.batches) + h.sender.buffer + Taken(calls, size, h.sender.limit)
    decreases |calls|
  {
    if calls == [] {
      assert Flat(h.batches) + h.sender.buffer + [] == Flat(h.batches) + h.sender.buffer;
    } else {
      var c := calls[0];
      GatheredStep(h, c, size);
      StepOrder(h, c, size);
      hide Step, Gathered, Flat;
      BatchesFull(Step(h, c, size), calls[1..], size);
      Sequences.Assoc(Flat(h.batches) + h.sender.buffer,
                      if c.AppendCall? && size(c.x) <= h.sender.limit then [c.x] else [],
                      Taken(calls[1..], size, h.sender.limit));
    }
  }

  lemma StepOrder<T>(h: History<T>, c: Call<T>, size: T -> nat)
    ensures var r := Step(h, c, size);
            Flat(r.batches) + r.sender.buffer
            == Flat(h.batches) + h.sender.buffer
               + if c.AppendCall? && size(c.x) <= h.sender.limit then [c.x] else []
  {
    hide Made, Step, Flat;
    var gone := StepParts(h, c, size);
    var x := if c.AppendCall? && size(c.x) <= h.sender.limit then [c.x] else [];
    var after := Made(h, c, size).after;
    if gone == [] {
      assert h.batches + [] == h.batches && [] + after.buffer == after.buffer;
    } else {
      FlatAppend(h.batches, Batch(gone, c.FlushCall?));
    }
    Sequences.Assoc(Flat(h.batches), gone, after.buffer);
    Sequences.Assoc(Flat(h.batches), h.sender.buffer, x);
  }

  /** A new sender that has found out its process is such a start. */
  lemma NewGathered<T>(limit: int, processSize: nat, size: T -> nat)
    ensures Gathered(History(WithProcess(New<T>(limit), processSize), []), size)
    ensures WithProcess(New<T>(limit), processSize).base == processSize
  {
  }
}
