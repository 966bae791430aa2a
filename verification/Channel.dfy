/** The ring channel of kernel/chan.c, each operation taken as one step. */
module Channels {
  // ----- the channel as a queue and its history -----

  /** A value that left the queue: received, or dropped. */
  datatype Taken = Taken(value: nat, received: bool)

  datatype State = State(room: nat, queue: seq<nat>, closed: bool, sent: seq<nat>, taken: seq<Taken>)

  /** A receive says whether the value is wanted, and whether to insist on one. */
  datatype Op = Send(x: nat) | Recv(wanted: bool, insist: bool) | Close

  ghost function Dropped(q: seq<nat>): seq<Taken> { seq(|q|, i requires 0 <= i < |q| => Taken(q[i], false)) }

  ghost function Values(ts: seq<Taken>): seq<nat> { seq(|ts|, i requires 0 <= i < |ts| => ts[i].value) }

  /** The last `n` of a sequence. */
  ghost function Newest(q: seq<nat>, n: nat): seq<nat> { if |q| <= n then q else q[|q| - n..] }

  ghost function Step(s: State, op: Op): State {
    if s.closed then s
    else
      match op
      case Send(x) =>
        var q := s.queue + [x];
        var keep := Newest(q, s.room);
        s.(queue := keep, sent := s.sent + [x], taken := s.taken + Dropped(q[..|q| - |keep|]))
      case Recv(wanted, _) =>
        if s.queue == [] then s
        else s.(queue := s.queue[1..], taken := s.taken + [Taken(s.queue[0], wanted)])
      case Close => s.(queue := [], closed := true, taken := s.taken + Dropped(s.queue))
  }

  /** To insist on a value of an open channel that has none is the kernel's end. */
  ghost predicate Panics(s: State, op: Op) { !s.closed && s.queue == [] && op.Recv? && op.insist }

  ghost function Steps(s: State, ops: seq<Op>): State {
    if ops == [] then s else Step(Steps(s, ops[..|ops| - 1]), ops[|ops| - 1])
  }

  /** Everything sent has been taken or is queued, in the order it was sent. */
  ghost predicate Conserved(s: State) {
    s.sent == Values(s.taken) + s.queue && |s.queue| <= s.room && (s.closed ==> s.queue == [])
  }

  lemma ValuesJoin(a: seq<Taken>, b: seq<Taken>)
    ensures Values(a + b) == Values(a) + Values(b)
  {
  }

  lemma ValuesDropped(q: seq<nat>)
    ensures Values(Dropped(q)) == q
  {
  }

  lemma NewestSuffix(q: seq<nat>, n: nat)
    ensures |Newest(q, n)| <= n && |Newest(q, n)| <= |q| && q == q[..|q| - |Newest(q, n)|] + Newest(q, n)
  {
  }

  lemma SendConserved(s: State, x: nat)
    requires Conserved(s) && !s.closed
    ensures Conserved(Step(s, Send(x)))
  {
    hide Values, Dropped, Newest;
    var q := s.queue + [x];
    var keep := Newest(q, s.room);
    NewestSuffix(q, s.room);
    var out := q[..|q| - |keep|];
    ValuesJoin(s.taken, Dropped(out));
    ValuesDropped(out);
    assert Values(s.taken) + (out + keep) == Values(s.taken) + out + keep;
    assert Values(s.taken) + s.queue + [x] == Values(s.taken) + q;
  }

  lemma StepConserved(s: State, op: Op)
    requires Conserved(s)
    ensures Conserved(Step(s, op)) && Step(s, op).room == s.room
  {
    hide Values, Dropped, Newest;
    if !s.closed {
      match op
      case Send(x) => SendConserved(s, x);
      case Recv(wanted, insist) =>
        if s.queue != [] {
          var t := Taken(s.queue[0], wanted);
          ValuesJoin(s.taken, [t]);
          OneValue(t);
          assert s.queue == [s.queue[0]] + s.queue[1..];
          assert Values(s.taken) + ([s.queue[0]] + s.queue[1..]) == Values(s.taken) + [s.queue[0]] + s.queue[1..];
        }
      case Close =>
        ValuesJoin(s.taken, Dropped(s.queue));
        ValuesDropped(s.queue);
    }
  }

  lemma OneValue(t: Taken)
    ensures Values([t]) == [t.value]
  {
  }

  lemma {:induction false} StepsConserved(room: nat, ops: seq<Op>)
    ensures Conserved(Steps(State(room, [], false, [], []), ops))
    ensures Steps(State(room, [], false, [], []), ops).room == room
  {
    if ops != [] {
      StepsConserved(room, ops[..|ops| - 1]);
      StepConserved(Steps(State(room, [], false, [], []), ops[..|ops| - 1]), ops[|ops| - 1]);
    }
  }

  // ----- where each value went -----

  /** The places, in the order of sending, of the values received or of those dropped. */
  ghost function Places(ts: seq<Taken>, received: bool): seq<nat> {
    if ts == [] then []
    else
      var n := |ts| - 1;
      Places(ts[..n], received) + if ts[n].received == received then [n] else []
  }

  ghost function Fate(ts: seq<Taken>, received: bool): seq<nat> {
    if ts == [] then []
    else
      var n := |ts| - 1;
      Fate(ts[..n], received) + if ts[n].received == received then [ts[n].value] else []
  }

  /** The places rise, and hold the values that met that fate. */
  ghost predicate Rise(ps: seq<nat>, ts: seq<Taken>, received: bool, fate: seq<nat>) {
    && |ps| == |fate|
    && (forall k :: 0 <= k < |ps| ==> ps[k] < |ts| && ts[ps[k]] == Taken(fate[k], received))
    && forall j, k :: 0 <= j < k < |ps| ==> ps[j] < ps[k]
  }

  lemma {:induction false} PlacesRise(ts: seq<Taken>, received: bool)
    ensures Rise(Places(ts, received), ts, received, Fate(ts, received))
  {
    if ts != [] {
      var front := ts[..|ts| - 1];
      PlacesRise(front, received);
      var was := Places(front, received);
      assert forall k :: 0 <= k < |was| ==> ts[was[k]] == front[was[k]];
    }
  }

  lemma {:induction false} PlacesAll(ts: seq<Taken>, received: bool, p: nat)
    requires p < |ts|
    ensures p in Places(ts, received) <==> ts[p].received == received
  {
    var front := ts[..|ts| - 1];
    PlacesRise(front, received);
    if p < |front| {
      PlacesAll(front, received, p);
    }
  }

  /** After any run each value sent is in one place only, received, dropped or still queued; and
      values are received, and dropped, in the order they were sent. */
  lemma OnePlace(room: nat, ops: seq<Op>)
    ensures
      var s := Steps(State(room, [], false, [], []), ops);
      && |s.sent| == |s.taken| + |s.queue| && s.sent[|s.taken|..] == s.queue
      && (forall p: nat :: p < |s.taken| ==> s.sent[p] == s.taken[p].value)
      && (forall p: nat :: p < |s.taken| && s.taken[p].received ==>
            p in Places(s.taken, true) && p !in Places(s.taken, false))
      && (forall p: nat :: p < |s.taken| && !s.taken[p].received ==>
            p in Places(s.taken, false) && p !in Places(s.taken, true))
      && Rise(Places(s.taken, true), s.taken, true, Fate(s.taken, true))
      && Rise(Places(s.taken, false), s.taken, false, Fate(s.taken, false))
  {
    hide Steps, Places, Fate, Rise;
    StepsConserved(room, ops);
    var s := Steps(State(room, [], false, [], []), ops);
    PlacesRise(s.taken, true);
    PlacesRise(s.taken, false);
    forall p: nat | p < |s.taken|
      ensures s.sent[p] == s.taken[p].value
      ensures p in Places(s.taken, true) <==> s.taken[p].received
      ensures p in Places(s.taken, false) <==> !s.taken[p].received
    {
      PlacesAll(s.taken, true, p);
      PlacesAll(s.taken, false, p);
      assert s.sent[p] == Values(s.taken)[p];
    }
  }

  // ----- the ring -----

  function Next(i: nat, n: nat): nat { if i + 1 == n then 0 else i + 1 }

  /** What lies between the two places of a ring. */
  ghost function Ring(b: seq<nat>, r: nat, w: nat): seq<nat>
    requires r < |b| && w < |b|
  { if r <= w then b[r..w] else b[r..] + b[..w] }

  lemma RingPut(b: seq<nat>, r: nat, w: nat, x: nat)
    requires r < |b| && w < |b| && Next(w, |b|) != r
    ensures Ring(b[w := x], r, Next(w, |b|)) == Ring(b, r, w) + [x]
    ensures |Ring(b, r, w)| + 1 < |b|
  {
  }

  lemma RingPush(b: seq<nat>, r: nat, w: nat, x: nat)
    requires r < |b| && w < |b| && Next(w, |b|) == r
    ensures |Ring(b, r, w)| + 1 == |b| && b[w := x][r] == (Ring(b, r, w) + [x])[0]
    ensures Ring(b[w := x][r := 0], Next(r, |b|), Next(w, |b|)) == (Ring(b, r, w) + [x])[1..]
  {
    hide Ring;
    if |b| == 1 {
      RingOne(b, x);
    } else if r == 0 {
      RingPushFirst(b, x);
    } else if r == |b| - 1 {
      RingPushLast(b, x);
    } else {
      RingPushMiddle(b, r, x);
    }
  }

  lemma RingOne(b: seq<nat>, x: nat)
    requires |b| == 1
    ensures Ring(b, 0, 0) == [] && Ring(b[0 := x][0 := 0], 0, 0) == ([] + [x])[1..]
  {
  }

  lemma RingPushFirst(b: seq<nat>, x: nat)
    requires |b| > 1
    ensures var n := |b|; var q := Ring(b, 0, n - 1);
      |q| == n - 1 && b[0] == (q + [x])[0] && Ring(b[n - 1 := x][0 := 0], 1, 0) == (q + [x])[1..]
  {
    var n := |b|;
    var c := b[n - 1 := x][0 := 0];
    assert Ring(b, 0, n - 1) == b[0..n - 1] && Ring(c, 1, 0) == c[1..] + c[..0];
    assert c[1..] == b[1..n - 1] + [x];
  }

  lemma RingPushLast(b: seq<nat>, x: nat)
    requires |b| > 1
    ensures var n := |b|; var q := Ring(b, n - 1, n - 2);
      |q| == n - 1 && b[n - 1] == (q + [x])[0] && Ring(b[n - 2 := x][n - 1 := 0], 0, n - 1) == (q + [x])[1..]
  {
    var n := |b|;
    var c := b[n - 2 := x][n - 1 := 0];
    assert Ring(b, n - 1, n - 2) == b[n - 1..] + b[..n - 2] && Ring(c, 0, n - 1) == c[0..n - 1];
    assert c[0..n - 1] == b[..n - 2] + [x];
  }

  lemma RingPushMiddle(b: seq<nat>, r: nat, x: nat)
    requires 0 < r < |b| - 1
    ensures var q := Ring(b, r, r - 1);
      |q| == |b| - 1 && b[r] == (q + [x])[0] && Ring(b[r - 1 := x][r := 0], r + 1, r) == (q + [x])[1..]
  {
    var c := b[r - 1 := x][r := 0];
    assert Ring(b, r, r - 1) == b[r..] + b[..r - 1] && Ring(c, r + 1, r) == c[r + 1..] + c[..r];
    assert c[r + 1..] == b[r + 1..] && c[..r] == b[..r - 1] + [x];
  }

  lemma RingTake(b: seq<nat>, r: nat, w: nat)
    requires r < |b| && w < |b| && r != w
    ensures Ring(b, r, w) != [] && b[r] == Ring(b, r, w)[0]
    ensures Ring(b[r := 0], Next(r, |b|), w) == Ring(b, r, w)[1..]
  {
  }

  lemma RingEmpty(b: seq<nat>, r: nat)
    requires r < |b|
    ensures Ring(b, r, r) == []
  {
  }

  lemma NoneDropped(q: seq<nat>)
    ensures Dropped(q[..0]) == []
  {
  }

  lemma DroppedMore(q: seq<nat>, n: nat)
    ensures n < |q| ==> Dropped(q[..n + 1]) == Dropped(q[..n]) + [Taken(q[n], false)]
  {
  }

  /** What is sent to a channel that is full, and to one that is not. */
  lemma SendFull(s: State, x: nat)
    requires !s.closed && |s.queue| == s.room
    ensures var q := s.queue + [x];
      Step(s, Send(x)) == State(s.room, q[1..], false, s.sent + [x], s.taken + [Taken(q[0], false)])
  {
    var q := s.queue + [x];
    assert Newest(q, s.room) == q[1..] && Dropped(q[..1]) == [Taken(q[0], false)];
  }

  lemma SendRoom(s: State, x: nat)
    requires !s.closed && |s.queue| < s.room
    ensures Step(s, Send(x)) == State(s.room, s.queue + [x], false, s.sent + [x], s.taken)
  {
    var q := s.queue + [x];
    assert q[..0] == [] && Dropped(q[..0]) == [];
  }

  class Channel {
    var buffer: array<nat>
    var maxIdx: nat
    var readIdx: nat
    var writeIdx: nat
    var closed: bool
    ghost var sent: seq<nat>
    ghost var taken: seq<Taken>

    ghost predicate Valid()
      reads this, buffer
    { buffer.Length == maxIdx + 1 && readIdx <= maxIdx && writeIdx <= maxIdx }

    ghost function Queue(): seq<nat>
      reads this, buffer
      requires Valid()
    { Ring(buffer[..], readIdx, writeIdx) }

    ghost function Now(): State
      reads this, buffer
      requires Valid()
    { State(maxIdx, Queue(), closed, sent, taken) }

    constructor (size: nat)
      requires 0 < size < 0x1_0000
      ensures Valid() && fresh(buffer) && Now() == State(size - 1, [], false, [], [])
    {
      maxIdx, readIdx, writeIdx, closed := size - 1, 0, 0, false;
      buffer := new nat[size](i => 0);
      sent, taken := [], [];
    }

    method Send(x: nat) returns (status: int)
      requires Valid()
      modifies this, buffer
      ensures Valid() && buffer == old(buffer) && status == (if old(closed) then -1 else 0)
      ensures Now() == Step(old(Now()), Op.Send(x))
    {
      hide Ring, Newest, Dropped;
      if closed {
        return -1;
      }
      ghost var b := buffer[..];
      buffer[writeIdx] := x;
      assert buffer[..] == b[writeIdx := x];
      if Next(writeIdx, maxIdx + 1) == readIdx {
        RingPush(b, readIdx, writeIdx, x);
        var oldData := buffer[readIdx];
        buffer[readIdx] := 0;
        assert buffer[..] == b[writeIdx := x][readIdx := 0];
        readIdx := Next(readIdx, maxIdx + 1);
        writeIdx := Next(writeIdx, maxIdx + 1);
        taken := taken + [Taken(oldData, false)];
        SendFull(old(Now()), x);
      } else {
        RingPut(b, readIdx, writeIdx, x);
        writeIdx := Next(writeIdx, maxIdx + 1);
        SendRoom(old(Now()), x);
      }
      sent := sent + [x];
      return 0;
    }

    /** The value at the head of a queue that is not empty. */
    method Take() returns (data: nat)
      requires Valid() && Queue() != []
      modifies `readIdx, buffer
      ensures Valid() && data == old(Queue())[0] && Queue() == old(Queue())[1..]
    {
      RingTake(buffer[..], readIdx, writeIdx);
      data := buffer[readIdx];
      ghost var b := buffer[..];
      buffer[readIdx] := 0;
      assert buffer[..] == b[readIdx := 0];
      readIdx := Next(readIdx, maxIdx + 1);
    }

    /** chan_recv.  A value that is not wanted is dropped.  The wait for data is switched off in the
        source, so that without data the assertion after it fails. */
    method Receive(wanted: bool) returns (status: int, data: nat, panic: bool)
      requires Valid()
      modifies this, buffer
      ensures Valid() && buffer == old(buffer)
      ensures panic <==> Panics(old(Now()), Recv(wanted, true))
      ensures Now() == Step(old(Now()), Recv(wanted, true))
      ensures !panic ==> status == if old(closed) then -1 else 0
      ensures !panic && status == 0 ==> data == old(Queue())[0]
    {
      data, panic := 0, false;
      if closed {
        return -1, 0, false;
      }
      if readIdx == writeIdx {
        return 0, 0, true;
      }
      data := Take();
      taken := taken + [Taken(data, wanted)];
      return 0, data, false;
    }

    /** chan_recv_noblock, which gives up without data. */
    method ReceiveNoblock(wanted: bool) returns (status: int, data: nat)
      requires Valid()
      modifies this, buffer
      ensures Valid() && buffer == old(buffer)
      ensures Now() == Step(old(Now()), Recv(wanted, false))
      ensures status == if old(closed) then -1 else if old(Queue()) == [] then -2 else 0
      ensures status == 0 ==> data == old(Queue())[0]
    {
      data := 0;
      if closed {
        return -1, 0;
      }
      if readIdx == writeIdx {
        return -2, 0;
      }
      data := Take();
      taken := taken + [Taken(data, wanted)];
      return 0, data;
    }

    /** The loop that drops all that is queued. */
    method Drain()
      requires Valid()
      modifies `readIdx, `taken, buffer
      ensures Valid() && Queue() == [] && taken == old(taken) + Dropped(old(Queue()))
    {
      hide Ring, Dropped;
      ghost var q := Queue();
      ghost var n: nat := 0;
      NoneDropped(q);
      while readIdx != writeIdx
        invariant Valid() && n <= |q| && Queue() == q[n..] && taken == old(taken) + Dropped(q[..n])
        decreases |q| - n
      {
        RingTake(buffer[..], readIdx, writeIdx);
        DroppedMore(q, n);
        var data := Take();
        taken := taken + [Taken(data, false)];
        n := n + 1;
      }
      RingEmpty(buffer[..], readIdx);
      assert q[..n] == q;
    }

    method CloseChannel() returns (status: int)
      requires Valid()
      modifies this, buffer
      ensures Valid() && buffer == old(buffer) && status == (if old(closed) then -1 else 0)
      ensures Now() == Step(old(Now()), Close)
    {
      if closed {
        return -1;
      }
      closed := true;
      Drain();
      return 0;
    }

    /** chan_free: refuses an open channel; what a closed one still held would be dropped, and by
        then nothing is left. */
    method Free() returns (status: int)
      requires Valid() && Conserved(Now())
      modifies this, buffer
      ensures Valid() && Now() == old(Now()) && status == (if old(closed) then 0 else -1)
      ensures status == 0 ==> sent == Values(taken)
    {
      if !closed {
        return -1;
      }
      assert Queue() == [];
      Drain();
      assert Dropped([]) == [];
      return 0;
    }
  }

  /** Any run of calls on a new channel does to its ring what the steps do to the queue, up to the
      call that is the kernel's end. */
  method Run(size: nat, ops: seq<Op>) returns (c: Channel, panic: bool)
    requires 0 < size < 0x1_0000
    ensures c.Valid() && (panic <==> exists k :: 0 <= k < |ops| && Panics(Reached(size, ops[..k]), ops[k]))
    ensures !panic ==> c.Now() == Reached(size, ops)
  {
    hide Step, Ring;
    c := new Channel(size);
    var i := 0;
    assert ops[..0] == [];
    while i < |ops|
      invariant 0 <= i <= |ops| && c.Valid() && fresh(c) && fresh(c.buffer) && c.Now() == Reached(size, ops[..i])
      invariant forall k :: 0 <= k < i ==> !Panics(Reached(size, ops[..k]), ops[k])
    {
      assert ops[..i + 1][..i] == ops[..i];
      match ops[i] {
        case Send(x) => var status := c.Send(x);
        case Recv(wanted, insist) =>
          if insist {
            var status, data, panicked := c.Receive(wanted);
            if panicked {
              return c, true;
            }
          } else {
            var status, data := c.ReceiveNoblock(wanted);
          }
        case Close => var status := c.CloseChannel();
      }
      i := i + 1;
    }
    assert ops[..i] == ops;
    panic := false;
  }

  /** Where calls lead from a new channel. */
  ghost function Reached(size: nat, ops: seq<Op>): State
    requires size > 0
  { Steps(State(size - 1, [], false, [], []), ops) }
}
