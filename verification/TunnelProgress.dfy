/** The receiving end finishes: whatever order it receives and extracts in, it comes to the
    point where it has taken everything that was sent, and it is never stuck before. */
module TunnelProgress {
  import opened Frames
  import FS = FrameStream
  import opened TunnelSteps
  import opened TunnelDelivery

  /** b can still go on: it runs, a's bytes are intact and all in the channel, and neither
      counter has reached the point where a new key is due. */
  ghost predicate CanGoOn(s: System) {
    && Invariant(s) && s.b.running
    && s.a.tx.outbox == [] && !s.a.tx.garbled && s.a.tx.nonce < NONCE_LIMIT - REKEY_MARGIN
  }

  ghost predicate CaughtUp(s: System) {
    && s.ab == [] && Delivered(s.a.tx, s.b.rx) == |s.a.tx.sent| && s.b.rx.written == s.a.tx.read
    && (s.b.rx.end == Open || s.b.rx.end == PeerClosed)
  }

  lemma StepOfB(s: System, action: Action)
    requires Invariant(s)
    ensures Invariant(SystemStep(s, false, action))
  {
    hide EndpointOk, Direction, EndpointStep;
    EndpointStepKeeps(s.b, s.ba, s.ab, action, s.a.rx, s.a.tx);
  }

  /** A step of b's receiving half, while the plaintext side accepts whole payloads. */
  predicate Receiving(action: Action) {
    action.Receive? || (action.ExtractNext? && action.room >= MAX_PAYLOAD)
  }

  lemma ReceiveKeepsGoing(s: System, n: nat)
    requires CanGoOn(s)
    ensures var t := SystemStep(s, false, Receive(n)); CanGoOn(t) && t.a == s.a
  {
    hide FS.Extract, Direction;
    StepOfB(s, Receive(n));
  }

  /** A turn of the extraction loop leaves b able to go on, or has taken the last frame. */
  lemma ExtractKeepsGoing(s: System, room: nat)
    requires CanGoOn(s) && room >= MAX_PAYLOAD
    ensures var t := SystemStep(s, false, ExtractNext(room));
            t.a == s.a && t.ab == s.ab && (if t.b.running then CanGoOn(t) else CaughtUp(t))
  {
    hide FS.Extract, FS.Wire, FS.Encode, Plain;
    StepOfB(s, ExtractNext(room));
    var tx, rx := s.a.tx, s.b.rx;
    var k := Delivered(tx, rx);
    if k == |tx.sent| {
      NothingWholeLeft(tx, s.ab, rx);
    } else {
      NextFrame(tx, s.ab, rx);
      var f := tx.sent[k];
      if !rx.waiting && f.kind == CLOSE && |rx.pending| >= |FS.Wire(f, rx.nonce, rx.key)| {
        ClosedIsCaughtUp(SystemStep(s, false, ExtractNext(room)));
      }
    }
  }

  lemma ClosedIsCaughtUp(t: System)
    requires Invariant(t) && !t.a.tx.garbled && t.b.rx.end == PeerClosed
    ensures CaughtUp(t)
  {
    hide FS.Extract, FS.Wire, Plain;
    var tx, rx := t.a.tx, t.b.rx;
    var k := Delivered(tx, rx);
    assert k == |tx.sent|;
    assert tx.sent[..k] == tx.sent && tx.sent[k..] == [];
    assert tx.cut.None?;
    assert rx.pending + t.ab + tx.outbox == [];
  }

  /** A waiting receiver with an empty channel has everything. */
  lemma QuietIsCaughtUp(s: System)
    requires CanGoOn(s) && s.b.rx.waiting && s.ab == []
    ensures CaughtUp(s)
  {
    hide FS.Extract, FS.Wire, Linked;
    LinkGuarantees(s.a.tx, s.ab, s.b.rx);
  }

  // ---- The steps run out ----

  /** What is left to do: bytes to receive, bytes to extract, and ends to notice. */
  function Work(s: System): nat {
    3 * |s.ab| + |s.b.rx.pending| + (if s.b.rx.waiting then 0 else 1) + (if s.b.running then 1 else 0)
  }

  /** Every receiving step that does anything uses up some of it. */
  lemma StepCosts(s: System, action: Action)
    requires Receiving(action) && SystemStep(s, false, action) != s
    requires s.b.running ==> s.b.rx.end == Open
    ensures Work(SystemStep(s, false, action)) < Work(s)
  {
    hide FS.Extract;
  }

  /** And b can stop only when it has everything: before that, some receiving step changes
      the state. */
  lemma NotStuck(s: System) returns (action: Action)
    requires CanGoOn(s) && !CaughtUp(s)
    ensures Receiving(action) && SystemStep(s, false, action) != s
  {
    hide FS.Extract, Direction, CaughtUp;
    if s.b.rx.waiting {
      if s.ab == [] {
        QuietIsCaughtUp(s);
      }
      FS.NeedMoreLeavesRoom(s.b.rx.pending, s.b.rx.nonce, s.b.rx.key);
      action := Receive(1);
      assert |s.ab[1..]| < |s.ab|;
    } else {
      action := ExtractNext(MAX_PAYLOAD);
      TurnChanges(s.b.rx, MAX_PAYLOAD);
    }
  }

  lemma TurnChanges(rx: Receiver, room: nat)
    requires !rx.waiting && rx.end == Open
    ensures ExtractOne(rx, room) != rx
  {
    hide FS.Extract;
  }

  /** Only receiving steps of b, each of which changes the state. */
  ghost predicate Working(s: System, schedule: seq<(bool, Action)>) {
    forall i :: 0 <= i < |schedule| ==>
      && !schedule[i].0 && Receiving(schedule[i].1)
      && SystemStep(Runs(s, schedule[..i]), false, schedule[i].1) != Runs(s, schedule[..i])
  }

  lemma WorkingFront(s: System, schedule: seq<(bool, Action)>)
    requires schedule != [] && Working(s, schedule)
    ensures Working(s, schedule[..|schedule| - 1])
  {
    hide Runs, SystemStep;
    var front := schedule[..|schedule| - 1];
    forall i | 0 <= i < |front|
      ensures !front[i].0 && Receiving(front[i].1) && SystemStep(Runs(s, front[..i]), false, front[i].1) != Runs(s, front[..i])
    {
      assert front[..i] == schedule[..i] && front[i] == schedule[i];
    }
  }

  /** In whatever order b receives and extracts: it makes no more steps than there is work,
      and it stays able to go on until it has caught up. */
  lemma {:induction false} EveryRunCatchesUp(s: System, schedule: seq<(bool, Action)>)
    requires CanGoOn(s) && Working(s, schedule)
    ensures var t := Runs(s, schedule);
            t.a == s.a && |schedule| + Work(t) <= Work(s) && (if t.b.running then CanGoOn(t) else CaughtUp(t))
    decreases |schedule|
  {
    hide SystemStep, CanGoOn, CaughtUp, Work, Working;
    GoingIsOpen(s);
    if schedule != [] {
      var n := |schedule| - 1;
      var front, action := schedule[..n], schedule[n].1;
      WorkingFront(s, schedule);
      EveryRunCatchesUp(s, front);
      var t := Runs(s, front);
      LastWorks(s, schedule);
      if t.b.running {
        GoingIsOpen(t);
        StepCosts(t, action);
        if action.Receive? {
          ReceiveKeepsGoing(t, action.n);
          ReceiveKeepsRunning(t, action.n);
        } else {
          ExtractKeepsGoing(t, action.room);
        }
      } else {
        StoppedStays(t, action);
      }
    }
  }

  lemma LastWorks(s: System, schedule: seq<(bool, Action)>)
    requires schedule != [] && Working(s, schedule)
    ensures var n := |schedule| - 1;
            !schedule[n].0 && Receiving(schedule[n].1) &&
            SystemStep(Runs(s, schedule[..n]), false, schedule[n].1) != Runs(s, schedule[..n])
  {
  }

  lemma GoingIsOpen(s: System)
    requires CanGoOn(s)
    ensures s.b.running && s.b.rx.end == Open
  {
  }

  lemma ReceiveKeepsRunning(s: System, n: nat)
    ensures SystemStep(s, false, Receive(n)).b.running == s.b.running
  {
  }

  lemma StoppedStays(s: System, action: Action)
    requires !s.b.running
    ensures SystemStep(s, false, action) == s
  {
  }

  /** So b comes to that point by its own steps from every such state. */
  lemma {:induction false} CatchUp(s: System) returns (schedule: seq<(bool, Action)>)
    requires CanGoOn(s)
    ensures Working(s, schedule) && Runs(s, schedule).a == s.a && CaughtUp(Runs(s, schedule))
    decreases Work(s)
  {
    hide Runs, CanGoOn, CaughtUp, SystemStep, Work, Working;
    if CaughtUp(s) {
      schedule := [];
      NoSteps(s);
    } else {
      var action := NotStuck(s);
      var turn, t := (false, action), SystemStep(s, false, action);
      OneStep(s, turn);
      OneWorks(s, turn);
      EveryRunCatchesUp(s, [turn]);
      schedule := [turn];
      if t.b.running {
        var rest := CatchUp(t);
        RunsAppend(s, [turn], rest);
        WorkingAppend(s, turn, rest);
        schedule := [turn] + rest;
      }
    }
  }

  lemma OneWorks(s: System, turn: (bool, Action))
    requires !turn.0 && Receiving(turn.1) && SystemStep(s, false, turn.1) != s
    ensures Working(s, [turn])
  {
    hide SystemStep;
    NoSteps(s);
    assert [turn][..0] == [];
  }

  lemma WorkingAppend(s: System, turn: (bool, Action), rest: seq<(bool, Action)>)
    requires Working(s, [turn]) && Working(Runs(s, [turn]), rest)
    ensures Working(s, [turn] + rest)
  {
    hide Runs, SystemStep, Receiving;
    var all := [turn] + rest;
    forall i | 0 <= i < |all|
      ensures !all[i].0 && Receiving(all[i].1) && SystemStep(Runs(s, all[..i]), false, all[i].1) != Runs(s, all[..i])
    {
      if i == 0 {
        assert all[..0] == [turn][..0] && all[0] == [turn][0];
      } else {
        assert all[..i] == [turn] + rest[..i - 1] && all[i] == rest[i - 1];
        RunsAppend(s, [turn], rest[..i - 1]);
      }
    }
  }

  lemma NoSteps(s: System)
    ensures Runs(s, []) == s && Working(s, [])
  {
  }
}
