/** The SAVE command: one background child at a time, and requests that arrive meanwhile are merged. */
module SaveControl {
  import opened Commands

  const SAVE: Command := [[83, 65, 86, 69]]

  datatype Status = Idle | Running | Failed

  /** What became of an attempt to start a child. */
  datatype Fork = NoSocket | NoFork | NoMemory | Forked

  class Saver {
    var status: Status
    /** The child's process number, or 0. */
    var child: nat
    var pending: bool

    /** What the server executed so far, each SAVE included, and how much of it each of these saw: */
    ghost var history: seq<Command>
    /** the last SAVE that was answered by OK, */
    ghost var acked: nat
    /** the last child that was started, */
    ghost var forked: nat
    /** and the last dump that was finished, which holds the store of that time. */
    ghost var dumped: nat
    ghost var dump: Db
    /** The children that are alive. */
    ghost var alive: set<nat>
    /** When the last dump was finished, SAVEs were waiting, and no child could be started for want of a socket. */
    ghost var dropped: bool

    ghost predicate Valid()
      reads this
    {
      && acked <= |history| && forked <= |history| && dumped <= |history| && dump == Run(EMPTY, history[..dumped])
      && (pending ==> status != Idle)
      && (status == Idle ==> child == 0 && alive == {})
      && (status == Running ==> child != 0 && alive == {child} && (pending <==> forked < acked))
      && |alive| <= 1
      && (status == Idle ==> (acked <= dumped <==> !dropped))
    }

    constructor ()
      ensures Valid() && status == Idle && history == []
    {
      status, child, pending := Idle, 0, false;
      history, acked, forked, dumped, dump, alive, dropped := [], 0, 0, 0, EMPTY, {}, false;
    }

    /** Any other command. */
    ghost method Execute(c: Command)
      requires Valid()
      modifies `history
      ensures Valid() && history == old(history) + [c]
    {
      history := history + [c];
      assert history[..dumped] == old(history[..dumped]);
    }

    /** Start a child that writes a dump of the store as it is now. */
    method ForkChild(outcome: Fork, pid: nat) returns (ret: int)
      requires status == Idle && pid != 0
      modifies `status, `child, `forked, `alive
      ensures ret == if outcome == Forked then 0 else -1
      ensures status == match outcome case NoSocket => Idle case NoFork => Failed case NoMemory => Failed case Forked => Running
      ensures if outcome == Forked || outcome == NoMemory
        then child == pid && forked == |history| && alive == old(alive) + {pid}
        else child == old(child) && forked == old(forked) && alive == old(alive)
    {
      if outcome == NoSocket {
        return -1;
      }
      if outcome == NoFork {
        status := Failed;
        return -1;
      }
      status, child := Running, pid;
      forked, alive := |history|, alive + {pid};
      if outcome == NoMemory {
        status := Failed;
        return -1;
      }
      return 0;
    }

    /** The SAVE command; 0 and 1 are answered by OK. */
    method Save(outcome: Fork, pid: nat) returns (ret: int)
      requires Valid() && pid != 0
      modifies this
      ensures Valid() && history == old(history) + [SAVE] && dumped == old(dumped) && dropped == old(dropped)
      ensures acked == if ret >= 0 then |history| else old(acked)
      ensures ret == match old(status) case Running => 1 case Failed => -1 case Idle => if outcome == Forked then 0 else -1
      ensures pending == (old(pending) || ret == 1) && (old(status) != Idle ==> status == old(status))
      ensures old(status) == Idle ==>
        status == match outcome case NoSocket => Idle case NoFork => Failed case NoMemory => Failed case Forked => Running
      ensures forked == if old(status) == Idle && outcome in {Forked, NoMemory} then |history| else old(forked)
      ensures child == if old(status) == Idle && outcome in {Forked, NoMemory} then pid else old(child)
    {
      hide Run;
      history := history + [SAVE];
      assert history[..dumped] == old(history[..dumped]);
      if status == Running {
        pending := true;
        acked := |history|;
        return 1;
      }
      if status == Failed {
        return -1;
      }
      ret := ForkChild(outcome, pid);
      if ret == 0 {
        acked := |history|;
      }
    }

    /** The child has ended; reaped tells whether it was collected, and succeeded whether its dump is complete. */
    method ChildDone(reaped: bool, succeeded: bool, outcome: Fork, pid: nat)
      requires Valid() && status == Running && pid != 0
      modifies this
      ensures Valid() && history == old(history) && acked == old(acked)
      ensures reaped && succeeded ==> dumped == old(forked)
      ensures !(reaped && succeeded) ==> status == Failed && dumped == old(dumped) && pending == old(pending)
      ensures reaped && succeeded ==> !pending && (!old(pending) ==> status == Idle)
      ensures reaped && succeeded && old(pending) ==>
        status == match outcome case NoSocket => Idle case NoFork => Failed case NoMemory => Failed case Forked => Running
      ensures dropped == if reaped && succeeded then old(pending) && outcome == NoSocket else old(dropped)
      ensures child == if !reaped then old(child) else if succeeded && old(pending) && outcome in {Forked, NoMemory} then pid else 0
    {
      hide Run;
      if reaped && succeeded {
        status := Idle;
        dumped, dump := forked, Run(EMPTY, history[..forked]);
        dropped := pending && outcome == NoSocket;
      } else {
        status := Failed;
      }
      if reaped {
        child := 0;
        alive := {};
      }
      assert {} + {pid} == {pid};
      if pending && status == Idle {
        pending := false;
        var ret := ForkChild(outcome, pid);
      }
    }
  }

  /** A dropped SAVE: answered by OK while a child runs, and then no socket for the next child. */
  method DroppedSave() returns (s: Saver)
    ensures fresh(s) && s.Valid() && s.status == Idle && s.dumped < s.acked
  {
    s := new Saver();
    var ret := s.Save(Forked, 1);
    ret := s.Save(Forked, 2);
    s.ChildDone(true, true, NoSocket, 2);
  }
}
