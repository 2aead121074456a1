/** The server's static variables and the code that updates them, one method per section under the mutex. */
module RawdServer {
  import opened Basics
  import opened Rawd

  class Server {
    const ncs: array<Option<Handle>>
    var bufFrame: Payload
    var event: bool
    var unsignalled: nat
    var acceptor: Acceptor
    var broadcaster: Broadcaster
    ghost var logs: seq<seq<Item>>
    ghost var deleted: seq<Handle>
    ghost var pushes: seq<Payload>
    ghost var passes: seq<nat>
    var accepted: nat

    ghost predicate Valid()
      reads this
    {
      ncs.Length == NC_COUNT && accepted == |logs|
    }

    ghost function View(): State
      reads this, ncs
      requires Valid()
    {
      State(ncs[..], bufFrame, event, unsignalled, acceptor, broadcaster, logs, deleted, pushes, passes)
    }

    /** `rawd_init` */
    constructor ()
      ensures Valid() && fresh(ncs) && View() == Init()
    {
      ncs := new Option<Handle>[NC_COUNT](_ => None);
      bufFrame, event, unsignalled := ZEROS, false, 0;
      acceptor, broadcaster, accepted := Accepting, Waiting, 0;
      logs, deleted, pushes, passes := [], [], [], [];
      new;
      assert ncs[..] == [None, None, None];
    }

    /** The locked section of `rawd_push`. */
    method RawdPush(frame: Payload)
      requires Valid()
      modifies this
      ensures Valid() && View() == Step(old(View()), Push(frame))
    {
      bufFrame := frame;
      unsignalled := unsignalled + 1;
      pushes := pushes + [frame];
    }

    /** The end of `rawd_push`. */
    method RawdSignal()
      requires Valid() && unsignalled > 0
      modifies this
      ensures Valid() && View() == Step(old(View()), Signal)
    {
      event, unsignalled := true, unsignalled - 1;
    }

    /** `chEvtWaitAny` in `rawd_push_loop` returns. */
    method Wake(found: Found)
      requires Valid() && broadcaster.Waiting? && event
      modifies this
      ensures Valid() && View() == Step(old(View()), Broadcast(found))
    {
      event, broadcaster := false, Woken;
    }

    /** The locked loop of `rawd_push_loop`. */
    method PushLoopPass(found: Found)
      requires Valid() && broadcaster.Woken?
      modifies this
      ensures Valid() && View() == Step(old(View()), Broadcast(found))
    {
      ghost var before, item := logs, Data(bufFrame, |passes|);
      for i := 0 to NC_COUNT
        invariant logs == Pass(before, ncs[..], found, item, i) && |logs| == |before|
        invariant unchanged(this`bufFrame, this`event, this`unsignalled, this`acceptor, this`deleted)
        invariant unchanged(this`broadcaster, this`pushes, this`passes, this`accepted)
      {
        if ncs[i] == None {
          continue;
        }
        if !found[i] {
          continue;
        }
        logs := Write(logs, ncs[i].value, item);
      }
      broadcaster := Waiting;
      passes := passes + [|pushes|];
    }

    /** The scan of `rawd_new`: stale connections are closed and deleted, and the last free slot is noted. */
    method ScanConnections(found: Found) returns (free: int)
      requires Valid()
      modifies this`deleted, ncs
      ensures Valid()
      ensures var r := ScanSlots(old(ncs[..]), found, NC_COUNT);
              && ncs[..] == r.slots && deleted == old(deleted) + r.deleted
              && r.free == (if free < 0 then None else Some(free as nat)) && free < NC_COUNT
    {
      ghost var start := ncs[..];
      free := -1;
      for i := 0 to NC_COUNT
        invariant -1 <= free < i
        invariant ncs[..] == ScanSlots(start, found, i).slots && ncs[..][i..] == start[i..]
        invariant ScanSlots(start, found, i).free == if free < 0 then None else Some(free as nat)
        invariant deleted == old(deleted) + ScanSlots(start, found, i).deleted
      {
        assert ncs[i] == ncs[..][i..][0] == start[i];
        if ncs[i] == None {
          free := i;
        } else if !found[i] {
          deleted := deleted + [ncs[i].value];
          ncs[i] := None;
          free := i;
        }
      }
    }

    /** `rawd_new` up to the unlock, for the next accepted connection. */
    method RawdNew(found: Found) returns (nc: Handle)
      requires Valid() && acceptor.Accepting?
      modifies this, ncs
      ensures Valid() && View() == Step(old(View()), New(found))
    {
      nc := accepted;
      var free := ScanConnections(found);
      accepted := accepted + 1;
      if free < 0 {
        logs := logs + [[Full]];
        deleted := deleted + [nc];
      } else {
        logs := logs + [[]];
        ncs[free] := Some(nc);
        acceptor := Greeting(nc);
      }
    }

    /** The greeting after the unlock. */
    method RawdGreet()
      requires Valid() && acceptor.Greeting?
      modifies this
      ensures Valid() && View() == Step(old(View()), Greet)
    {
      logs := Write(logs, acceptor.nc, Ready);
      acceptor := Accepting;
    }
  }
}
