/** The task table of src/kernel/task.c as it is run: the loops of fork, exit and waitpid over an
    array of tasks. */
module TaskTables {
  import opened Outcomes
  import opened Tasks

  class TaskTable {
    const slots: array<Option<Task>>

    constructor ()
      ensures fresh(slots) && slots[..] == seq(TASK_NR, _ => None)
    {
      slots := new Option<Task>[TASK_NR](_ => None);
    }

    method GetFreeTask() returns (r: Option<nat>)
      ensures r == FreeSlot(slots[..], 0)
    {
      var i := 0;
      while i < slots.Length
        invariant 0 <= i <= slots.Length && FreeSlot(slots[..], 0) == FreeSlot(slots[..], i)
      {
        if slots[i].None? {
          return Some(i);
        }
        i := i + 1;
      }
      return None;
    }

    /** `task_fork`; None is its panic. */
    method ForkTask(p: nat) returns (child: Option<nat>)
      requires Present(slots[..], p)
      modifies slots
      ensures match old(Fork(slots[..], p))
        case None => child == None && slots[..] == old(slots[..])
        case Some(f) => child == Some(f.child) && slots[..] == f.t
    {
      child := GetFreeTask();
      if child.Some? {
        slots[child.value] := Some(slots[p].value.(ppid := p, state := Ready));
      }
    }

    /** `task_tell_father` up to the signal: false where it panics. */
    method TellFather(p: nat) returns (found: bool)
      requires Present(slots[..], p)
      ensures found <==> slots[p].value.ppid == 0 || Present(slots[..], slots[p].value.ppid)
    {
      var pp := slots[p].value.ppid;
      if pp == 0 {
        return true;
      }
      var i := 0;
      while i < slots.Length
        invariant 0 <= i <= slots.Length && !(pp < i && slots[pp].Some?)
      {
        if slots[i].Some? && i == pp {
          return true;
        }
        i := i + 1;
      }
      return false;
    }

    /** `task_exit` up to the switch; `ok` is false where the machine stops. */
    method ExitTask(p: nat, status: int) returns (ok: bool)
      requires Present(slots[..], p) && slots.Length >= 2
      modifies slots
      ensures ok <==> old(Exit(slots[..], p, status)).Done?
      ensures ok ==> slots[..] == old(Exit(slots[..], p, status)).value
    {
      ghost var dead := old(slots[..])[p := Some(old(slots[p]).value.(state := Died, status := status))];
      slots[p] := Some(slots[p].value.(state := Died, status := status));
      assert slots[..] == dead;
      ok := TellFather(p);
      if !ok {
        return;
      }
      var pp := slots[p].value.ppid;
      var i := 2;
      while i < slots.Length
        invariant 2 <= i <= slots.Length
        invariant Reparent(slots[..], i, p, pp) == Reparent(dead, 2, p, pp)
      {
        ghost var was := slots[..];
        if slots[i].Some? && slots[i].value.ppid == p {
          slots[i] := Some(slots[i].value.(ppid := pp));
          assert slots[..] == was[i := slots[i]];
        }
        i := i + 1;
      }
      ok := pp < slots.Length && slots[pp].Some?;
      if ok {
        var parent := slots[pp].value;
        if parent.state.Waiting? && (parent.waitpid == -1 || parent.waitpid == p) {
          slots[pp] := Some(parent.(state := Ready, status := 0));
        }
      }
    }

    /** One round of `task_waitpid`: a child and its status, or -1; `blocked` says that the task
        went to sleep instead and will look again when it runs. */
    method WaitRound(p: nat, pid: int) returns (child: int, status: int, blocked: bool)
      requires Present(slots[..], p) && slots.Length >= 2
      modifies slots
      ensures match old(WaitPid(slots[..], p, pid))
        case Reaped(u, c, s) => slots[..] == u && child == c && status == s && !blocked
        case Blocks(u) => slots[..] == u && blocked
        case NoChild => slots[..] == old(slots[..]) && child == -1 && !blocked
    {
      child, status, blocked := -1, 0, false;
      var hasChild := false;
      var i := 2;
      while i < slots.Length
        invariant 2 <= i <= slots.Length && slots[..] == old(slots[..])
        invariant Look(slots[..], p, pid, i, hasChild) == Look(slots[..], p, pid, 2, false)
      {
        if slots[i].Some? && slots[i].value.ppid == p && (pid == i || pid == -1) {
          if slots[i].value.state.Died? {
            child, status := i, slots[i].value.status;
            slots[i] := None;
            return;
          }
          hasChild := true;
        }
        i := i + 1;
      }
      if hasChild {
        slots[p] := Some(slots[p].value.(state := Waiting, waitpid := pid));
        blocked := true;
      }
    }
  }
}
