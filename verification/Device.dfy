/** A block device as src/kernel/device.c runs it, on the linked list of src/lib/list.c. */
module Devices {
  import opened Unsigned
  import opened Elevators
  import opened LinkedLists

  class BlockDevice {
    const requests: List<Request>
    var up: bool

    ghost predicate Valid()
      reads this, requests, requests.head, requests.tail, requests.nodes
    {
      requests.Valid()
    }

    ghost function State(): Device
      reads this, requests, requests.nodes
    {
      Device(requests.Items(), up)
    }

    /** `device_init` sets every device going up. */
    constructor ()
      ensures Valid() && State() == Device([], true)
    {
      requests := new List();
      up := true;
    }

    /** `device_request` up to the point where the task waits for its turn or goes on. */
    method Submit(id: nat, idx: Word32) returns (node: Node<Request>)
      requires Valid()
      modifies this, requests, requests.Chain()
      ensures Valid() && fresh(node) && node in requests.nodes && node.item.id == id
      ensures State() == Arrive(old(State()), id, idx)
    {
      hide Arrive, List.Valid;
      ghost var was := State();
      node := new Node<Request>();
      node.item := Request(id, idx, false);
      var empty := requests.IsEmpty();
      ghost var i := requests.InsertSort(node, (r: Request) => r.Key());
      if !empty {
        requests.SetItem(node, node.item.(blocked := true), i);
      }
      ArriveIs(was, id, idx, i, requests.Items());
    }

    /** `request_nextreq`. */
    method NextRequest(node: Node<Request>, ghost i: nat) returns (next: Node?<Request>)
      requires Valid() && i < |requests.nodes| && requests.nodes[i] == node
      modifies this`up
      ensures var turn := NextReq(old(State()), i);
        && up == turn.up
        && (next == null <==> turn.next.None?)
        && (turn.next.Some? ==> next == requests.nodes[turn.next.value])
    {
      assert requests.Joined(i) && requests.Joined(i + 1);
      ghost var chain := requests.Chain();
      assert chain[i + 1] == node && chain[0] == requests.head && chain[|chain| - 1] == requests.tail;
      assert node.next == requests.tail <==> i == |requests.nodes| - 1;
      assert node.prev == requests.head <==> i == 0;
      if up && node.next == requests.tail {
        up := false;
      } else if !up && node.prev == requests.head {
        up := true;
      }
      next := if up then node.next else node.prev;
      if next == requests.head || next == requests.tail {
        next := null;
      }
    }

    /** `device_request` after the disk has done the request: choose the next one, leave the
        list, wake the next one's task. */
    method Complete(node: Node<Request>, ghost i: nat)
      requires Valid() && i < |requests.nodes| && requests.nodes[i] == node
      modifies this, requests, requests.Chain()
      ensures Valid() && State() == Finish(old(State()), i)
    {
      hide Finish, NextReq, List.Valid;
      ghost var was, nodes := State(), requests.nodes;
      ghost var turn := NextReq(was, i);
      FinishSteps(was, i);
      var next := NextRequest(node, i);
      requests.Remove(node, i);
      if next != null {
        ghost var n := if turn.next.value < i then turn.next.value else turn.next.value - 1;
        assert next == nodes[turn.next.value] && requests.nodes[n] == next;
        assert old(requests.Chain())[turn.next.value + 1] == next;
        requests.SetItem(next, Wake(next.item), n);
      }
    }
  }

  /** `Finish` done in the order of the code: out of the list first, then the wake-up. */
  lemma FinishSteps(d: Device, i: nat)
    requires i < |d.queue|
    ensures var e := d.queue[..i] + d.queue[i + 1..];
      Finish(d, i) == match NextReq(d, i).next
        case None => Device(e, NextReq(d, i).up)
        case Some(m) =>
          var n := if m < i then m else m - 1;
          Device(e[n := Wake(e[n])], NextReq(d, i).up)
  {
  }

  /** `Arrive` done in the order of the code: into the list first, then marked as waiting. */
  lemma ArriveIs(d: Device, id: nat, idx: Word32, i: nat, e: seq<Request>)
    requires var q, r := d.queue, Request(id, idx, false);
      && i <= |q| && (forall k | 0 <= k < i :: q[k].Key() <= r.Key()) && (i < |q| ==> r.Key() < q[i].Key())
      && e == (if q == [] then q[..i] + [r] + q[i..] else (q[..i] + [r] + q[i..])[i := r.(blocked := true)])
    ensures Arrive(d, id, idx) == Device(e, d.up)
  {
    hide Arrive;
    var r := Request(id, idx, d.queue != []);
    PlaceUnique(d.queue, r.Key(), i);
    ArriveAt(d, id, idx);
    InsertedOnce(d.queue, e, Arrive(d, id, idx).queue, i, r);
    ArriveUp(d, id, idx);
  }

  lemma InsertedOnce(d: seq<Request>, e: seq<Request>, f: seq<Request>, i: nat, r: Request)
    requires Inserted(d, e, i, r) && Inserted(d, f, i, r)
    ensures e == f
  {
  }

  /** There is one place in front of the first greater key. */
  lemma PlaceUnique(queue: seq<Request>, key: int, i: nat)
    requires i <= |queue| && (forall k | 0 <= k < i :: queue[k].Key() <= key) && (i < |queue| ==> key < queue[i].Key())
    ensures Place(queue, key) == i
  {
  }
}
