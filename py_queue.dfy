/** The part of Python's `Queue.Queue` the S3 copy script relies on: FIFO `put` and `get`,
    and the unfinished-task counter behind `task_done` and `join`. Calls are taken one at a
    time; a call that would block reports so and changes nothing. */
module PyQueue {
  import opened Wrappers

  class Queue<T> {
    /** Capacity given to the constructor; 0 means unbounded, as in Python. */
    const maxsize: nat
    /** Items waiting in the queue, oldest first. */
    var items: seq<T>
    /** `put` calls not yet matched by a `task_done` call; `join` returns once it is 0. */
    var unfinished: nat
    /** Everything ever put, and everything ever got, in order. */
    ghost var history: seq<T>
    ghost var taken: seq<T>

    ghost predicate Valid()
      reads this
    {
      history == taken + items && (maxsize > 0 ==> |items| <= maxsize)
    }

    constructor (maxsize: nat)
      ensures Valid() && this.maxsize == maxsize
      ensures items == [] && unfinished == 0 && history == [] && taken == []
    {
      this.maxsize := maxsize;
      items := [];
      unfinished := 0;
      history := [];
      taken := [];
    }

    predicate Full()
      reads this
    {
      0 < maxsize <= |items|
    }

    /** `put(x)`: appends `x` and counts one more unfinished task; on a full queue the caller
        would block, which is reported as `accepted == false`. */
    method Put(x: T) returns (accepted: bool)
      requires Valid()
      modifies this
      ensures Valid() && taken == old(taken)
      ensures accepted == !old(Full())
      ensures accepted ==>
                items == old(items) + [x] && unfinished == old(unfinished) + 1 && history == old(history) + [x]
      ensures !accepted ==>
                items == old(items) && unfinished == old(unfinished) && history == old(history)
    {
      accepted := !Full();
      if accepted {
        items := items + [x];
        unfinished := unfinished + 1;
        history := history + [x];
      }
    }

    /** `get()`: removes and returns the oldest item. On an empty queue the caller would wait
        (forever, or until the timeout raises `Empty`), reported as `None`. */
    method Get() returns (x: Option<T>)
      requires Valid()
      modifies this
      ensures Valid() && history == old(history)
      ensures unfinished == old(unfinished)
      ensures old(items) == [] ==> x == None && items == [] && taken == old(taken)
      ensures old(items) != [] ==>
                x == Some(old(items)[0]) && items == old(items)[1..] && taken == old(taken) + [old(items)[0]]
    {
      if items == [] {
        x := None;
      } else {
        x := Some(items[0]);
        taken := taken + [items[0]];
        items := items[1..];
      }
    }

    /** `task_done()`: one unfinished task fewer; Python raises `ValueError` when there is none,
        reported as `ok == false`. */
    method TaskDone() returns (ok: bool)
      requires Valid()
      modifies this
      ensures Valid() && items == old(items)
      ensures history == old(history) && taken == old(taken)
      ensures ok == (old(unfinished) > 0)
      ensures unfinished == if ok then old(unfinished) - 1 else old(unfinished)
    {
      ok := unfinished > 0;
      if ok {
        unfinished := unfinished - 1;
      }
    }
  }
}
