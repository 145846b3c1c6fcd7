/**
 The connection pool of pool.c as one thread sees it while it holds the monitor lock: the
 arrays `conns` and `avail`, the scan of `psql_pool_acquire` and the downward scan of
 `psql_pool_release`. PoolSteps interleaves threads.
 */
module Pool {
  import opened Tables

  datatype Slot = Available | Error | Held(thread: nat)

  /** The index found by scanning downwards from the end, -1 if there is none. */
  function LastIndex(conns: seq<int>, conn: int): (r: int)
    ensures -1 <= r < |conns|
    ensures r >= 0 ==> conns[r] == conn
    ensures forall k | r < k < |conns| :: conns[k] != conn
  {
    if conns == [] then -1
    else if conns[|conns| - 1] == conn then |conns| - 1
    else LastIndex(conns[..|conns| - 1], conn)
  }

  /**
   What connecting one slot after the other leaves behind: a connection that failed was
   finished at once, so a later slot may have got its address again, but no later slot shares
   the address of a connection that is still open.
   */
  ghost predicate AddressesOk(conns: seq<int>, finished: set<nat>) {
    forall j, k | 0 <= j < k < |conns| && j !in finished :: conns[k] != conns[j]
  }

  /** So the downward scan finds every open connection at its own slot. */
  lemma DownwardScanFindsOwner(conns: seq<int>, finished: set<nat>, j: nat)
    requires AddressesOk(conns, finished) && j < |conns| && j !in finished
    ensures LastIndex(conns, conns[j]) == j
  {
  }

  lemma UnusedAddress(open: set<int>) returns (a: int)
    ensures forall x | x in open :: x < a
  {
    a := 0;
    if x :| x in open {
      var b := UnusedAddress(open - {x});
      a := if b <= x then x + 1 else b;
      assert forall y | y in open :: y == x || y in open - {x};
    }
  }

  /** The slots after one pass of `psql_pool_acquire` that ended at `slot` (-1: found none). */
  ghost predicate PassResult(before: seq<Slot>, after: seq<Slot>, slot: int, self: nat) {
    && |after| == |before| && -1 <= slot < |before|
    && (slot >= 0 ==> before[slot] == Available && after[slot] == Held(self))
    && (forall i | 0 <= i < |before| && (slot < 0 || i < slot) ::
          after[i] == if before[i] == Available then Error else before[i])
    && (slot >= 0 ==> forall i | slot < i < |before| :: after[i] == before[i])
  }

  /** `PQstatus` answers CONNECTION_OK for the connection of that slot. */
  predicate Alive(alive: seq<bool>, i: int) {
    0 <= i < |alive| && alive[i]
  }

  /** No connection can be had: none that is available is alive. */
  ghost predicate NoneAlive(slots: seq<Slot>, alive: seq<bool>) {
    forall i | 0 <= i < |slots| :: !(slots[i] == Available && Alive(alive, i))
  }

  /** `slot` is the first available one whose connection is alive, -1 if there is none. */
  ghost predicate FirstAlive(slots: seq<Slot>, alive: seq<bool>, slot: int) {
    if slot < 0 then NoneAlive(slots, alive)
    else && slot < |slots| && slots[slot] == Available && Alive(alive, slot)
         && forall i | 0 <= i < slot :: !(slots[i] == Available && Alive(alive, i))
  }

  class ConnPool {
    const conns: array<int>
    const avail: array<Slot>
    ghost const finished: set<nat>

    ghost predicate Valid()
      reads conns, avail
    {
      && conns.Length == avail.Length
      && AddressesOk(conns[..], finished)
      && forall j | 0 <= j < avail.Length && j in finished :: avail[j] == Error
    }

    /**
     `psql_pool_init`. `PQconnectdb` returns an arbitrary address that no open connection has; `up`
     is what `PQstatus` answers for each slot.
     */
    constructor (size: nat, up: seq<bool>)
      ensures Valid() && fresh(conns) && fresh(avail) && avail.Length == size
      ensures forall i | 0 <= i < size :: avail[i] == if Alive(up, i) then Available else Error
    {
      var c, a := new int[size], new Slot[size](_ => Error);
      ghost var failed: set<nat> := {};
      var i := 0;
      var open: set<int> := {};
      while i < size
        invariant 0 <= i <= size
        invariant forall j | j in failed :: j < i
        invariant AddressesOk(c[..i], failed)
        invariant forall j | 0 <= j < i && j !in failed :: c[j] in open
        invariant forall j | 0 <= j < i :: j in failed <==> !Alive(up, j)
        invariant forall j | 0 <= j < i :: a[j] == if j in failed then Error else Available
      {
        ghost var unused := UnusedAddress(open);
        assert unused !in open;
        var address: int :| address !in open;
        c[i] := address;
        assert forall j | 0 <= j < i :: c[..i + 1][j] == c[..i][j];
        if Alive(up, i) {
          a[i] := Available;
          open := open + {address};
        } else {
          a[i] := Error;
          failed := failed + {i};
        }
        i := i + 1;
      }
      conns, avail, finished := c, a, failed;
      assert c[..size] == c[..];
    }

    /**
     One pass under the lock; `alive` is what `PQstatus` answers. The first available slot whose
     connection is alive is taken, and the ones before it whose connection went bad are written off.
     */
    method AcquirePass(self: nat, alive: seq<bool>) returns (slot: int)
      requires Valid()
      modifies avail
      ensures Valid() && PassResult(old(avail[..]), avail[..], slot, self)
      ensures FirstAlive(old(avail[..]), alive, slot)
    {
      var i := 0;
      while i < avail.Length
        invariant 0 <= i <= avail.Length && Valid()
        invariant forall j | 0 <= j < i :: avail[j] == if old(avail[j]) == Available then Error else old(avail[j])
        invariant forall j | i <= j < avail.Length :: avail[j] == old(avail[j])
        invariant forall j | 0 <= j < i :: !(old(avail[..])[j] == Available && Alive(alive, j))
      {
        if avail[i] == Available {
          if Alive(alive, i) {
            avail[i] := Held(self);
            return i;
          } else {
            avail[i] := Error;
          }
        }
        i := i + 1;
      }
      return -1;
    }

    /**
     Frees the slot that the downward scan finds. The invariant is kept exactly when that slot does
     not belong to a connection that failed at start-up.
     */
    method Release(conn: int) returns (r: int)
      requires Valid()
      modifies avail
      ensures Valid() <==> LastIndex(conns[..], conn) !in finished
      ensures LastIndex(conns[..], conn) < 0 ==> r == -EINVAL && avail[..] == old(avail[..])
      ensures LastIndex(conns[..], conn) >= 0 ==>
                r == 0 && avail[..] == old(avail[..])[LastIndex(conns[..], conn) := Available]
    {
      var i := conns.Length - 1;
      while i >= 0 && conns[i] != conn
        invariant -1 <= i < conns.Length
        invariant forall k | i < k < conns.Length :: conns[k] != conn
      {
        i := i - 1;
      }
      assert i == LastIndex(conns[..], conn) by {
        var l := LastIndex(conns[..], conn);
        assert l >= 0 ==> conns[..][l] == conns[l];
        assert i >= 0 ==> conns[..][i] == conns[i];
      }
      if i < 0 {
        return -EINVAL;
      }
      avail[i] := Available;
      assert i in finished ==> avail[i] != Error;
      return 0;
    }
  }
}
