/**
 * The lock objects and the registry list of server.c as mutable objects:
 * `struct FileLock` is a class whose counters the lock operations update in
 * place, and the registry is a class whose node list `find_or_create_lock`
 * walks and extends at the head and `release_lock` unlinks from.  Every
 * method is proved to do what the matching function of LockSpec says.
 */
module Locks {
  import opened LockSpec

  /** `struct FileLock`: one per file name currently referenced. */
  class FileLock {
    const name: string
    var readers: int
    var writer: int
    var ownerFd: int
    var refcount: int

    /** The counters as a value. */
    function State(): LockState
      reads this
    {
      LockState(readers, writer, ownerFd, refcount)
    }

    /** The allocation and initialisation in `find_or_create_lock`. */
    constructor (name: string)
      ensures this.name == name && State() == NewLock()
    {
      this.name := name;
      readers, writer, ownerFd, refcount := 0, 0, -1, 1;
    }

    /** `try_open_read`: succeeds iff no writer holds the lock. */
    method TryOpenRead() returns (ok: bool)
      modifies this
      ensures ok == TryRead(old(State())).Granted?
      ensures State() == if ok then TryRead(old(State())).after else old(State())
    {
      if writer != 0 {
        return false;
      }
      readers := readers + 1;
      return true;
    }

    /** `try_open_append`: succeeds iff the lock is idle, and records the owner. */
    method TryOpenAppend(clientFd: int) returns (ok: bool)
      modifies this
      ensures ok == TryAppend(old(State()), clientFd).Granted?
      ensures State() == if ok then TryAppend(old(State()), clientFd).after else old(State())
    {
      if writer != 0 || readers > 0 {
        return false;
      }
      writer := 1;
      ownerFd := clientFd;
      return true;
    }

    /** `close_for`: gives back the slot held in `mode`. */
    method CloseFor(mode: OpenMode)
      modifies this
      ensures State() == LockSpec.CloseFor(mode, old(State()))
    {
      if mode == ModeRead {
        if readers > 0 {
          readers := readers - 1;
        }
      } else if mode == ModeAppend {
        writer := 0;
        ownerFd := -1;
      }
    }
  }

  /** The registry: the list headed by `glob_table_head`, each node's lock in order. */
  class LockTable {
    var nodes: seq<FileLock>
    /** Every lock the list has held: the objects its callers may update. */
    ghost var Repr: set<FileLock>

    /** Names in the list are unique, so a lock is found by its name. */
    ghost predicate Valid()
      reads this
    {
      && (forall i, j | 0 <= i < j < |nodes| :: nodes[i].name != nodes[j].name)
      && (forall i | 0 <= i < |nodes| :: nodes[i] in Repr)
    }

    /** The list as a value, head first. */
    function Table(): (t: Table)
      reads this, nodes
      ensures Valid() ==> UniqueNames(t)
      ensures |t| == |nodes|
    {
      seq(|nodes|, i requires 0 <= i < |nodes| reads this, nodes => Entry(nodes[i].name, nodes[i].State()))
    }

    /** The registry at process start: an empty list. */
    constructor ()
      ensures Valid() && nodes == [] && Table() == [] && Repr == {}
    {
      nodes := [];
      Repr := {};
    }

    /**
     * The walk of `find_or_create_lock` over the list: the position of the
     * node whose lock is called `name`, or the list's length if there is none.
     */
    method Lookup(name: string) returns (i: nat)
      requires Valid()
      ensures i <= |nodes|
      ensures i < |nodes| ==> IndexOf(Table(), name) == Some(i)
      ensures i == |nodes| ==> IndexOf(Table(), name) == None
    {
      i := 0;
      while i < |nodes|
        invariant i <= |nodes|
        invariant forall j | 0 <= j < i :: nodes[j].name != name
      {
        if nodes[i].name == name {
          IndexOfUnique(Table(), i);
          return;
        }
        i := i + 1;
      }
    }

    /**
     * `find_or_create_lock`: walks the list for `name`; a hit gains one
     * reference, a miss allocates a lock (unless `allocOk` is false, standing
     * for a failed `malloc` or `sem_init`) and links it at the head.
     */
    method FindOrCreateLock(name: string, allocOk: bool) returns (lock: FileLock?)
      requires Valid()
      modifies this, nodes
      ensures Valid()
      ensures var a := Acquire(old(Table()), name, allocOk);
        && Table() == a.table
        && (lock == null <==> a.index.None?)
        && (lock != null ==> a.index.value < |nodes| && lock == nodes[a.index.value] && lock.name == name)
      ensures old(Repr) <= Repr && fresh(Repr - old(Repr))
    {
      var i := Lookup(name);
      if i < |nodes| {
        lock := nodes[i];
        AddReference(i);
        return;
      }
      if !allocOk {
        return null;
      }
      lock := new FileLock(name);
      assert forall j | 0 <= j < |nodes| :: Table()[j].name == nodes[j].name;
      Push(lock);
    }

    /** The hit in `find_or_create_lock`: `lock->refcount++` on the node at `i`. */
    method AddReference(i: nat)
      requires Valid() && i < |nodes|
      modifies nodes[i]
      ensures Table() == old(Table()[i := Table()[i].(lock := Table()[i].lock.(refcount := Table()[i].lock.refcount + 1))])
    {
      ghost var t := Table();
      assert forall j | 0 <= j < |nodes| && j != i :: nodes[j] != nodes[i];
      nodes[i].refcount := nodes[i].refcount + 1;
      assert Table() == t[i := Entry(nodes[i].name, nodes[i].State())];
    }

    /** The miss in `find_or_create_lock`: link a newly allocated lock at the head. */
    method Push(lock: FileLock)
      requires Valid() && forall j | 0 <= j < |nodes| :: nodes[j].name != lock.name
      modifies this
      ensures Valid() && nodes == [lock] + old(nodes) && Repr == old(Repr) + {lock}
      ensures Table() == [Entry(lock.name, lock.State())] + old(Table())
    {
      nodes := [lock] + nodes;
      Repr := Repr + {lock};
    }

    /**
     * `try_open_read` or `try_open_append` on a lock of the list: only that
     * lock's entry can change.
     */
    method TryOpen(lock: FileLock, mode: OpenMode, fd: int) returns (ok: bool)
      requires Valid() && lock in nodes && mode != ModeNone
      modifies lock
      ensures IndexOf(old(Table()), lock.name).Some?
      ensures var i := IndexOf(old(Table()), lock.name).value;
        var a := LockSpec.TryOpen(mode, old(Table())[i].lock, fd);
        && ok == a.Granted?
        && Table() == if ok then old(Table())[i := Entry(lock.name, a.after)] else old(Table())
    {
      ghost var k :| 0 <= k < |nodes| && nodes[k] == lock;
      ghost var t := Table();
      IndexOfUnique(t, k);
      assert forall j | 0 <= j < |nodes| && j != k :: nodes[j] != lock;
      if mode == ModeRead {
        ok := lock.TryOpenRead();
      } else {
        ok := lock.TryOpenAppend(fd);
      }
      assert Table() == if ok then t[k := Entry(lock.name, lock.State())] else t;
    }

    /** `close_for` on a lock of the list: only that lock's entry changes. */
    method CloseFor(lock: FileLock, mode: OpenMode)
      requires Valid() && lock in nodes
      modifies lock
      ensures IndexOf(old(Table()), lock.name).Some?
      ensures var i := IndexOf(old(Table()), lock.name).value;
        Table() == old(Table())[i := Entry(lock.name, LockSpec.CloseFor(mode, old(Table())[i].lock))]
    {
      ghost var k :| 0 <= k < |nodes| && nodes[k] == lock;
      ghost var t := Table();
      IndexOfUnique(t, k);
      assert forall j | 0 <= j < |nodes| && j != k :: nodes[j] != lock;
      lock.CloseFor(mode);
      assert Table() == t[k := Entry(lock.name, lock.State())];
    }

    /**
     * `release_lock`: drops one reference and, when none is left and the lock
     * is idle, unlinks its node from the list.
     */
    method ReleaseLock(lock: FileLock)
      requires Valid() && lock in nodes
      modifies this, lock
      ensures Valid()
      ensures Table() == Release(old(Table()), lock.name)
      ensures Repr == old(Repr)
    {
      ghost var k :| 0 <= k < |nodes| && nodes[k] == lock;
      ghost var t := Table();
      IndexOfUnique(t, k);
      assert forall j | 0 <= j < |nodes| && j != k :: nodes[j] != lock;
      lock.refcount := lock.refcount - 1;
      assert Table() == t[k := Entry(lock.name, lock.State())];
      if lock.refcount == 0 && lock.readers == 0 && lock.writer == 0 {
        var i := 0;
        while i < |nodes| && nodes[i] != lock
          invariant 0 <= i <= k
          invariant forall j | 0 <= j < i :: nodes[j] != lock
        {
          i := i + 1;
        }
        if i < |nodes| {
          Unlink(i);
        }
      }
    }

    /** `close_for` and then `release_lock` on a lock of the list. */
    method Relinquish(lock: FileLock, mode: OpenMode)
      requires Valid() && lock in nodes
      modifies this, lock
      ensures Valid() && Repr == old(Repr)
      ensures Table() == LockSpec.Relinquish(old(Table()), lock.name, mode)
    {
      CloseFor(lock, mode);
      ReleaseLock(lock);
    }

    /** The pointer update `*link_to_slot = node_to_free->next`. */
    method Unlink(i: nat)
      requires Valid() && i < |nodes|
      modifies this
      ensures Valid()
      ensures nodes == old(nodes[..i] + nodes[i + 1..]) && Repr == old(Repr)
      ensures Table() == old(Table()[..i] + Table()[i + 1..])
    {
      nodes := nodes[..i] + nodes[i + 1..];
      assert forall j | 0 <= j < |nodes| :: nodes[j] == if j < i then old(nodes[j]) else old(nodes[j + 1]);
    }
  }
}
