/**
 * Value-level specification of the per-file readers/writer lock
 * (`struct FileLock`) and of the lock registry (the `glob_table_head` list)
 * of server.c.  The classes in locks.dfy are proved to follow these
 * functions, and the session and server models are built on them.
 */
module LockSpec {

  datatype Option<T> = None | Some(value: T)

  /** `enum OpenMode`: how a session holds its file. */
  datatype OpenMode = ModeNone | ModeRead | ModeAppend

  /** The fields of `struct FileLock` that the server updates (its semaphore is not modelled). */
  datatype LockState = LockState(readers: int, writer: int, ownerFd: int, refcount: int)

  /**
   * The exclusion invariant of one lock: a non-negative reader count, a
   * writer flag that is 0 or 1, never a writer beside a reader, and no
   * recorded owner while there is no writer.
   */
  predicate Exclusive(l: LockState) {
    && l.readers >= 0
    && (l.writer == 0 || l.writer == 1)
    && (l.writer == 1 ==> l.readers == 0)
    && (l.writer == 0 ==> l.ownerFd == -1)
  }

  /** Neither a reader nor a writer holds the lock. */
  predicate Idle(l: LockState) {
    l.readers == 0 && l.writer == 0
  }

  /** The lock `find_or_create_lock` allocates for a name it has not seen. */
  function NewLock(): (l: LockState)
    ensures Exclusive(l) && Idle(l) && l.refcount == 1
  {
    LockState(0, 0, -1, 1)
  }

  /** Outcome of a non-blocking acquire. */
  datatype Attempt = Granted(after: LockState) | Denied

  /** `try_open_read`: shared access unless a writer holds the lock. */
  function TryRead(l: LockState): (a: Attempt)
    ensures Exclusive(l) && a.Granted? ==> Exclusive(a.after) && a.after.readers > 0 && a.after.refcount == l.refcount
  {
    if l.writer != 0 then Denied else Granted(l.(readers := l.readers + 1))
  }

  /** `try_open_append`: exclusive access, recording the connection `fd` as owner. */
  function TryAppend(l: LockState, fd: int): (a: Attempt)
    ensures Exclusive(l) ==> (a.Granted? <==> Idle(l))
    ensures Exclusive(l) && a.Granted? ==> Exclusive(a.after) && a.after.writer == 1 && a.after.refcount == l.refcount
  {
    if l.writer != 0 || l.readers > 0 then Denied else Granted(l.(writer := 1, ownerFd := fd))
  }

  /** `close_for`: give back the slot held in `mode`. */
  function CloseFor(mode: OpenMode, l: LockState): (r: LockState)
    ensures Exclusive(l) ==> Exclusive(r)
    ensures r.refcount == l.refcount && r.readers <= l.readers
  {
    match mode
    case ModeRead => if l.readers > 0 then l.(readers := l.readers - 1) else l
    case ModeAppend => l.(writer := 0, ownerFd := -1)
    case ModeNone => l
  }

  /** `try_open_read` or `try_open_append`, as `mode` asks. */
  function TryOpen(mode: OpenMode, l: LockState, fd: int): (a: Attempt)
    requires mode != ModeNone
    ensures Exclusive(l) && a.Granted? ==> Exclusive(a.after) && a.after.refcount == l.refcount
    ensures Exclusive(l) ==> (a.Granted? <==> if mode == ModeRead then l.writer == 0 else Idle(l))
  {
    if mode == ModeRead then TryRead(l) else TryAppend(l, fd)
  }

  /**
   * Releasing exactly what a granted acquire took gives back the lock it
   * started from: reads and appends are undone by `close_for`.
   */
  lemma CloseForUndoesAcquire(l: LockState, fd: int)
    requires Exclusive(l)
    ensures TryRead(l).Granted? ==> CloseFor(ModeRead, TryRead(l).after) == l
    ensures TryAppend(l, fd).Granted? ==> CloseFor(ModeAppend, TryAppend(l, fd).after) == l
    ensures forall mode | mode != ModeNone && TryOpen(mode, l, fd).Granted? :: CloseFor(mode, TryOpen(mode, l, fd).after) == l
  {
  }

  // ---------------------------------------------------------------------
  // The registry: a list of named locks, head first.

  /** One `struct FileNode` together with the lock it points at. */
  datatype Entry = Entry(name: string, lock: LockState)

  /** The list `glob_table_head`, head first. */
  type Table = seq<Entry>

  /** Names in the table identify their entries. */
  predicate UniqueNames(t: Table) {
    forall i, j | 0 <= i < j < |t| :: t[i].name != t[j].name
  }

  /** Every entry keeps the exclusion invariant and is referenced at least once. */
  predicate Live(t: Table) {
    forall i | 0 <= i < |t| :: Exclusive(t[i].lock) && t[i].lock.refcount >= 1
  }

  function Names(t: Table): set<string> {
    set i | 0 <= i < |t| :: t[i].name
  }

  /** Position of the first entry called `name`: the walk of `find_or_create_lock`. */
  function IndexOf(t: Table, name: string): (r: Option<nat>)
    ensures r.Some? ==> r.value < |t| && t[r.value].name == name
    ensures r.Some? ==> forall j | 0 <= j < r.value :: t[j].name != name
    ensures r.None? ==> forall j | 0 <= j < |t| :: t[j].name != name
  {
    if t == [] then None
    else if t[0].name == name then Some(0)
    else match IndexOf(t[1..], name)
      case None => None
      case Some(i) => Some(i + 1)
  }

  /** A name is found exactly when the table holds an entry of that name. */
  lemma IndexOfNames(t: Table, name: string)
    ensures IndexOf(t, name).Some? <==> name in Names(t)
  {
  }

  /** With unique names, the walk finds every entry at its own position. */
  lemma IndexOfUnique(t: Table, i: nat)
    requires UniqueNames(t) && i < |t|
    ensures IndexOf(t, t[i].name) == Some(i)
  {
  }

  /** Result of `find_or_create_lock`: the new table and where the lock is, if any. */
  datatype Acquired = Acquired(table: Table, index: Option<nat>)

  /**
   * `find_or_create_lock`: an existing entry gains one reference; an absent
   * name gets a fresh lock at the head of the list, unless allocation fails
   * (`allocOk` false), in which case the table is untouched.
   */
  function Acquire(t: Table, name: string, allocOk: bool): (a: Acquired)
    ensures a.index.Some? ==> a.index.value < |a.table| && a.table[a.index.value].name == name
    ensures a.index.None? <==> !allocOk && IndexOf(t, name).None?
    ensures a.index.None? ==> a.table == t
  {
    match IndexOf(t, name)
    case Some(i) => Acquired(t[i := t[i].(lock := t[i].lock.(refcount := t[i].lock.refcount + 1))], Some(i))
    case None => if allocOk then Acquired([Entry(name, NewLock())] + t, Some(0)) else Acquired(t, None)
  }

  /**
   * Looking up a name already present adds one reference to that entry,
   * adds no entry and changes no other entry.
   */
  lemma AcquirePresent(t: Table, name: string, allocOk: bool)
    requires name in Names(t)
    ensures var a := Acquire(t, name, allocOk);
      && a.index.Some? && |a.table| == |t|
      && a.table[a.index.value].lock == t[a.index.value].lock.(refcount := t[a.index.value].lock.refcount + 1)
      && (forall j | 0 <= j < |t| && j != a.index.value :: a.table[j] == t[j])
      && Names(a.table) == Names(t)
  {
    IndexOfNames(t, name);
    var a := Acquire(t, name, allocOk);
    var i := IndexOf(t, name).value;
    forall n ensures n in Names(a.table) <==> n in Names(t) {
      if n in Names(t) {
        var j :| 0 <= j < |t| && t[j].name == n;
        assert a.table[j].name == n;
      }
      if n in Names(a.table) {
        var j :| 0 <= j < |a.table| && a.table[j].name == n;
        assert t[j].name == n;
      }
    }
  }

  /**
   * Looking up an absent name inserts exactly one entry, at the head, with a
   * fresh lock, and keeps names unique; if allocation fails nothing changes.
   */
  lemma AcquireAbsent(t: Table, name: string, allocOk: bool)
    requires name !in Names(t)
    ensures var a := Acquire(t, name, allocOk);
      && (allocOk ==> a.index == Some(0) && a.table == [Entry(name, NewLock())] + t)
      && (!allocOk ==> a.index == None && a.table == t)
      && (UniqueNames(t) ==> UniqueNames(a.table))
      && Names(a.table) == if allocOk then Names(t) + {name} else Names(t)
  {
    IndexOfNames(t, name);
    var a := Acquire(t, name, allocOk);
    if allocOk {
      forall i, j | 0 <= i < j < |a.table| ensures UniqueNames(t) ==> a.table[i].name != a.table[j].name {
        if i == 0 { assert a.table[j].name == t[j - 1].name; }
      }
      forall n ensures n in Names(a.table) <==> n in Names(t) + {name} {
        if n in Names(t) {
          var j :| 0 <= j < |t| && t[j].name == n;
          assert a.table[j + 1].name == n;
        }
        if n in Names(a.table) {
          var j :| 0 <= j < |a.table| && a.table[j].name == n;
          if j > 0 { assert t[j - 1].name == n; }
        }
      }
    }
  }

  /**
   * Acquiring keeps names unique, and the name is then found exactly where
   * the lock was handed out.
   */
  lemma AcquireFinds(t: Table, name: string, allocOk: bool)
    requires UniqueNames(t)
    ensures var a := Acquire(t, name, allocOk);
      && UniqueNames(a.table)
      && (a.index.Some? ==> IndexOf(a.table, name) == a.index)
  {
    IndexOfNames(t, name);
    if name in Names(t) {
      AcquirePresent(t, name, allocOk);
    } else {
      AcquireAbsent(t, name, allocOk);
    }
    var a := Acquire(t, name, allocOk);
    if a.index.Some? {
      IndexOfUnique(a.table, a.index.value);
    }
  }

  /** Acquiring keeps every entry live: the exclusion invariant and a positive count. */
  lemma AcquireLive(t: Table, name: string, allocOk: bool)
    requires Live(t)
    ensures Live(Acquire(t, name, allocOk).table)
  {
  }

  /** `release_lock` on the entry at `i`. */
  function ReleaseAt(t: Table, i: nat): (r: Table)
    requires i < |t|
    ensures |r| == |t| || |r| == |t| - 1
    ensures |r| == |t| - 1 <==> t[i].lock.refcount == 1 && Idle(t[i].lock)
  {
    var l := t[i].lock.(refcount := t[i].lock.refcount - 1);
    if l.refcount == 0 && Idle(l) then t[..i] + t[i + 1..] else t[i := Entry(t[i].name, l)]
  }

  /** `release_lock` on the lock called `name` (a name not in the table leaves it as it is). */
  function Release(t: Table, name: string): (r: Table)
    ensures |t| - 1 <= |r| <= |t|
    ensures IndexOf(t, name).None? ==> r == t
  {
    match IndexOf(t, name)
    case None => t
    case Some(i) => ReleaseAt(t, i)
  }

  /**
   * `close_for` followed by `release_lock` on the lock called `name`: how a
   * session gives back a lock it holds in `mode`.
   */
  function Relinquish(t: Table, name: string, mode: OpenMode): (r: Table)
    ensures |t| - 1 <= |r| <= |t|
    ensures IndexOf(t, name).None? ==> r == t
  {
    match IndexOf(t, name)
    case None => t
    case Some(i) => Release(t[i := Entry(name, CloseFor(mode, t[i].lock))], name)
  }

  /** Dropping the entry at `i` keeps the other entries in order and names unique. */
  lemma RemoveAt(t: Table, i: nat)
    requires UniqueNames(t) && i < |t|
    ensures UniqueNames(t[..i] + t[i + 1..])
    ensures Names(t[..i] + t[i + 1..]) == Names(t) - {t[i].name}
  {
    var r := t[..i] + t[i + 1..];
    assert forall j | 0 <= j < |r| :: r[j] == t[if j < i then j else j + 1];
    forall n | n in Names(t) - {t[i].name} ensures n in Names(r) {
      var j :| 0 <= j < |t| && t[j].name == n;
      assert r[if j < i then j else j - 1].name == n;
    }
  }

  /** Replacing the lock at `i` keeps the names. */
  lemma UpdateAt(t: Table, i: nat, l: LockState)
    requires i < |t|
    ensures Names(t[i := Entry(t[i].name, l)]) == Names(t)
    ensures UniqueNames(t) ==> UniqueNames(t[i := Entry(t[i].name, l)])
  {
    var r := t[i := Entry(t[i].name, l)];
    forall n ensures n in Names(r) <==> n in Names(t) {
      if n in Names(t) {
        var j :| 0 <= j < |t| && t[j].name == n;
        assert r[j].name == n;
      }
      if n in Names(r) {
        var j :| 0 <= j < |r| && r[j].name == n;
        assert t[j].name == n;
      }
    }
  }

  /**
   * `release_lock` always takes one reference away; it unlinks the entry
   * exactly when that leaves no reference and the lock is idle, and then the
   * other entries keep their relative order; otherwise only the count changes.
   */
  lemma ReleaseEffect(t: Table, i: nat)
    requires UniqueNames(t) && i < |t|
    ensures var r := Release(t, t[i].name);
      var l := t[i].lock.(refcount := t[i].lock.refcount - 1);
      && (l.refcount == 0 && Idle(l) ==> r == t[..i] + t[i + 1..] && Names(r) == Names(t) - {t[i].name})
      && (!(l.refcount == 0 && Idle(l)) ==> r == t[i := Entry(t[i].name, l)] && Names(r) == Names(t))
      && UniqueNames(r)
  {
    IndexOfUnique(t, i);
    var l := t[i].lock.(refcount := t[i].lock.refcount - 1);
    if l.refcount == 0 && Idle(l) {
      RemoveAt(t, i);
    } else {
      UpdateAt(t, i, l);
    }
  }

  /**
   * A session giving back its lock on `t[i]` in `mode`: the entry is
   * unlinked exactly when no reference is left and the lock is idle after
   * `close_for`; otherwise only its counters change.
   */
  lemma RelinquishEffect(t: Table, i: nat, mode: OpenMode)
    requires UniqueNames(t) && i < |t|
    ensures var r := Relinquish(t, t[i].name, mode);
      var l := CloseFor(mode, t[i].lock).(refcount := t[i].lock.refcount - 1);
      && (l.refcount == 0 && Idle(l) ==> r == t[..i] + t[i + 1..] && Names(r) == Names(t) - {t[i].name})
      && (!(l.refcount == 0 && Idle(l)) ==> r == t[i := Entry(t[i].name, l)] && Names(r) == Names(t))
      && UniqueNames(r)
  {
    var l := CloseFor(mode, t[i].lock);
    var t1 := t[i := Entry(t[i].name, l)];
    IndexOfUnique(t, i);
    UpdateAt(t, i, l);
    ReleaseEffect(t1, i);
    assert t1[..i] + t1[i + 1..] == t[..i] + t[i + 1..];
    assert t1[i := Entry(t[i].name, l.(refcount := l.refcount - 1))] == t[i := Entry(t[i].name, l.(refcount := l.refcount - 1))];
  }

  /**
   * A lookup followed by its release leaves a live table exactly as it was:
   * the registry leaks no reference and no entry on that path.
   */
  lemma AcquireThenRelease(t: Table, name: string, allocOk: bool)
    requires UniqueNames(t) && Live(t)
    ensures Release(Acquire(t, name, allocOk).table, name) == t
  {
    var a := Acquire(t, name, allocOk);
    IndexOfNames(t, name);
    if name in Names(t) {
      var i := IndexOf(t, name).value;
      AcquirePresent(t, name, allocOk);
      IndexOfUnique(a.table, i);
      assert a.table[i := Entry(name, t[i].lock)] == t;
    } else {
      AcquireAbsent(t, name, allocOk);
      if allocOk {
        IndexOfUnique(a.table, 0);
        assert a.table[1..] == t;
      }
    }
  }

  // ---------------------------------------------------------------------
  // Long names, as server.c stores them.

  /** Room for a name in `struct FileLock`: `char name[512]` less its terminator. */
  const NameCapacity: nat := 511

  /** The name `strncpy` leaves in `lock->name`: the first NameCapacity characters at most. */
  function Stored(name: string): (r: string)
    ensures |r| <= NameCapacity && r <= name
    ensures |name| <= NameCapacity ==> r == name
    ensures |name| > NameCapacity ==> r == name[..NameCapacity]
  {
    if |name| <= NameCapacity then name else name[..NameCapacity]
  }

  /**
   * `find_or_create_lock` as server.c writes it: the walk compares each
   * stored name with the full name asked for, while a new lock stores the
   * name cut to NameCapacity characters.  On names that fit it is Acquire;
   * on a longer name that is not in the table it always adds an entry.
   */
  function AcquireAsWritten(t: Table, name: string, allocOk: bool): (a: Acquired)
    ensures |name| <= NameCapacity ==> a == Acquire(t, name, allocOk)
    ensures IndexOf(t, name).None? && allocOk ==> |a.table| == |t| + 1 && a.table[0].name == Stored(name)
  {
    match IndexOf(t, name)
    case Some(i) => Acquired(t[i := t[i].(lock := t[i].lock.(refcount := t[i].lock.refcount + 1))], Some(i))
    case None => if allocOk then Acquired([Entry(Stored(name), NewLock())] + t, Some(0)) else Acquired(t, None)
  }

  /**
   * With a name longer than NameCapacity, two connections opening it for
   * appending one after the other are both granted: the second walk does
   * not recognise the cut name the first one stored, and makes a second lock.
   */
  lemma LongNameTwoWriters(name: string, fd1: int, fd2: int)
    requires |name| > NameCapacity
    ensures var a1 := AcquireAsWritten([], name, true);
      var g1 := TryAppend(a1.table[0].lock, fd1);
      && g1.Granted?
      && var a2 := AcquireAsWritten([Entry(a1.table[0].name, g1.after)], name, true);
      && a2.index == Some(0) && |a2.table| == 2
      && TryAppend(a2.table[0].lock, fd2).Granted?
  {
    var t1 := [Entry(Stored(name), TryAppend(NewLock(), fd1).after)];
    assert t1[0].name != name by {
      assert |t1[0].name| < |name|;
    }
    assert IndexOf(t1, name).None?;
  }

  /** The same two opens against Acquire, which keeps the whole name: the second is refused. */
  lemma LongNameOneWriter(name: string, fd1: int, fd2: int)
    ensures var a1 := Acquire([], name, true);
      var g1 := TryAppend(a1.table[0].lock, fd1);
      && g1.Granted?
      && var a2 := Acquire([Entry(a1.table[0].name, g1.after)], name, true);
      && a2.index == Some(0) && |a2.table| == 1
      && TryAppend(a2.table[0].lock, fd2).Denied?
  {
    var t1 := [Entry(name, TryAppend(NewLock(), fd1).after)];
    IndexOfUnique(t1, 0);
  }
}
