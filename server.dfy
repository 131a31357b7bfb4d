/**
 * The whole server of server.c: the registry shared by every connection
 * thread, the session of each accepted connection, and the files.  A run
 * interleaves whole commands of different connections.  The invariant
 * Consistent says that every lock's counters are exactly the connections
 * holding its file, which gives the exclusion the server promises: a
 * connection appending to a file is the only one holding it.
 */
module Server {
  import opened LockSpec
  import opened Protocol

  /** One accepted connection: its socket, its session, and whether its thread still runs. */
  datatype Conn = Conn(fd: int, session: SessionState, live: bool)

  /** The registry, every connection accepted so far, and the files. */
  datatype World = World(table: Table, conns: seq<Conn>, files: Files)

  /**
   * What can happen next: `main` accepts a connection and starts its
   * thread, connection `k`'s thread handles one line, or connection `k`'s
   * peer goes away (`socket_read_line` returns 0 or fails).
   */
  datatype Event = Accept(fd: int) | Receive(k: nat, input: Input) | Disconnect(k: nat)

  /** The server when it starts listening: an empty registry and no connection. */
  function Start(files: Files): World {
    World([], [], files)
  }

  /**
   * One event.  A connection keeps its socket, a connection whose thread
   * has ended is never touched again, and only `accept` adds a connection,
   * which starts with a closed session.
   */
  function Next(w: World, e: Event): (r: World)
    ensures |r.conns| == |w.conns| + (if e.Accept? then 1 else 0)
    ensures forall k | 0 <= k < |w.conns| :: r.conns[k].fd == w.conns[k].fd
    ensures forall k | 0 <= k < |w.conns| && !w.conns[k].live :: r.conns[k] == w.conns[k]
    ensures e.Accept? ==> r.conns[|w.conns|] == Conn(e.fd, Closed, true)
  {
    match e
    case Accept(fd) => w.(conns := w.conns + [Conn(fd, Closed, true)])
    case Receive(k, input) =>
      if k < |w.conns| && w.conns[k].live then
        var c := w.conns[k];
        var o := Step(c.session, w.table, w.files, c.fd, input.cmd, input.env);
        World(o.table, w.conns[k := Conn(c.fd, o.session, !o.done)], o.files)
      else w
    case Disconnect(k) =>
      if k < |w.conns| && w.conns[k].live then
        var c := w.conns[k];
        var o := Hangup(c.session, w.table, w.files, Silent);
        World(o.table, w.conns[k := Conn(c.fd, o.session, false)], o.files)
      else w
  }

  /** The world after the events, in order. */
  function Replay(w: World, events: seq<Event>): (r: World)
    ensures |w.conns| <= |r.conns|
    ensures forall k | 0 <= k < |w.conns| :: r.conns[k].fd == w.conns[k].fd
    ensures forall k | 0 <= k < |w.conns| && !w.conns[k].live :: r.conns[k] == w.conns[k]
    decreases |events|
  {
    if events == [] then w else Replay(Next(w, events[0]), events[1..])
  }

  // ---------------------------------------------------------------------
  // Counting holders.

  /** Connection `c` holds `name` open in `mode`. */
  predicate HoldsIn(c: Conn, name: string, mode: OpenMode) {
    c.session.mode == mode && c.session.filename == name
  }

  /** How many connections hold `name` open in `mode`. */
  function Holders(cs: seq<Conn>, name: string, mode: OpenMode): nat {
    if cs == [] then 0
    else (if HoldsIn(cs[0], name, mode) then 1 else 0) + Holders(cs[1..], name, mode)
  }

  /** Replacing connection `k` by `c` moves the count by what each of them holds. */
  lemma {:induction false} HoldersUpdate(cs: seq<Conn>, k: nat, c: Conn, name: string, mode: OpenMode)
    requires k < |cs|
    ensures Holders(cs[k := c], name, mode) + (if HoldsIn(cs[k], name, mode) then 1 else 0)
         == Holders(cs, name, mode) + (if HoldsIn(c, name, mode) then 1 else 0)
  {
    if k > 0 {
      assert cs[k := c][1..] == cs[1..][k - 1 := c];
      HoldersUpdate(cs[1..], k - 1, c, name, mode);
    }
  }

  /** A new connection holds nothing and changes no count. */
  lemma {:induction false} HoldersAccept(cs: seq<Conn>, fd: int, name: string, mode: OpenMode)
    requires mode != ModeNone
    ensures Holders(cs + [Conn(fd, Closed, true)], name, mode) == Holders(cs, name, mode)
  {
    if cs != [] {
      assert (cs + [Conn(fd, Closed, true)])[1..] == cs[1..] + [Conn(fd, Closed, true)];
      HoldersAccept(cs[1..], fd, name, mode);
    }
  }

  /** A connection that holds `name` is counted. */
  lemma {:induction false} HolderCounted(cs: seq<Conn>, k: nat, name: string, mode: OpenMode)
    requires k < |cs| && HoldsIn(cs[k], name, mode)
    ensures Holders(cs, name, mode) >= 1
  {
    if k > 0 {
      HolderCounted(cs[1..], k - 1, name, mode);
    }
  }

  /** A positive count has a holder behind it. */
  lemma {:induction false} HolderExists(cs: seq<Conn>, name: string, mode: OpenMode) returns (k: nat)
    requires Holders(cs, name, mode) >= 1
    ensures k < |cs| && HoldsIn(cs[k], name, mode)
  {
    if HoldsIn(cs[0], name, mode) {
      k := 0;
    } else {
      k := HolderExists(cs[1..], name, mode);
      k := k + 1;
    }
  }

  /** Two different holders make a count of at least two. */
  lemma HoldersTwo(cs: seq<Conn>, j: nat, k: nat, name: string, mode: OpenMode)
    requires mode != ModeNone
    requires j < |cs| && k < |cs| && j != k && HoldsIn(cs[j], name, mode) && HoldsIn(cs[k], name, mode)
    ensures Holders(cs, name, mode) >= 2
  {
    var c := Conn(cs[k].fd, Closed, false);
    HoldersUpdate(cs, k, c, name, mode);
    HolderCounted(cs[k := c], j, name, mode);
  }

  // ---------------------------------------------------------------------
  // The invariant.

  /**
   * The counters of lock `l` for `name` are the connections holding it:
   * its readers, its writer, its references, and its owner socket.
   */
  predicate Counts(l: LockState, name: string, cs: seq<Conn>) {
    && Exclusive(l)
    && l.readers == Holders(cs, name, ModeRead)
    && l.writer == Holders(cs, name, ModeAppend)
    && l.refcount == l.readers + l.writer
    && (forall k | 0 <= k < |cs| && HoldsIn(cs[k], name, ModeAppend) :: l.ownerFd == cs[k].fd)
  }

  /** A registry entry is referenced and its counters are right. */
  predicate Agrees(e: Entry, cs: seq<Conn>) {
    Counts(e.lock, e.name, cs) && e.lock.refcount >= 1
  }

  /** A connection's session is reset once it holds nothing, and always once its thread has ended. */
  predicate ConnOk(c: Conn) {
    WellFormed(c.session) && (!c.live ==> c.session == Closed)
  }

  /**
   * The invariant of the server: names are unique, every entry agrees
   * with the connections, and every file held open has its entry.
   */
  predicate Consistent(w: World) {
    && UniqueNames(w.table)
    && (forall i | 0 <= i < |w.table| :: Agrees(w.table[i], w.conns))
    && (forall k | 0 <= k < |w.conns| :: ConnOk(w.conns[k]))
    && (forall k | 0 <= k < |w.conns| && w.conns[k].session.mode != ModeNone :: w.conns[k].session.filename in Names(w.table))
  }

  lemma StartConsistent(files: Files)
    ensures Consistent(Start(files))
  {
  }

  // ---------------------------------------------------------------------
  // Counts under the three kinds of change.

  /** Changing a connection that neither held nor holds `name` leaves its counts right. */
  lemma CountsFrame(l: LockState, name: string, cs: seq<Conn>, k: nat, c: Conn)
    requires k < |cs| && c.fd == cs[k].fd
    requires HoldsIn(cs[k], name, ModeRead) <==> HoldsIn(c, name, ModeRead)
    requires HoldsIn(cs[k], name, ModeAppend) <==> HoldsIn(c, name, ModeAppend)
    requires Counts(l, name, cs)
    ensures Counts(l, name, cs[k := c])
  {
    HoldersUpdate(cs, k, c, name, ModeRead);
    HoldersUpdate(cs, k, c, name, ModeAppend);
  }

  /** A granted open by a closed connection `k` keeps the counts of the file it opens right. */
  lemma CountsGrant(l: LockState, name: string, cs: seq<Conn>, k: nat, mode: OpenMode)
    requires k < |cs| && cs[k].session == Closed && mode != ModeNone
    requires Counts(l, name, cs)
    requires TryOpen(mode, l.(refcount := l.refcount + 1), cs[k].fd).Granted?
    ensures Counts(TryOpen(mode, l.(refcount := l.refcount + 1), cs[k].fd).after, name,
                   cs[k := Conn(cs[k].fd, SessionState(mode, name, 0), true)])
  {
    var c := Conn(cs[k].fd, SessionState(mode, name, 0), true);
    var cs' := cs[k := c];
    HoldersUpdate(cs, k, c, name, ModeRead);
    HoldersUpdate(cs, k, c, name, ModeAppend);
    forall j | 0 <= j < |cs'| && j != k && HoldsIn(cs'[j], name, ModeAppend)
      ensures false
    {
      HolderCounted(cs, j, name, ModeAppend);
    }
  }

  /** Closing connection `k`'s file keeps the counts of that file right. */
  lemma CountsRelease(l: LockState, cs: seq<Conn>, k: nat, live: bool)
    requires k < |cs| && cs[k].session.mode != ModeNone
    requires Counts(l, cs[k].session.filename, cs)
    ensures var s := cs[k].session;
      Counts(CloseFor(s.mode, l).(refcount := l.refcount - 1), s.filename, cs[k := Conn(cs[k].fd, Closed, live)])
  {
    var s := cs[k].session;
    var c := Conn(cs[k].fd, Closed, live);
    HoldersUpdate(cs, k, c, s.filename, ModeRead);
    HoldersUpdate(cs, k, c, s.filename, ModeAppend);
    HolderCounted(cs, k, s.filename, s.mode);
    if s.mode == ModeAppend {
      forall j | 0 <= j < |cs| && j != k && HoldsIn(cs[j], s.filename, ModeAppend)
        ensures false
      {
        HoldersTwo(cs, j, k, s.filename, ModeAppend);
      }
    }
  }

  /** Nobody holds a name the registry does not know. */
  lemma CountsAbsent(w: World, name: string)
    requires Consistent(w) && name !in Names(w.table)
    ensures Counts(LockState(0, 0, -1, 0), name, w.conns)
  {
    if Holders(w.conns, name, ModeRead) >= 1 {
      var k := HolderExists(w.conns, name, ModeRead);
    }
    if Holders(w.conns, name, ModeAppend) >= 1 {
      var k := HolderExists(w.conns, name, ModeAppend);
    }
  }

  // ---------------------------------------------------------------------
  // The invariant is kept.

  /** A step that leaves connection `k`'s hold as it was keeps the invariant. */
  lemma KeepPreserves(w: World, k: nat, c: Conn, f: Files)
    requires Consistent(w) && k < |w.conns| && ConnOk(c) && c.fd == w.conns[k].fd
    requires c.session.mode == w.conns[k].session.mode && c.session.filename == w.conns[k].session.filename
    ensures Consistent(World(w.table, w.conns[k := c], f))
  {
    forall i | 0 <= i < |w.table|
      ensures Agrees(w.table[i], w.conns[k := c])
    {
      CountsFrame(w.table[i].lock, w.table[i].name, w.conns, k, c);
    }
  }

  /** A successful open by closed connection `k` keeps the invariant. */
  lemma OpenPreserves(w: World, k: nat, s: SessionState, t: Table, f: Files, allocOk: bool)
    requires Consistent(w) && k < |w.conns| && w.conns[k].session == Closed && w.conns[k].live
    requires s.mode != ModeNone && GrantedOpen(w.table, w.conns[k].fd, allocOk, s, t)
    ensures Consistent(World(t, w.conns[k := Conn(w.conns[k].fd, s, true)], f))
  {
    var n := s.filename;
    var a := Acquire(w.table, n, allocOk);
    IndexOfNames(w.table, n);
    if n in Names(w.table) {
      AcquirePresent(w.table, n, allocOk);
      OpenExisting(w, k, s, t, f, a.index.value);
    } else {
      AcquireAbsent(w.table, n, allocOk);
      OpenNew(w, k, s, t, f);
    }
  }

  /** An open granted on an entry already in the registry keeps the invariant. */
  lemma OpenExisting(w: World, k: nat, s: SessionState, t: Table, f: Files, i: nat)
    requires Consistent(w) && k < |w.conns| && w.conns[k].session == Closed && w.conns[k].live
    requires s.mode != ModeNone && s.pos == 0 && i < |w.table| && w.table[i].name == s.filename
    requires var e := w.table[i];
      var a := TryOpen(s.mode, e.lock.(refcount := e.lock.refcount + 1), w.conns[k].fd);
      a.Granted? && t == w.table[i := Entry(e.name, a.after)]
    ensures Consistent(World(t, w.conns[k := Conn(w.conns[k].fd, s, true)], f))
  {
    var e := w.table[i];
    var c := Conn(w.conns[k].fd, s, true);
    var l := TryOpen(s.mode, e.lock.(refcount := e.lock.refcount + 1), w.conns[k].fd).after;
    UpdateAt(w.table, i, l);
    CountsGrant(e.lock, e.name, w.conns, k, s.mode);
    forall j | 0 <= j < |t| && j != i
      ensures Agrees(t[j], w.conns[k := c])
    {
      CountsFrame(w.table[j].lock, w.table[j].name, w.conns, k, c);
    }
  }

  /** An open that creates the entry of a name nobody holds keeps the invariant. */
  lemma OpenNew(w: World, k: nat, s: SessionState, t: Table, f: Files)
    requires Consistent(w) && k < |w.conns| && w.conns[k].session == Closed && w.conns[k].live
    requires s.mode != ModeNone && s.pos == 0 && s.filename !in Names(w.table)
    requires var a := TryOpen(s.mode, NewLock(), w.conns[k].fd);
      a.Granted? && t == [Entry(s.filename, a.after)] + w.table
    requires UniqueNames([Entry(s.filename, NewLock())] + w.table)
    ensures Consistent(World(t, w.conns[k := Conn(w.conns[k].fd, s, true)], f))
  {
    var c := Conn(w.conns[k].fd, s, true);
    CountsAbsent(w, s.filename);
    CountsGrant(LockState(0, 0, -1, 0), s.filename, w.conns, k, s.mode);
    assert Names(w.table) + {s.filename} <= Names(t) by {
      assert t[0].name == s.filename;
      forall n | n in Names(w.table) ensures n in Names(t) {
        var j :| 0 <= j < |w.table| && w.table[j].name == n;
        assert t[j + 1].name == n;
      }
    }
    forall j | 1 <= j < |t|
      ensures Agrees(t[j], w.conns[k := c])
    {
      CountsFrame(w.table[j - 1].lock, w.table[j - 1].name, w.conns, k, c);
    }
  }

  /** Connection `k` giving back its file (ending or not) keeps the invariant. */
  lemma ReleasePreserves(w: World, k: nat, live: bool, f: Files)
    requires Consistent(w) && k < |w.conns| && w.conns[k].session.mode != ModeNone
    ensures var s := w.conns[k].session;
      Consistent(World(ReleaseSession(s, w.table), w.conns[k := Conn(w.conns[k].fd, Closed, live)], f))
  {
    var s := w.conns[k].session;
    IndexOfNames(w.table, s.filename);
    var i := IndexOf(w.table, s.filename).value;
    RelinquishEffect(w.table, i, s.mode);
    CountsRelease(w.table[i].lock, w.conns, k, live);
    var l := CloseFor(s.mode, w.table[i].lock).(refcount := w.table[i].lock.refcount - 1);
    if l.refcount == 0 && Idle(l) {
      ReleaseUnlinks(w, k, live, f, i, l);
    } else {
      ReleaseKeeps(w, k, live, f, i, l);
    }
  }

  /** The release leaves references or a holder: the entry stays with its new counters. */
  lemma ReleaseKeeps(w: World, k: nat, live: bool, f: Files, i: nat, l: LockState)
    requires Consistent(w) && k < |w.conns| && w.conns[k].session.mode != ModeNone
    requires i < |w.table| && w.table[i].name == w.conns[k].session.filename
    requires Counts(l, w.table[i].name, w.conns[k := Conn(w.conns[k].fd, Closed, live)])
    requires l.refcount != 0 && l.refcount == w.table[i].lock.refcount - 1
    ensures Consistent(World(w.table[i := Entry(w.table[i].name, l)], w.conns[k := Conn(w.conns[k].fd, Closed, live)], f))
  {
    var c := Conn(w.conns[k].fd, Closed, live);
    var t := w.table[i := Entry(w.table[i].name, l)];
    UpdateAt(w.table, i, l);
    forall j | 0 <= j < |t| && j != i
      ensures Agrees(t[j], w.conns[k := c])
    {
      CountsFrame(w.table[j].lock, w.table[j].name, w.conns, k, c);
    }
  }

  /** The release leaves no reference and an idle lock: the entry is unlinked. */
  lemma ReleaseUnlinks(w: World, k: nat, live: bool, f: Files, i: nat, l: LockState)
    requires Consistent(w) && k < |w.conns| && w.conns[k].session.mode != ModeNone
    requires i < |w.table| && w.table[i].name == w.conns[k].session.filename
    requires Counts(l, w.table[i].name, w.conns[k := Conn(w.conns[k].fd, Closed, live)])
    requires l.refcount == 0
    ensures Consistent(World(w.table[..i] + w.table[i + 1..], w.conns[k := Conn(w.conns[k].fd, Closed, live)], f))
  {
    var c := Conn(w.conns[k].fd, Closed, live);
    var cs := w.conns[k := c];
    var t := w.table[..i] + w.table[i + 1..];
    RemoveAt(w.table, i);
    forall j | 0 <= j < |t|
      ensures Agrees(t[j], cs)
    {
      var j0 := if j < i then j else j + 1;
      assert t[j] == w.table[j0];
      CountsFrame(w.table[j0].lock, w.table[j0].name, w.conns, k, c);
    }
    forall j | 0 <= j < |cs| && cs[j].session.mode != ModeNone
      ensures cs[j].session.filename in Names(t)
    {
      if cs[j].session.filename == w.table[i].name {
        HolderCounted(cs, j, w.table[i].name, cs[j].session.mode);
      }
    }
  }

  /** Every event keeps the invariant. */
  lemma NextPreserves(w: World, e: Event)
    requires Consistent(w)
    ensures Consistent(Next(w, e))
  {
    match e
    case Accept(fd) =>
      var c := Conn(fd, Closed, true);
      forall i | 0 <= i < |w.table|
        ensures Agrees(w.table[i], w.conns + [c])
      {
        HoldersAccept(w.conns, fd, w.table[i].name, ModeRead);
        HoldersAccept(w.conns, fd, w.table[i].name, ModeAppend);
      }
    case Receive(k, input) =>
      if k < |w.conns| && w.conns[k].live {
        var c := w.conns[k];
        StepCases(c.session, w.table, w.files, c.fd, input.cmd, input.env);
        var o := Step(c.session, w.table, w.files, c.fd, input.cmd, input.env);
        var c' := Conn(c.fd, o.session, !o.done);
        if Keeps(c.session, w.table, o) {
          KeepPreserves(w, k, c', o.files);
        } else if c.session == Closed {
          OpenPreserves(w, k, o.session, o.table, o.files, input.env.allocOk);
        } else {
          ReleasePreserves(w, k, !o.done, o.files);
        }
      }
    case Disconnect(k) =>
      if k < |w.conns| && w.conns[k].live {
        var c := w.conns[k];
        if c.session.mode == ModeNone {
          KeepPreserves(w, k, Conn(c.fd, Closed, false), w.files);
        } else {
          ReleasePreserves(w, k, false, w.files);
        }
      }
  }

  /** Every world the server can reach from its start is consistent. */
  lemma {:induction false} ReplayConsistent(w: World, events: seq<Event>)
    requires Consistent(w)
    ensures Consistent(Replay(w, events))
    decreases |events|
  {
    if events != [] {
      NextPreserves(w, events[0]);
      ReplayConsistent(Next(w, events[0]), events[1..]);
    }
  }

  // ---------------------------------------------------------------------
  // What the invariant gives.

  /**
   * Exclusion: a connection appending to a file is the only connection
   * holding that file, in any mode.
   */
  lemma AppendIsExclusive(w: World, j: nat, k: nat)
    requires Consistent(w) && j < |w.conns| && k < |w.conns| && j != k
    requires w.conns[j].session.mode == ModeAppend && w.conns[k].session.mode != ModeNone
    ensures w.conns[j].session.filename != w.conns[k].session.filename
  {
    var n := w.conns[j].session.filename;
    if w.conns[k].session.filename == n {
      IndexOfNames(w.table, n);
      var i := IndexOf(w.table, n).value;
      HolderCounted(w.conns, j, n, ModeAppend);
      if w.conns[k].session.mode == ModeAppend {
        HoldersTwo(w.conns, j, k, n, ModeAppend);
      } else {
        HolderCounted(w.conns, k, n, ModeRead);
      }
    }
  }

  /**
   * No leak: every registry entry is held open by some connection, so the
   * registry holds exactly the names that connections hold open.
   */
  lemma EntriesAreHeld(w: World, i: nat) returns (k: nat)
    requires Consistent(w) && i < |w.table|
    ensures k < |w.conns| && w.conns[k].session.mode != ModeNone && w.conns[k].session.filename == w.table[i].name
  {
    var e := w.table[i];
    if e.lock.readers >= 1 {
      k := HolderExists(w.conns, e.name, ModeRead);
    } else {
      k := HolderExists(w.conns, e.name, ModeAppend);
    }
  }

  /**
   * Readers share a file: a live connection with no file open that asks to
   * read a name nobody is appending to is granted it, whoever else reads
   * it, provided the lookup finds or may create the entry and `fopen`
   * succeeds.
   */
  lemma ReadersShare(w: World, k: nat, name: string, env: Env)
    requires Consistent(w) && k < |w.conns| && w.conns[k].live && w.conns[k].session == Closed && name != ""
    requires forall j | 0 <= j < |w.conns| :: !HoldsIn(w.conns[j], name, ModeAppend)
    requires name in Names(w.table) || env.allocOk
    requires FopenSucceeds(ModeRead, w.files, name, env.openOk)
    ensures var r := Next(w, Receive(k, Input(OpenRead(name), env)));
      r.conns[k] == Conn(w.conns[k].fd, SessionState(ModeRead, name, 0), true) && r.files == w.files
  {
    assert Live(w.table) by {
      forall i | 0 <= i < |w.table| ensures Exclusive(w.table[i].lock) && w.table[i].lock.refcount >= 1 {
        assert Agrees(w.table[i], w.conns);
      }
    }
    if IndexOf(w.table, name).Some? {
      var i := IndexOf(w.table, name).value;
      assert Agrees(w.table[i], w.conns);
      if w.table[i].lock.writer != 0 {
        var j := HolderExists(w.conns, name, ModeAppend);
      }
    }
    OpenGranted(w.table, w.files, w.conns[k].fd, name, ModeRead, env);
  }

  /**
   * The server's promise on every run from its start: whatever the
   * connections do, in whatever order, an appending connection holds its
   * file alone.
   */
  lemma Exclusion(files: Files, events: seq<Event>, j: nat, k: nat)
    requires var w := Replay(Start(files), events);
      && j < |w.conns| && k < |w.conns| && j != k
      && w.conns[j].session.mode == ModeAppend && w.conns[k].session.mode != ModeNone
    ensures var w := Replay(Start(files), events);
      w.conns[j].session.filename != w.conns[k].session.filename
  {
    StartConsistent(files);
    ReplayConsistent(Start(files), events);
    AppendIsExclusive(Replay(Start(files), events), j, k);
  }
}
