/**
 * `client_worker_thread` of server.c as an object: `struct Session` is a
 * class whose fields each command branch updates in place, against the
 * lock registry of locks.dfy and a file system.  Every method is proved to
 * do what the matching step function of Protocol says.
 */
module Sessions {
  import opened LockSpec
  import opened Locks
  import opened Protocol

  /** The files `fopen`, `fread` and `fwrite` work on. */
  class Disk {
    var files: Files

    constructor (files: Files)
      ensures this.files == files
    {
      this.files := files;
    }
  }

  /**
   * `struct Session` of the connection on socket `fd`.  The open stream is
   * its offset `pos`; the stream exists exactly when a mode is set.
   */
  class Session {
    const fd: int
    var mode: OpenMode
    var filename: string
    var pos: nat
    var lock: FileLock?

    function State(): SessionState
      reads this
    {
      SessionState(mode, filename, pos)
    }

    /** A file is open exactly when the session holds the registry's lock for it. */
    ghost predicate Valid(reg: LockTable)
      reads this, reg
    {
      && WellFormed(State())
      && (mode == ModeNone <==> lock == null)
      && (lock != null ==> lock in reg.nodes && lock.name == filename)
    }

    /** The initialisation at the top of `client_worker_thread`. */
    constructor (fd: int)
      ensures this.fd == fd && State() == Closed && lock == null
    {
      this.fd := fd;
      mode, filename, pos, lock := ModeNone, "", 0, null;
    }

    /**
     * The release sequence shared by `close` and `close_session_and_socket`:
     * `close_for`, then `release_lock`, then the session is reset.
     */
    method ReleaseHeld(reg: LockTable)
      requires reg.Valid() && Valid(reg)
      modifies this, reg, lock
      ensures reg.Valid() && Valid(reg) && reg.Repr == old(reg.Repr)
      ensures State() == Closed
      ensures reg.Table() == ReleaseSession(old(State()), old(reg.Table()))
    {
      if mode != ModeNone {
        reg.Relinquish(lock, mode);
        mode, filename, pos, lock := ModeNone, "", 0, null;
      }
    }

    /** `send_error_line`; if the send fails, `close_session_and_socket`. */
    method SendError(message: string, env: Env, reg: LockTable) returns (reply: Reply, done: bool)
      requires reg.Valid() && Valid(reg)
      modifies this, reg, lock
      ensures reg.Valid() && Valid(reg) && reg.Repr == old(reg.Repr)
      ensures var o := Protocol.SendError(old(State()), old(reg.Table()), map[], message, env);
        State() == o.session && reg.Table() == o.table && reply == o.reply && done == o.done
    {
      reply := Error(message);
      done := !env.sendOk;
      if done {
        ReleaseHeld(reg);
      }
    }

    /** The `openRead` (`want` ModeRead) and `openAppend` (`want` ModeAppend) branches. */
    method Open(name: string, want: OpenMode, env: Env, reg: LockTable, disk: Disk) returns (reply: Reply, done: bool)
      requires want != ModeNone && reg.Valid() && Valid(reg)
      modifies this, reg, reg.Repr, disk
      ensures reg.Valid() && Valid(reg) && old(reg.Repr) <= reg.Repr && fresh(reg.Repr - old(reg.Repr))
      ensures var o := OpenStep(old(State()), old(reg.Table()), old(disk.files), fd, name, want, env);
        && State() == o.session && reg.Table() == o.table && disk.files == o.files
        && reply == o.reply && done == o.done
    {
      if name == "" {
        return Silent, false;
      }
      if mode != ModeNone {
        reply, done := SendError(AlreadyOpenMessage(mode, want), env, reg);
        return;
      }
      reply, done := Claim(name, want, env, reg, disk);
    }

    /**
     * The open branches past their checks: look the lock up, try it in mode
     * `want`, open the file, and record all three in the session.
     */
    method Claim(name: string, want: OpenMode, env: Env, reg: LockTable, disk: Disk) returns (reply: Reply, done: bool)
      requires want != ModeNone && name != "" && reg.Valid() && Valid(reg) && mode == ModeNone
      modifies this, reg, reg.Repr, disk
      ensures reg.Valid() && Valid(reg) && old(reg.Repr) <= reg.Repr && fresh(reg.Repr - old(reg.Repr))
      ensures var o := ClaimStep(old(reg.Table()), old(disk.files), fd, name, want, env);
        && State() == o.session && reg.Table() == o.table && disk.files == o.files
        && reply == o.reply && done == o.done
    {
      ghost var t, f := reg.Table(), disk.files;
      var lk := reg.FindOrCreateLock(name, env.allocOk);
      if lk == null {
        return Silent, false;
      }
      ghost var a := Acquire(t, name, env.allocOk);
      ghost var i := a.index.value;
      AcquireFinds(t, name, env.allocOk);
      var ok := reg.TryOpen(lk, want, fd);
      ghost var attempt := TryOpen(want, a.table[i].lock, fd);
      if !ok {
        reply, done := Refuse(lk, env, reg);
        return;
      }
      assert reg.Table() == a.table[i := Entry(name, attempt.after)];
      Attach(lk, want, env, reg, disk);
      return Silent, false;
    }

    /**
     * A denied open: the reference just taken is released and the refusal
     * sent; a failed send ends the connection, with nothing else held.
     */
    method Refuse(lk: FileLock, env: Env, reg: LockTable) returns (reply: Reply, done: bool)
      requires reg.Valid() && Valid(reg) && mode == ModeNone && lk in reg.nodes
      modifies this, reg, lk
      ensures reg.Valid() && Valid(reg) && reg.Repr == old(reg.Repr) && State() == old(State())
      ensures reg.Table() == Release(old(reg.Table()), lk.name)
      ensures reply == Error(OpenByAnother) && done == !env.sendOk
    {
      reg.ReleaseLock(lk);
      reply, done := SendError(OpenByAnother, env, reg);
    }

    /**
     * The `fopen` of the open branches once the lock is granted: on success
     * the session records the stream, the mode, the name and the lock; on
     * failure the lock is given back.
     */
    method Attach(lk: FileLock, want: OpenMode, env: Env, reg: LockTable, disk: Disk)
      requires want != ModeNone && reg.Valid() && Valid(reg) && mode == ModeNone && lk in reg.nodes
      modifies this, reg, lk, disk
      ensures reg.Valid() && Valid(reg) && reg.Repr == old(reg.Repr)
      ensures if FopenSucceeds(want, old(disk.files), lk.name, env.openOk) then
          && State() == SessionState(want, lk.name, 0) && reg.Table() == old(reg.Table())
          && disk.files == Opened(want, old(disk.files), lk.name)
        else
          && State() == old(State()) && reg.Table() == Relinquish(old(reg.Table()), lk.name, want)
          && disk.files == old(disk.files)
    {
      if !FopenSucceeds(want, disk.files, lk.name, env.openOk) {
        reg.Relinquish(lk, want);
        return;
      }
      if want == ModeAppend {
        disk.files := disk.files[lk.name := Contents(disk.files, lk.name)];
      }
      mode, filename, pos, lock := want, lk.name, 0, lk;
    }

    /** The `read` branch: `fread` of the clamped count, then `DATA` and the bytes. */
    method Read(count: Option<int>, env: Env, reg: LockTable, disk: Disk) returns (reply: Reply, done: bool)
      requires reg.Valid() && Valid(reg)
      modifies this, reg, reg.Repr
      ensures reg.Valid() && Valid(reg) && reg.Repr == old(reg.Repr)
      ensures var o := ReadStep(old(State()), old(reg.Table()), disk.files, count, env);
        State() == o.session && reg.Table() == o.table && reply == o.reply && done == o.done
    {
      if count.None? {
        return Silent, false;
      }
      var want := ClampCount(count.value);
      if mode != ModeRead {
        reply, done := SendError(NotOpen, env, reg);
        return;
      }
      var data := Chunk(Contents(disk.files, filename), pos, want);
      pos := pos + |data|;
      reply, done := Data(data), !env.sendOk;
      if done {
        ReleaseHeld(reg);
      }
    }

    /** The `append` branch: `fwrite` of the payload, which may come up short. */
    method Append(rest: seq<byte>, env: Env, reg: LockTable, disk: Disk) returns (reply: Reply, done: bool)
      requires reg.Valid() && Valid(reg)
      modifies this, reg, reg.Repr, disk
      ensures reg.Valid() && Valid(reg) && reg.Repr == old(reg.Repr)
      ensures var o := AppendStep(old(State()), old(reg.Table()), old(disk.files), rest, env);
        && State() == o.session && reg.Table() == o.table && disk.files == o.files
        && reply == o.reply && done == o.done
    {
      if mode != ModeAppend {
        reply, done := SendError(NotOpen, env, reg);
        return;
      }
      var payload := Payload(rest);
      if |payload| > 0 {
        var written := if env.diskRoom < |payload| then env.diskRoom else |payload|;
        disk.files := disk.files[filename := Contents(disk.files, filename) + payload[..written]];
        if written != |payload| {
          reply, done := SendError(WriteFailed, env, reg);
          return;
        }
      }
      return Silent, false;
    }

    /** The `close` branch. */
    method Close(env: Env, reg: LockTable) returns (reply: Reply, done: bool)
      requires reg.Valid() && Valid(reg)
      modifies this, reg, reg.Repr
      ensures reg.Valid() && Valid(reg) && reg.Repr == old(reg.Repr)
      ensures var o := CloseStep(old(State()), old(reg.Table()), map[], env);
        State() == o.session && reg.Table() == o.table && reply == o.reply && done == o.done
    {
      if mode == ModeNone {
        reply, done := SendError(NotOpen, env, reg);
        return;
      }
      ReleaseHeld(reg);
      return Silent, false;
    }

    /** One pass of the command loop: dispatch on the command token. */
    method Handle(cmd: Command, env: Env, reg: LockTable, disk: Disk) returns (reply: Reply, done: bool)
      requires reg.Valid() && Valid(reg)
      modifies this, reg, reg.Repr, disk
      ensures reg.Valid() && Valid(reg) && old(reg.Repr) <= reg.Repr && fresh(reg.Repr - old(reg.Repr))
      ensures var o := Step(old(State()), old(reg.Table()), old(disk.files), fd, cmd, env);
        && State() == o.session && reg.Table() == o.table && disk.files == o.files
        && reply == o.reply && done == o.done
    {
      match cmd
      case Quit =>
        ReleaseHeld(reg);
        reply, done := Silent, true;
      case OpenRead(name) =>
        reply, done := Open(name, ModeRead, env, reg, disk);
      case OpenAppend(name) =>
        reply, done := Open(name, ModeAppend, env, reg, disk);
      case Read(count) =>
        reply, done := Read(count, env, reg, disk);
      case Append(rest) =>
        reply, done := Append(rest, env, reg, disk);
      case Close =>
        reply, done := Close(env, reg);
      case Other =>
        reply, done := Silent, false;
    }

    /**
     * `client_worker_thread`: handles the received lines in order until a
     * command ends the connection, or releases the session when the peer
     * disconnects (the lines run out).  Returns the last reply.
     */
    method Serve(inputs: seq<Input>, reg: LockTable, disk: Disk) returns (reply: Reply)
      requires reg.Valid() && Valid(reg)
      modifies this, reg, reg.Repr, disk
      ensures reg.Valid() && Valid(reg)
      ensures var o := Run(old(State()), old(reg.Table()), old(disk.files), fd, inputs);
        State() == o.session && reg.Table() == o.table && disk.files == o.files && reply == o.reply
    {
      var i := 0;
      while i < |inputs|
        invariant 0 <= i <= |inputs|
        invariant reg.Valid() && Valid(reg)
        invariant old(reg.Repr) <= reg.Repr && fresh(reg.Repr - old(reg.Repr))
        invariant Run(State(), reg.Table(), disk.files, fd, inputs[i..])
               == Run(old(State()), old(reg.Table()), old(disk.files), fd, inputs)
      {
        var done;
        reply, done := Handle(inputs[i].cmd, inputs[i].env, reg, disk);
        if done {
          return;
        }
        i := i + 1;
      }
      ReleaseHeld(reg);
      reply := Silent;
    }
  }
}
