/**
 * Value-level specification of one connection of server.c: the commands
 * of the line protocol, the replies, and what each command does to the
 * session (`struct Session`), the lock registry and the files.  The class
 * in sessions.dfy is proved to follow these functions; server.dfy runs
 * many sessions against one registry.
 */
module Protocol {
  import opened LockSpec

  newtype byte = b: int | 0 <= b < 256

  /** `MAX_TRANSFER_BYTES`: the most bytes one `read` or `append` moves. */
  const MaxTransferBytes: nat := 200

  const CR: byte := 13
  const LF: byte := 10

  const AlreadyOpenForReading := "A file is already open for reading"
  const AlreadyOpenForAppending := "A file is already open for appending"
  const AlreadyOpen := "A file is already open"
  const OpenByAnother := "The file is open by another client."
  const NotOpen := "File not open"
  const WriteFailed := "Write failed"

  /**
   * One command line, already split into its command token and arguments.
   * A file name is "" when the line has none, a count is None when the
   * line has no count token, and `rest` is what follows the `append` token.
   */
  datatype Command =
    | Quit
    | OpenRead(name: string)
    | OpenAppend(name: string)
    | Read(count: Option<int>)
    | Append(rest: seq<byte>)
    | Close
    | Other

  /**
   * What the environment decides while one command runs: whether
   * `malloc`/`sem_init` succeed, whether `fopen` succeeds, how many bytes
   * `fwrite` manages to store, and whether writes to the socket succeed.
   */
  datatype Env = Env(allocOk: bool, openOk: bool, diskRoom: nat, sendOk: bool)

  /** What the server sends back: nothing, an `ERR` line, or `DATA` and its bytes. */
  datatype Reply = Silent | Error(message: string) | Data(bytes: seq<byte>)

  /**
   * `struct Session` as a value: the open mode, the file name, and the
   * offset of the open stream (used while reading).  The session's lock is
   * the registry entry of that name, and it has a stream and a lock exactly
   * when the mode is not ModeNone.
   */
  datatype SessionState = SessionState(mode: OpenMode, filename: string, pos: nat)

  const Closed := SessionState(ModeNone, "", 0)

  /** The file system: file name to contents. */
  type Files = map<string, seq<byte>>

  /** Everything one command changes, what it sends, and whether the connection ends. */
  datatype Outcome = Outcome(session: SessionState, table: Table, files: Files, reply: Reply, done: bool)

  /** One received line and what the environment decides while it runs. */
  datatype Input = Input(cmd: Command, env: Env)

  function Contents(f: Files, name: string): seq<byte> {
    if name in f then f[name] else []
  }

  /** The clamp of the `read` count: negative counts become 0, large ones the transfer cap. */
  function ClampCount(want: int): (n: nat)
    ensures n <= MaxTransferBytes
    ensures 0 <= want <= MaxTransferBytes ==> n == want
    ensures want < 0 ==> n == 0
    ensures want > MaxTransferBytes ==> n == MaxTransferBytes
  {
    if want < 0 then 0 else if want > MaxTransferBytes then MaxTransferBytes else want
  }

  /** `strcspn(payload, "\r\n")`: the length of the longest prefix free of CR and LF. */
  function LineLength(s: seq<byte>): (k: nat)
    ensures k <= |s|
    ensures forall j | 0 <= j < k :: s[j] != CR && s[j] != LF
    ensures k < |s| ==> s[k] == CR || s[k] == LF
  {
    if s == [] || s[0] == CR || s[0] == LF then 0 else 1 + LineLength(s[1..])
  }

  /** The bytes `append` writes: the line up to its first CR or LF, cut at the transfer cap. */
  function Payload(rest: seq<byte>): (p: seq<byte>)
    ensures |p| <= MaxTransferBytes && p <= rest
    ensures CR !in p && LF !in p
    ensures |p| == if LineLength(rest) < MaxTransferBytes then LineLength(rest) else MaxTransferBytes
  {
    rest[..if LineLength(rest) < MaxTransferBytes then LineLength(rest) else MaxTransferBytes]
  }

  /**
   * What `fread` returns from `content` at offset `pos` for `want` bytes:
   * as many as are there, up to `want`.
   */
  function Chunk(content: seq<byte>, pos: nat, want: nat): (r: seq<byte>)
    ensures |r| <= want
    ensures pos <= |content| ==> pos + |r| <= |content| && r == content[pos..pos + |r|]
    ensures |r| < want ==> pos + |r| >= |content|
  {
    if pos >= |content| then []
    else if pos + want <= |content| then content[pos..pos + want]
    else content[pos..]
  }

  /** `remove_trailing_newline`: drops one final LF, if there is one. */
  function RemoveTrailingNewline(s: seq<byte>): (r: seq<byte>)
    ensures |s| > 0 && s[|s| - 1] == LF ==> r + [LF] == s
    ensures !(|s| > 0 && s[|s| - 1] == LF) ==> r == s
  {
    if |s| > 0 && s[|s| - 1] == LF then s[..|s| - 1] else s
  }

  /**
   * The release sequence of `close` and `close_session_and_socket`: give
   * back the session's slot on its lock (`close_for`), then its registry
   * reference (`release_lock`).  A closed session holds nothing.
   */
  function ReleaseSession(s: SessionState, t: Table): (r: Table)
    ensures s.mode == ModeNone ==> r == t
    ensures |t| - 1 <= |r| <= |t|
  {
    if s.mode == ModeNone then t else Relinquish(t, s.filename, s.mode)
  }

  /** `close_session_and_socket` as a step: release, reset the session, end the connection. */
  function Hangup(s: SessionState, t: Table, f: Files, reply: Reply): (o: Outcome)
    ensures o.done && o.session == Closed && o.files == f && o.reply == reply
    ensures |t| - 1 <= |o.table| <= |t|
  {
    Outcome(Closed, ReleaseSession(s, t), f, reply, true)
  }

  /** `send_error_line`; a failed send ends the connection through `close_session_and_socket`. */
  function SendError(s: SessionState, t: Table, f: Files, message: string, env: Env): (o: Outcome)
    ensures o.reply == Error(message) && o.files == f
    ensures o.done <==> !env.sendOk
    ensures env.sendOk ==> o.session == s && o.table == t
    ensures o.done ==> o.session == Closed
  {
    if env.sendOk then Outcome(s, t, f, Error(message), false) else Hangup(s, t, f, Error(message))
  }

  /** The refusal of an open while the session holds a file in mode `held`. */
  function AlreadyOpenMessage(held: OpenMode, wanted: OpenMode): string {
    if held != wanted then AlreadyOpen
    else if held == ModeRead then AlreadyOpenForReading
    else AlreadyOpenForAppending
  }

  /** Whether `fopen` succeeds: "rb" needs an existing file, "ab+" creates one. */
  predicate FopenSucceeds(mode: OpenMode, f: Files, name: string, openOk: bool) {
    openOk && (mode == ModeAppend || name in f)
  }

  /** The files after a successful `fopen`: "ab+" creates an absent file empty. */
  function Opened(mode: OpenMode, f: Files, name: string): Files {
    if mode == ModeAppend then f[name := Contents(f, name)] else f
  }

  /**
   * `openRead <name>` (mode ModeRead) and `openAppend <name>` (mode
   * ModeAppend), which server.c writes out as two copies of one branch.
   */
  function OpenStep(s: SessionState, t: Table, f: Files, fd: int, name: string, mode: OpenMode, env: Env): (o: Outcome)
    requires mode != ModeNone
    ensures !o.reply.Data?
    ensures o.done ==> !env.sendOk && o.session == Closed
    ensures o.session == s || o.session == Closed || (s.mode == ModeNone && o.session == SessionState(mode, name, 0))
    ensures name == "" ==> o == Outcome(s, t, f, Silent, false)
  {
    if name == "" then Outcome(s, t, f, Silent, false)
    else if s.mode != ModeNone then SendError(s, t, f, AlreadyOpenMessage(s.mode, mode), env)
    else ClaimStep(t, f, fd, name, mode, env)
  }

  /**
   * An open past its checks, from a closed session: `find_or_create_lock`,
   * the try-lock, then `fopen`; each failure gives back what was taken.
   */
  function ClaimStep(t: Table, f: Files, fd: int, name: string, mode: OpenMode, env: Env): (o: Outcome)
    requires mode != ModeNone
    ensures o.session == Closed || o.session == SessionState(mode, name, 0)
    ensures o.session.mode != ModeNone ==> FopenSucceeds(mode, f, name, env.openOk)
    ensures o.session.mode == ModeNone ==> o.files == f
    ensures !o.reply.Data?
    ensures o.done ==> !env.sendOk
  {
    var a := Acquire(t, name, env.allocOk);
    if a.index.None? then Outcome(Closed, t, f, Silent, false)
    else
      var i := a.index.value;
      match TryOpen(mode, a.table[i].lock, fd)
      case Denied => SendError(Closed, Release(a.table, name), f, OpenByAnother, env)
      case Granted(l) =>
        if FopenSucceeds(mode, f, name, env.openOk) then
          Outcome(SessionState(mode, name, 0), a.table[i := Entry(name, l)], Opened(mode, f, name), Silent, false)
        else
          Outcome(Closed, Relinquish(a.table[i := Entry(name, l)], name, mode), f, Silent, false)
  }

  /** `read <count>`: a line without a count is ignored; the count is clamped before anything else. */
  function ReadStep(s: SessionState, t: Table, f: Files, count: Option<int>, env: Env): (o: Outcome)
    ensures o.files == f
    ensures o.reply.Data? ==> |o.reply.bytes| <= MaxTransferBytes
    ensures !o.done ==> o.table == t && o.session.mode == s.mode && o.session.filename == s.filename
    ensures o.done ==> !env.sendOk && o.session == Closed
    ensures count.None? ==> o == Outcome(s, t, f, Silent, false)
  {
    match count
    case None => Outcome(s, t, f, Silent, false)
    case Some(n) =>
      var want := ClampCount(n);
      if s.mode != ModeRead then SendError(s, t, f, NotOpen, env)
      else
        var data := Chunk(Contents(f, s.filename), s.pos, want);
        var s' := s.(pos := s.pos + |data|);
        if env.sendOk then Outcome(s', t, f, Data(data), false) else Hangup(s', t, f, Data(data))
  }

  /** `append <payload>`: a short `fwrite` stores only part of the payload and reports an error. */
  function AppendStep(s: SessionState, t: Table, f: Files, rest: seq<byte>, env: Env): (o: Outcome)
    ensures !o.reply.Data?
    ensures !o.done ==> o.session == s && o.table == t
    ensures o.done ==> !env.sendOk && o.session == Closed
    ensures forall x | x in f && x != s.filename :: x in o.files && o.files[x] == f[x]
  {
    if s.mode != ModeAppend then SendError(s, t, f, NotOpen, env)
    else
      var p := Payload(rest);
      if |p| == 0 then Outcome(s, t, f, Silent, false)
      else
        var w := if env.diskRoom < |p| then env.diskRoom else |p|;
        var f' := f[s.filename := Contents(f, s.filename) + p[..w]];
        if w == |p| then Outcome(s, t, f', Silent, false) else SendError(s, t, f', WriteFailed, env)
  }

  /** `close`. */
  function CloseStep(s: SessionState, t: Table, f: Files, env: Env): (o: Outcome)
    ensures o.files == f && !o.reply.Data?
    ensures s.mode != ModeNone ==> o.session == Closed && !o.done && o.reply == Silent
    ensures o.done ==> !env.sendOk && o.session == Closed
  {
    if s.mode == ModeNone then SendError(s, t, f, NotOpen, env)
    else Outcome(Closed, ReleaseSession(s, t), f, Silent, false)
  }

  /** One pass of the command loop of `client_worker_thread` for connection `fd`. */
  function Step(s: SessionState, t: Table, f: Files, fd: int, cmd: Command, env: Env): (o: Outcome)
    ensures o.done ==> o.session == Closed
    ensures cmd.Quit? ==> o.done
    ensures o.done && !cmd.Quit? ==> !env.sendOk
    ensures o.reply.Data? ==> cmd.Read? && |o.reply.bytes| <= MaxTransferBytes
    ensures cmd.Other? || cmd == OpenRead("") || cmd == OpenAppend("") || cmd == Read(None) ==>
      o == Outcome(s, t, f, Silent, false)
  {
    match cmd
    case Quit => Hangup(s, t, f, Silent)
    case OpenRead(name) => OpenStep(s, t, f, fd, name, ModeRead, env)
    case OpenAppend(name) => OpenStep(s, t, f, fd, name, ModeAppend, env)
    case Read(count) => ReadStep(s, t, f, count, env)
    case Append(rest) => AppendStep(s, t, f, rest, env)
    case Close => CloseStep(s, t, f, env)
    case Other => Outcome(s, t, f, Silent, false)
  }

  /**
   * The whole command loop: commands run in order until one ends the
   * connection; when the input runs out the peer has disconnected and the
   * session is released.
   */
  function Run(s: SessionState, t: Table, f: Files, fd: int, inputs: seq<Input>): (o: Outcome)
    ensures o.done && o.session == Closed
    decreases |inputs|
  {
    if inputs == [] then Hangup(s, t, f, Silent)
    else
      var o := Step(s, t, f, fd, inputs[0].cmd, inputs[0].env);
      if o.done then o else Run(o.session, o.table, o.files, fd, inputs[1..])
  }

  // ---------------------------------------------------------------------
  // What the commands promise.

  /** A closed session is the reset `struct Session`. */
  predicate WellFormed(s: SessionState) {
    s.mode == ModeNone ==> s == Closed
  }

  /**
   * A granted open and the release of what it took cancel out: `close_for`
   * gives the slot back and `release_lock` the reference, whether the
   * session closes later or `fopen` fails straight away.
   */
  lemma OpenThenRelease(t: Table, fd: int, name: string, mode: OpenMode, allocOk: bool)
    requires UniqueNames(t) && Live(t) && mode != ModeNone
    ensures var a := Acquire(t, name, allocOk);
      a.index.Some? && TryOpen(mode, a.table[a.index.value].lock, fd).Granted? ==>
        var i := a.index.value;
        Relinquish(a.table[i := Entry(name, TryOpen(mode, a.table[i].lock, fd).after)], name, mode) == t
  {
    var a := Acquire(t, name, allocOk);
    if a.index.Some? && TryOpen(mode, a.table[a.index.value].lock, fd).Granted? {
      var i := a.index.value;
      var l0 := a.table[i].lock;
      var l := TryOpen(mode, l0, fd).after;
      AcquireFinds(t, name, allocOk);
      AcquireLive(t, name, allocOk);
      CloseForUndoesAcquire(l0, fd);
      assert CloseFor(mode, l) == l0;
      HandBack(a.table, i, mode, l);
      AcquireThenRelease(t, name, allocOk);
    }
  }

  /** Giving back a slot that is the only change at entry `i` is the release of that entry. */
  lemma HandBack(a: Table, i: nat, mode: OpenMode, l: LockState)
    requires UniqueNames(a) && i < |a| && CloseFor(mode, l) == a[i].lock
    ensures Relinquish(a[i := Entry(a[i].name, l)], a[i].name, mode) == Release(a, a[i].name)
  {
    var t2 := a[i := Entry(a[i].name, l)];
    UpdateAt(a, i, l);
    IndexOfUnique(t2, i);
    assert t2[i := Entry(a[i].name, CloseFor(mode, t2[i].lock))] == a;
  }

  /** The command left the registry and the session's hold on its file as they were. */
  predicate Keeps(s: SessionState, t: Table, o: Outcome) {
    o.table == t && o.session.mode == s.mode && o.session.filename == s.filename
  }

  /** The registry `t'` is `t` after a granted, successful open of `s'.filename` in `s'.mode`. */
  predicate GrantedOpen(t: Table, fd: int, allocOk: bool, s': SessionState, t': Table)
    requires s'.mode != ModeNone
  {
    var a := Acquire(t, s'.filename, allocOk);
    && a.index.Some?
    && TryOpen(s'.mode, a.table[a.index.value].lock, fd).Granted?
    && t' == a.table[a.index.value := Entry(s'.filename, TryOpen(s'.mode, a.table[a.index.value].lock, fd).after)]
    && s'.pos == 0
  }

  /**
   * Every command does one of three things to what a session holds: nothing
   * (refusals, failed opens, reads, appends), a successful open from the
   * closed state, or the release of everything the session held, after
   * which it is closed.  A command that ends the connection always leaves
   * the session closed.
   */
  lemma StepCases(s: SessionState, t: Table, f: Files, fd: int, cmd: Command, env: Env)
    requires WellFormed(s) && (s == Closed ==> UniqueNames(t) && Live(t))
    ensures var o := Step(s, t, f, fd, cmd, env);
      && WellFormed(o.session)
      && (o.done ==> o.session == Closed)
      && (|| Keeps(s, t, o)
          || (s == Closed && o.session.mode != ModeNone && GrantedOpen(t, fd, env.allocOk, o.session, o.table))
          || (s != Closed && o.session == Closed && o.table == ReleaseSession(s, t)))
  {
    match cmd
    case OpenRead(name) => OpenCases(s, t, f, fd, name, ModeRead, env);
    case OpenAppend(name) => OpenCases(s, t, f, fd, name, ModeAppend, env);
    case _ =>
  }

  lemma OpenCases(s: SessionState, t: Table, f: Files, fd: int, name: string, mode: OpenMode, env: Env)
    requires WellFormed(s) && (s == Closed ==> UniqueNames(t) && Live(t)) && mode != ModeNone
    ensures var o := OpenStep(s, t, f, fd, name, mode, env);
      && WellFormed(o.session)
      && (o.done ==> o.session == Closed)
      && (|| Keeps(s, t, o)
          || (s == Closed && o.session.mode != ModeNone && GrantedOpen(t, fd, env.allocOk, o.session, o.table))
          || (s != Closed && o.session == Closed && o.table == ReleaseSession(s, t)))
  {
    if name != "" && s.mode == ModeNone {
      AcquireThenRelease(t, name, env.allocOk);
      OpenThenRelease(t, fd, name, mode, env.allocOk);
    }
  }

  /**
   * An open from a closed session that does not end with the file open,
   * whether the lookup fails, the lock is refused or `fopen` fails, leaves
   * the registry, the session and the files as they were.
   */
  lemma FailedOpenChangesNothing(t: Table, f: Files, fd: int, name: string, mode: OpenMode, env: Env)
    requires UniqueNames(t) && Live(t) && mode != ModeNone
    ensures var o := OpenStep(Closed, t, f, fd, name, mode, env);
      o.session.mode == ModeNone ==> o.session == Closed && o.table == t && o.files == f
  {
    OpenCases(Closed, t, f, fd, name, mode, env);
  }

  /**
   * The success direction of an open from a closed session: when the
   * lookup finds the name or may allocate its lock, the lock admits the
   * mode (no appender for a read, nobody at all for an append) and `fopen`
   * succeeds, the session opens the name at offset 0, holding exactly the
   * granted slot, and the connection goes on without a reply.
   */
  lemma OpenGranted(t: Table, f: Files, fd: int, name: string, mode: OpenMode, env: Env)
    requires UniqueNames(t) && Live(t) && mode != ModeNone && name != ""
    requires name in Names(t) || env.allocOk
    requires IndexOf(t, name).Some? ==>
      var l := t[IndexOf(t, name).value].lock;
      if mode == ModeRead then l.writer == 0 else Idle(l)
    requires FopenSucceeds(mode, f, name, env.openOk)
    ensures var o := OpenStep(Closed, t, f, fd, name, mode, env);
      && o.session == SessionState(mode, name, 0)
      && GrantedOpen(t, fd, env.allocOk, o.session, o.table)
      && o.files == Opened(mode, f, name) && o.reply == Silent && !o.done
  {
    IndexOfNames(t, name);
  }

  /**
   * The refusal direction: when the name has an entry whose lock does not
   * admit the mode, the open reports "The file is open by another client."
   * and gives the reference back, so nothing changes; the connection ends
   * only if that reply cannot be sent.
   */
  lemma OpenRefused(t: Table, f: Files, fd: int, name: string, mode: OpenMode, env: Env)
    requires UniqueNames(t) && Live(t) && mode != ModeNone && name != ""
    requires IndexOf(t, name).Some?
    requires var l := t[IndexOf(t, name).value].lock;
      !(if mode == ModeRead then l.writer == 0 else Idle(l))
    ensures var o := OpenStep(Closed, t, f, fd, name, mode, env);
      && o.reply == Error(OpenByAnother) && o.session == Closed && o.table == t && o.files == f
      && (o.done <==> !env.sendOk)
  {
    IndexOfNames(t, name);
    AcquirePresent(t, name, env.allocOk);
    AcquireThenRelease(t, name, env.allocOk);
  }

  /**
   * `close` without an open file reports "File not open" and changes
   * nothing; with one, it gives back exactly the slot and the reference the
   * session holds and resets the session, and the connection goes on.
   */
  lemma CloseReleases(s: SessionState, t: Table, f: Files, fd: int, env: Env)
    requires WellFormed(s)
    ensures var o := Step(s, t, f, fd, Close, env);
      && (s.mode == ModeNone ==> o.reply == Error(NotOpen) && o.session == s && o.table == t)
      && (s.mode != ModeNone ==> o == Outcome(Closed, Relinquish(t, s.filename, s.mode), f, Silent, false))
  {
  }

  /**
   * One connection served on its own from a closed session: whatever it
   * sends, when it ends (`quit`, a failed send, or the peer hanging up) its
   * session is closed and the registry is exactly as it found it, so a
   * connection leaks no lock reference and no registry entry.
   */
  lemma RunReleasesAll(t: Table, f: Files, fd: int, inputs: seq<Input>)
    requires UniqueNames(t) && Live(t)
    ensures var o := Run(Closed, t, f, fd, inputs); o.done && o.session == Closed && o.table == t
  {
    RunFrom(Closed, t, t, f, fd, inputs);
  }

  /** The induction behind RunReleasesAll: `s` holds what separates `t` from `t0`. */
  lemma {:induction false} RunFrom(s: SessionState, t: Table, t0: Table, f: Files, fd: int, inputs: seq<Input>)
    requires UniqueNames(t0) && Live(t0) && WellFormed(s)
    requires if s == Closed then t == t0 else ReleaseSession(s, t) == t0
    ensures var o := Run(s, t, f, fd, inputs); o.done && o.session == Closed && o.table == t0
    decreases |inputs|
  {
    if inputs != [] {
      var cmd, env := inputs[0].cmd, inputs[0].env;
      var o := Step(s, t, f, fd, cmd, env);
      StepCases(s, t, f, fd, cmd, env);
      if s == Closed && o.session.mode != ModeNone {
        OpenThenRelease(t, fd, o.session.filename, o.session.mode, env.allocOk);
      }
      if !o.done {
        RunFrom(o.session, o.table, t0, o.files, fd, inputs[1..]);
      }
    }
  }

  /**
   * `read n` on a file open for reading sends the next bytes of the file
   * from the stream's offset, never more than the clamped count, fewer only
   * at the end of the file, and moves the offset past them.
   */
  lemma ReadSendsNextBytes(s: SessionState, t: Table, f: Files, fd: int, n: int, env: Env)
    requires s.mode == ModeRead && s.pos <= |Contents(f, s.filename)|
    ensures var o := Step(s, t, f, fd, Read(Some(n)), env);
      var content := Contents(f, s.filename);
      && o.reply.Data?
      && |o.reply.bytes| <= ClampCount(n) <= MaxTransferBytes
      && o.reply.bytes == content[s.pos..s.pos + |o.reply.bytes|]
      && (|o.reply.bytes| < ClampCount(n) ==> s.pos + |o.reply.bytes| == |content|)
      && (!o.done ==> o.session == s.(pos := s.pos + |o.reply.bytes|) && o.table == t)
      && o.files == f
  {
  }

  /**
   * `append` on a file open for appending adds the line's payload, up to
   * its first CR or LF and at most the transfer cap, to the end of that
   * file and to no other; a short write adds a prefix of it and reports
   * "Write failed".
   */
  lemma AppendAddsPayload(s: SessionState, t: Table, f: Files, fd: int, rest: seq<byte>, env: Env)
    requires s.mode == ModeAppend && s.filename in f
    ensures var o := Step(s, t, f, fd, Append(rest), env);
      var p := Payload(rest);
      && o.files.Keys == f.Keys
      && (forall x | x in f && x != s.filename :: o.files[x] == f[x])
      && (env.diskRoom >= |p| ==> o.files[s.filename] == Contents(f, s.filename) + p && o.reply == Silent)
      && (env.diskRoom < |p| ==>
            && Contents(f, s.filename) <= o.files[s.filename]
            && o.files[s.filename] == Contents(f, s.filename) + p[..env.diskRoom]
            && o.reply == Error(WriteFailed))
  {
    assert f[s.filename] + Payload(rest)[..0] == f[s.filename];
  }

  /**
   * `read` without a file open for reading, and `append` without a file
   * open for appending, send "File not open" and change nothing; if that
   * send fails the connection ends and its session is released.
   */
  lemma WrongModeRefused(s: SessionState, t: Table, f: Files, fd: int, n: int, rest: seq<byte>, env: Env)
    ensures s.mode != ModeRead ==>
      Step(s, t, f, fd, Read(Some(n)), env)
        == (if env.sendOk then Outcome(s, t, f, Error(NotOpen), false)
            else Outcome(Closed, ReleaseSession(s, t), f, Error(NotOpen), true))
    ensures s.mode != ModeAppend ==>
      Step(s, t, f, fd, Append(rest), env)
        == (if env.sendOk then Outcome(s, t, f, Error(NotOpen), false)
            else Outcome(Closed, ReleaseSession(s, t), f, Error(NotOpen), true))
  {
  }

  /**
   * A session that already holds a file refuses any further open with the
   * message for the mode it holds, and changes nothing.
   */
  lemma OpenWhileOpenRefused(s: SessionState, t: Table, f: Files, fd: int, name: string, env: Env)
    requires s.mode != ModeNone && name != "" && env.sendOk
    ensures Step(s, t, f, fd, OpenRead(name), env)
      == Outcome(s, t, f, Error(if s.mode == ModeRead then AlreadyOpenForReading else AlreadyOpen), false)
    ensures Step(s, t, f, fd, OpenAppend(name), env)
      == Outcome(s, t, f, Error(if s.mode == ModeAppend then AlreadyOpenForAppending else AlreadyOpen), false)
  {
  }
}
