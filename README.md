# File-lock server: registry, try-locks and sessions

This project models the core of `server.c`. That is a small multi-threaded TCP file server in which every connection runs a line protocol:
- `openRead <name>` and `openAppend <name>`;
- `read <n>` and `append <bytes>`;
- `close` and `quit`.

Many readers or a single appender may hold a file at once. A global registry enforces this. It is a linked list of per-file locks (`struct FileLock`), each with a reader count, a writer flag, the owner socket and a reference count.

The model has five modules:

- `LockSpec` (lock_spec.dfy). Value-level functions for the per-file lock and for the registry. The registry is a sequence of `(name, lock)` entries, head first:
  - try-read, try-append and `close_for`;
  - `find_or_create_lock` (`Acquire`) and `release_lock` (`Release`).

  It also proves what each of them promises, including the exclusion invariant of one lock and the lookup/release round trip.
- `Locks` (locks.dfy). The same objects as mutable classes:
  - `FileLock` has fields that the lock operations update in place;
  - `LockTable` holds the node list that `find_or_create_lock` walks and extends at the head, and that `release_lock` walks and unlinks from.

  Every method's ensures gives the new state as a value: the lock operations and the registry's lookup and release as their `LockSpec` functions, and the list helpers (`AddReference`, `Push`, `Unlink`) as explicit sequence updates.
- `Protocol` (protocol.dfy). One connection as a value:
  - the commands, replies and `struct Session`;
  - a step function per command branch of `client_worker_thread`;
  - `Run`, the whole command loop.

  Its lemmas cover three things. First, what each command promises: clamping, the payload cut, refusals and releases. Second, every command either keeps what the session holds, opens from closed, or releases everything. Third, one connection on its own leaves the registry exactly as it found it.
- `Sessions` (sessions.dfy). `struct Session` as a class whose methods update its fields, the shared `LockTable` and a `Disk`. Each command method is proved to do what the matching `Protocol` step says. `Serve` is the thread's loop, proved equal to `Run`.
- `Server` (server.dfy). The whole server: one registry shared by any number of accepted connections, with their commands interleaved in any order. The invariant `Consistent` says:
  - each lock's `readers`, `writer` and `refcount` are exactly the connections holding its file in each mode;
  - `owner_fd` is the appending connection's socket;
  - every file held open has its entry.

  `Consistent` holds at start and after every event. From it follow exclusion (an appender holds its file name alone) and the absence of leaked entries.

The environment is a parameter (`Env`):
- whether `malloc`/`sem_init` succeed;
- whether `fopen` succeeds;
- how many bytes `fwrite` stores;
- whether socket writes succeed.

The file system is a map from name to bytes.

## Model

| member | source | states |
|---|---|---|
| LockSpec.NewLock | server.c:84-87 | a fresh lock has no reader, no writer, owner -1 and one reference, and satisfies the exclusion invariant |
| LockSpec.TryRead | server.c:131-143 | from a lock satisfying the invariant, a granted read keeps the invariant, has a reader and keeps the reference count |
| LockSpec.TryAppend | server.c:145-158 | granted exactly when the lock is idle (no reader, no writer); then writer is 1, the invariant holds and the reference count is kept |
| LockSpec.CloseFor | server.c:160-173 | keeps the exclusion invariant and the reference count, and never raises the reader count |
| LockSpec.TryOpen | server.c:131-158 | granted iff there is no writer (read) or the lock is idle (append); a grant keeps the invariant and the reference count |
| LockSpec.CloseForUndoesAcquire | server.c:131-173 | `close_for` in the same mode returns a granted try-read or try-append to the lock it started from |
| LockSpec.IndexOf | server.c:60-67 | the walk finds the first entry with the name, or reports that no entry has it |
| LockSpec.Acquire | server.c:53-101 | the handed-out index holds the name; no lock is handed out exactly when allocation fails for an absent name, and then the table is unchanged |
| LockSpec.AcquirePresent | server.c:60-66 | a name in the table gains exactly one reference on its entry; no entry is added and no other entry changes |
| LockSpec.AcquireAbsent | server.c:69-97 | an absent name gets exactly one new entry at the head with a fresh lock, names stay unique; failed allocation changes nothing |
| LockSpec.AcquireFinds | server.c:53-101 | names stay unique and a later walk finds the name where the lock was handed out |
| LockSpec.AcquireLive | server.c:53-101 | every entry still satisfies the invariant and has a reference after a lookup |
| LockSpec.ReleaseEffect | server.c:103-129 | `release_lock` takes one reference; it unlinks the entry iff that leaves none and the lock is idle, keeping the other entries in order; otherwise only the count changes; names stay unique |
| LockSpec.ReleaseAt | server.c:110-126 | `release_lock` on the entry at a position: the table loses exactly one entry iff that entry had one reference and no reader or writer, and otherwise keeps its length |
| LockSpec.Release | server.c:103-129 | `release_lock` by name: at most one entry goes; a name with no entry leaves the table unchanged |
| LockSpec.Relinquish | server.c:239-240 | `close_for` then `release_lock` on the named entry: at most one entry goes; a name with no entry leaves the table unchanged |
| LockSpec.RelinquishEffect | server.c:235-247 | `close_for` then `release_lock`: the entry is unlinked iff no reference is left and the lock is idle afterwards, otherwise only its counters change |
| LockSpec.AcquireThenRelease | server.c:303-316 | a lookup followed by its release (the refused open) leaves the table exactly as it was: no leaked reference or entry |
| LockSpec.Stored | server.c:82-83 | the name kept in a new lock is the whole name when it fits in 511 characters, and exactly its first 511 characters otherwise |
| LockSpec.AcquireAsWritten | server.c:53-101 | agrees with Acquire on names that fit; on an absent name it always adds an entry holding the cut name |
| LockSpec.LongNameTwoWriters | server.c:61-83 | for every name over 511 characters, two successive opens for appending are both granted, on two different locks |
| LockSpec.LongNameOneWriter | server.c:53-158 | with the whole name kept, the second open for appending of the same name is refused |
| Locks.FileLock.constructor | server.c:75-87 | the allocated lock carries the name and is the fresh lock |
| Locks.FileLock.TryOpenRead | server.c:131-143 | result and new counters are those of TryRead; a refusal changes nothing |
| Locks.FileLock.TryOpenAppend | server.c:145-158 | result and new counters are those of TryAppend; a refusal changes nothing |
| Locks.FileLock.CloseFor | server.c:160-173 | the new counters are those of CloseFor |
| Locks.LockTable.Table | server.c:34-41 | the list as entries in order; names are unique in a valid registry |
| Locks.LockTable.constructor | server.c:482 | the registry starts empty |
| Locks.LockTable.Lookup | server.c:60-67 | the loop stops at the node IndexOf names, or at the end when no node has the name |
| Locks.LockTable.FindOrCreateLock | server.c:53-101 | the new list is Acquire of the old one; the returned lock is the node at the handed-out index, null exactly when none is handed out |
| Locks.LockTable.AddReference | server.c:61-64 | only the found node's reference count rises, by one |
| Locks.LockTable.Push | server.c:94-97 | the new node is linked at the head and names stay unique |
| Locks.LockTable.TryOpen | server.c:131-158 | the lock's entry changes as TryOpen says and no other entry changes |
| Locks.LockTable.CloseFor | server.c:160-173 | the lock's entry changes as CloseFor says and no other entry changes |
| Locks.LockTable.ReleaseLock | server.c:103-129 | the new list is Release of the old one: one reference dropped, the node unlinked when unused and idle |
| Locks.LockTable.Relinquish | server.c:239-240 | the new list is the old one after `close_for` and `release_lock` on that lock |
| Locks.LockTable.Unlink | server.c:113-119 | the node at the slot is removed and the others keep their order |
| Protocol.ClampCount | server.c:386-390 | the count is between 0 and 200, equal to the request when that is in range, 0 below it and 200 above it |
| Protocol.LineLength | server.c:426 | the longest prefix free of CR and LF, stopping at the first CR or LF |
| Protocol.Payload | server.c:422-429 | the bytes written are a prefix of the rest of the line, free of CR and LF, of length min(line length, 200) |
| Protocol.Chunk | server.c:400-401 | `fread` returns at most the count, the bytes at the stream offset, and fewer only at end of file |
| Protocol.RemoveTrailingNewline | server.c:212-216 | one final LF is dropped, and nothing else changes |
| Protocol.ReleaseSession | server.c:236-244 | what a session gives back: nothing when no file is open; otherwise its slot and reference, removing at most one entry |
| Protocol.Hangup | server.c:235-247 | `close_session_and_socket`: the connection ends with its session closed, at most one entry removed, and the files untouched |
| Protocol.SendError | server.c:218-226 | sends the error line; the connection ends exactly when the send fails, and then the session is closed; otherwise nothing changes |
| Protocol.OpenStep | server.c:282-380 | the open branches never send data; the session is kept, closed, or newly open on the name in the wanted mode, and only from a closed session; the connection ends only on a failed send; an open without a name is ignored, with no reply and no change |
| Protocol.ClaimStep | server.c:303-380 | past the checks, the session ends closed or open on the name at offset 0; it is open only when `fopen` succeeds; otherwise the files are untouched |
| Protocol.ReadStep | server.c:381-412 | `read` never changes the files and sends at most 200 bytes; unless the connection ends, the registry and what the session holds are kept; a `read` without a count is ignored, with no reply and no change |
| Protocol.AppendStep | server.c:414-439 | `append` never sends data and changes no file but the open one; unless the connection ends, the session and registry are kept |
| Protocol.CloseStep | server.c:441-456 | `close` never changes the files; with a file open it closes the session silently and the connection goes on |
| Protocol.Step | server.c:274-458 | the dispatch: a command that ends the connection leaves the session closed, `quit` always ends it, any other ends it only on a failed send, and only `read` sends data, at most 200 bytes; a line with no command, an unknown command, an open without a name and a `read` without a count (server.c:275-276, 283-285, 332-334, 381-383, 457) are ignored, with no reply and no change |
| Protocol.Run | server.c:259-265 | the command loop always ends, by `quit`, a failed send or the peer hanging up, with the session closed |
| Protocol.WrongModeRefused | server.c:392-398 | `read` without a file open for reading, and `append` without one open for appending (server.c:415-421), send "File not open" and change nothing; if that send fails the session is released and the connection ends |
| Protocol.OpenThenRelease | server.c:303-330 | a granted open followed by `close_for` and `release_lock` (later `close`, or a failed `fopen`) leaves the table as before the lookup |
| Protocol.StepCases | server.c:259-458 | every command keeps the session's hold, opens from closed with a granted lock, or releases everything the session held; ending the connection always leaves the session closed |
| Protocol.OpenCases | server.c:282-380 | the open branches fall in the same three cases |
| Protocol.FailedOpenChangesNothing | server.c:303-323 | an open that does not end with the file open leaves the registry, session and files as they were (failed lookup, refused lock, failed `fopen`) |
| Protocol.OpenGranted | server.c:303-330 | from a closed session, when the lookup finds the name or may allocate its lock, the lock admits the mode (no writer for a read, idle for an append; also 352-379) and `fopen` succeeds, the session opens the name at offset 0 holding exactly the granted slot, the files are as `fopen` leaves them, nothing is sent and the connection goes on |
| Protocol.OpenRefused | server.c:303-316 | from a closed session, when the name's entry has a lock that does not admit the mode (also 352-365), the reply is "The file is open by another client.", the reference is given back so registry, files and session are unchanged, and the connection ends exactly when that reply cannot be sent |
| Protocol.OpenWhileOpenRefused | server.c:287-301 | an open while a file is open sends the message for the held mode and changes nothing; also server.c:336-350 |
| Protocol.CloseReleases | server.c:441-456 | `close` with no file open reports "File not open" and changes nothing; otherwise it releases exactly the held slot and reference and resets the session |
| Protocol.ReadSendsNextBytes | server.c:381-412 | `read n` in read mode sends the next bytes from the offset, at most the clamped count, fewer only at end of file, and advances the offset |
| Protocol.AppendAddsPayload | server.c:414-439 | `append` in append mode adds the payload to the end of that file only; a short write adds a prefix and reports "Write failed" |
| Protocol.RunReleasesAll | server.c:249-458 | one connection served from a closed session ends closed and leaves the registry exactly as it found it, whatever it sends |
| Protocol.RunFrom | server.c:259-265 | the induction over the command loop: what the session holds is all that separates the registry from its initial state |
| Sessions.Session.constructor | server.c:253-257 | the session starts closed with no lock |
| Sessions.Session.ReleaseHeld | server.c:235-247 | the session ends closed and the registry is ReleaseSession of the old one |
| Sessions.Session.SendError | server.c:218-226 | the reply and the new state are those of the SendError step (a failed send releases and ends) |
| Sessions.Session.Open | server.c:282-301 | the new session, registry, files and reply are those of OpenStep |
| Sessions.Session.Claim | server.c:303-330 | the new session, registry, files and reply are those of ClaimStep |
| Sessions.Session.Refuse | server.c:307-316 | the reference just taken is released and "The file is open by another client." is sent |
| Sessions.Session.Attach | server.c:318-330 | on a successful `fopen` the session records mode, name and lock; otherwise the lock is given back and nothing else changes |
| Sessions.Session.Read | server.c:381-412 | the new session, registry and reply are those of ReadStep |
| Sessions.Session.Append | server.c:414-439 | the new session, registry, files and reply are those of AppendStep |
| Sessions.Session.Close | server.c:441-456 | the new session, registry and reply are those of CloseStep |
| Sessions.Session.Handle | server.c:274-458 | the dispatch does what Step says for every command |
| Sessions.Session.Serve | server.c:249-265 | the loop ends in the state Run gives for the received lines |
| Server.StartConsistent | server.c:481-482 | the server starts consistent |
| Server.Next | server.c:509-522 | one event (accept, one command of a live connection, or its peer hanging up): only accept adds a connection, which starts closed; sockets are kept and an ended connection is never touched again |
| Server.Replay | server.c:249-265 | any sequence of events keeps every connection's socket and leaves ended connections untouched |
| Server.CountsGrant | server.c:131-158 | a granted open by a closed connection keeps the lock's counters equal to its holders and its owner socket |
| Server.CountsRelease | server.c:160-173 | a connection's release keeps the lock's counters equal to the remaining holders |
| Server.KeepPreserves | server.c:381-439 | commands that keep a connection's hold keep the invariant |
| Server.OpenPreserves | server.c:303-330 | a successful open keeps the invariant |
| Server.ReleasePreserves | server.c:235-247 | releasing a connection's file, by `close`, `quit` or a disconnect, keeps the invariant |
| Server.NextPreserves | server.c:509-522 | accepting a connection, any command of any live connection, and any disconnect keep the invariant |
| Server.ReplayConsistent | server.c:249-458 | every interleaving of events keeps the invariant |
| Server.AppendIsExclusive | server.c:145-158 | in a consistent server, a connection appending to a file is the only connection holding it |
| Server.EntriesAreHeld | server.c:103-129 | every registry entry is held open by some connection: no entry outlives its holders |
| Server.Exclusion | server.c:131-158 | on every run from the start, an appending connection holds its file name alone |
| Server.ReadersShare | server.c:131-142 | a live connection with no file open that asks to read a name no connection is appending to is granted the read, however many others read it, when the lookup can find or create the entry and `fopen` succeeds (303-330) |

## Left out

- A file is identified by its exact name string. Two names for one file (`f.txt` and `./f.txt`, or a link) are two files in the model, and the registry in server.c likewise gives them two locks; exclusion is proved per name, not per file on disk.
- client.c is not part of this model: it is terminal and socket I/O with no shared state.
- Socket I/O is out of scope:
  - `socket_read_line`, `socket_write_all`, the `DATA` header and the `ERR` text are not modelled;
  - what the model keeps is the reply and whether sending it succeeded (`Env.sendOk`);
  - the echo to stdout is also left out.
- Lines arrive already split into commands:
  - `strtok` tokenising is not modelled;
  - `strtol` is not modelled, so a `read` count is any integer;
  - the 4096-byte line limit is not modelled.
- C strings cannot hold NUL; the model's names and payloads can.
- The setup in `main` is out of scope: `getaddrinfo`, `bind`, `listen` and `pthread_create`. What is kept from `main` is its accept loop: `Server.Next` on an `Accept` event adds a connection whose session starts `Closed`.
- The echo of each received line to stdout (server.c:267-272) is left out. `Protocol.RemoveTrailingNewline` models its helper on its own; nothing else in the model uses it.
- The semaphores (`P`/`V`) and a `P` that fails are not modelled. Each registry or lock operation is one atomic step. In `Server`, the commands of different connections interleave, but each command is a single step. Interleaving inside one command (between its lookup, try-lock, `fopen` and release) is not modelled. Neither is the unsynchronised read of the counters in `release_lock`.
- Real file-system calls are not modelled. `fopen`, `fread`, `fwrite`, `fflush` and `fseek` work on a map from names to bytes. Failures come from `Env`: `fopen` in "rb" mode also fails for a missing file, and "ab+" creates an empty one. The stream is its read offset.
- The guards for a null lock in the lock functions are left out. Every caller passes a lock from the registry.
- LockSpec.Acquire keeps the whole name. The 511-character cut that `strncpy` makes is modelled separately by `LockSpec.AcquireAsWritten` (see Findings). `Session.filename` is also cut to 511 characters by `strncpy`, but only the lock is used to release a file, so that cut changes nothing the model tracks.

## Findings

| source | as written | input that shows it | evidently intended | confidence | as-written member | corrected member |
|---|---|---|---|---|---|---|
| server.c:61-83 | a new lock stores the name cut to 511 characters, but the lookup compares stored names with the whole requested name | two connections each send `openAppend` followed by `"./"` repeated 254 times and then `f.txt` (513 characters, each path component short, so `fopen` accepts it): the second lookup misses the first lock and creates another, so both appends are granted on the same file `f.txt` (`fopen` opens the whole name both times) | a lookup finds the lock of any name already open, so a second appender is refused (proved of LockSpec.Acquire by LockSpec.AcquireFinds, LockSpec.LongNameOneWriter and Server.Exclusion) | high, not executed | LockSpec.AcquireAsWritten, LockSpec.LongNameTwoWriters | LockSpec.Acquire |
