/** The operating-system services the acquisition session relies on, seen from
    the outside: opening and configuring a serial port (the termios calls of
    serial.cxx are not modelled), closing it, and starting and joining a
    reader thread. Each call may succeed or fail, as the platform decides;
    the model does not predict which, it records what happened, in order, as
    a log of events. */
module Transport {

  /** The body a reader thread runs: gill_windsonic_read_loop or
      gill_windmaster_read_loop. */
  datatype ReadLoop = WindSonicLoop | WindMasterLoop

  /** Anemometer_Thread_Arguments_t: the port index and its descriptor (the
      pointer to the shared stop flag is the same for every thread). */
  datatype ThreadArgs = ThreadArgs(index: int, fd: int)

  datatype Event =
    | Opened(path: string, fd: int)
    | OpenFailed(path: string)
    | Configured(fd: int, baud: int)
    | SetupFailed(fd: int, baud: int)
    | Started(loop: ReadLoop, args: ThreadArgs, handle: int)
    | StartFailed(loop: ReadLoop, args: ThreadArgs)
    | Joined(handle: int)
    | Closed(fd: int)

  /** Joining each of the given threads, in order. */
  function Joins(handles: seq<int>): (r: seq<Event>)
    ensures |r| == |handles|
    ensures forall k :: 0 <= k < |r| ==> r[k] == Joined(handles[k])
  {
    if handles == [] then [] else Joins(handles[..|handles| - 1]) + [Joined(handles[|handles| - 1])]
  }

  /** Closing each of the given descriptors, in order. */
  function Closes(fds: seq<int>): (r: seq<Event>)
    ensures |r| == |fds|
    ensures forall k :: 0 <= k < |r| ==> r[k] == Closed(fds[k])
  {
    if fds == [] then [] else Closes(fds[..|fds| - 1]) + [Closed(fds[|fds| - 1])]
  }

  /** The host: what it has been asked to do, and how each request went. */
  class Host {
    var log: seq<Event>

    constructor ()
      ensures log == []
    {
      log := [];
    }

    /** serial_open: a descriptor from open(), never negative, or -1 when
        the port cannot be opened. */
    method Open(path: string) returns (fd: int)
      modifies this
      ensures fd >= -1
      ensures log == old(log) + [if fd == -1 then OpenFailed(path) else Opened(path, fd)]
    {
      fd :| fd >= -1;
      log := log + [if fd == -1 then OpenFailed(path) else Opened(path, fd)];
    }

    /** serial_setup: configure the port for 8 data bits, no parity, one stop
        bit at the given rate; false when the port refuses. */
    method Setup(fd: int, baud: int) returns (ok: bool)
      modifies this
      ensures log == old(log) + [if ok then Configured(fd, baud) else SetupFailed(fd, baud)]
    {
      ok := *;
      log := log + [if ok then Configured(fd, baud) else SetupFailed(fd, baud)];
    }

    /** serial_close. */
    method Close(fd: int)
      modifies this
      ensures log == old(log) + [Closed(fd)]
    {
      log := log + [Closed(fd)];
    }

    /** pthread_create: true and the new thread's handle, or false. */
    method Start(loop: ReadLoop, args: ThreadArgs) returns (ok: bool, handle: int)
      modifies this
      ensures log == old(log) + [if ok then Started(loop, args, handle) else StartFailed(loop, args)]
    {
      ok := *;
      handle := *;
      log := log + [if ok then Started(loop, args, handle) else StartFailed(loop, args)];
    }

    /** pthread_join: wait for the thread to finish. */
    method Join(handle: int)
      modifies this
      ensures log == old(log) + [Joined(handle)]
    {
      log := log + [Joined(handle)];
    }
  }
}
