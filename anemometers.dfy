/** The acquisition session of serial_anemometers.cxx: sonic_anemometer_init
    opens and configures one serial port per anemometer and starts a reader
    thread for each; sonic_anemometer_close stops the threads and closes the
    ports, once per session. */
module Anemometers {
  import opened AnemometerTypes
  import opened Transport

  const WindSonicType: string := "Gill WindSonic"
  const WindMasterType: string := "Gill WindMaster"

  /** The reader a type string calls for; None for a type not recognised. */
  function ReaderFor(kind: string): (r: Option<ReadLoop>)
    ensures r == Some(WindSonicLoop) <==> kind == WindSonicType
    ensures r == Some(WindMasterLoop) <==> kind == WindMasterType
    ensures r.None? <==> kind != WindSonicType && kind != WindMasterType
  {
    if kind == WindSonicType then Some(WindSonicLoop)
    else if kind == WindMasterType then Some(WindMasterLoop)
    else None
  }

  /** The line speed each model talks at. */
  function BaudRate(loop: ReadLoop): (r: int)
    ensures loop == WindSonicLoop ==> r == 9600
    ensures loop == WindMasterLoop ==> r == 115200
  {
    match loop
    case WindSonicLoop => 9600
    case WindMasterLoop => 115200
  }

  /** The first n types are all recognised. */
  predicate Known(kinds: seq<string>, n: int)
  {
    n <= |kinds| && forall i :: 0 <= i < n ==> ReaderFor(kinds[i]).Some?
  }

  /** What the open loop asks of the host when the first n ports all open
      and accept their line settings: for each port in turn, open the path,
      then set the rate its type calls for. `fds` holds the descriptors the
      host returned. */
  function OpenLog(paths: seq<string>, kinds: seq<string>, fds: seq<int>, n: nat): (r: seq<Event>)
    requires n <= |paths| && n <= |fds| && Known(kinds, n)
    ensures |r| == 2 * n
  {
    if n == 0 then []
    else
      OpenLog(paths, kinds, fds, n - 1)
        + [Opened(paths[n - 1], fds[n - 1]), Configured(fds[n - 1], BaudRate(ReaderFor(kinds[n - 1]).value))]
  }

  /** OpenLog reads only the first n descriptors. */
  lemma {:induction false} OpenLogFrame(paths: seq<string>, kinds: seq<string>, fds: seq<int>, fds': seq<int>, n: nat)
    requires n <= |paths| && n <= |fds| && n <= |fds'| && Known(kinds, n)
    requires forall j :: 0 <= j < n ==> fds[j] == fds'[j]
    ensures OpenLog(paths, kinds, fds, n) == OpenLog(paths, kinds, fds', n)
  {
    if n > 0 {
      OpenLogFrame(paths, kinds, fds, fds', n - 1);
    }
  }

  /** What the thread loop asks of the host when the first n readers all
      start: for each port in turn, a reader of the port's model with the
      port's index and descriptor. `handles` holds the handles the host
      returned. */
  function StartLog(kinds: seq<string>, fds: seq<int>, handles: seq<int>, n: nat): (r: seq<Event>)
    requires n <= |fds| && n <= |handles| && Known(kinds, n)
    ensures |r| == n
  {
    if n == 0 then []
    else
      StartLog(kinds, fds, handles, n - 1)
        + [Started(ReaderFor(kinds[n - 1]).value, ThreadArgs(n - 1, fds[n - 1]), handles[n - 1])]
  }

  /** StartLog reads only the first n handles. */
  lemma {:induction false} StartLogFrame(kinds: seq<string>, fds: seq<int>, handles: seq<int>, handles': seq<int>, n: nat)
    requires n <= |fds| && n <= |handles| && n <= |handles'| && Known(kinds, n)
    requires forall j :: 0 <= j < n ==> handles[j] == handles'[j]
    ensures StartLog(kinds, fds, handles, n) == StartLog(kinds, fds, handles', n)
  {
    if n > 0 {
      StartLogFrame(kinds, fds, handles, handles', n - 1);
    }
  }

  /** No event of log[from..] closes a port or joins a thread. */
  predicate NothingReleased(log: seq<Event>, from: nat)
  {
    forall k :: from <= k < |log| ==> !log[k].Closed? && !log[k].Joined?
  }

  /** `log` begins with `before`: the host's log only grows. */
  predicate Prefix(before: seq<Event>, log: seq<Event>)
  {
    |before| <= |log| && log[..|before|] == before
  }

  lemma PrefixReleased(l0: seq<Event>, l1: seq<Event>, l2: seq<Event>)
    requires Prefix(l0, l1) && Prefix(l1, l2)
    requires NothingReleased(l1, |l0|) && NothingReleased(l2, |l1|)
    ensures Prefix(l0, l2) && NothingReleased(l2, |l0|)
  {
    assert l2[..|l0|] == l2[..|l1|][..|l0|];
    forall k | |l0| <= k < |l1| ensures l2[k] == l1[k] {
      assert l2[..|l1|][k] == l2[k];
    }
  }

  /** The statics of serial_anemometers.cxx. */
  class Session {
    var numPorts: int
    var exitThread: bool
    const fd: array<int>
    const handle: array<int>
    const args: array<ThreadArgs>

    ghost predicate Valid()
      reads this
    {
      && fd.Length == MaxAnemometers && handle.Length == MaxAnemometers && args.Length == MaxAnemometers
      && fd != handle && 0 <= numPorts <= MaxAnemometers
    }

    /** The zero-initialised statics at program start: no session yet. */
    constructor ()
      ensures Valid() && fresh(fd) && fresh(handle) && fresh(args)
      ensures numPorts == 0 && !exitThread
    {
      numPorts := 0;
      exitThread := false;
      fd := new int[MaxAnemometers](_ => 0);
      handle := new int[MaxAnemometers](_ => 0);
      args := new ThreadArgs[MaxAnemometers](_ => ThreadArgs(0, 0));
    }

    /** The open loop of sonic_anemometer_init: for each port in turn, open
        it, and set the line speed its type calls for. It stops at the first
        port that cannot be opened, has an unrecognised type or refuses its
        settings, leaving the ports opened before it open. Only the descriptor
        table changes. */
    method OpenPorts(host: Host, nPorts: int, paths: seq<string>, kinds: seq<string>) returns (ok: bool)
      requires Valid() && 1 <= nPorts <= MaxAnemometers && nPorts <= |paths| && nPorts <= |kinds|
      modifies fd, host
      ensures Prefix(old(host.log), host.log) && NothingReleased(host.log, |old(host.log)|)
      ensures ok ==> Known(kinds, nPorts) && host.log == old(host.log) + OpenLog(paths, kinds, fd[..], nPorts)
      ensures forall j :: nPorts <= j < MaxAnemometers ==> fd[j] == old(fd[j])
    {
      ghost var log0 := host.log;
      for i := 0 to nPorts
        invariant Known(kinds, i)
        invariant forall j :: i <= j < MaxAnemometers ==> fd[j] == old(fd[j])
        invariant host.log == log0 + OpenLog(paths, kinds, fd[..], i)
        invariant NothingReleased(host.log, |log0|)
      {
        ghost var before := fd[..];
        var h := host.Open(paths[i]);
        fd[i] := h;
        OpenLogFrame(paths, kinds, before, fd[..], i);
        if h == -1 {
          return false;
        }
        var reader := ReaderFor(kinds[i]);
        if reader.None? {
          return false;
        }
        var configured := host.Setup(h, BaudRate(reader.value));
        if !configured {
          return false;
        }
      }
      return true;
    }

    /** The thread loop of sonic_anemometer_init: for each running port in
        turn, give its reader the port's index and descriptor and start it.
        It stops at the first reader that cannot be started. */
    method StartReaders(host: Host, kinds: seq<string>) returns (ok: bool)
      requires Valid() && 1 <= numPorts && Known(kinds, numPorts)
      modifies handle, args, host
      ensures Prefix(old(host.log), host.log) && NothingReleased(host.log, |old(host.log)|)
      ensures ok ==>
        && (forall i :: 0 <= i < numPorts ==> args[i] == ThreadArgs(i, fd[i]))
        && host.log == old(host.log) + StartLog(kinds, fd[..], handle[..], numPorts)
      ensures forall j :: numPorts <= j < MaxAnemometers ==> handle[j] == old(handle[j]) && args[j] == old(args[j])
    {
      ghost var log0 := host.log;
      for i := 0 to numPorts
        invariant forall j :: 0 <= j < i ==> args[j] == ThreadArgs(j, fd[j])
        invariant forall j :: i <= j < MaxAnemometers ==> handle[j] == old(handle[j]) && args[j] == old(args[j])
        invariant host.log == log0 + StartLog(kinds, fd[..], handle[..], i)
        invariant NothingReleased(host.log, |log0|)
      {
        args[i] := ThreadArgs(i, fd[i]);
        var reader := ReaderFor(kinds[i]);
        ghost var before := handle[..];
        var started, h := host.Start(reader.value, args[i]);
        handle[i] := h;
        StartLogFrame(kinds, fd[..], before, handle[..], i);
        if !started {
          return false;
        }
      }
      return true;
    }

    /** sonic_anemometer_init. `ports` and `types` are None where the caller
        passes a null pointer; when both are given and nPorts is a valid
        count, they hold at least nPorts entries.
        - A port count outside 1..20 or a null list fails with nothing done.
        - Success means every port was opened and set to the rate of its
          type, in order, and then every reader was started, in order; the
          session then runs nPorts ports and each reader knows its index and
          descriptor.
        - An unrecognised type fails.
        - Whatever fails, nothing is closed or joined, and the session
          statics, the thread handles and the reader arguments are written
          only once every port is open and configured.
        - Entries of the three tables at nPorts and beyond are never
          written. */
    method Init(host: Host, nPorts: int, ports: Option<seq<string>>, types: Option<seq<string>>) returns (ok: bool)
      requires Valid()
      requires ports.Some? && types.Some? && 1 <= nPorts <= MaxAnemometers ==>
        nPorts <= |ports.value| && nPorts <= |types.value|
      modifies this, fd, handle, args, host
      ensures Valid()
      ensures !(1 <= nPorts <= MaxAnemometers) || ports.None? || types.None? ==>
        && !ok && numPorts == old(numPorts) && exitThread == old(exitThread)
        && fd[..] == old(fd[..]) && handle[..] == old(handle[..]) && args[..] == old(args[..])
        && host.log == old(host.log)
      ensures ok ==> 1 <= nPorts <= MaxAnemometers && ports.Some? && types.Some?
      ensures ok ==> Known(types.value, nPorts)
      ensures ok ==>
        && numPorts == nPorts && !exitThread
        && (forall i :: 0 <= i < nPorts ==> args[i] == ThreadArgs(i, fd[i]))
        && host.log == old(host.log) + OpenLog(ports.value, types.value, fd[..], nPorts)
                                     + StartLog(types.value, fd[..], handle[..], nPorts)
      ensures (&& numPorts == old(numPorts) && exitThread == old(exitThread)
               && handle[..] == old(handle[..]) && args[..] == old(args[..]))
        || (&& 1 <= nPorts <= MaxAnemometers && ports.Some? && types.Some? && Known(types.value, nPorts)
            && numPorts == nPorts && !exitThread
            && Prefix(old(host.log) + OpenLog(ports.value, types.value, fd[..], nPorts), host.log))
      ensures NothingReleased(host.log, |old(host.log)|)
      ensures forall j :: 0 <= j < MaxAnemometers && nPorts <= j ==>
        fd[j] == old(fd[j]) && handle[j] == old(handle[j]) && args[j] == old(args[j])
    {
      if nPorts < 1 || nPorts > MaxAnemometers {
        return false;
      }
      if ports.None? || types.None? {
        return false;
      }
      ok := OpenPorts(host, nPorts, ports.value, types.value);
      if !ok {
        return false;
      }
      ghost var log1 := host.log;
      exitThread := false;
      numPorts := nPorts;
      ok := StartReaders(host, types.value);
      PrefixReleased(old(host.log), log1, host.log);
    }

    /** sonic_anemometer_close. While a session runs (some ports, no stop
        requested), it raises the stop flag, joins the readers of ports
        0..numPorts-1, then closes exactly their descriptors, and keeps the
        port count. Otherwise (never initialised, or already closed) it does
        nothing; so once it has run, running it again does nothing. */
    method Close(host: Host)
      requires Valid()
      modifies this, host
      ensures Valid() && numPorts == old(numPorts)
      ensures exitThread || numPorts == 0
      ensures old(exitThread) || old(numPorts) == 0 ==> exitThread == old(exitThread) && host.log == old(host.log)
      ensures !old(exitThread) && old(numPorts) != 0 ==>
        exitThread && host.log == old(host.log) + Joins(handle[..numPorts]) + Closes(fd[..numPorts])
    {
      if !exitThread && numPorts != 0 {
        exitThread := true;
        ghost var log0 := host.log;
        for i := 0 to numPorts
          invariant Valid() && exitThread && numPorts == old(numPorts)
          invariant host.log == log0 + Joins(handle[..i])
        {
          host.Join(handle[i]);
          assert handle[..i + 1][..i] == handle[..i];
        }
        ghost var log1 := host.log;
        for i := 0 to numPorts
          invariant Valid() && exitThread && numPorts == old(numPorts)
          invariant host.log == log1 + Closes(fd[..i])
        {
          host.Close(fd[i]);
          assert fd[..i + 1][..i] == fd[..i];
        }
      }
    }
  }
}
