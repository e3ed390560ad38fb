/**
 * Starting the camera streams: the main program assigns the UDP ports, then builds one
 * command per discovered camera, in discovery order, spawns it and appends the handle
 * to the module-level `processes` list. An exception from the command builder ends the
 * loop at the camera that raised it; processes already spawned stay in the list.
 *
 * Spawning (`subprocess.Popen` with `shell=True`, a new session and output sent to
 * `/dev/null`) is abstract: the operating system is represented by the list of commands
 * handed to it, and a handle by the position of its command in that list.
 */
module Launcher {
  import opened Wrappers
  import opened CameraDiscovery
  import opened StreamCommand

  /** An opaque handle to a spawned process. */
  datatype Handle = Handle(id: nat)

  function Min(a: nat, b: nat): nat {
    if a <= b then a else b
  }

  /** How many processes a launch starts: none if the stream arguments are bad, else one per camera that has a port. */
  function LaunchCount(cameraCount: nat, stream: seq<string>, portList: seq<int>): nat {
    if StreamProblem(stream).Some? then 0 else Min(cameraCount, |portList|)
  }

  /**
   * The launch count is exactly the first camera whose command fails (or the number of
   * cameras if none fails). Every camera shares the same stream arguments, so a bad stream
   * fails at camera 0 before anything is spawned; otherwise only a camera without a port
   * (index 2 and up with the two-entry port list) fails.
   */
  lemma FirstFailure(cameras: seq<Camera>, stream: seq<string>, portList: seq<int>, k: nat)
    requires k <= |cameras|
    ensures (&& (forall i :: 0 <= i < k ==> BuildCommand(cameras[i], i, stream, portList).Ok?)
             && (k < |cameras| ==> BuildCommand(cameras[k], k, stream, portList).Err?))
            <==> k == LaunchCount(|cameras|, stream, portList)
  {
    var n := LaunchCount(|cameras|, stream, portList);
    if k < n {
      assert BuildCommand(cameras[k], k, stream, portList).Ok?;
    } else if k > n {
      assert BuildCommand(cameras[n], n, stream, portList).Err?;
    }
  }

  /** The commands built for the first `n` cameras, in camera order; every one of them builds without raising. */
  function Commands(cameras: seq<Camera>, stream: seq<string>, portList: seq<int>, n: nat): (cmds: seq<string>)
    requires n <= LaunchCount(|cameras|, stream, portList)
    ensures |cmds| == n
  {
    if n == 0 then []
    else
      assert n - 1 < |portList| && StreamProblem(stream).None?;
      Commands(cameras, stream, portList, n - 1) + [BuildCommand(cameras[n - 1], n - 1, stream, portList).value]
  }

  /** Up to the launch count every camera's build succeeds, and `Commands` lists exactly those commands. */
  lemma {:induction false} CommandsLaunched(cameras: seq<Camera>, stream: seq<string>, portList: seq<int>, n: nat)
    requires n <= LaunchCount(|cameras|, stream, portList)
    ensures forall i :: 0 <= i < n ==>
      BuildCommand(cameras[i], i, stream, portList) == Ok(Commands(cameras, stream, portList, n)[i])
  {
    if n > 0 {
      CommandsLaunched(cameras, stream, portList, n - 1);
      var prev := Commands(cameras, stream, portList, n - 1);
      assert n - 1 < |portList| && StreamProblem(stream).None?;
      var last := BuildCommand(cameras[n - 1], n - 1, stream, portList);
      var cmds := prev + [last.value];
      assert Commands(cameras, stream, portList, n) == cmds;
      forall i | 0 <= i < n
        ensures BuildCommand(cameras[i], i, stream, portList) == Ok(cmds[i])
      {
        if i < n - 1 {
          assert cmds[i] == prev[i];
        }
      }
    }
  }

  /** The launcher's process bookkeeping. */
  class Supervisor {
    /** The commands handed to the operating system so far, oldest first. */
    var spawned: seq<string>
    /** The module-level `processes` list. */
    var processes: seq<Handle>

    constructor ()
      ensures spawned == [] && processes == []
    {
      spawned := [];
      processes := [];
    }

    /** Starts `cmd` as a detached process and returns its handle. */
    method Spawn(cmd: string) returns (h: Handle)
      modifies this`spawned
      ensures spawned == old(spawned) + [cmd]
      ensures h == Handle(|old(spawned)|)
    {
      h := Handle(|spawned|);
      spawned := spawned + [cmd];
    }

    /**
     * Assigns the ports, then builds and spawns one command per camera in discovery order,
     * recording each handle; stops at the first camera whose command raises, and returns
     * that exception.
     */
    method StartStreams(cameras: seq<Camera>, stream: seq<string>, invert: bool) returns (failure: Option<Error>)
      modifies this
      ensures |processes| == LaunchCount(|cameras|, stream, PortList(invert))
      ensures spawned == old(spawned) + Commands(cameras, stream, PortList(invert), |processes|)
      ensures forall i :: 0 <= i < |processes| ==> processes[i] == Handle(|old(spawned)| + i)
      ensures failure.None? <==> |processes| == |cameras|
      ensures failure.Some? ==> BuildCommand(cameras[|processes|], |processes|, stream, PortList(invert)) == Err(failure.value)
    {
      var portList := PortList(invert);
      ghost var count := LaunchCount(|cameras|, stream, portList);
      processes := [];
      failure := None;
      var idx := 0;
      while idx < |cameras| && failure.None?
        invariant idx <= count <= |cameras|
        invariant |processes| == idx
        invariant spawned == old(spawned) + Commands(cameras, stream, portList, idx)
        invariant forall i :: 0 <= i < idx ==> processes[i] == Handle(|old(spawned)| + i)
        invariant failure.Some? ==> idx < |cameras| && BuildCommand(cameras[idx], idx, stream, portList) == Err(failure.value)
        decreases |cameras| - idx, if failure.None? then 1 else 0
      {
        var cmd := BuildCommand(cameras[idx], idx, stream, portList);
        if cmd.Err? {
          failure := Some(cmd.error);
        } else {
          var process := Spawn(cmd.value);
          processes := processes + [process];
          idx := idx + 1;
        }
      }
    }
  }
}
