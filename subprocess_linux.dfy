/**
 * The Linux `run()`: the same validation, environment and argv as on macOS,
 * then a three-slot descriptor array handed to the fork/exec shim.
 *
 * The shim's contract (a slot holding 0 means "leave that stream alone",
 * any other value is dup2'd onto the slot's number) is written out in
 * `ShimRedirections` so that the array can be compared with the dup2 plan
 * of the macOS launch.
 */
module SubprocessLinux {
  import opened Posix
  import opened Subprocesses

  /** Swift's `stream?.rawValue ?? 0`. */
  function RawOrZero(stream: Option<FileDescriptor>): Int32 {
    if stream.Some? then stream.value.rawValue else 0
  }

  /**
   * The `fileDescriptors` array as written: slot 1 is filled from
   * `standardInput`, so `standardOutput` is never read.
   */
  function FileDescriptorSlots(p: Subprocess): (slots: seq<Int32>)
    ensures |slots| == 3
    ensures slots[0] == RawOrZero(p.standardInput) && slots[2] == RawOrZero(p.standardError)
    ensures slots[1] == slots[0]
  {
    [RawOrZero(p.standardInput), RawOrZero(p.standardInput), RawOrZero(p.standardError)]
  }

  /** The array with each slot filled from the stream of the same number. */
  function IntendedFileDescriptorSlots(p: Subprocess): (slots: seq<Int32>)
    ensures |slots| == 3
    ensures forall t :: 0 <= t < 3 ==> slots[t] == RawOrZero(Stdio(p, t))
  {
    [RawOrZero(p.standardInput), RawOrZero(p.standardOutput), RawOrZero(p.standardError)]
  }

  /** The dup2 calls the fork/exec shim makes in the child for a slot array. */
  function ShimRedirections(slots: seq<Int32>): (actions: seq<FileAction>)
    requires |slots| == 3
    ensures forall i :: 0 <= i < |actions| ==>
      actions[i].newFd < 3 && slots[actions[i].newFd] != 0 && actions[i].fd == slots[actions[i].newFd]
    ensures forall i, j :: 0 <= i < j < |actions| ==> actions[i].newFd < actions[j].newFd
    ensures forall t :: 0 <= t < 3 && slots[t] != 0 ==> Dup2(slots[t], t) in actions
  {
    (if slots[0] != 0 then [Dup2(slots[0], 0)] else [])
    + (if slots[1] != 0 then [Dup2(slots[1], 1)] else [])
    + (if slots[2] != 0 then [Dup2(slots[2], 2)] else [])
  }

  /** Nothing the caller sets in `standardOutput` reaches the slot array. */
  lemma StandardOutputIsNeverRead(p: Subprocess, output: Option<FileDescriptor>)
    ensures FileDescriptorSlots(p.(standardOutput := output)) == FileDescriptorSlots(p)
  {
  }

  /**
   * A launch that redirects only its output to descriptor 4 performs no
   * dup2 at all, while the macOS plan has one; redirecting only input to
   * descriptor 3 also points the child's output at 3.
   */
  lemma SlotOneCopiesStandardInput()
    ensures var p := Subprocess("/usr/bin/env", [], map[], None, Some(FileDescriptor(4)), None);
      ShimRedirections(FileDescriptorSlots(p)) == [] && PlannedDup2s(p) == [Dup2(4, 1)]
    ensures var q := Subprocess("/usr/bin/env", [], map[], Some(FileDescriptor(3)), None, None);
      ShimRedirections(FileDescriptorSlots(q)) == [Dup2(3, 0), Dup2(3, 1)] && PlannedDup2s(q) == [Dup2(3, 0)]
  {
  }

  /**
   * With each slot taken from its own stream, the shim performs exactly the
   * macOS dup2 plan, provided no stream is descriptor 0 (which the shim
   * cannot tell apart from "not redirected").
   */
  lemma IntendedSlotsFollowTheFileActionPlan(p: Subprocess)
    requires forall t :: 0 <= t < 3 ==> Stdio(p, t) != Some(FileDescriptor(0))
    ensures ShimRedirections(IntendedFileDescriptorSlots(p)) == PlannedDup2s(p)
  {
    var slots := IntendedFileDescriptorSlots(p);
    assert slots[0] == RawOrZero(Stdio(p, 0));
    assert slots[1] == RawOrZero(Stdio(p, 1));
    assert slots[2] == RawOrZero(Stdio(p, 2));
  }

  /** The arguments `_subprocess_fork_exec` receives; argv and envp are the arrays as built, without a NULL slot. */
  datatype ForkExecRequest = ForkExecRequest(
    path: string,
    fileDescriptors: seq<Int32>,
    argv: CStringArray,
    envp: CStringArray)

  /**
   * The Linux `run()`. A refused path makes no request; otherwise the pid
   * returned is whatever the shim stored, 0 if it stored nothing, whatever
   * status it returned.
   */
  method Run(p: Subprocess, inherited: map<string, string>, outcome: LaunchOutcome)
    returns (r: Result<Int32, SubprocessError>, request: Option<ForkExecRequest>,
             ghost envEntries: seq<string>, ghost envOrder: seq<string>)
    ensures r.Failure? <==> Validate(p).Some?
    ensures r.Failure? ==> r.error == Validate(p).value && request == None
    ensures r.Success? ==> request.Some? && r.value == outcome.writtenPid.GetOr(0)
    ensures request.Some? ==>
      && request.value.path == p.executablePath
      && request.value.argv == CStringArrayAsWritten([p.executablePath] + p.arguments)
      && request.value.fileDescriptors == FileDescriptorSlots(p)
      && request.value.envp == CStringArrayAsWritten(envEntries)
      && Serializes(Overlay(inherited, p.environments), envEntries, envOrder)
  {
    envEntries, envOrder := [], [];
    var invalid := Validate(p);
    if invalid.Some? {
      return Failure(invalid.value), None, envEntries, envOrder;
    }
    var env := MergeEnvironment(inherited, p.environments);
    var envp;
    envp, envOrder := SerializeEnvironment(env);
    envEntries := envp;
    var argv := BuildArguments(p.executablePath, p.arguments);
    assert argv == [p.executablePath] + p.arguments;
    var fileDescriptors := FileDescriptorSlots(p);
    request := Some(ForkExecRequest(p.executablePath, fileDescriptors,
                                    CStringArrayAsWritten(argv), CStringArrayAsWritten(envp)));
    var pid: Int32 := outcome.writtenPid.GetOr(0);
    r := Success(pid);
  }
}
