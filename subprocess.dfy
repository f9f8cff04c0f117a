/**
 * The `Subprocess` value and the part of `run()` that both platforms share
 * (validation, environment merge and serialisation, argv), plus the macOS
 * launch through `posix_spawn`: the dup2 file actions and the spawn
 * attributes.
 *
 * The spawn itself is external: `LaunchOutcome` stands for what the call
 * returns and the pid it stores for the caller.
 */
module Subprocesses {
  import opened Posix

  datatype FileDescriptor = FileDescriptor(rawValue: Int32)

  /** The launch description; its memberwise initialiser is the datatype constructor. */
  datatype Subprocess = Subprocess(
    executablePath: string,
    arguments: seq<string>,
    environments: map<string, string>,
    standardInput: Option<FileDescriptor>,
    standardOutput: Option<FileDescriptor>,
    standardError: Option<FileDescriptor>)

  datatype SubprocessError = InvalidExecutablePath | ProcessNotSupported

  /** Executables that `run()` refuses to launch. */
  const Denylist: set<string> := {"/usr/bin/swift", "/bin/sh", "/bin/zsh"}

  /** What the external launch call does: its return status and the pid it stores, if any. */
  datatype LaunchOutcome = LaunchOutcome(status: int, writtenPid: Option<Int32>)

  /** The guards at the top of `run()`; None means the launch goes ahead. */
  function Validate(p: Subprocess): (e: Option<SubprocessError>)
    ensures e == Some(InvalidExecutablePath) <==> p.executablePath == ""
    ensures e == Some(ProcessNotSupported) <==> p.executablePath in Denylist
    ensures e == None <==> p.executablePath != "" && p.executablePath !in Denylist
  {
    if p.executablePath == "" then Some(InvalidExecutablePath)
    else if p.executablePath in Denylist then Some(ProcessNotSupported)
    else None
  }

  // ---------------------------------------------------------------------
  // Environment
  // ---------------------------------------------------------------------

  /** The inherited environment with the caller's overrides laid over it. */
  function Overlay(inherited: map<string, string>, overrides: map<string, string>): (env: map<string, string>)
    ensures env.Keys == inherited.Keys + overrides.Keys
    ensures forall k :: k in overrides ==> env[k] == overrides[k]
    ensures forall k :: k in inherited && k !in overrides ==> env[k] == inherited[k]
  {
    inherited + overrides
  }

  /** The overrides whose keys lie in `keys`. */
  function Restrict(m: map<string, string>, keys: set<string>): map<string, string> {
    map k | k in m && k in keys :: m[k]
  }

  lemma RestrictOneMore(m: map<string, string>, keys: set<string>, key: string)
    requires key in m
    ensures Restrict(m, keys + {key}) == Restrict(m, keys)[key := m[key]]
  {
  }

  lemma RestrictToAllKeys(m: map<string, string>, keys: set<string>)
    requires m.Keys <= keys
    ensures Restrict(m, keys) == m
  {
  }

  lemma OverlayUpdate(base: map<string, string>, top: map<string, string>, key: string, value: string)
    ensures (base + top)[key := value] == base + top[key := value]
  {
  }

  /** The loop that assigns every override into a copy of the inherited environment. */
  method MergeEnvironment(inherited: map<string, string>, overrides: map<string, string>)
    returns (env: map<string, string>)
    ensures env == Overlay(inherited, overrides)
  {
    env := inherited;
    var pending := overrides.Keys;
    ghost var merged: set<string> := {};
    assert Restrict(overrides, merged) == map[];
    while pending != {}
      invariant pending + merged == overrides.Keys
      invariant env == inherited + Restrict(overrides, merged)
      decreases |pending|
    {
      var key :| key in pending;
      OverlayUpdate(inherited, Restrict(overrides, merged), key, overrides[key]);
      RestrictOneMore(overrides, merged, key);
      env := env[key := overrides[key]];
      pending := pending - {key};
      merged := merged + {key};
    }
    RestrictToAllKeys(overrides, merged);
  }

  /** One `key=value` entry of the child's environment block. */
  function EnvironmentEntry(key: string, value: string): string {
    key + "=" + value
  }

  /** Position of the first '=' in `s`, or |s| when there is none. */
  function IndexOfEquals(s: string): (i: nat)
    ensures i <= |s|
    ensures i < |s| ==> s[i] == '='
    ensures forall j :: 0 <= j < i ==> s[j] != '='
  {
    if s == "" then 0
    else if s[0] == '=' then 0
    else 1 + IndexOfEquals(s[1..])
  }

  /** Reads an environment entry back as the key before the first '=' and the rest. */
  function ParseEnvironmentEntry(s: string): (kv: (string, string))
    ensures '=' !in kv.0
    ensures '=' in s ==> s == EnvironmentEntry(kv.0, kv.1)
    ensures '=' !in s ==> kv == (s, "")
  {
    var i := IndexOfEquals(s);
    if i < |s| then
      assert s == s[..i] + "=" + s[i + 1..];
      (s[..i], s[i + 1..])
    else
      (s, "")
  }

  /** Serialising a binding and parsing it back gives the binding, when the key holds no '='. */
  lemma ParseEnvironmentEntryInverts(key: string, value: string)
    requires '=' !in key
    ensures ParseEnvironmentEntry(EnvironmentEntry(key, value)) == (key, value)
  {
    var s := EnvironmentEntry(key, value);
    assert s[|key|] == '=';
    assert forall j :: 0 <= j < |key| ==> s[j] == key[j];
    assert IndexOfEquals(s) == |key|;
    assert s[..|key|] == key;
    assert s[|key| + 1..] == value;
  }

  /**
   * `entries` is the environment block for `env`: entry i is the binding of
   * key order[i], and `order` lists every key exactly once.
   */
  ghost predicate Serializes(env: map<string, string>, entries: seq<string>, order: seq<string>) {
    && |order| == |entries|
    && (forall i :: 0 <= i < |order| ==> order[i] in env && entries[i] == EnvironmentEntry(order[i], env[order[i]]))
    && (forall i, j :: 0 <= i < j < |order| ==> order[i] != order[j])
    && (forall k :: k in env ==> k in order)
  }

  /** The `map` over the merged dictionary that turns each binding into `key=value`. */
  method SerializeEnvironment(env: map<string, string>) returns (entries: seq<string>, ghost order: seq<string>)
    ensures Serializes(env, entries, order)
    ensures |entries| == |env|
  {
    entries := [];
    order := [];
    var pending := env.Keys;
    while pending != {}
      invariant pending <= env.Keys
      invariant |order| == |entries|
      invariant |order| + |pending| == |env|
      invariant forall i :: 0 <= i < |order| ==> order[i] in env && order[i] !in pending
      invariant forall i :: 0 <= i < |order| ==> entries[i] == EnvironmentEntry(order[i], env[order[i]])
      invariant forall i, j :: 0 <= i < j < |order| ==> order[i] != order[j]
      invariant forall k :: k in env ==> k in pending || k in order
      decreases |pending|
    {
      var key :| key in pending;
      entries := entries + [EnvironmentEntry(key, env[key])];
      order := order + [key];
      pending := pending - {key};
    }
  }

  /** Every entry of the block reads back as a binding of `env`, and every binding has an entry. */
  lemma SerializedEnvironmentParsesBack(env: map<string, string>, entries: seq<string>, order: seq<string>)
    requires Serializes(env, entries, order)
    requires forall k :: k in env ==> '=' !in k
    ensures forall i :: 0 <= i < |entries| ==>
      ParseEnvironmentEntry(entries[i]).0 in env && env[ParseEnvironmentEntry(entries[i]).0] == ParseEnvironmentEntry(entries[i]).1
    ensures forall k :: k in env ==> exists i :: 0 <= i < |entries| && ParseEnvironmentEntry(entries[i]) == (k, env[k])
  {
    forall i | 0 <= i < |entries|
      ensures ParseEnvironmentEntry(entries[i]) == (order[i], env[order[i]])
    {
      ParseEnvironmentEntryInverts(order[i], env[order[i]]);
    }
    forall k | k in env
      ensures exists i :: 0 <= i < |entries| && ParseEnvironmentEntry(entries[i]) == (k, env[k])
    {
      var i :| 0 <= i < |order| && order[i] == k;
      assert ParseEnvironmentEntry(entries[i]) == (k, env[k]);
    }
  }

  // ---------------------------------------------------------------------
  // argv
  // ---------------------------------------------------------------------

  /** The argv array: the executable path, then each argument appended in turn. */
  method BuildArguments(executablePath: string, arguments: seq<string>) returns (argv: seq<string>)
    ensures |argv| == 1 + |arguments|
    ensures argv[0] == executablePath
    ensures forall i :: 0 <= i < |arguments| ==> argv[i + 1] == arguments[i]
  {
    argv := [executablePath];
    for i := 0 to |arguments|
      invariant argv == [executablePath] + arguments[..i]
    {
      argv := argv + [arguments[i]];
    }
  }

  // ---------------------------------------------------------------------
  // File actions (macOS)
  // ---------------------------------------------------------------------

  /** `posix_spawn_file_actions_adddup2(fd, newFd)`: in the child, newFd becomes a copy of fd. */
  datatype FileAction = Dup2(fd: Int32, newFd: nat)

  /** The stream the child sees as descriptor `target` (0 input, 1 output, 2 error). */
  function Stdio(p: Subprocess, target: nat): Option<FileDescriptor>
    requires target < 3
  {
    if target == 0 then p.standardInput
    else if target == 1 then p.standardOutput
    else p.standardError
  }

  function Dup2If(stream: Option<FileDescriptor>, target: nat): seq<FileAction> {
    if stream.Some? then [Dup2(stream.value.rawValue, target)] else []
  }

  /**
   * The redirections a launch should perform: one dup2 per stream that is
   * set, onto 0, 1 and 2 in that order, and none for a stream left nil.
   */
  function PlannedDup2s(p: Subprocess): (actions: seq<FileAction>)
    ensures |actions| <= 3
    ensures forall i :: 0 <= i < |actions| ==>
      actions[i].newFd < 3 && Stdio(p, actions[i].newFd) == Some(FileDescriptor(actions[i].fd))
    ensures forall i, j :: 0 <= i < j < |actions| ==> actions[i].newFd < actions[j].newFd
    ensures forall t :: 0 <= t < 3 && Stdio(p, t).Some? ==>
      exists i :: 0 <= i < |actions| && actions[i] == Dup2(Stdio(p, t).value.rawValue, t)
  {
    var actions := Dup2If(p.standardInput, 0) + Dup2If(p.standardOutput, 1) + Dup2If(p.standardError, 2);
    Dup2sTargets(p, actions);
    Dup2sCoverStreams(p, actions);
    actions
  }

  /** Each planned dup2 targets a standard descriptor whose stream it carries, in increasing order. */
  lemma Dup2sTargets(p: Subprocess, actions: seq<FileAction>)
    requires actions == Dup2If(p.standardInput, 0) + Dup2If(p.standardOutput, 1) + Dup2If(p.standardError, 2)
    ensures |actions| <= 3
    ensures forall i :: 0 <= i < |actions| ==>
      actions[i].newFd < 3 && Stdio(p, actions[i].newFd) == Some(FileDescriptor(actions[i].fd))
    ensures forall i, j :: 0 <= i < j < |actions| ==> actions[i].newFd < actions[j].newFd
  {
  }

  /** Every stream that is set has its dup2 among the planned ones. */
  lemma Dup2sCoverStreams(p: Subprocess, actions: seq<FileAction>)
    requires actions == Dup2If(p.standardInput, 0) + Dup2If(p.standardOutput, 1) + Dup2If(p.standardError, 2)
    ensures forall t :: 0 <= t < 3 && Stdio(p, t).Some? ==>
      exists i :: 0 <= i < |actions| && actions[i] == Dup2(Stdio(p, t).value.rawValue, t)
  {
    assert forall t :: 0 <= t < 3 && Stdio(p, t).Some? ==> Dup2(Stdio(p, t).value.rawValue, t) in actions;
  }

  /** A `posix_spawn_file_actions_t`, which `run()` initialises, fills and destroys. */
  class SpawnFileActions {
    var actions: seq<FileAction>
    var live: bool

    /** `posix_spawn_file_actions_init` */
    constructor Init()
      ensures actions == [] && live
    {
      actions := [];
      live := true;
    }

    /** `posix_spawn_file_actions_adddup2` */
    method AddDup2(fd: Int32, newFd: nat)
      requires live
      modifies this
      ensures actions == old(actions) + [Dup2(fd, newFd)] && live
    {
      actions := actions + [Dup2(fd, newFd)];
    }

    /** `posix_spawn_file_actions_destroy` */
    method Destroy()
      modifies this
      ensures actions == old(actions) && !live
    {
      live := false;
    }
  }

  /** The three optional dup2 calls of the macOS `run()`. */
  method AddStdioFileActions(p: Subprocess, fileActions: SpawnFileActions)
    requires fileActions.live
    modifies fileActions
    ensures fileActions.live
    ensures fileActions.actions == old(fileActions.actions) + PlannedDup2s(p)
  {
    if p.standardInput.Some? {
      fileActions.AddDup2(p.standardInput.value.rawValue, 0);
    }
    if p.standardOutput.Some? {
      fileActions.AddDup2(p.standardOutput.value.rawValue, 1);
    }
    if p.standardError.Some? {
      fileActions.AddDup2(p.standardError.value.rawValue, 2);
    }
  }

  // ---------------------------------------------------------------------
  // Spawn attributes (macOS)
  // ---------------------------------------------------------------------

  /** Darwin's flag bits and signal count. */
  const POSIX_SPAWN_SETSIGDEF: bv16 := 0x0004
  const POSIX_SPAWN_SETSIGMASK: bv16 := 0x0008
  const POSIX_SPAWN_CLOEXEC_DEFAULT: bv16 := 0x4000
  const NSIG: int := 32

  /** `CLOEXEC_DEFAULT | SETSIGMASK | SETSIGDEF`, passed through `Int16(flags)`. */
  const SpawnFlags: bv16 := POSIX_SPAWN_CLOEXEC_DEFAULT | POSIX_SPAWN_SETSIGMASK | POSIX_SPAWN_SETSIGDEF

  /** `sigfillset`: every signal number. */
  const AllSignals: set<int> := set s | 1 <= s < NSIG

  /**
   * A `posix_spawnattr_t` as the launch sees it: Unset is the nil handle
   * (no attribute object), Initialized holds flags, mask and default set.
   */
  datatype AttributeState =
    | Unset
    | Initialized(flags: bv16, sigmask: set<int>, sigdefault: set<int>)

  /** The attributes the macOS launch is written to request. */
  const IntendedAttributes: AttributeState := Initialized(SpawnFlags, {}, AllSignals)

  /** The flag word fits `Int16` and carries exactly the three requested bits. */
  lemma SpawnFlagsAreTheThreeRequestedBits()
    ensures SpawnFlags as int == 0x400C
    ensures SpawnFlags as int < 0x8000
  {
  }

  class SpawnAttributes {
    var state: AttributeState

    /** `var spawnAttributes: posix_spawnattr_t? = nil` */
    constructor Nil()
      ensures state == Unset
    {
      state := Unset;
    }

    /** `posix_spawnattr_init`: an attribute object holding the defaults. */
    method Init()
      modifies this
      ensures state == Initialized(0, {}, {})
    {
      state := Initialized(0, {}, {});
    }

    /** `posix_spawnattr_setsigmask`; Darwin refuses a nil handle with EINVAL. */
    method SetSigmask(mask: set<int>) returns (err: int)
      modifies this
      ensures old(state).Unset? ==> err == EINVAL && state == Unset
      ensures old(state).Initialized? ==> err == 0 && state == old(state).(sigmask := mask)
    {
      if state.Initialized? {
        state := state.(sigmask := mask);
        err := 0;
      } else {
        err := EINVAL;
      }
    }

    /** `posix_spawnattr_setsigdefault`; Darwin refuses a nil handle with EINVAL. */
    method SetSigdefault(signals: set<int>) returns (err: int)
      modifies this
      ensures old(state).Unset? ==> err == EINVAL && state == Unset
      ensures old(state).Initialized? ==> err == 0 && state == old(state).(sigdefault := signals)
    {
      if state.Initialized? {
        state := state.(sigdefault := signals);
        err := 0;
      } else {
        err := EINVAL;
      }
    }

    /** `posix_spawnattr_setflags`; Darwin refuses a nil handle with EINVAL. */
    method SetFlags(flags: bv16) returns (err: int)
      modifies this
      ensures old(state).Unset? ==> err == EINVAL && state == Unset
      ensures old(state).Initialized? ==> err == 0 && state == old(state).(flags := flags)
    {
      if state.Initialized? {
        state := state.(flags := flags);
        err := 0;
      } else {
        err := EINVAL;
      }
    }

    /** `posix_spawnattr_destroy`: releases the object; a nil handle gives EINVAL. */
    method Destroy() returns (err: int)
      modifies this
      ensures state == Unset
      ensures err == (if old(state).Unset? then EINVAL else 0)
    {
      err := if state.Unset? then EINVAL else 0;
      state := Unset;
    }
  }

  /**
   * The attribute set-up of the macOS `run()` as written: the handle starts
   * nil and is never initialised, so all three setters are refused and the
   * handle reaches `posix_spawn` still nil.
   */
  method ConfigureSpawnAttributesAsWritten(attributes: SpawnAttributes) returns (errors: seq<int>)
    requires attributes.state == Unset
    modifies attributes
    ensures attributes.state == Unset && attributes.state != IntendedAttributes
    ensures errors == [EINVAL, EINVAL, EINVAL]
  {
    var e1 := attributes.SetSigmask({});
    var e2 := attributes.SetSigdefault(AllSignals);
    var e3 := attributes.SetFlags(SpawnFlags);
    errors := [e1, e2, e3];
  }

  /**
   * The same set-up with the object initialised first: every call succeeds
   * and the child gets an empty mask, every signal at its default action and
   * the three flags.
   */
  method ConfigureSpawnAttributes(attributes: SpawnAttributes) returns (errors: seq<int>)
    modifies attributes
    ensures attributes.state == IntendedAttributes
    ensures attributes.state.sigmask == {} && attributes.state.sigdefault == AllSignals
    ensures attributes.state.flags == SpawnFlags
    ensures errors == [0, 0, 0, 0]
  {
    attributes.Init();
    var e1 := attributes.SetSigmask({});
    var e2 := attributes.SetSigdefault(AllSignals);
    var e3 := attributes.SetFlags(SpawnFlags);
    errors := [0, e1, e2, e3];
  }

  // ---------------------------------------------------------------------
  // argv and envp as C arrays
  // ---------------------------------------------------------------------

  /** A C `char *const[]`: each slot a string or NULL. */
  type CStringArray = seq<Option<string>>

  /**
   * The `[UnsafeMutablePointer<CChar>?]` array built as written: one `strdup`
   * per string and no slot after the last.
   */
  function CStringArrayAsWritten(strings: seq<string>): (a: CStringArray)
    ensures |a| == |strings|
    ensures forall i :: 0 <= i < |a| ==> a[i] == Some(strings[i])
  {
    if strings == [] then [] else [Some(strings[0])] + CStringArrayAsWritten(strings[1..])
  }

  /** The array `execve` and `posix_spawn` expect: the strings, then a NULL slot. */
  function NullTerminated(strings: seq<string>): (a: CStringArray)
    ensures |a| == |strings| + 1 && a[|strings|] == None
  {
    CStringArrayAsWritten(strings) + [None]
  }

  /**
   * The strings a C callee reads from an array: every slot before the first
   * NULL. None when the array holds no NULL, so the callee reads past its end.
   */
  function ReadUntilNull(a: CStringArray): (r: Option<seq<string>>)
    ensures r.Some? <==> None in a
    ensures r.Some? ==> |r.value| < |a| && a[|r.value|] == None
    ensures r.Some? ==> forall i :: 0 <= i < |r.value| ==> a[i] == Some(r.value[i])
  {
    if a == [] then None
    else if a[0].None? then Some([])
    else match ReadUntilNull(a[1..]) {
      case None => None
      case Some(rest) => Some([a[0].value] + rest)
    }
  }

  /** As written, the callee finds no end to argv or envp, whatever their strings. */
  lemma UnterminatedArrayHasNoEnd(strings: seq<string>)
    ensures ReadUntilNull(CStringArrayAsWritten(strings)) == None
  {
  }

  /** With a NULL slot appended, the callee reads back exactly the strings. */
  lemma NullTerminatedArrayReadsBack(strings: seq<string>)
    ensures ReadUntilNull(NullTerminated(strings)) == Some(strings)
  {
    var a := NullTerminated(strings);
    assert None in a by { assert a[|strings|] == None; }
    var read := ReadUntilNull(a).value;
    assert |read| == |strings|;
    forall i | 0 <= i < |read|
      ensures read[i] == strings[i]
    {
      assert a[i] == Some(read[i]);
      assert a[i] == Some(strings[i]);
    }
    assert read == strings;
  }

  // ---------------------------------------------------------------------
  // run() on macOS
  // ---------------------------------------------------------------------

  /** The arguments `_subprocess_spawn` receives; argv and envp are the arrays as built, without a NULL slot. */
  datatype PosixSpawnRequest = PosixSpawnRequest(
    path: string,
    fileActions: seq<FileAction>,
    attributes: AttributeState,
    argv: CStringArray,
    envp: CStringArray)

  /**
   * The macOS `run()`. `inherited` is the parent's environment; `outcome`
   * is what the spawn call does. A refused path makes no request; otherwise
   * the pid returned is whatever the call stored, 0 if it stored nothing,
   * whatever status it returned.
   */
  method Run(p: Subprocess, inherited: map<string, string>, outcome: LaunchOutcome)
    returns (r: Result<Int32, SubprocessError>, request: Option<PosixSpawnRequest>,
             ghost envEntries: seq<string>, ghost envOrder: seq<string>)
    ensures r.Failure? <==> Validate(p).Some?
    ensures r.Failure? ==> r.error == Validate(p).value && request == None
    ensures r.Success? ==> request.Some? && r.value == outcome.writtenPid.GetOr(0)
    ensures request.Some? ==>
      && request.value.path == p.executablePath
      && request.value.argv == CStringArrayAsWritten([p.executablePath] + p.arguments)
      && request.value.fileActions == PlannedDup2s(p)
      && request.value.attributes == Unset
      && request.value.envp == CStringArrayAsWritten(envEntries)
      && Serializes(Overlay(inherited, p.environments), envEntries, envOrder)
  {
    envEntries, envOrder := [], [];
    var invalid := Validate(p);
    if invalid.Some? {
      return Failure(invalid.value), None, envEntries, envOrder;
    }
    var env := MergeEnvironment(inherited, p.environments);
    var envp;
    envp, envOrder := SerializeEnvironment(env);
    envEntries := envp;
    var argv := BuildArguments(p.executablePath, p.arguments);
    assert argv == [p.executablePath] + p.arguments;

    var fileActions := new SpawnFileActions.Init();
    AddStdioFileActions(p, fileActions);

    var attributes := new SpawnAttributes.Nil();
    var _ := ConfigureSpawnAttributesAsWritten(attributes);

    request := Some(PosixSpawnRequest(p.executablePath, fileActions.actions, attributes.state,
                                      CStringArrayAsWritten(argv), CStringArrayAsWritten(envp)));
    var pid: Int32 := outcome.writtenPid.GetOr(0);

    var _ := attributes.Destroy();
    fileActions.Destroy();
    r := Success(pid);
  }
}
