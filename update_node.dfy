/** `update node` (src/cli/commands/update_node.rs): the run that moves a node list to the
    boot image of a CFS configuration and reboots it. Every backend answer is an input
    (`Backends`); every backend call, the operator prompt included, is an event appended to
    the run's trace, and the writes among them are the events the run must get right. */
module UpdateNode {
  import opened Wrappers
  import opened Process

  const RestartReason := "Update node boot params and/or desired configuration"

  /** Boot parameters of a node list, reduced to what the command reads and changes: the
      image the kernel, initrd and root filesystem point at (`get_boot_image`/`set_boot_image`). */
  datatype BootParameters = BootParameters(hosts: seq<string>, imageId: string)

  /** The command line's choices. The image id option of the command line is dropped: it
      is shadowed before any use. */
  datatype Args = Args(
    hsmGroupName: Option<string>,
    bootImageConfiguration: Option<string>,
    runtimeConfiguration: Option<string>,
    xnames: seq<string>)

  /** What the backends answer, each consulted at most once per run. */
  datatype Backends = Backends(
    xnamesValid: bool,                          // `validate_xnames` for the group
    runtimeConfigurations: Result<seq<string>>, // CFS configurations named like the runtime one
    imageIdOfConfiguration: Option<string>,     // image id resolved from the boot CFS configuration
    imageRecords: seq<string>,                  // ids of the IMS records returned for that id
    bootParameters: seq<BootParameters>,        // BSS answer for the node list
    confirmed: bool)                            // the operator's answer to the reboot prompt

  datatype Event =
    | ValidateXnames(xnames: seq<string>, hsmGroup: string)
    | GetConfigurations(name: Option<string>)
    | ResolveImageId(cfsConfiguration: string)
    | GetImages(imageId: string)
    | GetBootParameters(xnames: seq<string>)
    | AskConfirmation(xnames: seq<string>)
    | PatchBootParameters(params: BootParameters)
    | UpdateDesiredConfiguration(xnames: seq<string>, configuration: string, enabled: bool)
    | PowerOff(xnames: seq<string>, reason: string, force: bool)
    | PowerOn(xnames: seq<string>, reason: string)
  {
    /** Calls that change backend state. */
    predicate IsWrite()
    {
      PatchBootParameters? || UpdateDesiredConfiguration? || PowerOff? || PowerOn?
    }
  }

  /** The writes of a trace, in order. */
  function Writes(trace: seq<Event>): seq<Event>
  {
    if trace == [] then []
    else
      var last := trace[|trace| - 1];
      Writes(trace[..|trace| - 1]) + (if last.IsWrite() then [last] else [])
  }

  // ---------------------------------------------------------------------------------
  // The decisions of the run, stage by stage

  /** Group validation, run only when a group is given, lets the run go on. */
  predicate GroupCheckPasses(args: Args, b: Backends)
  {
    args.hsmGroupName.None? || b.xnamesValid
  }

  /** The runtime configuration lookup succeeded with at least one configuration. */
  predicate RuntimeConfigurationExists(b: Backends)
  {
    b.runtimeConfigurations.Ok? && b.runtimeConfigurations.value != []
  }

  /** The boot image configuration resolved to an image id that the image registry knows. */
  predicate BootImageResolved(b: Backends)
  {
    b.imageIdOfConfiguration.Some? && b.imageRecords != []
  }

  /** The run gets as far as reading the nodes' boot parameters. */
  predicate ReadsBootParameters(args: Args, b: Backends)
  {
    && GroupCheckPasses(args, b)
    && RuntimeConfigurationExists(b)
    && args.bootImageConfiguration.Some?
    && BootImageResolved(b)
  }

  /** The id of the first image record: the image the nodes are moved to. */
  function NewBootImageId(b: Backends): string
    requires b.imageRecords != []
  {
    b.imageRecords[0]
  }

  /** `need_restart`: a boot image configuration was given, and the image the nodes boot
      now differs from the resolved one. */
  predicate NeedRestart(args: Args, b: Backends)
    requires ReadsBootParameters(args, b) ==> b.bootParameters != []
  {
    ReadsBootParameters(args, b) && b.bootParameters[0].imageId != NewBootImageId(b)
  }

  /** The reads of a run that stops at the configuration lookup. */
  function ValidationCalls(args: Args): seq<Event>
  {
    if args.hsmGroupName.Some? then [ValidateXnames(args.xnames, args.hsmGroupName.value)] else []
  }

  /** The writes of a confirmed restart, in the order they are issued: the boot parameters
      moved to the new image, the desired configuration when one is given, then power-off
      and power-on of the same nodes. */
  function RestartWrites(args: Args, current: BootParameters, newBootImageId: string): seq<Event>
  {
    [PatchBootParameters(current.(imageId := newBootImageId))]
    + (if args.runtimeConfiguration.Some?
       then [UpdateDesiredConfiguration(args.xnames, args.runtimeConfiguration.value, true)]
       else [])
    + [PowerOff(args.xnames, RestartReason, true), PowerOn(args.xnames, RestartReason)]
  }

  /** No call of the trace changes backend state or asks the operator. */
  ghost predicate ReadOnly(trace: seq<Event>)
  {
    forall k :: 0 <= k < |trace| ==> !trace[k].IsWrite() && !trace[k].AskConfirmation?
  }

  // ---------------------------------------------------------------------------------
  // The run

  /** Lines 21-137 of `exec`: validation, the runtime configuration check, the boot image
      resolution and the `need_restart` decision. `stop` is the exit the run takes here,
      if any; `calls` are the backend reads made. */
  method Prepare(args: Args, b: Backends)
    returns (stop: Option<Outcome>, needRestart: bool, newBootImageIdOpt: Option<string>,
             nodeBootParamsOpt: Option<BootParameters>, calls: seq<Event>)
    requires args.runtimeConfiguration.Some?
    requires ReadsBootParameters(args, b) ==> b.bootParameters != []
    ensures ReadOnly(calls)
    ensures args.hsmGroupName.Some? <==> calls != [] && calls[0].ValidateXnames?
    ensures args.hsmGroupName.Some? ==> calls[0] == ValidateXnames(args.xnames, args.hsmGroupName.value)
    ensures !GroupCheckPasses(args, b) ==> calls == ValidationCalls(args)
    ensures GroupCheckPasses(args, b) && !RuntimeConfigurationExists(b) ==>
      calls == ValidationCalls(args) + [GetConfigurations(args.runtimeConfiguration)]
    ensures stop.Some? <==>
      || !GroupCheckPasses(args, b)
      || !RuntimeConfigurationExists(b)
      || (args.bootImageConfiguration.Some? && !BootImageResolved(b))
    ensures stop.Some? ==> stop.value == Exit1
    ensures needRestart <==> NeedRestart(args, b)
    ensures needRestart ==>
      newBootImageIdOpt == Some(NewBootImageId(b)) && nodeBootParamsOpt == Some(b.bootParameters[0])
  {
    needRestart := false;
    newBootImageIdOpt, nodeBootParamsOpt := None, None;
    calls := [];

    // The node list must belong to the group, when a group is given
    if args.hsmGroupName.Some? {
      calls := calls + [ValidateXnames(args.xnames, args.hsmGroupName.value)];
      if !b.xnamesValid {
        return Some(Exit1), false, None, None, calls;
      }
    }

    // The runtime configuration lookup must find at least one configuration
    calls := calls + [GetConfigurations(args.runtimeConfiguration)];
    if b.runtimeConfigurations.Err? || b.runtimeConfigurations.value == [] {
      return Some(Exit1), false, None, None, calls;
    }

    // Boot configuration -> image id -> first image record -> the nodes' current image
    if args.bootImageConfiguration.Some? {
      calls := calls + [ResolveImageId(args.bootImageConfiguration.value)];
      if b.imageIdOfConfiguration.None? {
        return Some(Exit1), false, None, None, calls;
      }
      calls := calls + [GetImages(b.imageIdOfConfiguration.value)];
      if b.imageRecords == [] {
        return Some(Exit1), false, None, None, calls;
      }
      var newBootImageId := b.imageRecords[0];
      calls := calls + [GetBootParameters(args.xnames)];
      var nodeBootParams := b.bootParameters[0];
      if nodeBootParams.imageId != newBootImageId {
        needRestart := true;
      }
      newBootImageIdOpt, nodeBootParamsOpt := Some(newBootImageId), Some(nodeBootParams);
    }
    stop := None;
  }

  /** Lines 154-237 of `exec`, after the operator confirmed: patch the boot parameters to
      the new image, set the desired configuration, power the nodes off (waiting for it)
      and on again, whatever the power-off call answered. */
  method RestartNodes(args: Args, nodeBootParams: BootParameters, newBootImageId: string)
    returns (issued: seq<Event>)
    ensures issued == RestartWrites(args, nodeBootParams, newBootImageId)
    ensures forall k :: 0 <= k < |issued| ==> issued[k].IsWrite()
  {
    issued := [];

    // The first write: boot parameters pointing at the new image
    var nodeBootParams := nodeBootParams.(imageId := newBootImageId);
    issued := issued + [PatchBootParameters(nodeBootParams)];

    // The second write, only with a runtime configuration: flag `true`
    if args.runtimeConfiguration.Some? {
      issued := issued + [UpdateDesiredConfiguration(args.xnames, args.runtimeConfiguration.value, true)];
    }

    // The power cycle of the same node list, power-on whatever power-off answered
    var nodes := args.xnames;
    issued := issued + [PowerOff(nodes, RestartReason, true)];
    issued := issued + [PowerOn(nodes, RestartReason)];
  }

  /** `exec`. The runtime configuration name must be given (the code unwraps it right
      after the lookup), and the boot parameter list must be non-empty when it is read
      (the code takes its first element). */
  method Exec(args: Args, b: Backends) returns (outcome: Outcome, trace: seq<Event>)
    requires args.runtimeConfiguration.Some?
    requires ReadsBootParameters(args, b) ==> b.bootParameters != []
    // validation comes first, and only with a group
    ensures args.hsmGroupName.Some? <==> trace != [] && trace[0].ValidateXnames?
    ensures args.hsmGroupName.Some? ==> trace[0] == ValidateXnames(args.xnames, args.hsmGroupName.value)
    ensures !GroupCheckPasses(args, b) ==> outcome == Exit1 && trace == ValidationCalls(args)
    // a missing runtime configuration stops the run after its lookup
    ensures GroupCheckPasses(args, b) && !RuntimeConfigurationExists(b) ==>
      outcome == Exit1 && trace == ValidationCalls(args) + [GetConfigurations(args.runtimeConfiguration)]
    // which runs end how
    ensures outcome == Exit1 <==>
      || !GroupCheckPasses(args, b)
      || !RuntimeConfigurationExists(b)
      || (args.bootImageConfiguration.Some? && !BootImageResolved(b))
    ensures outcome == Exit0 <==> NeedRestart(args, b) && !b.confirmed
    // the prompt is shown exactly when a restart is needed, and no write precedes it
    ensures AskConfirmation(args.xnames) in trace <==> NeedRestart(args, b)
    ensures forall i, j :: 0 <= i < j < |trace| && trace[i].IsWrite() ==>
      trace[j].IsWrite() && !trace[j].AskConfirmation?
    // the writes
    ensures Writes(trace) != [] <==> NeedRestart(args, b) && b.confirmed
    ensures NeedRestart(args, b) && b.confirmed ==>
      outcome == Done && Writes(trace) == RestartWrites(args, b.bootParameters[0], NewBootImageId(b))
  {
    var stop, needRestart, newBootImageIdOpt, nodeBootParamsOpt, calls := Prepare(args, b);
    ReadOnlyTrace(calls);
    if stop.Some? {
      return stop.value, calls;
    }
    if needRestart {
      trace := calls + [AskConfirmation(args.xnames)];
      ReadsThenPrompt(calls, args.xnames);
      if !b.confirmed {
        return Exit0, trace;
      }
      var issued := RestartNodes(args, nodeBootParamsOpt.value, newBootImageIdOpt.value);
      ReadsThenWrites(trace, issued);
      trace := trace + issued;
    } else {
      trace := calls;
    }
    outcome := Done;
  }

  // ---------------------------------------------------------------------------------
  // Lemmas about traces

  lemma {:induction false} WritesConcat(a: seq<Event>, b: seq<Event>)
    ensures Writes(a + b) == Writes(a) + Writes(b)
    decreases |b|
  {
    if b != [] {
      var b' := b[..|b| - 1];
      assert (a + b)[..|a + b| - 1] == a + b';
      WritesConcat(a, b');
    } else {
      assert a + b == a;
    }
  }

  lemma {:induction false} WritesOfReads(trace: seq<Event>)
    requires forall k :: 0 <= k < |trace| ==> !trace[k].IsWrite()
    ensures Writes(trace) == []
  {
    if trace != [] {
      WritesOfReads(trace[..|trace| - 1]);
    }
  }

  /** A read-only trace has no writes and no prompt. */
  lemma ReadOnlyTrace(trace: seq<Event>)
    requires ReadOnly(trace)
    ensures Writes(trace) == []
    ensures forall e :: e in trace ==> !e.AskConfirmation?
  {
    WritesOfReads(trace);
  }

  /** Reads followed by the prompt: still no writes, and the prompt is in the trace. */
  lemma ReadsThenPrompt(calls: seq<Event>, xnames: seq<string>)
    requires ReadOnly(calls)
    ensures forall k :: 0 <= k < |calls + [AskConfirmation(xnames)]| ==> !(calls + [AskConfirmation(xnames)])[k].IsWrite()
    ensures Writes(calls + [AskConfirmation(xnames)]) == []
  {
    WritesOfReads(calls + [AskConfirmation(xnames)]);
  }

  /** A trace of reads followed by writes: its writes are the second part, and no read or
      prompt follows a write. */
  lemma ReadsThenWrites(readCalls: seq<Event>, issued: seq<Event>)
    requires forall k :: 0 <= k < |readCalls| ==> !readCalls[k].IsWrite()
    requires forall k :: 0 <= k < |issued| ==> issued[k].IsWrite()
    ensures Writes(readCalls + issued) == issued
    ensures forall i, j :: 0 <= i < j < |readCalls + issued| && (readCalls + issued)[i].IsWrite() ==>
      (readCalls + issued)[j].IsWrite() && !(readCalls + issued)[j].AskConfirmation?
  {
    WritesOfReadsThenWrites(readCalls, issued);
    WritesFollowWrites(readCalls, issued);
  }

  lemma WritesOfReadsThenWrites(readCalls: seq<Event>, issued: seq<Event>)
    requires forall k :: 0 <= k < |readCalls| ==> !readCalls[k].IsWrite()
    requires forall k :: 0 <= k < |issued| ==> issued[k].IsWrite()
    ensures Writes(readCalls + issued) == issued
  {
    WritesConcat(readCalls, issued);
    WritesOfReads(readCalls);
    WritesOfWrites(issued);
  }

  lemma WritesFollowWrites(readCalls: seq<Event>, issued: seq<Event>)
    requires forall k :: 0 <= k < |readCalls| ==> !readCalls[k].IsWrite()
    requires forall k :: 0 <= k < |issued| ==> issued[k].IsWrite()
    ensures forall i, j :: 0 <= i < j < |readCalls + issued| && (readCalls + issued)[i].IsWrite() ==>
      (readCalls + issued)[j].IsWrite() && !(readCalls + issued)[j].AskConfirmation?
  {
    var trace := readCalls + issued;
    assert forall k :: 0 <= k < |readCalls| ==> !trace[k].IsWrite() by {
      assert forall k :: 0 <= k < |readCalls| ==> trace[k] == readCalls[k];
    }
    assert forall k :: |readCalls| <= k < |trace| ==> trace[k].IsWrite() by {
      assert forall k :: |readCalls| <= k < |trace| ==> trace[k] == issued[k - |readCalls|];
    }
    WritesLast(trace, |readCalls|);
  }

  /** In a trace whose writes form a suffix, nothing but writes follows a write. */
  lemma WritesLast(trace: seq<Event>, n: int)
    requires 0 <= n <= |trace|
    requires forall k :: 0 <= k < n ==> !trace[k].IsWrite()
    requires forall k :: n <= k < |trace| ==> trace[k].IsWrite()
    ensures forall i, j :: 0 <= i < j < |trace| && trace[i].IsWrite() ==>
      trace[j].IsWrite() && !trace[j].AskConfirmation?
  {
    forall i, j | 0 <= i < j < |trace| && trace[i].IsWrite()
      ensures trace[j].IsWrite() && !trace[j].AskConfirmation?
    {
      assert n <= i;
    }
  }

  lemma {:induction false} WritesOfWrites(trace: seq<Event>)
    requires forall k :: 0 <= k < |trace| ==> trace[k].IsWrite()
    ensures Writes(trace) == trace
  {
    if trace != [] {
      var init := trace[..|trace| - 1];
      WritesOfWrites(init);
      assert init + [trace[|trace| - 1]] == trace;
    }
  }
}
