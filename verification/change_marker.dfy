/**
 * `ChangeMarker` of packages/core/src/model/change-marker.ts: the four
 * flags a component or slot keeps about its changes (changed since it was
 * last rendered to the view, and to the output) and the events it emits.
 * The three event streams are modelled as one append-only log.
 */
module ChangeMarkers {

  /** The four flags, as one value. */
  datatype Flags = Flags(dirty: bool, changed: bool, outputDirty: bool, outputChanged: bool)

  /** A new marker has every flag set. */
  const Initial: Flags := Flags(true, true, true, true)

  /** What a marker emits: `onChange`, `onForceChange` and
      `onChildComponentRemoved`. */
  datatype Event<Op, C> = Change(op: Op) | ForceChange | ChildComponentRemoved(instance: C)

  /** The public operations of a marker. */
  datatype Action<Op, C> =
    | ForceMarkDirtied
    | ForceMarkChanged
    | MarkAsDirtied(op: Op)
    | MarkAsChanged(op: Op)
    | Rendered
    | OutputRendered
    | Reset
    | RecordComponentRemoved(instance: C)

  datatype Outcome<Op, C> = Outcome(flags: Flags, emitted: seq<Event<Op, C>>)

  /** A dirty marker is also changed, for the view and for the output
      alike: "dirty" marks a change of the marker's own content, "changed"
      one of its content or of something below it. */
  predicate Consistent(f: Flags)
  {
    (f.dirty ==> f.changed) && (f.outputDirty ==> f.outputChanged)
  }

  /** `forceMarkChanged`: raise `changed`, emitting `onForceChange`, unless
      it is already raised. */
  function RaiseChanged<Op, C>(f: Flags): Outcome<Op, C>
  {
    if f.changed then Outcome(f, []) else Outcome(f.(changed := true), [ForceChange])
  }

  /** `markAsChanged(op)`: raise both `changed` flags and emit `op`. */
  function MarkChanged<Op, C>(f: Flags, op: Op): Outcome<Op, C>
  {
    Outcome(f.(changed := true, outputChanged := true), [Change(op)])
  }

  /** One operation on the flags, and what it emits. */
  function Apply<Op, C>(f: Flags, a: Action<Op, C>): Outcome<Op, C>
  {
    match a
    case ForceMarkChanged => RaiseChanged(f)
    case ForceMarkDirtied => if f.dirty then Outcome(f, []) else RaiseChanged(f.(dirty := true))
    case MarkAsChanged(op) => MarkChanged(f, op)
    case MarkAsDirtied(op) => MarkChanged(f.(dirty := true, outputDirty := true), op)
    case Rendered => Outcome(f.(dirty := false, changed := false), [])
    case OutputRendered => Outcome(f.(outputDirty := false, outputChanged := false), [])
    case Reset => Outcome(Flags(true, true, true, true), [])
    case RecordComponentRemoved(instance) => Outcome(f, [ChildComponentRemoved(instance)])
  }

  /** A run of operations from flags `f`: the final flags and everything
      emitted, in order. */
  function Run<Op, C>(f: Flags, actions: seq<Action<Op, C>>): Outcome<Op, C>
  {
    if actions == [] then Outcome(f, [])
    else
      var before := Run(f, actions[..|actions| - 1]);
      var last := Apply(before.flags, actions[|actions| - 1]);
      Outcome(last.flags, before.emitted + last.emitted)
  }

  /** Every operation keeps the flags consistent. */
  lemma ApplyKeepsConsistent<Op, C>(f: Flags, a: Action<Op, C>)
    requires Consistent(f)
    ensures Consistent(Apply(f, a).flags)
  {
  }

  /** So does every run from a new marker. */
  lemma {:induction false} RunKeepsConsistent<Op, C>(actions: seq<Action<Op, C>>)
    ensures Consistent(Run(Initial, actions).flags)
  {
    if actions != [] {
      RunKeepsConsistent(actions[..|actions| - 1]);
      ApplyKeepsConsistent(Run(Initial, actions[..|actions| - 1]).flags, actions[|actions| - 1]);
    }
  }

  /** `forceMarkChanged` and `forceMarkDirtied` emit `onForceChange`
      exactly when they raise the `changed` flag, so a second call in a row
      emits nothing. */
  lemma ForceChangeOnlyOnRaise<Op, C>(f: Flags, a: Action<Op, C>)
    requires a == ForceMarkChanged || a == ForceMarkDirtied
    requires Consistent(f)
    ensures Apply(f, a).flags.changed
    ensures Apply(f, a).emitted == if f.changed then [] else [ForceChange]
    ensures Apply(Apply(f, a).flags, a).emitted == []
  {
  }

  /** `rendered` clears the view flags whatever they were, and leaves the
      output flags; `outputRendered` the other way round. */
  lemma RenderedClears<Op, C>(f: Flags)
    ensures var g := Apply<Op, C>(f, Rendered).flags;
            !g.dirty && !g.changed && g.outputDirty == f.outputDirty && g.outputChanged == f.outputChanged
    ensures var g := Apply<Op, C>(f, OutputRendered).flags;
            !g.outputDirty && !g.outputChanged && g.dirty == f.dirty && g.changed == f.changed
  {
  }

  /** The marking operations emit one `onChange` carrying their operation
      and leave both the view and the output flagged as changed. */
  lemma MarkEmitsChange<Op, C>(f: Flags, op: Op)
    ensures Apply<Op, C>(f, MarkAsChanged(op)).emitted == [Change(op)]
    ensures Apply<Op, C>(f, MarkAsDirtied(op)).emitted == [Change(op)]
    ensures Apply<Op, C>(f, MarkAsChanged(op)).flags.changed && Apply<Op, C>(f, MarkAsChanged(op)).flags.outputChanged
    ensures Apply<Op, C>(f, MarkAsDirtied(op)).flags == Initial
  {
  }

  /** Once its view flags are cleared, a marker reports `changed` again
      only after an operation that marks it, forces it or resets it. */
  lemma {:induction false} ChangedNeedsCause<Op, C>(f: Flags, actions: seq<Action<Op, C>>)
    requires !f.changed
    requires forall k :: 0 <= k < |actions| ==>
               actions[k].Rendered? || actions[k].OutputRendered? || actions[k].RecordComponentRemoved?
    ensures !Run(f, actions).flags.changed
    ensures forall k :: 0 <= k < |Run(f, actions).emitted| ==> Run(f, actions).emitted[k].ChildComponentRemoved?
  {
    if actions != [] {
      ChangedNeedsCause(f, actions[..|actions| - 1]);
    }
  }

  class ChangeMarker<Op, C> {
    var dirty: bool
    var changed: bool
    var outputDirty: bool
    var outputChanged: bool
    /** Everything emitted so far, in order. */
    var events: seq<Event<Op, C>>

    function State(): Flags
      reads this
    {
      Flags(dirty, changed, outputDirty, outputChanged)
    }

    /** The flags are consistent; every method keeps them so. */
    ghost predicate Valid()
      reads this
    {
      Consistent(State())
    }

    constructor ()
      ensures Valid()
      ensures State() == Initial && events == []
    {
      dirty, changed, outputDirty, outputChanged := true, true, true, true;
      events := [];
    }

    method ForceMarkDirtied()
      requires Valid()
      modifies this
      ensures Valid()
      ensures dirty && changed
      ensures outputDirty == old(outputDirty) && outputChanged == old(outputChanged)
      ensures events == old(events) + (if old(dirty) || old(changed) then [] else [ForceChange])
      ensures State() == Apply<Op, C>(old(State()), Action.ForceMarkDirtied).flags && events == old(events) + Apply<Op, C>(old(State()), Action.ForceMarkDirtied).emitted
    {
      if dirty {
        return;
      }
      dirty := true;
      ForceMarkChanged();
    }

    method ForceMarkChanged()
      requires outputDirty ==> outputChanged
      modifies this
      ensures Valid()
      ensures changed
      ensures dirty == old(dirty) && outputDirty == old(outputDirty) && outputChanged == old(outputChanged)
      ensures events == old(events) + (if old(changed) then [] else [ForceChange])
      ensures State() == Apply<Op, C>(old(State()), Action.ForceMarkChanged).flags && events == old(events) + Apply<Op, C>(old(State()), Action.ForceMarkChanged).emitted
    {
      if changed {
        return;
      }
      changed := true;
      events := events + [ForceChange];
    }

    method MarkAsDirtied(operation: Op)
      requires Valid()
      modifies this
      ensures Valid()
      ensures State() == Initial
      ensures events == old(events) + [Change(operation)]
      ensures State() == Apply<Op, C>(old(State()), Action.MarkAsDirtied(operation)).flags && events == old(events) + Apply<Op, C>(old(State()), Action.MarkAsDirtied(operation)).emitted
    {
      dirty := true;
      outputDirty := true;
      MarkAsChanged(operation);
    }

    method MarkAsChanged(operation: Op)
      modifies this
      ensures Valid()
      ensures changed && outputChanged
      ensures dirty == old(dirty) && outputDirty == old(outputDirty)
      ensures events == old(events) + [Change(operation)]
      ensures State() == Apply<Op, C>(old(State()), Action.MarkAsChanged(operation)).flags && events == old(events) + Apply<Op, C>(old(State()), Action.MarkAsChanged(operation)).emitted
    {
      changed := true;
      outputChanged := true;
      events := events + [Change(operation)];
    }

    method Rendered()
      requires Valid()
      modifies this
      ensures Valid()
      ensures !dirty && !changed
      ensures outputDirty == old(outputDirty) && outputChanged == old(outputChanged) && events == old(events)
      ensures State() == Apply<Op, C>(old(State()), Action.Rendered).flags && events == old(events) + Apply<Op, C>(old(State()), Action.Rendered).emitted
    {
      changed := false;
      dirty := changed;
    }

    method OutputRendered()
      requires Valid()
      modifies this
      ensures Valid()
      ensures !outputDirty && !outputChanged
      ensures dirty == old(dirty) && changed == old(changed) && events == old(events)
      ensures State() == Apply<Op, C>(old(State()), Action.OutputRendered).flags && events == old(events) + Apply<Op, C>(old(State()), Action.OutputRendered).emitted
    {
      outputChanged := false;
      outputDirty := outputChanged;
    }

    method Reset()
      requires Valid()
      modifies this
      ensures Valid()
      ensures State() == Initial && events == old(events)
      ensures State() == Apply<Op, C>(old(State()), Action.Reset).flags && events == old(events) + Apply<Op, C>(old(State()), Action.Reset).emitted
    {
      outputDirty := true;
      outputChanged := outputDirty;
      dirty := outputChanged;
      changed := dirty;
    }

    method RecordComponentRemoved(instance: C)
      requires Valid()
      modifies this
      ensures Valid()
      ensures State() == old(State())
      ensures events == old(events) + [ChildComponentRemoved(instance)]
      ensures State() == Apply<Op, C>(old(State()), Action.RecordComponentRemoved(instance)).flags && events == old(events) + Apply<Op, C>(old(State()), Action.RecordComponentRemoved(instance)).emitted
    {
      events := events + [ChildComponentRemoved(instance)];
    }
  }
}
