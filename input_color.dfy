/**
 * The controller of the `guacInputColor` directive as an object whose
 * fields the event handlers update in place. Each method is one event
 * reaching the controller and is proved to perform exactly the transition
 * `InputColorSync.Step` gives for that event, so every lemma about runs of
 * `Step` holds of the object too.
 */
module InputColor {

  import opened Options
  import ColorContrast
  import opened InputColorSync

  class ColorInput {
    /** `$scope.model`, two-way bound. */
    var model: Option<string>
    /** `$scope.palette`, two-way bound, read once when the picker is created. */
    const palette: Option<seq<string>>
    /** The injected picker library standing for the global `Pickr`. */
    const library: PickerLibrary
    /** `$scope.colorPickerUnavailable`. */
    var colorPickerUnavailable: bool
    var settled: bool
    var picker: Option<PickerConfig>
    var watching: bool
    var watchLast: Option<Option<string>>
    var asyncQueue: seq<string>
    var commands: seq<Command>
    var emitted: seq<ScopeEvent>

    function Snapshot(): State
      reads this
    {
      State(model, palette, library, colorPickerUnavailable, settled, picker,
            watching, watchLast, asyncQueue, commands, emitted)
    }

    ghost predicate Valid()
      reads this
    {
      InputColorSync.Valid(Snapshot())
    }

    /** `$scope.isDark()`, evaluated on the current model. */
    function IsDark(): (dark: bool)
      reads this
      ensures dark <==>
        model.Some? && ColorContrast.ParseColor(model.value).Some? &&
        ColorContrast.ScaledLuminance(ColorContrast.ParseColor(model.value).value) <= ColorContrast.ScaledDarkLimit
    {
      ColorContrast.IsDarkScaled(model);
      ColorContrast.IsDark(model)
    }

    /** The controller runs: the flag starts false and the strings are requested. */
    constructor (model: Option<string>, palette: Option<seq<string>>, library: PickerLibrary)
      ensures Snapshot() == Initial(model, palette, library)
      ensures Valid()
    {
      this.model := model;
      this.palette := palette;
      this.library := library;
      colorPickerUnavailable := false;
      settled := false;
      picker := None;
      watching := false;
      watchLast := None;
      asyncQueue := [];
      commands := [];
      emitted := [];
    }

    /** `stringsRetrieved`: try `Pickr.create`; on success wire the
        handlers, otherwise set the flag and emit the thrown value. */
    method StringsRetrieved(labels: Labels)
      requires Valid()
      modifies this
      ensures Snapshot() == Step(old(Snapshot()), InputColorSync.StringsRetrieved(labels))
      ensures Valid()
    {
      StepPreservesValid(Snapshot(), InputColorSync.StringsRetrieved(labels));
      if settled {
        return;
      }
      settled := true;
      match library {
        case Supported =>
          picker := Some(PickerConfig(Swatches(palette), labels));
        case Unsupported(cause) =>
          colorPickerUnavailable := true;
          emitted := emitted + [GuacInputColorUnavailable(cause)];
      }
    }

    /** The rejection handler, `angular.noop`: only the promise settles. */
    method StringsRejected()
      requires Valid()
      modifies this
      ensures Snapshot() == Step(old(Snapshot()), InputColorSync.StringsRejected)
      ensures Valid()
    {
      StepPreservesValid(Snapshot(), InputColorSync.StringsRejected);
      settled := true;
    }

    /** `pickrReady`: the picker's `init` installs the model watcher. */
    method PickrReady()
      requires Valid()
      modifies this
      ensures Snapshot() == Step(old(Snapshot()), PickrInit)
      ensures Valid()
    {
      StepPreservesValid(Snapshot(), PickrInit);
      if picker.Some? && !watching {
        watching := true;
      }
    }

    /** `colorChanged`: the picker's `save` defers the model write with
        `$evalAsync`; `hex` is `color.toHEXA().toString()`. */
    method ColorChanged(hex: string)
      requires Valid()
      modifies this
      ensures Snapshot() == Step(old(Snapshot()), PickrSave(hex))
      ensures Valid()
    {
      StepPreservesValid(Snapshot(), PickrSave(hex));
      if picker.Some? {
        asyncQueue := asyncQueue + [hex];
      }
    }

    /** `colorChangeCanceled`: the picker's `cancel` hides it. */
    method ColorChangeCanceled()
      requires Valid()
      modifies this
      ensures Snapshot() == Step(old(Snapshot()), PickrCancel)
      ensures Valid()
    {
      StepPreservesValid(Snapshot(), PickrCancel);
      if picker.Some? {
        commands := commands + [Hide];
      }
    }

    /** Some other part of the application assigns the bound model. */
    method AssignModel(value: Option<string>)
      requires Valid()
      modifies this
      ensures Snapshot() == Step(old(Snapshot()), ModelAssigned(value))
      ensures Valid()
    {
      StepPreservesValid(Snapshot(), ModelAssigned(value));
      model := value;
    }

    /** `updateModel`: one deferred write. */
    method UpdateModel(hex: string)
      modifies this`model
      ensures model == Some(hex)
    {
      model := Some(hex);
    }

    /** `modelChanged`: the watch listener pushes the model into the picker. */
    method ModelChanged(value: Option<string>)
      modifies this`commands
      ensures commands == old(commands) + [SetColor(value)]
    {
      commands := commands + [SetColor(value)];
    }

    /** A digest: run the `$evalAsync` queue in order, then evaluate the
        model watcher (if installed), calling it when the model differs from
        what it last saw. */
    method Digest()
      requires Valid()
      modifies this
      ensures Snapshot() == Step(old(Snapshot()), InputColorSync.Digest)
      ensures Valid()
    {
      StepPreservesValid(Snapshot(), InputColorSync.Digest);
      var queue := asyncQueue;
      var i := 0;
      while i < |queue|
        invariant 0 <= i <= |queue|
        invariant model == Flushed(old(model), queue[..i])
        invariant Snapshot() == old(Snapshot()).(model := model)
      {
        UpdateModel(queue[i]);
        i := i + 1;
      }
      asyncQueue := [];
      assert queue[..i] == old(asyncQueue);
      if watching && watchLast != Some(model) {
        watchLast := Some(model);
        ModelChanged(model);
      }
    }
  }

  /** A client of the class: the save scenario, proved from the method
      contracts alone. */
  method SaveThroughController(labels: Labels)
  {
    var c := new ColorInput(Some("#112233"), None, Supported);
    c.StringsRetrieved(labels);
    assert c.picker.Some?;
    c.PickrReady();
    c.Digest();
    assert c.commands == [SetColor(Some("#112233"))];
    c.ColorChanged("#AABBCC");
    assert c.model == Some("#112233");
    c.Digest();
    assert c.model == Some("#AABBCC");
    assert c.commands == [SetColor(Some("#112233")), SetColor(Some("#AABBCC"))];
    c.ColorChangeCanceled();
    assert c.model == Some("#AABBCC");
  }

  /** A client of the class: construction fails and the control stays a
      read-only preview whatever the picker would do. */
  method FailureThroughController(labels: Labels, e: Exception)
  {
    var c := new ColorInput(Some("#112233"), None, Unsupported(e));
    c.StringsRetrieved(labels);
    assert c.colorPickerUnavailable && c.emitted == [GuacInputColorUnavailable(e)];
    c.PickrReady();
    c.ColorChanged("#AABBCC");
    c.Digest();
    assert c.model == Some("#112233");
    assert c.emitted == [GuacInputColorUnavailable(e)] && c.commands == [];
  }
}
