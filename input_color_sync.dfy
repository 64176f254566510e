/**
 * The initialisation and synchronisation logic of the color input
 * controller, as a state machine over the events that reach it: the
 * translation strings settle, the Pickr picker fires `init`, `save` or
 * `cancel`, an outside actor assigns the bound model, and Angular runs a
 * digest (which flushes `$evalAsync` and then evaluates `$watch`ers).
 *
 * The class in input_color.dfy performs the same transitions on fields;
 * this module gives them as a function so that lemmas can reason about
 * whole event sequences.
 */
module InputColorSync {

  import opened Options

  /** The value `Pickr.create` throws; the model carries it unopened. */
  datatype Exception = Exception(description: string)

  /** The injected picker library: whether `Pickr.create` succeeds in this
      environment, or what it throws (as it does in Internet Explorer). */
  datatype PickerLibrary = Supported | Unsupported(cause: Exception)

  /** The resolved `APP.ACTION_SAVE` and `APP.ACTION_CANCEL` strings. */
  datatype Labels = Labels(save: string, cancel: string)

  /** What the picker is created with, apart from fixed display settings. */
  datatype PickerConfig = PickerConfig(swatches: seq<string>, strings: Labels)

  /** A command the controller issues to the picker. */
  datatype Command = Hide | SetColor(color: Option<string>)

  /** An event emitted up the scope. */
  datatype ScopeEvent = GuacInputColorUnavailable(cause: Exception)

  datatype Event =
    | StringsRetrieved(labels: Labels)
    | StringsRejected
    | PickrInit
    | PickrSave(hex: string)
    | PickrCancel
    | ModelAssigned(value: Option<string>)
    | Digest

  /**
   * model, palette: the two-way bound scope values.
   * library: the injected picker library.
   * colorPickerUnavailable: the scope flag.
   * settled: the translation promise has resolved or been rejected.
   * picker: the picker created, with its configuration, if any.
   * watching: the `init` handler has installed the model watcher.
   * watchLast: the value the watcher last saw; None is Angular's
   *   "never evaluated" sentinel, so the first digest always calls it.
   * asyncQueue: the `$evalAsync` writes not yet flushed.
   * commands: the commands issued to the picker, in order.
   * emitted: the events emitted up the scope, in order.
   */
  datatype State = State(
    model: Option<string>,
    palette: Option<seq<string>>,
    library: PickerLibrary,
    colorPickerUnavailable: bool,
    settled: bool,
    picker: Option<PickerConfig>,
    watching: bool,
    watchLast: Option<Option<string>>,
    asyncQueue: seq<string>,
    commands: seq<Command>,
    emitted: seq<ScopeEvent>)

  datatype Phase = Loading | Available | Unavailable

  function PhaseOf(s: State): Phase {
    if s.picker.Some? then Available
    else if s.colorPickerUnavailable then Unavailable
    else Loading
  }

  /** The controller as it is constructed: nothing created, nothing emitted. */
  function Initial(model: Option<string>, palette: Option<seq<string>>, library: PickerLibrary): (s: State)
    ensures PhaseOf(s) == Loading && !s.colorPickerUnavailable && !s.settled
    ensures s.model == model && s.palette == palette && s.library == library
    ensures s.emitted == [] && s.commands == [] && s.asyncQueue == [] && !s.watching
  {
    State(model, palette, library, false, false, None, false, None, [], [], [])
  }

  /** `$scope.palette || []`. */
  function Swatches(palette: Option<seq<string>>): (swatches: seq<string>)
    ensures palette.Some? ==> swatches == palette.value
    ensures palette.None? ==> swatches == []
  {
    match palette
    case None => []
    case Some(p) => p
  }

  /** The model after the queued `$evalAsync` writes have run, in order,
      each assigning its color: the last write wins. */
  function Flushed(model: Option<string>, queue: seq<string>): (m: Option<string>)
    ensures queue == [] ==> m == model
    ensures queue != [] ==> m == Some(queue[|queue| - 1])
    decreases |queue|
  {
    if queue == [] then model else Flushed(Some(queue[0]), queue[1..])
  }

  /** The color the picker was last told to show, if it was told any. */
  function LastPushed(cs: seq<Command>): Option<Option<string>> {
    if cs == [] then None
    else if cs[|cs| - 1].SetColor? then Some(cs[|cs| - 1].color)
    else LastPushed(cs[..|cs| - 1])
  }

  predicate NoSetColor(cs: seq<Command>) {
    forall i :: 0 <= i < |cs| ==> cs[i].Hide?
  }

  /** The effect of one event. The library and palette never change; once
      the strings have settled, creation is never attempted again, so the
      picker, the flag and the emitted events stay as they are; and the
      model changes only by an outside assignment or by a digest that
      flushes queued saves. */
  function Step(s: State, e: Event): (t: State)
    ensures t.library == s.library && t.palette == s.palette
    ensures s.settled ==> t.settled
    ensures s.settled ==>
      t.picker == s.picker && t.colorPickerUnavailable == s.colorPickerUnavailable && t.emitted == s.emitted
    ensures !e.ModelAssigned? && !(e.Digest? && s.asyncQueue != []) ==> t.model == s.model
  {
    match e
    case StringsRetrieved(labels) =>
      if s.settled then s
      else (
        match s.library
        case Supported =>
          s.(settled := true, picker := Some(PickerConfig(Swatches(s.palette), labels)))
        case Unsupported(cause) =>
          s.(settled := true, colorPickerUnavailable := true,
             emitted := s.emitted + [GuacInputColorUnavailable(cause)]))
    case StringsRejected =>
      s.(settled := true)
    case PickrInit =>
      if s.picker.Some? && !s.watching then s.(watching := true) else s
    case PickrSave(hex) =>
      if s.picker.Some? then s.(asyncQueue := s.asyncQueue + [hex]) else s
    case PickrCancel =>
      if s.picker.Some? then s.(commands := s.commands + [Hide]) else s
    case ModelAssigned(v) =>
      s.(model := v)
    case Digest =>
      var m := Flushed(s.model, s.asyncQueue);
      if s.watching && s.watchLast != Some(m) then
        s.(model := m, asyncQueue := [], watchLast := Some(m), commands := s.commands + [SetColor(m)])
      else
        s.(model := m, asyncQueue := [])
  }

  function Run(s: State, es: seq<Event>): State
    decreases |es|
  {
    if es == [] then s else Run(Step(s, es[0]), es[1..])
  }

  /** The model as only outside assignments among `es` would leave it. */
  function ExternalWrites(model: Option<string>, es: seq<Event>): Option<string>
    decreases |es|
  {
    if es == [] then model
    else ExternalWrites(if es[0].ModelAssigned? then es[0].value else model, es[1..])
  }

  /** The invariant every reachable state keeps. */
  ghost predicate Valid(s: State) {
    && !(s.picker.Some? && s.colorPickerUnavailable)
    && (s.picker.Some? || s.colorPickerUnavailable ==> s.settled)
    && (s.picker.Some? ==> s.library.Supported?)
    && (s.colorPickerUnavailable ==>
          s.library.Unsupported? && s.emitted == [GuacInputColorUnavailable(s.library.cause)])
    && (!s.colorPickerUnavailable ==> s.emitted == [])
    && (s.picker.None? ==> !s.watching && s.asyncQueue == [] && s.commands == [])
    && (!s.watching ==> s.watchLast.None? && NoSetColor(s.commands))
    && s.watchLast == LastPushed(s.commands)
  }

  // ---------------------------------------------------------------------
  // Lemmas about the transition function.

  lemma LastPushedAppend(cs: seq<Command>, c: Command)
    ensures LastPushed(cs + [c]) == if c.SetColor? then Some(c.color) else LastPushed(cs)
  {
    assert (cs + [c])[..|cs|] == cs;
  }

  lemma {:induction false} NoSetColorNothingPushed(cs: seq<Command>)
    requires NoSetColor(cs)
    ensures LastPushed(cs) == None
    decreases |cs|
  {
    if cs != [] {
      NoSetColorNothingPushed(cs[..|cs| - 1]);
    }
  }

  lemma InitialValid(model: Option<string>, palette: Option<seq<string>>, library: PickerLibrary)
    ensures Valid(Initial(model, palette, library))
    ensures PhaseOf(Initial(model, palette, library)) == Loading
  {
  }

  lemma StepPreservesValid(s: State, e: Event)
    requires Valid(s)
    ensures Valid(Step(s, e))
  {
    var t := Step(s, e);
    if e.PickrCancel? && s.picker.Some? {
      LastPushedAppend(s.commands, Hide);
    } else if e.Digest? && t.commands != s.commands {
      LastPushedAppend(s.commands, t.commands[|t.commands| - 1]);
    } else if e.PickrInit? && t.watching && !s.watching {
      NoSetColorNothingPushed(s.commands);
    }
  }

  lemma {:induction false} RunPreservesValid(s: State, es: seq<Event>)
    requires Valid(s)
    ensures Valid(Run(s, es))
    ensures Run(s, es).library == s.library && Run(s, es).palette == s.palette
    decreases |es|
  {
    if es != [] {
      StepPreservesValid(s, es[0]);
      RunPreservesValid(Step(s, es[0]), es[1..]);
    }
  }

  /** At most one `guacInputColorUnavailable` event is ever emitted,
      carrying what `Pickr.create` threw, exactly when the picker is
      unavailable. */
  lemma AtMostOneUnavailableEvent(model: Option<string>, palette: Option<seq<string>>,
                                  library: PickerLibrary, es: seq<Event>)
    ensures var t := Run(Initial(model, palette, library), es);
      && |t.emitted| <= 1
      && (t.emitted != [] <==> t.colorPickerUnavailable)
      && (t.emitted != [] ==> library.Unsupported? && t.emitted[0] == GuacInputColorUnavailable(library.cause))
      && !(t.picker.Some? && t.colorPickerUnavailable)
  {
    RunPreservesValid(Initial(model, palette, library), es);
  }

  /** Once the strings have settled without a picker (construction threw, or
      the strings were rejected), nothing the picker or a digest does
      changes anything: no picker appears, no command is issued, no further
      event is emitted, and the model only ever holds what outside actors
      assign to it. */
  lemma {:induction false} NoPickerIsInert(s: State, es: seq<Event>)
    requires Valid(s) && s.settled && s.picker.None?
    ensures var t := Run(s, es);
      && t.picker.None?
      && t.colorPickerUnavailable == s.colorPickerUnavailable
      && t.emitted == s.emitted
      && t.commands == [] && t.asyncQueue == []
      && t.model == ExternalWrites(s.model, es)
    decreases |es|
  {
    if es != [] {
      StepPreservesValid(s, es[0]);
      NoPickerIsInert(Step(s, es[0]), es[1..]);
    }
  }

  /** When `Pickr.create` throws, the flag becomes true, exactly one event
      carrying the thrown value is emitted, the model is left as it was,
      and from then on the control never writes the model nor talks to a
      picker, whatever happens. */
  lemma ConstructionFailure(s: State, labels: Labels, cause: Exception, es: seq<Event>)
    requires Valid(s) && !s.settled && s.library == Unsupported(cause)
    ensures var u := Step(s, StringsRetrieved(labels));
      && PhaseOf(u) == Unavailable && u.colorPickerUnavailable
      && u.emitted == [GuacInputColorUnavailable(cause)]
      && u.model == s.model
      && var t := Run(u, es);
         && PhaseOf(t) == Unavailable
         && t.emitted == [GuacInputColorUnavailable(cause)]
         && t.commands == []
         && t.model == ExternalWrites(s.model, es)
  {
    var u := Step(s, StringsRetrieved(labels));
    StepPreservesValid(s, StringsRetrieved(labels));
    NoPickerIsInert(u, es);
  }

  /** When the strings are rejected nothing happens, then or later: the
      picker is never created, the flag stays false and nothing is emitted. */
  lemma StringsRejectedIsInert(s: State, es: seq<Event>)
    requires Valid(s) && !s.settled
    ensures var t := Run(Step(s, StringsRejected), es);
      && PhaseOf(t) == Loading
      && !t.colorPickerUnavailable
      && t.emitted == []
      && t.commands == []
      && t.model == ExternalWrites(s.model, es)
  {
    NoPickerIsInert(Step(s, StringsRejected), es);
  }

  /** Successful construction makes the picker available, with the palette
      (or no swatches) and the resolved strings, and it stays so: the same
      picker, never flagged unavailable, nothing emitted. */
  lemma {:induction false} AvailableIsTerminal(s: State, es: seq<Event>)
    requires Valid(s) && PhaseOf(s) == Available
    ensures var t := Run(s, es);
      && PhaseOf(t) == Available && t.picker == s.picker
      && !t.colorPickerUnavailable && t.emitted == []
    decreases |es|
  {
    if es != [] {
      StepPreservesValid(s, es[0]);
      AvailableIsTerminal(Step(s, es[0]), es[1..]);
    }
  }

  lemma ConstructionSuccess(s: State, labels: Labels)
    requires Valid(s) && !s.settled && s.library == Supported
    ensures var u := Step(s, StringsRetrieved(labels));
      && PhaseOf(u) == Available
      && u.picker == Some(PickerConfig(Swatches(s.palette), labels))
      && u.emitted == [] && u.model == s.model && u.commands == []
  {
  }

  /** A `save` does not write the model at once: it queues exactly one
      deferred write, and after the next digest the model is the saved
      color, which (once `init` has fired) the picker is then told to show. */
  lemma SaveIsDeferred(s: State, hex: string)
    requires Valid(s) && PhaseOf(s) == Available
    ensures var u := Step(s, PickrSave(hex));
      && u.model == s.model && u.asyncQueue == s.asyncQueue + [hex]
      && u.commands == s.commands
      && var t := Step(u, Digest);
         && t.model == Some(hex) && t.asyncQueue == []
         && (s.watching ==> LastPushed(t.commands) == Some(Some(hex)))
  {
    var u := Step(s, PickrSave(hex));
    var t := Step(u, Digest);
    if t.commands != u.commands {
      LastPushedAppend(u.commands, SetColor(Some(hex)));
    }
  }

  /** A `cancel` only hides the picker: with a picker it appends `Hide` to
      the commands and changes nothing else; without one it does nothing. */
  lemma CancelOnlyHides(s: State)
    ensures Step(s, PickrCancel) ==
      if PhaseOf(s) == Available then s.(commands := s.commands + [Hide]) else s
  {
  }

  /** Before `init` the picker is never told to show a color: if a run from
      a state without the watcher ends with a `setColor` pushed, then the
      run contains the picker's `init` event. */
  lemma {:induction false} SetColorOnlyAfterInit(s: State, es: seq<Event>)
    requires Valid(s) && !s.watching
    requires PickrInit !in es
    ensures NoSetColor(Run(s, es).commands) && !Run(s, es).watching
    decreases |es|
  {
    if es != [] {
      StepPreservesValid(s, es[0]);
      assert es[0] != PickrInit;
      var u := Step(s, es[0]);
      assert NoSetColor(u.commands) by {
        if es[0].PickrCancel? && s.picker.Some? {
          assert u.commands == s.commands + [Hide];
        }
      }
      assert PickrInit !in es[1..] by {
        forall i | 0 <= i < |es| - 1 ensures es[1..][i] != PickrInit {
          assert es[1..][i] == es[i + 1];
        }
      }
      SetColorOnlyAfterInit(u, es[1..]);
    }
  }

  /** After a digest the picker shows the model (once `init` has fired),
      and a second digest with nothing new changes nothing: pushing the
      model's own value again does not happen, so there is no feedback. */
  lemma DigestSynchronises(s: State)
    requires Valid(s) && s.watching
    ensures var t := Step(s, Digest);
      && t.asyncQueue == []
      && t.model == Flushed(s.model, s.asyncQueue)
      && LastPushed(t.commands) == Some(t.model)
      && Step(t, Digest) == t
  {
    var t := Step(s, Digest);
    if t.commands != s.commands {
      LastPushedAppend(s.commands, SetColor(t.model));
    }
  }

  /** The controller is the model's only other writer, and only through
      the deferred writes: a step that is not an outside assignment leaves
      the model alone unless it is a digest flushing queued saves. */
  lemma OnlyFlushWritesModel(s: State, e: Event)
    requires !e.ModelAssigned?
    requires !(e.Digest? && s.asyncQueue != [])
    ensures Step(s, e).model == s.model
  {
  }

  // ---------------------------------------------------------------------
  // Scenarios.

  /** Model `#112233`; strings resolve, the picker is created, the user
      saves `#AABBCC`: the model is `#AABBCC` after the next digest. */
  lemma SaveScenario(labels: Labels)
    ensures var s := Run(Initial(Some("#112233"), None, Supported),
                         [StringsRetrieved(labels), PickrInit, Digest, PickrSave("#AABBCC")]);
      && PhaseOf(s) == Available
      && s.model == Some("#112233")
      && s.commands == [SetColor(Some("#112233"))]
      && var t := Step(s, Digest);
         && t.model == Some("#AABBCC")
         && t.commands == [SetColor(Some("#112233")), SetColor(Some("#AABBCC"))]
  {
    var s0 := Initial(Some("#112233"), None, Supported);
    var s1 := Step(s0, StringsRetrieved(labels));
    var s2 := Step(s1, PickrInit);
    var s3 := Step(s2, Digest);
    assert s3.commands == [SetColor(Some("#112233"))];
    RunSteps4(s0, StringsRetrieved(labels), PickrInit, Digest, PickrSave("#AABBCC"));
  }

  lemma RunSteps4(s: State, e0: Event, e1: Event, e2: Event, e3: Event)
    ensures Run(s, [e0, e1, e2, e3]) == Step(Step(Step(Step(s, e0), e1), e2), e3)
  {
    var s1 := Step(s, e0);
    var s2 := Step(s1, e1);
    var s3 := Step(s2, e2);
    var s4 := Step(s3, e3);
    assert Run(s4, []) == s4;
    assert Run(s3, [e3]) == Run(s4, []);
    assert Run(s2, [e2, e3]) == Run(s3, [e3]) by { assert [e2, e3][1..] == [e3]; }
    assert Run(s1, [e1, e2, e3]) == Run(s2, [e2, e3]) by { assert [e1, e2, e3][1..] == [e2, e3]; }
    assert Run(s, [e0, e1, e2, e3]) == Run(s1, [e1, e2, e3]) by { assert [e0, e1, e2, e3][1..] == [e1, e2, e3]; }
  }

  /** `Pickr.create` throws `e`: the control is unavailable, the model is
      unchanged and the event fires once with `e`. */
  lemma FailureScenario(labels: Labels, e: Exception)
    ensures var s := Step(Initial(Some("#112233"), None, Unsupported(e)), StringsRetrieved(labels));
      && PhaseOf(s) == Unavailable
      && s.model == Some("#112233")
      && s.emitted == [GuacInputColorUnavailable(e)]
  {
  }
}
