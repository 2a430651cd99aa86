/**
 * The anti-cheat hook (opes-frontend-zip/hooks/useAntiCheat.js): six browser
 * listeners that turn leaving the tab, leaving the window and leaving
 * fullscreen into a warning followed by a violation report, and that block
 * the context menu, copy and paste; and the cleanup that removes them.
 */
module AntiCheat {
  import opened Text

  datatype Target = Document | Window

  /** A registration: the object listened on and the event type. */
  datatype Listener = Listener(target: Target, eventType: string)

  /** The browser events the hook listens to, with the state each handler reads. */
  datatype Event =
    | VisibilityChange(hidden: bool)
    | Blur
    | FullscreenChange(fullscreenElementPresent: bool)
    | ContextMenu
    | Copy
    | Paste

  /** What a handler does: setWarningMessage, reportViolation, or e.preventDefault(). */
  datatype Effect = Raise(message: string) | Report(message: string) | PreventDefault

  datatype Violation = LeftTab | SwitchedAway | ExitedFullscreen

  /** The text shown to the student. */
  function WarningText(v: Violation): string {
    match v
    case LeftTab => "You left the exam tab."
    case SwitchedAway => "You switched away from the exam window."
    case ExitedFullscreen => "You exited fullscreen mode."
  }

  /** The text sent to the backend. */
  function ReportText(v: Violation): string {
    match v
    case LeftTab => "The student left the exam tab."
    case SwitchedAway => "The student switched away from the exam window."
    case ExitedFullscreen => "The student exited fullscreen mode."
  }

  /** The six registrations the hook makes, copy and paste sharing one handler. */
  const Listeners: set<Listener> := {
    Listener(Document, "visibilitychange"),
    Listener(Window, "blur"),
    Listener(Document, "fullscreenchange"),
    Listener(Document, "contextmenu"),
    Listener(Document, "copy"),
    Listener(Document, "paste")
  }

  /** The type string the browser gives each kind of event. */
  function EventType(e: Event): string {
    match e
    case VisibilityChange(_) => "visibilitychange"
    case Blur => "blur"
    case FullscreenChange(_) => "fullscreenchange"
    case ContextMenu => "contextmenu"
    case Copy => "copy"
    case Paste => "paste"
  }

  /** The registration that receives an event: the one made for the event's own type. */
  function ListenerFor(e: Event): (l: Listener)
    ensures l in Listeners
    ensures l.eventType == EventType(e)
    ensures l.target == Window <==> e.Blur?
  {
    match e
    case VisibilityChange(_) => Listener(Document, "visibilitychange")
    case Blur => Listener(Window, "blur")
    case FullscreenChange(_) => Listener(Document, "fullscreenchange")
    case ContextMenu => Listener(Document, "contextmenu")
    case Copy => Listener(Document, "copy")
    case Paste => Listener(Document, "paste")
  }

  /** Each of the six registrations receives some event, so the six event kinds reach six different listeners. */
  lemma EveryListenerReached(l: Listener)
    requires l in Listeners
    ensures exists e :: ListenerFor(e) == l
  {
    if l == Listener(Document, "visibilitychange") {
      assert ListenerFor(VisibilityChange(true)) == l;
    } else if l == Listener(Window, "blur") {
      assert ListenerFor(Blur) == l;
    } else if l == Listener(Document, "fullscreenchange") {
      assert ListenerFor(FullscreenChange(true)) == l;
    } else if l == Listener(Document, "contextmenu") {
      assert ListenerFor(ContextMenu) == l;
    } else if l == Listener(Document, "copy") {
      assert ListenerFor(Copy) == l;
    } else {
      assert ListenerFor(Paste) == l;
    }
  }

  /** The violation an event amounts to: a hidden tab, a blur, or no fullscreen element left. */
  function ViolationOf(e: Event): (v: Option<Violation>)
    ensures v == Some(LeftTab) <==> e == VisibilityChange(true)
    ensures v == Some(SwitchedAway) <==> e == Blur
    ensures v == Some(ExitedFullscreen) <==> e == FullscreenChange(false)
  {
    match e
    case VisibilityChange(hidden) => if hidden then Some(LeftTab) else None
    case Blur => Some(SwitchedAway)
    case FullscreenChange(present) => if present then None else Some(ExitedFullscreen)
    case _ => None
  }

  /** The events whose default action the hook cancels. */
  predicate Blocked(e: Event) {
    e.ContextMenu? || e.Copy? || e.Paste?
  }

  /** Every report in the log comes right after a warning. */
  predicate WarnedBeforeReport(log: seq<Effect>) {
    forall j :: 0 <= j < |log| && log[j].Report? ==> j > 0 && log[j - 1].Raise?
  }

  /** A violation raises its warning, then reports it. */
  function WarnAndReport(v: Violation): (effects: seq<Effect>)
    ensures |effects| == 2 && effects[0].Raise? && effects[1].Report?
    ensures WarnedBeforeReport(effects)
    ensures CountReports(effects) == 1
  {
    var r := [Raise(WarningText(v)), Report(ReportText(v))];
    assert r[..1] == [r[0]] && r[..1][..0] == [];
    assert CountReports(r[..1]) == 0;
    r
  }

  /**
   * What the registered handler does with an event, in order. A violation
   * raises its warning and then reports it; a blocked event only has its
   * default action prevented; anything else has no effect.
   */
  function Reaction(e: Event): (effects: seq<Effect>)
    ensures |effects| <= 2
    ensures WarnedBeforeReport(effects)
    ensures CountReports(effects) == if ViolationOf(e).Some? then 1 else 0
    ensures PreventDefault in effects <==> Blocked(e)
  {
    assert [PreventDefault][..0] == [];
    match e
    case VisibilityChange(hidden) => if hidden then WarnAndReport(LeftTab) else []
    case Blur => WarnAndReport(SwitchedAway)
    case FullscreenChange(present) => if present then [] else WarnAndReport(ExitedFullscreen)
    case _ => [PreventDefault]
  }

  /** The effects of each event, for the cases the hook distinguishes. */
  lemma ReactionByEvent(e: Event)
    ensures Reaction(VisibilityChange(true)) == [Raise("You left the exam tab."), Report("The student left the exam tab.")]
    ensures Reaction(VisibilityChange(false)) == []
    ensures Reaction(Blur) == [Raise("You switched away from the exam window."), Report("The student switched away from the exam window.")]
    ensures Reaction(FullscreenChange(false)) == [Raise("You exited fullscreen mode."), Report("The student exited fullscreen mode.")]
    ensures Reaction(FullscreenChange(true)) == []
    ensures Blocked(e) ==> Reaction(e) == [PreventDefault]
  {
  }

  /** Appending what one event does keeps every report behind its warning. */
  lemma AppendReaction(log: seq<Effect>, e: Event)
    requires WarnedBeforeReport(log)
    ensures WarnedBeforeReport(log + Reaction(e))
  {
    var r := Reaction(e);
    var all := log + r;
    forall j | 0 <= j < |all| && all[j].Report?
      ensures j > 0 && all[j - 1].Raise?
    {
      if j >= |log| {
        assert all[j] == r[j - |log|];
        assert all[j - 1] == r[j - |log| - 1];
      }
    }
  }

  /** The effects of a sequence of events, with the handlers registered or not. */
  function Replay(listening: bool, events: seq<Event>): seq<Effect> {
    if |events| == 0 then []
    else Replay(listening, events[..|events| - 1]) + (if listening then Reaction(events[|events| - 1]) else [])
  }

  /** One more event appends its reaction, if the handlers are registered. */
  lemma ReplayStep(listening: bool, events: seq<Event>, i: nat)
    requires i < |events|
    ensures Replay(listening, events[..i + 1]) == Replay(listening, events[..i]) + (if listening then Reaction(events[i]) else [])
  {
    assert events[..i + 1][..i] == events[..i];
  }

  /** After cleanup no event has any effect. */
  lemma {:induction false} ReplayAfterCleanup(events: seq<Event>)
    ensures Replay(false, events) == []
  {
    if |events| > 0 {
      ReplayAfterCleanup(events[..|events| - 1]);
    }
  }

  /** However many events arrive, every report stays right behind a warning. */
  lemma {:induction false} ReplayKeepsOrder(log: seq<Effect>, listening: bool, events: seq<Event>)
    requires WarnedBeforeReport(log)
    ensures WarnedBeforeReport(log + Replay(listening, events))
  {
    if |events| > 0 {
      var prefix := events[..|events| - 1];
      ReplayKeepsOrder(log, listening, prefix);
      var before := log + Replay(listening, prefix);
      if listening {
        AppendReaction(before, events[|events| - 1]);
      }
      assert log + Replay(listening, events) == before + (if listening then Reaction(events[|events| - 1]) else []);
    }
  }

  function CountReports(log: seq<Effect>): nat {
    if |log| == 0 then 0 else CountReports(log[..|log| - 1]) + (if log[|log| - 1].Report? then 1 else 0)
  }

  function CountViolations(events: seq<Event>): nat {
    if |events| == 0 then 0
    else CountViolations(events[..|events| - 1]) + (if ViolationOf(events[|events| - 1]).Some? then 1 else 0)
  }

  lemma {:induction false} CountReportsAppend(a: seq<Effect>, b: seq<Effect>)
    ensures CountReports(a + b) == CountReports(a) + CountReports(b)
    decreases |b|
  {
    if |b| > 0 {
      assert (a + b)[..|a + b| - 1] == a + b[..|b| - 1];
      CountReportsAppend(a, b[..|b| - 1]);
    } else {
      assert a + b == a;
    }
  }

  /** While the handlers are registered, exactly one report is sent per violation. */
  lemma {:induction false} OneReportPerViolation(events: seq<Event>)
    ensures CountReports(Replay(true, events)) == CountViolations(events)
  {
    if |events| > 0 {
      var prefix, last := events[..|events| - 1], events[|events| - 1];
      OneReportPerViolation(prefix);
      CountReportsAppend(Replay(true, prefix), Reaction(last));
    }
  }

  /** The hook's state: the registrations in place and the effects so far, oldest first. */
  class AntiCheatHook {
    var listeners: set<Listener>
    var effects: seq<Effect>

    /** Either none or all six handlers are registered, and every report follows its warning. */
    ghost predicate Valid()
      reads this
    {
      (listeners == {} || listeners == Listeners) && WarnedBeforeReport(effects)
    }

    constructor ()
      ensures Valid() && listeners == {} && effects == []
    {
      listeners := {};
      effects := [];
    }

    /** The effect body: registers the six handlers. React runs the cleanup before it runs the body again. */
    method Mount()
      requires Valid() && listeners == {}
      modifies this`listeners
      ensures Valid() && listeners == Listeners
    {
      listeners := listeners + {Listener(Document, "visibilitychange")};
      listeners := listeners + {Listener(Window, "blur")};
      listeners := listeners + {Listener(Document, "fullscreenchange")};
      listeners := listeners + {Listener(Document, "contextmenu")};
      listeners := listeners + {Listener(Document, "copy")};
      listeners := listeners + {Listener(Document, "paste")};
    }

    /** The effect's cleanup: removes the six registrations the body made, and nothing else. */
    method Cleanup()
      requires Valid()
      modifies this`listeners
      ensures Valid() && listeners == {}
      ensures listeners == old(listeners) - Listeners
    {
      listeners := listeners - {Listener(Document, "visibilitychange")};
      listeners := listeners - {Listener(Window, "blur")};
      listeners := listeners - {Listener(Document, "fullscreenchange")};
      listeners := listeners - {Listener(Document, "contextmenu")};
      listeners := listeners - {Listener(Document, "copy")};
      listeners := listeners - {Listener(Document, "paste")};
    }

    /**
     * raise: the setWarningMessage callback. This and the next two methods are
     * only steps of the handlers below; called on their own they need not keep
     * Valid(), which is why none of them promises it.
     */
    method RaiseWarning(message: string)
      modifies this`effects
      ensures effects == old(effects) + [Raise(message)]
    {
      effects := effects + [Raise(message)];
    }

    /** The reportViolation callback, a step of a handler; only the moment it is called is modelled. */
    method SendReport(message: string)
      modifies this`effects
      ensures effects == old(effects) + [Report(message)]
    {
      effects := effects + [Report(message)];
    }

    /** e.preventDefault(), a step of a handler. */
    method PreventDefaultAction()
      modifies this`effects
      ensures effects == old(effects) + [PreventDefault]
    {
      effects := effects + [PreventDefault];
    }

    method HandleVisibilityChange(hidden: bool)
      requires Valid()
      modifies this`effects
      ensures Valid() && effects == old(effects) + Reaction(VisibilityChange(hidden))
    {
      AppendReaction(effects, VisibilityChange(hidden));
      if hidden {
        RaiseWarning("You left the exam tab.");
        SendReport("The student left the exam tab.");
      }
    }

    method HandleBlur()
      requires Valid()
      modifies this`effects
      ensures Valid() && effects == old(effects) + Reaction(Blur)
    {
      AppendReaction(effects, Blur);
      RaiseWarning("You switched away from the exam window.");
      SendReport("The student switched away from the exam window.");
    }

    method HandleFullscreenChange(fullscreenElementPresent: bool)
      requires Valid()
      modifies this`effects
      ensures Valid() && effects == old(effects) + Reaction(FullscreenChange(fullscreenElementPresent))
    {
      AppendReaction(effects, FullscreenChange(fullscreenElementPresent));
      if !fullscreenElementPresent {
        RaiseWarning("You exited fullscreen mode.");
        SendReport("The student exited fullscreen mode.");
      }
    }

    method HandleContextMenu()
      requires Valid()
      modifies this`effects
      ensures Valid() && effects == old(effects) + Reaction(ContextMenu)
    {
      PreventDefaultAction();
    }

    /** The one handler registered for both copy and paste. */
    method HandleCopyPaste()
      requires Valid()
      modifies this`effects
      ensures Valid()
      ensures effects == old(effects) + Reaction(Copy) && effects == old(effects) + Reaction(Paste)
    {
      PreventDefaultAction();
    }

    /** The browser delivering an event: the handler runs only while its registration is in place. */
    method Dispatch(e: Event)
      requires Valid()
      modifies this`effects
      ensures Valid()
      ensures effects == old(effects) + (if ListenerFor(e) in listeners then Reaction(e) else [])
    {
      if ListenerFor(e) in listeners {
        match e
        case VisibilityChange(hidden) => HandleVisibilityChange(hidden);
        case Blur => HandleBlur();
        case FullscreenChange(present) => HandleFullscreenChange(present);
        case ContextMenu => HandleContextMenu();
        case Copy => HandleCopyPaste();
        case Paste => HandleCopyPaste();
      }
    }

    /** A run of events delivered one after another. */
    method DispatchAll(events: seq<Event>)
      requires Valid()
      modifies this`effects
      ensures Valid()
      ensures effects == old(effects) + Replay(listeners == Listeners, events)
    {
      var listening := listeners == Listeners;
      var i := 0;
      while i < |events|
        invariant 0 <= i <= |events|
        invariant Valid()
        invariant effects == old(effects) + Replay(listening, events[..i])
      {
        ReplayStep(listening, events, i);
        assert ListenerFor(events[i]) in listeners <==> listening;
        Dispatch(events[i]);
        i := i + 1;
      }
      assert events[..|events|] == events;
    }
  }

  /**
   * A page that mounts the hook, receives some events, unmounts, and receives
   * more: only the events before the cleanup leave effects, and every report
   * in the log follows its warning.
   */
  method MountedThenCleanedUp(whileMounted: seq<Event>, afterCleanup: seq<Event>) returns (log: seq<Effect>)
    ensures log == Replay(true, whileMounted)
    ensures WarnedBeforeReport(log)
    ensures CountReports(log) == CountViolations(whileMounted)
  {
    var hook := new AntiCheatHook();
    hook.Mount();
    hook.DispatchAll(whileMounted);
    hook.Cleanup();
    hook.DispatchAll(afterCleanup);
    ReplayAfterCleanup(afterCleanup);
    log := hook.effects;
    assert [] + Replay(true, whileMounted) + [] == Replay(true, whileMounted);
    OneReportPerViolation(whileMounted);
  }
}
