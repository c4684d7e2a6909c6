/** Keyboard and pointer grabbing of one connection window (GTK 3.20 and later), with its two timers as
    pending sources of the main loop. What the window system answers, and what the tab in view asks for, are
    inputs of the events. */
module GrabMachine {

  /** What asking for the keyboard comes to. */
  datatype Answer = NoDevice | Refused | Granted

  datatype Timer = Retry | Delayed

  datatype Crossing = Normal | Ungrab | OtherMode

  datatype Event =
    | EnterWidget(mode: Crossing, connected: bool, wanted: bool, active: bool, keyboard: Answer, pointer: bool)
    | LeaveWidget(mode: Crossing, inferior: bool)
    | LeaveWindow(mode: Crossing)
    | FocusIn(connected: bool, wanted: bool)
    | FocusOut
    | TimerFires(id: nat, keyboard: Answer, pointer: bool)
    | ToolbarGrab(capture: bool, connected: bool, keyboard: Answer, pointer: bool)
    | Connects(wanted: bool, active: bool, keyboard: Answer, pointer: bool)
    | Disconnects
    | Destroyed

  predicate Crosses(e: Event) {
    e.EnterWidget? || e.LeaveWidget?
  }

  /** Of the first n events the last one to cross the border of the protocol widget enters it, or none does and
      the pointer was inside. */
  ghost predicate LastIsEntry(inside: bool, events: seq<Event>, n: nat)
    requires n <= |events|
  {
    || (inside && forall i :: 0 <= i < n ==> !Crosses(events[i]))
    || exists i :: 0 <= i < n && events[i].EnterWidget? && forall j :: i < j < n ==> !Crosses(events[j])
  }

  lemma EntryStep(inside: bool, events: seq<Event>, n: nat)
    requires n < |events|
    ensures LastIsEntry(inside, events, n + 1)
            <==> events[n].EnterWidget? || (LastIsEntry(inside, events, n) && !events[n].LeaveWidget?)
  {
    if i :| 0 <= i < n && events[i].EnterWidget? && forall j :: i < j < n ==> !Crosses(events[j]) {
      assert !Crosses(events[n]) ==> forall j :: i < j < n + 1 ==> !Crosses(events[j]);
    }
  }

  class ConnectionWindow {
    var kbcaptured: bool
    var pointerCaptured: bool
    var pointerEntered: bool
    var grabRetryId: nat
    var delayedGrabId: nat
    var sources: map<nat, Timer>
    var lastId: nat
    ghost var requests: nat
    ghost var attempts: nat
    ghost var pointerUngrabs: nat

    /** The two id fields are exactly the window's pending timers. */
    ghost predicate TimersMatch()
      reads this
    {
      && (grabRetryId == 0 || delayedGrabId != grabRetryId)
      && (forall id :: id in sources <==> id != 0 && (id == grabRetryId || id == delayedGrabId))
      && (grabRetryId != 0 ==> sources[grabRetryId] == Retry)
      && (delayedGrabId != 0 ==> sources[delayedGrabId] == Delayed)
      && grabRetryId <= lastId && delayedGrabId <= lastId
    }

    ghost predicate Valid()
      reads this
    {
      && TimersMatch()
      && (kbcaptured ==> grabRetryId == 0)
      && pointerUngrabs == 0
      && attempts + (if grabRetryId != 0 then 1 else 0) <= 2 * requests
    }

    ghost predicate Released()
      reads this
    {
      !kbcaptured && !pointerCaptured && sources == map[]
    }

    constructor ()
      ensures Valid() && Released() && !pointerEntered && requests == attempts == 0
    {
      kbcaptured, pointerCaptured, pointerEntered := false, false, false;
      grabRetryId, delayedGrabId, lastId, sources := 0, 0, 0, map[];
      requests, attempts, pointerUngrabs := 0, 0, 0;
    }

    // -------------------------------------------------------------- grabbing and ungrabbing

    /** g_timeout_add: ids are never 0 and never reused. */
    method AddTimer(timer: Timer) returns (id: nat)
      requires forall i :: i in sources ==> i <= lastId
      modifies this`sources, this`lastId
      ensures id == lastId == old(lastId) + 1 && sources == old(sources)[id := timer]
    {
      lastId := lastId + 1;
      id := lastId;
      sources := sources[id := timer];
    }

    /** rcw_kp_ungrab */
    method KpUngrab()
      requires TimersMatch()
      modifies this`kbcaptured, this`pointerCaptured, this`grabRetryId, this`delayedGrabId, this`sources
      ensures TimersMatch() && Released() && grabRetryId == delayedGrabId == 0
    {
      if grabRetryId != 0 {
        sources := sources - {grabRetryId};
        grabRetryId := 0;
      }
      if delayedGrabId != 0 {
        sources := sources - {delayedGrabId};
        delayedGrabId := 0;
      }
      if !kbcaptured && !pointerCaptured {
        return;
      }
      kbcaptured := false;
      pointerCaptured := false;
    }

    /** rcw_keyboard_grab: a refusal leaves a retry pending, success leaves none. */
    method KeyboardGrab(answer: Answer)
      requires TimersMatch()
      modifies this`kbcaptured, this`pointerCaptured, this`grabRetryId, this`delayedGrabId, this`sources
      modifies this`lastId, this`attempts
      ensures TimersMatch()
      ensures attempts == old(attempts) + if old(kbcaptured) || answer.NoDevice? then 0 else 1
      ensures old(kbcaptured) ==> unchanged(this)
      ensures !old(kbcaptured) && answer.NoDevice? ==> Released() && grabRetryId == delayedGrabId == 0
      ensures !old(kbcaptured) && answer.Refused? ==>
                !kbcaptured && grabRetryId != 0 && (old(grabRetryId) != 0 ==> grabRetryId == old(grabRetryId))
      ensures !old(kbcaptured) && answer.Granted? ==> kbcaptured && grabRetryId == 0
      ensures !answer.NoDevice? ==> delayedGrabId == old(delayedGrabId) && pointerCaptured == old(pointerCaptured)
    {
      if kbcaptured {
        return;
      }
      match answer {
        case NoDevice =>
          KpUngrab();
        case Refused =>
          attempts := attempts + 1;
          if grabRetryId == 0 {
            grabRetryId := AddTimer(Retry);
          }
        case Granted =>
          attempts := attempts + 1;
          if grabRetryId != 0 {
            sources := sources - {grabRetryId};
            grabRetryId := 0;
          }
          kbcaptured := true;
      }
    }

    /** rcw_pointer_grab */
    method PointerGrab(granted: bool)
      requires Valid()
      modifies this`pointerCaptured
      ensures Valid() && pointerCaptured == (old(pointerCaptured) || granted)
    {
      if pointerCaptured {
        return;
      }
      if granted {
        pointerCaptured := true;
      }
    }

    /** rcw_pointer_ungrab. Its callers all release the keyboard and the pointer first, so it never comes to
        ungrab anything. */
    method PointerUngrab()
      modifies this`pointerUngrabs
      ensures pointerUngrabs == old(pointerUngrabs) + if pointerCaptured then 1 else 0
    {
      if !pointerCaptured {
        return;
      }
      pointerUngrabs := pointerUngrabs + 1;
    }

    /** A grab that is asked for, as opposed to a retry. */
    method RequestGrab(keyboard: Answer)
      requires Valid()
      modifies this`kbcaptured, this`pointerCaptured, this`grabRetryId, this`delayedGrabId, this`sources
      modifies this`lastId, this`attempts, this`requests
      ensures Valid() && requests == old(requests) + 1
      ensures kbcaptured <==> old(kbcaptured) || keyboard.Granted?
      ensures !old(kbcaptured) && keyboard.NoDevice? ==> Released()
      ensures !keyboard.NoDevice? || old(kbcaptured) ==>
                delayedGrabId == old(delayedGrabId) && pointerCaptured == old(pointerCaptured)
      ensures !old(kbcaptured) && keyboard.Refused? ==> grabRetryId != 0
    {
      requests := requests + 1;
      KeyboardGrab(keyboard);
    }

    // -------------------------------------------------------------- timers

    /** rcw_keyboard_grab_retry: the one try a refused request gets; it schedules no other. */
    method KeyboardGrabRetry(keyboard: Answer)
      requires Valid() && grabRetryId != 0
      modifies this`kbcaptured, this`pointerCaptured, this`grabRetryId, this`delayedGrabId, this`sources
      modifies this`lastId, this`attempts
      ensures Valid() && grabRetryId == 0 && attempts <= old(attempts) + 1
      ensures kbcaptured <==> keyboard.Granted?
    {
      var id := grabRetryId;
      KeyboardGrab(keyboard);
      grabRetryId := 0;
      sources := sources - {id};
    }

    /** focus_in_delayed_grab */
    method FocusInDelayedGrab(keyboard: Answer, pointer: bool)
      requires Valid() && delayedGrabId != 0
      modifies this
      ensures Valid() && delayedGrabId == 0 && pointerEntered == old(pointerEntered)
      ensures requests == old(requests) + if pointerEntered then 1 else 0
      ensures !pointerEntered ==> kbcaptured == old(kbcaptured) && pointerCaptured == old(pointerCaptured)
      ensures pointerEntered ==>
                (kbcaptured <==> old(kbcaptured) || keyboard.Granted?)
                && (!kbcaptured && keyboard.Refused? ==> grabRetryId != 0)
      ensures pointerEntered ==>
                (pointerCaptured <==> pointer || (old(pointerCaptured) && (old(kbcaptured) || !keyboard.NoDevice?)))
    {
      var id := delayedGrabId;
      if pointerEntered {
        RequestGrab(keyboard);
        PointerGrab(pointer);
      }
      delayedGrabId := 0;
      sources := sources - {id};
    }

    // -------------------------------------------------------------- events

    /** Takes the delayed grab off the main loop. */
    method CancelDelayedGrab()
      requires Valid()
      modifies this`delayedGrabId, this`sources
      ensures Valid() && delayedGrabId == 0
    {
      if delayedGrabId != 0 {
        sources := sources - {delayedGrabId};
        delayedGrabId := 0;
      }
    }

    /** rco_enter_protocol_widget */
    method EnterProtocolWidget(mode: Crossing, connected: bool, wanted: bool, active: bool, keyboard: Answer,
                               pointer: bool)
      requires Valid()
      modifies this
      ensures Valid() && pointerEntered
      ensures requests == old(requests) + if connected && !mode.Ungrab? && wanted && active then 1 else 0
      ensures connected && mode.Ungrab? ==> !kbcaptured && !pointerCaptured && sources == old(sources)
      ensures connected && !mode.Ungrab? && wanted && active ==>
                (kbcaptured <==> old(kbcaptured) || keyboard.Granted?)
                && (!kbcaptured && keyboard.Refused? ==> grabRetryId != 0)
      ensures connected && !mode.Ungrab? && wanted && active ==>
                (pointerCaptured <==> pointer || (old(pointerCaptured) && (old(kbcaptured) || !keyboard.NoDevice?)))
      ensures !connected || (!mode.Ungrab? && !(wanted && active)) ==>
                kbcaptured == old(kbcaptured) && pointerCaptured == old(pointerCaptured) && sources == old(sources)
    {
      pointerEntered := true;
      if !connected {
        return;
      }
      if mode.Ungrab? {
        kbcaptured, pointerCaptured := false, false;
        return;
      }
      if wanted && active {
        RequestGrab(keyboard);
        PointerGrab(pointer);
      }
    }

    /** rco_leave_protocol_widget */
    method LeaveProtocolWidget(mode: Crossing, inferior: bool)
      requires Valid()
      modifies this
      ensures Valid() && !pointerEntered && delayedGrabId == 0 && requests == old(requests)
      ensures mode.Normal? && !inferior ==> Released()
      ensures !mode.Normal? || inferior ==> kbcaptured == old(kbcaptured) && pointerCaptured == old(pointerCaptured)
    {
      CancelDelayedGrab();
      pointerEntered := false;
      if mode.Normal? && !inferior {
        KpUngrab();
      }
    }

    /** rcw_on_leave_notify_event */
    method OnLeaveNotify(mode: Crossing)
      requires Valid()
      modifies this
      ensures Valid() && requests == old(requests) && pointerEntered == old(pointerEntered)
      ensures mode.OtherMode? ==> unchanged(this)
      ensures mode.Normal? ==> Released()
      ensures mode.Ungrab? ==> delayedGrabId == 0 && kbcaptured == old(kbcaptured) && grabRetryId == old(grabRetryId)
      ensures mode.Ungrab? ==> pointerCaptured == old(pointerCaptured)
    {
      if !mode.Normal? && !mode.Ungrab? {
        return;
      }
      CancelDelayedGrab();
      if !mode.Ungrab? {
        KpUngrab();
        PointerUngrab();
      }
    }

    /** rcw_focus_in: at most one delayed grab is pending, however often it is called. */
    method OnFocusIn(connected: bool, wanted: bool)
      requires Valid()
      modifies this`delayedGrabId, this`sources, this`lastId
      ensures Valid()
      ensures (connected && wanted) || old(delayedGrabId) != 0 ==> delayedGrabId != 0
      ensures !(connected && wanted) || old(delayedGrabId) != 0 ==>
                delayedGrabId == old(delayedGrabId) && sources == old(sources)
    {
      if connected && wanted {
        if delayedGrabId == 0 {
          delayedGrabId := AddTimer(Delayed);
        }
      }
    }

    /** rcw_focus_out */
    method OnFocusOut()
      requires Valid()
      modifies this
      ensures Valid() && Released() && requests == old(requests) && pointerEntered == old(pointerEntered)
    {
      KpUngrab();
    }

    /** rcw_toolbar_grab */
    method OnToolbarGrab(capture: bool, connected: bool, keyboard: Answer, pointer: bool)
      requires Valid()
      modifies this
      ensures Valid() && requests == old(requests) + if capture && connected then 1 else 0
      ensures pointerEntered == old(pointerEntered)
      ensures !(capture && connected) ==> Released()
      ensures capture && connected ==>
                (kbcaptured <==> old(kbcaptured) || keyboard.Granted?)
                && (!kbcaptured && keyboard.Refused? ==> grabRetryId != 0)
      ensures capture && connected ==>
                (pointerCaptured <==> (pointerEntered && pointer)
                                      || (old(pointerCaptured) && (old(kbcaptured) || !keyboard.NoDevice?)))
    {
      if capture && connected {
        RequestGrab(keyboard);
        if pointerEntered {
          PointerGrab(pointer);
        }
      } else {
        KpUngrab();
      }
    }

    /** The grabbing part of rco_on_connect. */
    method OnConnect(wanted: bool, active: bool, keyboard: Answer, pointer: bool)
      requires Valid()
      modifies this
      ensures Valid() && requests == old(requests) + if pointerEntered && wanted && active then 1 else 0
      ensures pointerEntered == old(pointerEntered)
      ensures pointerEntered && wanted && active ==>
                (kbcaptured <==> old(kbcaptured) || keyboard.Granted?)
                && (!kbcaptured && keyboard.Refused? ==> grabRetryId != 0)
      ensures pointerEntered && wanted && active ==>
                (pointerCaptured <==> pointer || (old(pointerCaptured) && (old(kbcaptured) || !keyboard.NoDevice?)))
      ensures !(pointerEntered && wanted && active) ==> unchanged(this)
    {
      if pointerEntered {
        if wanted && active {
          RequestGrab(keyboard);
          PointerGrab(pointer);
        }
      }
    }

    /** The grabbing part of rco_on_disconnect; its last step is the toolbar's grab button going up. */
    method OnDisconnect()
      requires Valid()
      modifies this
      ensures Valid() && Released() && requests == old(requests) && pointerEntered == old(pointerEntered)
    {
      KpUngrab();
      PointerUngrab();
      KpUngrab();
      OnToolbarGrab(false, false, Refused, false);
    }

    /** The grabbing part of rcw_destroy: no timer outlives its window. */
    method OnDestroy()
      requires Valid()
      modifies this
      ensures Valid() && sources == map[] && !kbcaptured && requests == old(requests)
      ensures pointerEntered == old(pointerEntered)
    {
      if kbcaptured {
        KpUngrab();
      }
      if grabRetryId != 0 {
        sources := sources - {grabRetryId};
        grabRetryId := 0;
      }
      CancelDelayedGrab();
    }

    /** One event. */
    method Handle(e: Event)
      requires Valid()
      modifies this
      ensures Valid() && old(requests) <= requests <= old(requests) + 1
      ensures e.FocusOut? || e.Disconnects? ==> Released()
      ensures e.Destroyed? ==> sources == map[]
      ensures pointerEntered <==> e.EnterWidget? || (old(pointerEntered) && !e.LeaveWidget?)
    {
      match e {
        case EnterWidget(mode, connected, wanted, active, keyboard, pointer) =>
          EnterProtocolWidget(mode, connected, wanted, active, keyboard, pointer);
        case LeaveWidget(mode, inferior) => LeaveProtocolWidget(mode, inferior);
        case LeaveWindow(mode) => OnLeaveNotify(mode);
        case FocusIn(connected, wanted) => OnFocusIn(connected, wanted);
        case FocusOut => OnFocusOut();
        case TimerFires(id, keyboard, pointer) =>
          if id in sources {
            if sources[id] == Retry {
              KeyboardGrabRetry(keyboard);
            } else {
              FocusInDelayedGrab(keyboard, pointer);
            }
          }
        case ToolbarGrab(capture, connected, keyboard, pointer) => OnToolbarGrab(capture, connected, keyboard, pointer);
        case Connects(wanted, active, keyboard, pointer) => OnConnect(wanted, active, keyboard, pointer);
        case Disconnects => OnDisconnect();
        case Destroyed => OnDestroy();
      }
    }

    /** Any run of events: attempts stay within twice the requests, and requests within the events. The pointer
        counts as inside exactly from an entry of the protocol widget to the next leave. */
    method Run(events: seq<Event>)
      requires Valid()
      modifies this
      ensures Valid() && attempts <= 2 * requests && pointerUngrabs == 0 && requests <= old(requests) + |events|
      ensures kbcaptured ==> forall id :: id in sources ==> sources[id] != Retry
      ensures pointerEntered <==> LastIsEntry(old(pointerEntered), events, |events|)
      ensures events != [] && (events[|events| - 1].FocusOut? || events[|events| - 1].Disconnects?) ==> Released()
    {
      for n := 0 to |events|
        invariant Valid() && requests <= old(requests) + n
        invariant pointerEntered <==> LastIsEntry(old(pointerEntered), events, n)
        invariant n > 0 && (events[n - 1].FocusOut? || events[n - 1].Disconnects?) ==> Released()
      {
        EntryStep(old(pointerEntered), events, n);
        Handle(events[n]);
      }
    }
  }
}
