/** The light on the generic state machine: an outer context, a nested one that exists while the
    light is on, and static state objects that keep time stamps and the next outer state. */
module Light {
  import opened LightTimer

  const LIGHT_STATE_ID_OFF := 0
  const LIGHT_STATE_ID_ON := 1
  const OUTER_REGISTRY := 3
  const ON_SUBSTATE_NORMAL := 0
  const ON_SUBSTATE_DELAY_TO_OFF := 1
  const ON_REGISTRY := 2

  /** No state yet. */
  const UNINITIALISED := -1

  class Context {
    var current: int
    const registryNum: int

    /** `sm_context_create`. */
    constructor (registryNum: int)
      ensures current == UNINITIALISED && this.registryNum == registryNum
    {
      current, this.registryNum := UNINITIALISED, registryNum;
    }
  }

  class Machine {
    const outer: Context
    var subContext: Context?
    var nextId: int
    var lastActivityTime: int
    var delayStartTime: int
    ghost var live: set<Context>

    ghost predicate Valid()
      reads this, outer, live
    {
      && outer in live && outer.registryNum == OUTER_REGISTRY
      && outer.current in {LIGHT_STATE_ID_OFF, LIGHT_STATE_ID_ON}
      && nextId in {LIGHT_STATE_ID_OFF, LIGHT_STATE_ID_ON}
      && (outer.current == LIGHT_STATE_ID_OFF ==> live == {outer} && nextId == LIGHT_STATE_ID_OFF)
      && (outer.current == LIGHT_STATE_ID_ON ==> SubOk() && live == {outer, subContext})
    }

    ghost predicate SubOk()
      reads this, live
    {
      && subContext != null && subContext != outer && subContext in live
      && subContext.registryNum == ON_REGISTRY
      && subContext.current in {ON_SUBSTATE_NORMAL, ON_SUBSTATE_DELAY_TO_OFF}
    }

    /** The flat state. */
    ghost function Abstract(): Light
      requires Valid()
      reads this, outer, live
    {
      if outer.current == LIGHT_STATE_ID_OFF then Off
      else if subContext.current == ON_SUBSTATE_NORMAL then On(Normal, lastActivityTime, nextId == LIGHT_STATE_ID_ON)
      else On(Delay, delayStartTime, nextId == LIGHT_STATE_ID_ON)
    }

    /** The start of `main`: the outer context in its initial state. */
    constructor ()
      ensures Valid() && Abstract() == Off && fresh(live)
    {
      outer := new Context(OUTER_REGISTRY);
      subContext, nextId, lastActivityTime, delayStartTime := null, LIGHT_STATE_ID_OFF, 0, 0;
      new;
      live := {outer};
      outer.current := LIGHT_STATE_ID_OFF;
    }

    /** `get_on_normal_substate` and `get_on_delay_substate`: stamp the time, give the state. */
    method EnterSubstate(id: int, now: int)
      requires id in {ON_SUBSTATE_NORMAL, ON_SUBSTATE_DELAY_TO_OFF}
      modifies this`lastActivityTime, this`delayStartTime
      ensures lastActivityTime == if id == ON_SUBSTATE_NORMAL then now else old(lastActivityTime)
      ensures delayStartTime == if id == ON_SUBSTATE_NORMAL then old(delayStartTime) else now
    {
      if id == ON_SUBSTATE_NORMAL {
        lastActivityTime := now;
      } else {
        delayStartTime := now;
      }
    }

    /** `sm_context_switch_to_state` on the nested context. */
    method SwitchSub(ctx: Context, id: int, now: int)
      requires ctx.registryNum == ON_REGISTRY && 0 <= id
      modifies ctx`current, this`lastActivityTime, this`delayStartTime
      ensures id < ON_REGISTRY ==> ctx.current == id
      ensures id >= ON_REGISTRY ==> ctx.current == old(ctx.current)
      ensures lastActivityTime ==
        if id == ON_SUBSTATE_NORMAL && old(ctx.current) != id then now else old(lastActivityTime)
      ensures delayStartTime ==
        if id == ON_SUBSTATE_DELAY_TO_OFF && old(ctx.current) != id then now else old(delayStartTime)
    {
      if id >= ctx.registryNum {
        return;
      }
      var oldId := ctx.current;
      if oldId == UNINITIALISED || oldId != id {
        EnterSubstate(id, now);
        ctx.current := id;
      }
    }

    /** `sm_context_handle_event` on the nested context: the two handlers of the on state. */
    method HandleSub(event: Event, now: int)
      requires Valid() && outer.current == LIGHT_STATE_ID_ON
      modifies this`nextId, this`lastActivityTime, this`delayStartTime, subContext
      ensures SubOk() && outer.current == LIGHT_STATE_ID_ON
      ensures nextId in {LIGHT_STATE_ID_OFF, LIGHT_STATE_ID_ON}
      ensures var l := After(old(Abstract()), Tick(event, now));
        if nextId == LIGHT_STATE_ID_OFF then l == Off
        else
          l == if subContext.current == ON_SUBSTATE_NORMAL then On(Normal, lastActivityTime, true)
               else On(Delay, delayStartTime, true)
    {
      var id := subContext.current;
      if id == ON_SUBSTATE_NORMAL {
        if event == Toggle {
          nextId := LIGHT_STATE_ID_ON;
          id := ON_SUBSTATE_DELAY_TO_OFF;
        } else if event == Idle {
          nextId :=
            if now - lastActivityTime > AUTO_OFF_LONG_DELAY_SECONDS then LIGHT_STATE_ID_OFF else LIGHT_STATE_ID_ON;
        }
      } else {
        if event == Toggle {
          nextId := LIGHT_STATE_ID_ON;
          id := ON_SUBSTATE_NORMAL;
        } else if event == Idle {
          nextId :=
            if now - delayStartTime >= AUTO_OFF_SHORT_DELAY_SECONDS then LIGHT_STATE_ID_OFF else LIGHT_STATE_ID_ON;
        }
      }
      SwitchSub(subContext, id, now);
    }

    /** `get_on_state`: a new nested context in its initial state. */
    method EnterOn(now: int)
      modifies this`subContext, this`live, this`lastActivityTime, this`delayStartTime
      ensures subContext != null && fresh(subContext) && live == old(live) + {subContext}
      ensures subContext.registryNum == ON_REGISTRY && subContext.current == ON_SUBSTATE_NORMAL
      ensures lastActivityTime == now
    {
      var sub := new Context(ON_REGISTRY);
      subContext := sub;
      live := live + {sub};
      SwitchSub(sub, ON_SUBSTATE_NORMAL, now);
    }

    /** `on_handle_leave_impl`: the nested context is destroyed. */
    method LeaveOn()
      requires subContext != null && subContext in live
      modifies this`live
      ensures live == old(live) - {subContext}
    {
      live := live - {subContext};
    }

    /** `sm_context_switch_to_state` on the outer context. */
    method SwitchOuter(id: int, now: int)
      requires id in {LIGHT_STATE_ID_OFF, LIGHT_STATE_ID_ON} && outer.registryNum == OUTER_REGISTRY
      requires outer in live && outer.current in {LIGHT_STATE_ID_OFF, LIGHT_STATE_ID_ON}
      requires outer.current == LIGHT_STATE_ID_ON ==> subContext != null && subContext in live && subContext != outer
      modifies this`subContext, this`live, this`lastActivityTime, this`delayStartTime, outer
      ensures outer.current == id
      ensures old(outer.current) == id ==>
        subContext == old(subContext) && live == old(live)
        && lastActivityTime == old(lastActivityTime) && delayStartTime == old(delayStartTime)
      ensures old(outer.current) == LIGHT_STATE_ID_OFF && id == LIGHT_STATE_ID_ON ==>
        && subContext != null && fresh(subContext) && live == old(live) + {subContext}
        && subContext.registryNum == ON_REGISTRY && subContext.current == ON_SUBSTATE_NORMAL
        && lastActivityTime == now
      ensures old(outer.current) == LIGHT_STATE_ID_ON && id == LIGHT_STATE_ID_OFF ==>
        live == old(live) - {old(subContext)}
    {
      if id >= outer.registryNum {
        return;
      }
      var oldId := outer.current;
      if oldId != id {
        if id == LIGHT_STATE_ID_ON {
          EnterOn(now);
        }
        outer.current := id;
        if oldId == LIGHT_STATE_ID_ON {
          LeaveOn();
        }
      }
    }

    /** `sm_context_handle_event` on the outer context: one step of the flat automaton; the nested
        context is live exactly while the light is on. */
    method HandleEvent(event: Event, now: int)
      requires Valid()
      modifies this, outer, live
      ensures Valid() && Abstract() == After(old(Abstract()), Tick(event, now))
      ensures live == if Abstract().Off? then {outer} else {outer, subContext}
    {
      var next;
      if outer.current == LIGHT_STATE_ID_OFF {
        next := if event == Toggle then LIGHT_STATE_ID_ON else LIGHT_STATE_ID_OFF;
      } else {
        HandleSub(event, now);
        next := nextId;
      }
      SwitchOuter(next, now);
    }

    /** `sm_context_destroy` of the outer context: nothing stays live. */
    method Destroy()
      requires Valid()
      modifies this`live
      ensures live == {}
    {
      if outer.current == LIGHT_STATE_ID_ON {
        LeaveOn();
      }
      live := live - {outer};
    }
  }
}
