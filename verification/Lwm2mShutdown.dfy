/** The shutdown protocol of src/modules/lwm2m/tinyara_lwm2m.c: one service thread per client
    and one application thread, interleaved at every access to a node's flags, mutex and
    callback pointers. A callback pointer and its parameter are stored together. The stack's own
    calls return, it calls a handler exactly while that is registered, and user callbacks do not
    call back into the interface. */
module Lwm2mShutdown {

  /** Where a service thread is. `Report` stands before the test of the error callback, `Fire`
      between that test and the call through the pointer, `WantLock` before the lock, `Stop`
      before `lwm2m_client_stop`, `Exit` before `pthread_exit`. */
  datatype ServicePc = Check | Service | Report | Fire | WantLock | SetQuit | Unlock | Stop | Exit | Exited

  datatype Event = ErrorEvent | ResourceExecute | ResourceChanged

  /** The handlers that the module registers with the stack. */
  datatype Handler = OnExecute | OnChanged

  /** `lwm2m_node`: its flags, its callbacks, the handlers registered for its client and the
      service thread's position, with counts of the calls of `lwm2m_client_stop`, of the error
      callback, and of calls through a null pointer instead. `listed` tells whether the node is
      still in the list; afterwards its memory is gone. */
  datatype Client = Client(quit: bool, locked: bool, callbacks: set<Event>, registered: set<Handler>, pc: ServicePc,
                           stops: nat, reports: nat, nullCalls: nat, listed: bool)

  datatype Request = Write | Read | SetCallback(e: Event) | UnsetCallback(e: Event) | Disconnect

  /** Where the application thread is, and on which client. */
  datatype App =
    | Idle
    | Waiting(r: Request, id: nat)
    | Inside(r: Request, id: nat)
    | Leaving(r: Request, id: nat)
    | Joining(id: nat)
    | Deleting(id: nat)

  datatype World = World(clients: map<nat, Client>, app: App, next: nat)

  const NOBODY := World(map[], Idle, 0)

  // ---------------------------------------------------------------- steps

  /** A service thread's step (`ok` is the verdict of `lwm2m_client_service`), a successful
      connect, the start of a call on a handle, or the application thread's next step. */
  datatype Action = Serve(id: nat, ok: bool) | Connect | Call(r: Request, handle: nat) | Advance

  predicate Listed(w: World, id: nat) {
    id in w.clients && w.clients[id].listed
  }

  predicate Enabled(w: World, a: Action) {
    match a
    case Serve(id, _) =>
      && id in w.clients
      && w.clients[id].pc != Exited
      && (w.clients[id].pc == WantLock ==> !w.clients[id].locked)
    case Connect => w.app == Idle
    case Call(_, _) => w.app == Idle
    case Advance =>
      match w.app
      case Idle => false
      case Waiting(_, id) => id in w.clients && !w.clients[id].locked
      case Joining(id) => id in w.clients && w.clients[id].pc == Exited
      case _ => w.app.id in w.clients
  }

  function ServeStep(c: Client, ok: bool): Client {
    match c.pc
    case Check => c.(pc := if c.quit then Stop else Service)
    case Service => c.(pc := if ok then Check else Report)
    case Report => c.(pc := if ErrorEvent in c.callbacks then Fire else WantLock)
    case Fire =>
      if ErrorEvent in c.callbacks then c.(pc := WantLock, reports := c.reports + 1)
      else c.(pc := WantLock, nullCalls := c.nullCalls + 1)
    case WantLock => c.(pc := SetQuit, locked := true)
    case SetQuit => c.(pc := Unlock, quit := true)
    case Unlock => c.(pc := Check, locked := false)
    case Stop => c.(pc := Exit, stops := c.stops + 1)
    case Exit => c.(pc := Exited)
    case Exited => c
  }

  /** What a request does to the callback table before it takes the lock. */
  function Prepare(c: Client, r: Request): Client {
    match r
    case SetCallback(e) => c.(callbacks := c.callbacks + {e})
    case UnsetCallback(e) => c.(callbacks := c.callbacks - {e})
    case _ => c
  }

  /** The handler that goes with an event. The second test in the source is of a constant, so it
      holds for the error event too. */
  function HandlerOf(e: Event): Handler {
    if e == ResourceExecute then OnExecute else OnChanged
  }

  /** What a request does once it has the lock. */
  function Perform(c: Client, r: Request): Client {
    match r
    case Disconnect => c.(quit := true)
    case SetCallback(e) => c.(registered := c.registered + {HandlerOf(e)})
    case UnsetCallback(e) => c.(registered := c.registered - {HandlerOf(e)})
    case _ => c
  }

  function Do(w: World, a: Action): World
    requires Enabled(w, a)
  {
    match a
    case Serve(id, ok) => w.(clients := w.clients[id := ServeStep(w.clients[id], ok)])
    case Connect =>
      World(w.clients[w.next := Client(false, false, {}, {}, Check, 0, 0, 0, true)], Idle, w.next + 1)
    case Call(r, id) =>
      if !Listed(w, id) then w
      else w.(clients := w.clients[id := Prepare(w.clients[id], r)], app := Waiting(r, id))
    case Advance =>
      var c := w.clients[w.app.id];
      match w.app
      case Waiting(r, id) => w.(clients := w.clients[id := c.(locked := true)], app := Inside(r, id))
      case Inside(r, id) =>
        w.(clients := w.clients[id := Perform(c, r)], app := Leaving(r, id))
      case Leaving(r, id) =>
        w.(clients := w.clients[id := c.(locked := false)], app := if r == Disconnect then Joining(id) else Idle)
      case Joining(id) => w.(app := Deleting(id))
      case Deleting(id) => w.(clients := w.clients[id := c.(listed := false)], app := Idle)
  }

  ghost predicate Run(w: World, actions: seq<Action>)
    decreases |actions|
  {
    actions == [] || (Enabled(w, actions[0]) && Run(Do(w, actions[0]), actions[1..]))
  }

  ghost function After(w: World, actions: seq<Action>): World
    requires Run(w, actions)
    decreases |actions|
  {
    if actions == [] then w else After(Do(w, actions[0]), actions[1..])
  }

  // ---------------------------------------------------------------- safety

  predicate ServiceHolds(c: Client) {
    c.pc == SetQuit || c.pc == Unlock
  }

  predicate AppOn(app: App, id: nat) {
    app != Idle && app.id == id
  }

  predicate AppHolds(app: App, id: nat) {
    (app.Inside? || app.Leaving?) && app.id == id
  }

  /** A disconnect has set quit and has not returned yet. */
  predicate DisconnectHasQuit(app: App) {
    app.Joining? || app.Deleting? || (app.Leaving? && app.r == Disconnect)
  }

  /** What one client looks like in every reachable state. */
  ghost predicate ClientInv(c: Client, app: App, id: nat) {
    // one owner at most, and the mutex is locked exactly while there is one
    && !(ServiceHolds(c) && AppHolds(app, id))
    && (c.locked <==> ServiceHolds(c) || AppHolds(app, id))
    // the client is stopped once, on the way out, which is taken only once quit is set
    && c.stops == (if c.pc == Exit || c.pc == Exited then 1 else 0)
    && (c.pc == Unlock || c.pc == Stop || c.pc == Exit || c.pc == Exited ==> c.quit)
    // unless a disconnect has set it, quit is set by the service thread on its way out
    && (c.quit && c.listed && !(AppOn(app, id) && DisconnectHasQuit(app)) ==>
          c.pc == Unlock || c.pc == Check || c.pc == Stop || c.pc == Exit || c.pc == Exited)
    // the error callback is called once at most
    && c.reports + c.nullCalls <= 1
    && (c.pc == Service || c.pc == Report || c.pc == Fire || (c.pc == Check && !c.quit) ==>
          c.reports + c.nullCalls == 0)
    // a node outside the list has no thread left, and the application is not on it
    && (!c.listed ==> c.pc == Exited && !AppOn(app, id))
    && (AppOn(app, id) && DisconnectHasQuit(app) ==> c.quit)
    && (app == Deleting(id) ==> c.pc == Exited)
  }

  ghost predicate Inv(w: World) {
    && (forall id :: id in w.clients ==> id < w.next && ClientInv(w.clients[id], w.app, id))
    && (w.app != Idle ==> w.app.id in w.clients)
  }

  lemma ServeKeepsClient(c: Client, app: App, id: nat, ok: bool)
    requires ClientInv(c, app, id) && (c.pc == WantLock ==> !c.locked)
    ensures ClientInv(ServeStep(c, ok), app, id)
  {
  }

  lemma AdvanceKeepsInv(w: World)
    requires Inv(w) && Enabled(w, Advance)
    ensures Inv(Do(w, Advance))
  {
    var w', target := Do(w, Advance), w.app.id;
    assert ClientInv(w.clients[target], w.app, target);
    forall id | id in w'.clients
      ensures id < w'.next && ClientInv(w'.clients[id], w'.app, id)
    {
      assert ClientInv(w.clients[id], w.app, id);
    }
  }

  lemma CallKeepsInv(w: World, r: Request, handle: nat)
    requires Inv(w) && w.app == Idle
    ensures Inv(Do(w, Call(r, handle)))
  {
    var w' := Do(w, Call(r, handle));
    forall id | id in w.clients
      ensures id in w'.clients && ClientInv(w'.clients[id], w'.app, id)
    {
      assert ClientInv(w.clients[id], w.app, id);
    }
  }

  lemma StepKeepsInv(w: World, a: Action)
    requires Inv(w) && Enabled(w, a)
    ensures Inv(Do(w, a))
  {
    match a
    case Advance =>
      AdvanceKeepsInv(w);
    case Serve(id, ok) =>
      ServeKeepsClient(w.clients[id], w.app, id, ok);
    case Connect =>
    case Call(r, handle) =>
      CallKeepsInv(w, r, handle);
  }

  lemma {:induction false} RunKeepsInv(w: World, actions: seq<Action>)
    requires Inv(w) && Run(w, actions)
    ensures Inv(After(w, actions))
    decreases |actions|
  {
    if actions != [] {
      StepKeepsInv(w, actions[0]);
      RunKeepsInv(Do(w, actions[0]), actions[1..]);
    }
  }

  /** What a run never takes back: a client stays known, its quit flag stays set, its counts do
      not fall, and once out of the list it does not change at all. */
  ghost predicate Later(c: Client, c': Client) {
    && (c.quit ==> c'.quit)
    && c.stops <= c'.stops
    && c.reports <= c'.reports
    && c.nullCalls <= c'.nullCalls
    && (!c.listed ==> c' == c)
  }

  lemma StepIsLater(w: World, a: Action, id: nat)
    requires Inv(w) && Enabled(w, a) && id in w.clients
    ensures id in Do(w, a).clients && Later(w.clients[id], Do(w, a).clients[id])
  {
    assert ClientInv(w.clients[id], w.app, id);
  }

  lemma {:induction false} RunIsLater(w: World, actions: seq<Action>, id: nat)
    requires Inv(w) && Run(w, actions) && id in w.clients
    ensures id in After(w, actions).clients && Later(w.clients[id], After(w, actions).clients[id])
    decreases |actions|
  {
    if actions != [] {
      StepKeepsInv(w, actions[0]);
      StepIsLater(w, actions[0], id);
      RunIsLater(Do(w, actions[0]), actions[1..], id);
    }
  }

  /** Every interleaving, any number of clients. The mutex has one owner at most; the client is
      stopped once at most, and exactly once by the time its node leaves the list; the error
      callback is called once at most; a node out of the list has no service thread that could
      still step, and the application thread is not about to touch it. */
  lemma EveryInterleavingIsSafe(actions: seq<Action>, id: nat)
    requires Run(NOBODY, actions) && id in After(NOBODY, actions).clients
    ensures var w := After(NOBODY, actions); var c := w.clients[id];
      && !(ServiceHolds(c) && AppHolds(w.app, id))
      && (c.locked <==> ServiceHolds(c) || AppHolds(w.app, id))
      && c.stops <= 1 && c.reports + c.nullCalls <= 1
      && (c.pc == Exited ==> c.stops == 1)
      && (!c.listed ==> c.stops == 1 && !Enabled(w, Serve(id, true)) && !Enabled(w, Serve(id, false))
                        && !AppOn(w.app, id))
  {
    RunKeepsInv(NOBODY, actions);
    assert ClientInv(After(NOBODY, actions).clients[id], After(NOBODY, actions).app, id);
  }

  /** What one action does to whether `e` has a callback on client `id`. */
  function SetAfter(w: World, a: Action, id: nat, e: Event, before: bool): bool {
    if !Listed(w, id) then before
    else if a == Call(SetCallback(e), id) then true
    else if a == Call(UnsetCallback(e), id) then false
    else before
  }

  /** Whether the last set or unset of `e` that reached this client was a set. */
  ghost function LastSet(w: World, actions: seq<Action>, id: nat, e: Event, before: bool): bool
    requires Run(w, actions)
    decreases |actions|
  {
    if actions == [] then before
    else LastSet(Do(w, actions[0]), actions[1..], id, e, SetAfter(w, actions[0], id, e, before))
  }

  /** The callback for `e` is in place on client `id`. */
  predicate CallbackAt(w: World, id: nat, e: Event) {
    id in w.clients && e in w.clients[id].callbacks
  }

  lemma CallbackStep(w: World, a: Action, id: nat, e: Event)
    requires Inv(w) && Enabled(w, a)
    ensures CallbackAt(Do(w, a), id, e) <==> SetAfter(w, a, id, e, CallbackAt(w, id, e))
  {
  }

  /** Over every run, from the start or from any state it reaches: a callback is in place exactly
      if it was last set. */
  lemma {:induction false} CallbacksFollowCalls(w: World, actions: seq<Action>, id: nat, e: Event)
    requires Inv(w) && Run(w, actions)
    ensures CallbackAt(After(w, actions), id, e) <==> LastSet(w, actions, id, e, CallbackAt(w, id, e))
    decreases |actions|
  {
    if actions != [] {
      StepKeepsInv(w, actions[0]);
      CallbackStep(w, actions[0], id, e);
      CallbacksFollowCalls(Do(w, actions[0]), actions[1..], id, e);
    }
  }

  // ---------------------------------------------------------------- registered handlers

  /** The request registers or unregisters the handler. */
  predicate Handles(r: Request, h: Handler) {
    (r.SetCallback? || r.UnsetCallback?) && HandlerOf(r.e) == h
  }

  /** What one action does to whether the handler is wanted: a call for any event that goes with it. */
  function WantedAfter(w: World, a: Action, id: nat, h: Handler, before: bool): bool {
    if a.Call? && a.handle == id && Listed(w, id) && Handles(a.r, h) then a.r.SetCallback? else before
  }

  /** Whether the last set or unset of any event that goes with the handler was a set. */
  ghost function LastWanted(w: World, actions: seq<Action>, id: nat, h: Handler, before: bool): bool
    requires Run(w, actions)
    decreases |actions|
  {
    if actions == [] then before
    else LastWanted(Do(w, actions[0]), actions[1..], id, h, WantedAfter(w, actions[0], id, h, before))
  }

  /** Whether the handler is registered, or will be once the call under way has had the lock. */
  predicate Due(w: World, id: nat, h: Handler) {
    && id in w.clients
    && if AppOn(w.app, id) && (w.app.Waiting? || w.app.Inside?) && Handles(w.app.r, h) then w.app.r.SetCallback?
       else h in w.clients[id].registered
  }

  lemma DueStep(w: World, a: Action, id: nat, h: Handler)
    requires Inv(w) && Enabled(w, a)
    ensures Due(Do(w, a), id, h) <==> WantedAfter(w, a, id, h, Due(w, id, h))
  {
  }

  lemma {:induction false} HandlersFollowCalls(w: World, actions: seq<Action>, id: nat, h: Handler)
    requires Inv(w) && Run(w, actions)
    ensures Due(After(w, actions), id, h) <==> LastWanted(w, actions, id, h, Due(w, id, h))
    decreases |actions|
  {
    if actions != [] {
      StepKeepsInv(w, actions[0]);
      DueStep(w, actions[0], id, h);
      HandlersFollowCalls(Do(w, actions[0]), actions[1..], id, h);
    }
  }

  /** The callback is reached: it is in place and, for the two events that come from the stack, the
      stack has the handler in front of it. The thread itself calls the error callback. */
  predicate Reached(w: World, id: nat, e: Event) {
    && CallbackAt(w, id, e)
    && match e
       case ErrorEvent => true
       case ResourceExecute => OnExecute in w.clients[id].registered
       case ResourceChanged => OnChanged in w.clients[id].registered
  }

  /** The execute handler is wanted by no other event. */
  lemma {:induction false} ExecuteWanted(w: World, actions: seq<Action>, id: nat, b: bool)
    requires Run(w, actions)
    ensures LastWanted(w, actions, id, OnExecute, b) == LastSet(w, actions, id, ResourceExecute, b)
    decreases |actions|
  {
    if actions != [] {
      ExecuteWanted(Do(w, actions[0]), actions[1..], id, SetAfter(w, actions[0], id, ResourceExecute, b));
    }
  }

  lemma {:induction false} LastSetBoth(w: World, actions: seq<Action>, id: nat, e: Event, b: bool, c: bool)
    requires Run(w, actions)
    ensures LastSet(w, actions, id, e, b && c) == (LastSet(w, actions, id, e, b) && LastSet(w, actions, id, e, c))
    decreases |actions|
  {
    if actions != [] {
      var w', rest := Do(w, actions[0]), actions[1..];
      LastSetBoth(w', rest, id, e, SetAfter(w, actions[0], id, e, b), SetAfter(w, actions[0], id, e, c));
    }
  }

  /** Over every run with the application thread idle at both ends: the execute callback is reached
      exactly if the last set or unset of that event was a set, whatever was done to the others. */
  lemma ExecuteReachedIff(w: World, actions: seq<Action>, id: nat)
    requires Inv(w) && Run(w, actions) && w.app == Idle && After(w, actions).app == Idle
    ensures Reached(After(w, actions), id, ResourceExecute) <==>
            LastSet(w, actions, id, ResourceExecute, Reached(w, id, ResourceExecute))
  {
    CallbacksFollowCalls(w, actions, id, ResourceExecute);
    HandlersFollowCalls(w, actions, id, OnExecute);
    ExecuteWanted(w, actions, id, Due(w, id, OnExecute));
    LastSetBoth(w, actions, id, ResourceExecute, CallbackAt(w, id, ResourceExecute), Due(w, id, OnExecute));
  }

  /** What one action does to the registration that the error and the resource-changed event share. */
  function SharedAfter(w: World, a: Action, id: nat, before: bool): bool {
    if !Listed(w, id) then before
    else if a == Call(SetCallback(ResourceChanged), id) || a == Call(SetCallback(ErrorEvent), id) then true
    else if a == Call(UnsetCallback(ResourceChanged), id) || a == Call(UnsetCallback(ErrorEvent), id) then false
    else before
  }

  /** Whether the last set or unset of either of those two events was a set. */
  ghost function LastShared(w: World, actions: seq<Action>, id: nat, before: bool): bool
    requires Run(w, actions)
    decreases |actions|
  {
    if actions == [] then before
    else LastShared(Do(w, actions[0]), actions[1..], id, SharedAfter(w, actions[0], id, before))
  }

  lemma {:induction false} ChangedWanted(w: World, actions: seq<Action>, id: nat, b: bool)
    requires Run(w, actions)
    ensures LastWanted(w, actions, id, OnChanged, b) == LastShared(w, actions, id, b)
    decreases |actions|
  {
    if actions != [] {
      ChangedWanted(Do(w, actions[0]), actions[1..], id, SharedAfter(w, actions[0], id, b));
    }
  }

  /** Over every such run: the resource-changed callback is reached exactly if the last set or unset
      of that event was a set, and so was the last one of that event or the error event. */
  lemma ChangedReachedIff(w: World, actions: seq<Action>, id: nat)
    requires Inv(w) && Run(w, actions) && w.app == Idle && After(w, actions).app == Idle
    ensures Reached(After(w, actions), id, ResourceChanged) <==>
      && LastSet(w, actions, id, ResourceChanged, CallbackAt(w, id, ResourceChanged))
      && LastShared(w, actions, id, id in w.clients && OnChanged in w.clients[id].registered)
  {
    CallbacksFollowCalls(w, actions, id, ResourceChanged);
    HandlersFollowCalls(w, actions, id, OnChanged);
    ChangedWanted(w, actions, id, Due(w, id, OnChanged));
  }

  /** A completed call for the execute event leaves the resource-changed callback as it was. */
  lemma ExecuteLeavesChanged(w: World, id: nat, r: Request)
    requires w.app == Idle && Listed(w, id) && !w.clients[id].locked
    requires r == SetCallback(ResourceExecute) || r == UnsetCallback(ResourceExecute)
    ensures var actions := [Call(r, id), Advance, Advance, Advance];
      && Run(w, actions) && After(w, actions).app == Idle
      && (Reached(After(w, actions), id, ResourceChanged) <==> Reached(w, id, ResourceChanged))
      && (Reached(After(w, actions), id, ResourceExecute) <==> r.SetCallback?)
  {
    var call := Call(r, id);
    var w1 := Do(w, call);
    var w2 := Do(w1, Advance);
    var w3 := Do(w2, Advance);
    var w4 := Do(w3, Advance);
    FourSteps(w, call, w1, w2, w3, w4);
  }

  /** The failing case: in every state with the application thread idle and the mutex free,
      unsetting the error callback leaves the resource-changed callback in place and silences it. */
  lemma ErrorUnsetSilencesChanged(w: World, id: nat)
    requires w.app == Idle && Listed(w, id) && !w.clients[id].locked
    ensures var actions := [Call(UnsetCallback(ErrorEvent), id), Advance, Advance, Advance];
      && Run(w, actions)
      && var w' := After(w, actions);
      && w'.app == Idle
      && (CallbackAt(w', id, ResourceChanged) <==> CallbackAt(w, id, ResourceChanged))
      && !Reached(w', id, ResourceChanged)
  {
    var call := Call(UnsetCallback(ErrorEvent), id);
    var w1 := Do(w, call);
    var w2 := Do(w1, Advance);
    var w3 := Do(w2, Advance);
    var w4 := Do(w3, Advance);
    FourSteps(w, call, w1, w2, w3, w4);
  }

  /** A call and the three steps of the application thread that complete it. */
  lemma FourSteps(w: World, call: Action, w1: World, w2: World, w3: World, w4: World)
    requires Enabled(w, call) && w1 == Do(w, call)
    requires Enabled(w1, Advance) && w2 == Do(w1, Advance) && Enabled(w2, Advance) && w3 == Do(w2, Advance)
    requires Enabled(w3, Advance) && w4 == Do(w3, Advance)
    ensures Run(w, [call, Advance, Advance, Advance]) && After(w, [call, Advance, Advance, Advance]) == w4
  {
    assert Run(w4, []) && After(w4, []) == w4;
    Prepend(w3, Advance, []);
    Prepend(w2, Advance, [Advance]);
    Prepend(w1, Advance, [Advance, Advance]);
    Prepend(w, call, [Advance, Advance, Advance]);
    assert [Advance] + [] == [Advance] && [Advance] + [Advance] == [Advance, Advance];
    assert [Advance] + [Advance, Advance] == [Advance, Advance, Advance];
    assert [call] + [Advance, Advance, Advance] == [call, Advance, Advance, Advance];
  }

  // ---------------------------------------------------------------- progress

  /** The steps that a service thread can still take once quit is set. */
  function Rank(pc: ServicePc): nat {
    match pc
    case Exited => 0
    case Exit => 1
    case Stop => 2
    case Check => 3
    case Unlock => 4
    case SetQuit => 5
    case WantLock => 6
    case Fire => 7
    case Report => 8
    case Service => 9
  }

  /** The application thread has set quit on `id` and has not yet returned from disconnect. */
  predicate Finishing(w: World, id: nat) {
    id in w.clients && AppOn(w.app, id) && DisconnectHasQuit(w.app)
  }

  function Remaining(w: World, id: nat): nat
    requires Finishing(w, id)
  {
    Rank(w.clients[id].pc) + if w.app.Leaving? then 3 else if w.app.Joining? then 2 else 1
  }

  predicate Concerns(a: Action, id: nat) {
    a == Advance || (a.Serve? && a.id == id)
  }

  /** No reachable state is stuck: with the application thread idle a call can start, and
      otherwise it can step, or the service thread it waits for can. */
  lemma NeverStuck(w: World)
    requires Inv(w)
    ensures w.app == Idle ==> Enabled(w, Connect)
    ensures w.app != Idle ==> Enabled(w, Advance) || forall ok :: Enabled(w, Serve(w.app.id, ok))
  {
    if w.app != Idle {
      assert ClientInv(w.clients[w.app.id], w.app, w.app.id);
    }
  }

  /** While the application thread waits for a mutex that is taken, two service steps free it. */
  lemma LockIsFreedSoon(w: World, ok1: bool, ok2: bool)
    requires Inv(w) && w.app.Waiting? && w.clients[w.app.id].locked
    ensures var id := w.app.id;
      && Enabled(w, Serve(id, ok1))
      && var w1 := Do(w, Serve(id, ok1));
      && (Enabled(w1, Advance) || (Enabled(w1, Serve(id, ok2)) && Enabled(Do(w1, Serve(id, ok2)), Advance)))
  {
    assert ClientInv(w.clients[w.app.id], w.app, w.app.id);
  }

  /** Every step of a disconnect that has set quit: other clients' threads leave the measure
      alone, its own two threads lower it, and only the last one ends it. */
  lemma FinishingStep(w: World, a: Action, id: nat)
    requires Inv(w) && Finishing(w, id) && Enabled(w, a)
    ensures var w' := Do(w, a);
      if Finishing(w', id) then Remaining(w', id) <= Remaining(w, id) - (if Concerns(a, id) then 1 else 0)
      else a == Advance && w'.app == Idle && !w'.clients[id].listed
  {
    assert ClientInv(w.clients[id], w.app, id);
  }

  function Own(actions: seq<Action>, id: nat): nat {
    if actions == [] then 0 else (if Concerns(actions[0], id) then 1 else 0) + Own(actions[1..], id)
  }

  /** Once disconnect has set quit, at most twelve steps of its own two threads are left,
      whatever the other clients do in between: after that many it has returned, the client
      was stopped once, and its node is out of the list. */
  lemma {:induction false} DisconnectReturns(w: World, actions: seq<Action>, id: nat)
    requires Inv(w) && Finishing(w, id) && Run(w, actions) && Own(actions, id) >= Remaining(w, id)
    ensures Remaining(w, id) <= 12
    ensures id in After(w, actions).clients
    ensures !After(w, actions).clients[id].listed && After(w, actions).clients[id].stops == 1
    decreases |actions|
  {
    if actions != [] {
      var w', rest := Do(w, actions[0]), actions[1..];
      StepKeepsInv(w, actions[0]);
      FinishingStep(w, actions[0], id);
      if Finishing(w', id) {
        DisconnectReturns(w', rest, id);
      } else {
        assert ClientInv(w'.clients[id], w'.app, id);
        RunIsLater(w', rest, id);
      }
    }
  }

  // ---------------------------------------------------------------- calls on a stopped client

  /** The application thread is inside a call that hands the client to the stack. */
  predicate UsesClient(w: World, id: nat) {
    id in w.clients && w.app.Inside? && w.app.r != Disconnect && w.app.id == id
  }

  predicate UsesStopped(w: World, id: nat) {
    UsesClient(w, id) && w.clients[id].stops > 0
  }

  lemma Prepend(w: World, a: Action, rest: seq<Action>)
    requires Enabled(w, a) && Run(Do(w, a), rest)
    ensures Run(w, [a] + rest) && After(w, [a] + rest) == After(Do(w, a), rest)
  {
    assert ([a] + rest)[1..] == rest;
  }

  function ToStop(c: Client): nat {
    match c.pc
    case Exited => 0
    case Exit => 0
    case Stop => 1
    case Check => if c.quit then 2 else 9
    case Unlock => 3
    case SetQuit => 4
    case WantLock => 5
    case Fire => 6
    case Report => 7
    case Service => 8
  }

  /** The failing case: a service call fails, the thread stops the client and leaves, its node is
      still listed, and the next write goes to the stopped client. From every state with an idle
      application thread every listed client can get there. */
  lemma {:induction false} WriteReachesStopped(w: World, id: nat) returns (actions: seq<Action>)
    requires Inv(w) && w.app == Idle && Listed(w, id)
    ensures Run(w, actions) && UsesStopped(After(w, actions), id) && After(w, actions).app == Inside(Write, id)
    decreases ToStop(w.clients[id])
  {
    var c := w.clients[id];
    assert ClientInv(c, w.app, id);
    if ToStop(c) == 0 {
      var w' := Do(w, Call(Write, id));
      assert Run(Do(w', Advance), []);
      Prepend(w', Advance, []);
      Prepend(w, Call(Write, id), [Advance] + []);
      actions := [Call(Write, id)] + ([Advance] + []);
    } else {
      var step := Serve(id, false);
      StepKeepsInv(w, step);
      var rest := WriteReachesStopped(Do(w, step), id);
      Prepend(w, step, rest);
      actions := [step] + rest;
    }
  }

  /** One such run from the beginning. */
  lemma StoppedIsReachable() returns (actions: seq<Action>)
    ensures Run(NOBODY, actions) && UsesStopped(After(NOBODY, actions), 0)
  {
    StepKeepsInv(NOBODY, Connect);
    var rest := WriteReachesStopped(Do(NOBODY, Connect), 0);
    Prepend(NOBODY, Connect, rest);
    actions := [Connect] + rest;
  }

  predicate ServesOnly(actions: seq<Action>) {
    forall k :: 0 <= k < |actions| ==> actions[k].Serve?
  }

  /** Without quit, the service threads cannot stop a client while a call is inside. */
  lemma {:induction false} NotOvertaken(w: World, actions: seq<Action>, id: nat)
    requires Inv(w) && UsesClient(w, id) && !w.clients[id].quit && ServesOnly(actions) && Run(w, actions)
    ensures !UsesStopped(After(w, actions), id)
    decreases |actions|
  {
    assert ClientInv(w.clients[id], w.app, id);
    if actions != [] {
      StepKeepsInv(w, actions[0]);
      NotOvertaken(Do(w, actions[0]), actions[1..], id);
    }
  }

  /** With quit, the thread stops the client on its way out, and needs no lock for it. */
  lemma {:induction false} Overtaken(w: World, id: nat) returns (actions: seq<Action>)
    requires Inv(w) && UsesClient(w, id) && w.clients[id].quit && w.clients[id].listed
    ensures ServesOnly(actions) && Run(w, actions) && UsesStopped(After(w, actions), id)
    decreases ToStop(w.clients[id])
  {
    var c := w.clients[id];
    assert ClientInv(c, w.app, id);
    actions := [];
    if ToStop(c) > 0 {
      var step := Serve(id, true);
      StepKeepsInv(w, step);
      var rest := Overtaken(Do(w, step), id);
      Prepend(w, step, rest);
      actions := [step] + rest;
    }
  }

  /** Exactly when the stop can overtake a call that is inside: when quit is set. So the flag,
      read under the lock that the call holds, would tell. */
  lemma StopOvertakesIff(w: World, id: nat)
    requires Inv(w) && UsesClient(w, id)
    ensures w.clients[id].quit <==>
      exists actions :: ServesOnly(actions) && Run(w, actions) && UsesStopped(After(w, actions), id)
  {
    assert ClientInv(w.clients[id], w.app, id);
    if w.clients[id].quit {
      var actions := Overtaken(w, id);
    } else {
      forall actions | ServesOnly(actions) && Run(w, actions)
        ensures !UsesStopped(After(w, actions), id)
      {
        NotOvertaken(w, actions, id);
      }
    }
  }

  /** The mutex does not keep the client to one thread: a write is inside the stack and so is the
      service call. */
  lemma WriteOverlapsService()
    ensures var actions := [Connect, Serve(0, true), Call(Write, 0), Advance];
      && Run(NOBODY, actions)
      && UsesClient(After(NOBODY, actions), 0) && After(NOBODY, actions).clients[0].pc == Service
  {
    var w1 := Do(NOBODY, Connect);
    var w2 := Do(w1, Serve(0, true));
    var w3 := Do(w2, Call(Write, 0));
    var w4 := Do(w3, Advance);
    assert Run(w4, []) && After(w4, []) == w4;
    Prepend(w3, Advance, []);
    Prepend(w2, Call(Write, 0), [Advance]);
    Prepend(w1, Serve(0, true), [Call(Write, 0), Advance]);
    Prepend(NOBODY, Connect, [Serve(0, true), Call(Write, 0), Advance]);
    assert [Advance] + [] == [Advance] && [Call(Write, 0)] + [Advance] == [Call(Write, 0), Advance];
    assert [Serve(0, true)] + [Call(Write, 0), Advance] == [Serve(0, true), Call(Write, 0), Advance];
    assert [Connect] + [Serve(0, true), Call(Write, 0), Advance] == [Connect, Serve(0, true), Call(Write, 0), Advance];
  }

  /** Once doomed, always doomed; and a doomed thread makes no more service calls while a call
      of the application is inside. */
  lemma {:induction false} DoomedStays(w: World, actions: seq<Action>, id: nat)
    requires Inv(w) && UsesClient(w, id) && Doomed(w.clients[id]) && ServesOnly(actions) && Run(w, actions)
    ensures UsesClient(After(w, actions), id) && After(w, actions).clients[id].pc != Service
    decreases |actions|
  {
    assert ClientInv(w.clients[id], w.app, id);
    if actions != [] {
      StepKeepsInv(w, actions[0]);
      DoomedStays(Do(w, actions[0]), actions[1..], id);
    }
  }

  /** Exactly when the service call can overlap a call that is inside: until one has failed. */
  lemma ServiceOverlapsIff(w: World, id: nat)
    requires Inv(w) && UsesClient(w, id)
    ensures !Doomed(w.clients[id]) <==>
      exists actions :: ServesOnly(actions) && Run(w, actions) && UsesClient(After(w, actions), id) &&
                        After(w, actions).clients[id].pc == Service
  {
    var c := w.clients[id];
    assert ClientInv(c, w.app, id);
    if Doomed(c) {
      forall actions | ServesOnly(actions) && Run(w, actions)
        ensures UsesClient(After(w, actions), id) && After(w, actions).clients[id].pc != Service
      {
        DoomedStays(w, actions, id);
      }
    } else if c.pc == Service {
      assert ServesOnly([]) && Run(w, []) && After(w, []) == w;
    } else {
      var step, w' := Serve(id, true), Do(w, Serve(id, true));
      assert Run(w', []) && After(w', []) == w';
      Prepend(w, step, []);
      assert ServesOnly([step] + []);
    }
  }

  /** The service thread has seen a failed call, or quit is set already. */
  predicate Doomed(c: Client) {
    c.quit || c.pc == Report || c.pc == Fire || c.pc == WantLock || c.pc == SetQuit
  }

  predicate Fails(w: World, a: Action, id: nat) {
    a == Serve(id, false) && id in w.clients && w.clients[id].pc == Service
  }

  /** Whether a service call of client `id` failed in the run. */
  ghost predicate Failed(w: World, actions: seq<Action>, id: nat, before: bool)
    requires Run(w, actions)
    decreases |actions|
  {
    if actions == [] then before
    else Failed(Do(w, actions[0]), actions[1..], id, before || Fails(w, actions[0], id))
  }

  ghost predicate DoomedAsFailed(w: World, id: nat, failed: bool) {
    && (id !in w.clients ==> !failed)
    && (Listed(w, id) && !Finishing(w, id) ==> (Doomed(w.clients[id]) <==> failed))
  }

  lemma FailureStep(w: World, a: Action, id: nat, failed: bool)
    requires Inv(w) && Enabled(w, a) && DoomedAsFailed(w, id, failed)
    ensures DoomedAsFailed(Do(w, a), id, failed || Fails(w, a, id))
  {
    if id in w.clients {
      assert ClientInv(w.clients[id], w.app, id);
      if Finishing(w, id) {
        FinishingStep(w, a, id);
      }
    }
  }

  lemma {:induction false} RunFails(w: World, actions: seq<Action>, id: nat, failed: bool)
    requires Inv(w) && Run(w, actions) && DoomedAsFailed(w, id, failed)
    ensures DoomedAsFailed(After(w, actions), id, Failed(w, actions, id, failed))
    decreases |actions|
  {
    if actions != [] {
      StepKeepsInv(w, actions[0]);
      FailureStep(w, actions[0], id, failed);
      RunFails(Do(w, actions[0]), actions[1..], id, failed || Fails(w, actions[0], id));
    }
  }

  /** Over every run, for a listed client that no disconnect has told to quit: it is on its way
      to being stopped if and only if one of its service calls failed. So no call ever reaches a
      stopped client in a run without a failed service call. */
  lemma StoppedOnlyAfterFailure(actions: seq<Action>, id: nat)
    requires Run(NOBODY, actions)
    ensures var w := After(NOBODY, actions);
      && (Listed(w, id) && !Finishing(w, id) ==> (Doomed(w.clients[id]) <==> Failed(NOBODY, actions, id, false)))
      && (UsesStopped(w, id) ==> Failed(NOBODY, actions, id, false))
  {
    RunFails(NOBODY, actions, id, false);
    RunKeepsInv(NOBODY, actions);
    var w := After(NOBODY, actions);
    if id in w.clients {
      assert ClientInv(w.clients[id], w.app, id);
    }
  }

  // ---------------------------------------------------------------- the error callback taken away

  /** Whether the error callback was taken away, and not put back, since the service thread of
      `id` tested it. */
  function LostAfter(w: World, a: Action, id: nat, lost: bool): bool {
    if id !in w.clients || w.clients[id].pc != Fire || CallsBack(w, a, id) then false
    else if a == Call(UnsetCallback(ErrorEvent), id) then true
    else if a == Call(SetCallback(ErrorEvent), id) then false
    else lost
  }

  predicate CallsBack(w: World, a: Action, id: nat) {
    a.Serve? && a.id == id && id in w.clients && w.clients[id].pc == Fire
  }

  /** In the run, the thread of `id` makes its call after the callback was taken away. */
  ghost predicate Raced(w: World, actions: seq<Action>, id: nat, lost: bool)
    requires Run(w, actions)
    decreases |actions|
  {
    actions != [] &&
    var a := actions[0];
    (lost && CallsBack(w, a, id)) || Raced(Do(w, a), actions[1..], id, LostAfter(w, a, id, lost))
  }

  ghost predicate LostIsGone(w: World, id: nat, lost: bool) {
    if id in w.clients && w.clients[id].pc == Fire then lost <==> ErrorEvent !in w.clients[id].callbacks
    else !lost
  }

  function NullCalls(w: World, id: nat): nat {
    if id in w.clients then w.clients[id].nullCalls else 0
  }

  /** Only a service thread's own steps move it, and only calls change the callbacks. */
  lemma OthersLeaveThread(w: World, a: Action, id: nat)
    requires Enabled(w, a) && id in w.clients && id < w.next && !(a.Serve? && a.id == id)
    ensures id in Do(w, a).clients
    ensures var c, c' := w.clients[id], Do(w, a).clients[id];
      c'.pc == c.pc && c'.nullCalls == c.nullCalls && c'.reports == c.reports && c'.stops == c.stops
  {
  }

  lemma RaceStep(w: World, a: Action, id: nat, lost: bool)
    requires Inv(w) && Enabled(w, a) && LostIsGone(w, id, lost)
    ensures LostIsGone(Do(w, a), id, LostAfter(w, a, id, lost))
    ensures NullCalls(Do(w, a), id) == NullCalls(w, id) + if lost && CallsBack(w, a, id) then 1 else 0
  {
    if id in w.clients {
      assert ClientInv(w.clients[id], w.app, id);
      if !(a.Serve? && a.id == id) {
        OthersLeaveThread(w, a, id);
        CallbackStep(w, a, id, ErrorEvent);
      }
    }
  }

  lemma {:induction false} RunRaces(w: World, actions: seq<Action>, id: nat, lost: bool)
    requires Inv(w) && Run(w, actions) && LostIsGone(w, id, lost)
    ensures NullCalls(After(w, actions), id) > 0 <==> NullCalls(w, id) > 0 || Raced(w, actions, id, lost)
    decreases |actions|
  {
    if actions != [] {
      StepKeepsInv(w, actions[0]);
      RaceStep(w, actions[0], id, lost);
      RunRaces(Do(w, actions[0]), actions[1..], id, LostAfter(w, actions[0], id, lost));
    }
  }

  /** Over every run: the service thread calls through a null pointer if and only if the
      application unset the error callback, without the lock, between the thread's test and its
      call, and did not set it again. */
  lemma NullCallIff(actions: seq<Action>, id: nat)
    requires Run(NOBODY, actions)
    ensures NullCalls(After(NOBODY, actions), id) > 0 <==> Raced(NOBODY, actions, id, false)
  {
    RunRaces(NOBODY, actions, id, false);
  }

  /** The thread goes on to the call exactly if the error callback was last set when it tests. */
  lemma TestedIff(actions: seq<Action>, id: nat, ok: bool)
    requires Run(NOBODY, actions) && id in After(NOBODY, actions).clients
    requires After(NOBODY, actions).clients[id].pc == Report
    ensures var w := After(NOBODY, actions);
      && Enabled(w, Serve(id, ok))
      && Do(w, Serve(id, ok)).clients[id].pc == if LastSet(NOBODY, actions, id, ErrorEvent, false) then Fire else WantLock
  {
    CallbacksFollowCalls(NOBODY, actions, id, ErrorEvent);
  }

  /** In the run, the thread of `id` makes its call while the error callback was last set. */
  ghost predicate Reported(w: World, actions: seq<Action>, id: nat, armed: bool)
    requires Run(w, actions)
    decreases |actions|
  {
    actions != [] &&
    var a := actions[0];
    (armed && CallsBack(w, a, id)) || Reported(Do(w, a), actions[1..], id, SetAfter(w, a, id, ErrorEvent, armed))
  }

  function Reports(w: World, id: nat): nat {
    if id in w.clients then w.clients[id].reports else 0
  }

  lemma ReportStep(w: World, a: Action, id: nat)
    requires Inv(w) && Enabled(w, a)
    ensures Reports(Do(w, a), id) ==
            Reports(w, id) + if CallbackAt(w, id, ErrorEvent) && CallsBack(w, a, id) then 1 else 0
  {
    if id in w.clients && !(a.Serve? && a.id == id) {
      OthersLeaveThread(w, a, id);
    }
  }

  lemma {:induction false} RunReports(w: World, actions: seq<Action>, id: nat)
    requires Inv(w) && Run(w, actions)
    ensures Reports(After(w, actions), id) > 0 <==>
            Reports(w, id) > 0 || Reported(w, actions, id, CallbackAt(w, id, ErrorEvent))
    decreases |actions|
  {
    if actions != [] {
      StepKeepsInv(w, actions[0]);
      ReportStep(w, actions[0], id);
      CallbackStep(w, actions[0], id, ErrorEvent);
      RunReports(Do(w, actions[0]), actions[1..], id);
    }
  }

  /** Over every run: the error callback is called, and then once, if and only if the thread comes
      to its call while the callback was last set. */
  lemma ReportedIff(actions: seq<Action>, id: nat)
    requires Run(NOBODY, actions)
    ensures Reports(After(NOBODY, actions), id) == if Reported(NOBODY, actions, id, false) then 1 else 0
  {
    RunReports(NOBODY, actions, id);
    RunKeepsInv(NOBODY, actions);
    if id in After(NOBODY, actions).clients {
      assert ClientInv(After(NOBODY, actions).clients[id], After(NOBODY, actions).app, id);
    }
  }

  lemma {:induction false} Concat(w: World, left: seq<Action>, right: seq<Action>)
    requires Run(w, left) && Run(After(w, left), right)
    ensures Run(w, left + right) && After(w, left + right) == After(After(w, left), right)
    decreases |left|
  {
    if left == [] {
      assert left + right == right;
    } else {
      Concat(Do(w, left[0]), left[1..], right);
      Prepend(w, left[0], left[1..] + right);
      assert [left[0]] + (left[1..] + right) == left + right;
    }
  }

  /** Steps of the service thread of `id` until it is about to call the error callback. */
  lemma {:induction false} ReachFire(w: World, id: nat) returns (actions: seq<Action>)
    requires Inv(w) && w.app == Idle && Listed(w, id) && ErrorEvent in w.clients[id].callbacks
    requires w.clients[id].pc == Fire || w.clients[id].pc == Report || !Doomed(w.clients[id])
    ensures Run(w, actions)
    ensures var w' := After(w, actions);
      Inv(w') && w'.app == Idle && Listed(w', id) && w'.clients[id].pc == Fire
    decreases ToStop(w.clients[id])
  {
    assert ClientInv(w.clients[id], w.app, id);
    actions := [];
    if w.clients[id].pc != Fire {
      var step := Serve(id, false);
      StepKeepsInv(w, step);
      var rest := ReachFire(Do(w, step), id);
      Prepend(w, step, rest);
      actions := [step] + rest;
    }
  }

  /** It can happen to every client whose error callback is set and whose service calls have not
      failed yet. */
  lemma NullCallIsReachable(w: World, id: nat) returns (actions: seq<Action>)
    requires Inv(w) && w.app == Idle && Listed(w, id) && ErrorEvent in w.clients[id].callbacks
    requires !Doomed(w.clients[id])
    ensures Run(w, actions) && NullCalls(After(w, actions), id) > 0
  {
    var first := ReachFire(w, id);
    var w1 := After(w, first);
    var unset, fire := Call(UnsetCallback(ErrorEvent), id), Serve(id, true);
    var w2 := Do(w1, unset);
    assert Run(Do(w2, fire), []) && After(Do(w2, fire), []) == Do(w2, fire);
    Prepend(w2, fire, []);
    Prepend(w1, unset, [fire] + []);
    actions := first + ([unset] + ([fire] + []));
    Concat(w, first, [unset] + ([fire] + []));
  }

  /** One such run from the beginning: connect and set the error callback. */
  lemma NullCallFromStart() returns (actions: seq<Action>)
    ensures Run(NOBODY, actions) && NullCalls(After(NOBODY, actions), 0) > 0
  {
    var arm := Call(SetCallback(ErrorEvent), 0);
    var w0 := Do(NOBODY, Connect);
    var w1 := Do(w0, arm);
    var w2 := Do(w1, Advance);
    var w3 := Do(w2, Advance);
    var w4 := Do(w3, Advance);
    FourSteps(w0, arm, w1, w2, w3, w4);
    StepKeepsInv(NOBODY, Connect);
    RunKeepsInv(w0, [arm, Advance, Advance, Advance]);
    var rest := NullCallIsReachable(w4, 0);
    Concat(w0, [arm, Advance, Advance, Advance], rest);
    Prepend(NOBODY, Connect, [arm, Advance, Advance, Advance] + rest);
    actions := [Connect] + ([arm, Advance, Advance, Advance] + rest);
  }
}
