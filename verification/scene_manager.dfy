/** `SceneManager` (src/Engine/SceneManager.cpp): a registry of named
    scenes, an active scene, a pending scene and a transition flag. Each
    scene object is given an identity when it is added, so that a pointer
    left behind when its entry is replaced or erased can be told from a
    live one. The lifecycle calls the manager makes on scenes are returned
    as a trace. */
module SceneManagement {
  import opened Results

  /** The identity of one scene object handed to `add_scene`. */
  type SceneId = nat

  /** A virtual call on a scene. */
  datatype Call =
    | Init(id: SceneId)
    | OnEnter(id: SceneId)
    | OnExit(id: SceneId)
    | Update(id: SceneId, deltaTime: real)
    | Render(id: SceneId)
    | Cleanup(id: SceneId)

  /** `scenes` maps each registered name to the scene that owns it;
      `active` and `pending` are the raw `active_scene_` and `next_scene_`
      pointers (None is null). `nextId` is the identity the next added
      scene gets. */
  datatype Manager = Manager(
    scenes: map<string, SceneId>,
    active: Option<SceneId>,
    pending: Option<SceneId>,
    transitioning: bool,
    nextId: nat)

  /** The manager and the calls one operation made. */
  datatype Step = Step(manager: Manager, calls: seq<Call>)

  /** Dereferencing the null `next_scene_` in `update`. */
  datatype Fault = NullPending

  /** Every identity handed out is below `nextId`, and no scene object is
      registered under two names. */
  ghost predicate Fresh(m: Manager) {
    && (forall n :: n in m.scenes ==> m.scenes[n] < m.nextId)
    && (forall n, n' :: n in m.scenes && n' in m.scenes && n != n' ==> m.scenes[n] != m.scenes[n'])
    && (m.active.Some? ==> m.active.value < m.nextId)
    && (m.pending.Some? ==> m.pending.value < m.nextId)
  }

  /** A pointer is live when the scene it names is still owned by the
      registry; otherwise it dangles. */
  predicate Registered(m: Manager, id: SceneId) {
    exists n :: n in m.scenes && m.scenes[n] == id
  }

  ghost predicate NoDangling(m: Manager) {
    && (m.active.Some? ==> Registered(m, m.active.value))
    && (m.pending.Some? ==> Registered(m, m.pending.value))
  }

  /** A transition is under way exactly when a scene is pending. */
  predicate Coherent(m: Manager) {
    m.transitioning <==> m.pending.Some?
  }

  /** The constructor: nothing registered, no active or pending scene, not
      transitioning. */
  function NewManager(): (m: Manager)
    ensures m.scenes == map[] && m.active.None? && m.pending.None? && !m.transitioning
    ensures Fresh(m) && NoDangling(m) && Coherent(m)
  {
    Manager(map[], None, None, false, 0)
  }

  /** `add_scene`: the name now owns a new scene object; any scene it
      owned before is destroyed. Nothing else changes and no call is made. */
  function AddScene(m: Manager, name: string): (r: Manager)
    ensures r.scenes.Keys == m.scenes.Keys + {name}
    ensures forall n :: n in m.scenes && n != name ==> r.scenes[n] == m.scenes[n]
    ensures Fresh(m) ==> !Registered(m, r.scenes[name]) && r.active != Some(r.scenes[name]) && r.pending != Some(r.scenes[name])
    ensures r.active == m.active && r.pending == m.pending && r.transitioning == m.transitioning
  {
    m.(scenes := m.scenes[name := m.nextId], nextId := m.nextId + 1)
  }

  /** `remove_scene`: true iff the name was registered, in which case its
      entry is erased; the active pointer is nulled only when it named
      that entry's scene, and the pending scene and flag are untouched. */
  function RemoveScene(m: Manager, name: string): (r: (bool, Manager))
    ensures r.0 <==> name in m.scenes
    ensures r.1.scenes == m.scenes - {name}
    ensures r.0 && m.active == Some(m.scenes[name]) ==> r.1.active.None?
    ensures !(r.0 && m.active == Some(m.scenes[name])) ==> r.1.active == m.active
    ensures r.1.pending == m.pending && r.1.transitioning == m.transitioning && r.1.nextId == m.nextId
  {
    if name in m.scenes then
      var active := if m.active == Some(m.scenes[name]) then None else m.active;
      (true, m.(scenes := m.scenes - {name}, active := active))
    else (false, m)
  }

  function NotFound(name: string): string {
    "Scene not found: " + name
  }

  /** `set_active_scene`. An unknown name is an error and changes nothing.
      With an active scene, that scene is told it is exited and the target
      becomes pending, to be entered at the next update; otherwise the
      target becomes active at once and is initialised and entered. */
  function SetActiveScene(m: Manager, name: string): (r: Result<Step, string>)
    ensures r.Err? <==> name !in m.scenes
    ensures r.Err? ==> r.error == NotFound(name)
    ensures r.Ok? && m.active.Some? ==>
      && r.value.calls == [OnExit(m.active.value)]
      && r.value.manager == m.(pending := Some(m.scenes[name]), transitioning := true)
    ensures r.Ok? && m.active.None? ==>
      && r.value.calls == [Init(m.scenes[name]), OnEnter(m.scenes[name])]
      && r.value.manager == m.(active := Some(m.scenes[name]))
  {
    if name !in m.scenes then Err(NotFound(name))
    else
      var target := m.scenes[name];
      match m.active
      case Some(current) => Ok(Step(m.(pending := Some(target), transitioning := true), [OnExit(current)]))
      case None => Ok(Step(m.(active := Some(target)), [Init(target), OnEnter(target)]))
  }

  /** `update`: a transition under way is completed first (the pending
      scene becomes active and is initialised and entered), then the
      active scene, if any, is updated. A transition with a null pending
      scene dereferences null. */
  function UpdateScenes(m: Manager, dt: real): (r: Result<Step, Fault>)
    ensures r.Err? <==> m.transitioning && m.pending.None?
    ensures r.Ok? ==> !r.value.manager.transitioning
    ensures r.Ok? && m.transitioning ==>
      && r.value.manager.active == m.pending && r.value.manager.pending.None?
      && r.value.calls == [Init(m.pending.value), OnEnter(m.pending.value), Update(m.pending.value, dt)]
    ensures r.Ok? && !m.transitioning ==>
      && r.value.manager == m
      && r.value.calls == (if m.active.Some? then [Update(m.active.value, dt)] else [])
    ensures r.Ok? ==> r.value.manager.scenes == m.scenes && r.value.manager.nextId == m.nextId
  {
    if m.transitioning then
      match m.pending
      case None => Err(NullPending)
      case Some(next) =>
        Ok(Step(m.(active := Some(next), pending := None, transitioning := false),
                [Init(next), OnEnter(next), Update(next, dt)]))
    else
      Ok(Step(m, if m.active.Some? then [Update(m.active.value, dt)] else []))
  }

  /** `render`: the active scene, if any, is rendered. */
  function RenderScenes(m: Manager): (calls: seq<Call>)
    ensures m.active.None? <==> calls == []
    ensures m.active.Some? ==> calls == [Render(m.active.value)]
  {
    match m.active
    case Some(a) => [Render(a)]
    case None => []
  }

  /** `order` lists the registered names once each, in the order the
      unordered map happens to iterate them. */
  predicate IterationOrder(m: Manager, order: seq<string>) {
    && (forall i :: 0 <= i < |order| ==> order[i] in m.scenes)
    && (forall n :: n in m.scenes ==> n in order)
    && (forall i, j :: 0 <= i < j < |order| ==> order[i] != order[j])
  }

  function CleanupCalls(m: Manager, order: seq<string>): (calls: seq<Call>)
    requires forall i :: 0 <= i < |order| ==> order[i] in m.scenes
    ensures |calls| == |order|
    ensures forall i :: 0 <= i < |order| ==> calls[i] == Cleanup(m.scenes[order[i]])
  {
    if |order| == 0 then [] else [Cleanup(m.scenes[order[0]])] + CleanupCalls(m, order[1..])
  }

  /** `cleanup`: every registered scene is cleaned up, the registry is
      emptied, and both pointers are nulled; the transition flag is left
      as it was. */
  function CleanupScenes(m: Manager, order: seq<string>): (r: Step)
    requires IterationOrder(m, order)
    ensures |r.calls| == |m.scenes|
    ensures forall n :: n in m.scenes ==> Cleanup(m.scenes[n]) in r.calls
    ensures forall c :: c in r.calls ==> c.Cleanup? && Registered(m, c.id)
    ensures r.manager.scenes == map[] && r.manager.active.None? && r.manager.pending.None?
    ensures r.manager.transitioning == m.transitioning && r.manager.nextId == m.nextId
  {
    var calls := CleanupCalls(m, order);
    OrderCoversKeys(m, order);
    forall n | n in m.scenes ensures Cleanup(m.scenes[n]) in calls {
      var i :| 0 <= i < |order| && order[i] == n;
      assert calls[i] == Cleanup(m.scenes[n]);
    }
    Step(m.(scenes := map[], active := None, pending := None), calls)
  }

  lemma OrderCoversKeys(m: Manager, order: seq<string>)
    requires IterationOrder(m, order)
    ensures |order| == |m.scenes|
  {
    var keys := set i | 0 <= i < |order| :: order[i];
    assert keys == m.scenes.Keys;
    DistinctCard(order);
  }

  lemma {:induction false} DistinctCard(s: seq<string>)
    requires forall i, j :: 0 <= i < j < |s| ==> s[i] != s[j]
    ensures |set i | 0 <= i < |s| :: s[i]| == |s|
  {
    if |s| > 0 {
      var rest := s[1..];
      assert forall i, j :: 0 <= i < j < |rest| ==> rest[i] == s[i + 1] && rest[j] == s[j + 1];
      DistinctCard(rest);
      var all := set i | 0 <= i < |s| :: s[i];
      var tail := set i | 0 <= i < |rest| :: rest[i];
      assert all == tail + {s[0]} by {
        forall x | x in all ensures x in tail + {s[0]} {
          var i :| 0 <= i < |s| && s[i] == x;
          if i > 0 {
            assert rest[i - 1] == x;
          }
        }
      }
      assert s[0] !in tail;
    }
  }

  /** `cleanup` with the flag reset as well, which keeps `Coherent`. */
  function CleanupIntended(m: Manager, order: seq<string>): (r: Step)
    requires IterationOrder(m, order)
    ensures Coherent(r.manager) && NoDangling(r.manager)
    ensures r.calls == CleanupScenes(m, order).calls
  {
    var s := CleanupScenes(m, order);
    Step(s.manager.(transitioning := false), s.calls)
  }

  // ---- Invariants ----

  /** Every operation keeps identities fresh. */
  lemma AddKeepsFresh(m: Manager, name: string)
    requires Fresh(m)
    ensures Fresh(AddScene(m, name))
  {
    var r := AddScene(m, name);
    forall n, n' | n in r.scenes && n' in r.scenes && n != n' ensures r.scenes[n] != r.scenes[n'] {
      if n == name {
        assert r.scenes[n'] == m.scenes[n'];
      } else if n' == name {
        assert r.scenes[n] == m.scenes[n];
      }
    }
  }

  lemma OthersKeepFresh(m: Manager, name: string, dt: real, order: seq<string>)
    requires Fresh(m)
    ensures Fresh(RemoveScene(m, name).1)
    ensures SetActiveScene(m, name).Ok? ==> Fresh(SetActiveScene(m, name).value.manager)
    ensures UpdateScenes(m, dt).Ok? ==> Fresh(UpdateScenes(m, dt).value.manager)
    ensures IterationOrder(m, order) ==> Fresh(CleanupScenes(m, order).manager)
  {
  }

  /** Every operation but `cleanup` keeps a transition and a pending scene
      together; `cleanup` during a transition leaves the flag set with no
      pending scene, after which `update` dereferences null. */
  lemma CoherentPreserved(m: Manager, name: string, dt: real)
    requires Coherent(m)
    ensures Coherent(AddScene(m, name))
    ensures Coherent(RemoveScene(m, name).1)
    ensures SetActiveScene(m, name).Ok? ==> Coherent(SetActiveScene(m, name).value.manager)
    ensures UpdateScenes(m, dt).Ok? && Coherent(UpdateScenes(m, dt).value.manager)
  {
  }

  lemma CleanupMidTransitionFaults(m: Manager, order: seq<string>, dt: real)
    requires IterationOrder(m, order) && m.transitioning
    ensures !Coherent(CleanupScenes(m, order).manager)
    ensures UpdateScenes(CleanupScenes(m, order).manager, dt) == Err(NullPending)
  {
  }

  lemma CleanupIntendedThenUpdate(m: Manager, order: seq<string>, dt: real)
    requires IterationOrder(m, order)
    ensures UpdateScenes(CleanupIntended(m, order).manager, dt) == Ok(Step(CleanupIntended(m, order).manager, []))
  {
  }

  // ---- Dangling pointers ----

  /** With no dangling pointer, every lifecycle call lands on a registered
      scene. */
  lemma CallsReachLiveScenes(m: Manager, name: string, dt: real)
    requires NoDangling(m)
    ensures SetActiveScene(m, name).Ok? ==>
      forall c :: c in SetActiveScene(m, name).value.calls ==> Registered(m, c.id)
    ensures UpdateScenes(m, dt).Ok? ==>
      forall c :: c in UpdateScenes(m, dt).value.calls ==> Registered(m, c.id)
    ensures forall c :: c in RenderScenes(m) ==> Registered(m, c.id)
  {
  }

  /** Re-adding the active scene's name destroys that scene while the
      active pointer still names it. */
  lemma ReplacingActiveDangles(m: Manager, name: string)
    requires Fresh(m) && name in m.scenes && m.active == Some(m.scenes[name])
    ensures var r := AddScene(m, name);
      r.active.Some? && !Registered(r, r.active.value)
  {
  }

  /** Removing the pending scene's entry leaves `next_scene_` dangling;
      the next update initialises and enters a destroyed scene. */
  lemma RemovingPendingDangles(m: Manager, name: string, dt: real)
    requires Fresh(m) && name in m.scenes && m.pending == Some(m.scenes[name]) && m.transitioning
    ensures var r := RemoveScene(m, name).1;
      && r.pending.Some? && !Registered(r, r.pending.value)
      && UpdateScenes(r, dt).Ok?
      && UpdateScenes(r, dt).value.calls[0] == Init(m.scenes[name])
  {
  }

  /** Removing the active scene's entry nulls the active pointer, so it
      never dangles through `remove_scene`. */
  lemma RemovingActiveClears(m: Manager, name: string)
    requires Fresh(m) && NoDangling(m) && name in m.scenes && m.pending != Some(m.scenes[name])
    ensures NoDangling(RemoveScene(m, name).1)
  {
    var r := RemoveScene(m, name).1;
    if r.active.Some? {
      var n :| n in m.scenes && m.scenes[n] == r.active.value;
      assert n != name;
      assert r.scenes[n] == r.active.value;
    }
    if r.pending.Some? {
      var n :| n in m.scenes && m.scenes[n] == r.pending.value;
      assert n != name;
      assert r.scenes[n] == r.pending.value;
    }
  }

  // ---- Switching scenes ----

  /** Switching from an active scene: `set_active_scene` exits the old
      scene and the next `update` initialises, enters and updates the new
      one, leaving it active with nothing pending. */
  lemma SwitchThenUpdate(m: Manager, name: string, dt: real)
    requires m.active.Some? && name in m.scenes
    ensures var s := SetActiveScene(m, name).value;
      var u := UpdateScenes(s.manager, dt);
      && u.Ok?
      && s.calls + u.value.calls ==
           [OnExit(m.active.value), Init(m.scenes[name]), OnEnter(m.scenes[name]), Update(m.scenes[name], dt)]
      && u.value.manager.active == Some(m.scenes[name])
      && u.value.manager.pending.None? && !u.value.manager.transitioning
  {
  }

  /** Once an update has run, the next one only updates the active scene. */
  lemma UpdateSettles(m: Manager, dt: real, dt': real)
    requires UpdateScenes(m, dt).Ok?
    ensures var s := UpdateScenes(m, dt).value.manager;
      UpdateScenes(s, dt') == Ok(Step(s, if s.active.Some? then [Update(s.active.value, dt')] else []))
  {
  }
}
