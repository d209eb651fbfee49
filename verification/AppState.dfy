/** Saving the windows: which projects are kept, and where the saved indices point. */
module AppState {
  import opened Text

  type WindowId = nat
  type Tab = string

  /** A project workspace: whether it is a tab being dragged, and the tabs of its snapshot. */
  datatype Project = Project(isDragPreview: bool, tabs: seq<Tab>)

  /** A window of the app; `projects` is `None` if it shows no project window. */
  datatype Window = Window(id: WindowId, projects: Option<seq<Project>>, activeProject: nat, activeIsDragPreview: bool)

  datatype WindowSnapshot = WindowSnapshot(projects: seq<Project>, activeProject: nat)

  /** A kept project and its index in the window. */
  datatype KeptProject = KeptProject(index: nat, project: Project)

  predicate IsKept(p: Project) {
    !p.isDragPreview && p.tabs != []
  }

  /** The kept projects of `projects[from..]`, each with its original index. */
  function KeptFrom(projects: seq<Project>, from: nat): seq<KeptProject>
    requires from <= |projects|
    decreases |projects| - from
  {
    if from == |projects| then []
    else (if IsKept(projects[from]) then [KeptProject(from, projects[from])] else []) + KeptFrom(projects, from + 1)
  }

  function Kept(projects: seq<Project>): seq<KeptProject> {
    KeptFrom(projects, 0)
  }

  /** A kept project, at its index in the window. */
  ghost predicate IsKeptAt(k: KeptProject, projects: seq<Project>, from: nat) {
    from <= k.index < |projects| && k.project == projects[k.index] && IsKept(k.project)
  }

  ghost predicate IsAscending(kept: seq<KeptProject>) {
    forall j, k :: 0 <= j < k < |kept| ==> kept[j].index < kept[k].index
  }

  /** Kept projects in order, each at its index in the window. */
  ghost predicate AreKept(kept: seq<KeptProject>, projects: seq<Project>, from: nat) {
    IsAscending(kept) && forall i :: 0 <= i < |kept| ==> IsKeptAt(kept[i], projects, from)
  }

  lemma KeptCons(projects: seq<Project>, from: nat, first: KeptProject, rest: seq<KeptProject>)
    requires AreKept(rest, projects, from + 1) && IsKeptAt(first, projects, from) && first.index == from
    ensures AreKept([first] + rest, projects, from)
  {
    assert forall i :: 0 <= i < |rest| ==> IsKeptAt(rest[i], projects, from + 1);
  }

  lemma KeptStep(projects: seq<Project>, from: nat)
    requires from < |projects|
    ensures KeptFrom(projects, from)
         == if IsKept(projects[from]) then [KeptProject(from, projects[from])] + KeptFrom(projects, from + 1)
            else KeptFrom(projects, from + 1)
  {
  }

  lemma {:induction false} KeptFacts(projects: seq<Project>, from: nat)
    requires from <= |projects|
    ensures AreKept(KeptFrom(projects, from), projects, from)
    decreases |projects| - from
  {
    if from == |projects| {
    } else {
      KeptFacts(projects, from + 1);
      KeptStep(projects, from);
      if IsKept(projects[from]) {
        KeptCons(projects, from, KeptProject(from, projects[from]), KeptFrom(projects, from + 1));
      }
    }
  }

  lemma {:induction false} KeptFinds(projects: seq<Project>, from: nat, i: nat) returns (k: nat)
    requires from <= i < |projects| && IsKept(projects[i])
    ensures k < |KeptFrom(projects, from)| && KeptFrom(projects, from)[k].index == i
    decreases |projects| - from
  {
    if i == from {
      k := 0;
    } else {
      k := KeptFinds(projects, from + 1, i);
      k := if IsKept(projects[from]) then k + 1 else k;
    }
  }

  /** `iter().position(..)`. */
  function PositionOf(kept: seq<KeptProject>, index: nat): Option<nat> {
    if kept == [] then None
    else if kept[0].index == index then Some(0)
    else
      match PositionOf(kept[1..], index)
      case None => None
      case Some(k) => Some(k + 1)
  }

  /** `take_while(..).count()`. */
  function CountBefore(kept: seq<KeptProject>, index: nat): nat {
    if kept == [] || kept[0].index >= index then 0 else 1 + CountBefore(kept[1..], index)
  }

  function SavedActiveIndex(kept: seq<KeptProject>, active: nat): nat {
    match PositionOf(kept, active)
    case Some(k) => k
    case None => var n := CountBefore(kept, active); if n == 0 then 0 else n - 1
  }

  function Snapshot(window: Window): Option<WindowSnapshot> {
    if window.projects.None? || window.projects.value == [] || window.activeIsDragPreview then None
    else
      var kept := Kept(window.projects.value);
      if kept == [] then None
      else
        var projects := seq(|kept|, k requires 0 <= k < |kept| => kept[k].project);
        Some(WindowSnapshot(projects, SavedActiveIndex(kept, window.activeProject)))
  }

  function SavedWindows(windows: seq<Window>): seq<Window> {
    if windows == [] then []
    else
      var last := windows[|windows| - 1];
      SavedWindows(windows[..|windows| - 1]) + if Snapshot(last).Some? then [last] else []
  }

  lemma {:induction false} SavedWindowsFacts(windows: seq<Window>)
    ensures forall w :: w in SavedWindows(windows) <==> w in windows && Snapshot(w).Some?
  {
    if windows == [] {
    } else {
      SavedWindowsFacts(windows[..|windows| - 1]);
      assert windows == windows[..|windows| - 1] + [windows[|windows| - 1]];
    }
  }

  /** The snapshots of the saved windows, and the index of the active window's, if it was saved. */
  ghost predicate IsStateOf(windows: seq<Window>, activeWindow: Option<WindowId>, snapshots: seq<WindowSnapshot>,
                            activeIndex: Option<nat>) {
    && AreSnapshotsOf(snapshots, SavedWindows(windows))
    && (activeIndex.Some? ==>
          && activeIndex.value < |snapshots|
          && Some(SavedWindows(windows)[activeIndex.value].id) == activeWindow)
    && (activeIndex.None? ==> forall w <- windows :: Some(w.id) == activeWindow ==> Snapshot(w).None?)
  }

  ghost predicate AreSnapshotsOf(snapshots: seq<WindowSnapshot>, saved: seq<Window>) {
    |snapshots| == |saved| && forall i :: 0 <= i < |saved| ==> Snapshot(saved[i]) == Some(snapshots[i])
  }

  lemma SavedExtends(windows: seq<Window>, window: Window)
    ensures SavedWindows(windows + [window])
         == SavedWindows(windows) + if Snapshot(window).Some? then [window] else []
  {
    assert (windows + [window])[..|windows|] == windows;
  }

  lemma StateExtends(windows: seq<Window>, activeWindow: Option<WindowId>, snapshots: seq<WindowSnapshot>,
                     activeIndex: Option<nat>, window: Window)
    requires IsStateOf(windows, activeWindow, snapshots, activeIndex)
    ensures Snapshot(window).None? ==> IsStateOf(windows + [window], activeWindow, snapshots, activeIndex)
    ensures Snapshot(window).Some? ==>
              IsStateOf(windows + [window], activeWindow, snapshots + [Snapshot(window).value],
                        if activeWindow == Some(window.id) then Some(|snapshots|) else activeIndex)
  {
    SavedExtends(windows, window);
    assert SavedWindows(windows) + [] == SavedWindows(windows);
  }

  /** Saves the windows that have something to restore. The active index names the snapshot of the
      active window, and is missing exactly if that window was not saved. */
  method GetAppState(windows: seq<Window>, activeWindow: Option<WindowId>)
    returns (snapshots: seq<WindowSnapshot>, activeIndex: Option<nat>)
    requires forall i, j :: 0 <= i < j < |windows| ==> windows[i].id != windows[j].id
    ensures IsStateOf(windows, activeWindow, snapshots, activeIndex)
  {
    snapshots, activeIndex := [], None;
    ghost var done: seq<Window> := [];
    for i := 0 to |windows|
      invariant done == windows[..i]
      invariant IsStateOf(done, activeWindow, snapshots, activeIndex)
    {
      var window := windows[i];
      StateExtends(done, activeWindow, snapshots, activeIndex, window);
      done := done + [window];
      var snapshot := Snapshot(window);
      if snapshot.None? {
        continue;
      }
      if activeWindow == Some(window.id) {
        activeIndex := Some(|snapshots|);
      }
      snapshots := snapshots + [snapshot.value];
    }
    assert done == windows;
  }

  // ----- where the saved index points

  lemma {:induction false} PositionFacts(kept: seq<KeptProject>, index: nat)
    ensures PositionOf(kept, index).Some? ==>
              PositionOf(kept, index).value < |kept| && kept[PositionOf(kept, index).value].index == index
    ensures PositionOf(kept, index).None? ==> forall k :: 0 <= k < |kept| ==> kept[k].index != index
  {
    if kept == [] {
    } else {
      PositionFacts(kept[1..], index);
      assert forall k :: 1 <= k < |kept| ==> kept[k] == kept[1..][k - 1];
    }
  }

  lemma {:induction false} CountFacts(kept: seq<KeptProject>, index: nat)
    requires IsAscending(kept)
    ensures CountBefore(kept, index) <= |kept|
    ensures forall k :: 0 <= k < |kept| ==> (k < CountBefore(kept, index) <==> kept[k].index < index)
  {
    if kept != [] && kept[0].index < index {
      CountFacts(kept[1..], index);
      assert forall k :: 1 <= k < |kept| ==> kept[k] == kept[1..][k - 1];
    }
  }

  /** The saved index is in range of the kept list; the project it names is the last kept one up to
      the active one, or the first kept one if there is none. */
  lemma SavedIndexIsNearest(kept: seq<KeptProject>, active: nat)
    requires kept != [] && IsAscending(kept)
    ensures var saved := SavedActiveIndex(kept, active);
            && saved < |kept|
            && (kept[saved].index > active ==> saved == 0)
            && (forall k :: 0 <= k < |kept| && kept[k].index <= active ==> kept[k].index <= kept[saved].index <= active)
  {
    PositionFacts(kept, active);
    CountFacts(kept, active);
  }

  /** A saved window's index is in range of its saved projects and names the active project if that
      was kept, else its nearest kept predecessor, else the first kept project. */
  lemma SavedIndexNamesNearest(window: Window)
    requires Snapshot(window).Some?
    ensures var saved, kept := Snapshot(window).value, Kept(window.projects.value);
            && |saved.projects| == |kept| && saved.activeProject < |kept|
            && saved.projects[saved.activeProject] == kept[saved.activeProject].project
            && kept[saved.activeProject].index < |window.projects.value|
            && saved.projects[saved.activeProject] == window.projects.value[kept[saved.activeProject].index]
    ensures var projects, active := window.projects.value, window.activeProject;
            var index := Kept(projects)[Snapshot(window).value.activeProject].index;
            && (active < |projects| && IsKept(projects[active]) ==> index == active)
            && (forall i :: 0 <= i < |projects| && i <= active && IsKept(projects[i]) ==> i <= index <= active)
            && (index > active ==> Snapshot(window).value.activeProject == 0)
  {
    var projects, active := window.projects.value, window.activeProject;
    var kept := Kept(projects);
    KeptFacts(projects, 0);
    SavedIndexIsNearest(kept, active);
    assert IsKeptAt(kept[SavedActiveIndex(kept, active)], projects, 0);
    var index := kept[SavedActiveIndex(kept, active)].index;
    forall i | 0 <= i < |projects| && i <= active && IsKept(projects[i]) ensures i <= index <= active {
      var k := KeptFinds(projects, 0, i);
    }
  }

  // ----- what is saved

  lemma {:induction false} KeptCovers(projects: seq<Project>, from: nat, kept: seq<KeptProject>)
    requires from <= |projects| && kept == KeptFrom(projects, from)
    ensures forall i :: from <= i < |projects| && !projects[i].isDragPreview && projects[i].tabs != [] ==>
              exists k :: 0 <= k < |kept| && kept[k].index == i
    ensures forall k :: 0 <= k < |kept| ==> !kept[k].project.isDragPreview && kept[k].project.tabs != []
  {
    KeptFacts(projects, from);
    assert forall k :: 0 <= k < |kept| ==> IsKeptAt(kept[k], projects, from);
    forall i | from <= i < |projects| && !projects[i].isDragPreview && projects[i].tabs != []
      ensures exists k :: 0 <= k < |kept| && kept[k].index == i
    {
      var k := KeptFinds(projects, from, i);
    }
  }

  /** The indices of the projects that are no drag preview and have tabs, in order. */
  ghost predicate AreWorthSaving(projects: seq<Project>, indices: seq<nat>) {
    && (forall j, k :: 0 <= j < k < |indices| ==> indices[j] < indices[k])
    && (forall i: nat :: i in indices
          <==> i < |projects| && !projects[i].isDragPreview && projects[i].tabs != [])
  }

  lemma KeptIndices(projects: seq<Project>) returns (indices: seq<nat>)
    ensures AreWorthSaving(projects, indices) && |indices| == |Kept(projects)|
    ensures forall k :: 0 <= k < |indices| ==>
              indices[k] < |projects| && Kept(projects)[k].project == projects[indices[k]]
  {
    var kept := Kept(projects);
    KeptFacts(projects, 0);
    KeptCovers(projects, 0, kept);
    assert forall k :: 0 <= k < |kept| ==> IsKeptAt(kept[k], projects, 0);
    indices := seq(|kept|, k requires 0 <= k < |kept| => kept[k].index);
    forall i: nat | i < |projects| && !projects[i].isDragPreview && projects[i].tabs != [] ensures i in indices {
      var k :| 0 <= k < |kept| && kept[k].index == i;
      assert indices[k] == i;
    }
  }

  /** What is saved of a window: exactly those projects; and nothing if there is none, or the window
      shows no projects or a drag preview. */
  lemma SnapshotIs(window: Window) returns (indices: seq<nat>)
    ensures window.projects.Some? ==> AreWorthSaving(window.projects.value, indices)
    ensures Snapshot(window).Some? <==> window.projects.Some? && !window.activeIsDragPreview && indices != []
    ensures Snapshot(window).Some? ==>
              && |Snapshot(window).value.projects| == |indices|
              && forall k :: 0 <= k < |indices| ==>
                   && indices[k] < |window.projects.value|
                   && Snapshot(window).value.projects[k] == window.projects.value[indices[k]]
  {
    indices := [];
    if window.projects.Some? {
      indices := KeptIndices(window.projects.value);
    }
  }
}
