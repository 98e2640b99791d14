/** The page shell (app/Page/Frontpage.tsx): four visibility flags of which
    at most one is set, the home view shown when neither list is, and the
    collapsible navbar that holds the position tree. */
module Frontpage {
  import opened Seqs
  import opened Forest

  /** The key of one flag. */
  datatype Modal = EmployeeFormModal | PositionFormModal | EmployeeListView | PositionListView

  datatype ModalState = ModalState(employeeForm: bool, positionForm: bool, showEmployeeList: bool, showPositionList: bool)

  /** The flag a key names. */
  function Flag(s: ModalState, m: Modal): bool {
    match m
    case EmployeeFormModal => s.employeeForm
    case PositionFormModal => s.positionForm
    case EmployeeListView => s.showEmployeeList
    case PositionListView => s.showPositionList
  }

  /** No flag is set. */
  predicate AllClosed(s: ModalState) {
    forall m: Modal :: !Flag(s, m)
  }

  /** At most one flag is set. */
  predicate AtMostOneOpen(s: ModalState) {
    forall m, n: Modal :: Flag(s, m) && Flag(s, n) ==> m == n
  }

  const InitialModals := ModalState(false, false, false, false)

  /** `openModal(m)`: the named flag is set and every other one cleared. */
  function OpenModal(m: Modal): (r: ModalState)
    ensures forall n: Modal :: Flag(r, n) <==> n == m
  {
    match m
    case EmployeeFormModal => ModalState(true, false, false, false)
    case PositionFormModal => ModalState(false, true, false, false)
    case EmployeeListView => ModalState(false, false, true, false)
    case PositionListView => ModalState(false, false, false, true)
  }

  /** `closeAllModals`: every flag cleared, back to the initial state. */
  function CloseAllModals(): (r: ModalState)
    ensures AllClosed(r)
    ensures r == InitialModals
  {
    ModalState(false, false, false, false)
  }

  /** The home link does what closing does. */
  function HandleHomeClick(): (r: ModalState)
    ensures AllClosed(r)
    ensures r == CloseAllModals()
  {
    CloseAllModals()
  }

  /** The main area shows the landing content exactly when neither list is. */
  predicate ShowsHome(s: ModalState) {
    !s.showEmployeeList && !s.showPositionList
  }

  /** The main area's lists shown, in the order they are drawn. */
  function MainViews(s: ModalState): (r: seq<Modal>)
    ensures EmployeeListView in r <==> s.showEmployeeList
    ensures PositionListView in r <==> s.showPositionList
    ensures r == [] <==> ShowsHome(s)
  {
    (if s.showEmployeeList then [EmployeeListView] else [])
    + (if s.showPositionList then [PositionListView] else [])
  }

  /** After opening any flag the main area shows one thing: the named list,
      or the landing content when a form was opened. */
  lemma OpenShowsOneView(m: Modal)
    ensures |MainViews(OpenModal(m))| <= 1
    ensures ShowsHome(OpenModal(m)) <==> m == EmployeeFormModal || m == PositionFormModal
    ensures !ShowsHome(OpenModal(m)) ==> MainViews(OpenModal(m)) == [m]
  {
  }

  /** A user action on the page. */
  datatype Action = Open(m: Modal) | CloseAll | HomeClick

  function Step(s: ModalState, a: Action): ModalState {
    match a
    case Open(m) => OpenModal(m)
    case CloseAll => CloseAllModals()
    case HomeClick => HandleHomeClick()
  }

  /** The state after a sequence of actions. */
  function Run(s: ModalState, acts: seq<Action>): ModalState
    decreases |acts|
  {
    if |acts| == 0 then s else Run(Step(s, acts[0]), acts[1..])
  }

  /** Whatever the user does from the initial state, at most one flag is
      ever set, so at most one list is drawn. */
  lemma {:induction false} ReachableAtMostOneOpen(s: ModalState, acts: seq<Action>)
    requires AtMostOneOpen(s)
    ensures AtMostOneOpen(Run(s, acts))
    ensures |MainViews(Run(s, acts))| <= 1
    decreases |acts|
  {
    if |acts| > 0 {
      var t := Step(s, acts[0]);
      assert AtMostOneOpen(t) by {
        match acts[0]
        case Open(m) =>
        case CloseAll =>
        case HomeClick =>
      }
      ReachableAtMostOneOpen(t, acts[1..]);
    } else {
      assert !(s.showEmployeeList && s.showPositionList) by {
        assert Flag(s, EmployeeListView) == s.showEmployeeList;
        assert Flag(s, PositionListView) == s.showPositionList;
      }
    }
  }

  /** The page: whether the navbar is open, the flags, and the expanded
      keys of the position tree mounted inside the navbar. */
  datatype Shell = Shell(navbarOpened: bool, modals: ModalState, expanded: set<string>)

  /** The navbar starts open with a freshly mounted, collapsed tree, and
      every flag starts cleared. */
  const InitialShell := Shell(true, InitialModals, {})

  /** Width of the navbar column. */
  function NavbarWidth(sh: Shell): (w: nat)
    ensures w > 0 <==> sh.navbarOpened
    ensures w == 350 || w == 0
  {
    if sh.navbarOpened then 350 else 0
  }

  /** The position tree is drawn only inside an open navbar. */
  predicate ShowsTree(sh: Shell) {
    sh.navbarOpened
  }

  /** The navbar's toggle button flips it and leaves the flags alone.
      Closing unmounts the tree, which drops its expanded keys, and opening
      mounts a new tree that starts with none, so either way the tree's
      expanded set is empty afterwards. */
  function ToggleNavbar(sh: Shell): (r: Shell)
    ensures r.navbarOpened == !sh.navbarOpened
    ensures r.modals == sh.modals
    ensures r.expanded == {}
  {
    Shell(!sh.navbarOpened, sh.modals, {})
  }

  /** Clicking a node's chevron: only possible while the tree is drawn. */
  function ExpandInTree(sh: Shell, key: string): (r: Shell)
    ensures sh.navbarOpened ==> r.expanded == ToggleExpand(sh.expanded, key)
    ensures !sh.navbarOpened ==> r == sh
    ensures r.navbarOpened == sh.navbarOpened && r.modals == sh.modals
  {
    if sh.navbarOpened then sh.(expanded := ToggleExpand(sh.expanded, key)) else sh
  }

  /** On first render the tree is shown, collapsed, in a 350-wide navbar,
      next to the landing content. */
  lemma InitialShellShowsTreeAndHome(f: seq<Node>)
    ensures ShowsTree(InitialShell) && NavbarWidth(InitialShell) == 350
    ensures ShowsHome(InitialShell.modals) && AllClosed(InitialShell.modals)
    ensures Rendered(f, InitialShell.expanded) == Map(f, InfoOf)
  {
    RenderedCollapsed(f);
  }

  /** The tree is visible exactly when the navbar has width. Closing and
      reopening the navbar restores the navbar and the flags but not the
      tree: it comes back collapsed, drawing only its top-level nodes, so
      the page is restored only when nothing was expanded. */
  lemma TreeVisibleIffWide(sh: Shell, f: seq<Node>)
    ensures ShowsTree(sh) <==> NavbarWidth(sh) > 0
    ensures ShowsTree(ToggleNavbar(sh)) <==> !ShowsTree(sh)
    ensures ToggleNavbar(ToggleNavbar(sh)).navbarOpened == sh.navbarOpened
    ensures ToggleNavbar(ToggleNavbar(sh)).modals == sh.modals
    ensures Rendered(f, ToggleNavbar(ToggleNavbar(sh)).expanded) == Map(f, InfoOf)
    ensures ToggleNavbar(ToggleNavbar(sh)) == sh <==> sh.expanded == {}
  {
    RenderedCollapsed(f);
  }
}
