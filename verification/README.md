# Position hierarchy admin — Dafny model

This project models the logic of a small React admin application that manages
an organisation's positions (a hierarchy: each position may name a parent
position by name and by id) and its employees. What is modelled is what the
page components compute, not how they render:

- **The position tree** (`app/Page/Treecomponent.tsx`):
  - `buildTree` turns the flat list of fetched position records into an id graph of roots and children.
  - `removeNode` prunes a subtree from the displayed forest.
  - `toggleExpand` flips a node's expanded state, and the render keeps to the expanded set.
  - `handleSave` builds the add-or-update payload.
  - `handleDelete` removes a node locally only when the remote delete succeeds.
- **The two list views** (`app/components/Employeelist.tsx`, `app/components/PositionList.tsx`):
  - the shared list state: search term, filtered rows, no-results flag and current page;
  - the case-insensitive search, clear and the sync with fetched data;
  - pagination of 10 rows per page;
  - the confirmation and success gate of `handleDelete`;
  - the position list's update payload.
- **The position form** (`app/components/PositionForm.tsx`):
  - required-name and uniqueness validation;
  - the parent picker, deduplicated by name with the first occurrence winning;
  - resolution of the chosen parent name to an id;
  - the add-or-update submission and what follows its reply.
- **The employee form** (`app/components/Employeeform.tsx`):
  - required-field validation;
  - the name-to-record map, where the last record with a name wins;
  - auto-filling the parent position;
  - the payload and the add-or-update choice;
  - what follows the reply.
- **The page shell** (`app/Page/Frontpage.tsx`):
  - the four visibility flags and `openModal` / `closeAllModals` / `handleHomeClick`;
  - the choice between home content and list views;
  - the collapsible navbar that holds the tree.

JavaScript semantics are written out where the code depends on them:

| JavaScript behaviour | Model |
|---|---|
| nullable strings | `Js.Nullable` |
| truthiness and `x \|\| ""` | `Js.Truthy`, `Js.OrEmpty` |
| ASCII `toLowerCase` | `Js.Lower` |
| `String.prototype.includes` | `Js.Includes`, specified by an explicit occurrence index |
| `Array.prototype.slice` with clamped and negative indices | `Js.Slice` |
| `Math.ceil(n / 10)` | `Listing.TotalPages` |

Remote calls are parameters:
- A `Records.Reply` is either `Threw` or `Returned(truthy)`.
- A confirmation dialog is a `bool`.
- A notification is a `Records.Toast`.

Modules, one per file:
- `Js`, `Seqs` and `Records` hold shared definitions.
- `PositionTree` models `buildTree`.
- `Forest` models `removeNode`, expansion and rendering.
- `TreeActions` models the tree's handlers.
- `Listing`, `EmployeeList` and `PositionList` model the list views.
- `PositionForm`, `EmployeeForm` and `Frontpage` model the remaining components.

### Where the code does something other than one might expect

- **Dangling parent id.** A record whose truthy `parentPositionId` is not the id of any fetched record appears nowhere in the built tree. It is neither a root nor a child, because the code only pushes it when the parent node exists (`app/Page/Treecomponent.tsx:35-39`). One might expect such a record to become a root; the code drops it. See `PositionTree.DanglingRecordDropped`.
- **Self-parent.** A record whose `parentPositionId` is its own id becomes its own child and is not a root (`PositionTree.SelfParentIsOwnChild`).
- **Duplicate ids.** When ids repeat, the node stored under an id comes from the last record with that id. The root and child lists repeat the id once per record (`PositionTree.NodeIsLastRecord`, `PositionTree.RootsMembership`).

## Model

| member | source | states |
|---|---|---|
| PositionTree.NodeMap | app/Page/Treecomponent.tsx:22-31 | the first pass keys a node by every record's id; an id maps to the node built from the last record carrying it |
| PositionTree.Link | app/Page/Treecomponent.tsx:33-43 | the second pass yields, as roots, the ids of records with a falsy parent id in input order, and, under every node id, the ids of the records whose parent id is that id, in input order |
| PositionTree.PushStep | app/Page/Treecomponent.tsx:33-43 | one iteration of the second pass keeps the invariant: after the records so far, the roots and every child list are exactly those of the reference definitions |
| PositionTree.BuildTree | app/Page/Treecomponent.tsx:18-46 | the graph has a node and a child list for exactly the input ids; its roots are the ids of the parentless records and each child list is the records naming that id as parent, both in input order |
| PositionTree.NodeIsLastRecord | app/Page/Treecomponent.tsx:22-31 | a node's label, value (`position-id`) and data come from the last record with that id |
| PositionTree.EmptyInput | app/Page/Treecomponent.tsx:18-46 | no records give no roots and no nodes |
| PositionTree.RootsMembership | app/Page/Treecomponent.tsx:40-42 | an id is a root iff some record with that id has a falsy parent id |
| PositionTree.ChildrenMembership | app/Page/Treecomponent.tsx:35-39 | an id is a child of `pid` iff some record with that id names `pid` as its (truthy) parent id |
| PositionTree.KeepsInputOrder | app/Page/Treecomponent.tsx:33-43 | the roots and every child list are subsequences of the input ids, so input order is kept |
| PositionTree.RecordPlaced | app/Page/Treecomponent.tsx:33-43 | a parentless record is a root, and a record whose parent id is present is among that parent's children |
| PositionTree.AttachedIff | app/Page/Treecomponent.tsx:33-43 | an id appears in the graph (as a root or as some node's child) iff some record with it is parentless or names a present parent |
| PositionTree.DanglingRecordDropped | app/Page/Treecomponent.tsx:35-39 | a record with a unique id whose parent id is not present is neither a root nor anyone's child |
| PositionTree.SelfParentIsOwnChild | app/Page/Treecomponent.tsx:35-39 | a record naming itself as parent is its own child and, when its id is unique, not a root |
| PositionTree.DistinctIdsNoRepeats | app/Page/Treecomponent.tsx:18-46 | with distinct input ids, no id repeats among the roots or within a child list |
| PositionTree.DistinctIdsRootNotChild | app/Page/Treecomponent.tsx:33-43 | with distinct input ids, a child is never also a root |
| PositionTree.DistinctIdsOneParent | app/Page/Treecomponent.tsx:33-43 | with distinct input ids, a node has at most one parent |
| PositionTree.ChainOfThreeRoots | app/Page/Treecomponent.tsx:18-46 | a chain of three records (root, its child, its grandchild) has the first as its only root |
| PositionTree.ChainOfThreeChildren | app/Page/Treecomponent.tsx:18-46 | in that chain each record's only child is the next one and the last has none |
| Forest.RemoveNodeSurvivors | app/Page/Treecomponent.tsx:76-88 | after `removeNode(f, x)` a node remains iff the path from a root to it passes through no node with id `x` |
| Forest.RemoveNodeGone | app/Page/Treecomponent.tsx:79-81 | no node with id `x` remains at any depth |
| Forest.RemoveNodeSubset | app/Page/Treecomponent.tsx:76-88 | removal adds no id |
| Forest.RemoveNodeAbsent | app/Page/Treecomponent.tsx:76-88 | removing an id that does not occur leaves the forest unchanged |
| Forest.RemoveNodeIdempotent | app/Page/Treecomponent.tsx:76-88 | removing the same id twice is removing it once |
| Forest.RemoveNodeKeepsOrder | app/Page/Treecomponent.tsx:77-87 | the top-level ids after removal are the old ones without `x`, in their old order |
| Forest.RemoveNodeKeepsPreorder | app/Page/Treecomponent.tsx:76-88 | the surviving nodes keep their relative order at every depth: the preorder after removal is a subsequence of the preorder before |
| Forest.RemoveNodeShrinks | app/Page/Treecomponent.tsx:76-88 | removal never grows the forest, and strictly shrinks it when `x` occurs |
| Forest.RemoveMiddleOfChain | app/Page/Treecomponent.tsx:76-88 | removing the middle of a three-node chain leaves the root with no children (the grandchild goes with its parent) |
| Forest.ToggleExpand | app/Page/Treecomponent.tsx:160-170 | the toggled key is expanded iff it was not; every other key keeps its state |
| Forest.ToggleTwice | app/Page/Treecomponent.tsx:160-170 | toggling a key twice restores the expanded set |
| Forest.RenderedCollapsed | app/Page/Treecomponent.tsx:172-207 | with nothing expanded exactly the top-level nodes are drawn, in order |
| Forest.RenderedExpanded | app/Page/Treecomponent.tsx:200-204 | with every node expanded the whole forest is drawn in preorder |
| Forest.RenderedMonotone | app/Page/Treecomponent.tsx:200-204 | expanding more keys only inserts nodes: the smaller drawing is a subsequence of the larger |
| TreeActions.SaveCall | app/Page/Treecomponent.tsx:124-141 | `id` and `position` pass through, falsy parent name and id become `""` and truthy ones are kept, and a truthy `id` selects update over add |
| TreeActions.AfterSave | app/Page/Treecomponent.tsx:131-157 | any reply that does not throw refetches, closes the modal and shows success, whatever its value; a throw only shows an error |
| TreeActions.DeleteFromTree | app/Page/Treecomponent.tsx:90-120 | the tree changes only after a confirmation and a non-throwing delete; then the new tree is `removeNode(tree, x)`: a node stays iff its root path avoids `x`, so `x` is gone, no id is added, and an absent `x` changes nothing |
| TreeActions.DeleteToast | app/Page/Treecomponent.tsx:102-118 | no toast without confirmation; error toast iff the confirmed delete throws |
| Listing.TotalPages | app/components/Employeelist.tsx:151 | the smallest page count whose pages of 10 hold all `n` rows |
| Listing.Page | app/components/Employeelist.tsx:150 | a page holds at most 10 rows, is the `p`-th block of 10 rows clamped to the list, and is empty for page 0 and beyond the last page |
| Listing.PagesCoverList | app/components/Employeelist.tsx:150-151 | pages 1 to `totalPages` laid end to end are exactly the list |
| Listing.PagesThroughPrefix | app/components/Employeelist.tsx:150 | the first `k` pages are the first `10k` rows |
| Listing.TwentyFiveItems | app/components/PositionList.tsx:127-128 | 25 rows give 3 pages, the last holding the final 5 |
| Listing.ApplySearch | app/components/Employeelist.tsx:44-54 | after a search the page is 1, every shown row passes the filter, and the no-results flag is set iff no fetched row passes |
| Listing.ClearSearch | app/components/Employeelist.tsx:62-67 | clearing shows the whole fetched list on page 1 with no term and no flag |
| Listing.ClearSearchUndoesSearch | app/components/PositionList.tsx:59-64 | clearing after any search gives the same state as clearing directly, showing the first 10 fetched rows |
| Listing.SyncData | app/components/Employeelist.tsx:37-41 | a non-empty fetch replaces the rows, an empty one changes nothing, and term, flag and page are kept |
| Listing.FirstFetchShowsFirstPage | app/components/Employeelist.tsx:27-41 | a view starts with no rows, and its first non-empty fetch shows that fetch's first page of up to 10 rows |
| Listing.EmptyFetchKeepsStaleRows | app/components/PositionList.tsx:34-38 | an empty fetch (after the last record is deleted) leaves the previously shown rows on screen |
| Listing.FetchIgnoresActiveTerm | app/components/Employeelist.tsx:37-41 | a non-empty fetch replaces the rows unfiltered even while a search term is set |
| Listing.HandleDelete | app/components/Employeelist.tsx:69-107 | a refetch happens iff the dialog is confirmed and the delete returns truthy; a falsy or thrown reply after confirmation shows the error toast; no confirmation, no toast |
| EmployeeList.Search | app/components/Employeelist.tsx:56-60 | the term is kept, the page reset to 1, and no results is flagged iff no employee's name includes the term, ignoring case |
| EmployeeList.SearchFindsExactlyMatches | app/components/Employeelist.tsx:46-49 | the rows after a search are exactly the matching employees, each as often as fetched, in fetched order |
| EmployeeList.EmptyTermKeepsAll | app/components/Employeelist.tsx:46-50 | the empty term keeps every employee, and flags no results only for an empty fetch |
| EmployeeList.MatchIgnoresCase | app/components/Employeelist.tsx:47 | names and terms that lower-case alike match alike |
| EmployeeList.LowerCasedTermMatchesAlike | app/components/Employeelist.tsx:47 | a term typed in lower case finds the same employees as the term in any case |
| PositionList.Search | app/components/PositionList.tsx:40-57 | the term is kept, the page reset to 1, and no results is flagged iff no position matches on its name or parent name |
| PositionList.MatchesNameOrParent | app/components/PositionList.tsx:42-45 | a position matches iff its lower-cased name, or its parent name when present, includes the lower-cased term; the truthiness test on the parent changes nothing |
| PositionList.SearchFindsExactlyMatches | app/components/PositionList.tsx:42-46 | the rows after a search are exactly the matching positions, each as often as fetched, in fetched order |
| PositionList.EmptyTermKeepsAll | app/components/PositionList.tsx:42-46 | the empty term keeps every position |
| PositionList.SaveCall | app/components/PositionList.tsx:113-118 | always an update keyed by the record's own id, name kept, falsy parent name and id sent as `""` and truthy ones kept |
| PositionForm.Validate | app/components/PositionForm.tsx:10-23 | "required" iff the name is empty; "already exists" iff it is non-empty and a known record has exactly that name (case-sensitive); no known list never fails uniqueness |
| PositionForm.DistinctNames | app/components/PositionForm.tsx:62 | the names of the fetched records, each once, exactly those present, ordered by first occurrence |
| PositionForm.Picker | app/components/PositionForm.tsx:60-66 | one entry per distinct name in first-occurrence order, carrying the id of the first record with that name |
| PositionForm.FindId | app/components/PositionForm.tsx:81-82 | the id of the first entry with the given name, or `""` when none has it |
| PositionForm.ResolveParentId | app/components/PositionForm.tsx:81-82 | a chosen parent resolves to the id of the first picker entry with that name; `null` or an unknown name resolves to `""` |
| PositionForm.ResolvesToFirstRecord | app/components/PositionForm.tsx:60-82 | through the picker, a parent name resolves to the id of the first fetched record with that name, and to `""` when none has it |
| PositionForm.Prefill | app/components/PositionForm.tsx:68-72 | the form opens with the edited position's name and parent name, a missing parent becoming `""` rather than `null` |
| PositionForm.Submit | app/components/PositionForm.tsx:77-87 | rejected iff validation fails; otherwise an update carrying the edited position's id iff one is being edited, else an add, with name, chosen parent and resolved parent id |
| PositionForm.UnchangedEditIsUpdate | app/components/PositionForm.tsx:68-86 | opening an existing named position and submitting it unchanged sends an update of it under the same name and parent name |
| PositionForm.UniquenessRejectsUnchangedEdit | app/components/PositionForm.tsx:16-21 | were the fetched list available to the uniqueness test, resubmitting an edited position unchanged would be rejected as already existing |
| PositionForm.AfterSubmit | app/components/PositionForm.tsx:88-108 | reset and close iff the reply is truthy; a success toast iff so, an error toast otherwise |
| EmployeeForm.Validate | app/components/Employeeform.tsx:10-15 | one error per empty name, empty description and missing position, none for the parent; no errors iff all three are present |
| EmployeeForm.Defaults | app/components/Employeeform.tsx:46-51 | the form's default values are the edited employee's fields, or all empty for a new one; what it holds after rendering is `EmployeeForm.Opened` |
| EmployeeForm.PositionsByName | app/components/Employeeform.tsx:54-57 | the map has a key for exactly the fetched names, each holding the last record with that name; no data gives an empty map |
| EmployeeForm.AutoFillParent | app/components/Employeeform.tsx:61-66 | a chosen name that is a key sets the parent to that record's parent or `""`; otherwise the parent field is unchanged |
| EmployeeForm.AutoFillFromLastRecord | app/components/Employeeform.tsx:54-66 | choosing a fetched name fills in the parent of the last record with that name |
| EmployeeForm.Rerender | app/components/Employeeform.tsx:54-66 | a render followed by the auto-fill effect, which runs after every render because the map is a new object each time: only the parent field can change, and it becomes the effect's result |
| EmployeeForm.RerenderIdempotent | app/components/Employeeform.tsx:54-66 | further renders with the same data and choices change nothing |
| EmployeeForm.Opened | app/components/Employeeform.tsx:44-66 | after the first render the form holds the defaults, except that a default position that is a fetched name replaces the parent with the parent of the last fetched record with that name |
| EmployeeForm.ManualParentOverwritten | app/components/Employeeform.tsx:59-66 | a parent chosen by hand is overwritten on the next render while the chosen position is a fetched name, and kept otherwise |
| EmployeeForm.AutoFillIdempotent | app/components/Employeeform.tsx:61-66 | rerunning the effect with the same choice changes nothing |
| EmployeeForm.Submit | app/components/Employeeform.tsx:68-89 | rejected with the validation errors iff any; otherwise name, description and position are copied, an absent parent becomes `""`, and update is chosen iff the edited employee has a non-empty id |
| EmployeeForm.ResubmitUnchanged | app/components/Employeeform.tsx:44-80 | opening a complete employee and submitting unchanged sends an update with its name, description and position; the parent is its own only when its position is not a fetched name, else the parent of the last fetched record with that name |
| EmployeeForm.OpeningReplacesOwnParent | app/components/Employeeform.tsx:61-66 | an employee under `CTO` whose position is fetched under `CEO` is resubmitted under `CEO` |
| EmployeeForm.AfterSubmit | app/components/Employeeform.tsx:79-106 | the form closes iff the reply is truthy; any returned reply shows success, only a throw shows an error |
| EmployeeForm.FalsyResultStaysOpen | app/components/Employeeform.tsx:82-98 | a falsy reply still shows the success toast while the form stays open |
| Frontpage.OpenModal | app/Page/Frontpage.tsx:41-49 | exactly the named flag is set |
| Frontpage.CloseAllModals | app/Page/Frontpage.tsx:51-58 | every flag is cleared, giving the initial state |
| Frontpage.HandleHomeClick | app/Page/Frontpage.tsx:60-63 | the home link has the effect of closing everything |
| Frontpage.MainViews | app/Page/Frontpage.tsx:115-122 | each list is drawn iff its flag is set, and the home content iff neither is |
| Frontpage.OpenShowsOneView | app/Page/Frontpage.tsx:41-49 | after opening anything at most one view is drawn: home for a form, else the named list |
| Frontpage.ReachableAtMostOneOpen | app/Page/Frontpage.tsx:29-63 | from a state with at most one flag set, no sequence of open, close and home actions ever sets two, so two lists are never drawn together |
| Frontpage.NavbarWidth | app/Page/Frontpage.tsx:71 | the navbar is 350 wide when open and 0 when closed |
| Frontpage.ToggleNavbar | app/Page/Frontpage.tsx:98-110 | the toggle flips the navbar and leaves the flags alone; the tree is unmounted or freshly mounted, so its expanded set is empty afterwards |
| Frontpage.ExpandInTree | app/Page/Treecomponent.tsx:160-170 | a chevron click toggles the key in the mounted tree's expanded set, and is impossible while the navbar is closed |
| Frontpage.InitialShellShowsTreeAndHome | app/Page/Frontpage.tsx:28-39 | the page starts with the navbar open at width 350, the tree shown collapsed (top-level nodes only), no flag set and the home content shown |
| Frontpage.TreeVisibleIffWide | app/Page/Frontpage.tsx:71-110 | the tree is drawn iff the navbar has width; closing and reopening restores the navbar and the flags but brings the tree back collapsed, so the page is restored iff nothing was expanded |

## Left out

- The REST layer (`app/Redux/api.ts`, `app/Redux/store.ts`): requests, caching and tag invalidation are library code. A request's outcome is a `Reply` parameter, and a refetch is a flag in the modelled effect.
- Dialogs, toasts and loading flags: a confirmation is a boolean and a notification is a `Toast` value. Message texts (of toasts and of validation errors), colours and the `loading` spinner are not modelled.
- Debounce timing: the 300 ms debounced filter is applied at once, so `Search` combines setting the term with the filter. A stale filter closed over an older fetch is not modelled.
- `toLowerCase` is modelled for ASCII letters only. Full Unicode case mapping is not.
- JSX, styling and Mantine components, apart from the visibility rules in `Frontpage` and the drawn-node order in `Forest.Rendered`.
- `app/Page/Navbar.tsx`, `app/Page/footer.tsx` and `app/Home.tsx`: their state is DOM-driven or they are static markup.
- Object keys: the code keys plain objects by id and by name. Keys inherited from the object prototype (`"constructor"`, `"__proto__"`) would behave differently and are not modelled.
- Node sharing: `buildTree` links shared node objects. With duplicate ids the same object can sit in several places, and `removeNode` mutates children in place; with a cycle reachable from a root it would not terminate. `Forest` models a forest of independent nodes and does not connect it to the id graph of `PositionTree`.
- The position tree's edit modal (`handleEdit`, the refetch when the modal closes) is not modelled. `Treecomponent.handleSave` (`TreeActions.SaveCall`, `TreeActions.AfterSave`) is modelled but is never reached: the position form does not call its `onSave` prop.
- PositionList.handleSave: only the payload (`PositionList.SaveCall`) is modelled. Its outcome is a refetch and closing the form on success and a console log on a throw, and like the tree's handler it is never reached.
- Employeelist.handleSave (`app/components/Employeelist.tsx:119-139`): not modelled, since the employee form never calls its `onSave` prop.
- PositionForm.Validate: the uniqueness test reads the list from the form values (`context.parent`), which never hold one, so in the running form it always passes. The model takes the list as an optional parameter to state the rule as written.
- EmployeeForm.Validate: yup's treatment of a cleared (`null`) parent position, which `yup.string()` without `nullable()` may reject, is not modelled. The parent is treated as optional, as the schema's intent is.
- Frontpage.ToggleNavbar: a remounted tree also loses the nodes its `handleDelete` pruned locally and rebuilds from the fetched positions; the shell models only the loss of the expanded set.
- Listing.Page: the contract states the result for page numbers of 0 and above. The view never produces negative pages, and `Js.Slice` gives them the JavaScript meaning without a stated property.
