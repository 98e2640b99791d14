/** The save and delete handlers of the position tree (app/Page/Treecomponent.tsx):
    the payload and add-or-update choice of `handleSave`, and the success gate
    of `handleDelete` in front of the local `removeNode`. */
module TreeActions {
  import opened Js
  import opened Records
  import opened Forest

  /** The position `handleSave` receives. */
  datatype SavedPosition = SavedPosition(id: Nullable, position: string, parentPosition: Nullable, parentPositionId: Nullable)

  /** The request `handleSave` sends: the parent name and id default to `""`,
      `id` and `position` are passed through, and a truthy `id` selects an update. */
  function SaveCall(u: SavedPosition): (c: PositionCall)
    ensures c.UpdatePosition? <==> Truthy(u.id)
    ensures c.payload.id == u.id && c.payload.position == u.position
    ensures c.payload.parentPosition == "" <==> !Truthy(u.parentPosition)
    ensures c.payload.parentPosition != "" ==> u.parentPosition == Str(c.payload.parentPosition)
    ensures c.payload.parentPositionId == "" <==> !Truthy(u.parentPositionId)
    ensures c.payload.parentPositionId != "" ==> u.parentPositionId == Str(c.payload.parentPositionId)
  {
    var payload := PositionPayload(u.id, u.position, OrEmpty(u.parentPosition), OrEmpty(u.parentPositionId));
    if Truthy(u.id) then UpdatePosition(payload) else AddPosition(payload)
  }

  /** A save that has settled: whether the list is refetched and the modal closed. */
  datatype SaveEffect = SaveEffect(refetch: bool, closeModal: bool, toast: Toast)

  /** After the request of `handleSave`: any reply that does not throw counts
      as success (its value is not inspected); a thrown one changes nothing but
      the toast. */
  function AfterSave(reply: Reply): (r: SaveEffect)
    ensures r.refetch <==> !reply.Threw?
    ensures r.closeModal <==> !reply.Threw?
    ensures r.toast == ErrorToast <==> reply.Threw?
    ensures r.toast != NoToast
  {
    if reply.Threw? then SaveEffect(false, false, ErrorToast) else SaveEffect(true, true, SuccessToast)
  }

  /** `handleDelete(nodeId)` on the displayed tree: the request is only sent
      once the dialog is confirmed, and the node is removed locally only when
      the request does not throw. */
  function DeleteFromTree(tree: seq<Node>, x: string, confirmed: bool, reply: Reply): (r: seq<Node>)
    ensures !confirmed || reply.Threw? ==> r == tree
    ensures confirmed && reply.Returned? ==> r == RemoveNode(tree, x)
    ensures confirmed && reply.Returned? ==> x !in AllIds(r) && AllIds(r) <= AllIds(tree)
    ensures confirmed && reply.Returned? ==> forall y :: y in AllIds(r) <==> ReachableAvoiding(tree, x, y)
    ensures confirmed && reply.Returned? && x !in AllIds(tree) ==> r == tree
  {
    if confirmed && reply.Returned? then
      RemoveNodeGone(tree, x);
      RemoveNodeSubset(tree, x);
      forall y ensures y in AllIds(RemoveNode(tree, x)) <==> ReachableAvoiding(tree, x, y) {
        RemoveNodeSurvivors(tree, x, y);
      }
      assert x !in AllIds(tree) ==> RemoveNode(tree, x) == tree by {
        if x !in AllIds(tree) {
          RemoveNodeAbsent(tree, x);
        }
      }
      RemoveNode(tree, x)
    else tree
  }

  /** The toast `handleDelete` shows. */
  function DeleteToast(confirmed: bool, reply: Reply): (t: Toast)
    ensures t == NoToast <==> !confirmed
    ensures t == ErrorToast <==> confirmed && reply.Threw?
  {
    if !confirmed then NoToast else if reply.Threw? then ErrorToast else SuccessToast
  }
}
