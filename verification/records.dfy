/** The records the views exchange with the remote store, and the outcome of
    a remote mutation as the components observe it. */
module Records {
  import opened Js

  /** A position as fetched from `/positions`. `parentPositionId` names the
      parent's `id`; `parentPosition` is a display copy of the parent's name. */
  datatype Position = Position(
    id: string,
    position: string,
    description: Nullable,
    parentPosition: Nullable,
    parentPositionId: Nullable)

  /** An employee as fetched from `/employees`; it refers to its position by name. */
  datatype Employee = Employee(
    id: string,
    name: string,
    description: string,
    position: string,
    parentPosition: string)

  /** What `await mutation(arg).unwrap()` does: it throws (a failed request),
      or returns a value whose truthiness some callers test. */
  datatype Reply = Threw | Returned(truthy: bool)

  function IdOf(p: Position): string { p.id }

  function NameOf(p: Position): string { p.position }

  /** The notification a handler shows, if any. */
  datatype Toast = NoToast | SuccessToast | ErrorToast

  /** The body the position views send to `addPosition` / `updatePosition`
      when they default the parent fields with `|| ""`. */
  datatype PositionPayload = PositionPayload(id: Nullable, position: string, parentPosition: string, parentPositionId: string)

  datatype PositionCall = AddPosition(payload: PositionPayload) | UpdatePosition(payload: PositionPayload)
}
