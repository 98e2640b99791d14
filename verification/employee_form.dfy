/** The employee form (app/components/Employeeform.tsx): required-field
    validation, the name-to-position map, the parent auto-fill and the
    add-or-update request. */
module EmployeeForm {
  import opened Js
  import opened Seqs
  import opened Records

  /** What the form holds. Name and description are text inputs; position
      and parent position are pickers, and a cleared picker holds `null`. */
  datatype EmployeeValues = EmployeeValues(name: string, description: string, position: Nullable, parentPosition: Nullable)

  datatype FieldError = NameRequired | DescriptionRequired | PositionRequired

  /** The schema: name, description and position are required, the parent
      position is optional. Errors come in field order, each at most once. */
  function Validate(v: EmployeeValues): (r: seq<FieldError>)
    ensures NameRequired in r <==> v.name == ""
    ensures DescriptionRequired in r <==> v.description == ""
    ensures PositionRequired in r <==> !Truthy(v.position)
    ensures Distinct(r)
    ensures r == [] <==> v.name != "" && v.description != "" && Truthy(v.position)
  {
    (if v.name == "" then [NameRequired] else [])
    + (if v.description == "" then [DescriptionRequired] else [])
    + (if !Truthy(v.position) then [PositionRequired] else [])
  }

  /** The form's default values: the edited employee's fields, or empty
      strings for a new one. What the form shows once rendered is `Opened`. */
  function Defaults(initial: Option<Employee>): (v: EmployeeValues)
    ensures initial.None? ==> v == EmployeeValues("", "", Str(""), Str(""))
    ensures initial.Some? ==> v == EmployeeValues(initial.value.name, initial.value.description,
                                                  Str(initial.value.position), Str(initial.value.parentPosition))
  {
    match initial
    case None => EmployeeValues("", "", Str(""), Str(""))
    case Some(e) => EmployeeValues(e.name, e.description, Str(e.position), Str(e.parentPosition))
  }

  /** The `positions` object: every fetched record written under its name in
      order, so a name holds the last record that has it; no data gives an
      empty object. */
  function PositionsByName(data: Option<seq<Position>>): (m: map<string, Position>)
    ensures data.None? ==> m == map[]
    ensures data.Some? ==> forall n :: n in m <==> exists i :: 0 <= i < |data.value| && data.value[i].position == n
    ensures data.Some? ==> forall n :: n in m ==>
      && 0 <= LastIndexOf(data.value, NameOf, n)
      && m[n] == data.value[LastIndexOf(data.value, NameOf, n)]
      && forall j :: LastIndexOf(data.value, NameOf, n) < j < |data.value| ==> data.value[j].position != n
  {
    match data
    case None => map[]
    case Some(ps) => IndexBy(ps, NameOf)
  }

  /** One run of the auto-fill effect: a chosen name that is a key of the map
      sets the parent field to that record's parent (`""` when it has none);
      otherwise the field keeps its value. The map is rebuilt as a new object
      on every render and is among the effect's dependencies, so the effect
      runs after the first render and after every later one, not only when
      the chosen position changes. */
  function AutoFillParent(byName: map<string, Position>, watched: Nullable, current: Nullable): (r: Nullable)
    ensures Truthy(watched) && watched.s in byName ==> r == Str(OrEmpty(byName[watched.s].parentPosition))
    ensures !(Truthy(watched) && watched.s in byName) ==> r == current
  {
    if Truthy(watched) && watched.s in byName then Str(OrEmpty(byName[watched.s].parentPosition)) else current
  }

  /** Choosing a fetched position's name fills in the parent of the last
      fetched record with that name, whatever the field held before. */
  lemma AutoFillFromLastRecord(ps: seq<Position>, name: string, current: Nullable, k: nat)
    requires name != "" && k < |ps| && ps[k].position == name
    ensures var i := LastIndexOf(ps, NameOf, name);
      && k <= i
      && AutoFillParent(PositionsByName(Some(ps)), Str(name), current) == Str(OrEmpty(ps[i].parentPosition))
  {
    var i := LastIndexOf(ps, NameOf, name);
    assert NameOf(ps[k]) == name;
  }

  /** Running the effect again with the same choice changes nothing. */
  lemma AutoFillIdempotent(byName: map<string, Position>, watched: Nullable, current: Nullable)
    ensures var once := AutoFillParent(byName, watched, current);
      AutoFillParent(byName, watched, once) == once
  {
  }

  /** A render followed by its auto-fill effect. */
  function Rerender(data: Option<seq<Position>>, v: EmployeeValues): (r: EmployeeValues)
    ensures r.name == v.name && r.description == v.description && r.position == v.position
    ensures r.parentPosition == AutoFillParent(PositionsByName(data), v.position, v.parentPosition)
  {
    v.(parentPosition := AutoFillParent(PositionsByName(data), v.position, v.parentPosition))
  }

  /** Further renders with the same data and choices change nothing. */
  lemma RerenderIdempotent(data: Option<seq<Position>>, v: EmployeeValues)
    ensures Rerender(data, Rerender(data, v)) == Rerender(data, v)
  {
    AutoFillIdempotent(PositionsByName(data), v.position, v.parentPosition);
  }

  /** What the form holds once it has rendered: the default values, with the
      parent replaced by the auto-fill effect when the default position is a
      fetched name. */
  function Opened(initial: Option<Employee>, data: Option<seq<Position>>): (v: EmployeeValues)
    ensures v.name == Defaults(initial).name && v.description == Defaults(initial).description
    ensures v.position == Defaults(initial).position
    ensures data.Some? && initial.Some? && initial.value.position != "" &&
            (exists i :: 0 <= i < |data.value| && data.value[i].position == initial.value.position) ==>
      v.parentPosition == Str(OrEmpty(data.value[LastIndexOf(data.value, NameOf, initial.value.position)].parentPosition))
    ensures (data.None? || initial.None? || forall i :: 0 <= i < |data.value| ==> data.value[i].position != initial.value.position) ==>
      v.parentPosition == Defaults(initial).parentPosition
  {
    Rerender(data, Defaults(initial))
  }

  /** A parent chosen by hand is overwritten on the next render while the
      chosen position is a fetched name, and kept otherwise. */
  lemma ManualParentOverwritten(data: Option<seq<Position>>, v: EmployeeValues, chosen: Nullable)
    ensures Truthy(v.position) && v.position.s in PositionsByName(data) ==>
      Rerender(data, v.(parentPosition := chosen)) == Rerender(data, v)
    ensures !(Truthy(v.position) && v.position.s in PositionsByName(data)) ==>
      Rerender(data, v.(parentPosition := chosen)).parentPosition == chosen
  {
  }

  /** The body sent for an employee; an absent parent becomes `""`. */
  datatype EmployeeBody = EmployeeBody(name: string, description: string, position: string, parentPosition: string)

  datatype EmployeeCall = AddEmployee(body: EmployeeBody) | UpdateEmployee(id: string, body: EmployeeBody)

  datatype Submission = Rejected(errors: seq<FieldError>) | Sent(call: EmployeeCall)

  /** `handleSubmit(onSubmit)`: validation first, then an update when the
      edited employee has a non-empty id and an add otherwise. */
  function Submit(initial: Option<Employee>, v: EmployeeValues): (s: Submission)
    ensures s.Rejected? <==> Validate(v) != []
    ensures s.Rejected? ==> s.errors == Validate(v)
    ensures s.Sent? ==> (s.call.UpdateEmployee? <==> initial.Some? && initial.value.id != "")
    ensures s.Sent? && s.call.UpdateEmployee? ==> s.call.id == initial.value.id
    ensures s.Sent? ==> s.call.body.name == v.name && s.call.body.description == v.description
    ensures s.Sent? ==> v.position == Str(s.call.body.position) && s.call.body.position != ""
    ensures s.Sent? ==> s.call.body.parentPosition == OrEmpty(v.parentPosition)
  {
    var errors := Validate(v);
    if errors != [] then Rejected(errors)
    else
      var body := EmployeeBody(v.name, v.description, v.position.s, OrEmpty(v.parentPosition));
      Sent(if initial.Some? && initial.value.id != "" then UpdateEmployee(initial.value.id, body) else AddEmployee(body))
  }

  /** Opening the form on a complete employee record and submitting it
      unchanged sends an update with the record's name, description and
      position; the parent sent is the employee's own only when its position
      is not a fetched name, and otherwise the parent of the last fetched
      record with that name. */
  lemma ResubmitUnchanged(e: Employee, data: Option<seq<Position>>)
    requires e.id != "" && e.name != "" && e.description != "" && e.position != ""
    ensures var parent :=
        if data.Some? && exists i :: 0 <= i < |data.value| && data.value[i].position == e.position
        then OrEmpty(data.value[LastIndexOf(data.value, NameOf, e.position)].parentPosition)
        else e.parentPosition;
      Submit(Some(e), Opened(Some(e), data)) ==
        Sent(UpdateEmployee(e.id, EmployeeBody(e.name, e.description, e.position, parent)))
  {
    var parent :=
        if data.Some? && exists i :: 0 <= i < |data.value| && data.value[i].position == e.position
        then OrEmpty(data.value[LastIndexOf(data.value, NameOf, e.position)].parentPosition)
        else e.parentPosition;
    var v := Opened(Some(e), data);
    assert v == EmployeeValues(e.name, e.description, Str(e.position), Str(parent)) by {
      assert OrEmpty(Str(e.parentPosition)) == e.parentPosition;
    }
    assert Validate(v) == [];
    assert OrEmpty(Str(parent)) == parent;
  }

  /** An employee whose position is fetched under a different parent is
      resubmitted with that record's parent, not its own. */
  lemma OpeningReplacesOwnParent(e: Employee, ps: seq<Position>)
    requires e.id != "" && e.name != "" && e.description != "" && e.position != ""
    requires |ps| == 1 && ps[0].position == e.position && ps[0].parentPosition == Str("CEO")
    requires e.parentPosition == "CTO"
    ensures Submit(Some(e), Opened(Some(e), Some(ps))).call.body.parentPosition == "CEO"
  {
    ResubmitUnchanged(e, Some(ps));
    assert ps[0].position == e.position;
  }

  /** What follows the request. */
  datatype SubmitEffect = SubmitEffect(close: bool, toast: Toast)

  /** A success toast is shown as soon as the request returns, whatever it
      returns; the form closes only on a truthy result; a throw shows an
      error toast and keeps the form open. */
  function AfterSubmit(reply: Reply): (r: SubmitEffect)
    ensures r.close <==> reply == Returned(true)
    ensures r.toast == SuccessToast <==> reply.Returned?
    ensures r.toast == ErrorToast <==> reply.Threw?
  {
    match reply
    case Threw => SubmitEffect(false, ErrorToast)
    case Returned(truthy) => SubmitEffect(truthy, SuccessToast)
  }

  /** A falsy result still shows the success toast but leaves the form open. */
  lemma FalsyResultStaysOpen()
    ensures AfterSubmit(Returned(false)) == SubmitEffect(false, SuccessToast)
  {
  }
}
