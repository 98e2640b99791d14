/** The position form (app/components/PositionForm.tsx): validation of the
    name, the deduplicated parent picker, resolution of the chosen parent's
    id and the add-or-update request. */
module PositionForm {
  import opened Js
  import opened Seqs
  import opened Records

  datatype ValidationError = PositionRequired | PositionExists

  /** The `position` field's schema: a required string, and the
      `unique-position` test against the known positions, which passes when
      no list is available. Names are compared exactly, case included. */
  function Validate(value: string, known: Option<seq<Position>>): (r: Option<ValidationError>)
    ensures r == Some(PositionRequired) <==> value == ""
    ensures r == Some(PositionExists) <==>
      value != "" && known.Some? && exists i :: 0 <= i < |known.value| && known.value[i].position == value
    ensures r == None <==>
      value != "" && (known.None? || forall i :: 0 <= i < |known.value| ==> known.value[i].position != value)
  {
    if value == "" then Some(PositionRequired)
    else if known.Some? && FirstIndexOf(known.value, NameOf, value) >= 0 then Some(PositionExists)
    else None
  }

  /** One option of the parent picker. */
  datatype PickerEntry = PickerEntry(id: string, position: string)

  function EntryName(e: PickerEntry): string { e.position }

  /** The properties of the distinct names of `ps`, stated on a candidate `r`. */
  ghost predicate DistinctNamesOf(ps: seq<Position>, r: seq<string>) {
    && Distinct(r)
    && (forall n :: n in r <==> exists i :: 0 <= i < |ps| && ps[i].position == n)
    && (forall i, j :: 0 <= i < j < |r| ==> FirstIndexOf(ps, NameOf, r[i]) < FirstIndexOf(ps, NameOf, r[j]))
  }

  /** Adding the name of an appended record, unless already listed, keeps
      the names distinct, complete and in first-occurrence order. */
  lemma DistinctNamesSnoc(init: seq<Position>, last: Position, prev: seq<string>)
    requires DistinctNamesOf(init, prev)
    ensures DistinctNamesOf(init + [last], if last.position in prev then prev else prev + [last.position])
  {
    var ps := init + [last];
    var r := if last.position in prev then prev else prev + [last.position];
    assert forall i :: 0 <= i < |init| ==> ps[i] == init[i];
    assert ps[|init|] == last;
    assert forall n :: n in r <==> exists i :: 0 <= i < |ps| && ps[i].position == n by {
      forall n ensures n in r <==> exists i :: 0 <= i < |ps| && ps[i].position == n {
        if n in r && n !in prev {
          assert ps[|init|].position == n;
        }
      }
    }
    forall i, j | 0 <= i < j < |r|
      ensures FirstIndexOf(ps, NameOf, r[i]) < FirstIndexOf(ps, NameOf, r[j])
    {
      FirstIndexSnoc(init, last, NameOf, r[i]);
      FirstIndexSnoc(init, last, NameOf, r[j]);
      assert r[i] in prev;
      if j < |prev| {
        assert r[j] in prev;
      } else {
        assert r[j] == last.position && last.position !in prev;
      }
    }
  }

  /** `Array.from(new Set(names))`: every position name once, in the order of
      its first occurrence. */
  function DistinctNames(ps: seq<Position>): (r: seq<string>)
    ensures Distinct(r)
    ensures forall n :: n in r <==> exists i :: 0 <= i < |ps| && ps[i].position == n
    ensures forall i, j :: 0 <= i < j < |r| ==> FirstIndexOf(ps, NameOf, r[i]) < FirstIndexOf(ps, NameOf, r[j])
  {
    if |ps| == 0 then []
    else
      var init := ps[..|ps| - 1];
      var last := ps[|ps| - 1];
      assert ps == init + [last];
      var prev := DistinctNames(init);
      DistinctNamesSnoc(init, last, prev);
      if last.position in prev then prev else prev + [last.position]
  }

  /** The parent picker: each distinct name once, in first-occurrence order,
      paired with the id of the first record that has that name. */
  function Picker(ps: seq<Position>): (r: seq<PickerEntry>)
    ensures |r| == |DistinctNames(ps)|
    ensures forall i :: 0 <= i < |r| ==>
      && r[i].position == DistinctNames(ps)[i]
      && 0 <= FirstIndexOf(ps, NameOf, r[i].position)
      && r[i].id == ps[FirstIndexOf(ps, NameOf, r[i].position)].id
  {
    var names := DistinctNames(ps);
    assert forall i :: 0 <= i < |names| ==> FirstIndexOf(ps, NameOf, names[i]) >= 0 by {
      forall i | 0 <= i < |names| ensures FirstIndexOf(ps, NameOf, names[i]) >= 0 {
        assert names[i] in names;
        var j :| 0 <= j < |ps| && ps[j].position == names[i];
        assert NameOf(ps[j]) == names[i];
      }
    }
    seq(|names|, i requires 0 <= i < |names| =>
      PickerEntry(ps[FirstIndexOf(ps, NameOf, names[i])].id, names[i]))
  }

  /** `find(p => p.position === name)` over the picker, returning the id. */
  function FindId(picker: seq<PickerEntry>, name: string): (r: string)
    ensures FirstIndexOf(picker, EntryName, name) >= 0 ==> r == picker[FirstIndexOf(picker, EntryName, name)].id
    ensures FirstIndexOf(picker, EntryName, name) < 0 ==> r == ""
  {
    if |picker| == 0 then ""
    else if picker[0].position == name then picker[0].id
    else FindId(picker[1..], name)
  }

  /** The `parentPositionId` sent: the id of the first picker entry whose name
      is the chosen parent name, or `""` when there is none (a `null` choice
      matches nothing). */
  function ResolveParentId(picker: seq<PickerEntry>, parent: Nullable): (r: string)
    ensures parent.Null? ==> r == ""
    ensures parent.Str? && (forall i :: 0 <= i < |picker| ==> picker[i].position != parent.s) ==> r == ""
    ensures parent.Str? && (exists i :: 0 <= i < |picker| && picker[i].position == parent.s) ==>
      exists i :: 0 <= i < |picker| && picker[i].position == parent.s && r == picker[i].id &&
        forall j :: 0 <= j < i ==> picker[j].position != parent.s
  {
    match parent
    case Null => ""
    case Str(name) =>
      var r := FindId(picker, name);
      assert FirstIndexOf(picker, EntryName, name) >= 0 ==> picker[FirstIndexOf(picker, EntryName, name)].position == name;
      r
  }

  /** Through the picker, a parent name resolves to the id of the first
      fetched record with that name, and to `""` when no record has it. */
  lemma ResolvesToFirstRecord(ps: seq<Position>, name: string)
    ensures ResolveParentId(Picker(ps), Str(name)) ==
      if FirstIndexOf(ps, NameOf, name) >= 0 then ps[FirstIndexOf(ps, NameOf, name)].id else ""
  {
    var picker := Picker(ps);
    var names := DistinctNames(ps);
    var k := FirstIndexOf(picker, EntryName, name);
    if k >= 0 {
      assert picker[k].position == name;
    }
    if FirstIndexOf(ps, NameOf, name) >= 0 {
      var i := FirstIndexOf(ps, NameOf, name);
      assert ps[i].position == name;
      assert name in names;
      var j :| 0 <= j < |names| && names[j] == name;
      assert EntryName(picker[j]) == name;
    }
  }

  /** The position being edited, as handed to the form. */
  datatype PositionData = PositionData(id: string, position: string, parentPosition: Nullable, parentPositionId: Nullable)

  /** What the form holds when submitted. */
  datatype FormValues = FormValues(position: string, parentPosition: Nullable)

  /** The values the form is filled with when it opens: the edited position's
      name and parent name, each defaulting to `""` (so a position without a
      parent is resubmitted with the parent name `""`, not `null`); a new
      position starts from the same empty values. */
  function Prefill(existing: Option<PositionData>): (v: FormValues)
    ensures existing.None? ==> v == FormValues("", Str(""))
    ensures existing.Some? ==> v.position == existing.value.position
    ensures v.parentPosition.Str?
    ensures existing.Some? && Truthy(existing.value.parentPosition) ==> v.parentPosition == existing.value.parentPosition
    ensures existing.None? || !Truthy(existing.value.parentPosition) ==> v.parentPosition == Str("")
  {
    match existing
    case None => FormValues("", Str(""))
    case Some(d) => FormValues(d.position, Str(OrEmpty(d.parentPosition)))
  }

  /** The body of the request; `parentPosition` is sent as chosen, `null` included. */
  datatype SubmitBody = SubmitBody(position: string, parentPosition: Nullable, parentPositionId: string)

  datatype SubmitCall = Add(body: SubmitBody) | Update(id: string, body: SubmitBody)

  datatype Submission = Rejected(error: ValidationError) | Sent(call: SubmitCall)

  /** `handleSubmit(onSubmit)`: validation first, then an update of the edited
      position when there is one and an add otherwise. */
  function Submit(existing: Option<PositionData>, values: FormValues, known: Option<seq<Position>>,
                  picker: seq<PickerEntry>): (s: Submission)
    ensures s.Rejected? <==>
      (values.position == "" ||
       (known.Some? && exists i :: 0 <= i < |known.value| && known.value[i].position == values.position))
    ensures s.Sent? ==> (s.call.Update? <==> existing.Some?)
    ensures s.Sent? && s.call.Update? ==> s.call.id == existing.value.id
    ensures s.Sent? ==> s.call.body.position == values.position && s.call.body.parentPosition == values.parentPosition
    ensures s.Sent? ==> s.call.body.parentPositionId == ResolveParentId(picker, values.parentPosition)
  {
    match Validate(values.position, known)
    case Some(e) => Rejected(e)
    case None =>
      var body := SubmitBody(values.position, values.parentPosition, ResolveParentId(picker, values.parentPosition));
      Sent(if existing.Some? then Update(existing.value.id, body) else Add(body))
  }

  /** What follows the request. */
  datatype SubmitEffect = SubmitEffect(resetAndClose: bool, toast: Toast)

  /** The form is reset and closed only when the request returns a truthy
      value; a falsy value or a throw keeps it open with an error toast. */
  function AfterSubmit(reply: Reply): (r: SubmitEffect)
    ensures r.resetAndClose <==> reply == Returned(true)
    ensures r.toast == SuccessToast <==> reply == Returned(true)
    ensures r.toast != NoToast
  {
    if reply == Returned(true) then SubmitEffect(true, SuccessToast) else SubmitEffect(false, ErrorToast)
  }

  /** Opening the form on an existing, named position and submitting it
      unchanged sends an update of that position under the same name and
      parent name, the parent name `""` when it had none. */
  lemma UnchangedEditIsUpdate(d: PositionData, picker: seq<PickerEntry>)
    requires d.position != ""
    ensures var s := Submit(Some(d), Prefill(Some(d)), None, picker);
      && s == Sent(Update(d.id, s.call.body))
      && s.call.body.position == d.position
      && s.call.body.parentPosition == Str(OrEmpty(d.parentPosition))
  {
  }

  /** The uniqueness rule, were the fetched list ever handed to it, would
      reject resubmitting an edited position under its own name, since that
      name is among the fetched records. */
  lemma UniquenessRejectsUnchangedEdit(d: PositionData, ps: seq<Position>, k: nat)
    requires d.position != ""
    requires k < |ps| && ps[k].position == d.position
    ensures Submit(Some(d), Prefill(Some(d)), Some(ps), []) == Rejected(PositionExists)
  {
  }
}
