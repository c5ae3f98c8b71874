/**
  The dual-shape reconciliation walk shared by the loose parser (`setConfigurationValues`)
  and the strict parser (`extractEnv`): a source struct whose leaves are strings is walked
  in step with a typed destination struct. Each source string goes through the environment
  loader and the result is written to the matching destination leaf; each failure becomes
  one field error, and the errors are collected in pre-order without stopping. A
  structural mismatch panics instead.

  `Reconcile` is the specification both imperative copies are proved against.
 */
module Reconciliation {
  import opened Wrappers
  import opened FieldErrors
  import opened Shapes
  import Strings
  import opened Sequences

  const EmptyFieldMessage: string := "field is empty"

  /** The message of a field error: a fixed text when the raw value is blank, the loader's
      message otherwise. */
  function FieldErrorMessage(err: string, raw: string): (r: string)
    ensures Strings.IsBlank(raw) ==> r == EmptyFieldMessage
    ensures !Strings.IsBlank(raw) ==> r == err
  {
    if Strings.TrimSpace(raw) == "" then EmptyFieldMessage else err
  }

  /** The error recorded for a leaf named `name` whose raw value `raw` failed to load. */
  function LeafError(name: string, raw: string, err: string): (r: FieldError)
    ensures |r.field| == |name| + 2 + |raw| && r.field[..|name|] == name
    ensures r.field[|name|..|name| + 2] == ": " && r.field[|name| + 2..] == raw
    ensures Strings.IsBlank(raw) ==> r.errorMessage == EmptyFieldMessage
    ensures !Strings.IsBlank(raw) ==> r.errorMessage == err
  {
    FieldError(name + ": " + raw, FieldErrorMessage(err, raw))
  }

  /** The destination leaves the dual-shape walk can fill. */
  predicate Fillable(v: Value) {
    v.StringValue? || v.IntValue?
  }

  type LeafTarget = v: Value | Fillable(v) witness StringValue("")

  /** A destination leaf after its source string was loaded, and the error, if any. */
  datatype LeafResult = LeafResult(value: Value, error: Option<FieldError>)

  /** One leaf: load the raw string as the destination's kind; on success the destination
      takes the loaded value (an integer truncated to the field's width), on failure it
      keeps its old value and the leaf yields exactly one error. */
  function ResolveLeaf(name: string, raw: string, target: LeafTarget, loader: Loader): (r: LeafResult)
    ensures target.StringValue? ==>
      var l := loader.loadStringFromEnv(raw);
      && (l.err.None? ==> r == LeafResult(StringValue(l.value), None))
      && (l.err.Some? ==> r == LeafResult(target, Some(LeafError(name, raw, l.err.value))))
    ensures target.IntValue? ==>
      var l := loader.loadIntFromEnv(raw);
      && (l.err.None? ==> r == LeafResult(IntValue(target.kind, Wrap(target.kind, l.value)), None))
      && (l.err.Some? ==> r == LeafResult(target, Some(LeafError(name, raw, l.err.value))))
    ensures r.error.None? <==> (if target.StringValue? then loader.loadStringFromEnv(raw).err.None?
                                else loader.loadIntFromEnv(raw).err.None?)
    ensures r.error.Some? ==> r.value == target
    ensures r.value.StringValue? <==> target.StringValue?
  {
    var err := if target.StringValue? then loader.loadStringFromEnv(raw).err
               else loader.loadIntFromEnv(raw).err;
    match err
    case Some(e) => LeafResult(target, Some(LeafError(name, raw, e)))
    case None =>
      if target.StringValue? then LeafResult(StringValue(loader.loadStringFromEnv(raw).value), None)
      else LeafResult(IntValue(target.kind, Wrap(target.kind, loader.loadIntFromEnv(raw).value)), None)
  }

  /** One field of the walk. */
  function ReconcileField(src: Field, dst: Field, loader: Loader): (r: Outcome<Field>)
    ensures r.Completed? ==> r.value.name == dst.name
    ensures r.Completed? && src.value.StringValue? ==> |r.errors| <= 1
    decreases src, 2
  {
    match src.value
    case StringValue(raw) =>
      if Fillable(dst.value) then
        var l := ResolveLeaf(src.name, raw, dst.value, loader);
        Completed(Field(dst.name, l.value), OptionToSeq(l.error))
      else Panicked(UnsupportedOutputType)
    case StructValue(inner) =>
      if dst.value.StructValue? then
        match Reconcile(inner, dst.value.fields, loader)
        case Completed(fs, es) => Completed(Field(dst.name, StructValue(fs)), es)
        case Panicked(p) => Panicked(p)
      else Panicked(OutputNotStruct)
    case _ => Panicked(InputNotStringOrStruct)
  }

  /** The walk of one struct: the field counts are compared before any field is visited. */
  function Reconcile(src: seq<Field>, dst: seq<Field>, loader: Loader): (r: Outcome<seq<Field>>)
    ensures |src| != |dst| ==> r.Panicked?
    ensures r.Completed? ==> |r.value| == |dst|
    decreases src, 1
  {
    if |src| != |dst| then Panicked(IncompatibleStructs) else Walk(src, dst, loader)
  }

  /** The fields in index order; the first panic wins, errors are concatenated in order. */
  function Walk(src: seq<Field>, dst: seq<Field>, loader: Loader): (r: Outcome<seq<Field>>)
    requires |src| == |dst|
    ensures r.Completed? ==> |r.value| == |dst|
    decreases src, 0
  {
    if src == [] then Completed([], [])
    else
      match ReconcileField(src[0], dst[0], loader)
      case Panicked(p) => Panicked(p)
      case Completed(f, e) =>
        match Walk(src[1..], dst[1..], loader)
        case Panicked(p) => Panicked(p)
        case Completed(fs, es) => Completed([f] + fs, e + es)
  }

  /** The pairs of structs the walk accepts: equal field counts at every level, string
      sources against string or integer destinations, structs against structs. */
  predicate Compatible(src: seq<Field>, dst: seq<Field>)
    decreases src
  {
    |src| == |dst| && forall i | 0 <= i < |src| :: FieldCompatible(src[i], dst[i])
  }

  predicate FieldCompatible(src: Field, dst: Field)
    decreases src
  {
    match src.value
    case StringValue(_) => Fillable(dst.value)
    case StructValue(inner) => dst.value.StructValue? && Compatible(inner, dst.value.fields)
    case _ => false
  }

  /** The walk panics exactly when the two structs are not compatible: a mismatch is never
      reported as a field error and never yields a partial error list. */
  lemma {:induction false} PanicsIffIncompatible(src: seq<Field>, dst: seq<Field>, loader: Loader)
    ensures Reconcile(src, dst, loader).Panicked? <==> !Compatible(src, dst)
    decreases src, 1
  {
    if |src| == |dst| {
      WalkPanicsIffIncompatible(src, dst, loader);
    }
  }

  lemma {:induction false} WalkPanicsIffIncompatible(src: seq<Field>, dst: seq<Field>, loader: Loader)
    requires |src| == |dst|
    ensures Walk(src, dst, loader).Panicked? <==> !Compatible(src, dst)
    decreases src, 0
  {
    if src != [] {
      FieldPanicsIffIncompatible(src[0], dst[0], loader);
      WalkPanicsIffIncompatible(src[1..], dst[1..], loader);
      if Compatible(src, dst) {
        assert Compatible(src[1..], dst[1..]) by {
          forall i | 0 <= i < |src| - 1 ensures FieldCompatible(src[1..][i], dst[1..][i]) {
            assert FieldCompatible(src[i + 1], dst[i + 1]);
          }
        }
      }
      if !Compatible(src, dst) && FieldCompatible(src[0], dst[0]) {
        var i :| 0 <= i < |src| && !FieldCompatible(src[i], dst[i]);
        assert !FieldCompatible(src[1..][i - 1], dst[1..][i - 1]);
      }
    }
  }

  lemma {:induction false} FieldPanicsIffIncompatible(src: Field, dst: Field, loader: Loader)
    ensures ReconcileField(src, dst, loader).Panicked? <==> !FieldCompatible(src, dst)
    decreases src, 2
  {
    if src.value.StructValue? && dst.value.StructValue? {
      PanicsIffIncompatible(src.value.fields, dst.value.fields, loader);
    }
  }

  /** Dropping the first field of a compatible pair leaves a compatible pair. */
  lemma CompatibleTail(src: seq<Field>, dst: seq<Field>)
    requires Compatible(src, dst) && src != []
    ensures FieldCompatible(src[0], dst[0]) && Compatible(src[1..], dst[1..])
  {
    forall i | 0 <= i < |src| - 1 ensures FieldCompatible(src[1..][i], dst[1..][i]) {
      assert FieldCompatible(src[i + 1], dst[i + 1]);
    }
  }

  /** A source leaf of a compatible pair: its name, its raw string and the destination
      value it is written over. */
  datatype Slot = Slot(name: string, raw: string, target: LeafTarget)

  /** The leaves of a compatible pair in pre-order. */
  function Slots(src: seq<Field>, dst: seq<Field>): seq<Slot>
    requires Compatible(src, dst)
    decreases src
  {
    if src == [] then []
    else
      CompatibleTail(src, dst);
      FieldSlots(src[0], dst[0]) + Slots(src[1..], dst[1..])
  }

  function FieldSlots(src: Field, dst: Field): seq<Slot>
    requires FieldCompatible(src, dst)
    decreases src
  {
    match src.value
    case StringValue(raw) => [Slot(src.name, raw, dst.value)]
    case StructValue(inner) => Slots(inner, dst.value.fields)
  }

  function SlotResult(slot: Slot, loader: Loader): LeafResult {
    ResolveLeaf(slot.name, slot.raw, slot.target, loader)
  }

  /** The errors the slots produce, one per failing slot, in slot order. */
  function SlotErrors(slots: seq<Slot>, loader: Loader): seq<FieldError> {
    if slots == [] then [] else OptionToSeq(SlotResult(slots[0], loader).error) + SlotErrors(slots[1..], loader)
  }

  /** The values the slots leave in the destination, in slot order. */
  function SlotValues(slots: seq<Slot>, loader: Loader): seq<Value> {
    if slots == [] then [] else [SlotResult(slots[0], loader).value] + SlotValues(slots[1..], loader)
  }

  lemma {:induction false} SlotsAppend(a: seq<Slot>, b: seq<Slot>, loader: Loader)
    ensures SlotErrors(a + b, loader) == SlotErrors(a, loader) + SlotErrors(b, loader)
    ensures SlotValues(a + b, loader) == SlotValues(a, loader) + SlotValues(b, loader)
  {
    if a != [] {
      assert (a + b)[1..] == a[1..] + b;
      SlotsAppend(a[1..], b, loader);
    } else {
      assert a + b == b;
    }
  }

  /** The walk of a compatible pair completes and keeps the destination's shape: the same
      names, kinds and widths at every level. */
  lemma {:induction false} ReconcileKeepsShape(src: seq<Field>, dst: seq<Field>, loader: Loader)
    requires Compatible(src, dst)
    ensures Reconcile(src, dst, loader).Completed?
    ensures SameShape(dst, Reconcile(src, dst, loader).value)
    decreases src
  {
    if src != [] {
      CompatibleTail(src, dst);
      FieldKeepsShape(src[0], dst[0], loader);
      ReconcileKeepsShape(src[1..], dst[1..], loader);
      var f := ReconcileField(src[0], dst[0], loader);
      var rest := Reconcile(src[1..], dst[1..], loader);
      var all := [f.value] + rest.value;
      assert Reconcile(src, dst, loader) == Completed(all, f.errors + rest.errors);
      forall i | 1 <= i < |dst| ensures SameFieldShape(dst[i], all[i]) {
        assert SameFieldShape(dst[1..][i - 1], rest.value[i - 1]);
      }
    }
  }

  lemma {:induction false} FieldKeepsShape(src: Field, dst: Field, loader: Loader)
    requires FieldCompatible(src, dst)
    ensures ReconcileField(src, dst, loader).Completed?
    ensures SameFieldShape(dst, ReconcileField(src, dst, loader).value)
    decreases src
  {
    if src.value.StructValue? {
      ReconcileKeepsShape(src.value.fields, dst.value.fields, loader);
    }
  }

  /** The errors of a compatible pair are its leaves' errors in pre-order: each leaf whose
      value fails to load contributes exactly one, in traversal order. */
  lemma {:induction false} ErrorsInPreOrder(src: seq<Field>, dst: seq<Field>, loader: Loader)
    requires Compatible(src, dst)
    ensures Reconcile(src, dst, loader).Completed?
    ensures Reconcile(src, dst, loader).errors == SlotErrors(Slots(src, dst), loader)
    decreases src
  {
    PanicsIffIncompatible(src, dst, loader);
    if src != [] {
      CompatibleTail(src, dst);
      FieldErrorsInPreOrder(src[0], dst[0], loader);
      ErrorsInPreOrder(src[1..], dst[1..], loader);
      SlotsAppend(FieldSlots(src[0], dst[0]), Slots(src[1..], dst[1..]), loader);
    }
  }

  lemma {:induction false} FieldErrorsInPreOrder(src: Field, dst: Field, loader: Loader)
    requires FieldCompatible(src, dst)
    ensures ReconcileField(src, dst, loader).Completed?
    ensures ReconcileField(src, dst, loader).errors == SlotErrors(FieldSlots(src, dst), loader)
    decreases src
  {
    FieldPanicsIffIncompatible(src, dst, loader);
    match src.value
    case StringValue(raw) =>
      assert SlotErrors([Slot(src.name, raw, dst.value)], loader)
          == OptionToSeq(SlotResult(Slot(src.name, raw, dst.value), loader).error) + [];
    case StructValue(inner) =>
      ErrorsInPreOrder(inner, dst.value.fields, loader);
  }

  /** The destination's leaves after the walk, in pre-order, are the leaves' resolved values:
      the loaded value where loading succeeded, the old value where it failed. */
  lemma {:induction false} LeavesInPreOrder(src: seq<Field>, dst: seq<Field>, loader: Loader)
    requires Compatible(src, dst)
    ensures Reconcile(src, dst, loader).Completed?
    ensures LeafValues(Reconcile(src, dst, loader).value) == SlotValues(Slots(src, dst), loader)
    decreases src
  {
    PanicsIffIncompatible(src, dst, loader);
    if src != [] {
      CompatibleTail(src, dst);
      FieldLeavesInPreOrder(src[0], dst[0], loader);
      LeavesInPreOrder(src[1..], dst[1..], loader);
      SlotsAppend(FieldSlots(src[0], dst[0]), Slots(src[1..], dst[1..]), loader);
      var all := Reconcile(src, dst, loader).value;
      assert all[1..] == Reconcile(src[1..], dst[1..], loader).value;
    }
  }

  lemma {:induction false} FieldLeavesInPreOrder(src: Field, dst: Field, loader: Loader)
    requires FieldCompatible(src, dst)
    ensures ReconcileField(src, dst, loader).Completed?
    ensures FieldLeafValues(ReconcileField(src, dst, loader).value) == SlotValues(FieldSlots(src, dst), loader)
    decreases src
  {
    FieldPanicsIffIncompatible(src, dst, loader);
    match src.value
    case StringValue(raw) =>
      assert SlotValues([Slot(src.name, raw, dst.value)], loader)
          == [SlotResult(Slot(src.name, raw, dst.value), loader).value] + [];
    case StructValue(inner) =>
      LeavesInPreOrder(inner, dst.value.fields, loader);
  }

  /** Each leaf contributes at most one error, and there is none exactly when every leaf's
      value loads. */
  lemma {:induction false} SlotErrorsBound(slots: seq<Slot>, loader: Loader)
    ensures |SlotErrors(slots, loader)| <= |slots|
    ensures SlotErrors(slots, loader) == [] <==> forall k | 0 <= k < |slots| :: SlotResult(slots[k], loader).error.None?
  {
    if slots != [] {
      SlotErrorsBound(slots[1..], loader);
      assert forall k | 1 <= k < |slots| :: slots[k] == slots[1..][k - 1];
    }
  }

  /** A compatible pair has one slot per source leaf. */
  lemma {:induction false} SlotCount(src: seq<Field>, dst: seq<Field>)
    requires Compatible(src, dst)
    ensures |Slots(src, dst)| == |LeafValues(src)|
    decreases src
  {
    if src != [] {
      CompatibleTail(src, dst);
      SlotCount(src[1..], dst[1..]);
      if src[0].value.StructValue? {
        SlotCount(src[0].value.fields, dst[0].value.fields);
      }
    }
  }

  /** The walk reports at most one error per source leaf. */
  lemma ErrorCountBound(src: seq<Field>, dst: seq<Field>, loader: Loader)
    requires Compatible(src, dst)
    ensures Reconcile(src, dst, loader).Completed?
    ensures |Reconcile(src, dst, loader).errors| <= |LeafValues(src)|
  {
    ErrorsInPreOrder(src, dst, loader);
    SlotErrorsBound(Slots(src, dst), loader);
    SlotCount(src, dst);
  }

  /** Whether a source is compatible with a destination depends only on the source's shape,
      not on the strings it holds. */
  lemma {:induction false} CompatibleByShape(a: seq<Field>, b: seq<Field>, dst: seq<Field>)
    requires SameShape(a, b)
    ensures Compatible(a, dst) <==> Compatible(b, dst)
    decreases a
  {
    forall i | 0 <= i < |a| && i < |dst| ensures FieldCompatible(a[i], dst[i]) <==> FieldCompatible(b[i], dst[i]) {
      assert SameFieldShape(a[i], b[i]);
      if a[i].value.StructValue? && dst[i].value.StructValue? {
        CompatibleByShape(a[i].value.fields, b[i].value.fields, dst[i].value.fields);
      }
    }
  }

  /** Walking one more field extends the result: the new field is appended and its errors
      follow the earlier ones. */
  lemma {:induction false} WalkSnoc(src: seq<Field>, dst: seq<Field>, s: Field, d: Field, loader: Loader)
    requires |src| == |dst|
    requires Walk(src, dst, loader).Completed? && ReconcileField(s, d, loader).Completed?
    ensures Walk(src + [s], dst + [d], loader)
         == Completed(Walk(src, dst, loader).value + [ReconcileField(s, d, loader).value],
                      Walk(src, dst, loader).errors + ReconcileField(s, d, loader).errors)
    decreases src
  {
    var f := ReconcileField(s, d, loader);
    if src == [] {
      assert src + [s] == [s] + [] && dst + [d] == [d] + [];
      WalkCons(s, d, [], [], loader);
      assert [f.value] + [] == [] + [f.value];
      assert f.errors + [] == [] + f.errors;
    } else {
      WalkTail(src, dst, loader);
      var h := ReconcileField(src[0], dst[0], loader);
      var t := Walk(src[1..], dst[1..], loader);
      WalkSnoc(src[1..], dst[1..], s, d, loader);
      SplitFirst(src, [s]);
      SplitFirst(dst, [d]);
      WalkCons(src[0], dst[0], src[1..] + [s], dst[1..] + [d], loader);
      Assoc([h.value], t.value, [f.value]);
      Assoc(h.errors, t.errors, f.errors);
    }
  }

  /** Walking a field in front of a list. */
  lemma WalkCons(s: Field, d: Field, src: seq<Field>, dst: seq<Field>, loader: Loader)
    requires |src| == |dst|
    requires ReconcileField(s, d, loader).Completed? && Walk(src, dst, loader).Completed?
    ensures Walk([s] + src, [d] + dst, loader)
         == Completed([ReconcileField(s, d, loader).value] + Walk(src, dst, loader).value,
                      ReconcileField(s, d, loader).errors + Walk(src, dst, loader).errors)
  {
    var x := [s] + src;
    var y := [d] + dst;
    assert x[0] == s && x[1..] == src && y[0] == d && y[1..] == dst;
  }

  /** A walk that completes has a first field and a tail that complete. */
  lemma WalkTail(src: seq<Field>, dst: seq<Field>, loader: Loader)
    requires |src| == |dst| && src != [] && Walk(src, dst, loader).Completed?
    ensures ReconcileField(src[0], dst[0], loader).Completed? && Walk(src[1..], dst[1..], loader).Completed?
    ensures Walk(src, dst, loader)
         == Completed([ReconcileField(src[0], dst[0], loader).value] + Walk(src[1..], dst[1..], loader).value,
                      ReconcileField(src[0], dst[0], loader).errors + Walk(src[1..], dst[1..], loader).errors)
  {
  }


  /** Each field of a compatible pair is compatible with its counterpart. */
  lemma CompatibleAt(src: seq<Field>, dst: seq<Field>, i: nat)
    requires Compatible(src, dst) && i < |src|
    ensures |src| == |dst| && FieldCompatible(src[i], dst[i])
  {
  }
}
