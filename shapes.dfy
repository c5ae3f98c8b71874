/**
  Configuration shapes. Where the Go code inspects structs at run time through reflection,
  the model passes an explicit tree: a struct is a sequence of named fields, and a field
  holds a string, an integer of some width, a nested struct, or a value of a kind the
  parsers do not support (float, bool, slice, ...). The environment loader, an external
  library, is a pair of functions supplied by the caller.
 */
module Shapes {
  import opened Wrappers
  import opened FieldErrors

  /** The integer kinds reflection reports as int, int8, ..., int64 (int is 64 bits wide). */
  datatype IntKind = Int | Int8 | Int16 | Int32 | Int64

  function Modulus(k: IntKind): nat {
    match k
    case Int8 => 0x100
    case Int16 => 0x1_0000
    case Int32 => 0x1_0000_0000
    case _ => 0x1_0000_0000_0000_0000
  }

  /** `v` is representable in a field of kind `k`. */
  predicate InRange(k: IntKind, v: int) {
    -(Modulus(k) / 2) <= v < Modulus(k) / 2
  }

  /** What a field of kind `k` holds after `SetInt(v)`: two's-complement truncation,
      which keeps every representable value as it is. */
  function Wrap(k: IntKind, v: int): (r: int)
    ensures InRange(k, r)
    ensures (v - r) % Modulus(k) == 0
    ensures InRange(k, v) ==> r == v
  {
    var m := Modulus(k);
    (v + m / 2) % m - m / 2
  }

  datatype Value =
    | StringValue(s: string)
    | IntValue(kind: IntKind, i: int)
    | StructValue(fields: seq<Field>)
    | OtherValue(typeName: string)

  datatype Field = Field(name: string, value: Value)

  /** The `(value, error)` pair a loader call returns; `err` is the error's text, if any. */
  datatype Loaded<T> = Loaded(value: T, err: Option<string>)

  /** The environment loader: resolves placeholders in a raw string, as a string or as an integer. */
  datatype Loader = Loader(loadStringFromEnv: string -> Loaded<string>, loadIntFromEnv: string -> Loaded<int>)

  /** Why a pass panics instead of returning field errors. */
  datatype Panic =
    | IncompatibleStructs    // the two structs have different field counts
    | InputNotStringOrStruct // a source field is neither a string nor a struct
    | UnsupportedOutputType  // a destination leaf is neither a string nor an integer
    | OutputNotStruct        // a source struct meets a destination field that is not a struct

  /** The result of a walk: the new fields and the collected errors, or a panic. */
  datatype Outcome<T> = Completed(value: T, errors: seq<FieldError>) | Panicked(reason: Panic)

  /** Two field lists have the same names and kinds (and integer widths) at every level. */
  predicate SameShape(a: seq<Field>, b: seq<Field>)
    decreases a
  {
    |a| == |b| && forall i | 0 <= i < |a| :: SameFieldShape(a[i], b[i])
  }

  predicate SameFieldShape(x: Field, y: Field)
    decreases x
  {
    && x.name == y.name
    && match x.value
       case StringValue(_) => y.value.StringValue?
       case IntValue(k, _) => y.value.IntValue? && y.value.kind == k
       case StructValue(xs) => y.value.StructValue? && SameShape(xs, y.value.fields)
       case OtherValue(t) => y.value == OtherValue(t)
  }

  /** A field and a list of the same shape as another field and list keep it together. */
  lemma SameShapeCons(f: Field, g: Field, a: seq<Field>, b: seq<Field>)
    requires SameFieldShape(f, g) && SameShape(a, b)
    ensures SameShape([f] + a, [g] + b)
  {
    var x := [f] + a;
    var y := [g] + b;
    forall i | 1 <= i < |x| ensures SameFieldShape(x[i], y[i]) {
      assert x[i] == a[i - 1] && y[i] == b[i - 1];
    }
  }

  /** The non-struct values of a field list, in pre-order. */
  function LeafValues(fields: seq<Field>): seq<Value>
    decreases fields
  {
    if fields == [] then [] else FieldLeafValues(fields[0]) + LeafValues(fields[1..])
  }

  function FieldLeafValues(f: Field): seq<Value>
    decreases f
  {
    match f.value
    case StructValue(fs) => LeafValues(fs)
    case _ => [f.value]
  }

  /** Structs of the same shape have the same number of leaves. */
  lemma {:induction false} LeafCountByShape(a: seq<Field>, b: seq<Field>)
    requires SameShape(a, b)
    ensures |LeafValues(a)| == |LeafValues(b)|
    decreases a
  {
    if a != [] {
      assert SameFieldShape(a[0], b[0]);
      assert SameShape(a[1..], b[1..]) by {
        forall i | 0 <= i < |a| - 1 ensures SameFieldShape(a[1..][i], b[1..][i]) {
          assert SameFieldShape(a[i + 1], b[i + 1]);
        }
      }
      LeafCountByShape(a[1..], b[1..]);
      if a[0].value.StructValue? {
        LeafCountByShape(a[0].value.fields, b[0].value.fields);
      }
    }
  }
}
