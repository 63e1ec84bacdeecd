/** The patch descriptor of lib/patches/patch-base.js.

    A descriptor is built from a record; the hooks the record supplies
    replace the class's own methods. A default `canApply` or `apply` throws,
    which the model returns as `Err(message)`; the default `verify` reports
    whether the text changed. */
module PatchBase {
  import opened Wrappers

  /** A method that is either the class's own or supplied by the record. */
  datatype Hook<F> = Default | Custom(f: F)

  /** The record passed to `new Patch({...})`; `required` may be omitted. */
  datatype Fields = Fields(
    id: string,
    description: string,
    required: Option<bool>,
    canApply: Hook<string -> bool>,
    apply: Hook<string -> string>,
    verify: Hook<(string, string) -> bool>)

  datatype Patch = Patch(
    id: string,
    description: string,
    required: bool,
    canApply: Hook<string -> bool>,
    apply: Hook<string -> string>,
    verify: Hook<(string, string) -> bool>)

  /** `new Patch(fields)`. */
  function NewPatch(fields: Fields): (p: Patch)
    ensures p.id == fields.id && p.description == fields.description
    ensures p.required <==> fields.required == Some(true)
    ensures p.canApply == fields.canApply && p.apply == fields.apply && p.verify == fields.verify
  {
    Patch(fields.id, fields.description, fields.required.Some? && fields.required.value,
      fields.canApply, fields.apply, fields.verify)
  }

  /** `patch.canApply(source)`; the default throws an error naming the patch. */
  function CanApply(p: Patch, source: string): (r: Result<bool, string>)
    ensures r.Err? <==> p.canApply.Default?
    ensures r.Err? ==> r.error == p.id + ": canApply() not implemented"
    ensures p.canApply.Custom? ==> r == Ok(p.canApply.f(source))
  {
    match p.canApply
    case Default => Err(p.id + ": canApply() not implemented")
    case Custom(f) => Ok(f(source))
  }

  /** `patch.apply(source)`; the default throws an error naming the patch. */
  function Apply(p: Patch, source: string): (r: Result<string, string>)
    ensures r.Err? <==> p.apply.Default?
    ensures r.Err? ==> r.error == p.id + ": apply() not implemented"
    ensures p.apply.Custom? ==> r == Ok(p.apply.f(source))
  {
    match p.apply
    case Default => Err(p.id + ": apply() not implemented")
    case Custom(f) => Ok(f(source))
  }

  /** `patch.verify(before, after)`. */
  function Verify(p: Patch, before: string, after: string): bool {
    match p.verify
    case Default => before != after
    case Custom(f) => f(before, after)
  }

  /** A descriptor whose `apply` changes every text its `canApply` accepts,
      and that keeps the default `verify`: once its pre-check passed, it
      never fails verification. */
  ghost predicate Effective(p: Patch) {
    p.canApply.Custom? && p.apply.Custom? && p.verify.Default? &&
    forall s :: p.canApply.f(s) ==> p.apply.f(s) != s
  }

  /** A descriptor built without `required` is optional. */
  lemma RequiredDefault(fields: Fields)
    requires fields.required.None?
    ensures !NewPatch(fields).required
  {
  }

  /** The default `verify` holds exactly when the text changed, so it is
      false on an unchanged text whatever the text is. */
  lemma DefaultVerify(p: Patch, before: string, after: string)
    requires p.verify.Default?
    ensures Verify(p, before, after) <==> before != after
    ensures !Verify(p, before, before)
  {
  }
}
