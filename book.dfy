/**
 * The parts of an Interactive Book's content parameters that the upgrade
 * steps touch, and how a step ends.
 */
module Book {
  import opened Wrappers
  import opened Json

  /**
   * How an upgrade step ends: it calls `finished(error, parameters, extras)`
   * once, or a TypeError escapes it after it has changed part of the
   * parameters in place.
   */
  datatype Outcome =
    | Finished(error: Value, parameters: Value, extras: Value)
    | Threw(parameters: Value)

  /** The parameters have a `bookCover` object. */
  predicate HasCover(parameters: Value)
  {
    parameters.Obj? && "bookCover" in parameters.fields && parameters.fields["bookCover"].Obj?
  }

  /** `parameters.bookCover.coverDescription`, `undefined` unless there is a book cover object that has one. */
  function Description(parameters: Value): (d: Option<Value>)
    ensures d.Some? ==> HasCover(parameters)
  {
    GetOpt(Get(parameters, "bookCover"), "coverDescription")
  }

  /** The parameters with the cover description set to `d`. */
  function WithDescription(parameters: Value, d: string): (r: Value)
    requires HasCover(parameters)
    ensures HasCover(r) && Description(r) == Some(Str(d))
  {
    var cover := parameters.fields["bookCover"];
    Obj(parameters.fields["bookCover" := Obj(cover.fields["coverDescription" := Str(d)])])
  }

  /**
   * Setting the description changes nothing else: the other parameters and
   * the other book cover fields keep their values.
   */
  lemma WithDescriptionKeeps(parameters: Value, d: string)
    requires HasCover(parameters)
    ensures var r := WithDescription(parameters, d);
      r.fields.Keys == parameters.fields.Keys &&
      (forall k :: k in parameters.fields && k != "bookCover" ==> r.fields[k] == parameters.fields[k]) &&
      r.fields["bookCover"].fields.Keys == parameters.fields["bookCover"].fields.Keys + {"coverDescription"} &&
      (forall k :: k in parameters.fields["bookCover"].fields && k != "coverDescription" ==>
        r.fields["bookCover"].fields[k] == parameters.fields["bookCover"].fields[k])
  {
  }
}
