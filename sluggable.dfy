/**
 * The Sluggable trait: configuration getters and setSlug, on a model whose
 * attributes setSlug writes in place.
 */
module Sluggable {
  import opened Wrappers
  import opened Slugs

  /** The two ErrorExceptions getSlugFields throws. */
  datatype ConfigError =
    | NoSlugFields      // $slugFields missing or empty
    | SlugFromOwnField  // the slug field is one of $slugFields

  /** What one call of setSlug does. */
  datatype Outcome =
    | Failed(error: ConfigError)  // an exception; nothing is written
    | Skipped                     // the slug is kept as it is
    | Assigned(slug: string)      // this slug is written

  const DefaultInvalidSlugs: seq<string> := ["create"]
  const DefaultSlugField: string := "slug"

  /**
   * An Eloquent model using the trait. The three configuration properties
   * are fixed per model class; an absent property is None. The attributes
   * (an absent key is a null attribute) are the record's state, and dirty
   * is the set of attribute names Eloquent reports dirty when setSlug starts.
   */
  class SluggableModel {
    const invalidSlugs: Option<seq<string>>
    const slugField: Option<string>
    const slugFields: Option<seq<string>>
    var attributes: map<string, string>
    var dirty: set<string>

    constructor (invalidSlugs: Option<seq<string>>, slugField: Option<string>,
                 slugFields: Option<seq<string>>, attributes: map<string, string>, dirty: set<string>)
      ensures this.invalidSlugs == invalidSlugs && this.slugField == slugField
      ensures this.slugFields == slugFields
      ensures this.attributes == attributes && this.dirty == dirty
    {
      this.invalidSlugs := invalidSlugs;
      this.slugField := slugField;
      this.slugFields := slugFields;
      this.attributes := attributes;
      this.dirty := dirty;
    }

    /** The reserved slugs: as configured, else just "create". */
    function GetInvalidSlugs(): (r: seq<string>)
      ensures invalidSlugs.None? ==> r == ["create"]
      ensures invalidSlugs.Some? ==> r == invalidSlugs.value
    {
      if invalidSlugs.Some? then invalidSlugs.value else DefaultInvalidSlugs
    }

    /** The attribute holding the slug: as configured, else "slug". */
    function GetSlugField(): (r: string)
      ensures slugField.None? ==> r == "slug"
      ensures slugField.Some? ==> r == slugField.value
    {
      if slugField.Some? then slugField.value else DefaultSlugField
    }

    /**
     * The source fields, validated: an error when none are configured or
     * when the slug field is among them, otherwise the configured list itself.
     */
    function GetSlugFields(): (r: Result<seq<string>, ConfigError>)
      ensures r == Err(NoSlugFields) <==> slugFields.None? || slugFields.value == []
      ensures r == Err(SlugFromOwnField) <==>
        slugFields.Some? && slugFields.value != [] && GetSlugField() in slugFields.value
      ensures r.Ok? ==> slugFields == Some(r.value) && r.value != [] && GetSlugField() !in r.value
    {
      if slugFields.None? || slugFields.value == [] then Err(NoSlugFields)
      else if GetSlugField() in slugFields.value then Err(SlugFromOwnField)
      else Ok(slugFields.value)
    }

    /** The slug-field attribute is neither null nor empty (PHP `!= null`). */
    predicate HasSlug(attrs: map<string, string>)
      ensures HasSlug(attrs) <==> AttributeValue(attrs, GetSlugField()) != ""
    {
      GetSlugField() in attrs && attrs[GetSlugField()] != ""
    }

    /**
     * What setSlug does from the attribute state attrs with dirty attribute names
     * dirtyFields, sibling slugs existing and the slug transform slugify.
     */
    function SetSlugOutcome(attrs: map<string, string>, dirtyFields: set<string>,
                            existing: seq<string>, slugify: string -> string): (o: Outcome)
      // configuration errors come first and depend on nothing else
      ensures o.Failed? <==> GetSlugFields().Err?
      ensures o.Failed? ==> o.error == GetSlugFields().error
      // skip rule: a slug is present and no source field is dirty
      ensures o.Skipped? <==> GetSlugFields().Ok? && HasSlug(attrs) && IsClean(dirtyFields, GetSlugFields().value)
      // an assigned slug is derived from the base text and is free
      ensures o.Assigned? ==>
        var original := slugify(Join(FieldValues(attrs, GetSlugFields().value)));
        && IsFree(o.slug, GetInvalidSlugs(), existing)
        && (IsFree(original, GetInvalidSlugs(), existing) ==> o.slug == original)
        && IsLeastFreeCandidate(o.slug, original, GetInvalidSlugs(), existing)
    {
      match GetSlugFields()
      case Err(e) => Failed(e)
      case Ok(fields) =>
        if HasSlug(attrs) && IsClean(dirtyFields, fields) then Skipped
        else Assigned(FreeSlug(slugify(Join(FieldValues(attrs, fields))), GetInvalidSlugs(), existing))
    }

    /** The base-text foreach: the values of the source fields, space-joined. */
    method ConcatenateFields(fields: seq<string>) returns (text: Option<string>)
      ensures |fields| == 0 ==> text == None
      ensures |fields| > 0 ==> text == Some(Join(FieldValues(attributes, fields)))
    {
      text := ConcatenateValues(FieldValues(attributes, fields));
    }

    /** Everything setSlug does before it writes, in the order it does it. */
    method ComputeSlug(existing: seq<string>, slugify: string -> string) returns (outcome: Outcome)
      ensures outcome == SetSlugOutcome(attributes, dirty, existing, slugify)
    {
      if HasSlug(attributes) {
        var checked := GetSlugFields();
        if checked.Err? {
          return Failed(checked.error);
        }
        if IsClean(dirty, checked.value) {
          return Skipped;
        }
      }
      var fields := GetSlugFields();
      if fields.Err? {
        return Failed(fields.error);
      }
      var text := ConcatenateFields(fields.value);
      var original := slugify(text.value);
      var slug := Disambiguate(original, GetInvalidSlugs(), existing);
      return Assigned(slug);
    }

    /** setSlug as written: the result always goes to the attribute "slug". */
    method SetSlug(existing: seq<string>, slugify: string -> string) returns (outcome: Outcome)
      modifies this`attributes
      ensures outcome == SetSlugOutcome(old(attributes), dirty, existing, slugify)
      ensures attributes == AfterSetSlug(old(attributes), outcome)
    {
      outcome := ComputeSlug(existing, slugify);
      if outcome.Assigned? {
        attributes := attributes["slug" := outcome.slug];
      }
    }

    /** setSlug as intended: the result goes to the configured slug field. */
    method SetSlugIntoSlugField(existing: seq<string>, slugify: string -> string) returns (outcome: Outcome)
      modifies this`attributes
      ensures outcome == SetSlugOutcome(old(attributes), dirty, existing, slugify)
      ensures attributes == AfterSetSlugIntoSlugField(old(attributes), outcome)
    {
      outcome := ComputeSlug(existing, slugify);
      if outcome.Assigned? {
        attributes := attributes[GetSlugField() := outcome.slug];
      }
    }

    /** The attributes after setSlug as written: only "slug" can change. */
    function AfterSetSlug(attrs: map<string, string>, o: Outcome): (r: map<string, string>)
      ensures o.Assigned? ==> "slug" in r && r["slug"] == o.slug
      ensures forall a :: a != "slug" ==> (a in r <==> a in attrs)
      ensures forall a :: a in attrs && a != "slug" ==> r[a] == attrs[a]
      ensures !o.Assigned? ==> r == attrs
    {
      if o.Assigned? then attrs["slug" := o.slug] else attrs
    }

    /** The attributes after the intended setSlug: only the slug field can change. */
    function AfterSetSlugIntoSlugField(attrs: map<string, string>, o: Outcome): (r: map<string, string>)
      ensures o.Assigned? ==> GetSlugField() in r && r[GetSlugField()] == o.slug
      ensures forall a :: a != GetSlugField() ==> (a in r <==> a in attrs)
      ensures forall a :: a in attrs && a != GetSlugField() ==> r[a] == attrs[a]
      ensures !o.Assigned? ==> r == attrs
    {
      if o.Assigned? then attrs[GetSlugField() := o.slug] else attrs
    }
  }

  /** Value of an attribute; a missing attribute reads as null, i.e. "". */
  function AttributeValue(attrs: map<string, string>, name: string): string {
    if name in attrs then attrs[name] else ""
  }

  /** The values of the named attributes, in the given order. */
  function FieldValues(attrs: map<string, string>, fields: seq<string>): (values: seq<string>)
    ensures |values| == |fields|
    ensures forall i :: 0 <= i < |fields| ==> values[i] == AttributeValue(attrs, fields[i])
  {
    seq(|fields|, i requires 0 <= i < |fields| => AttributeValue(attrs, fields[i]))
  }

  /** None of the fields is dirty (Eloquent isClean). */
  predicate IsClean(dirty: set<string>, fields: seq<string>) {
    forall i :: 0 <= i < |fields| ==> fields[i] !in dirty
  }

  // -----------------------------------------------------------------------
  // Properties relating several calls

  /** The skip rule holds whatever the sibling slugs are. */
  lemma SkipIgnoresSiblings(m: SluggableModel, attrs: map<string, string>, dirty: set<string>,
                            existing: seq<string>, slugify: string -> string)
    requires m.GetSlugFields().Ok? && m.HasSlug(attrs) && IsClean(dirty, m.GetSlugFields().value)
    ensures m.SetSlugOutcome(attrs, dirty, existing, slugify) == Skipped
  {
  }

  /**
   * With the intended write, a record saved again with no source field
   * dirty keeps its slug, whatever the siblings are by then.
   */
  lemma IntendedSlugIsStable(m: SluggableModel, attrs: map<string, string>, dirty: set<string>,
                             existing: seq<string>, slugify: string -> string,
                             laterDirty: set<string>, laterExisting: seq<string>)
    requires m.SetSlugOutcome(attrs, dirty, existing, slugify).Assigned?
    requires m.SetSlugOutcome(attrs, dirty, existing, slugify).slug != ""
    requires IsClean(laterDirty, m.slugFields.value)
    ensures m.SetSlugOutcome(m.AfterSetSlugIntoSlugField(attrs, m.SetSlugOutcome(attrs, dirty, existing, slugify)),
                             laterDirty, laterExisting, slugify) == Skipped
  {
  }

  /**
   * As written, when the slug field is not "slug" a freshly slugged record
   * still has no slug in its slug field, so the next save with nothing
   * dirty derives a slug again instead of skipping.
   */
  lemma AsWrittenSlugIsNotStable(m: SluggableModel, attrs: map<string, string>, dirty: set<string>,
                                 existing: seq<string>, slugify: string -> string,
                                 laterDirty: set<string>, laterExisting: seq<string>)
    requires m.GetSlugField() != "slug"
    requires !m.HasSlug(attrs)
    requires m.SetSlugOutcome(attrs, dirty, existing, slugify).Assigned?
    ensures !m.HasSlug(m.AfterSetSlug(attrs, m.SetSlugOutcome(attrs, dirty, existing, slugify)))
    ensures m.SetSlugOutcome(m.AfterSetSlug(attrs, m.SetSlugOutcome(attrs, dirty, existing, slugify)),
                             laterDirty, laterExisting, slugify).Assigned?
  {
  }
}
