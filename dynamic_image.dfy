/**
 * The description record of one image of one book (`DynamicImage`), its
 * descriptions (`has_many :dynamic_descriptions`, in the order the association
 * returns them) and the model-level validations on its fields.
 */
module DynamicImages {
  import opened Support

  /** The `:maximum` of every length validation on the record. */
  const MaxFieldLength: nat := 255

  datatype DynamicDescription = DynamicDescription(body: string)

  /** A database column that may hold NULL is an `Option`. */
  datatype DynamicImage = DynamicImage(
    uid: Option<string>,
    imageLocation: Option<string>,
    title: Option<string>,
    descriptions: seq<DynamicDescription>)

  /** `best_description`: the most recently added description, or nil when there is none. */
  function BestDescription(img: DynamicImage): (r: Option<DynamicDescription>)
    ensures r.None? <==> img.descriptions == []
    ensures r.Some? ==> img.descriptions == img.descriptions[..|img.descriptions| - 1] + [r.value]
  {
    if img.descriptions == [] then None
    else Some(img.descriptions[|img.descriptions| - 1])
  }

  /** Adding a description makes it the best one, whatever came before it. */
  lemma NewestDescriptionWins(img: DynamicImage, d: DynamicDescription)
    ensures BestDescription(img.(descriptions := img.descriptions + [d])) == Some(d)
  {
  }

  /** `DynamicImage.where("uid = ?", uid)`: the records of one book, in store order. */
  function Where(store: seq<DynamicImage>, uid: string): (rs: seq<DynamicImage>)
    ensures |rs| <= |store|
    ensures forall r :: r in rs <==> r in store && r.uid == Some(uid)
  {
    if store == [] then []
    else
      var rest := Where(store[1..], uid);
      assert forall r :: r in store <==> r == store[0] || r in store[1..];
      if store[0].uid == Some(uid) then [store[0]] + rest else rest
  }

  /** The query distributes over a store split in two: it keeps the store's order. */
  lemma {:induction false} WhereKeepsOrder(a: seq<DynamicImage>, b: seq<DynamicImage>, uid: string)
    ensures Where(a + b, uid) == Where(a, uid) + Where(b, uid)
    decreases |a|
  {
    if a == [] {
      assert a + b == b;
    } else {
      assert (a + b)[0] == a[0] && (a + b)[1..] == a[1..] + b;
      WhereKeepsOrder(a[1..], b, uid);
    }
  }

  // ---------------------------------------------------------------------------
  // Validations
  // ---------------------------------------------------------------------------

  datatype Field = Uid | ImageLocation | Title

  datatype ValidationError = Blank(field: Field) | TooLong(field: Field)

  /** Ruby's `\s` class, which `String#blank?` tests against. */
  predicate IsSpace(c: char) { c == ' ' || c == '\t' || c == '\n' || c == '\r' || c == '\U{0B}' || c == '\U{0C}' }

  /** `blank?` of a string: it has no non-space character. */
  predicate IsBlank(s: string) { forall i :: 0 <= i < |s| ==> IsSpace(s[i]) }

  /** `:presence => true`: the value is not nil and not blank. */
  predicate Present(v: Option<string>) { v.Some? && !IsBlank(v.value) }

  /** `:length => { :maximum => 255 }`, which lets nil through (its length counts as 0). */
  predicate WithinLength(v: Option<string>) { v.None? || |v.value| <= MaxFieldLength }

  function PresenceErrors(f: Field, v: Option<string>): seq<ValidationError> {
    if Present(v) then [] else [Blank(f)]
  }

  function LengthErrors(f: Field, v: Option<string>): seq<ValidationError> {
    if WithinLength(v) then [] else [TooLong(f)]
  }

  /** The record's errors, one per failed rule, in the order the validations are declared. */
  function Errors(img: DynamicImage): (es: seq<ValidationError>)
    ensures Blank(Uid) in es <==> !Present(img.uid)
    ensures Blank(ImageLocation) in es <==> !Present(img.imageLocation)
    ensures Blank(Title) !in es
    ensures forall f :: TooLong(f) in es <==> !WithinLength(match f case Uid => img.uid
                                                            case ImageLocation => img.imageLocation
                                                            case Title => img.title)
  {
    PresenceErrors(Uid, img.uid) + LengthErrors(Uid, img.uid)
    + PresenceErrors(ImageLocation, img.imageLocation) + LengthErrors(ImageLocation, img.imageLocation)
    + LengthErrors(Title, img.title)
  }

  /** `valid?` */
  predicate IsValid(img: DynamicImage)
    ensures IsValid(img) <==> Present(img.uid) && Present(img.imageLocation)
                              && WithinLength(img.uid) && WithinLength(img.imageLocation) && WithinLength(img.title)
  {
    Errors(img) == []
  }

  /**
   * A record is valid exactly when its uid and image location are present and at most
   * 255 characters long, and its title, if it has one, is at most 255 characters long.
   */
  lemma ValidIff(img: DynamicImage)
    ensures IsValid(img) <==>
              && img.uid.Some? && !IsBlank(img.uid.value) && |img.uid.value| <= MaxFieldLength
              && img.imageLocation.Some? && !IsBlank(img.imageLocation.value)
              && |img.imageLocation.value| <= MaxFieldLength
              && (img.title.Some? ==> |img.title.value| <= MaxFieldLength)
  {
  }

  /** An empty or all-space uid is reported as blank, and never as too long unless it is. */
  lemma BlankUidReported(img: DynamicImage)
    requires img.uid.Some? && IsBlank(img.uid.value)
    ensures Blank(Uid) in Errors(img)
    ensures TooLong(Uid) in Errors(img) <==> |img.uid.value| > MaxFieldLength
  {
  }
}
