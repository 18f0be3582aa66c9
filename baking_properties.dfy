/**
 * What the merge guarantees: the order of the validation failures, the skips,
 * the shape the tree takes around a processed image, the ownership guard, and
 * that processing a record again changes nothing once its image is the only one
 * with that location.
 */
module BakingProperties {
  import opened Support
  import opened Dom
  import opened DynamicImages
  import opened DescriptionBaking

  // ---------------------------------------------------------------------------
  // Validation
  // ---------------------------------------------------------------------------

  /**
   * The root check comes before the uid check, and neither failure depends on the
   * store; a missing root or namespace declaration is an XPath error before either.
   */
  lemma ValidationFailures(d: Document, store: seq<DynamicImage>)
    ensures d.root.None? || !d.declaresDefaultNamespace ==> UpdatedContents(d, store) == Err(XPathSyntaxError)
    ensures UpdatedContents(d, store) == Err(NonDaisyXml) <==>
              d.root.Some? && d.declaresDefaultNamespace && !Rooted(d.root.value)
    ensures UpdatedContents(d, store) == Err(MissingBookUid) <==>
              d.root.Some? && d.declaresDefaultNamespace && Rooted(d.root.value) && Count(d.root.value, UidMeta) != 1
  {
  }

  /** The uid meta element whose `content` is the book uid is the only one there is. */
  lemma BookUidIsTheUidMeta(d: Document, p: Path)
    requires BookUid(d).Ok?
    requires ValidPath(d.root.value, p) && Matches(UidMeta, At(d.root.value, p))
    ensures p == First(d.root.value, UidMeta).value
    ensures Attr(At(d.root.value, p), "content") == Some(BookUid(d).value)
  {
    MatchUnique(d.root.value, p, First(d.root.value, UidMeta).value, UidMeta);
  }

  /** A uid meta element without a `content` attribute is an unexpected error, not a missing uid. */
  lemma UidWithoutContent(d: Document, store: seq<DynamicImage>)
    requires d.root.Some? && d.declaresDefaultNamespace && Rooted(d.root.value)
    requires Count(d.root.value, UidMeta) == 1
    requires forall p :: ValidPath(d.root.value, p) && Matches(UidMeta, At(d.root.value, p)) ==>
               Attr(At(d.root.value, p), "content").None?
    ensures UpdatedContents(d, store) == Err(UnexpectedError)
  {
    FirstNoneIffNoMatch(d.root.value, UidMeta);
  }

  /** Only the records whose uid is the book's are merged: a record of another book, anywhere in the store, has no effect. */
  lemma OtherBooksIgnored(d: Document, a: seq<DynamicImage>, r: DynamicImage, b: seq<DynamicImage>)
    requires BookUid(d).Ok? && r.uid != Some(BookUid(d).value)
    ensures UpdatedContents(d, a + [r] + b) == UpdatedContents(d, a + b)
  {
    var uid := BookUid(d).value;
    WhereKeepsOrder(a + [r], b, uid);
    WhereKeepsOrder(a, [r], uid);
    WhereKeepsOrder(a, b, uid);
    assert Where([r], uid) == [];
    assert Where(a, uid) + [] == Where(a, uid);
  }

  // ---------------------------------------------------------------------------
  // Skips
  // ---------------------------------------------------------------------------

  /** With no description the record is skipped, whether or not its image is in the document. */
  lemma SkipWithoutDescription(t: Node, r: DynamicImage)
    requires Rooted(t) && !BreaksXPath(LocationOf(r)) && r.descriptions == []
    ensures Step(t, r) == Skipped(NoDescription)
  {
  }

  /** A record with a description is skipped for a missing image exactly when no img has its location. */
  lemma SkipWithoutImage(t: Node, r: DynamicImage)
    requires Rooted(t)
    ensures Step(t, r) == Skipped(NoImgElement) <==>
              !BreaksXPath(LocationOf(r)) && r.descriptions != [] && Count(t, ImgWithSrc(LocationOf(r))) == 0
  {
    FirstNoneIffNoMatch(t, ImgWithSrc(LocationOf(r)));
    ImageFoundIffParentFound(t, LocationOf(r));
  }

  /** A skipped record raises nothing and leaves the tree to the next record as it was. */
  lemma SkippedRecordChangesNothing(t: Node, r: DynamicImage, rest: seq<DynamicImage>)
    requires Rooted(t) && Step(t, r).Skipped?
    ensures Merge(t, [r] + rest) == Merge(t, rest)
  {
    assert ([r] + rest)[0] == r && ([r] + rest)[1..] == rest;
  }

  /** An aborted record ends the run with its failure; no later record is looked at. */
  lemma AbortEndsRun(t: Node, r: DynamicImage, rest: seq<DynamicImage>)
    requires Rooted(t) && Step(t, r).Aborted?
    ensures Merge(t, [r] + rest) == Err(Step(t, r).failure)
  {
    assert ([r] + rest)[0] == r;
  }

  // ---------------------------------------------------------------------------
  // The tree around a processed image
  // ---------------------------------------------------------------------------

  /** The two queries agree: the parent found is the parent of the image found. */
  predicate Coherent(t: Node, location: string) {
    match First(t, ImgWithSrc(location))
    case None => false
    case Some(image) => |image| > 0 && First(t, ParentOfImgWithSrc(location)) == Some(Parent(image))
  }

  /** They do whenever a single img has the location. */
  lemma SingleImageIsCoherent(t: Node, location: string)
    requires Rooted(t) && Count(t, ImgWithSrc(location)) == 1
    ensures Coherent(t, location)
  {
    FirstNoneIffNoMatch(t, ImgWithSrc(location));
    ParentQueryIsImageParent(t, location);
  }

  /** The image the record's location selects. */
  function ImageOf(t: Node, location: string): (image: Path)
    requires Coherent(t, location)
    ensures ValidPath(t, image) && |image| > 0 && ImgHasSrc(At(t, image), location)
    ensures ValidPath(t, Parent(image))
  {
    First(t, ImgWithSrc(location)).value
  }

  /** The prodnote made for a description that has none yet. */
  function NewProdnote(body: string, imageId: string): Node {
    Fill(NewElement(Prodnote), body, imageId)
  }

  /**
   * Reference result of wrapping: the image leaves its parent, which gains, as its
   * last child, an imggroup holding the image and then `note`.
   */
  function RegroupedAtEnd(t: Node, image: Path, note: Node): Node
    requires ValidPath(t, image) && |image| > 0
  {
    ParentHolds(t, image);
    var holder := At(t, Parent(image));
    var cs := holder.children;
    var m := Last(image);
    Replace(t, Parent(image), holder.(children := cs[..m] + cs[m + 1..] + [Element(ImgGroup, map[], [cs[m], note])]))
  }

  /** The wrapping before the prodnote: the image alone in an imggroup at the end of its old parent. */
  function WrappedAtEnd(t: Node, image: Path): Node
    requires ValidPath(t, image) && |image| > 0
  {
    ParentHolds(t, image);
    var holder := At(t, Parent(image));
    var cs := holder.children;
    var m := Last(image);
    Replace(t, Parent(image), holder.(children := cs[..m] + cs[m + 1..] + [Element(ImgGroup, map[], [cs[m]])]))
  }

  /** Where the wrapping puts the new imggroup: the last child of the image's old parent. */
  function EndGroupPath(t: Node, image: Path): Path
    requires ValidPath(t, image) && |image| > 0
  {
    ParentHolds(t, image);
    Parent(image) + [|At(t, Parent(image)).children| - 1]
  }

  /** Reference result of adding a prodnote: `note` becomes the image's next sibling. */
  function NoteAfterImage(t: Node, image: Path, note: Node): Node
    requires ValidPath(t, image) && |image| > 0
  {
    ParentHolds(t, image);
    var holder := At(t, Parent(image));
    var cs := holder.children;
    var m := Last(image);
    Replace(t, Parent(image), holder.(children := cs[..m + 1] + [note] + cs[m + 1..]))
  }

  /** Reference result of updating a prodnote: child `j` of the group is rewritten in place. */
  function Overwritten(t: Node, group: Path, j: nat, body: string, imageId: string): Node
    requires ValidPath(t, group) && At(t, group).Element? && j < |At(t, group).children|
    requires IsElement(At(t, group).children[j], Prodnote)
  {
    var holder := At(t, group);
    Replace(t, group, holder.(children := holder.children[j := Fill(holder.children[j], body, imageId)]))
  }

  /** Appending a group to the image's parent and then unlinking the image, as one rebuild of the parent. */
  lemma AppendThenUnlink(t: Node, image: Path)
    requires ValidPath(t, image) && |image| > 0
    ensures ValidPath(t, Parent(image)) && At(t, Parent(image)).Element?
    ensures var holder := At(t, Parent(image));
            var cs := holder.children;
            var m := Last(image);
            && m < |cs|
            && RemoveChild(WithNewGroup(t, Parent(image)), Parent(image), m)
               == Replace(t, Parent(image), holder.(children := cs[..m] + cs[m + 1..] + [NewElement(ImgGroup)]))
  {
    var parent := Parent(image);
    ParentHolds(t, image);
    var holder := At(t, parent);
    var cs := holder.children;
    var m := Last(image);
    var h1 := holder.(children := cs + [NewElement(ImgGroup)]);
    var t1 := WithNewGroup(t, parent);
    assert t1 == Replace(t, parent, h1);
    var h2 := holder.(children := cs[..m] + cs[m + 1..] + [NewElement(ImgGroup)]);
    DropBeforeLast(cs, m, NewElement(ImgGroup));
    assert RemoveChild(t1, parent, m) == Replace(t1, parent, h2);
    ReplaceTwice(t, parent, h1, h2);
  }

  /** Giving the last child of an element a new value, as one rebuild of that element. */
  lemma ReplaceLastChild(t: Node, p: Path, h: Node, x: Node)
    requires ValidPath(t, p) && h.Element? && |h.children| > 0
    ensures ValidPath(Replace(t, p, h), p + [|h.children| - 1])
    ensures Replace(Replace(t, p, h), p + [|h.children| - 1], x)
            == Replace(t, p, h.(children := h.children[..|h.children| - 1] + [x]))
  {
    var k := |h.children|;
    ReplaceChildOf(Replace(t, p, h), p, k - 1, x);
    assert h.children[k - 1 := x] == h.children[..k - 1] + [x];
    ReplaceTwice(t, p, h, h.(children := h.children[k - 1 := x]));
  }

  /** The steps `EnsureImageGroup` takes when the image's own parent is not an imggroup. */
  lemma NewGroupSteps(t: Node, image: Path)
    requires ValidPath(t, image) && |image| > 0
    requires ValidPath(t, Parent(image)) && !IsElement(At(t, Parent(image)), ImgGroup)
    ensures At(t, Parent(image)).Element? && 0 < |At(t, Parent(image)).children|
    ensures Last(image) < |At(t, Parent(image)).children|
    ensures var gp := Parent(image) + [|At(t, Parent(image)).children| - 1];
            var t2 := RemoveChild(WithNewGroup(t, Parent(image)), Parent(image), Last(image));
            && ValidPath(t2, gp) && At(t2, gp) == NewElement(ImgGroup)
            && EnsureImageGroup(t, Parent(image), image) == Grouped(AppendChild(t2, gp, At(t, image)), gp, gp + [0])
  {
    ParentHolds(t, image);
    NewGroupPlacement(t, Parent(image), image);
  }

  /** The tree those steps build: the parent rebuilt without the image and with the group at its end. */
  lemma NewGroupTree(t: Node, image: Path)
    requires ValidPath(t, image) && |image| > 0
    requires ValidPath(t, Parent(image)) && !IsElement(At(t, Parent(image)), ImgGroup)
    ensures At(t, Parent(image)).Element? && Last(image) < |At(t, Parent(image)).children|
    ensures var parent := Parent(image);
            var holder := At(t, parent);
            var cs := holder.children;
            var m := Last(image);
            var gp := parent + [|cs| - 1];
            var t2 := RemoveChild(WithNewGroup(t, parent), parent, m);
            && ValidPath(t2, gp) && At(t2, gp).Element?
            && AppendChild(t2, gp, cs[m]) == WrappedAtEnd(t, image)
  {
    var parent := Parent(image);
    ParentHolds(t, image);
    NewGroupSteps(t, image);
    var holder := At(t, parent);
    var cs := holder.children;
    var m := Last(image);
    var k := |cs|;
    var h2 := holder.(children := cs[..m] + cs[m + 1..] + [NewElement(ImgGroup)]);
    var t2 := RemoveChild(WithNewGroup(t, parent), parent, m);
    var gp := parent + [k - 1];
    var g1 := Element(ImgGroup, map[], [cs[m]]);
    assert t2 == Replace(t, parent, h2) by {
      AppendThenUnlink(t, image);
    }
    assert AppendChild(t2, gp, cs[m]) == Replace(t2, gp, g1) by {
      assert [] + [cs[m]] == [cs[m]];
    }
    assert |h2.children| == k;
    ReplaceLastChild(t, parent, h2, g1);
    assert h2.children[..k - 1] == cs[..m] + cs[m + 1..];
  }

  /** The grouping on its own: the image's parent ends with a new imggroup holding just the image. */
  lemma GroupingAppendsGroup(t: Node, image: Path)
    requires ValidPath(t, image) && |image| > 0
    requires ValidPath(t, Parent(image)) && !IsElement(At(t, Parent(image)), ImgGroup)
    ensures EnsureImageGroup(t, Parent(image), image)
            == Grouped(WrappedAtEnd(t, image), EndGroupPath(t, image), EndGroupPath(t, image) + [0])
  {
    ParentHolds(t, image);
    NewGroupSteps(t, image);
    NewGroupTree(t, image);
    assert EndGroupPath(t, image) == Parent(image) + [|At(t, Parent(image)).children| - 1];
  }

  /** A group holding only the image gets a new prodnote after it. */
  lemma AttachInFreshGroup(u: Node, gp: Path, img: Node, body: string, imageId: string)
    requires ValidPath(u, gp) && At(u, gp) == Element(ImgGroup, map[], [img]) && !IsElement(img, Prodnote)
    ensures ValidPath(u, gp + [0])
    ensures AttachProdnote(u, gp, gp + [0], body, imageId)
            == Updated(Replace(u, gp, Element(ImgGroup, map[], [img, NewProdnote(body, imageId)])))
  {
    AtConcat(u, gp, [0]);
    assert FirstChildTagged([img], Prodnote, 0).None?;
    assert Parent(gp + [0]) == gp && Last(gp + [0]) == 0;
    assert [img][..1] + [NewProdnote(body, imageId)] + [img][1..] == [img, NewProdnote(body, imageId)];
  }

  /** A record with a description and a found parent goes through grouping and then the prodnote. */
  lemma StepStages(t: Node, r: DynamicImage)
    requires Rooted(t) && !BreaksXPath(LocationOf(r)) && BestDescription(r).Some?
    requires Coherent(t, LocationOf(r))
    ensures var image := ImageOf(t, LocationOf(r));
            var g := EnsureImageGroup(t, Parent(image), image);
            ValidPath(g.tree, g.group) && At(g.tree, g.group).Element? && ValidPath(g.tree, g.image) && |g.image| > 0
            && Step(t, r) == AttachProdnote(g.tree, g.group, g.image, BestDescription(r).value.body, ImageId(At(t, image)))
  {
  }

  /** The wrapped tree before the note: the imggroup at the end holds just the image. */
  lemma FreshGroupAtEnd(t: Node, image: Path)
    requires ValidPath(t, image) && |image| > 0
    ensures ValidPath(t, Parent(image)) && At(t, Parent(image)).Element? && Last(image) < |At(t, Parent(image)).children|
    ensures ValidPath(WrappedAtEnd(t, image), EndGroupPath(t, image))
    ensures At(WrappedAtEnd(t, image), EndGroupPath(t, image))
            == Element(ImgGroup, map[], [At(t, Parent(image)).children[Last(image)]])
  {
    ParentHolds(t, image);
    var parent := Parent(image);
    var holder := At(t, parent);
    var cs := holder.children;
    var m := Last(image);
    var g1 := Element(ImgGroup, map[], [cs[m]]);
    var h3 := holder.(children := cs[..m] + cs[m + 1..] + [g1]);
    var u := Replace(t, parent, h3);
    assert WrappedAtEnd(t, image) == u;
    assert EndGroupPath(t, image) == parent + [|cs| - 1];
    assert ValidPath(u, parent + [|cs| - 1]) && At(u, parent + [|cs| - 1]) == g1 by {
      assert |h3.children| == |cs| && h3.children[|cs| - 1] == g1;
      AtConcat(u, parent, [|cs| - 1]);
    }
  }

  /** A last child `[a]` imggroup replaced by `[a, note]`: one edit of the parent instead of two. */
  lemma LastGroupFilled(t: Node, parent: Path, xs: seq<Node>, a: Node, note: Node)
    requires ValidPath(t, parent) && At(t, parent).Element?
    ensures var h3 := At(t, parent).(children := xs + [Element(ImgGroup, map[], [a])]);
            && ValidPath(Replace(t, parent, h3), parent + [|xs|])
            && Replace(Replace(t, parent, h3), parent + [|xs|], Element(ImgGroup, map[], [a, note]))
               == Replace(t, parent, At(t, parent).(children := xs + [Element(ImgGroup, map[], [a, note])]))
  {
    var h3 := At(t, parent).(children := xs + [Element(ImgGroup, map[], [a])]);
    ReplaceLastChild(t, parent, h3, Element(ImgGroup, map[], [a, note]));
    assert h3.children[..|xs|] == xs;
  }

  /** Filling that imggroup with the image and `note` gives the reference regrouping. */
  lemma FreshGroupFilled(t: Node, image: Path, note: Node)
    requires ValidPath(t, image) && |image| > 0
    ensures ValidPath(t, Parent(image)) && At(t, Parent(image)).Element? && Last(image) < |At(t, Parent(image)).children|
    ensures ValidPath(WrappedAtEnd(t, image), EndGroupPath(t, image))
    ensures Replace(WrappedAtEnd(t, image), EndGroupPath(t, image),
                    Element(ImgGroup, map[], [At(t, Parent(image)).children[Last(image)], note]))
            == RegroupedAtEnd(t, image, note)
  {
    ParentHolds(t, image);
    var parent := Parent(image);
    var cs := At(t, parent).children;
    var m := Last(image);
    var xs := cs[..m] + cs[m + 1..];
    assert |xs| == |cs| - 1;
    assert WrappedAtEnd(t, image) == Replace(t, parent, At(t, parent).(children := xs + [Element(ImgGroup, map[], [cs[m]])]));
    assert EndGroupPath(t, image) == parent + [|xs|];
    assert RegroupedAtEnd(t, image, note) == Replace(t, parent, At(t, parent).(children := xs + [Element(ImgGroup, map[], [cs[m], note])]));
    LastGroupFilled(t, parent, xs, cs[m], note);
  }

  /** The prodnote step on the wrapped tree: the imggroup at the end of the parent gains the note. */
  lemma AttachAfterRegrouping(t: Node, image: Path, body: string, imageId: string)
    requires ValidPath(t, image) && |image| > 0 && IsElement(At(t, image), Img)
    ensures var u := WrappedAtEnd(t, image);
            var gp := EndGroupPath(t, image);
            && ValidPath(u, gp) && At(u, gp).Element? && ValidPath(u, gp + [0])
            && AttachProdnote(u, gp, gp + [0], body, imageId) == Updated(RegroupedAtEnd(t, image, NewProdnote(body, imageId)))
  {
    FreshGroupAtEnd(t, image);
    FreshGroupFilled(t, image, NewProdnote(body, imageId));
    ParentHolds(t, image);
    AttachInFreshGroup(WrappedAtEnd(t, image), EndGroupPath(t, image), At(t, Parent(image)).children[Last(image)], body, imageId);
  }

  /**
   * An image outside an imggroup: the new group is appended to the old parent,
   * the image moves into it and a new prodnote follows the image there.
   */
  lemma StepWrapsImageInNewGroup(t: Node, r: DynamicImage)
    requires Rooted(t) && !BreaksXPath(LocationOf(r)) && BestDescription(r).Some?
    requires Coherent(t, LocationOf(r))
    requires !IsElement(At(t, Parent(ImageOf(t, LocationOf(r)))), ImgGroup)
    ensures var image := ImageOf(t, LocationOf(r));
            Step(t, r) ==
              Updated(RegroupedAtEnd(t, image, NewProdnote(BestDescription(r).value.body, ImageId(At(t, image)))))
  {
    var image := ImageOf(t, LocationOf(r));
    StepStages(t, r);
    GroupingAppendsGroup(t, image);
    AttachAfterRegrouping(t, image, BestDescription(r).value.body, ImageId(At(t, image)));
  }

  /** An image already in an imggroup without a prodnote: a new prodnote becomes its next sibling. */
  lemma StepAddsProdnoteAfterImage(t: Node, r: DynamicImage)
    requires Rooted(t) && !BreaksXPath(LocationOf(r)) && BestDescription(r).Some?
    requires Coherent(t, LocationOf(r))
    requires IsElement(At(t, Parent(ImageOf(t, LocationOf(r)))), ImgGroup)
    requires FirstChildTagged(At(t, Parent(ImageOf(t, LocationOf(r)))).children, Prodnote, 0).None?
    ensures var image := ImageOf(t, LocationOf(r));
            Step(t, r) ==
              Updated(NoteAfterImage(t, image, NewProdnote(BestDescription(r).value.body, ImageId(At(t, image)))))
  {
    ParentHolds(t, ImageOf(t, LocationOf(r)));
  }

  /** An image in an imggroup whose first prodnote is its own: that prodnote is rewritten where it stands. */
  lemma StepRewritesOwnProdnote(t: Node, r: DynamicImage)
    requires Rooted(t) && !BreaksXPath(LocationOf(r)) && BestDescription(r).Some?
    requires Coherent(t, LocationOf(r))
    requires var group := At(t, Parent(ImageOf(t, LocationOf(r))));
             && IsElement(group, ImgGroup)
             && FirstChildTagged(group.children, Prodnote, 0).Some?
             && Attr(group.children[FirstChildTagged(group.children, Prodnote, 0).value], "id")
                == Some(CreateProdnoteId(ImageId(At(t, ImageOf(t, LocationOf(r))))))
    ensures var image := ImageOf(t, LocationOf(r));
            var group := At(t, Parent(image));
            Step(t, r) ==
              Updated(Overwritten(t, Parent(image), FirstChildTagged(group.children, Prodnote, 0).value,
                                  BestDescription(r).value.body, ImageId(At(t, image))))
  {
    var image := ImageOf(t, LocationOf(r));
    var group := At(t, Parent(image));
    var j := FirstChildTagged(group.children, Prodnote, 0).value;
    ReplaceChildOf(t, Parent(image), j, Fill(group.children[j], BestDescription(r).value.body, ImageId(At(t, image))));
  }

  // ---------------------------------------------------------------------------
  // The ownership guard
  // ---------------------------------------------------------------------------

  /** The group about to hold the prodnote already has one whose id was not derived from this image's id. */
  predicate ForeignProdnote(t: Node, location: string)
    requires Rooted(t)
  {
    match First(t, ParentOfImgWithSrc(location))
    case None => false
    case Some(parent) =>
      ParentQueryAboveImage(t, location);
      var image := First(t, ImgWithSrc(location)).value;
      var group := At(t, parent);
      && IsElement(group, ImgGroup)
      && match FirstChildTagged(group.children, Prodnote, 0)
         case None => false
         case Some(j) => Attr(group.children[j], "id") != Some(CreateProdnoteId(ImageId(At(t, image))))
  }

  /**
   * A record aborts the run with UnrecognizedProdnote exactly when it has a description and
   * the parent found is an imggroup whose first prodnote carries a foreign id; a group the
   * record creates itself never does.
   */
  lemma OwnershipGuard(t: Node, r: DynamicImage)
    requires Rooted(t)
    ensures Step(t, r) == Aborted(UnrecognizedProdnote) <==>
              !BreaksXPath(LocationOf(r)) && BestDescription(r).Some? && ForeignProdnote(t, LocationOf(r))
  {
    var location := LocationOf(r);
    if !BreaksXPath(location) && BestDescription(r).Some? && First(t, ParentOfImgWithSrc(location)).Some? {
      var parent := First(t, ParentOfImgWithSrc(location)).value;
      ParentQueryAboveImage(t, location);
      var image := First(t, ImgWithSrc(location)).value;
      if !IsElement(At(t, parent), ImgGroup) {
        var g := EnsureImageGroup(t, parent, image);
        assert At(g.tree, g.group).children == [At(t, image)];
        assert FirstChildTagged(At(g.tree, g.group).children, Prodnote, 0).None?;
      }
    }
  }

  /** A record raises the XPath syntax error exactly when its location breaks the quoted literal. */
  lemma XPathErrorIffBadLiteral(t: Node, r: DynamicImage)
    requires Rooted(t)
    ensures Step(t, r) == Aborted(XPathSyntaxError) <==> BreaksXPath(LocationOf(r))
  {
    if !BreaksXPath(LocationOf(r)) && BestDescription(r).Some? {
      var location := LocationOf(r);
      if First(t, ParentOfImgWithSrc(location)).Some? {
        ParentQueryAboveImage(t, location);
        var image := First(t, ImgWithSrc(location)).value;
        var g := EnsureImageGroup(t, First(t, ParentOfImgWithSrc(location)).value, image);
        assert Step(t, r) == AttachProdnote(g.tree, g.group, g.image, BestDescription(r).value.body, ImageId(At(t, image)));
      }
    }
  }

  /** The two failures that both say the file is not a valid DTBook content file. */
  predicate NotValidXml(f: Failure) { f == NonDaisyXml || f == XPathSyntaxError }

  lemma ForeignDescriptionsAlertLength() ensures |ForeignDescriptionsAlert| == 97 { }
  lemma InvalidContentFileAlertLength() ensures |InvalidContentFileAlert| == 57 { }
  lemma MissingUidAlertLength() ensures |MissingUidAlert| == 60 { }
  lemma UnexpectedErrorAlertLength() ensures |UnexpectedErrorAlert| == 54 { }

  /** Each failure has its own alert, except that the two XML-validity failures share one. */
  lemma AlertMessages(a: Failure, b: Failure)
    ensures AlertMessage(a) == AlertMessage(b) <==> a == b || (NotValidXml(a) && NotValidXml(b))
  {
    ForeignDescriptionsAlertLength();
    InvalidContentFileAlertLength();
    MissingUidAlertLength();
    UnexpectedErrorAlertLength();
  }

  /** A run stopped by a foreign prodnote returns no document, only the "other sources" alert. */
  lemma ForeignProdnoteAlert(d: Document, store: seq<DynamicImage>)
    requires UpdatedContents(d, store) == Err(UnrecognizedProdnote)
    ensures XmlContentsWithUpdatedDescriptions(d, store) == Err(ForeignDescriptionsAlert)
  {
  }

  // ---------------------------------------------------------------------------
  // Nothing is duplicated
  // ---------------------------------------------------------------------------

  /** A prodnote holding only its text matches no local query. */
  lemma TextProdnoteMatchesNothing(note: Node, body: string, q: Query)
    requires IsElement(note, Prodnote) && note.children == TextContent(body) && IsLocal(q)
    ensures Count(note, q) == 0
  {
    assert !Matches(q, note);
    if body != "" {
      assert note.children[..0] == [];
      assert CountAll(note.children, q) == CountAll([], q) + Count(Text(body), q);
    }
  }

  /** The grouping moves the image and adds an empty group: no local query gains or loses a match. */
  lemma GroupingKeepsMatches(t: Node, parent: Path, image: Path, q: Query)
    requires ValidPath(t, image) && IsStrictPrefix(parent, image) && IsLocal(q)
    ensures Count(EnsureImageGroup(t, parent, image).tree, q) == Count(t, q)
  {
    NewGroupPlacement(t, parent, image);
    if !IsElement(At(t, parent), ImgGroup) {
      var t1 := WithNewGroup(t, parent);
      CountAppendChild(t, parent, NewElement(ImgGroup), q);
      ParentHolds(t1, image);
      CountRemoveChild(t1, Parent(image), Last(image), q);
      var t2 := RemoveChild(t1, Parent(image), Last(image));
      var group := GroupPath(parent, image, |At(t, parent).children|);
      CountAppendChild(t2, group, At(t, image), q);
    }
  }

  /** Writing the prodnote adds no match of a local query; rewriting one can only drop what it held. */
  lemma AttachAddsNoMatches(t: Node, group: Path, image: Path, body: string, imageId: string, q: Query)
    requires ValidPath(t, group) && At(t, group).Element? && ValidPath(t, image) && |image| > 0 && IsLocal(q)
    requires AttachProdnote(t, group, image, body, imageId).Updated?
    ensures Count(AttachProdnote(t, group, image, body, imageId).tree, q) <= Count(t, q)
  {
    var cs := At(t, group).children;
    match FirstChildTagged(cs, Prodnote, 0)
    case None =>
      ParentHolds(t, image);
      CountInsertChild(t, Parent(image), Last(image) + 1, NewProdnote(body, imageId), q);
      TextProdnoteMatchesNothing(NewProdnote(body, imageId), body, q);
    case Some(j) =>
      AtConcat(t, group, [j]);
      CountReplace(t, group + [j], Fill(cs[j], body, imageId), q);
      TextProdnoteMatchesNothing(Fill(cs[j], body, imageId), body, q);
  }

  /** A processed record never adds an img or a uid meta element to the document. */
  lemma StepAddsNoMatches(t: Node, r: DynamicImage, q: Query)
    requires Rooted(t) && IsLocal(q) && Step(t, r).Updated?
    ensures Count(Step(t, r).tree, q) <= Count(t, q)
  {
    var location := LocationOf(r);
    var parent := First(t, ParentOfImgWithSrc(location)).value;
    ParentQueryAboveImage(t, location);
    var image := First(t, ImgWithSrc(location)).value;
    var g := EnsureImageGroup(t, parent, image);
    GroupingKeepsMatches(t, parent, image, q);
    AttachAddsNoMatches(g.tree, g.group, g.image, BestDescription(r).value.body, ImageId(At(t, image)), q);
  }

  // ---------------------------------------------------------------------------
  // Baked images and idempotence
  // ---------------------------------------------------------------------------

  /**
   * What processing a record leaves behind: the img the location selects sits in an
   * imggroup, the parent query finds that group, and the group's first prodnote
   * carries the description with the attributes derived from the image's id.
   */
  predicate Baked(u: Node, location: string, body: string) {
    match First(u, ImgWithSrc(location))
    case None => false
    case Some(image) =>
      && |image| > 0
      && First(u, ParentOfImgWithSrc(location)) == Some(Parent(image))
      && IsElement(At(u, Parent(image)), ImgGroup)
      && match FirstChildTagged(At(u, Parent(image)).children, Prodnote, 0)
         case None => false
         case Some(j) => Described(At(u, Parent(image)).children[j], body, ImageId(At(u, image)))
  }

  /** Writing a description into a prodnote that already carries it changes nothing. */
  lemma FillKeepsDescribed(note: Node, body: string, imageId: string)
    requires Described(note, body, imageId)
    ensures Fill(note, body, imageId) == note
  {
    var a := note.attrs;
    assert a["render" := "optional"] == a;
    assert a["imgref" := imageId] == a;
    assert a["id" := CreateProdnoteId(imageId)] == a;
    assert a["showin" := "blp"] == a;
  }

  /** A baked image is a fixed point: processing its record again gives back the same tree. */
  lemma BakedIsFixedPoint(u: Node, r: DynamicImage)
    requires Rooted(u) && !BreaksXPath(LocationOf(r)) && BestDescription(r).Some?
    requires Baked(u, LocationOf(r), BestDescription(r).value.body)
    ensures Step(u, r) == Updated(u)
  {
    var body := BestDescription(r).value.body;
    var image := ImageOf(u, LocationOf(r));
    var holder := At(u, Parent(image));
    var j := FirstChildTagged(holder.children, Prodnote, 0).value;
    StepRewritesOwnProdnote(u, r);
    FillKeepsDescribed(holder.children[j], body, ImageId(At(u, image)));
    assert holder.children[j := holder.children[j]] == holder.children;
    ReplaceSelf(u, Parent(image));
  }

  /** How to recognise a baked image, given where the img is. */
  lemma BakedAt(u: Node, location: string, body: string, image: Path, j: nat)
    requires Rooted(u) && Count(u, ImgWithSrc(location)) <= 1
    requires ValidPath(u, image) && |image| > 0 && ImgHasSrc(At(u, image), location)
    requires ValidPath(u, Parent(image)) && IsElement(At(u, Parent(image)), ImgGroup)
    requires FirstChildTagged(At(u, Parent(image)).children, Prodnote, 0) == Some(j)
    requires Described(At(u, Parent(image)).children[j], body, ImageId(At(u, image)))
    ensures Baked(u, location, body)
  {
    FoundSomewhere(u, image, ImgWithSrc(location));
    MatchUnique(u, First(u, ImgWithSrc(location)).value, image, ImgWithSrc(location));
    ParentQueryIsImageParent(u, location);
  }

  /** Where the image and its group are in the reference result of wrapping. */
  lemma RegroupedPositions(t: Node, image: Path, note: Node)
    requires ValidPath(t, image) && |image| > 0
    ensures ValidPath(t, Parent(image)) && At(t, Parent(image)).Element?
    ensures var k := |At(t, Parent(image)).children|;
            var image' := Parent(image) + [k - 1, 0];
            var u := RegroupedAtEnd(t, image, note);
            && k > 0 && ValidPath(u, image') && At(u, image') == At(t, image)
            && Parent(image') == Parent(image) + [k - 1]
            && ValidPath(u, Parent(image')) && At(u, Parent(image')) == Element(ImgGroup, map[], [At(t, image), note])
  {
    var parent := Parent(image);
    ParentHolds(t, image);
    var holder := At(t, parent);
    var cs := holder.children;
    var m := Last(image);
    var k := |cs|;
    var g2 := Element(ImgGroup, map[], [cs[m], note]);
    var h4 := holder.(children := cs[..m] + cs[m + 1..] + [g2]);
    var u := RegroupedAtEnd(t, image, note);
    assert At(u, parent) == h4 && h4.children[k - 1] == g2;
    var image' := parent + [k - 1, 0];
    assert image' == parent + [k - 1] + [0];
    AtConcat(u, parent, [k - 1]);
    AtConcat(u, parent + [k - 1], [0]);
  }

  /** After a new group: the image is the group's first child and the prodnote its second. */
  lemma BakedAfterNewGroup(t: Node, r: DynamicImage)
    requires Rooted(t) && !BreaksXPath(LocationOf(r)) && BestDescription(r).Some?
    requires Coherent(t, LocationOf(r)) && Count(t, ImgWithSrc(LocationOf(r))) <= 1
    requires !IsElement(At(t, Parent(ImageOf(t, LocationOf(r)))), ImgGroup)
    ensures Step(t, r).Updated? && Baked(Step(t, r).tree, LocationOf(r), BestDescription(r).value.body)
  {
    var location := LocationOf(r);
    var body := BestDescription(r).value.body;
    var image := ImageOf(t, location);
    var note := NewProdnote(body, ImageId(At(t, image)));
    StepWrapsImageInNewGroup(t, r);
    RegroupedPositions(t, image, note);
    var u := Step(t, r).tree;
    var image' := Parent(image) + [|At(t, Parent(image)).children| - 1, 0];
    StepAddsNoMatches(t, r, ImgWithSrc(location));
    FirstChildTaggedIs([At(t, image), note], Prodnote, 0, 1);
    BakedAt(u, location, body, image', 1);
  }

  /** A described note put right after a uniquely located image in a group without a prodnote bakes it. */
  lemma BakedAfterInsert(t: Node, image: Path, note: Node, location: string, body: string)
    requires ValidPath(t, image) && |image| > 0 && ImgHasSrc(At(t, image), location)
    requires ValidPath(t, Parent(image)) && IsElement(At(t, Parent(image)), ImgGroup)
    requires FirstChildTagged(At(t, Parent(image)).children, Prodnote, 0).None?
    requires Described(note, body, ImageId(At(t, image)))
    requires Rooted(NoteAfterImage(t, image, note))
    requires Count(NoteAfterImage(t, image, note), ImgWithSrc(location)) <= 1
    ensures Baked(NoteAfterImage(t, image, note), location, body)
  {
    var parent := Parent(image);
    ParentHolds(t, image);
    var holder := At(t, parent);
    var cs := holder.children;
    var m := Last(image);
    var h := holder.(children := cs[..m + 1] + [note] + cs[m + 1..]);
    var u := NoteAfterImage(t, image, note);
    assert u == Replace(t, parent, h);
    assert ValidPath(u, parent) && At(u, parent) == h;
    assert ValidPath(u, image) && At(u, image) == At(t, image) by {
      assert h.children[m] == cs[m];
      assert image == parent + [m];
      AtConcat(u, parent, [m]);
    }
    assert FirstChildTagged(h.children, Prodnote, 0) == Some(m + 1) by {
      assert h.children[m + 1] == note;
      FirstChildTaggedIs(h.children, Prodnote, 0, m + 1);
    }
    BakedAt(u, location, body, image, m + 1);
  }

  /** After a prodnote is added to an existing group: it is the group's first prodnote. */
  lemma BakedAfterNewProdnote(t: Node, r: DynamicImage)
    requires Rooted(t) && !BreaksXPath(LocationOf(r)) && BestDescription(r).Some?
    requires Coherent(t, LocationOf(r)) && Count(t, ImgWithSrc(LocationOf(r))) <= 1
    requires IsElement(At(t, Parent(ImageOf(t, LocationOf(r)))), ImgGroup)
    requires FirstChildTagged(At(t, Parent(ImageOf(t, LocationOf(r)))).children, Prodnote, 0).None?
    ensures Step(t, r).Updated? && Baked(Step(t, r).tree, LocationOf(r), BestDescription(r).value.body)
  {
    var location := LocationOf(r);
    var body := BestDescription(r).value.body;
    var image := ImageOf(t, location);
    var note := NewProdnote(body, ImageId(At(t, image)));
    StepAddsProdnoteAfterImage(t, r);
    StepAddsNoMatches(t, r, ImgWithSrc(location));
    BakedAfterInsert(t, image, note, location, body);
  }

  /** Rewriting the group's first prodnote beside a uniquely located image bakes it. */
  lemma BakedAfterFill(t: Node, image: Path, j: nat, location: string, body: string)
    requires ValidPath(t, image) && |image| > 0 && ImgHasSrc(At(t, image), location)
    requires ValidPath(t, Parent(image)) && IsElement(At(t, Parent(image)), ImgGroup)
    requires FirstChildTagged(At(t, Parent(image)).children, Prodnote, 0) == Some(j)
    requires Rooted(Overwritten(t, Parent(image), j, body, ImageId(At(t, image))))
    requires Count(Overwritten(t, Parent(image), j, body, ImageId(At(t, image))), ImgWithSrc(location)) <= 1
    ensures Baked(Overwritten(t, Parent(image), j, body, ImageId(At(t, image))), location, body)
  {
    var parent := Parent(image);
    ParentHolds(t, image);
    var holder := At(t, parent);
    var cs := holder.children;
    var m := Last(image);
    var note := Fill(cs[j], body, ImageId(At(t, image)));
    var h := holder.(children := cs[j := note]);
    var u := Overwritten(t, parent, j, body, ImageId(At(t, image)));
    assert u == Replace(t, parent, h);
    assert ValidPath(u, parent) && At(u, parent) == h;
    assert j != m;
    assert ValidPath(u, image) && At(u, image) == At(t, image) by {
      assert h.children[m] == cs[m];
      assert image == parent + [m];
      AtConcat(u, parent, [m]);
    }
    assert FirstChildTagged(h.children, Prodnote, 0) == Some(j) by {
      FirstChildTaggedIs(h.children, Prodnote, 0, j);
    }
    BakedAt(u, location, body, image, j);
  }

  /** After the group's own prodnote is rewritten: it is still the group's first prodnote. */
  lemma BakedAfterRewrite(t: Node, r: DynamicImage)
    requires Rooted(t) && !BreaksXPath(LocationOf(r)) && BestDescription(r).Some?
    requires Coherent(t, LocationOf(r)) && Count(t, ImgWithSrc(LocationOf(r))) <= 1
    requires var group := At(t, Parent(ImageOf(t, LocationOf(r))));
             && IsElement(group, ImgGroup)
             && FirstChildTagged(group.children, Prodnote, 0).Some?
             && Attr(group.children[FirstChildTagged(group.children, Prodnote, 0).value], "id")
                == Some(CreateProdnoteId(ImageId(At(t, ImageOf(t, LocationOf(r))))))
    ensures Step(t, r).Updated? && Baked(Step(t, r).tree, LocationOf(r), BestDescription(r).value.body)
  {
    var image := ImageOf(t, LocationOf(r));
    var j := FirstChildTagged(At(t, Parent(image)).children, Prodnote, 0).value;
    StepRewritesOwnProdnote(t, r);
    StepAddsNoMatches(t, r, ImgWithSrc(LocationOf(r)));
    BakedAfterFill(t, image, j, LocationOf(r), BestDescription(r).value.body);
  }

  /**
   * When at most one img has the record's location, a processed record leaves its
   * image baked, and still the only img with that location.
   */
  lemma StepBakes(t: Node, r: DynamicImage)
    requires Rooted(t) && Count(t, ImgWithSrc(LocationOf(r))) <= 1 && Step(t, r).Updated?
    ensures BestDescription(r).Some?
    ensures Baked(Step(t, r).tree, LocationOf(r), BestDescription(r).value.body)
    ensures Count(Step(t, r).tree, ImgWithSrc(LocationOf(r))) == 1
  {
    var location := LocationOf(r);
    ImageFoundIffParentFound(t, location);
    FirstNoneIffNoMatch(t, ImgWithSrc(location));
    SingleImageIsCoherent(t, location);
    var image := ImageOf(t, location);
    var group := At(t, Parent(image));
    if !IsElement(group, ImgGroup) {
      BakedAfterNewGroup(t, r);
    } else if FirstChildTagged(group.children, Prodnote, 0).None? {
      BakedAfterNewProdnote(t, r);
    } else {
      BakedAfterRewrite(t, r);
    }
    StepAddsNoMatches(t, r, ImgWithSrc(location));
    FirstNoneIffNoMatch(Step(t, r).tree, ImgWithSrc(location));
  }

  /**
   * Idempotence of one record: when at most one img has its location, processing the
   * record again on the result gives back that same result.
   */
  lemma StepIdempotent(t: Node, r: DynamicImage)
    requires Rooted(t) && Count(t, ImgWithSrc(LocationOf(r))) <= 1 && Step(t, r).Updated?
    ensures Step(Step(t, r).tree, r) == Step(t, r)
  {
    StepBakes(t, r);
    BakedIsFixedPoint(Step(t, r).tree, r);
  }

  /** The same for a whole run of a book with one record: baking the baked document again changes nothing. */
  lemma OneRecordRunIdempotent(t: Node, r: DynamicImage)
    requires Rooted(t) && Count(t, ImgWithSrc(LocationOf(r))) <= 1 && Merge(t, [r]).Ok?
    ensures Merge(Merge(t, [r]).value, [r]) == Merge(t, [r])
  {
    assert [r][0] == r && [r][1..] == [];
    if Step(t, r).Updated? {
      StepIdempotent(t, r);
    }
  }
}
