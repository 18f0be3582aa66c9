/**
 * The merge on small concrete documents: the canonical red-ball book, where the
 * appended imggroup lands, two images sharing a location, and a prodnote written
 * by someone else.
 */
module BakingExamples {
  import opened Support
  import opened Dom
  import opened DynamicImages
  import opened DescriptionBaking
  import opened BakingProperties

  const BookUidMeta: Node := Element(Meta, map["name" := "dtb:uid", "content" := "ABC123"], [])
  const BallImage: Node := Element(Img, map["id" := "im1", "src" := "images/p1.jpg"], [])
  const BallRecord: DynamicImage :=
    DynamicImage(Some("ABC123"), Some("images/p1.jpg"), None, [DynamicDescription("A red ball.")])
  const BallNote: Node :=
    Element(Prodnote, map["id" := "pnid_im1", "imgref" := "im1", "render" := "optional", "showin" := "blp"],
            [Text("A red ball.")])

  /** Count and first match on an element without children. */
  lemma NoChildren(n: Node, q: Query)
    requires n.Element? && n.children == []
    ensures Count(n, q) == (if Matches(q, n) then 1 else 0)
    ensures First(n, q) == (if Matches(q, n) then Some([]) else None)
  {
  }

  /** Count and first match on an element with two children. */
  lemma TwoChildren(n: Node, q: Query)
    requires n.Element? && |n.children| == 2
    ensures Count(n, q) == (if Matches(q, n) then 1 else 0) + Count(n.children[0], q) + Count(n.children[1], q)
    ensures !Matches(q, n) ==>
              First(n, q) == (if First(n.children[0], q).Some? then Some([0] + First(n.children[0], q).value)
                              else if First(n.children[1], q).Some? then Some([1] + First(n.children[1], q).value)
                              else None)
  {
    var cs := n.children;
    assert cs[..1] == [cs[0]] && [cs[0]][..0] == [];
    assert CountAll(cs, q) == CountAll([cs[0]], q) + Count(cs[1], q);
    assert CountAll([cs[0]], q) == CountAll([], q) + Count(cs[0], q);
    assert FirstAmong(cs, q, 2) == None;
    assert FirstAmong(cs, q, 1) == (if First(cs[1], q).Some? then Some([1] + First(cs[1], q).value) else None);
  }

  /** A book whose second child holds no uid meta element is the book "ABC123". */
  lemma BookAbc(x: Node)
    requires Count(x, UidMeta) == 0
    ensures BookUid(Document(Some(Element(Dtbook, map[], [BookUidMeta, x])), true)) == Ok("ABC123")
  {
    var root := Element(Dtbook, map[], [BookUidMeta, x]);
    NoChildren(BookUidMeta, UidMeta);
    TwoChildren(root, UidMeta);
    assert Dtbook[0] != Meta[0];
    assert !Matches(UidMeta, root);
    assert Matches(UidMeta, BookUidMeta);
    assert First(BookUidMeta, UidMeta) == Some([]);
    assert [0] + [] == [0];
    assert First(root, UidMeta) == Some([0]);
  }

  /** A single record of the book whose step updates the tree. */
  lemma OneRecordBook(x: Node, r: DynamicImage, u: Node)
    requires Count(x, UidMeta) == 0 && r.uid == Some("ABC123")
    requires Step(Element(Dtbook, map[], [BookUidMeta, x]), r) == Updated(u)
    ensures UpdatedContents(Document(Some(Element(Dtbook, map[], [BookUidMeta, x])), true), [r])
            == Ok(Document(Some(u), true))
  {
    var d := Document(Some(Element(Dtbook, map[], [BookUidMeta, x])), true);
    BookAbc(x);
    assert Where([r], "ABC123") == [r] by {
      assert [r][1..] == [];
    }
    assert Merge(d.root.value, [r]) == Ok(u) by {
      assert [r][0] == r && [r][1..] == [];
    }
  }

  /** The red-ball location forms a valid XPath literal. */
  lemma BallLocationIsPlain()
    ensures LocationOf(BallRecord) == "images/p1.jpg" && !BreaksXPath("images/p1.jpg")
  {
  }

  /** The prodnote a step writes for the red ball. */
  lemma BallNoteIsNew()
    ensures NewProdnote("A red ball.", "im1") == BallNote
  {
    assert CreateProdnoteId("im1") == "pnid_im1";
  }

  const BallBook: Node := Element(Dtbook, map[], [BookUidMeta, BallImage])

  /** Both queries for the red-ball location find the image, the root's second child. */
  lemma BallBookQueries()
    ensures First(BallBook, ImgWithSrc("images/p1.jpg")) == Some([1])
    ensures Coherent(BallBook, "images/p1.jpg") && ImageOf(BallBook, "images/p1.jpg") == [1]
  {
    var root := BallBook;
    var location := "images/p1.jpg";
    NoChildren(BookUidMeta, ImgWithSrc(location));
    NoChildren(BallImage, ImgWithSrc(location));
    TwoChildren(root, ImgWithSrc(location));
    assert ImgHasSrc(root.children[1], location);
    assert !Matches(ImgWithSrc(location), root) && !Matches(ImgWithSrc(location), BookUidMeta) by {
      assert Dtbook[0] != Img[0] && Meta[0] != Img[0];
    }
    assert [1] + [] == [1];
    assert First(root, ImgWithSrc(location)) == Some([1]);
    assert First(root, ParentOfImgWithSrc(location)) == Some([]);
  }

  /** Wrapping the red ball gives the book with the meta and then the new group. */
  lemma BallBookRegrouped()
    ensures RegroupedAtEnd(BallBook, [1], BallNote)
            == Element(Dtbook, map[], [BookUidMeta, Element(ImgGroup, map[], [BallImage, BallNote])])
  {
    assert BallBook.children[..1] + BallBook.children[2..] == [BookUidMeta];
  }

  /** The red-ball image's step: a new imggroup holding the image and its prodnote. */
  lemma RedBallStep()
    ensures Step(Element(Dtbook, map[], [BookUidMeta, BallImage]), BallRecord)
            == Updated(Element(Dtbook, map[], [BookUidMeta, Element(ImgGroup, map[], [BallImage, BallNote])]))
  {
    BallLocationIsPlain();
    BallBookQueries();
    assert At(BallBook, Parent([1])) == BallBook;
    StepWrapsImageInNewGroup(BallBook, BallRecord);
    assert ImageId(At(BallBook, [1])) == "im1";
    BallNoteIsNew();
    BallBookRegrouped();
  }

  /**
   * A book whose only image has a description: the image ends up in an imggroup
   * followed by the prodnote, whose id is derived from the image id.
   */
  lemma RedBallBook()
    ensures UpdatedContents(Document(Some(Element(Dtbook, map[], [BookUidMeta, BallImage])), true), [BallRecord])
            == Ok(Document(Some(Element(Dtbook, map[], [BookUidMeta, Element(ImgGroup, map[], [BallImage, BallNote])])), true))
  {
    NoChildren(BallImage, UidMeta);
    RedBallStep();
    OneRecordBook(BallImage, BallRecord, Element(Dtbook, map[], [BookUidMeta, Element(ImgGroup, map[], [BallImage, BallNote])]));
  }

  function Picture(id: string): Node { Element(Img, map["id" := id, "src" := "p.jpg"], []) }

  const PictureRecord: DynamicImage :=
    DynamicImage(Some("B1"), Some("p.jpg"), None, [DynamicDescription("A picture.")])

  function BakedPicture(id: string): Node {
    Element(ImgGroup, map[], [Picture(id), NewProdnote("A picture.", id)])
  }

  /** The first picture of a document element, when it is its first child. */
  lemma PictureFirst(t: Node, id: string)
    requires Rooted(t) && |t.children| == 2 && t.children[0] == Picture(id)
    ensures Coherent(t, "p.jpg") && ImageOf(t, "p.jpg") == [0]
  {
    NoChildren(Picture(id), ImgWithSrc("p.jpg"));
    TwoChildren(t, ImgWithSrc("p.jpg"));
    assert ImgHasSrc(t.children[0], "p.jpg");
    assert First(t, ParentOfImgWithSrc("p.jpg")) == Some([]);
  }

  /**
   * The new imggroup is appended: an image followed by a paragraph ends up after
   * the paragraph, not where it stood.
   */
  lemma GroupGoesAfterLaterSiblings()
    ensures var paragraph := Element("p", map[], [Text("After the picture.")]);
            Step(Element(Dtbook, map[], [Picture("a"), paragraph]), PictureRecord)
            == Updated(Element(Dtbook, map[], [paragraph, BakedPicture("a")]))
  {
    var paragraph := Element("p", map[], [Text("After the picture.")]);
    var t := Element(Dtbook, map[], [Picture("a"), paragraph]);
    assert LocationOf(PictureRecord) == "p.jpg" && !BreaksXPath("p.jpg");
    PictureFirst(t, "a");
    StepWrapsImageInNewGroup(t, PictureRecord);
    assert t.children[..0] + t.children[1..] == [paragraph];
  }

  /** The first run wraps the first of two images that share a location. */
  lemma SharedLocationFirstRun()
    ensures Step(Element(Dtbook, map[], [Picture("a"), Picture("b")]), PictureRecord)
            == Updated(Element(Dtbook, map[], [Picture("b"), BakedPicture("a")]))
  {
    var t0 := Element(Dtbook, map[], [Picture("a"), Picture("b")]);
    assert LocationOf(PictureRecord) == "p.jpg" && !BreaksXPath("p.jpg");
    PictureFirst(t0, "a");
    StepWrapsImageInNewGroup(t0, PictureRecord);
    assert t0.children[..0] + t0.children[1..] == [Picture("b")];
  }

  /** The second run finds the other image first and wraps it too. */
  lemma SharedLocationSecondRun()
    ensures Step(Element(Dtbook, map[], [Picture("b"), BakedPicture("a")]), PictureRecord)
            == Updated(Element(Dtbook, map[], [BakedPicture("a"), BakedPicture("b")]))
  {
    var t1 := Element(Dtbook, map[], [Picture("b"), BakedPicture("a")]);
    assert LocationOf(PictureRecord) == "p.jpg" && !BreaksXPath("p.jpg");
    PictureFirst(t1, "b");
    StepWrapsImageInNewGroup(t1, PictureRecord);
    assert t1.children[..0] + t1.children[1..] == [BakedPicture("a")];
  }

  /**
   * Two images with the same location: each run wraps the first one in document
   * order, which after the first run is the other image, so a second run with the
   * same record changes the document again.
   */
  lemma SharedLocationIsRebakedElsewhere()
    ensures Step(Element(Dtbook, map[], [Picture("a"), Picture("b")]), PictureRecord).Updated?
    ensures var t1 := Step(Element(Dtbook, map[], [Picture("a"), Picture("b")]), PictureRecord).tree;
            Step(t1, PictureRecord).Updated? && Step(t1, PictureRecord).tree != t1
  {
    var t0 := Element(Dtbook, map[], [Picture("a"), Picture("b")]);
    var t1 := Element(Dtbook, map[], [Picture("b"), BakedPicture("a")]);
    var t2 := Element(Dtbook, map[], [BakedPicture("a"), BakedPicture("b")]);
    assert Step(t0, PictureRecord) == Updated(t1) by { SharedLocationFirstRun(); }
    assert Step(t1, PictureRecord) == Updated(t2) by { SharedLocationSecondRun(); }
    assert t2 != t1 by {
      assert t2.children[0] != t1.children[0] by { assert |Picture("b").tag| != |BakedPicture("a").tag|; }
    }
  }

  const TheirNote: Node := Element(Prodnote, map["id" := "theirs"], [Text("Another description.")])
  const TheirGroup: Node := Element(ImgGroup, map[], [Picture("a"), TheirNote])
  const TheirBook: Node := Element(Dtbook, map[], [BookUidMeta, TheirGroup])

  /** The book holding someone else's prodnote is the book "ABC123". */
  lemma TheirBookUid()
    ensures BookUid(Document(Some(TheirBook), true)) == Ok("ABC123")
  {
    NoChildren(Picture("a"), UidMeta);
    TextProdnoteMatchesNothing(TheirNote, "Another description.", UidMeta);
    TwoChildren(TheirGroup, UidMeta);
    BookAbc(TheirGroup);
  }

  /** Both queries for "p.jpg" find the picture inside the group. */
  lemma TheirBookQueries()
    ensures First(TheirBook, ImgWithSrc("p.jpg")) == Some([1, 0])
    ensures First(TheirBook, ParentOfImgWithSrc("p.jpg")) == Some([1])
  {
    var group := TheirGroup;
    var root := TheirBook;
    NoChildren(BookUidMeta, ParentOfImgWithSrc("p.jpg"));
    assert ImgHasSrc(group.children[0], "p.jpg");
    assert First(group, ParentOfImgWithSrc("p.jpg")) == Some([]);
    TwoChildren(root, ParentOfImgWithSrc("p.jpg"));
    NoChildren(BookUidMeta, ImgWithSrc("p.jpg"));
    NoChildren(Picture("a"), ImgWithSrc("p.jpg"));
    TextProdnoteMatchesNothing(TheirNote, "Another description.", ImgWithSrc("p.jpg"));
    TwoChildren(group, ImgWithSrc("p.jpg"));
    TwoChildren(root, ImgWithSrc("p.jpg"));
    assert Matches(ImgWithSrc("p.jpg"), Picture("a")) && !Matches(ImgWithSrc("p.jpg"), BookUidMeta);
    assert |ImgGroup| != |Img| && Dtbook[0] != Img[0];
    assert !Matches(ImgWithSrc("p.jpg"), group) && !Matches(ImgWithSrc("p.jpg"), root);
    assert [0] + [] == [0] && [1] + [0] == [1, 0] && [1] + [] == [1];
    assert First(group, ImgWithSrc("p.jpg")) == Some([0]);
  }

  /** The group's first prodnote carries an id other than `pnid_a`. */
  lemma TheirBookIsForeign()
    ensures ForeignProdnote(TheirBook, "p.jpg")
  {
    TheirBookQueries();
    assert At(TheirBook, [1]) == TheirGroup;
    assert At(TheirBook, [1, 0]) == Picture("a");
    assert FirstChildTagged(TheirGroup.children, Prodnote, 0) == Some(1);
    assert "theirs" != CreateProdnoteId("a");
  }

  /** A group whose prodnote was written by someone else stops the run with its alert. */
  lemma ForeignProdnoteStopsRun()
    ensures var note := Element(Prodnote, map["id" := "theirs"], [Text("Another description.")]);
            var root := Element(Dtbook, map[], [BookUidMeta, Element(ImgGroup, map[], [Picture("a"), note])]);
            var record := PictureRecord.(uid := Some("ABC123"));
            XmlContentsWithUpdatedDescriptions(Document(Some(root), true), [record]) == Err(ForeignDescriptionsAlert)
  {
    var record := PictureRecord.(uid := Some("ABC123"));
    assert LocationOf(record) == "p.jpg" && !BreaksXPath("p.jpg");
    TheirBookUid();
    assert Where([record], "ABC123") == [record];
    TheirBookIsForeign();
    OwnershipGuard(TheirBook, record);
    assert [record][0] == record;
  }

  /**
   * A location holding a vertical tab, which is no XML character, leaves the
   * XPath literal unfinished: the whole call fails with the invalid-file alert.
   */
  lemma ControlCharacterStopsRun()
    ensures var record := BallRecord.(imageLocation := Some("a\U{0B}b.png"));
            XmlContentsWithUpdatedDescriptions(Document(Some(Element(Dtbook, map[], [BookUidMeta, BallImage])), true), [record])
            == Err(InvalidContentFileAlert)
  {
    var record := BallRecord.(imageLocation := Some("a\U{0B}b.png"));
    var root := Element(Dtbook, map[], [BookUidMeta, BallImage]);
    NoChildren(BallImage, UidMeta);
    BookAbc(BallImage);
    assert Where([record], "ABC123") == [record] by { assert [record][1..] == []; }
    assert BreaksXPath(LocationOf(record)) by {
      assert "a\U{0B}b.png"[1] == '\U{0B}' && !IsXmlChar('\U{0B}');
    }
    assert Merge(root, [record]) == Err(XPathSyntaxError) by { assert [record][0] == record; }
  }
}
