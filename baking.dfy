/**
 * Baking the stored descriptions into a DTBook content document
 * (`get_contents_with_updated_descriptions`): the document is checked to be a
 * DTBook with exactly one `dtb:uid` meta element, then every description record
 * of that book is merged into it, one record at a time, in store order.
 */
module DescriptionBaking {
  import opened Support
  import opened Dom
  import opened DynamicImages

  /**
   * A parsed content document. The `xmlns:`-prefixed queries resolve the prefix
   * against the default namespace declared on the root element; that declaration is
   * all the model keeps of namespaces, and when it is present every element of the
   * tree is taken to be in that namespace.
   */
  datatype Document = Document(root: Option<Node>, declaresDefaultNamespace: bool)

  /** What the merge can raise, in the order the caller rescues it. */
  datatype Failure =
    | UnrecognizedProdnote   // UnrecognizedProdnoteException
    | NonDaisyXml            // NonDaisyXMLException
    | MissingBookUid         // MissingBookUIDException
    | XPathSyntaxError       // Nokogiri::XML::XPath::SyntaxError
    | UnexpectedError        // any other exception

  /** Why a record left the document alone (`next`). */
  datatype SkipReason = NoDescription | NoImgElement

  datatype StepOutcome = Skipped(reason: SkipReason) | Updated(tree: Node) | Aborted(failure: Failure)

  /** The tree is a DTBook document element. */
  predicate Rooted(t: Node) { IsElement(t, Dtbook) }

  // ---------------------------------------------------------------------------
  // Identifiers
  // ---------------------------------------------------------------------------

  const ProdnoteIdPrefix: string := "pnid_"

  /** The image id a prodnote id was made from, if it was made by `CreateProdnoteId`. */
  function ImageIdOfProdnoteId(id: string): Option<string> {
    if |id| >= |ProdnoteIdPrefix| && id[..|ProdnoteIdPrefix|] == ProdnoteIdPrefix
    then Some(id[|ProdnoteIdPrefix|..]) else None
  }

  /** `create_prodnote_id`: the id a baked prodnote carries, from which the image id can be read back. */
  function CreateProdnoteId(imageId: string): (id: string)
    ensures ImageIdOfProdnoteId(id) == Some(imageId)
    ensures |id| == |ProdnoteIdPrefix| + |imageId|
  {
    assert (ProdnoteIdPrefix + imageId)[..|ProdnoteIdPrefix|] == ProdnoteIdPrefix;
    assert (ProdnoteIdPrefix + imageId)[|ProdnoteIdPrefix|..] == imageId;
    ProdnoteIdPrefix + imageId
  }

  /** `image['id']`, where a missing id (nil) becomes "" once interpolated or assigned. */
  function ImageId(img: Node): (id: string)
    ensures Attr(img, "id") == Some(id) || (Attr(img, "id").None? && id == "")
  {
    Attr(img, "id").GetOr("")
  }

  /** `dynamic_image.image_location` as interpolated into the query: nil becomes "". */
  function LocationOf(r: DynamicImage): (location: string)
    ensures r.imageLocation == Some(location) || (r.imageLocation.None? && location == "")
  {
    r.imageLocation.GetOr("")
  }

  /** Production `Char` of XML 1.0; the model takes any other character to end an XPath literal unfinished. */
  predicate IsXmlChar(c: char) {
    c == '\t' || c == '\n' || c == '\r' || (' ' <= c <= '\U{D7FF}') || ('\U{E000}' <= c <= '\U{FFFD}') || '\U{10000}' <= c
  }

  /**
   * The location is spliced between single quotes. A quote inside it ends the
   * literal early, and a character that is not an XML `Char` leaves the literal
   * unfinished.
   */
  predicate BreaksXPath(location: string) {
    exists c :: c in location && (c == '\'' || !IsXmlChar(c))
  }

  // ---------------------------------------------------------------------------
  // Validation (lines 218-229)
  // ---------------------------------------------------------------------------

  /** The book uid: the `content` of the one `dtb:uid` meta element of a DTBook document. */
  function BookUid(d: Document): (r: Result<string, Failure>)
    ensures r.Ok? ==> d.root.Some? && d.declaresDefaultNamespace && Rooted(d.root.value)
    ensures r.Ok? ==> Count(d.root.value, UidMeta) == 1
    ensures r.Ok? ==> First(d.root.value, UidMeta).Some?
    ensures r.Ok? ==> Attr(At(d.root.value, First(d.root.value, UidMeta).value), "content") == Some(r.value)
  {
    if d.root.None? || !d.declaresDefaultNamespace then Err(XPathSyntaxError)
    else if !Rooted(d.root.value) then Err(NonDaisyXml)
    else if Count(d.root.value, UidMeta) != 1 then Err(MissingBookUid)
    else
      FirstNoneIffNoMatch(d.root.value, UidMeta);
      match Attr(At(d.root.value, First(d.root.value, UidMeta).value), "content")
      case None => Err(UnexpectedError)   // nil.content
      case Some(uid) => Ok(uid)
  }

  // ---------------------------------------------------------------------------
  // One record (lines 233-272)
  // ---------------------------------------------------------------------------

  /** The children `node.content = body` leaves: one text node, or none for an empty body. */
  function TextContent(body: string): seq<Node> {
    if body == "" then [] else [Text(body)]
  }

  /** The prodnote content and attributes a baked description has. */
  predicate Described(note: Node, body: string, imageId: string) {
    && IsElement(note, Prodnote)
    && note.children == TextContent(body)
    && Attr(note, "render") == Some("optional")
    && Attr(note, "imgref") == Some(imageId)
    && Attr(note, "id") == Some(CreateProdnoteId(imageId))
    && Attr(note, "showin") == Some("blp")
  }

  /** Lines 268-272: the text and the four attributes written into the prodnote. */
  function Fill(note: Node, body: string, imageId: string): (r: Node)
    requires IsElement(note, Prodnote)
    ensures Described(r, body, imageId)
    ensures forall a :: a !in ["render", "imgref", "id", "showin"] ==> Attr(r, a) == Attr(note, a)
  {
    note.(children := TextContent(body),
          attrs := note.attrs["render" := "optional"]["imgref" := imageId]
                             ["id" := CreateProdnoteId(imageId)]["showin" := "blp"])
  }

  datatype Grouped = Grouped(tree: Node, group: Path, image: Path)

  /** The tree once an imggroup has been appended to the element at `parent`. */
  function WithNewGroup(t: Node, parent: Path): Node
    requires ValidPath(t, parent) && At(t, parent).Element?
  {
    AppendChild(t, parent, NewElement(ImgGroup))
  }

  /** The new group's position once the image has left; one earlier when the image was its sibling. */
  function GroupPath(parent: Path, image: Path, k: nat): Path
    requires |image| > 0 && k > 0
  {
    if Parent(image) == parent then parent + [k - 1] else parent + [k]
  }

  /** Appending the group below a strict ancestor of the image keeps the image where it was. */
  lemma AppendKeepsImage(t: Node, parent: Path, image: Path)
    requires ValidPath(t, image) && IsStrictPrefix(parent, image)
    ensures ValidPath(t, parent) && At(t, parent).Element? && |At(t, parent).children| > 0
    ensures ValidPath(WithNewGroup(t, parent), image)
    ensures At(WithNewGroup(t, parent), image) == At(t, image)
    ensures ValidPath(WithNewGroup(t, parent), Parent(image))
    ensures At(WithNewGroup(t, parent), Parent(image)).Element?
    ensures Last(image) < |At(WithNewGroup(t, parent), Parent(image)).children|
  {
    var rest := image[|parent|..];
    assert image == parent + rest;
    PrefixValid(t, image, |parent|);
    AtConcat(t, parent, rest);
    var holder := At(t, parent);
    var cs := holder.children;
    var i := rest[0];
    var t1 := WithNewGroup(t, parent);
    var holder1 := At(t1, parent);
    assert holder1.children == cs + [NewElement(ImgGroup)];
    assert holder1.children[i] == cs[i];
    assert ValidPath(holder1, rest) && At(holder1, rest) == At(holder, rest);
    AtConcat(t1, parent, rest);
    ParentHolds(t1, image);
  }

  /** An image that was the parent's own child leaves; the group moves down to index `k - 1`. */
  lemma GroupAfterSiblingLeaves(t1: Node, parent: Path, cs: seq<Node>, i: nat)
    requires ValidPath(t1, parent) && At(t1, parent).Element? && i < |cs|
    requires At(t1, parent).children == cs + [NewElement(ImgGroup)]
    ensures var t2 := RemoveChild(t1, parent, i);
            ValidPath(t2, parent + [|cs| - 1]) && At(t2, parent + [|cs| - 1]) == NewElement(ImgGroup)
  {
    var t2 := RemoveChild(t1, parent, i);
    var cs2 := At(t2, parent).children;
    assert cs2 == (cs + [NewElement(ImgGroup)])[..i] + (cs + [NewElement(ImgGroup)])[i + 1..];
    assert cs2[|cs| - 1] == NewElement(ImgGroup);
    AtConcat(t2, parent, [|cs| - 1]);
  }

  /** An image deeper below the parent leaves; the group at index `k` is not touched. */
  lemma GroupAfterDeeperLeaves(t1: Node, parent: Path, image: Path, k: nat)
    requires IsStrictPrefix(parent, image) && Parent(image) != parent && image[|parent|] < k
    requires ValidPath(t1, parent) && At(t1, parent).Element? && |At(t1, parent).children| == k + 1
    requires At(t1, parent).children[k] == NewElement(ImgGroup)
    requires ValidPath(t1, Parent(image)) && At(t1, Parent(image)).Element?
    requires Last(image) < |At(t1, Parent(image)).children|
    ensures var t2 := RemoveChild(t1, Parent(image), Last(image));
            ValidPath(t2, parent + [k]) && At(t2, parent + [k]) == NewElement(ImgGroup)
  {
    var a := Parent(image);
    var g := parent + [k];
    assert |a| > |parent| && a[|parent|] == image[|parent|];
    assert g[|parent|] == k;
    assert !IsPrefix(g, a);
    assert !IsPrefix(a, g) by {
      if |a| <= |g| {
        assert |a| == |g|;
      }
    }
    AtConcat(t1, parent, [k]);
    RemoveChildBeside(t1, a, Last(image), g);
  }

  /** Once the image has left, the new group sits at `GroupPath`. */
  lemma GroupAfterRemoval(t: Node, parent: Path, image: Path)
    requires ValidPath(t, image) && IsStrictPrefix(parent, image)
    requires ValidPath(t, parent) && At(t, parent).Element? && |At(t, parent).children| > 0
    requires ValidPath(WithNewGroup(t, parent), Parent(image))
    requires At(WithNewGroup(t, parent), Parent(image)).Element?
    requires Last(image) < |At(WithNewGroup(t, parent), Parent(image)).children|
    ensures var t2 := RemoveChild(WithNewGroup(t, parent), Parent(image), Last(image));
            var g := GroupPath(parent, image, |At(t, parent).children|);
            ValidPath(t2, g) && At(t2, g) == NewElement(ImgGroup)
  {
    var cs := At(t, parent).children;
    var i := image[|parent|];
    assert i < |cs| by {
      var rest := image[|parent|..];
      assert image == parent + rest && rest[0] == i;
      AtConcat(t, parent, rest);
    }
    var t1 := WithNewGroup(t, parent);
    assert At(t1, parent).children == cs + [NewElement(ImgGroup)];
    if Parent(image) == parent {
      assert Last(image) == i;
      GroupAfterSiblingLeaves(t1, parent, cs, i);
    } else {
      GroupAfterDeeperLeaves(t1, parent, image, |cs|);
    }
  }

  lemma NewGroupPlacement(t: Node, parent: Path, image: Path)
    requires ValidPath(t, image) && IsStrictPrefix(parent, image)
    ensures ValidPath(t, parent) && At(t, parent).Element? && |At(t, parent).children| > 0
    ensures ValidPath(WithNewGroup(t, parent), image)
    ensures At(WithNewGroup(t, parent), image) == At(t, image)
    ensures ValidPath(WithNewGroup(t, parent), Parent(image))
    ensures At(WithNewGroup(t, parent), Parent(image)).Element?
    ensures Last(image) < |At(WithNewGroup(t, parent), Parent(image)).children|
    ensures var t2 := RemoveChild(WithNewGroup(t, parent), Parent(image), Last(image));
            var g := GroupPath(parent, image, |At(t, parent).children|);
            ValidPath(t2, g) && At(t2, g) == NewElement(ImgGroup)
  {
    AppendKeepsImage(t, parent, image);
    GroupAfterRemoval(t, parent, image);
  }

  /**
   * Lines 248-256: unless the parent is an imggroup, a new imggroup becomes the
   * parent's last child and the image is moved into it; the result names the group
   * that then holds the prodnote and the image's new position.
   */
  function EnsureImageGroup(t: Node, parent: Path, image: Path): (g: Grouped)
    requires ValidPath(t, image) && IsStrictPrefix(parent, image)
    ensures ValidPath(g.tree, g.group) && IsElement(At(g.tree, g.group), ImgGroup)
    ensures ValidPath(g.tree, g.image) && |g.image| > 0 && At(g.tree, g.image) == At(t, image)
    ensures t.Element? ==> g.tree.Element? && g.tree.tag == t.tag
    ensures ValidPath(t, parent)
    ensures IsElement(At(t, parent), ImgGroup) ==> g == Grouped(t, parent, image)
    ensures !IsElement(At(t, parent), ImgGroup) ==>
              At(g.tree, g.group) == Element(ImgGroup, map[], [At(t, image)]) && g.image == g.group + [0]
  {
    NewGroupPlacement(t, parent, image);
    if IsElement(At(t, parent), ImgGroup) then Grouped(t, parent, image)
    else
      var t1 := WithNewGroup(t, parent);
      var t2 := RemoveChild(t1, Parent(image), Last(image));
      var group := GroupPath(parent, image, |At(t, parent).children|);
      var t3 := AppendChild(t2, group, At(t, image));
      AtConcat(t3, group, [0]);
      Grouped(t3, group, group + [0])
  }

  /**
   * Lines 258-272: the group's first prodnote child is overwritten when its id is the
   * one derived from the image id, the run is aborted when it is any other; with no
   * prodnote child a new one becomes the image's next sibling.
   */
  function AttachProdnote(t: Node, group: Path, image: Path, body: string, imageId: string): (o: StepOutcome)
    requires ValidPath(t, group) && At(t, group).Element? && ValidPath(t, image) && |image| > 0
    ensures !o.Skipped?
    ensures o.Aborted? ==> o.failure == UnrecognizedProdnote
    ensures o.Updated? && t.Element? ==> o.tree.Element? && o.tree.tag == t.tag
  {
    var cs := At(t, group).children;
    match FirstChildTagged(cs, Prodnote, 0)
    case None =>
      ParentHolds(t, image);
      Updated(InsertChild(t, Parent(image), Last(image) + 1, Fill(NewElement(Prodnote), body, imageId)))
    case Some(j) =>
      if Attr(cs[j], "id") != Some(CreateProdnoteId(imageId)) then Aborted(UnrecognizedProdnote)
      else
        AtConcat(t, group, [j]);
        Updated(Replace(t, group + [j], Fill(cs[j], body, imageId)))
  }

  /** The effect of one description record on the document element. */
  function Step(t: Node, r: DynamicImage): (o: StepOutcome)
    requires Rooted(t)
    ensures o.Updated? ==> Rooted(o.tree)
  {
    var location := LocationOf(r);
    if BreaksXPath(location) then Aborted(XPathSyntaxError)
    else match BestDescription(r)
    case None => Skipped(NoDescription)
    case Some(description) =>
      match First(t, ParentOfImgWithSrc(location))
      case None => Skipped(NoImgElement)
      case Some(parent) =>
        ParentQueryAboveImage(t, location);
        var image := First(t, ImgWithSrc(location)).value;
        var g := EnsureImageGroup(t, parent, image);
        AttachProdnote(g.tree, g.group, g.image, description.body, ImageId(At(t, image)))
  }

  // ---------------------------------------------------------------------------
  // The whole merge (lines 215-276)
  // ---------------------------------------------------------------------------

  /** The records applied one after another; the first failure ends the run. */
  function Merge(t: Node, rs: seq<DynamicImage>): (r: Result<Node, Failure>)
    requires Rooted(t)
    ensures r.Ok? ==> Rooted(r.value)
    ensures r.Err? ==> r.error in {UnrecognizedProdnote, XPathSyntaxError}
    decreases |rs|
  {
    if rs == [] then Ok(t)
    else match Step(t, rs[0])
      case Skipped(_) => Merge(t, rs[1..])
      case Updated(u) => Merge(u, rs[1..])
      case Aborted(f) => Err(f)
  }

  /** The specification of `get_contents_with_updated_descriptions`. */
  function UpdatedContents(d: Document, store: seq<DynamicImage>): (r: Result<Document, Failure>)
    ensures r.Ok? ==> BookUid(d).Ok? && r.value.root.Some? && Rooted(r.value.root.value)
    ensures r.Ok? ==> r.value.declaresDefaultNamespace == d.declaresDefaultNamespace
  {
    match BookUid(d)
    case Err(f) => Err(f)
    case Ok(uid) =>
      match Merge(d.root.value, Where(store, uid))
      case Err(f) => Err(f)
      case Ok(t) => Ok(Document(Some(t), d.declaresDefaultNamespace))
  }

  /** `get_contents_with_updated_descriptions`: validation, then the loop over the book's records. */
  method GetContentsWithUpdatedDescriptions(d: Document, store: seq<DynamicImage>)
    returns (r: Result<Document, Failure>)
    ensures r == UpdatedContents(d, store)
  {
    var bookUid := BookUid(d);
    if bookUid.Err? {
      return Err(bookUid.error);
    }
    var root := d.root.value;
    var matchingImages := Where(store, bookUid.value);
    var t := root;
    var i := 0;
    while i < |matchingImages|
      invariant 0 <= i <= |matchingImages|
      invariant Rooted(t)
      invariant Merge(root, matchingImages) == Merge(t, matchingImages[i..])
    {
      assert matchingImages[i..][0] == matchingImages[i];
      assert matchingImages[i..][1..] == matchingImages[i + 1..];
      match Step(t, matchingImages[i]) {
        case Skipped(_) =>
        case Updated(u) =>
          t := u;
        case Aborted(f) =>
          return Err(f);
      }
      i := i + 1;
    }
    assert matchingImages[i..] == [];
    return Ok(Document(Some(t), d.declaresDefaultNamespace));
  }

  // ---------------------------------------------------------------------------
  // What the user is told (lines 57-83)
  // ---------------------------------------------------------------------------

  const ForeignDescriptionsAlert: string :=
    "Unable to update descriptions because the uploaded book contained descriptions from other sources"
  const InvalidContentFileAlert: string := "Uploaded file must be a valid Daisy book XML content file"
  const MissingUidAlert: string := "Uploaded Daisy book XML content file must have a UID element"
  const UnexpectedErrorAlert: string := "An unexpected error has prevented processing that file"

  /** The alert raised as `ShowAlertAndGoBack` for each failure. */
  function AlertMessage(f: Failure): (m: string)
    ensures m == ForeignDescriptionsAlert <==> f == UnrecognizedProdnote
    ensures m == InvalidContentFileAlert <==> f == NonDaisyXml || f == XPathSyntaxError
    ensures m == MissingUidAlert <==> f == MissingBookUid
    ensures m == UnexpectedErrorAlert <==> f == UnexpectedError
  {
    assert |ForeignDescriptionsAlert| == 97 && |InvalidContentFileAlert| == 57;
    assert |MissingUidAlert| == 60 && |UnexpectedErrorAlert| == 54;
    match f
    case UnrecognizedProdnote => ForeignDescriptionsAlert
    case NonDaisyXml => InvalidContentFileAlert
    case MissingBookUid => MissingUidAlert
    case XPathSyntaxError => InvalidContentFileAlert
    case UnexpectedError => UnexpectedErrorAlert
  }

  /** `get_xml_contents_with_updated_descriptions` on an already read file: the document or an alert. */
  function XmlContentsWithUpdatedDescriptions(d: Document, store: seq<DynamicImage>): (r: Result<Document, string>)
    ensures r.Ok? <==> UpdatedContents(d, store).Ok?
    ensures r.Ok? ==> r.value == UpdatedContents(d, store).value
    ensures r.Err? ==> r.error == AlertMessage(UpdatedContents(d, store).error)
  {
    match UpdatedContents(d, store)
    case Ok(doc) => Ok(doc)
    case Err(f) => Err(AlertMessage(f))
  }
}
