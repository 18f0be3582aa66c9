# Description baking for DAISY books, in Dafny

This project models the part of ImageDescService that "bakes" stored image
descriptions into an uploaded DAISY book. It also proves what that code promises.

- **Content document.** The document is checked to be a DTBook carrying exactly
  one `dtb:uid` meta element, whose `content` is the book uid. Then every
  description record stored for that uid is merged into the document, in store
  order. A merged image sits in an `imggroup` next to a `prodnote`. The prodnote
  carries the image's newest description, `render="optional"`, `showin="blp"`,
  `imgref` set to the image id, and the id `pnid_<image id>`. A prodnote with any
  other id belongs to someone else and stops the whole run.
- **Alerts.** Each failure is mapped to the alert the user sees.
- **Archive side.** This covers which uploads count as DAISY zips and which
  directory and which `*.xml` file are used after extraction. It also covers the
  content file's path inside the archive and the rewritten archive, in which
  exactly that member is replaced.
- **Description record.** The record's newest description and its field
  validations.

Files (modules):

- `support.dfy` (`Support`): `Option` and `Result`.
- `dom.dfy` (`Dom`): the parsed document tree.
  - Elements have a tag, an attribute map and children; a position is a path of
    child indices.
  - Edits: replace, append a child, insert a child, remove a child.
  - The three queries, as first match in document order (`at_xpath`) and number
    of matches (`xpath(...).size`).
- `dynamic_image.dfy` (`DynamicImages`): the `DynamicImage` record,
  `best_description`, the `uid = ?` lookup and the validations.
- `baking.dfy` (`DescriptionBaking`): validation, one record's step, the merge as
  a function and as the loop the source runs, and the mapping from failures to
  alerts.
- `baking_properties.dfy` (`BakingProperties`): the guarantees.
  - Which failures occur, and in which order.
  - Skip versus abort.
  - Where the group and the prodnote end up.
  - The ownership guard.
  - Idempotence of a record.
- `baking_examples.dfy` (`BakingExamples`): the merge worked out on small
  concrete documents.
- `archive.dfy` (`DaisyArchive`): `valid_daisy_zip?`, the book directory, the
  content file name, the relative member path and `create_zip`.

Behaviours of the code that are easy to miss, each modelled as the code has it:

- **Where the new `imggroup` goes.** The group is attached with
  `image_group.parent = parent`, which appends it as the parent's last child. The
  image then moves into it, so a wrapped image ends up after all of its former
  later siblings. It does not stay where it stood (`GroupGoesAfterLaterSiblings`).
- **Unparseable documents.** The queries use the `xmlns:` prefix. A document whose
  root declares no default namespace, or that has no root element, makes the very
  first query raise `Nokogiri::XML::XPath::SyntaxError`, not `NonDaisyXMLException`.
  The user is shown the same alert either way.
- **Locations containing `'` or control characters.** The image location is
  spliced between single quotes into the XPath queries, so a `'` in it ends the
  quoted literal early. libxml2 also stops the literal at a control character
  other than tab, line feed and carriage return, such as a vertical tab, and then
  reports an unfinished literal. The model treats every location holding either kind of character as
  making those queries raise an XPath syntax error, which ends the run
  (`XPathErrorIffBadLiteral`, `ControlCharacterStopsRun`). This happens before
  the "no description" skip is tested, because the queries run first.
- **Two images with the same location.** The image and its parent are looked up
  by two separate queries. When several images share a location the two can
  disagree. Even when they agree, each run wraps the first such image in document
  order. After the append this can be a different image each time, so re-running
  the merge is proved idempotent only where the location is unique
  (`SharedLocationIsRebakedElsewhere`, `StepIdempotent`).
- **A uid meta without `content`.** `node.attributes['content']` is nil, and
  `.content` on it raises `NoMethodError`. The caller reports that as an
  unexpected error.

## Model

| member | source | states |
|---|---|---|
| DescriptionBaking.BookUid | app/controllers/daisy_book_controller.rb:218-229 | an accepted document has a dtbook root and exactly one uid meta element, and the uid is that element's `content` |
| BakingProperties.ValidationFailures | app/controllers/daisy_book_controller.rb:218-227 | an unparseable document fails with an XPath syntax error; NonDaisyXML exactly when the root is not dtbook; MissingBookUID exactly when a dtbook has a number of uid metas other than one |
| BakingProperties.BookUidIsTheUidMeta | app/controllers/daisy_book_controller.rb:223-229 | once validated, every uid meta element is the one the uid was read from, and its `content` is the uid |
| BakingProperties.UidWithoutContent | app/controllers/daisy_book_controller.rb:228-229 | a single uid meta without a `content` attribute ends in the unexpected-error failure |
| DynamicImages.Where | app/controllers/daisy_book_controller.rb:231 | the book's records are exactly the store's records with that uid |
| DynamicImages.WhereKeepsOrder | app/controllers/daisy_book_controller.rb:231 | the lookup keeps the store's order (it distributes over concatenation) |
| BakingProperties.OtherBooksIgnored | app/controllers/daisy_book_controller.rb:231-232 | a record of another book, anywhere in the store, has no effect on the result |
| DescriptionBaking.GetContentsWithUpdatedDescriptions | app/controllers/daisy_book_controller.rb:215-276 | the validation and the loop over the book's records compute the merge specification, with its first failure or its final tree |
| DescriptionBaking.UpdatedContents | app/controllers/daisy_book_controller.rb:215-276 | a successful bake comes from a validated document and returns a DTBook tree, keeping the namespace declaration |
| DescriptionBaking.Merge | app/controllers/daisy_book_controller.rb:232-273 | the records applied in order keep a dtbook root; the only failures raised in the loop are a foreign prodnote and an XPath syntax error |
| DescriptionBaking.Step | app/controllers/daisy_book_controller.rb:233-272 | one record's step keeps the tree a DTBook tree |
| BakingProperties.SkipWithoutDescription | app/controllers/daisy_book_controller.rb:237-241 | a record without descriptions is skipped as "no description", even when its image is missing |
| BakingProperties.SkipWithoutImage | app/controllers/daisy_book_controller.rb:243-246 | a record is skipped as "no img" exactly when it has a description and no img has its location |
| BakingProperties.SkippedRecordChangesNothing | app/controllers/daisy_book_controller.rb:237-246 | a skipped record leaves the tree as it was, and the run goes on |
| BakingProperties.AbortEndsRun | app/controllers/daisy_book_controller.rb:264-265 | an aborted record ends the whole run with its failure, whatever records follow |
| Dom.First | app/controllers/daisy_book_controller.rb:234-235 | the first match is a valid position holding a match; it is the root exactly when the root matches |
| Dom.FirstAmongIsLeftmost | app/controllers/daisy_book_controller.rb:234-235 | the first match lies in the first child that holds one, and no earlier child holds a match (document order) |
| Dom.FirstNoneIffNoMatch | app/controllers/daisy_book_controller.rb:219-225 | `at_xpath` finds nothing exactly when `xpath(...).size` is 0 |
| Dom.FoundSomewhere | app/controllers/daisy_book_controller.rb:219-225 | a matching element anywhere in the tree makes the count at least 1 and the first match exist |
| Dom.CountTwo | app/controllers/daisy_book_controller.rb:219-225 | two different matching positions make the count at least 2, so `size != 1` |
| Dom.MatchUnique | app/controllers/daisy_book_controller.rb:223-228 | with a count of at most one, any two matching positions are the same element |
| Dom.ImageFoundIffParentFound | app/controllers/daisy_book_controller.rb:234-235 | below a root that is not itself such an img, the parent query finds something exactly when the image query does |
| Dom.ParentQueryIsImageParent | app/controllers/daisy_book_controller.rb:234-235 | with at most one matching img, the parent query returns the parent of the img the image query finds |
| BakingProperties.SingleImageIsCoherent | app/controllers/daisy_book_controller.rb:234-235 | with one img of the location, the image found and the parent found are child and parent |
| BakingProperties.ImageOf | app/controllers/daisy_book_controller.rb:234 | the image found is a valid, non-root position holding an img with the location |
| DescriptionBaking.LocationOf | app/controllers/daisy_book_controller.rb:233-235 | the location spliced into the queries is the record's `image_location`, and a nil one reads as the empty string |
| BakingProperties.XPathErrorIffBadLiteral | app/controllers/daisy_book_controller.rb:234-235 | a record raises the XPath syntax error exactly when its location contains `'` or a character outside XML's `Char` production (the `BreaksXPath` rule) |
| DescriptionBaking.ImageId | app/controllers/daisy_book_controller.rb:258 | the image id is the img's `id` attribute, and an img without one gives the empty string |
| DescriptionBaking.EnsureImageGroup | app/controllers/daisy_book_controller.rb:248-256 | the image ends up, unchanged, inside an imggroup: the existing one, or a new group holding just the image |
| DescriptionBaking.NewGroupPlacement | app/controllers/daisy_book_controller.rb:250-254 | appending the group keeps the image where it was, and after the image leaves, the group is the parent's last child |
| BakingProperties.GroupingAppendsGroup | app/controllers/daisy_book_controller.rb:248-256 | the grouping yields `WrappedAtEnd`: the parent loses the image and gains, as its last child, an imggroup holding only the image, and the image is that group's first child |
| Dom.AppendChild | app/controllers/daisy_book_controller.rb:251 | the element at the position gains the node as its last child; the root keeps its tag and attributes |
| Dom.AppendChildFrame | app/controllers/daisy_book_controller.rb:251 | every subtree beside the edited element is unchanged, and every element above it keeps its tag, its attributes and its number of children |
| Dom.AppendChildUnique | app/controllers/daisy_book_controller.rb:251 | a tree that meets AppendChild's contract and its frame is the AppendChild result: contract and frame together fix the whole tree |
| Dom.RemoveChild | app/controllers/daisy_book_controller.rb:253-254 | the element at the position loses exactly that child, the others keep their order; the root keeps its tag and attributes |
| Dom.RemoveChildFrame | app/controllers/daisy_book_controller.rb:253-254 | every subtree beside the edited element is unchanged, and every element above it keeps its tag, its attributes and its number of children |
| Dom.RemoveChildUnique | app/controllers/daisy_book_controller.rb:253-254 | a tree that meets RemoveChild's contract and its frame is the RemoveChild result |
| Dom.InsertChild | app/controllers/daisy_book_controller.rb:263 | the node is put at the given index among the element's children, those before and after keeping their order; the root keeps its tag and attributes |
| Dom.InsertChildFrame | app/controllers/daisy_book_controller.rb:263 | every subtree beside the edited element is unchanged, and every element above it keeps its tag, its attributes and its number of children |
| Dom.InsertChildUnique | app/controllers/daisy_book_controller.rb:263 | a tree that meets InsertChild's contract and its frame is the InsertChild result |
| Dom.SameOutsideIsReplace | app/controllers/daisy_book_controller.rb:251-263 | a tree that agrees with another outside a position is that tree with only the subtree at the position replaced |
| Dom.FirstChildTagged | app/controllers/daisy_book_controller.rb:260 | the index is that of the first child with the tag, or there is no such child |
| DescriptionBaking.AttachProdnote | app/controllers/daisy_book_controller.rb:258-272 | the prodnote stage never skips, aborts only with UnrecognizedProdnote, and keeps the root's tag |
| DescriptionBaking.Fill | app/controllers/daisy_book_controller.rb:268-272 | the prodnote's only content is the body as one text node, or nothing for an empty body; render, imgref, id and showin are set, every other attribute is as it was, and none is added |
| DescriptionBaking.CreateProdnoteId | app/controllers/daisy_book_controller.rb:278-280 | the id is `pnid_` followed by the image id, which can be read back from it |
| BakingProperties.StepWrapsImageInNewGroup | app/controllers/daisy_book_controller.rb:248-272 | an image outside an imggroup leaves its parent; the parent's new last child is an imggroup of the image and a new prodnote |
| BakingProperties.StepAddsProdnoteAfterImage | app/controllers/daisy_book_controller.rb:260-263 | in an imggroup without a prodnote, a new prodnote becomes the image's next sibling |
| BakingProperties.StepRewritesOwnProdnote | app/controllers/daisy_book_controller.rb:260-272 | the group's own prodnote is rewritten where it stands |
| BakingProperties.OwnershipGuard | app/controllers/daisy_book_controller.rb:264-265 | a record aborts with UnrecognizedProdnote exactly when it has a description and the group's first prodnote carries another id |
| BakingProperties.GroupingKeepsMatches | app/controllers/daisy_book_controller.rb:248-256 | grouping neither adds nor removes img or uid-meta matches |
| BakingProperties.AttachAddsNoMatches | app/controllers/daisy_book_controller.rb:258-272 | writing the prodnote adds no img or uid-meta matches |
| BakingProperties.StepAddsNoMatches | app/controllers/daisy_book_controller.rb:233-272 | an updated tree has no more img or uid-meta matches than before |
| BakingProperties.FillKeepsDescribed | app/controllers/daisy_book_controller.rb:268-272 | writing a prodnote that already holds the description changes nothing |
| BakingProperties.BakedIsFixedPoint | app/controllers/daisy_book_controller.rb:233-272 | a record whose description is already baked leaves the tree unchanged |
| BakingProperties.BakedAt | app/controllers/daisy_book_controller.rb:258-272 | an image of a unique location in an imggroup whose first prodnote holds the description is baked |
| BakingProperties.RegroupedPositions | app/controllers/daisy_book_controller.rb:250-263 | after wrapping, the image sits first in the new group, which is the parent's last child and holds the image and the note |
| BakingProperties.BakedAfterNewGroup | app/controllers/daisy_book_controller.rb:248-272 | wrapping a uniquely located image leaves it baked |
| BakingProperties.BakedAfterNewProdnote | app/controllers/daisy_book_controller.rb:260-272 | adding a prodnote to a uniquely located image leaves it baked |
| BakingProperties.BakedAfterRewrite | app/controllers/daisy_book_controller.rb:264-272 | rewriting its own prodnote leaves a uniquely located image baked |
| BakingProperties.StepBakes | app/controllers/daisy_book_controller.rb:233-272 | after an updating step the image of a unique location is baked with the record's best description and is still unique |
| BakingProperties.StepIdempotent | app/controllers/daisy_book_controller.rb:233-272 | re-applying a record to its own result gives the same result, when its location is unique |
| BakingProperties.OneRecordRunIdempotent | app/controllers/daisy_book_controller.rb:232-273 | running the merge again with the same single record gives the same tree |
| DescriptionBaking.XmlContentsWithUpdatedDescriptions | app/controllers/daisy_book_controller.rb:57-83 | the bake succeeds as the merge does, and otherwise fails with the alert of the merge's failure |
| DescriptionBaking.AlertMessage | app/controllers/daisy_book_controller.rb:61-79 | each alert text is shown for exactly its failures: the foreign-descriptions, missing-uid and unexpected-error alerts for one failure each, the invalid-content-file alert for NonDaisyXML and the XPath syntax error |
| BakingProperties.AlertMessages | app/controllers/daisy_book_controller.rb:61-79 | two failures share an alert exactly when they are equal or both XML-validity failures |
| BakingProperties.ForeignProdnoteAlert | app/controllers/daisy_book_controller.rb:61-63 | a foreign prodnote yields the "descriptions from other sources" alert and no document |
| BakingExamples.RedBallBook | app/controllers/daisy_book_controller.rb:215-280 | a dtbook with a uid meta and one described img becomes meta followed by imggroup[img, prodnote pnid_im1] |
| BakingExamples.GroupGoesAfterLaterSiblings | app/controllers/daisy_book_controller.rb:250-254 | an img followed by a paragraph ends up after the paragraph, inside its new imggroup |
| BakingExamples.SharedLocationIsRebakedElsewhere | app/controllers/daisy_book_controller.rb:234-256 | with two imgs of one location, a second run wraps the other img, so the tree changes again |
| BakingExamples.ControlCharacterStopsRun | app/controllers/daisy_book_controller.rb:70-75 | a record whose location holds a vertical tab makes the whole call fail with the invalid-file alert |
| BakingExamples.ForeignProdnoteStopsRun | app/controllers/daisy_book_controller.rb:61-63 | a group holding someone else's prodnote makes the whole call fail with the foreign-descriptions alert |
| DynamicImages.BestDescription | app/models/dynamic_image.rb:8-13 | nil exactly when there are no descriptions, and otherwise the last description |
| DynamicImages.NewestDescriptionWins | app/models/dynamic_image.rb:12 | a newly added description becomes the best one |
| DynamicImages.ValidIff | app/models/dynamic_image.rb:2-4 | valid exactly when uid and image_location are present and at most 255 characters, and a present title is at most 255 characters |
| DynamicImages.Errors | app/models/dynamic_image.rb:2-4 | uid and image_location are reported blank exactly when not present, title never is; a field is reported too long exactly when it exceeds 255 characters |
| DynamicImages.IsValid | app/models/dynamic_image.rb:2-4 | valid exactly when both required fields are present and all three are within 255 characters |
| DynamicImages.BlankUidReported | app/models/dynamic_image.rb:2 | a blank uid is always reported blank, and too long only when it is longer than 255 |
| DaisyArchive.ValidDaisyZip | app/controllers/daisy_book_controller.rb:164-181 | the scan with its early returns computes the acceptance specification; an unreadable archive is rejected |
| DaisyArchive.Scan | app/controllers/daisy_book_controller.rb:168-172 | a scan that accepts has passed a readable entry whose name matches `.ncx` |
| DaisyArchive.IsDaisyZip | app/controllers/daisy_book_controller.rb:167-180 | an accepted upload is a readable archive with an entry whose name matches `.ncx` |
| DaisyArchive.ScanFindsNcx | app/controllers/daisy_book_controller.rb:167-177 | accepted exactly when some entry matches `.ncx` and every entry before it could be read |
| DaisyArchive.ReadableZipAccepted | app/controllers/daisy_book_controller.rb:167-180 | for a fully readable archive, accepted exactly when some entry name matches `.ncx` |
| DaisyArchive.NcxNameOfOneLine | app/controllers/daisy_book_controller.rb:169 | on a name without line breaks, `/\.ncx$/` matches exactly when the name ends in `.ncx` |
| DaisyArchive.TopLevelEntries | app/controllers/daisy_book_controller.rb:101-103 | the entries left are exactly the listed names other than `.` and `..` |
| DaisyArchive.BookDirectory | app/controllers/daisy_book_controller.rb:101-108 | the book directory is the extraction root or the root joined with one of its top-level entries |
| DaisyArchive.BookDirectoryChoice | app/controllers/daisy_book_controller.rb:101-108 | with one top-level entry the root is joined with it, and otherwise the root itself is used |
| DaisyArchive.Join | app/controllers/daisy_book_controller.rb:105 | `File.join` starts with the directory when the name has no leading slash, and adds a separator exactly when neither part supplies one |
| DaisyArchive.ChompSlashes | app/controllers/daisy_book_controller.rb:105 | the directory less its trailing run of slashes: a prefix not ending in `/`, followed only by slashes |
| DaisyArchive.JoinEndsWithName | app/controllers/daisy_book_controller.rb:105 | the join always ends with the name; a name with a leading slash follows the directory less its trailing slashes |
| DaisyArchive.JoinDropsSlashRun | app/controllers/daisy_book_controller.rb:105 | `File.join("a//", "/b")` is `"a/b"` |
| DaisyArchive.OnlyEntryLeft | app/controllers/daisy_book_controller.rb:101-104 | a listing whose only name besides the dot entries is `e` leaves exactly `[e]` |
| DaisyArchive.FirstXml | app/controllers/daisy_book_controller.rb:204 | the first listed name matching `*.xml` (not starting with a dot), or none exactly when no name matches |
| DaisyArchive.ContentsXmlName | app/controllers/daisy_book_controller.rb:203-205 | nil exactly when no name matches `*.xml`, and otherwise the directory joined with the first name that does |
| DaisyArchive.RelativeContentsPath | app/controllers/daisy_book_controller.rb:30-33 | nil exactly when the path is shorter than the extraction root; otherwise what follows the root's length, less at most one leading `/` |
| DaisyArchive.RelativeOfJoin | app/controllers/daisy_book_controller.rb:30-33 | a path joined under the extraction root yields back the name it was joined from |
| DaisyArchive.ContentsMemberPath | app/controllers/daisy_book_controller.rb:29-33 | the member path of the content file is the top-level directory joined with the file name, or the file name alone |
| DaisyArchive.CreateZip | app/controllers/daisy_book_controller.rb:286-299 | the walk over the copied archive's members yields the archive with the first matching member's data replaced |
| DaisyArchive.ReplaceMember | app/controllers/daisy_book_controller.rb:290-296 | the rewritten archive has as many members as the old one |
| DaisyArchive.FirstMember | app/controllers/daisy_book_controller.rb:291-292 | the index of the first member with the name, or none exactly when no member has it |
| DaisyArchive.ReplaceMemberChangesOne | app/controllers/daisy_book_controller.rb:290-296 | with no matching member the archive is unchanged; otherwise only the first matching member changes, to the new data, with every name and the order kept |
| DaisyArchive.ReadBack | app/controllers/daisy_book_controller.rb:293 | the replaced member is still the first with its name and now holds the new data |
| DaisyArchive.ReplaceMemberIdempotent | app/controllers/daisy_book_controller.rb:290-296 | replacing twice with the same data is the same as replacing once |

## Left out

- XML parsing, serialisation (`Nokogiri::XML`, `to_xml`) and namespaces are not
  modelled. The model starts from a parsed tree. It keeps only whether the root
  declares a default namespace, and then treats every element as being in it.
  Elements created during the run are taken to be in that namespace as well, so
  later queries in the same run see them.
- The XPath engine is replaced by the three queries it is asked to evaluate.
  Splicing the location into the query is reduced to one rule: a location
  containing `'` or a character that is not an XML `Char` raises a syntax error.
  Every other location is read as the literal string it is, which is what XPath
  does with a literal in single quotes.
- `IsXmlChar`: the model breaks the query at every character outside XML's `Char`
  production, so U+FFFE and U+FFFF also raise the syntax error. Whether libxml2
  stops at these two depends on its version: a scanner that tests the literal
  byte by byte lets them through.
- `BreaksXPath`: a location with quotes that still forms a valid but different
  query, such as `x' or @src='y`, is modelled as a syntax error. The source would
  instead run that other query and could match other elements.
- `AppendChild`: its own contract leaves out the frame: subtrees beside the edited
  element are unchanged, and the elements above it keep their tags, attributes and
  numbers of children. `AppendChildFrame` states and proves it instead, and proofs about
  the edit call that lemma when they need the frame. `AppendChildUnique` shows that the
  contract and the frame together leave only the edit's own result tree.
- `InsertChild`: its own contract leaves out the frame: subtrees beside the edited
  element are unchanged, and the elements above it keep their tags, attributes and
  numbers of children. `InsertChildFrame` states and proves it instead, and proofs about
  the edit call that lemma when they need the frame. `InsertChildUnique` shows that the
  contract and the frame together leave only the edit's own result tree.
- `RemoveChild`: its own contract leaves out the frame: subtrees beside the edited
  element are unchanged, and the elements above it keep their tags, attributes and
  numbers of children. `RemoveChildFrame` states and proves it instead, and proofs about
  the edit call that lemma when they need the frame. `RemoveChildUnique` shows that the
  contract and the frame together leave only the edit's own result tree.
- `Step`: the case where the image query and the parent query disagree (several
  imgs sharing a location) is modelled as the code does it. The closed-form
  lemmas about where the group and the prodnote go, and the idempotence lemmas,
  are proved only where the two queries agree. They always agree when the
  location is unique.
- `OneRecordRunIdempotent`: idempotence of a whole run is proved for a single
  record. For several records it also depends on how their locations and
  groups interact, which the model does not cover.
- The file system and the zip library are not modelled: `Zip::Archive`,
  `unzip_to_temp`, `Dir.mktmpdir`, `Tempfile`, `FileUtils.cp`, `File.read`,
  `Dir.glob`, `Dir.entries` and `File.basename`.
  - Archives are sequences of named byte strings.
  - Listings are sequences of names, possibly in a different order on each host.
  - How the XML string becomes the member's bytes is not modelled.
- `ContentsXmlName`: the book directory is assumed to contain none of the glob
  metacharacters `*`, `?`, `[`, `]`, `{`, `}` and `\`. `Dir.glob` would read such a
  directory as part of the pattern and can find nothing, so the source would then
  return nil.
- `Fill`: a nil description body, which the database allows, is modelled as the
  empty string. `content = nil` and `content = ""` both leave the prodnote with
  no text node.
- `Join` models `File.join` with two parts, the only form the code uses.
- Logging, `puts` and `caller_info` are left out. The loop at
  app/models/dynamic_image.rb:9-11 only prints, so `BestDescription` does not
  model it.
- The database and the `has_many` association are left out. The store is an
  input sequence of records, and each record's descriptions are in association
  order.
- `blank?` is modelled with ASCII whitespace only.
- The Rails actions (`submit`, `edit`, `file`, `content`, `side_bar`, `top_bar`,
  `get_daisy_with_descriptions`, `get_xml_with_descriptions`) are not modelled:
  their sessions, redirects and `send_file`/`send_data` are request plumbing.
  `xslt` and `configure_images` are foreign calls (XSLT, RMagick).
- app/controllers/upload_book_controller.rb is not part of this model. It is
  authentication, background processes, S3 storage and jobs. Its
  `get_daisy_contents_xml_name` is the same rule as `ContentsXmlName`.
- config/routes.rb is not part of this model. It is routing configuration with no
  logic.
