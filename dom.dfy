/**
 * A value model of the DTBook document tree that the description baker edits.
 * An element has a tag, an attribute map and an ordered sequence of children;
 * character data is a Text node. A position in the tree is a Path: the child
 * indices followed from the document element. Namespaces are abstracted away:
 * every tag below stands for the element of that name in the DTBook namespace.
 */
module Dom {
  import opened Support

  const Dtbook: string := "dtbook"
  const Img: string := "img"
  const ImgGroup: string := "imggroup"
  const Prodnote: string := "prodnote"
  const Meta: string := "meta"

  datatype Node =
    | Element(tag: string, attrs: map<string, string>, children: seq<Node>)
    | Text(text: string)

  type Path = seq<nat>

  /** A freshly created element without attributes or children (`Node.new tag, doc`). */
  function NewElement(tag: string): Node { Element(tag, map[], []) }

  predicate IsElement(n: Node, tag: string) { n.Element? && n.tag == tag }

  /** `node['name']`: the value of the attribute, or nil when it is absent. */
  function Attr(n: Node, name: string): Option<string> {
    if n.Element? && name in n.attrs then Some(n.attrs[name]) else None
  }

  // ---------------------------------------------------------------------------
  // Positions
  // ---------------------------------------------------------------------------

  predicate ValidPath(n: Node, p: Path)
    decreases |p|
  {
    p == [] || (n.Element? && p[0] < |n.children| && ValidPath(n.children[p[0]], p[1..]))
  }

  /** The subtree at position `p`. */
  function At(n: Node, p: Path): Node
    requires ValidPath(n, p)
    decreases |p|
  {
    if p == [] then n else At(n.children[p[0]], p[1..])
  }

  predicate IsPrefix(a: Path, b: Path) { |a| <= |b| && b[..|a|] == a }

  predicate IsStrictPrefix(a: Path, b: Path) { |a| < |b| && b[..|a|] == a }

  /** Neither position lies inside the subtree of the other. */
  predicate Disjoint(a: Path, b: Path) { !IsPrefix(a, b) && !IsPrefix(b, a) }

  function Parent(p: Path): Path requires |p| > 0 { p[..|p| - 1] }

  function Last(p: Path): nat requires |p| > 0 { p[|p| - 1] }

  /** The tree with the subtree at `p` replaced by `x`. */
  function Replace(n: Node, p: Path, x: Node): (r: Node)
    requires ValidPath(n, p)
    ensures ValidPath(r, p) && At(r, p) == x
    ensures p != [] ==> r.Element? && r.tag == n.tag && r.attrs == n.attrs && |r.children| == |n.children|
    decreases |p|
  {
    if p == [] then x
    else n.(children := n.children[p[0] := Replace(n.children[p[0]], p[1..], x)])
  }

  lemma {:induction false} AtConcat(n: Node, p: Path, s: Path)
    requires ValidPath(n, p)
    ensures ValidPath(n, p + s) <==> ValidPath(At(n, p), s)
    ensures ValidPath(n, p + s) ==> At(n, p + s) == At(At(n, p), s)
    decreases |p|
  {
    if p == [] {
      assert p + s == s;
    } else {
      assert (p + s)[0] == p[0] && (p + s)[1..] == p[1..] + s;
      AtConcat(n.children[p[0]], p[1..], s);
    }
  }

  lemma PrefixOfTails(a: Path, b: Path)
    requires a != [] && b != [] && a[0] == b[0]
    ensures IsPrefix(a[1..], b[1..]) ==> IsPrefix(a, b)
  {
    if IsPrefix(a[1..], b[1..]) {
      assert b[..|a|] == [b[0]] + b[1..][..|a| - 1];
      assert a == [a[0]] + a[1..];
    }
  }

  lemma DisjointTails(a: Path, b: Path)
    requires Disjoint(a, b) && a != [] && b != [] && a[0] == b[0]
    ensures Disjoint(a[1..], b[1..])
  {
    PrefixOfTails(a, b);
    PrefixOfTails(b, a);
  }

  lemma {:induction false} PrefixValid(n: Node, p: Path, k: nat)
    requires ValidPath(n, p) && k <= |p|
    ensures ValidPath(n, p[..k])
    decreases |p|
  {
    if k > 0 {
      PrefixValid(n.children[p[0]], p[1..], k - 1);
      assert p[..k][1..] == p[1..][..k - 1];
    }
  }

  /** Replacing one subtree leaves every subtree beside it as it was. */
  lemma {:induction false} ReplaceDisjoint(n: Node, p: Path, q: Path, x: Node)
    requires ValidPath(n, p) && ValidPath(n, q) && Disjoint(p, q)
    ensures ValidPath(Replace(n, p, x), q) && At(Replace(n, p, x), q) == At(n, q)
    decreases |p|
  {
    assert IsPrefix([], q) && IsPrefix([], p);
    if p[0] == q[0] {
      DisjointTails(p, q);
      ReplaceDisjoint(n.children[p[0]], p[1..], q[1..], x);
    }
  }

  /** Replacing deep inside the subtree at `q` is replacing that subtree by its own update. */
  lemma {:induction false} ReplaceNested(n: Node, q: Path, s: Path, x: Node)
    requires ValidPath(n, q) && ValidPath(At(n, q), s)
    ensures ValidPath(n, q + s)
    ensures Replace(n, q + s, x) == Replace(n, q, Replace(At(n, q), s, x))
    decreases |q|
  {
    AtConcat(n, q, s);
    if q == [] {
      assert q + s == s;
    } else {
      assert (q + s)[0] == q[0] && (q + s)[1..] == q[1..] + s;
      ReplaceNested(n.children[q[0]], q[1..], s, x);
    }
  }

  /** Putting back the subtree that is already there changes nothing. */
  lemma {:induction false} ReplaceSelf(n: Node, p: Path)
    requires ValidPath(n, p)
    ensures Replace(n, p, At(n, p)) == n
    decreases |p|
  {
    if p != [] {
      ReplaceSelf(n.children[p[0]], p[1..]);
      assert n.children[p[0] := n.children[p[0]]] == n.children;
    }
  }

  /** A second replacement at the same position overrides the first. */
  lemma {:induction false} ReplaceTwice(n: Node, p: Path, x: Node, y: Node)
    requires ValidPath(n, p)
    ensures Replace(Replace(n, p, x), p, y) == Replace(n, p, y)
    decreases |p|
  {
    if p != [] {
      ReplaceTwice(n.children[p[0]], p[1..], x, y);
      assert n.children[p[0] := Replace(n.children[p[0]], p[1..], x)][p[0] := Replace(n.children[p[0]], p[1..], y)]
          == n.children[p[0] := Replace(n.children[p[0]], p[1..], y)];
    }
  }

  /** The element above a position holds the node at that position as its child. */
  lemma ParentHolds(n: Node, p: Path)
    requires ValidPath(n, p) && |p| > 0
    ensures ValidPath(n, Parent(p)) && At(n, Parent(p)).Element?
    ensures Last(p) < |At(n, Parent(p)).children| && At(n, Parent(p)).children[Last(p)] == At(n, p)
  {
    PrefixValid(n, p, |p| - 1);
    assert p == Parent(p) + [Last(p)];
    AtConcat(n, Parent(p), [Last(p)]);
  }

  /**
   * What an edit of the element at `p` leaves alone: every subtree beside `p`
   * is where it was, and every element above `p` keeps its tag, its attributes
   * and its number of children.
   */
  ghost predicate SameOutside(t: Node, r: Node, p: Path) {
    && (forall q :: ValidPath(t, q) && Disjoint(p, q) ==> ValidPath(r, q) && At(r, q) == At(t, q))
    && (forall k :: 0 <= k < |p| ==>
          && ValidPath(t, p[..k]) && ValidPath(r, p[..k])
          && At(t, p[..k]).Element? && At(r, p[..k]).Element?
          && At(r, p[..k]).tag == At(t, p[..k]).tag && At(r, p[..k]).attrs == At(t, p[..k]).attrs
          && |At(r, p[..k]).children| == |At(t, p[..k]).children|)
  }

  /** The elements above a replaced subtree keep their tags, attributes and numbers of children. */
  lemma {:induction false} ReplaceKeepsAncestor(n: Node, p: Path, x: Node, k: nat)
    requires ValidPath(n, p) && k < |p|
    ensures ValidPath(n, p[..k]) && ValidPath(Replace(n, p, x), p[..k])
    ensures At(n, p[..k]).Element? && At(Replace(n, p, x), p[..k]).Element?
    ensures At(Replace(n, p, x), p[..k]).tag == At(n, p[..k]).tag
    ensures At(Replace(n, p, x), p[..k]).attrs == At(n, p[..k]).attrs
    ensures |At(Replace(n, p, x), p[..k]).children| == |At(n, p[..k]).children|
    decreases |p|
  {
    PrefixValid(n, p, k);
    if k > 0 {
      ReplaceKeepsAncestor(n.children[p[0]], p[1..], x, k - 1);
      assert p[..k][1..] == p[1..][..k - 1];
    }
  }

  lemma ReplaceSameOutside(n: Node, p: Path, x: Node)
    requires ValidPath(n, p)
    ensures SameOutside(n, Replace(n, p, x), p)
  {
    forall q | ValidPath(n, q) && Disjoint(p, q)
      ensures ValidPath(Replace(n, p, x), q) && At(Replace(n, p, x), q) == At(n, q)
    {
      ReplaceDisjoint(n, p, q, x);
    }
    forall k | 0 <= k < |p|
      ensures ValidPath(n, p[..k]) && ValidPath(Replace(n, p, x), p[..k])
      ensures At(n, p[..k]).Element? && At(Replace(n, p, x), p[..k]).Element?
      ensures At(Replace(n, p, x), p[..k]).tag == At(n, p[..k]).tag
      ensures At(Replace(n, p, x), p[..k]).attrs == At(n, p[..k]).attrs
      ensures |At(Replace(n, p, x), p[..k]).children| == |At(n, p[..k]).children|
    {
      ReplaceKeepsAncestor(n, p, x, k);
    }
  }

  /**
   * Below depth `d` of `p`, a tree that agrees with `t` outside `p` is `t`'s
   * subtree with only the part at `p` replaced.
   */
  lemma {:induction false} SameOutsideBelow(t: Node, r: Node, p: Path, d: nat)
    requires ValidPath(t, p) && ValidPath(r, p) && SameOutside(t, r, p) && d <= |p|
    ensures ValidPath(t, p[..d]) && ValidPath(r, p[..d]) && ValidPath(At(t, p[..d]), p[d..])
    ensures At(r, p[..d]) == Replace(At(t, p[..d]), p[d..], At(r, p))
    decreases |p| - d
  {
    PrefixValid(t, p, d);
    PrefixValid(r, p, d);
    assert p[..d] + p[d..] == p;
    AtConcat(t, p[..d], p[d..]);
    if d < |p| {
      SameOutsideBelow(t, r, p, d + 1);
      SameOutsideLevel(t, r, p, d);
      assert p[d..][0] == p[d] && p[d..][1..] == p[d + 1..];
    } else {
      assert p[..d] == p && p[d..] == [];
    }
  }

  /** One level of that descent: the element at depth `d` differs from `t`'s only in the child towards `p`. */
  lemma SameOutsideLevel(t: Node, r: Node, p: Path, d: nat)
    requires ValidPath(t, p) && ValidPath(r, p) && SameOutside(t, r, p) && d < |p|
    ensures ValidPath(t, p[..d]) && ValidPath(r, p[..d]) && ValidPath(t, p[..d + 1]) && ValidPath(r, p[..d + 1])
    ensures At(t, p[..d]).Element? && p[d] < |At(t, p[..d]).children| && At(t, p[..d]).children[p[d]] == At(t, p[..d + 1])
    ensures At(r, p[..d]) == At(t, p[..d]).(children := At(t, p[..d]).children[p[d] := At(r, p[..d + 1])])
  {
    PrefixValid(t, p, d);
    PrefixValid(r, p, d);
    PrefixValid(t, p, d + 1);
    PrefixValid(r, p, d + 1);
    var a := At(t, p[..d]);
    var b := At(r, p[..d]);
    assert a.Element? && b.Element? && b.tag == a.tag && b.attrs == a.attrs && |b.children| == |a.children|;
    assert p[..d] + [p[d]] == p[..d + 1];
    AtConcat(t, p[..d], [p[d]]);
    AtConcat(r, p[..d], [p[d]]);
    forall j | 0 <= j < |b.children| && j != p[d]
      ensures b.children[j] == a.children[j]
    {
      var q := p[..d] + [j];
      assert Disjoint(p, q) by {
        assert q[d] == j;
      }
      AtConcat(t, p[..d], [j]);
      AtConcat(r, p[..d], [j]);
    }
    assert b.children == a.children[p[d] := At(r, p[..d + 1])];
  }

  /** Agreeing with `t` outside `p` leaves only the subtree at `p` free: the tree is `t` with that part replaced. */
  lemma SameOutsideIsReplace(t: Node, r: Node, p: Path)
    requires ValidPath(t, p) && ValidPath(r, p) && SameOutside(t, r, p)
    ensures r == Replace(t, p, At(r, p))
  {
    SameOutsideBelow(t, r, p, 0);
    assert p[..0] == [] && p[0..] == p;
  }

  // ---------------------------------------------------------------------------
  // Structural edits (all expressed as a replacement of the edited element)
  // ---------------------------------------------------------------------------

  /** `child.parent = node`: `c` becomes the last child of the element at `p`. */
  function AppendChild(t: Node, p: Path, c: Node): (r: Node)
    requires ValidPath(t, p) && At(t, p).Element?
    ensures ValidPath(r, p) && At(r, p) == At(t, p).(children := At(t, p).children + [c])
    ensures r.Element? && r.tag == t.tag && r.attrs == t.attrs
  {
    var e := At(t, p);
    Replace(t, p, e.(children := e.children + [c]))
  }

  /** `c` becomes child number `i` of the element at `p`; later children move up by one. */
  function InsertChild(t: Node, p: Path, i: nat, c: Node): (r: Node)
    requires ValidPath(t, p) && At(t, p).Element? && i <= |At(t, p).children|
    ensures ValidPath(r, p)
    ensures At(r, p) == At(t, p).(children := At(t, p).children[..i] + [c] + At(t, p).children[i..])
    ensures r.Element? && r.tag == t.tag && r.attrs == t.attrs
  {
    var e := At(t, p);
    Replace(t, p, e.(children := e.children[..i] + [c] + e.children[i..]))
  }

  /** Child number `i` of the element at `p` is unlinked; later children move down by one. */
  function RemoveChild(t: Node, p: Path, i: nat): (r: Node)
    requires ValidPath(t, p) && At(t, p).Element? && i < |At(t, p).children|
    ensures ValidPath(r, p)
    ensures At(r, p) == At(t, p).(children := At(t, p).children[..i] + At(t, p).children[i + 1..])
    ensures r.Element? && r.tag == t.tag && r.attrs == t.attrs
  {
    var e := At(t, p);
    Replace(t, p, e.(children := e.children[..i] + e.children[i + 1..]))
  }

  /** Appending under `p` changes nothing beside or above the element at `p`. */
  lemma AppendChildFrame(t: Node, p: Path, c: Node)
    requires ValidPath(t, p) && At(t, p).Element?
    ensures SameOutside(t, AppendChild(t, p, c), p)
  {
    var e := At(t, p);
    ReplaceSameOutside(t, p, e.(children := e.children + [c]));
  }

  /** Inserting under `p` changes nothing beside or above the element at `p`. */
  lemma InsertChildFrame(t: Node, p: Path, i: nat, c: Node)
    requires ValidPath(t, p) && At(t, p).Element? && i <= |At(t, p).children|
    ensures SameOutside(t, InsertChild(t, p, i, c), p)
  {
    var e := At(t, p);
    ReplaceSameOutside(t, p, e.(children := e.children[..i] + [c] + e.children[i..]));
  }

  /** Unlinking a child under `p` leaves a subtree beside `p` where it was. */
  lemma RemoveChildBeside(t: Node, p: Path, i: nat, q: Path)
    requires ValidPath(t, p) && At(t, p).Element? && i < |At(t, p).children|
    requires ValidPath(t, q) && Disjoint(p, q)
    ensures ValidPath(RemoveChild(t, p, i), q) && At(RemoveChild(t, p, i), q) == At(t, q)
  {
    var e := At(t, p);
    ReplaceDisjoint(t, p, q, e.(children := e.children[..i] + e.children[i + 1..]));
  }

  /** Unlinking a child under `p` changes nothing beside or above the element at `p`. */
  lemma RemoveChildFrame(t: Node, p: Path, i: nat)
    requires ValidPath(t, p) && At(t, p).Element? && i < |At(t, p).children|
    ensures SameOutside(t, RemoveChild(t, p, i), p)
  {
    var e := At(t, p);
    ReplaceSameOutside(t, p, e.(children := e.children[..i] + e.children[i + 1..]));
  }

  /** The edit's contract and its frame together determine the result: only `AppendChild`'s tree meets both. */
  lemma AppendChildUnique(t: Node, p: Path, c: Node, r: Node)
    requires ValidPath(t, p) && At(t, p).Element? && ValidPath(r, p) && SameOutside(t, r, p)
    requires At(r, p) == At(t, p).(children := At(t, p).children + [c])
    ensures r == AppendChild(t, p, c)
  {
    SameOutsideIsReplace(t, r, p);
  }

  /** Only `InsertChild`'s tree meets both its contract and its frame. */
  lemma InsertChildUnique(t: Node, p: Path, i: nat, c: Node, r: Node)
    requires ValidPath(t, p) && At(t, p).Element? && i <= |At(t, p).children| && ValidPath(r, p) && SameOutside(t, r, p)
    requires At(r, p) == At(t, p).(children := At(t, p).children[..i] + [c] + At(t, p).children[i..])
    ensures r == InsertChild(t, p, i, c)
  {
    SameOutsideIsReplace(t, r, p);
  }

  /** Only `RemoveChild`'s tree meets both its contract and its frame. */
  lemma RemoveChildUnique(t: Node, p: Path, i: nat, r: Node)
    requires ValidPath(t, p) && At(t, p).Element? && i < |At(t, p).children| && ValidPath(r, p) && SameOutside(t, r, p)
    requires At(r, p) == At(t, p).(children := At(t, p).children[..i] + At(t, p).children[i + 1..])
    ensures r == RemoveChild(t, p, i)
  {
    SameOutsideIsReplace(t, r, p);
  }

  // ---------------------------------------------------------------------------
  // Queries in document order
  // ---------------------------------------------------------------------------

  /** The three element searches the baker makes. */
  datatype Query =
    | ImgWithSrc(src: string)          // //xmlns:img[@src='src']
    | ParentOfImgWithSrc(src: string)  // //xmlns:img[@src='src']/..
    | UidMeta                          // //xmlns:meta[@name='dtb:uid']

  predicate ImgHasSrc(n: Node, src: string) { IsElement(n, Img) && Attr(n, "src") == Some(src) }

  predicate Matches(q: Query, n: Node) {
    match q
    case ImgWithSrc(s) => ImgHasSrc(n, s)
    case ParentOfImgWithSrc(s) => n.Element? && exists i :: 0 <= i < |n.children| && ImgHasSrc(n.children[i], s)
    case UidMeta => IsElement(n, Meta) && Attr(n, "name") == Some("dtb:uid")
  }

  /** A query decided by the element's own tag and attributes alone. */
  predicate IsLocal(q: Query) { !q.ParentOfImgWithSrc? }

  /** The first match in document order (`at_xpath`), as a position. */
  function First(n: Node, q: Query): (r: Option<Path>)
    ensures r.Some? ==> ValidPath(n, r.value) && Matches(q, At(n, r.value))
    ensures r == Some([]) <==> Matches(q, n)
    decreases n, 1
  {
    if Matches(q, n) then Some([])
    else if n.Text? then None
    else FirstAmong(n.children, q, 0)
  }

  /** The first match inside `cs[i..]`, as a position starting with the child's index. */
  function FirstAmong(cs: seq<Node>, q: Query, i: nat): (r: Option<Path>)
    requires i <= |cs|
    ensures r.Some? ==> |r.value| > 0 && i <= r.value[0] < |cs|
    ensures r.Some? ==> ValidPath(cs[r.value[0]], r.value[1..]) && Matches(q, At(cs[r.value[0]], r.value[1..]))
    decreases cs, |cs| - i
  {
    if i == |cs| then None
    else match First(cs[i], q)
      case Some(p) => Some([i] + p)
      case None => FirstAmong(cs, q, i + 1)
  }

  /** The number of matches (`xpath(...).size`). */
  function Count(n: Node, q: Query): nat
    decreases n, 1
  {
    (if Matches(q, n) then 1 else 0) + (if n.Element? then CountAll(n.children, q) else 0)
  }

  function CountAll(cs: seq<Node>, q: Query): nat
    decreases cs, 0
  {
    if cs == [] then 0 else CountAll(cs[..|cs| - 1], q) + Count(cs[|cs| - 1], q)
  }

  // ---------------------------------------------------------------------------
  // Facts about the queries
  // ---------------------------------------------------------------------------

  /** The scan over children stops at the first child that holds a match. */
  lemma {:induction false} FirstAmongIsLeftmost(cs: seq<Node>, q: Query, i: nat)
    requires i <= |cs|
    ensures FirstAmong(cs, q, i).None? <==> forall k :: i <= k < |cs| ==> First(cs[k], q).None?
    ensures FirstAmong(cs, q, i).Some? ==>
              var p := FirstAmong(cs, q, i).value;
              First(cs[p[0]], q) == Some(p[1..]) && forall k :: i <= k < p[0] ==> First(cs[k], q).None?
    decreases |cs| - i
  {
    if i < |cs| {
      FirstAmongIsLeftmost(cs, q, i + 1);
      match First(cs[i], q)
      case Some(p) =>
        assert ([i] + p)[0] == i && ([i] + p)[1..] == p;
      case None =>
    }
  }

  lemma {:induction false} CountAllConcat(a: seq<Node>, b: seq<Node>, q: Query)
    ensures CountAll(a + b, q) == CountAll(a, q) + CountAll(b, q)
    decreases |b|
  {
    if b == [] {
      assert a + b == a;
    } else {
      assert (a + b)[..|a + b| - 1] == a + b[..|b| - 1];
      assert (a + b)[|a + b| - 1] == b[|b| - 1];
      CountAllConcat(a, b[..|b| - 1], q);
    }
  }

  lemma CountAllSplit(cs: seq<Node>, i: nat, q: Query)
    requires i < |cs|
    ensures CountAll(cs, q) == CountAll(cs[..i], q) + Count(cs[i], q) + CountAll(cs[i + 1..], q)
  {
    assert cs == cs[..i] + [cs[i]] + cs[i + 1..];
    CountAllConcat(cs[..i] + [cs[i]], cs[i + 1..], q);
    CountAllConcat(cs[..i], [cs[i]], q);
    assert [cs[i]][..0] == [];
  }

  lemma {:induction false} CountAllZero(cs: seq<Node>, q: Query)
    ensures CountAll(cs, q) == 0 <==> forall k :: 0 <= k < |cs| ==> Count(cs[k], q) == 0
    decreases |cs|
  {
    if cs != [] {
      var init := cs[..|cs| - 1];
      CountAllZero(init, q);
      assert forall k :: 0 <= k < |init| ==> init[k] == cs[k];
    }
  }

  /** A query has no first match exactly when it has no match at all. */
  lemma {:induction false} FirstNoneIffNoMatch(n: Node, q: Query)
    ensures First(n, q).None? <==> Count(n, q) == 0
    decreases n
  {
    if !Matches(q, n) && n.Element? {
      forall k | 0 <= k < |n.children| { FirstNoneIffNoMatch(n.children[k], q); }
      FirstAmongIsLeftmost(n.children, q, 0);
      CountAllZero(n.children, q);
    }
  }

  /** A subtree has no more matches than the whole tree. */
  lemma {:induction false} CountAtLeastSubtree(n: Node, p: Path, q: Query)
    requires ValidPath(n, p)
    ensures Count(n, q) >= Count(At(n, p), q)
    decreases |p|
  {
    if p != [] {
      CountAtLeastSubtree(n.children[p[0]], p[1..], q);
      CountAllSplit(n.children, p[0], q);
    }
  }

  /** A matching node anywhere in the tree is found by the search. */
  lemma FoundSomewhere(n: Node, p: Path, q: Query)
    requires ValidPath(n, p) && Matches(q, At(n, p))
    ensures Count(n, q) >= 1 && First(n, q).Some?
  {
    CountAtLeastSubtree(n, p, q);
    FirstNoneIffNoMatch(n, q);
  }

  /** Two different matching positions mean at least two matches. */
  lemma {:induction false} CountTwo(n: Node, a: Path, b: Path, q: Query)
    requires ValidPath(n, a) && ValidPath(n, b) && a != b
    requires Matches(q, At(n, a)) && Matches(q, At(n, b))
    ensures Count(n, q) >= 2
    decreases |a|
  {
    if a == [] {
      CountAtLeastSubtree(n.children[b[0]], b[1..], q);
      CountAllSplit(n.children, b[0], q);
    } else if b == [] {
      CountAtLeastSubtree(n.children[a[0]], a[1..], q);
      CountAllSplit(n.children, a[0], q);
    } else if a[0] == b[0] {
      assert a == [a[0]] + a[1..] && b == [b[0]] + b[1..];
      CountTwo(n.children[a[0]], a[1..], b[1..], q);
      CountAllSplit(n.children, a[0], q);
    } else {
      var cs := n.children;
      CountAtLeastSubtree(cs[a[0]], a[1..], q);
      CountAtLeastSubtree(cs[b[0]], b[1..], q);
      var lo, hi := if a[0] < b[0] then a[0] else b[0], if a[0] < b[0] then b[0] else a[0];
      CountAllSplit(cs, lo, q);
      CountAllSplit(cs[lo + 1..], hi - lo - 1, q);
      assert cs[lo + 1..][hi - lo - 1] == cs[hi];
    }
  }

  /** Replacing a subtree changes a local query's count by the difference of the two subtrees. */
  lemma {:induction false} CountReplace(n: Node, p: Path, x: Node, q: Query)
    requires ValidPath(n, p) && IsLocal(q)
    ensures Count(Replace(n, p, x), q) + Count(At(n, p), q) == Count(n, q) + Count(x, q)
    decreases |p|
  {
    if p != [] {
      var i := p[0];
      var cs := n.children;
      var c' := Replace(cs[i], p[1..], x);
      CountReplace(cs[i], p[1..], x, q);
      CountAllSplit(cs, i, q);
      CountAllSplit(cs[i := c'], i, q);
      assert cs[i := c'][..i] == cs[..i] && cs[i := c'][i + 1..] == cs[i + 1..];
    }
  }

  // ---------------------------------------------------------------------------
  // The two image searches
  // ---------------------------------------------------------------------------

  lemma ImgMakesParentMatch(n: Node, p: Path, s: string)
    requires ValidPath(n, p) && |p| > 0 && ImgHasSrc(At(n, p), s)
    ensures ValidPath(n, Parent(p)) && Matches(ParentOfImgWithSrc(s), At(n, Parent(p)))
  {
    ParentHolds(n, p);
  }

  /** Below a child that holds a parent match there is an image match, so the image scan stops no later. */
  lemma ImageChildNotAfter(n: Node, s: string)
    requires !ImgHasSrc(n, s) && First(n, ParentOfImgWithSrc(s)).Some?
    requires First(n, ParentOfImgWithSrc(s)).value != []
    ensures First(n, ImgWithSrc(s)).Some?
    ensures First(n, ImgWithSrc(s)).value[0] <= First(n, ParentOfImgWithSrc(s)).value[0]
  {
    var pq, iq := ParentOfImgWithSrc(s), ImgWithSrc(s);
    var P := First(n, pq).value;
    var cs := n.children;
    FirstAmongIsLeftmost(cs, pq, 0);
    FirstAmongIsLeftmost(cs, iq, 0);
    var i, P0 := P[0], P[1..];
    var c :| 0 <= c < |At(cs[i], P0).children| && ImgHasSrc(At(cs[i], P0).children[c], s);
    AtConcat(cs[i], P0, [c]);
    FoundSomewhere(cs[i], P0 + [c], iq);
  }

  /** Symmetrically, the child holding the first image match holds a parent match. */
  lemma ParentChildNotAfter(n: Node, s: string)
    requires !Matches(ParentOfImgWithSrc(s), n) && !ImgHasSrc(n, s) && First(n, ImgWithSrc(s)).Some?
    ensures First(n, ImgWithSrc(s)).value[1..] != []
    ensures First(n, ParentOfImgWithSrc(s)).Some?
    ensures First(n, ParentOfImgWithSrc(s)).value != []
    ensures First(n, ParentOfImgWithSrc(s)).value[0] <= First(n, ImgWithSrc(s)).value[0]
  {
    var pq, iq := ParentOfImgWithSrc(s), ImgWithSrc(s);
    var I := First(n, iq).value;
    var cs := n.children;
    FirstAmongIsLeftmost(cs, pq, 0);
    FirstAmongIsLeftmost(cs, iq, 0);
    var j, I0 := I[0], I[1..];
    assert First(cs[j], iq) == Some(I0);
    assert ImgHasSrc(cs[j], s) ==> Matches(pq, n);
    ImgMakesParentMatch(cs[j], I0, s);
    FoundSomewhere(cs[j], Parent(I0), pq);
  }

  /**
   * The element found by `//img[@src=s]/..` is an ancestor of the element found by
   * `//img[@src=s]`, when the document element is not itself such an image. (The two
   * are different elements only when several images share the source.)
   */
  lemma {:induction false} ParentQueryAboveImage(n: Node, s: string)
    requires !ImgHasSrc(n, s)
    requires First(n, ParentOfImgWithSrc(s)).Some?
    ensures First(n, ImgWithSrc(s)).Some?
    ensures IsStrictPrefix(First(n, ParentOfImgWithSrc(s)).value, First(n, ImgWithSrc(s)).value)
    decreases n
  {
    var pq, iq := ParentOfImgWithSrc(s), ImgWithSrc(s);
    var P := First(n, pq).value;
    var cs := n.children;
    if P == [] {
      FirstAmongIsLeftmost(cs, iq, 0);
      var c :| 0 <= c < |cs| && ImgHasSrc(cs[c], s);
      assert First(cs[c], iq).Some?;
    } else {
      ImageChildNotAfter(n, s);
      ParentChildNotAfter(n, s);
      var I := First(n, iq).value;
      var i := P[0];
      assert I[0] == i;
      FirstAmongIsLeftmost(cs, pq, 0);
      FirstAmongIsLeftmost(cs, iq, 0);
      assert First(cs[i], pq) == Some(P[1..]) && First(cs[i], iq) == Some(I[1..]);
      assert ImgHasSrc(cs[i], s) ==> Matches(pq, n);
      ParentQueryAboveImage(cs[i], s);
      assert P == [i] + P[1..] && I == [i] + I[1..];
    }
  }

  /**
   * When at most one image carries the source, `//img[@src=s]/..` is the parent of
   * the image that `//img[@src=s]` finds.
   */
  lemma ParentQueryIsImageParent(n: Node, s: string)
    requires !ImgHasSrc(n, s) && Count(n, ImgWithSrc(s)) <= 1
    requires First(n, ImgWithSrc(s)).Some?
    ensures |First(n, ImgWithSrc(s)).value| > 0
    ensures First(n, ParentOfImgWithSrc(s)) == Some(Parent(First(n, ImgWithSrc(s)).value))
  {
    var I := First(n, ImgWithSrc(s)).value;
    ImgMakesParentMatch(n, I, s);
    FoundSomewhere(n, Parent(I), ParentOfImgWithSrc(s));
    ParentQueryAboveImage(n, s);
    var P := First(n, ParentOfImgWithSrc(s)).value;
    var c :| 0 <= c < |At(n, P).children| && ImgHasSrc(At(n, P).children[c], s);
    AtConcat(n, P, [c]);
    if P + [c] != I {
      CountTwo(n, P + [c], I, ImgWithSrc(s));
    }
    assert Parent(P + [c]) == P;
  }

  /** Either search succeeds exactly when the other does. */
  lemma ImageFoundIffParentFound(n: Node, s: string)
    requires !ImgHasSrc(n, s)
    ensures First(n, ImgWithSrc(s)).Some? <==> First(n, ParentOfImgWithSrc(s)).Some?
  {
    if First(n, ImgWithSrc(s)).Some? {
      var I := First(n, ImgWithSrc(s)).value;
      ImgMakesParentMatch(n, I, s);
      FoundSomewhere(n, Parent(I), ParentOfImgWithSrc(s));
    }
    if First(n, ParentOfImgWithSrc(s)).Some? {
      ParentQueryAboveImage(n, s);
    }
  }

  /** `node.at_xpath("./xmlns:tag")`: the index of the first child with that tag, from `i` on. */
  function FirstChildTagged(cs: seq<Node>, tag: string, i: nat): (r: Option<nat>)
    requires i <= |cs|
    ensures r.Some? ==> i <= r.value < |cs| && IsElement(cs[r.value], tag)
    ensures r.Some? ==> forall k :: i <= k < r.value ==> !IsElement(cs[k], tag)
    ensures r.None? ==> forall k :: i <= k < |cs| ==> !IsElement(cs[k], tag)
    decreases |cs| - i
  {
    if i == |cs| then None
    else if IsElement(cs[i], tag) then Some(i)
    else FirstChildTagged(cs, tag, i + 1)
  }

  // ---------------------------------------------------------------------------
  // How the edits change the number of matches of a local query
  // ---------------------------------------------------------------------------

  lemma CountAppendChild(t: Node, p: Path, c: Node, q: Query)
    requires ValidPath(t, p) && At(t, p).Element? && IsLocal(q)
    ensures Count(AppendChild(t, p, c), q) == Count(t, q) + Count(c, q)
  {
    var e := At(t, p);
    var e2 := e.(children := e.children + [c]);
    CountReplace(t, p, e2, q);
    CountAllConcat(e.children, [c], q);
    assert [c][..0] == [];
  }

  /** Unlinking child `m` of `cs + [x]` leaves `x` last. */
  lemma DropBeforeLast(cs: seq<Node>, m: nat, x: Node)
    requires m < |cs|
    ensures (cs + [x])[..m] + (cs + [x])[m + 1..] == cs[..m] + cs[m + 1..] + [x]
  {
    assert (cs + [x])[..m] == cs[..m];
    assert (cs + [x])[m + 1..] == cs[m + 1..] + [x];
  }

  lemma CountAllInsert(cs: seq<Node>, i: nat, c: Node, q: Query)
    requires i <= |cs|
    ensures CountAll(cs[..i] + [c] + cs[i..], q) == CountAll(cs, q) + Count(c, q)
  {
    var pre, post := cs[..i], cs[i..];
    assert CountAll([c], q) == Count(c, q) by { assert [c][..0] == []; }
    assert CountAll(pre + [c], q) == CountAll(pre, q) + Count(c, q) by { CountAllConcat(pre, [c], q); }
    assert CountAll(pre + [c] + post, q) == CountAll(pre + [c], q) + CountAll(post, q) by {
      CountAllConcat(pre + [c], post, q);
    }
    assert CountAll(cs, q) == CountAll(pre, q) + CountAll(post, q) by {
      assert pre + post == cs;
      CountAllConcat(pre, post, q);
    }
  }

  lemma CountInsertChild(t: Node, p: Path, i: nat, c: Node, q: Query)
    requires ValidPath(t, p) && At(t, p).Element? && i <= |At(t, p).children| && IsLocal(q)
    ensures Count(InsertChild(t, p, i, c), q) == Count(t, q) + Count(c, q)
  {
    var e := At(t, p);
    var cs := e.children;
    var e2 := e.(children := cs[..i] + [c] + cs[i..]);
    CountReplace(t, p, e2, q);
    CountAllInsert(cs, i, c, q);
  }

  lemma CountRemoveChild(t: Node, p: Path, i: nat, q: Query)
    requires ValidPath(t, p) && At(t, p).Element? && i < |At(t, p).children| && IsLocal(q)
    ensures Count(RemoveChild(t, p, i), q) + Count(At(t, p).children[i], q) == Count(t, q)
  {
    var e := At(t, p);
    var cs := e.children;
    var e2 := e.(children := cs[..i] + cs[i + 1..]);
    CountReplace(t, p, e2, q);
    CountAllConcat(cs[..i], cs[i + 1..], q);
    CountAllSplit(cs, i, q);
  }

  /** With at most one match, any two matching positions are the same one. */
  lemma MatchUnique(n: Node, a: Path, b: Path, q: Query)
    requires Count(n, q) <= 1
    requires ValidPath(n, a) && ValidPath(n, b) && Matches(q, At(n, a)) && Matches(q, At(n, b))
    ensures a == b
  {
    if a != b {
      CountTwo(n, a, b, q);
      assert false;
    }
  }

  /** Replacing a child is rebuilding its parent with that one child changed. */
  lemma ReplaceChildOf(t: Node, p: Path, j: nat, x: Node)
    requires ValidPath(t, p) && At(t, p).Element? && j < |At(t, p).children|
    ensures ValidPath(t, p + [j])
    ensures Replace(t, p + [j], x) == Replace(t, p, At(t, p).(children := At(t, p).children[j := x]))
  {
    assert ValidPath(At(t, p), [j]) by { assert [j][1..] == []; }
    ReplaceNested(t, p, [j], x);
    assert [j][1..] == [];
  }

  /** The first child with a tag is the one before which no child has it. */
  lemma {:induction false} FirstChildTaggedIs(cs: seq<Node>, tag: string, i: nat, v: nat)
    requires i <= v < |cs| && IsElement(cs[v], tag)
    requires forall k :: i <= k < v ==> !IsElement(cs[k], tag)
    ensures FirstChildTagged(cs, tag, i) == Some(v)
    decreases v - i
  {
    if i < v {
      FirstChildTaggedIs(cs, tag, i + 1, v);
    }
  }
}
