/**
 * The archive and directory rules around the merge: which uploads count as DAISY
 * books, which directory and which content file are used after extraction, the
 * content file's path inside the archive, and the rewritten archive in which that
 * one member is replaced.
 */
module DaisyArchive {
  import opened Support

  newtype byte = x: int | 0 <= x < 256

  /** One member of a zip archive: its name (a path inside the archive) and its bytes. */
  datatype Entry = Entry(name: string, data: seq<byte>)

  // ---------------------------------------------------------------------------
  // Paths (`File.join`)
  // ---------------------------------------------------------------------------

  predicate StartsWithSlash(s: string) { |s| > 0 && s[0] == '/' }

  predicate EndsWithSlash(s: string) { |s| > 0 && s[|s| - 1] == '/' }

  /** The string without its trailing run of slashes (Ruby's `chompdirsep`). */
  function ChompSlashes(s: string): (r: string)
    ensures |r| <= |s| && r == s[..|r|] && !EndsWithSlash(r)
    ensures forall i :: |r| <= i < |s| ==> s[i] == '/'
    decreases |s|
  {
    if EndsWithSlash(s) then ChompSlashes(s[..|s| - 1]) else s
  }

  /**
   * `File.join(dir, name)`: a name with a leading slash replaces the directory's
   * trailing slashes; otherwise one separator is added unless the directory ends
   * with one.
   */
  function Join(dir: string, name: string): (p: string)
    ensures |p| <= |dir| + 1 + |name|
    ensures !StartsWithSlash(name) ==> |dir| <= |p| && p[..|dir|] == dir
    ensures |p| == |dir| + |name| + 1 <==> !EndsWithSlash(dir) && !StartsWithSlash(name)
  {
    if StartsWithSlash(name) then ChompSlashes(dir) + name
    else if EndsWithSlash(dir) then dir + name
    else dir + "/" + name
  }

  // ---------------------------------------------------------------------------
  // The archive check (`valid_daisy_zip?`, lines 164-181)
  // ---------------------------------------------------------------------------

  /**
   * `/\.ncx$/` matches at `i`: the four characters `.ncx` start there and are
   * followed by the end of the name or by a line break (Ruby's `$` is end of line).
   */
  predicate NcxAt(s: string, i: nat) {
    i + 4 <= |s| && s[i..i + 4] == ".ncx" && (i + 4 == |s| || s[i + 4] == '\n')
  }

  predicate NcxName(s: string) { exists i: nat | i <= |s| :: NcxAt(s, i) }

  predicate EndsWithNcx(s: string) { |s| >= 4 && s[|s| - 4..] == ".ncx" }

  /** On a one-line name the regular expression is exactly the suffix test. */
  lemma NcxNameOfOneLine(s: string)
    requires '\n' !in s
    ensures NcxName(s) <==> EndsWithNcx(s)
  {
    if NcxName(s) {
      forall k: nat | k + 4 < |s| ensures !NcxAt(s, k) {
        assert s[k + 4] in s;
      }
    }
    if EndsWithNcx(s) {
      assert NcxAt(s, |s| - 4);
    }
  }

  /**
   * What `Zip::Archive.open` yields: an archive that cannot be opened, or the
   * entries in archive order, each one either its name or `None` where reading
   * that entry raises.
   */
  datatype ZipListing = Unreadable | Listing(entries: seq<Option<string>>)

  /** The scan of `valid_daisy_zip?`: true at the first `.ncx` name, false at the first error or at the end. */
  function Scan(es: seq<Option<string>>): (found: bool)
    ensures found ==> exists i :: 0 <= i < |es| && es[i].Some? && NcxName(es[i].value)
  {
    if es == [] then false
    else if es[0].None? then false
    else NcxName(es[0].value) || Scan(es[1..])
  }

  function IsDaisyZip(z: ZipListing): (ok: bool)
    ensures ok ==> z.Listing? && exists i :: 0 <= i < |z.entries| && z.entries[i].Some? && NcxName(z.entries[i].value)
  {
    match z
    case Unreadable => false
    case Listing(es) => Scan(es)
  }

  /** An archive is accepted exactly when an `.ncx` entry comes before every unreadable entry. */
  lemma {:induction false} ScanFindsNcx(es: seq<Option<string>>)
    ensures Scan(es) <==>
              exists i :: 0 <= i < |es| && es[i].Some? && NcxName(es[i].value)
                          && forall j :: 0 <= j < i ==> es[j].Some?
  {
    if es != [] && es[0].Some? {
      ScanFindsNcx(es[1..]);
      if Scan(es[1..]) && !NcxName(es[0].value) {
        var i :| 0 <= i < |es[1..]| && es[1..][i].Some? && NcxName(es[1..][i].value)
                 && forall j :: 0 <= j < i ==> es[1..][j].Some?;
        assert forall j :: 0 <= j < i + 1 ==> es[j].Some? by {
          forall j | 0 <= j < i + 1 ensures es[j].Some? {
            if j > 0 { assert es[j] == es[1..][j - 1]; }
          }
        }
        assert es[i + 1] == es[1..][i];
      }
      if !Scan(es[1..]) && !NcxName(es[0].value) {
        forall i | 0 <= i < |es| && es[i].Some? && NcxName(es[i].value)
          ensures exists j :: 0 <= j < i && es[j].None?
        {
          assert i > 0 && es[i] == es[1..][i - 1];
          var j :| 0 <= j < i - 1 && es[1..][j].None?;
          assert es[j + 1] == es[1..][j];
        }
      }
    }
  }

  /** Every name readable: accepted exactly when some entry name matches `.ncx`. */
  lemma ReadableZipAccepted(names: seq<string>)
    ensures IsDaisyZip(Listing(seq(|names|, i requires 0 <= i < |names| => Some(names[i]))))
            <==> exists i :: 0 <= i < |names| && NcxName(names[i])
  {
    var es := seq(|names|, i requires 0 <= i < |names| => Some(names[i]));
    ScanFindsNcx(es);
    if exists i :: 0 <= i < |names| && NcxName(names[i]) {
      var i :| 0 <= i < |names| && NcxName(names[i]);
      assert es[i].Some? && NcxName(es[i].value);
    }
  }

  /** `valid_daisy_zip?`: the scan with its early return; an unreadable archive is not a book. */
  method ValidDaisyZip(z: ZipListing) returns (ok: bool)
    ensures ok == IsDaisyZip(z)
  {
    if z.Unreadable? {
      return false;
    }
    var es := z.entries;
    var i := 0;
    while i < |es|
      invariant 0 <= i <= |es|
      invariant Scan(es) == Scan(es[i..])
    {
      assert es[i..][1..] == es[i + 1..];
      if es[i].None? {
        return false;
      }
      if NcxName(es[i].value) {
        return true;
      }
      i := i + 1;
    }
    return false;
  }

  // ---------------------------------------------------------------------------
  // After extraction (lines 101-108, 203-205, 30-33)
  // ---------------------------------------------------------------------------

  /** `Dir.entries` of the extraction root without `.` and `..`, in listing order. */
  function TopLevelEntries(entries: seq<string>): (r: seq<string>)
    ensures forall e :: e in r <==> e in entries && e != "." && e != ".."
    ensures |r| <= |entries|
  {
    if entries == [] then []
    else
      var rest := TopLevelEntries(entries[1..]);
      assert forall e :: e in entries <==> e == entries[0] || e in entries[1..];
      if entries[0] == "." || entries[0] == ".." then rest else [entries[0]] + rest
  }

  /** The book directory: the single top-level entry if there is exactly one, else the extraction root. */
  function BookDirectory(zipDir: string, entries: seq<string>): (d: string)
    ensures d == zipDir || exists e :: e in entries && e != "." && e != ".." && d == Join(zipDir, e)
  {
    var top := TopLevelEntries(entries);
    if |top| == 1 then
      assert top[0] in top;
      Join(zipDir, top[0])
    else zipDir
  }

  predicate Distinct(names: seq<string>) {
    forall i, j :: 0 <= i < j < |names| ==> names[i] != names[j]
  }

  /** `e` is the only name of the listing besides `.` and `..`. */
  predicate OnlyEntry(entries: seq<string>, e: string) {
    e in entries && e != "." && e != ".."
    && forall f :: f in entries && f != "." && f != ".." ==> f == e
  }

  /** A listing of dot entries alone leaves nothing. */
  lemma {:induction false} OnlyDots(entries: seq<string>)
    requires forall f :: f in entries ==> f == "." || f == ".."
    ensures TopLevelEntries(entries) == []
  {
    if entries != [] {
      assert entries[0] in entries;
      assert forall f :: f in entries[1..] ==> f in entries;
      OnlyDots(entries[1..]);
    }
  }

  /** On a listing without repeated names, an only entry is all that is left. */
  lemma {:induction false} OnlyEntryLeft(entries: seq<string>, e: string)
    requires Distinct(entries) && OnlyEntry(entries, e)
    ensures TopLevelEntries(entries) == [e]
  {
    var tail := entries[1..];
    assert forall f :: f in tail ==> f in entries;
    assert Distinct(tail) by {
      forall i, j | 0 <= i < j < |tail| ensures tail[i] != tail[j] {
        assert tail[i] == entries[i + 1] && tail[j] == entries[j + 1];
      }
    }
    assert entries[0] in entries;
    if entries[0] == "." || entries[0] == ".." {
      assert e in tail;
      OnlyEntryLeft(tail, e);
    } else {
      assert entries[0] == e;
      assert e !in tail by {
        forall k | 0 <= k < |tail| ensures tail[k] != e {
          assert tail[k] == entries[k + 1];
        }
      }
      OnlyDots(tail);
    }
  }

  /**
   * On a listing without repeated names, the book directory is the extraction root
   * joined with the only entry when there is one, and the extraction root otherwise.
   */
  lemma BookDirectoryChoice(zipDir: string, entries: seq<string>)
    requires Distinct(entries)
    ensures forall e :: OnlyEntry(entries, e) ==> BookDirectory(zipDir, entries) == Join(zipDir, e)
    ensures (forall e :: !OnlyEntry(entries, e)) ==> BookDirectory(zipDir, entries) == zipDir
  {
    var top := TopLevelEntries(entries);
    if |top| == 1 {
      assert top[0] in top;
      assert OnlyEntry(entries, top[0]) by {
        forall f | f in entries && f != "." && f != ".." ensures f == top[0] {
          assert f in top;
        }
      }
    }
    forall e | OnlyEntry(entries, e) ensures BookDirectory(zipDir, entries) == Join(zipDir, e) {
      OnlyEntryLeft(entries, e);
    }
  }

  /** `Dir.glob('*.xml')` on one name: ends in `.xml`, and `*` does not match a leading dot. */
  predicate XmlName(name: string) {
    |name| >= 4 && name[|name| - 4..] == ".xml" && name[0] != '.'
  }

  /** The first name of the listing that `*.xml` matches, or nil. */
  function FirstXml(names: seq<string>): (r: Option<string>)
    ensures r.None? <==> forall i :: 0 <= i < |names| ==> !XmlName(names[i])
    ensures r.Some? ==> exists i :: 0 <= i < |names| && XmlName(names[i]) && r.value == names[i]
                                   && forall j :: 0 <= j < i ==> !XmlName(names[j])
  {
    if names == [] then None
    else if XmlName(names[0]) then Some(names[0])
    else
      var r := FirstXml(names[1..]);
      assert forall i :: 0 < i < |names| ==> names[i] == names[1..][i - 1];
      if r.Some? then
        var i :| 0 <= i < |names[1..]| && XmlName(names[1..][i]) && r.value == names[1..][i]
                 && forall j :: 0 <= j < i ==> !XmlName(names[1..][j]);
        assert XmlName(names[i + 1]) && forall j :: 0 <= j < i + 1 ==> !XmlName(names[j]);
        r
      else r
  }

  /** `get_daisy_contents_xml_name`: the first `*.xml` of the book directory's listing, as a path, or nil. */
  function ContentsXmlName(dir: string, names: seq<string>): (r: Option<string>)
    ensures r.None? <==> forall i :: 0 <= i < |names| ==> !XmlName(names[i])
    ensures r.Some? ==> exists i :: 0 <= i < |names| && XmlName(names[i]) && r.value == Join(dir, names[i])
                                   && forall j :: 0 <= j < i ==> !XmlName(names[j])
  {
    match FirstXml(names)
    case None => None
    case Some(n) => Some(Join(dir, n))
  }

  /**
   * The content file's path inside the archive (lines 30-33): the first
   * `|zipDir|` characters are dropped, then one leading `/`. When the content
   * path is shorter than the extraction root, Ruby's slice is nil and the next
   * line raises: `None`.
   */
  function RelativeContentsPath(contents: string, zipDir: string): (r: Option<string>)
    ensures r.None? <==> |zipDir| > |contents|
    ensures r.Some? ==> contents[|zipDir|..] == r.value || contents[|zipDir|..] == "/" + r.value
  {
    if |zipDir| > |contents| then None
    else
      var rest := contents[|zipDir|..];
      if StartsWithSlash(rest) then Some(rest[1..]) else Some(rest)
  }

  /** A path joined under the extraction root comes back as the name it was joined from. */
  lemma RelativeOfJoin(zipDir: string, name: string)
    requires !StartsWithSlash(name)
    ensures RelativeContentsPath(Join(zipDir, name), zipDir) == Some(name)
  {
    var p := Join(zipDir, name);
    if EndsWithSlash(zipDir) {
      assert p[|zipDir|..] == name;
    } else {
      assert p[|zipDir|..] == "/" + name;
      assert ("/" + name)[1..] == name;
    }
  }

  /** A name without `/` neither starts nor ends with one. */
  lemma NoSlashEnds(x: string)
    requires '/' !in x
    ensures !StartsWithSlash(x) && !EndsWithSlash(x)
  {
    assert |x| > 0 ==> x[0] in x && x[|x| - 1] in x;
  }

  /**
   * The member path of the content file found after extraction: the top-level
   * directory's name joined with the file name when there is one top-level entry,
   * the file name alone otherwise. Listed names hold no `/`.
   */
  lemma ContentsMemberPath(zipDir: string, entries: seq<string>, names: seq<string>)
    requires forall e :: e in entries ==> e != "" && '/' !in e
    requires forall n :: n in names ==> '/' !in n
    requires FirstXml(names).Some?
    ensures var top := TopLevelEntries(entries);
            var n := FirstXml(names).value;
            RelativeContentsPath(ContentsXmlName(BookDirectory(zipDir, entries), names).value, zipDir)
            == Some(if |top| == 1 then Join(top[0], n) else n)
  {
    var top := TopLevelEntries(entries);
    var n := FirstXml(names).value;
    assert n in names;
    NoSlashEnds(n);
    if |top| == 1 {
      assert top[0] in top && top[0] in entries;
      NoSlashEnds(top[0]);
      assert |top[0]| > 0;
      JoinAssociates(zipDir, top[0], n);
      RelativeOfJoin(zipDir, Join(top[0], n));
    } else {
      RelativeOfJoin(zipDir, n);
    }
  }

  /**
   * The name always ends a join. With a leading slash it follows the directory
   * less its trailing slashes, so the two meet at the name's own slashes.
   */
  lemma JoinEndsWithName(dir: string, name: string)
    ensures var p := Join(dir, name);
            |p| >= |name| && p[|p| - |name|..] == name
    ensures var p := Join(dir, name);
            var head := p[..|p| - |name|];
            StartsWithSlash(name) ==>
              |head| <= |dir| && head == dir[..|head|] && !EndsWithSlash(head)
              && forall i :: |head| <= i < |dir| ==> dir[i] == '/'
  {
    var p := Join(dir, name);
    if StartsWithSlash(name) {
      var c := ChompSlashes(dir);
      assert p == c + name;
      assert p[..|p| - |name|] == c;
    } else if EndsWithSlash(dir) {
      assert p == dir + name;
    } else {
      assert p == (dir + "/") + name;
    }
  }

  /** Ruby's `File.join("a//", "/b")` is `"a/b"`: the directory's slash run is dropped. */
  lemma JoinDropsSlashRun()
    ensures Join("a//", "/b") == "a/b"
  {
    assert ChompSlashes("a//") == ChompSlashes("a/") == ChompSlashes("a") == "a" by {
      assert "a//"[..2] == "a/" && "a/"[..1] == "a";
    }
  }

  /** `File.join` of two parts that supply no separator themselves. */
  lemma JoinPlain(x: string, y: string)
    requires !EndsWithSlash(x) && !StartsWithSlash(y)
    ensures Join(x, y) == x + "/" + y
  {
  }

  /** `File.join` keeps the separator the directory already ends with. */
  lemma JoinAfterSlash(x: string, y: string)
    requires EndsWithSlash(x) && !StartsWithSlash(y)
    ensures Join(x, y) == x + y
  {
  }

  /** Joining in two steps through a middle name without slashes at its ends. */
  lemma JoinAssociates(a: string, b: string, c: string)
    requires !StartsWithSlash(b) && !EndsWithSlash(b) && |b| > 0 && !StartsWithSlash(c)
    ensures Join(Join(a, b), c) == Join(a, Join(b, c))
  {
    var bc := b + "/" + c;
    var ab := if EndsWithSlash(a) then a + b else a + "/" + b;
    JoinPlain(b, c);
    assert !StartsWithSlash(bc) by { assert bc[0] == b[0]; }
    assert !EndsWithSlash(ab) by { assert ab[|ab| - 1] == b[|b| - 1]; }
    JoinPlain(ab, c);
    if EndsWithSlash(a) {
      JoinAfterSlash(a, b);
      JoinAfterSlash(a, bc);
      assert ab + "/" + c == a + bc;
    } else {
      JoinPlain(a, b);
      JoinPlain(a, bc);
      assert ab + "/" + c == a + "/" + bc;
    }
  }

  // ---------------------------------------------------------------------------
  // The rewritten archive (`create_zip`, lines 286-299)
  // ---------------------------------------------------------------------------

  /** The archive with the data of its first member called `member` replaced. */
  function ReplaceMember(archive: seq<Entry>, member: string, data: seq<byte>): (r: seq<Entry>)
    ensures |r| == |archive|
  {
    if archive == [] then []
    else if archive[0].name == member then [archive[0].(data := data)] + archive[1..]
    else [archive[0]] + ReplaceMember(archive[1..], member, data)
  }

  /** The index of the first member called `member`, if any. */
  function FirstMember(archive: seq<Entry>, member: string): (r: Option<nat>)
    ensures r.Some? ==> r.value < |archive| && archive[r.value].name == member
                        && forall j :: 0 <= j < r.value ==> archive[j].name != member
    ensures r.None? ==> forall j :: 0 <= j < |archive| ==> archive[j].name != member
  {
    if archive == [] then None
    else if archive[0].name == member then Some(0)
    else match FirstMember(archive[1..], member)
      case None =>
        assert forall j :: 0 < j < |archive| ==> archive[j] == archive[1..][j - 1];
        None
      case Some(k) =>
        assert forall j :: 0 < j < |archive| ==> archive[j] == archive[1..][j - 1];
        Some(k + 1)
  }

  /**
   * Only the first member with the name changes, and only its data: every other
   * member, every name and the order stay as they were.
   */
  lemma {:induction false} ReplaceMemberChangesOne(archive: seq<Entry>, member: string, data: seq<byte>)
    ensures FirstMember(archive, member).None? ==> ReplaceMember(archive, member, data) == archive
    ensures FirstMember(archive, member).Some? ==>
              var k := FirstMember(archive, member).value;
              ReplaceMember(archive, member, data) == archive[k := Entry(member, data)]
  {
    if archive != [] && archive[0].name != member {
      ReplaceMemberChangesOne(archive[1..], member, data);
      match FirstMember(archive[1..], member)
      case None =>
      case Some(k) =>
        assert [archive[0]] + archive[1..][k := Entry(member, data)] == archive[k + 1 := Entry(member, data)];
    }
  }

  /** Reading the member back gives the new data. */
  lemma ReadBack(archive: seq<Entry>, member: string, data: seq<byte>)
    requires FirstMember(archive, member).Some?
    ensures var r := ReplaceMember(archive, member, data);
            FirstMember(r, member) == FirstMember(archive, member)
            && r[FirstMember(archive, member).value].data == data
  {
    ReplaceMemberChangesOne(archive, member, data);
    var k := FirstMember(archive, member).value;
    var r := ReplaceMember(archive, member, data);
    FirstMemberAt(r, member, k);
  }

  lemma {:induction false} FirstMemberAt(archive: seq<Entry>, member: string, k: nat)
    requires k < |archive| && archive[k].name == member
    requires forall j :: 0 <= j < k ==> archive[j].name != member
    ensures FirstMember(archive, member) == Some(k)
  {
    if k > 0 {
      assert archive[0].name != member;
      assert forall j :: 0 <= j < k - 1 ==> archive[1..][j] == archive[j + 1];
      FirstMemberAt(archive[1..], member, k - 1);
    }
  }

  lemma {:induction false} NoMember(archive: seq<Entry>, member: string)
    requires forall j :: 0 <= j < |archive| ==> archive[j].name != member
    ensures FirstMember(archive, member) == None
  {
    if archive != [] {
      assert archive[0].name != member;
      assert forall j :: 0 <= j < |archive| - 1 ==> archive[1..][j] == archive[j + 1];
      NoMember(archive[1..], member);
    }
  }

  /** Replacing twice with the same data is replacing once. */
  lemma ReplaceMemberIdempotent(archive: seq<Entry>, member: string, data: seq<byte>)
    ensures ReplaceMember(ReplaceMember(archive, member, data), member, data) == ReplaceMember(archive, member, data)
  {
    ReplaceMemberChangesOne(archive, member, data);
    var r := ReplaceMember(archive, member, data);
    ReplaceMemberChangesOne(r, member, data);
    if FirstMember(archive, member).Some? {
      ReadBack(archive, member, data);
    } else {
      assert r == archive;
    }
  }

  /**
   * `create_zip`: the copy of the old archive, walked by index until the first
   * member with the content file's name, whose buffer is replaced before the walk
   * stops.
   */
  method CreateZip(oldZip: seq<Entry>, contentsName: string, newContents: seq<byte>) returns (newZip: seq<Entry>)
    ensures newZip == ReplaceMember(oldZip, contentsName, newContents)
  {
    var zip := new Entry[|oldZip|](i requires 0 <= i < |oldZip| => oldZip[i]);
    var index := 0;
    while index < zip.Length
      invariant 0 <= index <= zip.Length
      invariant zip[..] == oldZip
      invariant forall j :: 0 <= j < index ==> oldZip[j].name != contentsName
    {
      if zip[index].name == contentsName {
        zip[index] := zip[index].(data := newContents);
        FirstMemberAt(oldZip, contentsName, index);
        ReplaceMemberChangesOne(oldZip, contentsName, newContents);
        break;
      }
      index := index + 1;
    }
    if index == zip.Length {
      ReplaceMemberChangesOne(oldZip, contentsName, newContents);
      NoMember(oldZip, contentsName);
    }
    newZip := zip[..];
  }
}
