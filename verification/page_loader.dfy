/** The link extraction and rewriting of the page loader: which resource
    references of a fetched page are collected, what local path each one
    gets, how the page's attributes are rewritten to point at the local
    copies, and which (address, local path) pairs are handed on for
    download. */
module PageLoader {
  import opened Dom
  import opened Subsequences

  /** A row of the tag table: a resource-bearing tag and the attribute that
      holds its address. */
  datatype TagType = TagType(tag: string, attr: string)

  /** The tag table, in the order its keys are enumerated. */
  const TagTypes: seq<TagType> :=
    [TagType("img", "src"), TagType("link", "href"), TagType("script", "src")]

  /** A collected reference: the tag it was found on, its attribute value
      and the local path chosen for it. */
  datatype Link = Link(tag: string, urlPath: string, localPath: string)

  /** An entry of the list handed on for download. */
  datatype LocalLink = LocalLink(urlPath: string, localPath: string)

  predicate IsResourceTag(tag: string) {
    exists k :: 0 <= k < |TagTypes| && TagTypes[k].tag == tag
  }

  /** The attribute the first row for `tag` names. */
  function Lookup(table: seq<TagType>, tag: string): (attr: string)
    requires exists k :: 0 <= k < |table| && table[k].tag == tag
    ensures exists k :: 0 <= k < |table| && table[k] == TagType(tag, attr)
  {
    if table[0].tag == tag then table[0].attr
    else
      var k :| 0 <= k < |table| && table[k].tag == tag;
      assert table[1..][k - 1] == table[k];
      Lookup(table[1..], tag)
  }

  /** `tagTypes[tag]`. */
  function AttributeOf(tag: string): (attr: string)
    requires IsResourceTag(tag)
    ensures TagType(tag, attr) in TagTypes
  {
    Lookup(TagTypes, tag)
  }

  /** Every row of the table is the one `tagTypes[tag]` finds. */
  lemma AttributeOfRow(k: nat)
    requires k < |TagTypes|
    ensures IsResourceTag(TagTypes[k].tag) && AttributeOf(TagTypes[k].tag) == TagTypes[k].attr
  {
    assert IsResourceTag(TagTypes[k].tag);
    var attr := AttributeOf(TagTypes[k].tag);
    var j :| 0 <= j < |TagTypes| && TagTypes[j] == TagType(TagTypes[k].tag, attr);
    assert j == k;
  }

  // ----------------------------------------------------------------------
  // findLinks

  /** `$(tag[attr]).not([attr^='http']).not([attr^='#'])`, for one element. */
  predicate IsCandidate(e: Element, t: TagType) {
    HasAttr(e, t.tag, t.attr) && !AttrStartsWith(e, t.attr, "http") && !AttrStartsWith(e, t.attr, "#")
  }

  function CandidateOf(t: TagType): Element -> bool {
    (e: Element) => IsCandidate(e, t)
  }

  /** The local path of a reference: the page address for a reference to
      the page itself, the derived path name otherwise. */
  function LocalPathOf(urlPath: string, host: string, currentPage: string, getPathName: string -> string)
    : string
  {
    if urlPath == currentPage then host else getPathName(urlPath)
  }

  function NewLink(t: TagType, e: Element, host: string, currentPage: string, getPathName: string -> string)
    : Link
    requires t.attr in e.attrs
  {
    var urlPath := e.attrs[t.attr];
    Link(t.tag, urlPath, LocalPathOf(urlPath, host, currentPage, getPathName))
  }

  /** The links one row of the table contributes, in document order. */
  function LinksOfTag(doc: seq<Element>, t: TagType, host: string, currentPage: string,
                      getPathName: string -> string): (links: seq<Link>)
    decreases |doc|
  {
    if doc == [] then []
    else
      var rest := LinksOfTag(doc[..|doc| - 1], t, host, currentPage, getPathName);
      var e := doc[|doc| - 1];
      if IsCandidate(e, t) then rest + [NewLink(t, e, host, currentPage, getPathName)] else rest
  }

  /** The links of the first `n` rows of the table, row by row. */
  function LinksOfTable(doc: seq<Element>, n: nat, host: string, currentPage: string,
                        getPathName: string -> string): seq<Link>
    requires n <= |TagTypes|
  {
    if n == 0 then []
    else LinksOfTable(doc, n - 1, host, currentPage, getPathName)
         + LinksOfTag(doc, TagTypes[n - 1], host, currentPage, getPathName)
  }

  /** What `findLinks` collects from a page. */
  function FoundLinks(doc: seq<Element>, host: string, currentPage: string, getPathName: string -> string)
    : seq<Link>
  {
    LinksOfTable(doc, |TagTypes|, host, currentPage, getPathName)
  }

  /** `findLinks`: one pass over the page per row of the table, pushing
      every candidate onto `links`. */
  method FindLinks(dom: array<Element>, host: string, currentPage: string, getPathName: string -> string)
    returns (links: seq<Link>)
    ensures links == FoundLinks(dom[..], host, currentPage, getPathName)
  {
    links := [];
    for k := 0 to |TagTypes|
      invariant links == LinksOfTable(dom[..], k, host, currentPage, getPathName)
    {
      var t := TagTypes[k];
      for i := 0 to dom.Length
        invariant links == LinksOfTable(dom[..], k, host, currentPage, getPathName)
                           + LinksOfTag(dom[..i], t, host, currentPage, getPathName)
      {
        var e := dom[i];
        assert dom[..i + 1][..i] == dom[..i];
        if IsCandidate(e, t) {
          links := links + [NewLink(t, e, host, currentPage, getPathName)];
        }
      }
      assert dom[..dom.Length] == dom[..];
    }
  }

  // ----------------------------------------------------------------------
  // processResources

  /** The value a non-self reference is rewritten to. The template keeps a
      stray ")}" after the local path. */
  function RewrittenValue(relativeDirPath: string, sep: string, localPath: string): (v: string)
    ensures |v| == |relativeDirPath| + |sep| + |localPath| + 2
    ensures relativeDirPath + sep <= v && v[|v| - 2..] == ")}"
  {
    relativeDirPath + sep + localPath + ")}"
  }

  /** One step of the fold: the page after rewriting for `link`. */
  function ApplyLink(doc: seq<Element>, link: Link, host: string, currentPage: string,
                     relativeDirPath: string, sep: string): (r: seq<Element>)
    requires IsResourceTag(link.tag)
    ensures |r| == |doc|
    ensures forall i :: 0 <= i < |doc| ==>
      r[i].tag == doc[i].tag && r[i].attrs.Keys == doc[i].attrs.Keys
    ensures forall i :: 0 <= i < |doc| && Selected(doc[i], link.tag, AttributeOf(link.tag), link.urlPath) ==>
      r[i].attrs[AttributeOf(link.tag)] ==
        (if link.urlPath == currentPage then host else RewrittenValue(relativeDirPath, sep, link.localPath))
    ensures forall i :: 0 <= i < |doc| && !Selected(doc[i], link.tag, AttributeOf(link.tag), link.urlPath) ==>
      r[i] == doc[i]
    ensures forall i, b :: 0 <= i < |doc| && b in doc[i].attrs && b != AttributeOf(link.tag) ==>
      r[i].attrs[b] == doc[i].attrs[b]
  {
    var attr := AttributeOf(link.tag);
    if link.urlPath == currentPage then SetAttrOnMatches(doc, link.tag, attr, link.urlPath, host)
    else SetAttrOnMatches(doc, link.tag, attr, link.urlPath, RewrittenValue(relativeDirPath, sep, link.localPath))
  }

  predicate AllResourceTags(links: seq<Link>) {
    forall k :: 0 <= k < |links| ==> IsResourceTag(links[k].tag)
  }

  /** The page after the fold has rewritten for every link, in order. */
  function RewriteAll(doc: seq<Element>, links: seq<Link>, host: string, currentPage: string,
                      relativeDirPath: string, sep: string): seq<Element>
    requires AllResourceTags(links)
    decreases |links|
  {
    if links == [] then doc
    else
      ApplyLink(RewriteAll(doc, links[..|links| - 1], host, currentPage, relativeDirPath, sep),
                links[|links| - 1], host, currentPage, relativeDirPath, sep)
  }

  /** The accumulator of the fold: self-references add nothing, every
      other link adds its (address, local path) pair. */
  function KeptLinks(links: seq<Link>, currentPage: string): seq<LocalLink>
    decreases |links|
  {
    if links == [] then []
    else
      var acc := KeptLinks(links[..|links| - 1], currentPage);
      var link := links[|links| - 1];
      if link.urlPath == currentPage then acc else acc + [LocalLink(link.urlPath, link.localPath)]
  }

  /** `processResources` on an already loaded page: collect the links,
      then fold over them, rewriting the page in place and accumulating the
      pairs to download. */
  method ProcessResources(dom: array<Element>, host: string, currentPage: string,
                          relativeDirPath: string, sep: string, getPathName: string -> string)
    returns (localLinks: seq<LocalLink>)
    modifies dom
    ensures AllResourceTags(FoundLinks(old(dom[..]), host, currentPage, getPathName))
    ensures dom[..] == RewriteAll(old(dom[..]), FoundLinks(old(dom[..]), host, currentPage, getPathName),
                                  host, currentPage, relativeDirPath, sep)
    ensures localLinks == KeptLinks(FoundLinks(old(dom[..]), host, currentPage, getPathName), currentPage)
  {
    ghost var doc := dom[..];
    var links := FindLinks(dom, host, currentPage, getPathName);
    FoundLinksSound(doc, host, currentPage, getPathName);
    localLinks := [];
    for j := 0 to |links|
      invariant dom[..] == RewriteAll(doc, links[..j], host, currentPage, relativeDirPath, sep)
      invariant localLinks == KeptLinks(links[..j], currentPage)
    {
      var link := links[j];
      var attribute := AttributeOf(link.tag);
      FoldStep(doc, links, j, host, currentPage, relativeDirPath, sep);
      if link.urlPath == currentPage {
        SetAttrOnMatchesInPlace(dom, link.tag, attribute, link.urlPath, host);
      } else {
        SetAttrOnMatchesInPlace(dom, link.tag, attribute, link.urlPath,
                                RewrittenValue(relativeDirPath, sep, link.localPath));
        localLinks := localLinks + [LocalLink(link.urlPath, link.localPath)];
      }
    }
    assert links[..|links|] == links;
  }

  /** One more step of the fold, on both its results. */
  lemma FoldStep(doc: seq<Element>, links: seq<Link>, j: nat, host: string, currentPage: string,
                 relativeDirPath: string, sep: string)
    requires AllResourceTags(links) && j < |links|
    ensures AllResourceTags(links[..j]) && AllResourceTags(links[..j + 1])
    ensures RewriteAll(doc, links[..j + 1], host, currentPage, relativeDirPath, sep) ==
      ApplyLink(RewriteAll(doc, links[..j], host, currentPage, relativeDirPath, sep), links[j],
                host, currentPage, relativeDirPath, sep)
    ensures KeptLinks(links[..j + 1], currentPage) ==
      if links[j].urlPath == currentPage then KeptLinks(links[..j], currentPage)
      else KeptLinks(links[..j], currentPage) + [LocalLink(links[j].urlPath, links[j].localPath)]
  {
    assert links[..j + 1][..j] == links[..j];
  }

  // ----------------------------------------------------------------------
  // Properties of findLinks

  /** The links of one row are exactly the candidates of the page, one per
      candidate element, in document order. */
  lemma {:induction false} LinksOfTagSpec(doc: seq<Element>, t: TagType, host: string, currentPage: string,
                                          getPathName: string -> string)
    ensures var links := LinksOfTag(doc, t, host, currentPage, getPathName);
            var ps := Positions(doc, CandidateOf(t));
            |links| == |ps| &&
            forall k :: 0 <= k < |links| ==>
              ps[k] < |doc| && IsCandidate(doc[ps[k]], t) &&
              links[k] == NewLink(t, doc[ps[k]], host, currentPage, getPathName)
  {
    PositionsSpec(doc, CandidateOf(t));
    if doc != [] {
      var n := |doc| - 1;
      LinksOfTagSpec(doc[..n], t, host, currentPage, getPathName);
      PositionsSpec(doc[..n], CandidateOf(t));
    }
  }

  /** Every link of one row comes from an element of that tag carrying the
      row's attribute with a value that starts neither with "http" nor with
      "#", and its local path is chosen by the self-reference rule. */
  lemma LinksOfTagSound(doc: seq<Element>, t: TagType, host: string, currentPage: string,
                        getPathName: string -> string)
    ensures forall l :: l in LinksOfTag(doc, t, host, currentPage, getPathName) ==>
      l.tag == t.tag && !("http" <= l.urlPath) && !("#" <= l.urlPath) &&
      l.localPath == LocalPathOf(l.urlPath, host, currentPage, getPathName) &&
      exists i :: 0 <= i < |doc| && HasAttr(doc[i], t.tag, t.attr) && doc[i].attrs[t.attr] == l.urlPath
  {
    var links := LinksOfTag(doc, t, host, currentPage, getPathName);
    var ps := Positions(doc, CandidateOf(t));
    LinksOfTagSpec(doc, t, host, currentPage, getPathName);
    forall l | l in links
      ensures exists i :: 0 <= i < |doc| && HasAttr(doc[i], t.tag, t.attr) && doc[i].attrs[t.attr] == l.urlPath
    {
      var k :| 0 <= k < |links| && links[k] == l;
      assert HasAttr(doc[ps[k]], t.tag, t.attr);
    }
  }

  /** The links `findLinks` collects: only elements of a table tag that
      carry that tag's attribute, never a value starting with "http" or
      "#", and a local path chosen by the self-reference rule. */
  lemma FoundLinksSound(doc: seq<Element>, host: string, currentPage: string, getPathName: string -> string)
    ensures var links := FoundLinks(doc, host, currentPage, getPathName);
      AllResourceTags(links) &&
      forall l :: l in links ==>
        IsResourceTag(l.tag) && !("http" <= l.urlPath) && !("#" <= l.urlPath) &&
        l.localPath == LocalPathOf(l.urlPath, host, currentPage, getPathName) &&
        exists i :: 0 <= i < |doc| && HasAttr(doc[i], l.tag, AttributeOf(l.tag)) &&
                    doc[i].attrs[AttributeOf(l.tag)] == l.urlPath
  {
    LinksOfTableSound(doc, |TagTypes|, host, currentPage, getPathName);
  }

  lemma {:induction false} LinksOfTableSound(doc: seq<Element>, n: nat, host: string, currentPage: string,
                                             getPathName: string -> string)
    requires n <= |TagTypes|
    ensures var links := LinksOfTable(doc, n, host, currentPage, getPathName);
      AllResourceTags(links) &&
      forall l :: l in links ==>
        IsResourceTag(l.tag) && !("http" <= l.urlPath) && !("#" <= l.urlPath) &&
        l.localPath == LocalPathOf(l.urlPath, host, currentPage, getPathName) &&
        exists i :: 0 <= i < |doc| && HasAttr(doc[i], l.tag, AttributeOf(l.tag)) &&
                    doc[i].attrs[AttributeOf(l.tag)] == l.urlPath
  {
    if n > 0 {
      LinksOfTableSound(doc, n - 1, host, currentPage, getPathName);
      LinksOfTagSound(doc, TagTypes[n - 1], host, currentPage, getPathName);
      AttributeOfRow(n - 1);
      var links := LinksOfTable(doc, n, host, currentPage, getPathName);
      forall k | 0 <= k < |links| ensures links[k] in links { }
    }
  }

  /** Order across rows: every img link comes before every link link, which
      come before every script link. This only unrolls the table; document
      order within a row is `LinksOfTagSpec` together with `PositionsSpec`. */
  lemma FoundLinksOrder(doc: seq<Element>, host: string, currentPage: string, getPathName: string -> string)
    ensures FoundLinks(doc, host, currentPage, getPathName) ==
      LinksOfTag(doc, TagType("img", "src"), host, currentPage, getPathName) +
      LinksOfTag(doc, TagType("link", "href"), host, currentPage, getPathName) +
      LinksOfTag(doc, TagType("script", "src"), host, currentPage, getPathName)
  {
    assert TagTypes[0] == TagType("img", "src");
    assert TagTypes[1] == TagType("link", "href");
    assert TagTypes[2] == TagType("script", "src");
    assert LinksOfTable(doc, 0, host, currentPage, getPathName) == [];
    assert LinksOfTable(doc, 1, host, currentPage, getPathName) ==
           LinksOfTag(doc, TagTypes[0], host, currentPage, getPathName);
    assert LinksOfTable(doc, 2, host, currentPage, getPathName) ==
           LinksOfTable(doc, 1, host, currentPage, getPathName) +
           LinksOfTag(doc, TagTypes[1], host, currentPage, getPathName);
  }

  // ----------------------------------------------------------------------
  // Properties of processResources

  function IsNotSelf(currentPage: string): Link -> bool {
    (l: Link) => l.urlPath != currentPage
  }

  /** The returned list is exactly the non-self links, one entry per link
      (duplicates kept), in their original order. */
  lemma {:induction false} KeptLinksSpec(links: seq<Link>, currentPage: string)
    ensures var kept := KeptLinks(links, currentPage);
            var ps := Positions(links, IsNotSelf(currentPage));
            |kept| == |ps| &&
            forall k :: 0 <= k < |kept| ==>
              ps[k] < |links| && links[ps[k]].urlPath != currentPage &&
              kept[k] == LocalLink(links[ps[k]].urlPath, links[ps[k]].localPath)
  {
    PositionsSpec(links, IsNotSelf(currentPage));
    if links != [] {
      var n := |links| - 1;
      KeptLinksSpec(links[..n], currentPage);
      PositionsSpec(links[..n], IsNotSelf(currentPage));
    }
  }

  /** No returned entry is a self-reference, and there are never more
      entries than collected links. */
  lemma KeptLinksBounds(links: seq<Link>, currentPage: string)
    ensures |KeptLinks(links, currentPage)| <= |links|
    ensures forall e :: e in KeptLinks(links, currentPage) ==> e.urlPath != currentPage
  {
    var kept := KeptLinks(links, currentPage);
    KeptLinksSpec(links, currentPage);
    assert |Positions(links, IsNotSelf(currentPage))| <= |links|;
    forall e | e in kept ensures e.urlPath != currentPage {
      var k :| 0 <= k < |kept| && kept[k] == e;
    }
  }

  /** Nothing else changes: the rewriting keeps the number and the order of
      the elements, every tag and attribute name, every element whose tag
      is not in the table, and every attribute other than its tag's table
      attribute. */
  lemma {:induction false} RewriteAllFrame(doc: seq<Element>, links: seq<Link>, host: string, currentPage: string,
                                           relativeDirPath: string, sep: string)
    requires AllResourceTags(links)
    ensures var r := RewriteAll(doc, links, host, currentPage, relativeDirPath, sep);
      |r| == |doc| &&
      (forall i :: 0 <= i < |doc| ==> r[i].tag == doc[i].tag && r[i].attrs.Keys == doc[i].attrs.Keys) &&
      (forall i :: 0 <= i < |doc| && !IsResourceTag(doc[i].tag) ==> r[i] == doc[i]) &&
      (forall i, b ::
         0 <= i < |doc| && IsResourceTag(doc[i].tag) && b in doc[i].attrs && b != AttributeOf(doc[i].tag)
         ==> r[i].attrs[b] == doc[i].attrs[b])
  {
    if links != [] {
      var n := |links| - 1;
      RewriteAllFrame(doc, links[..n], host, currentPage, relativeDirPath, sep);
    }
  }

  /** A reference that starts with "#" is never rewritten, whatever links
      precede or follow it. */
  lemma {:induction false} RewriteAllKeepsFragments(doc: seq<Element>, links: seq<Link>, host: string,
                                                    currentPage: string, relativeDirPath: string, sep: string)
    requires AllResourceTags(links)
    requires forall k :: 0 <= k < |links| ==> !("#" <= links[k].urlPath)
    ensures var r := RewriteAll(doc, links, host, currentPage, relativeDirPath, sep);
      |r| == |doc| &&
      forall i :: 0 <= i < |doc| && IsResourceTag(doc[i].tag) && AttrStartsWith(doc[i], AttributeOf(doc[i].tag), "#")
        ==> r[i] == doc[i]
  {
    if links != [] {
      var n := |links| - 1;
      RewriteAllKeepsFragments(doc, links[..n], host, currentPage, relativeDirPath, sep);
    }
  }

  /** The page as `processResources` leaves it keeps every fragment
      reference ("#...") of a table tag's attribute. */
  lemma FragmentReferencesUntouched(doc: seq<Element>, host: string, currentPage: string,
                                    relativeDirPath: string, sep: string, getPathName: string -> string)
    ensures var links := FoundLinks(doc, host, currentPage, getPathName);
      AllResourceTags(links) &&
      var r := RewriteAll(doc, links, host, currentPage, relativeDirPath, sep);
      |r| == |doc| &&
      forall i :: 0 <= i < |doc| && IsResourceTag(doc[i].tag) && AttrStartsWith(doc[i], AttributeOf(doc[i].tag), "#")
        ==> r[i] == doc[i]
  {
    var links := FoundLinks(doc, host, currentPage, getPathName);
    FoundLinksSound(doc, host, currentPage, getPathName);
    forall k | 0 <= k < |links| ensures !("#" <= links[k].urlPath) {
      assert links[k] in links;
    }
    RewriteAllKeepsFragments(doc, links, host, currentPage, relativeDirPath, sep);
  }

  /** The returned list never has more entries than `findLinks` collected,
      and none of them is the page's own path. */
  lemma ProcessResourcesBounds(doc: seq<Element>, host: string, currentPage: string, getPathName: string -> string)
    ensures var links := FoundLinks(doc, host, currentPage, getPathName);
      |KeptLinks(links, currentPage)| <= |links| &&
      forall e :: e in KeptLinks(links, currentPage) ==> e.urlPath != currentPage
  {
    KeptLinksBounds(FoundLinks(doc, host, currentPage, getPathName), currentPage);
  }

  /** Every pair `processResources` returns comes from a collected link:
      its address never starts with "http" or "#", is not the page's own
      path, and its local path is the one derived from that address. */
  lemma ProcessResourcesSound(doc: seq<Element>, host: string, currentPage: string,
                              getPathName: string -> string)
    ensures forall e :: e in KeptLinks(FoundLinks(doc, host, currentPage, getPathName), currentPage) ==>
      !("http" <= e.urlPath) && !("#" <= e.urlPath) && e.urlPath != currentPage &&
      e.localPath == getPathName(e.urlPath)
  {
    var links := FoundLinks(doc, host, currentPage, getPathName);
    var kept := KeptLinks(links, currentPage);
    var ps := Positions(links, IsNotSelf(currentPage));
    KeptLinksSpec(links, currentPage);
    FoundLinksSound(doc, host, currentPage, getPathName);
    forall e | e in kept
      ensures !("http" <= e.urlPath) && !("#" <= e.urlPath) && e.urlPath != currentPage &&
              e.localPath == getPathName(e.urlPath)
    {
      var k :| 0 <= k < |kept| && kept[k] == e;
      assert links[ps[k]] in links;
    }
  }

  // ----------------------------------------------------------------------
  // The prefix-match rewrite, on two small pages

  /** The rewrite for a link also hits every later element whose value
      merely starts with the link's value: an img with src "ht" drags an
      external "http://..." image, which was never collected, into the
      rewrite. */
  lemma PrefixRewriteReachesExternalReference(host: string, relativeDirPath: string, sep: string,
                                              getPathName: string -> string)
    ensures var doc := [Element("img", map["src" := "ht"]),
                        Element("img", map["src" := "http://cdn.example/logo.png"])];
      var links := FoundLinks(doc, host, "/page", getPathName);
      links == [Link("img", "ht", getPathName("ht"))] &&
      AllResourceTags(links) &&
      var r := RewriteAll(doc, links, host, "/page", relativeDirPath, sep);
      |r| == 2 && "src" in r[1].attrs && r[1].attrs["src"] == RewrittenValue(relativeDirPath, sep, getPathName("ht"))
  {
    var doc := [Element("img", map["src" := "ht"]),
                Element("img", map["src" := "http://cdn.example/logo.png"])];
    var img := TagType("img", "src");
    assert !IsCandidate(doc[1], img) by { assert "http" <= doc[1].attrs["src"]; }
    assert doc[..1] == [doc[0]] && doc[..1][..0] == [];
    assert IsCandidate(doc[0], img) by {
      assert doc[0].attrs["src"][0] == 'h' && doc[0].attrs["src"][1] == 't' && |doc[0].attrs["src"]| == 2;
    }
    assert LinksOfTag(doc[..1], img, host, "/page", getPathName) == [Link("img", "ht", getPathName("ht"))];
    assert LinksOfTag(doc, img, host, "/page", getPathName) == [Link("img", "ht", getPathName("ht"))];
    assert LinksOfTag(doc, TagType("link", "href"), host, "/page", getPathName) == [];
    assert LinksOfTag(doc, TagType("script", "src"), host, "/page", getPathName) == [];
    FoundLinksOrder(doc, host, "/page", getPathName);
    AttributeOfRow(0);
    assert Selected(doc[1], "img", "src", "ht");
  }

  /** Two images, the second nested under the first one's path. */
  function NestedImages(): seq<Element> {
    [Element("img", map["src" := "/a"]), Element("img", map["src" := "/a/b"])]
  }

  lemma NestedImagesLinks(host: string, getPathName: string -> string)
    ensures FoundLinks(NestedImages(), host, "/page", getPathName) ==
      [Link("img", "/a", getPathName("/a")), Link("img", "/a/b", getPathName("/a/b"))]
  {
    var doc := NestedImages();
    var img := TagType("img", "src");
    var links := [Link("img", "/a", getPathName("/a")), Link("img", "/a/b", getPathName("/a/b"))];
    assert doc[..1] == [doc[0]] && doc[..1][..0] == [];
    assert IsCandidate(doc[0], img) by { assert doc[0].attrs["src"][0] == '/'; }
    assert IsCandidate(doc[1], img) by { assert doc[1].attrs["src"][0] == '/'; }
    assert LinksOfTag(doc[..1], img, host, "/page", getPathName) == links[..1];
    assert LinksOfTag(doc, img, host, "/page", getPathName) == links;
    assert LinksOfTag(doc, TagType("link", "href"), host, "/page", getPathName) == [];
    assert LinksOfTag(doc, TagType("script", "src"), host, "/page", getPathName) == [];
    FoundLinksOrder(doc, host, "/page", getPathName);
  }

  /** The rewrite for "/a" also rewrites the "/a/b" image; the rewrite for
      "/a/b" then finds nothing to change. */
  lemma NestedImagesRewrite(host: string, first: string, second: string)
    ensures var links := [Link("img", "/a", first), Link("img", "/a/b", second)];
      AllResourceTags(links) &&
      var r := RewriteAll(NestedImages(), links, host, "/page", "site_files", "/");
      |r| == 2 && "src" in r[0].attrs && "src" in r[1].attrs &&
      r[0].attrs["src"] == RewrittenValue("site_files", "/", first) &&
      r[1].attrs["src"] == RewrittenValue("site_files", "/", first)
  {
    var doc := NestedImages();
    var links := [Link("img", "/a", first), Link("img", "/a/b", second)];
    AttributeOfRow(0);
    assert links[..1] == [links[0]] && links[..1][..0] == [];
    var once := RewriteAll(doc, links[..1], host, "/page", "site_files", "/");
    assert RewriteAll(doc, links[..1][..0], host, "/page", "site_files", "/") == doc;
    assert once == ApplyLink(doc, links[0], host, "/page", "site_files", "/");
    assert Selected(doc[0], "img", "src", "/a") && Selected(doc[1], "img", "src", "/a");
    assert once[0].attrs["src"][0] == 's' && once[1].attrs["src"][0] == 's';
    assert !Selected(once[0], "img", "src", "/a/b") && !Selected(once[1], "img", "src", "/a/b");
  }

  /** A link whose elements an earlier, shorter link already rewrote
      matches nothing any more, but its pair is still returned. */
  lemma StaleLinkStillReturned(host: string, getPathName: string -> string)
    ensures var links := FoundLinks(NestedImages(), host, "/page", getPathName);
      links == [Link("img", "/a", getPathName("/a")), Link("img", "/a/b", getPathName("/a/b"))] &&
      AllResourceTags(links) &&
      var r := RewriteAll(NestedImages(), links, host, "/page", "site_files", "/");
      |r| == 2 && "src" in r[0].attrs && "src" in r[1].attrs &&
      r[0].attrs["src"] == RewrittenValue("site_files", "/", getPathName("/a")) &&
      r[1].attrs["src"] == RewrittenValue("site_files", "/", getPathName("/a")) &&
      KeptLinks(links, "/page") ==
        [LocalLink("/a", getPathName("/a")), LocalLink("/a/b", getPathName("/a/b"))]
  {
    NestedImagesLinks(host, getPathName);
    NestedImagesRewrite(host, getPathName("/a"), getPathName("/a/b"));
    var links := FoundLinks(NestedImages(), host, "/page", getPathName);
    assert links[..1] == [links[0]] && links[..1][..0] == [];
    assert KeptLinks(links[..1][..0], "/page") == [];
    assert KeptLinks(links[..1], "/page") == [LocalLink("/a", getPathName("/a"))];
  }
}
