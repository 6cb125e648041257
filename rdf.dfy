/** The transformer of scraped records into a Zotero RDF tree
    (rdfparser.py): one `rdf:Description` per record, followed by a
    `bib:Memo` holding the record's content when it has one. The tree is a
    value built child by child; writing it out as XML is not modelled. */
module Rdf {
  import opened Strings
  import opened Decimal
  import opened Records

  /** The element names the transformer uses. */
  datatype Tag =
    | RdfRoot | Description | ItemType | IsReferencedBy | DcTitle | Subject | Abstract
    | Language | Archive | Coverage | Identifier | Uri | Value | DateSubmitted
    | DcDescription | Memo

  /** The qualified name of each element. */
  function QName(t: Tag): string {
    match t
    case RdfRoot => "rdf:RDF"
    case Description => "rdf:Description"
    case ItemType => "z:itemType"
    case IsReferencedBy => "dcterms:isReferencedBy"
    case DcTitle => "dc:title"
    case Subject => "dc:subject"
    case Abstract => "dcterms:abstract"
    case Language => "z:language"
    case Archive => "z:archive"
    case Coverage => "dc:coverage"
    case Identifier => "dc:identifier"
    case Uri => "dcterms:URI"
    case Value => "rdf:value"
    case DateSubmitted => "dcterms:dateSubmitted"
    case DcDescription => "dc:description"
    case Memo => "bib:Memo"
  }

  /** An XML element: tag, attributes in the order they are set, optional
      text and children in the order they are appended. */
  datatype Element = Element(tag: Tag, attrs: seq<(string, string)>, text: Option<string>, children: seq<Element>)

  /** The namespace prefixes and their URIs, in the order they are set on
      the root. */
  const NAMESPACES: seq<(string, string)> := [
    ("rdf", "http://www.w3.org/1999/02/22-rdf-syntax-ns#"),
    ("z", "http://www.zotero.org/namespaces/export#"),
    ("dcterms", "http://purl.org/dc/terms/"),
    ("dc", "http://purl.org/dc/elements/1.1/"),
    ("bib", "http://purl.org/net/biblio#")]

  /** The root's attributes: one `xmlns:<prefix>` declaration per
      namespace. */
  function NamespaceAttrs(ns: seq<(string, string)>): (r: seq<(string, string)>)
    ensures |r| == |ns|
    ensures forall k :: 0 <= k < |ns| ==> r[k] == ("xmlns:" + ns[k].0, ns[k].1)
    decreases |ns|
  {
    if ns == [] then [] else NamespaceAttrs(ns[..|ns| - 1]) + [("xmlns:" + ns[|ns| - 1].0, ns[|ns| - 1].1)]
  }

  const LANGUAGE := "es"
  const ARCHIVE := "Archivo del Libertador"
  const MEMO_OPEN := "<div data-schema-version=\"9\"><p>"
  const MEMO_CLOSE := "</p></div>"

  /** An element with text and nothing else. */
  function Leaf(tag: Tag, text: string): Element {
    Element(tag, [], Some(text), [])
  }

  /** What `_add_element(parent, tag, text)` appends: one leaf for a
      present, non-empty text, nothing otherwise. */
  function Opt(tag: Tag, text: Option<string>): seq<Element> {
    if Truthy(text) then [Leaf(tag, text.value)] else []
  }

  /** `_add_element`: append a leaf with the text when the text is present
      and non-empty, and return it; otherwise leave the parent alone and
      return `None`. */
  method AddElement(parent: Element, tag: Tag, text: Option<string>) returns (parent': Element, elem: Option<Element>)
    ensures parent' == parent.(children := parent.children + Opt(tag, text))
    ensures Truthy(text) ==> elem == Some(Leaf(tag, text.value))
    ensures !Truthy(text) ==> elem == None
  {
    if text.Some? && text.value != [] {
      var e := Leaf(tag, text.value);
      parent' := parent.(children := parent.children + [e]);
      elem := Some(e);
    } else {
      parent' := parent;
      elem := None;
    }
  }

  // ---------------------------------------------------------------------
  // The main description

  /** `f"item_{i}"`. */
  function ItemId(i: int): string {
    "item_" + IntToString(i)
  }

  /** Different positions get different item ids. */
  lemma {:induction false} ItemIdInjective(i: int, j: int)
    requires ItemId(i) == ItemId(j)
    ensures i == j
  {
    PrefixedInjective("item_", i, j);
  }

  /** The `dcterms:isReferencedBy` element pointing at the item's memo. */
  function Reference(itemId: string): Element {
    Element(IsReferencedBy, [("rdf:resource", "#" + itemId)], None, [])
  }

  /** One `dc:subject` per comma-separated keyword, stripped, blank ones
      dropped. */
  function Subjects(pieces: seq<string>): seq<Element>
    decreases |pieces|
  {
    if pieces == [] then []
    else Subjects(pieces[..|pieces| - 1]) + Opt(Subject, Some(Strip(pieces[|pieces| - 1])))
  }

  /** The subjects of the keywords field, none when it is absent or empty. */
  function KeywordSubjects(keywords: Option<string>): seq<Element> {
    if Truthy(keywords) then Subjects(SplitOn(keywords.value, ',')) else []
  }

  /** The `dc:identifier` element for a non-empty url. */
  function IdentifierOf(url: string): seq<Element> {
    if url != [] then [Element(Identifier, [], None, [Element(Uri, [], None, Opt(Value, Some(url)))])] else []
  }

  /** `Lugar:"<lugares>"` and a newline, then `Gente:<personas>`, each part
      only when its field is present and non-empty. */
  function PlacePeopleText(lugares: Option<string>, personas: Option<string>): string {
    (if Truthy(lugares) then "Lugar:\"" + lugares.value + "\"\n" else "") +
    (if Truthy(personas) then "Gente:" + personas.value else "")
  }

  /** The combined `dc:description`, when lugares or personas is there. */
  function PlacePeople(lugares: Option<string>, personas: Option<string>): seq<Element> {
    if Truthy(lugares) || Truthy(personas) then Opt(DcDescription, Some(Strip(PlacePeopleText(lugares, personas)))) else []
  }

  /** The children of a record's description, in the order
      `_create_main_description` appends them. */
  function MainChildren(doc: Record, itemId: string): seq<Element> {
    Opt(ItemType, Some("document")) + [Reference(itemId)] + Opt(DcTitle, Get(doc, Title)) +
    KeywordSubjects(Get(doc, PalabrasClave)) + Opt(Abstract, Get(doc, Notas)) +
    Opt(Language, Some(LANGUAGE)) + Opt(Archive, Some(ARCHIVE)) + Opt(Coverage, Get(doc, Seccion)) +
    IdentifierOf(doc.url) + Opt(DateSubmitted, Some(doc.scrapedAt)) +
    PlacePeople(Get(doc, Lugares), Get(doc, Personas))
  }

  /** The description `_create_main_description(doc, item_id)` returns. */
  function MainDescription(doc: Record, itemId: string): Element {
    Element(Description, [("rdf:about", doc.url)], None, MainChildren(doc, itemId))
  }

  /** `_create_main_description`. */
  method CreateMainDescription(doc: Record, itemId: string) returns (desc: Element)
    ensures desc == MainDescription(doc, itemId)
  {
    desc := Element(Description, [("rdf:about", doc.url)], None, []);
    var added;
    desc, added := AddElement(desc, ItemType, Some("document"));
    assert desc.children == Opt(ItemType, Some("document"));
    desc := desc.(children := desc.children + [Reference(itemId)]);
    desc, added := AddElement(desc, DcTitle, Get(doc, Title));
    desc := AddKeywords(desc, Get(doc, PalabrasClave));
    desc, added := AddElement(desc, Abstract, Get(doc, Notas));
    desc, added := AddElement(desc, Language, Some(LANGUAGE));
    desc, added := AddElement(desc, Archive, Some(ARCHIVE));
    desc, added := AddElement(desc, Coverage, Get(doc, Seccion));
    desc := AddIdentifier(desc, doc.url);
    desc, added := AddElement(desc, DateSubmitted, Some(doc.scrapedAt));
    desc := AddPlacePeople(desc, Get(doc, Lugares), Get(doc, Personas));
  }

  /** The keyword loop of `_create_main_description`: one subject per
      comma-separated piece of a non-empty keywords field. */
  method AddKeywords(desc: Element, keywords: Option<string>) returns (desc': Element)
    ensures desc' == desc.(children := desc.children + KeywordSubjects(keywords))
  {
    desc' := desc;
    if keywords.Some? && keywords.value != [] {
      var pieces := SplitOn(keywords.value, ',');
      var added;
      for i := 0 to |pieces|
        invariant desc' == desc.(children := desc.children + Subjects(pieces[..i]))
      {
        assert pieces[..i + 1][..i] == pieces[..i];
        ConcatAssoc(desc.children, Subjects(pieces[..i]), Opt(Subject, Some(Strip(pieces[i]))));
        desc', added := AddElement(desc', Subject, Some(Strip(pieces[i])));
      }
      assert pieces[..|pieces|] == pieces;
    } else {
      assert desc.children == desc.children + [];
    }
  }

  /** The url block of `_create_main_description`: a `dc:identifier`
      holding a `dcterms:URI` whose `rdf:value` is the url, when the url
      is non-empty. */
  method AddIdentifier(desc: Element, url: string) returns (desc': Element)
    ensures desc' == desc.(children := desc.children + IdentifierOf(url))
  {
    if url != [] {
      var uri := Element(Uri, [], None, []);
      var added;
      uri, added := AddElement(uri, Value, Some(url));
      assert uri.children == Opt(Value, Some(url));
      var ident := Element(Identifier, [], None, [uri]);
      desc' := desc.(children := desc.children + [ident]);
    } else {
      desc' := desc;
      assert desc.children == desc.children + [];
    }
  }

  /** The closing block of `_create_main_description`: the place and the
      people joined into one stripped `dc:description`. */
  method AddPlacePeople(desc: Element, lugares: Option<string>, personas: Option<string>) returns (desc': Element)
    ensures desc' == desc.(children := desc.children + PlacePeople(lugares, personas))
  {
    desc' := desc;
    if Truthy(lugares) || Truthy(personas) {
      var descText := "";
      if Truthy(lugares) {
        descText := descText + "Lugar:\"" + lugares.value + "\"\n";
      }
      if Truthy(personas) {
        descText := descText + "Gente:" + personas.value;
      }
      assert descText == PlacePeopleText(lugares, personas);
      var added;
      desc', added := AddElement(desc', DcDescription, Some(Strip(descText)));
    } else {
      assert desc.children == desc.children + [];
    }
  }

  /** The keyword subjects are exactly the stripped, non-empty pieces, in
      order. */
  lemma {:induction false} SubjectsSpec(pieces: seq<string>)
    ensures |Subjects(pieces)| == |StrippedNonEmpty(pieces)|
    ensures forall k :: 0 <= k < |Subjects(pieces)| ==> Subjects(pieces)[k] == Leaf(Subject, StrippedNonEmpty(pieces)[k])
    decreases |pieces|
  {
    if pieces != [] {
      SubjectsSpec(pieces[..|pieces| - 1]);
    }
  }

  /** `WithTag(s, t)`: the elements of `s` whose tag is `t`, in order. */
  function WithTag(s: seq<Element>, t: Tag): seq<Element>
    decreases |s|
  {
    if s == [] then [] else WithTag(s[..|s| - 1], t) + (if s[|s| - 1].tag == t then [s[|s| - 1]] else [])
  }

  /** An element is kept exactly when it is in `s` and has tag `t`. */
  lemma {:induction false} WithTagSpec(s: seq<Element>, t: Tag)
    ensures forall e :: e in WithTag(s, t) <==> e in s && e.tag == t
    decreases |s|
  {
    if s != [] {
      WithTagSpec(s[..|s| - 1], t);
      assert s == s[..|s| - 1] + [s[|s| - 1]];
    }
  }

  /** Filtering by tag works piecewise. */
  lemma {:induction false} WithTagConcat(a: seq<Element>, b: seq<Element>, t: Tag)
    ensures WithTag(a + b, t) == WithTag(a, t) + WithTag(b, t)
    decreases |b|
  {
    if b == [] {
      assert a + b == a;
    } else {
      var init := b[..|b| - 1];
      assert (a + b)[..|a + b| - 1] == a + init;
      assert (a + b)[|a + b| - 1] == b[|b| - 1];
      WithTagConcat(a, init, t);
      ConcatAssoc(WithTag(a, t), WithTag(init, t), if b[|b| - 1].tag == t then [b[|b| - 1]] else []);
    }
  }

  /** A run of elements all tagged `u` is kept whole for `u` and dropped for
      any other tag. */
  lemma {:induction false} WithTagUniform(s: seq<Element>, u: Tag, t: Tag)
    requires AllTagged(s, u)
    ensures WithTag(s, t) == if u == t then s else []
    decreases |s|
  {
    if s != [] {
      var init := s[..|s| - 1];
      assert AllTagged(init, u) by {
        assert forall k :: 0 <= k < |init| ==> init[k] == s[k];
      }
      WithTagUniform(init, u, t);
      assert s[|s| - 1].tag == u;
      if u == t {
        assert s == init + [s[|s| - 1]];
      }
    }
  }

  /** Every keyword subject is a `dc:subject`. */
  lemma {:induction false} SubjectsTags(pieces: seq<string>)
    ensures forall k :: 0 <= k < |Subjects(pieces)| ==> Subjects(pieces)[k].tag == Subject
    decreases |pieces|
  {
    if pieces != [] {
      SubjectsTags(pieces[..|pieces| - 1]);
    }
  }

  /** The children of a description that carry tag `t`, read off the fields
      of the record one tag at a time. */
  function Tagged(doc: Record, itemId: string, t: Tag): seq<Element> {
    match t
    case ItemType => [Leaf(ItemType, "document")]
    case IsReferencedBy => [Reference(itemId)]
    case DcTitle => Opt(DcTitle, Get(doc, Title))
    case Subject => KeywordSubjects(Get(doc, PalabrasClave))
    case Abstract => Opt(Abstract, Get(doc, Notas))
    case Language => [Leaf(Language, LANGUAGE)]
    case Archive => [Leaf(Archive, ARCHIVE)]
    case Coverage => Opt(Coverage, Get(doc, Seccion))
    case Identifier => IdentifierOf(doc.url)
    case DateSubmitted => Opt(DateSubmitted, Some(doc.scrapedAt))
    case DcDescription => PlacePeople(Get(doc, Lugares), Get(doc, Personas))
    case _ => []
  }

  /** Every element of `s` is tagged `u`. */
  predicate AllTagged(s: seq<Element>, u: Tag) {
    forall k :: 0 <= k < |s| ==> s[k].tag == u
  }

  /** The runs of a description in the order they are appended, one tag
      per run: filtering by a tag keeps just its run. */
  lemma {:induction false} WithTagRuns(c1: seq<Element>, c2: seq<Element>, c3: seq<Element>, c4: seq<Element>,
                                       c5: seq<Element>, c6: seq<Element>, c7: seq<Element>, c8: seq<Element>,
                                       c9: seq<Element>, c10: seq<Element>, c11: seq<Element>, t: Tag)
    requires AllTagged(c1, ItemType) && AllTagged(c2, IsReferencedBy) && AllTagged(c3, DcTitle)
    requires AllTagged(c4, Subject) && AllTagged(c5, Abstract) && AllTagged(c6, Language)
    requires AllTagged(c7, Archive) && AllTagged(c8, Coverage) && AllTagged(c9, Identifier)
    requires AllTagged(c10, DateSubmitted) && AllTagged(c11, DcDescription)
    ensures WithTag(c1 + c2 + c3 + c4 + c5 + c6 + c7 + c8 + c9 + c10 + c11, t) ==
      match t
      case ItemType => c1 case IsReferencedBy => c2 case DcTitle => c3 case Subject => c4
      case Abstract => c5 case Language => c6 case Archive => c7 case Coverage => c8
      case Identifier => c9 case DateSubmitted => c10 case DcDescription => c11 case _ => []
  {
    WithTagUniform(c1, ItemType, t);
    WithTagStep(c1, c2, IsReferencedBy, t);
    WithTagStep(c1 + c2, c3, DcTitle, t);
    WithTagStep(c1 + c2 + c3, c4, Subject, t);
    WithTagStep(c1 + c2 + c3 + c4, c5, Abstract, t);
    WithTagStep(c1 + c2 + c3 + c4 + c5, c6, Language, t);
    WithTagStep(c1 + c2 + c3 + c4 + c5 + c6, c7, Archive, t);
    WithTagStep(c1 + c2 + c3 + c4 + c5 + c6 + c7, c8, Coverage, t);
    WithTagStep(c1 + c2 + c3 + c4 + c5 + c6 + c7 + c8, c9, Identifier, t);
    WithTagStep(c1 + c2 + c3 + c4 + c5 + c6 + c7 + c8 + c9, c10, DateSubmitted, t);
    WithTagStep(c1 + c2 + c3 + c4 + c5 + c6 + c7 + c8 + c9 + c10, c11, DcDescription, t);
  }

  /** Appending a run tagged `u` adds the whole run to the filter by `u`
      and nothing to the filter by any other tag. */
  lemma {:induction false} WithTagStep(s: seq<Element>, c: seq<Element>, u: Tag, t: Tag)
    requires AllTagged(c, u)
    ensures u == t ==> WithTag(s + c, t) == WithTag(s, t) + c
    ensures u != t ==> WithTag(s + c, t) == WithTag(s, t)
  {
    WithTagConcat(s, c, t);
    WithTagUniform(c, u, t);
    assert WithTag(s, t) + [] == WithTag(s, t);
  }

  /** For every tag, the description's children with that tag are exactly
      the ones its field calls for: one item type, one back-reference, one
      language and one archive always; the title, abstract, coverage and
      submission date when their fields are non-empty; one subject per
      keyword; the identifier for a non-empty url; the place-and-people
      description; and nothing with any other tag. */
  lemma {:induction false} MainChildrenByTag(doc: Record, itemId: string, t: Tag)
    ensures WithTag(MainDescription(doc, itemId).children, t) == Tagged(doc, itemId, t)
  {
    var c1 := Opt(ItemType, Some("document"));
    var c2 := [Reference(itemId)];
    var c3 := Opt(DcTitle, Get(doc, Title));
    var c4 := KeywordSubjects(Get(doc, PalabrasClave));
    var c5 := Opt(Abstract, Get(doc, Notas));
    var c6 := Opt(Language, Some(LANGUAGE));
    var c7 := Opt(Archive, Some(ARCHIVE));
    var c8 := Opt(Coverage, Get(doc, Seccion));
    var c9 := IdentifierOf(doc.url);
    var c10 := Opt(DateSubmitted, Some(doc.scrapedAt));
    var c11 := PlacePeople(Get(doc, Lugares), Get(doc, Personas));
    if Truthy(Get(doc, PalabrasClave)) {
      SubjectsTags(SplitOn(Get(doc, PalabrasClave).value, ','));
    }
    WithTagRuns(c1, c2, c3, c4, c5, c6, c7, c8, c9, c10, c11, t);
  }

  /** The identifier is there exactly when the url is non-empty, and then
      it is the only one and holds the url. */
  lemma {:induction false} MainDescriptionIdentifier(doc: Record, itemId: string)
    ensures WithTag(MainDescription(doc, itemId).children, Identifier) ==
      if doc.url != [] then [Element(Identifier, [], None, [Element(Uri, [], None, [Leaf(Value, doc.url)])])] else []
  {
    MainChildrenByTag(doc, itemId, Identifier);
  }

  /** The subjects of a description are the stripped, non-empty
      comma-separated keywords, in order, and none without keywords. */
  lemma {:induction false} MainDescriptionSubjects(doc: Record, itemId: string)
    ensures var ks := Get(doc, PalabrasClave);
      var words := if Truthy(ks) then StrippedNonEmpty(SplitOn(ks.value, ',')) else [];
      var subjects := WithTag(MainDescription(doc, itemId).children, Subject);
      |subjects| == |words| && forall k :: 0 <= k < |words| ==> subjects[k] == Leaf(Subject, words[k])
  {
    MainChildrenByTag(doc, itemId, Subject);
    var ks := Get(doc, PalabrasClave);
    if Truthy(ks) {
      SubjectsSpec(SplitOn(ks.value, ','));
    }
  }

  /** A description has a `dc:description` exactly when the record has
      lugares or personas, and at most one. */
  lemma {:induction false} MainDescriptionPlacePeople(doc: Record, itemId: string)
    ensures var found := WithTag(MainDescription(doc, itemId).children, DcDescription);
      |found| <= 1 && (found != [] <==> Truthy(Get(doc, Lugares)) || Truthy(Get(doc, Personas)))
  {
    MainChildrenByTag(doc, itemId, DcDescription);
    PlacePeopleSpec(Get(doc, Lugares), Get(doc, Personas));
  }

  /** Every description points at the record's url and starts with the
      item type and the back-reference to `#item_id`. */
  lemma {:induction false} MainDescriptionFixed(doc: Record, itemId: string)
    ensures var d := MainDescription(doc, itemId);
      d.tag == Description && d.attrs == [("rdf:about", doc.url)] && d.text == None &&
      |d.children| >= 2 && d.children[0] == Leaf(ItemType, "document") &&
      d.children[1] == Reference(itemId)
  {
    var c := MainChildren(doc, itemId);
    var head := Opt(ItemType, Some("document")) + [Reference(itemId)];
    assert c[..2] == head;
  }

  /** Right-stripping a string that ends in a non-space character strips
      only what follows it. */
  lemma {:induction false} RStripAfter(x: string, p: string)
    requires x != [] && !IsSpace(x[|x| - 1])
    ensures RStrip(x + p) == x + RStrip(p)
    decreases |p|
  {
    if p == [] {
      assert x + p == x;
    } else if IsSpace(p[|p| - 1]) {
      assert (x + p)[..|x + p| - 1] == x + p[..|p| - 1];
      RStripAfter(x, p[..|p| - 1]);
    } else {
      assert (x + p)[|x + p| - 1] == p[|p| - 1];
    }
  }

  /** At most one `dc:description`: there with lugares or personas. Its
      text is the quoted place, a newline and the people, and the strip only
      ever removes the newline after a lone place and the whitespace at the
      end of the people. */
  lemma {:induction false} PlacePeopleSpec(lugares: Option<string>, personas: Option<string>)
    ensures PlacePeople(lugares, personas) != [] <==> Truthy(lugares) || Truthy(personas)
    ensures Truthy(lugares) && !Truthy(personas) ==>
      PlacePeople(lugares, personas) == [Leaf(DcDescription, "Lugar:\"" + lugares.value + "\"")]
    ensures Truthy(lugares) && Truthy(personas) ==>
      PlacePeople(lugares, personas) ==
        [Leaf(DcDescription, "Lugar:\"" + lugares.value + "\"\n" + "Gente:" + RStrip(personas.value))]
    ensures !Truthy(lugares) && Truthy(personas) ==>
      PlacePeople(lugares, personas) == [Leaf(DcDescription, "Gente:" + RStrip(personas.value))]
  {
    if Truthy(lugares) && !Truthy(personas) {
      PlaceOnly(lugares.value, personas);
    } else if Truthy(lugares) {
      PlaceAndPeople(lugares.value, personas.value);
    } else if Truthy(personas) {
      PeopleOnly(lugares, personas.value);
    }
  }

  lemma {:induction false} PlaceOnly(l: string, personas: Option<string>)
    requires l != [] && !Truthy(personas)
    ensures PlacePeople(Some(l), personas) == [Leaf(DcDescription, "Lugar:\"" + l + "\"")]
  {
    var t := PlacePeopleText(Some(l), personas);
    var h := "Lugar:\"" + l + "\"";
    assert t == h + "\n";
    StripAfterHead(h, "\n");
    assert RStrip("\n") == [];
    assert Strip(t) == h + [] == h;
  }

  lemma {:induction false} PlaceAndPeople(l: string, p: string)
    requires l != [] && p != []
    ensures PlacePeople(Some(l), Some(p)) == [Leaf(DcDescription, "Lugar:\"" + l + "\"\n" + "Gente:" + RStrip(p))]
  {
    var h := "Lugar:\"" + l + "\"\n" + "Gente:";
    assert PlacePeopleText(Some(l), Some(p)) == h + p;
    StripAfterHead(h, p);
  }

  lemma {:induction false} PeopleOnly(lugares: Option<string>, p: string)
    requires !Truthy(lugares) && p != []
    ensures PlacePeople(lugares, Some(p)) == [Leaf(DcDescription, "Gente:" + RStrip(p))]
  {
    assert PlacePeopleText(lugares, Some(p)) == "Gente:" + p;
    StripAfterHead("Gente:", p);
  }

  /** Stripping a string that starts and ends with a non-space head only
      right-strips what follows the head. */
  lemma {:induction false} StripAfterHead(h: string, p: string)
    requires h != [] && !IsSpace(h[0]) && !IsSpace(h[|h| - 1])
    ensures Strip(h + p) == h + RStrip(p)
  {
    assert (h + p)[0] == h[0];
    assert LStrip(h + p) == h + p;
    RStripAfter(h, p);
  }

  // ---------------------------------------------------------------------
  // The memo

  /** The memo's text: the content with each newline turned into `<br>`,
      wrapped for Zotero. */
  function MemoText(content: string): string {
    MEMO_OPEN + ReplaceChar(content, '\n', "<br>") + MEMO_CLOSE
  }

  /** The `bib:Memo` for a record with content. */
  function ContentMemo(content: string, itemId: string): Element {
    Element(Memo, [("rdf:about", "#" + itemId)], None, [Leaf(Value, MemoText(content))])
  }

  /** `_create_content_memo`. `doc['field_6_content']` must be there; the
      caller only asks when it is present and non-empty. */
  method CreateContentMemo(doc: Record, itemId: string) returns (memo: Element)
    requires Get(doc, Content).Some?
    ensures memo == ContentMemo(Get(doc, Content).value, itemId)
  {
    memo := Element(Memo, [("rdf:about", "#" + itemId)], None, []);
    var content := Get(doc, Content).value;
    var htmlContent := ReplaceChar(content, '\n', "<br>");
    var wrappedContent := MEMO_OPEN + htmlContent + MEMO_CLOSE;
    var added;
    memo, added := AddElement(memo, Value, Some(wrappedContent));
  }

  /** The memo text has no newline left, and a content without newlines is
      kept verbatim inside the wrapper. */
  lemma {:induction false} MemoTextSpec(content: string)
    ensures '\n' !in MemoText(content)
    ensures '\n' !in content ==> MemoText(content) == MEMO_OPEN + content + MEMO_CLOSE
  {
    assert '\n' !in "<br>";
    assert '\n' !in MEMO_OPEN && '\n' !in MEMO_CLOSE;
    if '\n' !in content {
      ReplaceCharAbsent(content, '\n', "<br>");
    }
  }

  /** Line by line: the memo of two lines is their texts around `<br>`. */
  lemma {:induction false} MemoTextLines(a: string, b: string)
    requires '\n' !in a && '\n' !in b
    ensures MemoText(a + "\n" + b) == MEMO_OPEN + (a + "<br>" + b) + MEMO_CLOSE
  {
    ReplaceCharConcat(a + "\n", b, '\n', "<br>");
    ReplaceCharConcat(a, "\n", '\n', "<br>");
    ReplaceCharAbsent(a, '\n', "<br>");
    ReplaceCharAbsent(b, '\n', "<br>");
    assert ReplaceChar("\n", '\n', "<br>") == "<br>";
    assert ReplaceChar(a + "\n" + b, '\n', "<br>") == a + "<br>" + b;
  }

  // ---------------------------------------------------------------------
  // The whole tree

  /** The elements of the blocks, block after block. */
  function Flatten<T>(blocks: seq<seq<T>>): seq<T>
    decreases |blocks|
  {
    if blocks == [] then [] else Flatten(blocks[..|blocks| - 1]) + blocks[|blocks| - 1]
  }

  lemma {:induction false} FlattenSnoc<T>(blocks: seq<seq<T>>, b: seq<T>)
    ensures Flatten(blocks + [b]) == Flatten(blocks) + b
  {
    assert (blocks + [b])[..|blocks|] == blocks;
  }

  /** Block `i` occupies the positions right after the blocks before it. */
  lemma {:induction false} FlattenLayout<T>(blocks: seq<seq<T>>, i: nat)
    requires i < |blocks|
    ensures var p := |Flatten(blocks[..i])|;
      p + |blocks[i]| <= |Flatten(blocks)| &&
      Flatten(blocks)[..p] == Flatten(blocks[..i]) &&
      Flatten(blocks)[p..p + |blocks[i]|] == blocks[i]
    decreases |blocks|
  {
    var init := blocks[..|blocks| - 1];
    if i == |blocks| - 1 {
      assert init == blocks[..i];
    } else {
      assert init[..i] == blocks[..i] && init[i] == blocks[i];
      FlattenLayout(init, i);
      var p := |Flatten(blocks[..i])|;
      PrefixSlice(Flatten(init), blocks[|blocks| - 1], 0, p);
      PrefixSlice(Flatten(init), blocks[|blocks| - 1], p, p + |blocks[i]|);
    }
  }

  /** What the loop of `json_to_rdf` appends for the `i`-th record
      (1-based): its description and, for a non-empty content, its memo. */
  function ItemElements(doc: Record, i: int): seq<Element> {
    [MainDescription(doc, ItemId(i))] +
    (if Truthy(Get(doc, Content)) then [ContentMemo(Get(doc, Content).value, ItemId(i))] else [])
  }

  /** Each record's elements, numbered from 1. */
  function ItemBlocks(docs: seq<Record>): (r: seq<seq<Element>>)
    ensures |r| == |docs|
  {
    seq(|docs|, k requires 0 <= k < |docs| => ItemElements(docs[k], k + 1))
  }

  lemma {:induction false} ItemBlocksPrefix(docs: seq<Record>, i: nat)
    requires i < |docs|
    ensures ItemBlocks(docs[..i + 1]) == ItemBlocks(docs[..i]) + [ItemElements(docs[i], i + 1)]
  {
  }

  /** The root's children after the loop has gone through `docs`. */
  function Items(docs: seq<Record>): seq<Element> {
    Flatten(ItemBlocks(docs))
  }

  /** The tree `json_to_rdf` writes out. */
  function RdfTree(docs: seq<Record>): Element {
    Element(RdfRoot, NamespaceAttrs(NAMESPACES), None, Items(docs))
  }

  /** `json_to_rdf` without the final write. */
  method JsonToRdf(docs: seq<Record>) returns (root: Element)
    ensures root == RdfTree(docs)
  {
    root := Element(RdfRoot, [], None, []);
    for k := 0 to |NAMESPACES|
      invariant root == Element(RdfRoot, NamespaceAttrs(NAMESPACES[..k]), None, [])
    {
      assert NAMESPACES[..k + 1][..k] == NAMESPACES[..k];
      root := root.(attrs := root.attrs + [("xmlns:" + NAMESPACES[k].0, NAMESPACES[k].1)]);
    }
    assert NAMESPACES[..|NAMESPACES|] == NAMESPACES;
    for i := 0 to |docs|
      invariant root == Element(RdfRoot, NamespaceAttrs(NAMESPACES), None, Items(docs[..i]))
    {
      var doc := docs[i];
      var itemId := ItemId(i + 1);
      var desc := CreateMainDescription(doc, itemId);
      ItemBlocksPrefix(docs, i);
      FlattenSnoc(ItemBlocks(docs[..i]), ItemElements(doc, i + 1));
      ghost var before := root.children;
      root := root.(children := root.children + [desc]);
      var content := Get(doc, Content);
      if content.Some? && content.value != [] {
        var memo := CreateContentMemo(doc, itemId);
        root := root.(children := root.children + [memo]);
        assert root.children == before + ([desc] + [memo]);
      } else {
        assert root.children == before + ([desc] + []);
      }
    }
    assert docs[..|docs|] == docs;
  }

  /** Record `i` (0-based) owns the positions from `|Items(docs[..i])|` on:
      its description there, pointing at `#item_<i+1>`, then its memo for the
      same item exactly when its content is non-empty; the next record's
      elements begin right after. */
  lemma {:induction false} ItemsLayout(docs: seq<Record>, i: nat)
    requires i < |docs|
    ensures var p := |Items(docs[..i])|;
      var hasMemo := Truthy(Get(docs[i], Content));
      |Items(docs[..i + 1])| == p + (if hasMemo then 2 else 1) &&
      p < |Items(docs)| && Items(docs)[p] == MainDescription(docs[i], ItemId(i + 1)) &&
      (hasMemo ==> p + 1 < |Items(docs)| && Items(docs)[p + 1] == ContentMemo(Get(docs[i], Content).value, ItemId(i + 1)))
  {
    var blocks := ItemBlocks(docs);
    assert ItemBlocks(docs[..i]) == blocks[..i];
    ItemBlocksPrefix(docs, i);
    FlattenSnoc(blocks[..i], blocks[i]);
    FlattenLayout(blocks, i);
    var p := |Flatten(blocks[..i])|;
    assert Items(docs)[p] == Items(docs)[p..p + |blocks[i]|][0];
    if Truthy(Get(docs[i], Content)) {
      assert Items(docs)[p + 1] == Items(docs)[p..p + |blocks[i]|][1];
    }
  }

  /** One description per record and one memo per record with content. */
  function MemoCount(docs: seq<Record>): nat
    decreases |docs|
  {
    if docs == [] then 0
    else MemoCount(docs[..|docs| - 1]) + (if Truthy(Get(docs[|docs| - 1], Content)) then 1 else 0)
  }

  lemma {:induction false} ItemsCount(docs: seq<Record>)
    ensures |Items(docs)| == |docs| + MemoCount(docs)
    decreases |docs|
  {
    if docs != [] {
      var i := |docs| - 1;
      ItemsCount(docs[..i]);
      ItemBlocksPrefix(docs, i);
      FlattenSnoc(ItemBlocks(docs[..i]), ItemElements(docs[i], i + 1));
      assert docs[..i + 1] == docs;
    }
  }

  /** A description's back-reference and the memo of the same record name
      the same item, `#item_<i>`. */
  lemma {:induction false} BackReference(doc: Record, i: int, content: string)
    ensures MainDescription(doc, ItemId(i)).children[1].attrs == [("rdf:resource", "#item_" + IntToString(i))]
    ensures ContentMemo(content, ItemId(i)).attrs == [("rdf:about", "#item_" + IntToString(i))]
  {
    MainDescriptionFixed(doc, ItemId(i));
    assert "#" + ItemId(i) == "#item_" + IntToString(i);
  }
}
