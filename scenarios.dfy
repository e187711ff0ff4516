/**
 * A worked scenario: a document in a namespace `ns` whose root holds an item
 * with one `ContractCode` element and, after the item, a second
 * `ContractCode` element; it sits in a walk next to a file that does not
 * parse and a file whose name is not selected.
 */
module Scenarios {
  import opened Wrappers
  import opened PyStrings
  import opened Xml
  import opened Scanner
  import opened Seqs

  /** The tag `{ns}local`. */
  function Qualified(ns: string, local: string): string {
    "{" + ns + "}" + local
  }

  /** The document: `<Contracts><Item><ContractCode>first</ContractCode></Item><ContractCode>second</ContractCode></Contracts>` in namespace `ns`. */
  function Doc(ns: string, first: string, second: string): Element {
    Element(Qualified(ns, "Contracts"), None,
      [Element(Qualified(ns, "Item"), None, [Element(Qualified(ns, ContractCode), Some(first), [])]),
       Element(Qualified(ns, ContractCode), Some(second), [])])
  }

  /** The walk: the document as `<stem>.XML`, a file that does not parse, and the document again as the backup `<stem>.xml.bak`, whose name is not selected. */
  function Walk(dir: string, stem: string, ns: string, first: string, second: string): seq<WalkEntry> {
    [WalkEntry(dir, stem + ".XML", Parsed(Doc(ns, first, second))),
     WalkEntry(dir, "broken.xml", ParseError),
     WalkEntry(dir, stem + ".xml.bak", Parsed(Doc(ns, first, second)))]
  }

  /** A namespace that ElementTree expands literally: not empty, not the wildcard, and readable back from a root tag. */
  predicate PlainNamespace(ns: string) {
    ns != "" && ns != "*" && '}' !in ns && NoEdgeIn(ns, {'{'})
  }

  /** The candidates of the document are its two `ContractCode` elements, the nested one first. */
  lemma DocCandidates(ns: string, first: string, second: string)
    requires PlainNamespace(ns)
    ensures var d := Doc(ns, first, second);
            Namespace(d.tag) == ns
            && FindAll(d, ns) == [d.children[0].children[0], d.children[1]]
  {
    var d := Doc(ns, first, second);
    var item, a, b := d.children[0], d.children[0].children[0], d.children[1];
    assert [a] + [] == item.children;
    assert [item] + [b] == d.children;
    assert [a] + [b] == [a, b];
    NamespaceOfQualifiedTag(ns, "Contracts");
    assert |Qualified(ns, "Item")| != |Qualified(ns, ContractCode)|;
    assert !Selects(ns, item.tag) && Selects(ns, a.tag) && Selects(ns, b.tag);
    SingletonTail(a);
    SingletonTail(b);
    SingletonTail(item);
    FindAllFirstChild(item.tag, None, a, [], ns);
    FindAllLeaf(a.tag, a.text, ns);
    FindAllLeaf(item.tag, None, ns);
    ConcatEmpty([a]);
    ConcatEmpty([b]);
    assert FindAll(item, ns) == [a];
    FindAllFirstChild(d.tag, None, b, [], ns);
    FindAllLeaf(b.tag, b.text, ns);
    FindAllLeaf(d.tag, None, ns);
    assert FindAll(Element(d.tag, None, [b]), ns) == [b];
    FindAllFirstChild(d.tag, None, item, [b], ns);
    assert Matching([item], ns) == [];
    ConcatEmpty([a]);
  }

  /** The document writes one line per `ContractCode` element whose stripped text is the target, in document order. */
  lemma DocLines(path: string, ns: string, first: string, second: string, target: string)
    requires PlainNamespace(ns)
    ensures FileLines(path, Parsed(Doc(ns, first, second)), target)
         == (if Strip(first) == target then [ReportLine(path, target)] else [])
          + (if Strip(second) == target then [ReportLine(path, target)] else [])
  {
    var d := Doc(ns, first, second);
    DocCandidates(ns, first, second);
    var a, b := d.children[0].children[0], d.children[1];
    var found := FindAll(d, Namespace(d.tag));
    assert found == [a] + [b];
    assert FileLines(path, Parsed(d), target) == MatchLines(path, found, target);
    assert AllHaveText([a]);
    MatchLinesConcat(path, [a], [b], target);
    MatchLinesSingle(path, a, target);
    MatchLinesSingle(path, b, target);
  }

  /** Whatever the document, in a walk shaped like the worked one only the `<stem>.XML` copy writes. */
  lemma ShapedWalkLines(dir: string, stem: string, doc: Element, target: string)
    ensures Scan([WalkEntry(dir, stem + ".XML", Parsed(doc)), WalkEntry(dir, "broken.xml", ParseError), WalkEntry(dir, stem + ".xml.bak", Parsed(doc))], target)
         == FileLines(Join(dir, stem + ".XML"), Parsed(doc), target)
  {
    var e0, e1, e2 := WalkEntry(dir, stem + ".XML", Parsed(doc)), WalkEntry(dir, "broken.xml", ParseError), WalkEntry(dir, stem + ".xml.bak", Parsed(doc));
    ScanThree(e0, e1, e2, target);
    XmlNameExamples(stem);
    assert EntryLines(e1, target) == [] && EntryLines(e2, target) == [];
    ConcatEmpty(EntryLines(e0, target));
  }

  /**
   * In the walk, only the selected, parsed document writes: scanning for a
   * code gives the document's lines for it, and a code that neither element
   * holds gives nothing. The broken file and the backup copy contribute nothing.
   */
  lemma WalkLines(dir: string, stem: string, ns: string, first: string, second: string, target: string)
    requires PlainNamespace(ns)
    ensures Scan(Walk(dir, stem, ns, first, second), target)
         == FileLines(Join(dir, stem + ".XML"), Parsed(Doc(ns, first, second)), target)
    ensures Strip(first) != target && Strip(second) != target ==> Scan(Walk(dir, stem, ns, first, second), target) == []
  {
    ShapedWalkLines(dir, stem, Doc(ns, first, second), target);
    DocLines(Join(dir, stem + ".XML"), ns, first, second, target);
    ConcatEmpty<string>([]);
  }
}
