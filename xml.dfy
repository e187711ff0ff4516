/**
 * The parsed document as ElementTree presents it, and the two things the code
 * finder asks of it: the namespace taken from the root tag, and
 * `root.findall('.//ns:ContractCode', {'ns': namespace})`.
 */
module Xml {
  import opened Wrappers
  import opened PyStrings

  /**
   * An element: its tag as ElementTree spells it (`{namespace}local`, or just
   * `local` outside any namespace), its text (`None` when the element holds no
   * character data before its first child) and its children in document order.
   */
  datatype Element = Element(tag: string, text: Option<string>, children: seq<Element>)

  /** `e.iter()`: `e` followed by everything below it, in document order (pre-order). */
  function Iter(e: Element): (r: seq<Element>)
    ensures |r| >= 1 && r[0] == e
    decreases e, 1
  {
    [e] + IterAll(e.children)
  }

  /** The elements of a forest of siblings, each followed by its subtree, in document order. */
  function IterAll(es: seq<Element>): seq<Element>
    decreases es, 0
  {
    if es == [] then [] else Iter(es[0]) + IterAll(es[1..])
  }

  /** The proper descendants of `e`, at any depth: what `e.iter()` yields after `e` itself. */
  function Descendants(e: Element): seq<Element> {
    IterAll(e.children)
  }

  /** The number of elements in the subtree of `e`. */
  function Size(e: Element): nat
    decreases e, 1
  {
    1 + SizeAll(e.children)
  }

  function SizeAll(es: seq<Element>): nat
    decreases es, 0
  {
    if es == [] then 0 else Size(es[0]) + SizeAll(es[1..])
  }

  /** No element of a subtree is larger than its root. */
  lemma {:induction false} IterSizes(e: Element)
    ensures forall x :: x in Iter(e) ==> Size(x) <= Size(e)
    decreases e, 1
  {
    IterAllSizes(e.children);
  }

  /** No element of a forest is larger than the forest. */
  lemma {:induction false} IterAllSizes(es: seq<Element>)
    ensures forall x :: x in IterAll(es) ==> Size(x) <= SizeAll(es)
    decreases es, 0
  {
    if es != [] {
      IterSizes(es[0]);
      IterAllSizes(es[1..]);
    }
  }

  /** An element is never one of its own proper descendants, so the root is never a `.//` candidate. */
  lemma RootNotDescendant(e: Element)
    ensures e !in Descendants(e)
  {
    IterAllSizes(e.children);
  }

  /** The local name the code finder looks for. */
  const ContractCode: string := "ContractCode"

  /**
   * The namespace derived from a root tag, `tag.split('}')[0].strip('{')`:
   * the text before the first `}`, without the `{` characters at its ends.
   */
  function Namespace(tag: string): (ns: string)
    ensures '}' !in ns
    ensures NoEdgeIn(ns, {'{'})
  {
    var head := BeforeFirst(tag, '}');
    StripCharsIsPadded(head, {'{'});
    var ns := StripChars(head, {'{'});
    assert forall k :: 0 <= k < |ns| ==> ns[k] in head;
    ns
  }

  /** `split` stops at the first separator. */
  lemma {:induction false} BeforeFirstOfJoined(a: string, sep: char, b: string)
    requires sep !in a
    ensures BeforeFirst(a + [sep] + b, sep) == a
  {
    if a != [] {
      assert (a + [sep] + b)[1..] == a[1..] + [sep] + b;
      BeforeFirstOfJoined(a[1..], sep, b);
    }
  }

  /** For a tag `{ns}local` whose namespace has no `}` and no `{` at its ends, the derived namespace is `ns` itself. */
  lemma NamespaceOfQualifiedTag(ns: string, local: string)
    requires '}' !in ns && NoEdgeIn(ns, {'{'})
    ensures Namespace("{" + ns + "}" + local) == ns
  {
    assert "{" + ns + "}" + local == ("{" + ns) + ['}'] + local;
    BeforeFirstOfJoined("{" + ns, '}', local);
    assert "{" + ns == "{" + ns + "";
    StripCharsOfPadded("{", ns, "", {'{'});
  }

  /**
   * Whether the path `.//ns:ContractCode`, with `ns` bound to `namespace`,
   * selects an element with this tag. ElementTree expands the prefix to
   * `{namespace}ContractCode`; it reads `{}ContractCode` as the name outside
   * any namespace, and `{*}ContractCode` as that local name in any namespace.
   */
  predicate Selects(namespace: string, tag: string)
    ensures Selects(namespace, tag) ==> EndsWith(tag, ContractCode)
  {
    if namespace == "" then tag == ContractCode
    else if namespace == "*" then tag == ContractCode || EndsWith(tag, "}" + ContractCode)
    else tag == "{" + namespace + "}" + ContractCode
  }

  /** The elements of `es` that the path selects, in their order in `es`. */
  function Matching(es: seq<Element>, namespace: string): (r: seq<Element>)
    ensures |r| <= |es|
  {
    if es == [] then []
    else (if Selects(namespace, es[0].tag) then [es[0]] else []) + Matching(es[1..], namespace)
  }

  /** Selection keeps exactly the elements whose tag the path selects. */
  lemma {:induction false} MatchingMembers(es: seq<Element>, namespace: string)
    ensures forall x :: x in Matching(es, namespace) <==> x in es && Selects(namespace, x.tag)
  {
    if es != [] {
      MatchingMembers(es[1..], namespace);
      assert es == [es[0]] + es[1..];
    }
  }

  /** Selecting from two runs of elements selects from each, keeping their order. */
  lemma {:induction false} MatchingConcat(a: seq<Element>, b: seq<Element>, namespace: string)
    ensures Matching(a + b, namespace) == Matching(a, namespace) + Matching(b, namespace)
  {
    if a == [] {
      assert a + b == b;
    } else {
      var ab := a + b;
      assert ab[0] == a[0];
      assert ab[1..] == a[1..] + b;
      MatchingConcat(a[1..], b, namespace);
      var head := if Selects(namespace, a[0].tag) then [a[0]] else [];
      assert Matching(ab, namespace) == head + Matching(ab[1..], namespace);
      assert Matching(a, namespace) == head + Matching(a[1..], namespace);
    }
  }

  /**
   * `root.findall('.//ns:ContractCode', {'ns': namespace})`: the proper
   * descendants of `root`, in document order, whose tag the path selects.
   */
  function FindAll(root: Element, namespace: string): (r: seq<Element>)
    ensures forall x :: x in r ==> x in Descendants(root) && Selects(namespace, x.tag)
  {
    MatchingMembers(Descendants(root), namespace);
    Matching(Descendants(root), namespace)
  }

  /**
   * The candidates are the descendants of the root, at any depth, whose tag
   * the path selects; the root itself is never one of them, whatever its tag.
   */
  lemma FindAllMembers(root: Element, namespace: string)
    ensures forall x :: x in FindAll(root, namespace) <==> x in Descendants(root) && Selects(namespace, x.tag)
    ensures root !in FindAll(root, namespace)
  {
    MatchingMembers(Descendants(root), namespace);
    RootNotDescendant(root);
  }

  /** A childless element has no candidates. */
  lemma FindAllLeaf(tag: string, text: Option<string>, namespace: string)
    ensures FindAll(Element(tag, text, []), namespace) == []
  {
  }

  /**
   * Document order: the first child (when selected) comes first, then the
   * candidates below it, then those of the later children.
   */
  lemma FindAllFirstChild(tag: string, text: Option<string>, first: Element, rest: seq<Element>, namespace: string)
    ensures FindAll(Element(tag, text, [first] + rest), namespace)
         == Matching([first], namespace) + FindAll(first, namespace) + FindAll(Element(tag, text, rest), namespace)
  {
    var cs := [first] + rest;
    assert cs[0] == first && cs[1..] == rest;
    assert IterAll(cs) == [first] + IterAll(first.children) + IterAll(rest);
    MatchingConcat([first] + IterAll(first.children), IterAll(rest), namespace);
    MatchingConcat([first], IterAll(first.children), namespace);
  }
}
