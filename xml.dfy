/** A parsed XML document as the patch engine sees it: its elements in
    document order, each with its tag, its attributes and the text of its first
    child node. The first element is the document element. Parsing and
    serialising are done by a library and stay abstract (see Codecs). */
module Xml {
  import opened Wrappers

  /** One element; `text` is the value of its first child node, None when the
      element has no child. */
  datatype Element = Element(tag: string, attrs: map<string, string>, text: Option<string>)

  type Document = seq<Element>

  /** The position of `getElementsByTagName(tag)[0]`. */
  function FirstIndex(doc: Document, tag: string): (r: Option<nat>)
    ensures r.Some? ==> r.value < |doc| && doc[r.value].tag == tag
    ensures r.Some? ==> forall j :: 0 <= j < r.value ==> doc[j].tag != tag
    ensures r.None? <==> forall j :: 0 <= j < |doc| ==> doc[j].tag != tag
  {
    if |doc| == 0 then None
    else if doc[0].tag == tag then Some(0)
    else
      match FirstIndex(doc[1..], tag)
      case None => None
      case Some(i) => Some(i + 1)
  }

  /** `getElementsByTagName(tag)?.[0]?.childNodes?.[0]?.nodeValue`. */
  function TextOf(doc: Document, tag: string): Option<string> {
    match FirstIndex(doc, tag)
    case None => None
    case Some(i) => doc[i].text
  }

  /** Whether `getElementsByTagName(tag)[0].childNodes[0]` can be
      dereferenced. */
  predicate HasText(doc: Document, tag: string) {
    TextOf(doc, tag).Some?
  }

  /** `read(doc, tag)` (src/magic.js and main.js): the text of the first
      element with that tag, or '' when there is none. */
  function Read(doc: Document, tag: string): (r: string)
    ensures HasText(doc, tag) ==> r == TextOf(doc, tag).value
    ensures !HasText(doc, tag) ==> r == ""
  {
    if HasText(doc, tag) && TextOf(doc, tag).value != "" then TextOf(doc, tag).value else ""
  }

  /** `e.replaceData(0, e.nodeValue.length, t)` on the first child of the first
      element with that tag: the whole text becomes t. */
  function SetText(doc: Document, tag: string, t: string): (r: Document)
    requires HasText(doc, tag)
    ensures |r| == |doc|
    ensures TextOf(r, tag) == Some(t)
    ensures forall other :: other != tag ==> TextOf(r, other) == TextOf(doc, other)
    ensures forall j :: 0 <= j < |doc| && j != FirstIndex(doc, tag).value ==> r[j] == doc[j]
  {
    var i := FirstIndex(doc, tag).value;
    var r := doc[i := doc[i].(text := Some(t))];
    SameTagsFindSame(doc, r);
    r
  }

  /** `documentElement.getAttribute(name)`: None when the document has no
      element at all (the call throws); '' for a missing attribute. */
  function RootAttribute(doc: Document, name: string): Option<string> {
    if |doc| == 0 then None
    else Some(if name in doc[0].attrs then doc[0].attrs[name] else "")
  }

  /** `getElementsByTagName(tag)?.[0]?.getAttribute(name)`: None for
      `undefined` (no such element), '' for a missing attribute. */
  function FirstAttribute(doc: Document, tag: string, name: string): Option<string> {
    match FirstIndex(doc, tag)
    case None => None
    case Some(i) => Some(if name in doc[i].attrs then doc[i].attrs[name] else "")
  }

  /** After a write, the tag reads back what was written. */
  lemma ReadAfterSet(doc: Document, tag: string, t: string)
    requires HasText(doc, tag)
    ensures TextOf(SetText(doc, tag, t), tag) == Some(t)
    ensures Read(SetText(doc, tag, t), tag) == t
  {
  }

  /** A write changes no other tag's text, and no element other than the first
      one with the written tag. */
  lemma SetTextOnlyThere(doc: Document, tag: string, t: string, other: string)
    requires HasText(doc, tag) && other != tag
    ensures TextOf(SetText(doc, tag, t), other) == TextOf(doc, other)
    ensures forall j :: 0 <= j < |doc| && j != FirstIndex(doc, tag).value ==> SetText(doc, tag, t)[j] == doc[j]
  {
  }

  /** Writing the text an element already has leaves the document as it was. */
  lemma SetCurrentText(doc: Document, tag: string)
    requires HasText(doc, tag)
    ensures SetText(doc, tag, TextOf(doc, tag).value) == doc
  {
  }

  /** Two documents with the same tags in the same places find the same first
      element for every tag. */
  lemma SameTagsFindSame(a: Document, b: Document)
    requires |a| == |b| && forall j :: 0 <= j < |a| ==> a[j].tag == b[j].tag
    ensures forall tag :: FirstIndex(a, tag) == FirstIndex(b, tag)
  {
    forall tag {
      FirstIndexSameTags(a, b, tag);
    }
  }


  lemma {:induction false} FirstIndexSameTags(a: Document, b: Document, tag: string)
    requires |a| == |b| && forall j :: 0 <= j < |a| ==> a[j].tag == b[j].tag
    ensures FirstIndex(a, tag) == FirstIndex(b, tag)
  {
    if |a| > 0 && a[0].tag != tag {
      FirstIndexSameTags(a[1..], b[1..], tag);
    }
  }
}
