/**
 * Saving the edited page: the save signal, and the copy of the preview's
 * document that is sent to the server, with the editor's own inline marks
 * (hover and selection outlines, the pointer cursor) cleared.
 */
module Save {
  import opened Text

  /** An element as its serialisation sees it: the tag, the attributes
      other than `style`, and the inline style declarations. */
  datatype Element = Element(tag: string, attributes: map<string, string>, style: map<string, string>)

  /** The document element and its descendants in document order, the
      elements `querySelectorAll('*')` returns. */
  datatype Document = Document(root: Element, descendants: seq<Element>)

  /** The inline properties the save clears: `outline` is a shorthand, so
      clearing it also removes its three longhands; `cursor` is a longhand. */
  const EditorMarks: set<string> := {"outline", "outline-color", "outline-style", "outline-width", "cursor"}

  /** `el.style.outline = ''; el.style.cursor = ''`: assigning the empty
      string removes the declaration, and for a shorthand every longhand it
      sets. */
  function Stripped(e: Element): (r: Element)
    ensures r.tag == e.tag && r.attributes == e.attributes
    ensures r.style.Keys == e.style.Keys - EditorMarks
    ensures forall p :: p in r.style ==> r.style[p] == e.style[p]
  {
    e.(style := e.style - EditorMarks)
  }

  /** An element without editor marks is saved as it is. */
  lemma StrippedUnmarked(e: Element)
    requires forall p :: p in e.style ==> p !in EditorMarks
    ensures Stripped(e) == e
  {
    assert Stripped(e).style == e.style;
  }

  /** Every element of a sequence, stripped. */
  function StripAll(es: seq<Element>): (r: seq<Element>)
    decreases |es|
    ensures |r| == |es|
    ensures forall i :: 0 <= i < |es| ==> r[i] == Stripped(es[i])
  {
    if es == [] then [] else [Stripped(es[0])] + StripAll(es[1..])
  }

  /** The copy that is saved: the descendants are stripped, the document
      element itself is not. */
  function SavedCopy(doc: Document): Document
  {
    Document(doc.root, StripAll(doc.descendants))
  }

  /** Lines 261-270: no descendant of the copy carries an editor mark; tags,
      attributes and all other declarations are those of the document, and
      the document element keeps its own style as it is. */
  lemma SavedCopyClean(doc: Document)
    ensures SavedCopy(doc).root == doc.root
    ensures |SavedCopy(doc).descendants| == |doc.descendants|
    ensures forall i, p :: 0 <= i < |doc.descendants| && p in EditorMarks ==> p !in SavedCopy(doc).descendants[i].style
    ensures forall i :: 0 <= i < |doc.descendants| ==>
      SavedCopy(doc).descendants[i].tag == doc.descendants[i].tag
      && SavedCopy(doc).descendants[i].attributes == doc.descendants[i].attributes
    ensures forall i, p :: 0 <= i < |doc.descendants| && p in doc.descendants[i].style && p !in EditorMarks ==>
      p in SavedCopy(doc).descendants[i].style
      && SavedCopy(doc).descendants[i].style[p] == doc.descendants[i].style[p]
  {
  }

  /** Saving a saved copy again changes nothing. */
  lemma {:induction false} SavedCopyIdempotent(doc: Document)
    ensures SavedCopy(SavedCopy(doc)) == SavedCopy(doc)
  {
    var once := StripAll(doc.descendants);
    forall i | 0 <= i < |once| ensures StripAll(once)[i] == once[i] {
      StrippedUnmarked(once[i]);
    }
  }

  /** Lines 261-268: the deep clone and the forEach over its descendants.
      `live` holds the live document's descendants; the method writes only
      into the clone it allocates, so the live document is untouched. */
  method StrippedClone(root: Element, live: array<Element>) returns (copy: Document)
    ensures copy == SavedCopy(Document(root, live[..]))
  {
    var clone := new Element[live.Length](i requires 0 <= i < live.Length reads live => live[i]);
    var i := 0;
    while i < clone.Length
      invariant 0 <= i <= clone.Length == live.Length
      invariant forall j :: 0 <= j < i ==> clone[j] == Stripped(live[j])
      invariant forall j :: i <= j < clone.Length ==> clone[j] == live[j]
    {
      clone[i] := Stripped(clone[i]);
      i := i + 1;
    }
    copy := Document(root, clone[..]);
    assert copy.descendants == StripAll(live[..]);
  }

  /** The save signal of the shared context: null until Save is first
      pressed, then the time of the last press. */
  predicate Truthy(signal: Option<int>)
  {
    signal.Some? && signal.value != 0
  }

  /** The body of the PUT to the frames endpoint. */
  datatype SaveRequest = SaveRequest(designCode: string, frameId: Option<string>, projectId: string)

  /** Lines 226-229 and 255-278, one run of the effect, which React runs
      after mount and whenever the signal changes: a truthy signal with the
      preview's document available sends the serialised copy.
      `frameReady` says whether the iframe and its document exist;
      `serialise` is `outerHTML`. */
  method OnSaveSignal(signal: Option<int>, frameReady: bool, root: Element, live: array<Element>,
                      serialise: Document -> string, frameId: Option<string>, projectId: string)
    returns (request: Option<SaveRequest>)
    ensures request.Some? <==> Truthy(signal) && frameReady
    ensures request.Some? ==> request.value == SaveRequest(serialise(SavedCopy(Document(root, live[..]))), frameId, projectId)
  {
    request := None;
    if Truthy(signal) && frameReady {
      var copy := StrippedClone(root, live);
      request := Some(SaveRequest(serialise(copy), frameId, projectId));
    }
  }
}
