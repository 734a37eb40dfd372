/**
 * The live preview of the playground (app/playground/_components/WebsiteDesign.tsx):
 * the hover/selection tracker driven by the iframe's mouse, focus and key
 * events, the ignore-blur guard set by mousedowns in the settings panel,
 * and the update of the preview body when the generated code changes.
 *
 * Nodes of the iframe document are abstract ids. Shell nodes (the html,
 * head and body#root elements written once when the iframe is set up)
 * survive a content update; content nodes (everything inside body#root) are
 * replaced by it. The marks the editor puts on nodes are an outline style
 * and the contenteditable attribute.
 */
module Preview {
  import opened Text
  import opened Normalize

  datatype NodeId = Shell(k: nat) | Content(k: nat)

  /** "2px dotted blue" for the hovered node, "2px solid red" for the
      selected one; a node without an entry has an empty outline. */
  datatype Outline = DottedBlue | SolidRed

  /** The body element with id "root" that receives the generated fragment. */
  const Root: NodeId := Shell(2)

  /** The marks agree with the two slots: the selected node, and only it,
      has the solid outline and is editable, a dotted outline sits only on
      the hovered node, and the settings panel sees the selection. */
  ghost predicate Consistent(hover: Option<NodeId>, selected: Option<NodeId>, reported: Option<NodeId>,
                             outline: map<NodeId, Outline>, editable: set<NodeId>)
  {
    reported == selected
    && (match selected
        case Some(n) => n in outline && outline[n] == SolidRed && editable == {n}
        case None => editable == {})
    && (forall n :: n in outline ==>
          (outline[n] == SolidRed ==> selected == Some(n))
          && (outline[n] == DottedBlue ==> hover == Some(n)))
  }

  /** Clearing both slots' marks in a consistent state clears every mark. */
  lemma ClearingSlotsClearsAll(hover: Option<NodeId>, selected: Option<NodeId>, reported: Option<NodeId>,
                               outline: map<NodeId, Outline>, editable: set<NodeId>)
    requires Consistent(hover, selected, reported, outline, editable)
    ensures Unoutlined(Unoutlined(outline, selected), hover) == map[]
    ensures Uneditable(editable, selected) == {}
  {
    var r := Unoutlined(Unoutlined(outline, selected), hover);
    assert forall n :: n in r ==> n in outline;
    assert r.Keys == {};
  }

  /** The outline of node n: None for an empty one. */
  function OutlineOf(outline: map<NodeId, Outline>, n: NodeId): Option<Outline>
  {
    if n in outline then Some(outline[n]) else None
  }

  /** The marks after clearing the outline of the node in a slot, if any. */
  function Unoutlined(outline: map<NodeId, Outline>, slot: Option<NodeId>): (r: map<NodeId, Outline>)
    ensures forall n :: n in r <==> n in outline && slot != Some(n)
    ensures forall n :: n in r ==> r[n] == outline[n]
  {
    match slot
    case None => outline
    case Some(n) => outline - {n}
  }

  function Uneditable(editable: set<NodeId>, slot: Option<NodeId>): (r: set<NodeId>)
    ensures forall n :: n in r <==> n in editable && slot != Some(n)
  {
    match slot
    case None => editable
    case Some(n) => editable - {n}
  }

  /** The outlines still in the document once the root's content nodes are
      replaced: those on shell nodes. */
  function ShellOutlines(outline: map<NodeId, Outline>): (r: map<NodeId, Outline>)
    ensures forall n :: n in r <==> n in outline && n.Shell?
    ensures forall n :: n in r ==> r[n] == outline[n]
  {
    map n | n in outline && n.Shell? :: outline[n]
  }

  function ShellEditable(editable: set<NodeId>): (r: set<NodeId>)
    ensures forall n :: n in r <==> n in editable && n.Shell?
  {
    set n | n in editable && n.Shell?
  }

  class Preview {
    /** hoverElRef.current */
    var hover: Option<NodeId>
    /** selectedElRef.current */
    var selected: Option<NodeId>
    /** The selectedElement state handed to the settings panels. */
    var reported: Option<NodeId>
    /** The outline each node of the document carries. */
    var outline: map<NodeId, Outline>
    /** The nodes with contenteditable="true". */
    var editable: set<NodeId>
    /** iframe.dataset.ignoreBlur == '1' */
    var ignoreBlur: bool
    /** Reset timers scheduled by the mousedown guard and not yet fired. */
    var pendingResets: nat
    /** root.innerHTML as last written. */
    var body: string
    /** The src attributes of the img elements under the root, in document
        order (None where an image has no src attribute). */
    var images: seq<Option<string>>

    ghost predicate Valid()
      reads this
    {
      Consistent(hover, selected, reported, outline, editable)
    }

    /** The shell right after the iframe is written: an empty root, no marks. */
    constructor ()
      ensures Valid()
      ensures hover == None && selected == None && reported == None
      ensures outline == map[] && editable == {}
      ensures !ignoreBlur && pendingResets == 0
      ensures body == [] && images == []
    {
      hover := None;
      selected := None;
      reported := None;
      outline := map[];
      editable := {};
      ignoreBlur := false;
      pendingResets := 0;
      body := [];
      images := [];
    }

    /** handleMouseOver (lines 73-81): ignored while something is selected;
        otherwise the previous hover loses its outline and t gets the dotted
        one. From a valid state without a selection, t ends up the only
        outlined node. */
    method MouseOver(t: NodeId)
      modifies this`hover, this`outline
      ensures old(selected).Some? ==> hover == old(hover) && outline == old(outline)
      ensures old(selected).None? ==>
        hover == Some(t)
        && outline == (if old(hover).Some? && old(hover).value != t then old(outline) - {old(hover).value}
                       else old(outline))[t := DottedBlue]
      ensures old(Valid()) ==> Valid()
      ensures old(Valid()) && old(selected).None? ==> outline == map[t := DottedBlue]
    {
      if selected.Some? {
        return;
      }
      if hover.Some? && hover.value != t {
        outline := outline - {hover.value};
      }
      hover := Some(t);
      outline := outline[t := DottedBlue];
    }

    /** handleMouseOut (lines 83-89): ignored while something is selected;
        otherwise the hovered node loses its outline and the slot empties. */
    method MouseOut()
      modifies this`hover, this`outline
      ensures old(selected).Some? ==> hover == old(hover) && outline == old(outline)
      ensures old(selected).None? ==>
        hover == None && outline == Unoutlined(old(outline), old(hover))
      ensures old(Valid()) ==> Valid()
      ensures old(Valid()) && old(selected).None? ==> outline == map[]
    {
      if selected.Some? {
        return;
      }
      if hover.Some? {
        outline := outline - {hover.value};
        hover := None;
      }
    }

    /** handleClick (lines 91-108): a previous selection other than t loses
        its outline and contenteditable, then t is selected with the solid
        outline and made editable. The hover slot is left as it is. */
    method Click(t: NodeId)
      modifies this`selected, this`reported, this`outline, this`editable
      ensures selected == Some(t) && reported == Some(t)
      ensures outline ==
        (if old(selected).Some? && old(selected).value != t then old(outline) - {old(selected).value}
         else old(outline))[t := SolidRed]
      ensures editable ==
        (if old(selected).Some? && old(selected).value != t then old(editable) - {old(selected).value}
         else old(editable)) + {t}
      ensures old(Valid()) ==> Valid() && editable == {t}
    {
      if selected.Some? && selected.value != t {
        outline := outline - {selected.value};
        editable := editable - {selected.value};
      }
      selected := Some(t);
      outline := outline[t := SolidRed];
      editable := editable + {t};
      reported := selected;
    }

    /** The selected node loses both marks and both slots empty. */
    method ClearSelection()
      requires selected.Some?
      modifies this`selected, this`reported, this`outline, this`editable
      ensures selected == None && reported == None
      ensures outline == old(outline) - {old(selected).value}
      ensures editable == old(editable) - {old(selected).value}
      ensures old(Valid()) ==> Valid() && editable == {}
    {
      outline := outline - {selected.value};
      editable := editable - {selected.value};
      selected := None;
      reported := None;
    }

    /** handleBlur (lines 110-133), with the element focused afterwards as
        `active`: nothing without a selection; a set ignore flag is reset and
        the selection kept; otherwise the selection is cleared exactly when
        focus left the selected node. */
    method FocusOut(active: Option<NodeId>)
      modifies this`selected, this`reported, this`outline, this`editable, this`ignoreBlur
      ensures old(selected).None? ==>
        selected == None && reported == old(reported) && outline == old(outline) && editable == old(editable)
        && ignoreBlur == old(ignoreBlur)
      ensures old(selected).Some? && old(ignoreBlur) ==>
        !ignoreBlur && selected == old(selected) && reported == old(reported)
        && outline == old(outline) && editable == old(editable)
      ensures old(selected).Some? && !old(ignoreBlur) ==>
        !ignoreBlur
        && (selected == None <==> active != old(selected))
        && (active != old(selected) ==>
              reported == None && outline == old(outline) - {old(selected).value}
              && editable == old(editable) - {old(selected).value})
        && (active == old(selected) ==>
              selected == old(selected) && reported == old(reported) && outline == old(outline) && editable == old(editable))
      ensures old(Valid()) ==> Valid()
    {
      if selected.None? {
        return;
      }
      if ignoreBlur {
        ignoreBlur := false;
        return;
      }
      if active != selected {
        ClearSelection();
      }
    }

    /** handleKeyDown (lines 135-142): Escape with a selection clears it; any
        other key, or no selection, changes nothing. */
    method KeyDown(key: string)
      modifies this`selected, this`reported, this`outline, this`editable
      ensures key == "Escape" && old(selected).Some? ==>
        selected == None && reported == None
        && outline == old(outline) - {old(selected).value} && editable == old(editable) - {old(selected).value}
      ensures !(key == "Escape" && old(selected).Some?) ==>
        selected == old(selected) && reported == old(reported) && outline == old(outline) && editable == old(editable)
      ensures old(Valid()) ==> Valid()
    {
      if key == "Escape" && selected.Some? {
        ClearSelection();
      }
    }

    /** The window mousedown listener (lines 235-248), with `clickedInside`
        saying whether the event path runs through the settings panel: such
        a mousedown sets the flag and schedules one more reset; earlier
        timers are not cancelled. */
    method MouseDown(clickedInside: bool)
      modifies this`ignoreBlur, this`pendingResets
      ensures clickedInside ==> ignoreBlur && pendingResets == old(pendingResets) + 1
      ensures !clickedInside ==> ignoreBlur == old(ignoreBlur) && pendingResets == old(pendingResets)
    {
      if clickedInside {
        ignoreBlur := true;
        pendingResets := pendingResets + 1;
      }
    }

    /** One of the 300 ms timers of line 244 fires and resets the flag,
        whichever mousedown scheduled it. */
    method ResetTimerFires()
      requires pendingResets > 0
      modifies this`ignoreBlur, this`pendingResets
      ensures !ignoreBlur && pendingResets == old(pendingResets) - 1
    {
      ignoreBlur := false;
      pendingResets := pendingResets - 1;
    }

    /** Lines 201-208 and 214-221 once the slots are dealt with: the
        normalised fragment becomes the root's content, the images parsed
        from it (`parsedImages`, their src attributes in document order) are
        rebased, and the marks on the replaced content nodes go with them. */
    method WriteBody(generatedCode: string, parsedImages: seq<Option<string>>, origin: string)
      modifies this`body, this`images, this`outline, this`editable
      ensures body == Normalized(generatedCode)
      ensures |images| == |parsedImages|
      ensures forall i :: 0 <= i < |images| ==> images[i] == Rebased(parsedImages[i], origin)
      ensures outline == ShellOutlines(old(outline)) && editable == ShellEditable(old(editable))
    {
      body := Normalized(generatedCode);
      outline := ShellOutlines(outline);
      editable := ShellEditable(editable);
      var imgs := new Option<string>[|parsedImages|](i requires 0 <= i < |parsedImages| => parsedImages[i]);
      RebaseImages(imgs, origin);
      images := imgs[..];
    }

    /** Lines 185-189 and 211 as the code has them: the selected node loses
        its outline but keeps contenteditable, and the hover slot is emptied
        without clearing its outline. */
    method ReleaseSlotsAsWritten()
      modifies this`selected, this`reported, this`hover, this`outline
      ensures selected == None && reported == None && hover == None
      ensures outline == Unoutlined(old(outline), old(selected))
    {
      outline := Unoutlined(outline, selected);
      selected := None;
      reported := None;
      hover := None;
    }

    /** Both slots released the way the event handlers release them: the
        selected node loses its outline and contenteditable, the hovered
        node its outline. From a valid state no mark is left. */
    method ReleaseSlots()
      modifies this`selected, this`reported, this`hover, this`outline, this`editable
      ensures selected == None && reported == None && hover == None
      ensures outline == Unoutlined(Unoutlined(old(outline), old(selected)), old(hover))
      ensures editable == Uneditable(old(editable), old(selected))
      ensures old(Valid()) ==> Valid() && outline == map[] && editable == {}
    {
      ghost var wasValid := Valid();
      if wasValid {
        ClearingSlotsClearsAll(hover, selected, reported, outline, editable);
      }
      outline := Unoutlined(Unoutlined(outline, selected), hover);
      editable := Uneditable(editable, selected);
      selected := None;
      reported := None;
      hover := None;
    }

    /** The content effect (lines 174-224) as the code has it. For a shell
        node, such as the root itself, its contenteditable and a hover
        outline outlive the slots. */
    method ContentReplacedAsWritten(generatedCode: string, parsedImages: seq<Option<string>>, origin: string)
      modifies this
      ensures selected == None && reported == None && hover == None
      ensures outline == ShellOutlines(Unoutlined(old(outline), old(selected)))
      ensures editable == ShellEditable(old(editable))
      ensures body == Normalized(generatedCode)
      ensures |images| == |parsedImages|
      ensures forall i :: 0 <= i < |images| ==> images[i] == Rebased(parsedImages[i], origin)
      ensures ignoreBlur == old(ignoreBlur) && pendingResets == old(pendingResets)
    {
      ReleaseSlotsAsWritten();
      WriteBody(generatedCode, parsedImages, origin);
    }

    /** The content effect with the slots released as the event handlers
        release them. */
    method ContentReplaced(generatedCode: string, parsedImages: seq<Option<string>>, origin: string)
      modifies this
      ensures selected == None && reported == None && hover == None
      ensures outline == ShellOutlines(Unoutlined(Unoutlined(old(outline), old(selected)), old(hover)))
      ensures editable == ShellEditable(Uneditable(old(editable), old(selected)))
      ensures body == Normalized(generatedCode)
      ensures |images| == |parsedImages|
      ensures forall i :: 0 <= i < |images| ==> images[i] == Rebased(parsedImages[i], origin)
      ensures ignoreBlur == old(ignoreBlur) && pendingResets == old(pendingResets)
      ensures old(Valid()) ==> Valid() && outline == map[] && editable == {}
    {
      ReleaseSlots();
      WriteBody(generatedCode, parsedImages, origin);
    }
  }

  // ---------------------------------------------------------------------
  // Event sequences
  // ---------------------------------------------------------------------

  /** Selecting the root and then receiving new code, as written: the root
      stays editable although nothing is selected. */
  method RootStaysEditable() returns (editableLeft: bool, selectionLeft: Option<NodeId>)
    ensures editableLeft && selectionLeft == None
  {
    var p := new Preview();
    p.Click(Root);
    p.ContentReplacedAsWritten("<p>hi</p>", [], "https://example.com");
    editableLeft := Root in p.editable;
    selectionLeft := p.selected;
  }

  /** Hovering the root and then receiving new code, as written: the root
      keeps its dotted outline, and hovering a new node no longer clears it. */
  method RootKeepsHoverOutline() returns (rootOutline: Option<Outline>, hoverLeft: Option<NodeId>)
    ensures rootOutline == Some(DottedBlue) && hoverLeft == Some(Content(0))
  {
    var p := new Preview();
    p.MouseOver(Root);
    p.ContentReplacedAsWritten("<p>hi</p>", [], "https://example.com");
    p.MouseOver(Content(0));
    rootOutline := OutlineOf(p.outline, Root);
    hoverLeft := p.hover;
  }

  /** With the corrected update the same two sequences leave no mark. */
  method CorrectedLeavesNoMark() returns (editableLeft: bool, rootOutline: Option<Outline>)
    ensures !editableLeft && rootOutline == None
  {
    var p := new Preview();
    p.Click(Root);
    p.ContentReplaced("<p>hi</p>", [], "https://example.com");
    editableLeft := Root in p.editable;
    p.MouseOver(Root);
    p.ContentReplaced("<p>hi</p>", [], "https://example.com");
    p.MouseOver(Content(0));
    rootOutline := OutlineOf(p.outline, Root);
  }

  /** Timers stack: two guarded mousedowns, then the first one's reset
      fires; a focus-out now clears the selection although the second
      mousedown's 300 ms have not run out. */
  method EarlierTimerEndsLaterGuard() returns (selectionLeft: Option<NodeId>, flagLeft: bool)
    ensures selectionLeft == None && !flagLeft
  {
    var p := new Preview();
    p.Click(Content(1));
    p.MouseDown(true);
    p.MouseDown(true);
    p.ResetTimerFires();
    p.FocusOut(None);
    selectionLeft := p.selected;
    flagLeft := p.ignoreBlur;
  }

  /** A guarded focus-out keeps the selection once, and only once. */
  method GuardSparesOneBlur() returns (afterFirst: Option<NodeId>, afterSecond: Option<NodeId>)
    ensures afterFirst == Some(Content(1)) && afterSecond == None
  {
    var p := new Preview();
    p.Click(Content(1));
    p.MouseDown(true);
    p.FocusOut(None);
    afterFirst := p.selected;
    p.FocusOut(None);
    afterSecond := p.selected;
  }
}
