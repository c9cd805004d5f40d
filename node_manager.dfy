/**
 * NodeManager: the object that owns the tree of a page. It rebuilds the
 * tree from the page's field stream when the page's length changes,
 * publishes it as ready only when the length held still during the
 * rebuild, answers queries only while ready, and moves a current node
 * forwards and backwards through the page.
 *
 * The page itself (the tree interceptor) is not part of this model: what
 * update reads from it is passed in as a `Source` value, one field per
 * read, with None for a read that raised.
 */
module NodeManager {
  import opened Common
  import opened NodeField
  import opened TreeBuilder
  import NodeSearch

  /** What update reads from the page, in order; None where the read raised. */
  datatype Source = Source(
    isReady: bool,                 // the tree interceptor exists and is ready
    lengthBefore: Option<int>,     // _endOffset + 1 of the last position, before the rebuild
    fields: Option<seq<Atom>>,     // getTextWithFields of the whole page
    caretOffset: Option<int>,      // _startOffset of the caret
    lengthAfter: Option<int>)      // _endOffset + 1 of the last position, after the rebuild

  /** The notification update sends to the scheduler, if any. */
  datatype Event = NoEvent | RequestUpdate | NodeManagerUpdated

  /** How update ends: it returns a flag and may send an event, or node construction raises. */
  datatype UpdateResult = Returned(rebuilt: bool, event: Event) | UpdateRaised(error: BuildError)

  /** How a navigation script ends. */
  datatype NavOutcome =
    | Ignored                // not ready: nothing happens
    | GestureSent            // pass-through mode: the key goes to the page
    | NoCurrentNode          // _curNode is None: reading its offset raises
    | AtBoundary             // top or bottom of the document
    | MovedTo(node: Node)    // the new current node

  const SectionRole := "section"
  const ParagraphRole := "paragraph"

  /**
   * Where navigation lands for an offset: the text leaf holding it, or
   * that leaf's parent unless the parent is a section or a paragraph.
   */
  function NavTarget(main: Node, o: int): (r: Option<Node>)
    ensures r.Some? <==> NodeSearch.SearchOffset(main, o).Some?
  {
    match NodeSearch.SearchOffset(main, o)
    case None => None
    case Some(c) =>
      var p := NodeSearch.SearchOffsetParent(main, o);
      if p.Some? && p.value.role != SectionRole && p.value.role != ParagraphRole then p else Some(c)
  }

  /**
   * The node navigation lands on lies in the tree, holds the offset it
   * was looked up for, and is either the text leaf there or the control
   * that directly holds that leaf.
   */
  lemma NavTargetCovers(main: Node, o: int)
    requires WellFormed(main) && !main.TextNode?
    ensures NavTarget(main, o).Some? ==>
      var t := NavTarget(main, o).value;
      && Reaches(main, t)
      && t.offset <= o < t.offset + t.size
      && (t == NodeSearch.SearchOffset(main, o).value ||
          (t.ControlNode? && NodeSearch.SearchOffset(main, o).value in t.children))
  {
    var hit := NodeSearch.SearchOffset(main, o);
    if hit.Some? {
      NodeSearch.SearchOffsetIsLeaf(main, o);
      LeavesReachable(main);
      if main.ControlNode? {
        NodeSearch.ParentHoldsLeaf(main, o);
        var p := NodeSearch.SearchOffsetParent(main, o).value;
        WellFormedReach(main, p);
        ChildrenInSpan(p.children, p.offset);
      }
    }
  }

  class NodeManager {
    // The builder's state: the stream and the cursor over it.
    var fieldList: seq<Atom>
    var fieldIndex: nat
    var fieldOffset: int
    var lastTextNode: Option<TextRef>
    // The manager's state.
    var ready: bool
    var treeInterceptorSize: int
    var mainNode: Option<Node>
    var identifier: Option<int>
    var curNode: Option<Node>
    var caretNode: Option<Node>

    /** The tree, when there is one, is well formed and its root is not a text leaf; a ready manager has a tree. */
    ghost predicate Valid()
      reads this
    {
      && (mainNode.Some? ==> WellFormed(mainNode.value) && !mainNode.value.TextNode?)
      && (ready ==> mainNode.Some?)
    }

    /** The builder's cursor. */
    function State(): Cursor
      reads this
    {
      Cursor(fieldIndex, fieldOffset, lastTextNode)
    }

    /** A manager before its first update: not ready, no tree, length 0. */
    constructor ()
      ensures Valid()
      ensures !ready && mainNode == None && identifier == None && treeInterceptorSize == 0
      ensures curNode == None && caretNode == None
      ensures fieldList == [] && State() == Cursor(0, 0, None)
    {
      fieldList := [];
      fieldIndex := 0;
      fieldOffset := 0;
      lastTextNode := None;
      ready := false;
      treeInterceptorSize := 0;
      mainNode := None;
      identifier := None;
      curNode := None;
      caretNode := None;
    }

    /**
     * createNodeField: read the node whose field is at fieldIndex, moving
     * the cursor as it goes. It does exactly what ParseNode describes,
     * cursor included, on success and when node construction raises.
     */
    method CreateNodeField(parent: Option<Owner>) returns (r: Result<Option<Node>, BuildError>)
      modifies this`fieldIndex, this`fieldOffset, this`lastTextNode
      ensures var p := ParseNode(fieldList, old(State()), parent);
        && State() == p.cursor
        && (p.Parsed? ==> r == Success(p.node))
        && (p.Raised? ==> r == Failure(p.error))
      decreases Remaining(fieldList, fieldIndex), 0
    {
      if fieldIndex >= |fieldList| {
        return Success(None);
      }
      match fieldList[fieldIndex]
      case Text(s) =>
        var made := NewTextNode(s, parent, fieldOffset);
        if made.Failure? {
          return Failure(made.error);
        }
        var node := made.value;
        lastTextNode := Some(TextRef(fieldOffset, s));
        fieldOffset := fieldOffset + node.size;
        return Success(Some(node));
      case ControlEnd =>
        return Success(None);
      case FormatChange(f) =>
        return Success(Some(NewFormatNode(f, fieldOffset)));
      case ControlStart(f) =>
        var made := NewControlNode(f, fieldOffset, lastTextNode);
        if made.Failure? {
          return Failure(made.error);
        }
        fieldIndex := fieldIndex + 1;
        r := ReadChildren(made.value);
    }

    /**
     * The loop of createNodeField over the children of a control just
     * opened: append each child and add its size, step past its last
     * field, and stop at the first call that returns None.
     */
    method ReadChildren(node0: Node) returns (r: Result<Option<Node>, BuildError>)
      requires node0.ControlNode?
      modifies this`fieldIndex, this`fieldOffset, this`lastTextNode
      ensures var p := ParseChildren(fieldList, old(State()), node0);
        && State() == p.cursor
        && (p.Parsed? ==> r == Success(p.node))
        && (p.Raised? ==> r == Failure(p.error))
      decreases Remaining(fieldList, fieldIndex), 1
    {
      var node := node0;
      ghost var start := State();
      ghost var prev := start;
      var child := CreateNodeField(Some(OwnerOf(node)));
      while child.Success? && child.value.Some?
        invariant node.ControlNode? && OwnerOf(node) == OwnerOf(node0)
        invariant prev.index >= start.index
        invariant ParseChildren(fieldList, prev, node) == ParseChildren(fieldList, start, node0)
        invariant var p := ParseNode(fieldList, prev, Some(OwnerOf(node)));
          && State() == p.cursor
          && (p.Parsed? ==> child == Success(p.node))
          && (p.Raised? ==> child == Failure(p.error))
        decreases Remaining(fieldList, prev.index)
      {
        var ch := child.value.value;
        ghost var c1 := State();
        TakeChild(fieldList, prev, node, ch, c1);
        node := node.(children := node.children + [ch], size := node.size + ch.size);
        fieldIndex := fieldIndex + 1;
        assert State() == c1.(index := c1.index + 1);
        prev := State();
        child := CreateNodeField(Some(OwnerOf(node)));
      }
      StopChildren(fieldList, prev, node);
      if child.Failure? {
        return Failure(child.error);
      }
      return Success(Some(node));
    }

    /**
     * _get_isReady: the last update published a tree and the page is
     * still there and ready; a ready manager has a well-formed tree to
     * answer queries from.
     */
    function IsReady(sourceReady: bool): (r: bool)
      reads this
      ensures r ==> ready && sourceReady
      ensures r && Valid() ==> mainNode.Some? && WellFormed(mainNode.value) && !mainNode.value.TextNode?
    {
      ready && sourceReady
    }

    /**
     * update: rebuild the tree when the page's length has changed since
     * the last rebuild, and publish it as ready only if the length read
     * after the rebuild is the one recorded before it. `now` stands for
     * time.time(), the identifier of a new tree.
     */
    method Update(src: Source, now: int) returns (r: UpdateResult)
      requires Valid()
      modifies this
      ensures Valid()
      ensures fieldList == old(fieldList) || (src.fields.Some? && fieldList == src.fields.value)
      // The page is gone or its length cannot be read: not ready, nothing rebuilt.
      ensures !src.isReady || src.lengthBefore.None? ==>
        && r == Returned(false, NoEvent) && !ready
        && mainNode == old(mainNode) && treeInterceptorSize == old(treeInterceptorSize)
        && curNode == old(curNode) && caretNode == old(caretNode) && identifier == old(identifier)
        && fieldList == old(fieldList) && State() == old(State())
      // The length has not changed: nothing at all changes.
      ensures src.isReady && src.lengthBefore == Some(old(treeInterceptorSize)) ==>
        && r == Returned(false, NoEvent) && ready == old(ready)
        && mainNode == old(mainNode) && curNode == old(curNode) && caretNode == old(caretNode)
        && identifier == old(identifier) && fieldList == old(fieldList)
        && treeInterceptorSize == old(treeInterceptorSize) && State() == old(State())
      // Otherwise the new length is recorded before anything else is read.
      ensures src.isReady && src.lengthBefore.Some? && src.lengthBefore != Some(old(treeInterceptorSize)) ==>
        treeInterceptorSize == src.lengthBefore.value
      // The fields cannot be read: not ready, the old tree kept.
      ensures src.isReady && src.lengthBefore.Some? && src.lengthBefore != Some(old(treeInterceptorSize)) && src.fields.None? ==>
        && r == Returned(false, NoEvent) && !ready && mainNode == old(mainNode)
        && curNode == old(curNode) && caretNode == old(caretNode) && identifier == old(identifier)
        && fieldList == old(fieldList) && State() == old(State())
      // The fields were read: the tree is rebuilt from them (see Rebuild).
      ensures src.isReady && src.lengthBefore.Some? && src.lengthBefore != Some(old(treeInterceptorSize)) && src.fields.Some? ==>
        Rebuilt(src, now, old(ready), old(mainNode), old(curNode), old(caretNode), old(identifier), r)
    {
      if !src.isReady {
        ready := false;
        return Returned(false, NoEvent);
      }
      if src.lengthBefore.None? {
        ready := false;
        return Returned(false, NoEvent);
      }
      var size := src.lengthBefore.value;
      if size == treeInterceptorSize {
        return Returned(false, NoEvent);
      }
      treeInterceptorSize := size;
      if src.fields.None? {
        ready := false;
        return Returned(false, NoEvent);
      }
      r := Rebuild(src, now);
    }

    /** What the rebuild leaves behind, given the state it started from. */
    ghost predicate Rebuilt(src: Source, now: int, wasReady: bool, oldMain: Option<Node>, oldCur: Option<Node>,
                            oldCaret: Option<Node>, oldIdentifier: Option<int>, r: UpdateResult)
      requires src.fields.Some?
      reads this
    {
      var b := Build(src.fields.value);
      && fieldList == src.fields.value
      && State() == b.cursor
      && (b.Raised? ==>
            && r == UpdateRaised(b.error) && ready == wasReady && mainNode == oldMain
            && curNode == oldCur && caretNode == oldCaret && identifier == oldIdentifier)
      && (b.Parsed? && b.node.None? ==>
            && r == Returned(false, NoEvent) && !ready && mainNode == None
            && curNode == oldCur && caretNode == oldCaret && identifier == oldIdentifier)
      && (b.Parsed? && b.node.Some? ==>
            && mainNode == b.node
            && identifier == Some(now)
            // the caret is looked up while the readiness of the previous build still holds
            && caretNode == (if wasReady && src.caretOffset.Some? then NodeSearch.SearchOffset(b.node.value, src.caretOffset.value) else None)
            && curNode == caretNode
            && ready == (src.lengthAfter == src.lengthBefore)
            && r == Returned(ready, if src.lengthAfter.None? then NoEvent else if ready then NodeManagerUpdated else RequestUpdate))
    }

    /**
     * The second half of update, once the fields are read: createNodeField
     * from the start of the stream, then the caret lookup and the length
     * check that decide readiness.
     */
    method Rebuild(src: Source, now: int) returns (r: UpdateResult)
      requires Valid() && src.isReady && src.fields.Some? && src.lengthBefore == Some(treeInterceptorSize)
      modifies this
      ensures Valid() && treeInterceptorSize == old(treeInterceptorSize)
      ensures Rebuilt(src, now, old(ready), old(mainNode), old(curNode), old(caretNode), old(identifier), r)
    {
      fieldList := src.fields.value;
      fieldIndex := 0;
      fieldOffset := 0;
      lastTextNode := None;
      assert State() == Cursor(0, 0, None);
      var built := CreateNodeField(None);
      BuildWellFormed(fieldList);
      if built.Failure? {
        return UpdateRaised(built.error);
      }
      mainNode := built.value;
      if mainNode.None? {
        ready := false;
        return Returned(false, NoEvent);
      }
      identifier := Some(now);
      var caret: Option<Node> := None;
      if IsReady(src.isReady) && src.caretOffset.Some? {
        caret := NodeSearch.SearchOffset(mainNode.value, src.caretOffset.value);
      }
      curNode := caret;
      caretNode := caret;
      if src.lengthAfter.None? {
        ready := false;
        return Returned(false, NoEvent);
      }
      if src.lengthAfter.value != treeInterceptorSize {
        ready := false;
        return Returned(false, RequestUpdate);
      }
      ready := true;
      return Returned(true, NodeManagerUpdated);
    }

    /** NodeManager.searchString: the matching text leaves of the tree, in document order; nothing while not ready. */
    function SearchString(sourceReady: bool, needles: seq<string>): (r: seq<Node>)
      requires Valid()
      reads this
      ensures !IsReady(sourceReady) ==> r == []
      ensures IsReady(sourceReady) ==> r == NodeSearch.Matching(TextLeaves(mainNode.value), needles)
      ensures IsReady(sourceReady) ==>
        && Ordered(r)
        && forall m | m in r :: m.TextNode? && Reaches(mainNode.value, m) && NodeSearch.ContainsAny(m.text, needles)
    {
      if !IsReady(sourceReady) then []
      else
        NodeSearch.SearchStringIsMatching(mainNode.value, needles);
        NodeSearch.SearchStringOrdered(mainNode.value, needles);
        NodeSearch.SearchString(mainNode.value, needles)
    }

    /**
     * NodeManager.searchNode: the nodes of the tree the query selects, in
     * document order, none of them vetoed; nothing while not ready.
     */
    function SearchNode(sourceReady: bool, q: NodeSearch.Query): (r: seq<Node>)
      requires Valid()
      reads this
      ensures !IsReady(sourceReady) ==> r == []
      ensures IsReady(sourceReady) ==> r == NodeSearch.SearchNode(mainNode.value, q)
      ensures IsReady(sourceReady) ==>
        && Ordered(r)
        && forall m | m in r :: NodeSearch.Answer(mainNode.value, m, q)
    {
      if !IsReady(sourceReady) then []
      else
        NodeSearch.SearchNodeOrdered(mainNode.value, q);
        NodeSearch.SearchNodeAnswers(mainNode.value, q);
        NodeSearch.SearchNode(mainNode.value, q)
    }

    /**
     * NodeManager.searchOffset: the text leaf of the tree holding an
     * offset, found exactly when the offset lies inside the tree; None
     * while not ready.
     */
    function SearchOffset(sourceReady: bool, o: int): (r: Option<Node>)
      requires Valid()
      reads this
      ensures !IsReady(sourceReady) ==> r == None
      ensures IsReady(sourceReady) ==>
        && (r.Some? <==> (mainNode.value.ControlNode? && mainNode.value.offset <= o < mainNode.value.offset + mainNode.value.size))
        && (r.Some? ==> r.value.TextNode? && r.value.offset <= o < r.value.offset + r.value.size && Reaches(mainNode.value, r.value))
    {
      if !IsReady(sourceReady) then None
      else
        NodeSearch.SearchOffsetCovers(mainNode.value, o);
        NodeSearch.SearchOffsetIsLeaf(mainNode.value, o);
        LeavesReachable(mainNode.value);
        NodeSearch.SearchOffset(mainNode.value, o)
    }

    /**
     * script_nextItem: move to what lies just after the current node. At
     * the bottom of the document (nothing there, or a leaf starting where
     * the current node starts) the current node stays.
     */
    method NextItem(sourceReady: bool, passThrough: bool) returns (r: NavOutcome)
      requires Valid()
      modifies this`curNode
      ensures Valid()
      ensures !IsReady(sourceReady) ==> r == Ignored && curNode == old(curNode)
      ensures IsReady(sourceReady) && passThrough ==> r == GestureSent && curNode == old(curNode)
      ensures IsReady(sourceReady) && !passThrough && old(curNode).None? ==> r == NoCurrentNode && curNode == old(curNode)
      ensures IsReady(sourceReady) && !passThrough && old(curNode).Some? ==>
        var cur := old(curNode).value;
        var o := cur.offset + cur.size;
        var hit := NodeSearch.SearchOffset(mainNode.value, o);
        && (hit.None? || hit.value.offset == cur.offset ==> r == AtBoundary && curNode == old(curNode))
        && (hit.Some? && hit.value.offset != cur.offset ==>
              r == MovedTo(NavTarget(mainNode.value, o).value) && curNode == Some(r.node))
      ensures r.MovedTo? ==>
        && Reaches(mainNode.value, r.node)
        && old(curNode).value.offset + old(curNode).value.size < r.node.offset + r.node.size
    {
      if !IsReady(sourceReady) {
        return Ignored;
      }
      if passThrough {
        return GestureSent;
      }
      if curNode.None? {
        return NoCurrentNode;
      }
      var cur := curNode.value;
      var o := cur.offset + cur.size;
      var c := NodeSearch.SearchOffset(mainNode.value, o);
      if c.None? || SameNode(c.value, curNode) {
        return AtBoundary;
      }
      NavTargetCovers(mainNode.value, o);
      var t := NavTarget(mainNode.value, o).value;
      curNode := Some(t);
      return MovedTo(t);
    }

    /**
     * script_previousItem: move to what lies just before the current
     * node. At the top of the document the current node stays.
     */
    method PreviousItem(sourceReady: bool, passThrough: bool) returns (r: NavOutcome)
      requires Valid()
      modifies this`curNode
      ensures Valid()
      ensures !IsReady(sourceReady) ==> r == Ignored && curNode == old(curNode)
      ensures IsReady(sourceReady) && passThrough ==> r == GestureSent && curNode == old(curNode)
      ensures IsReady(sourceReady) && !passThrough && old(curNode).None? ==> r == NoCurrentNode && curNode == old(curNode)
      ensures IsReady(sourceReady) && !passThrough && old(curNode).Some? ==>
        var o := old(curNode).value.offset - 1;
        && (NodeSearch.SearchOffset(mainNode.value, o).None? ==> r == AtBoundary && curNode == old(curNode))
        && (NodeSearch.SearchOffset(mainNode.value, o).Some? ==>
              r == MovedTo(NavTarget(mainNode.value, o).value) && curNode == Some(r.node))
      ensures r.MovedTo? ==>
        && Reaches(mainNode.value, r.node)
        && r.node.offset < old(curNode).value.offset
    {
      if !IsReady(sourceReady) {
        return Ignored;
      }
      if passThrough {
        return GestureSent;
      }
      if curNode.None? {
        return NoCurrentNode;
      }
      var o := curNode.value.offset - 1;
      var c := NodeSearch.SearchOffset(mainNode.value, o);
      if c.None? {
        return AtBoundary;
      }
      NavTargetCovers(mainNode.value, o);
      var t := NavTarget(mainNode.value, o).value;
      curNode := Some(t);
      return MovedTo(t);
    }
  }
}
