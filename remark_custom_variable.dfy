/**
 * The `remarkCustomVariable` plugin's per-text-node callback: the same
 * first-block split and splice as `remarkInteraction`, after a pre-filter
 * that leaves blocks with a malformed variable marker (`%{` without `%{{`,
 * or the empty `%{{}}`) untouched.  Its `createSegments` is the same
 * function as the other plugin's, `RemarkInteraction.CreateSegments`.
 */
module RemarkCustomVariable {
  import opened Wrappers
  import opened JsStrings
  import opened InteractionParser
  import opened Unist
  import RemarkInteraction

  /**
   * The pre-filter: the block's inner content holds `%{` and either lacks
   * `%{{` or holds `%{{}}`.  An empty marker is always skipped, and content
   * that binds a variable is skipped only for an empty marker.
   */
  predicate SkippedByPrefilter(innerContent: string): (skip: bool)
    ensures Contains(innerContent, "%{{}}") ==> skip
    ensures skip && Layer2DetectVariable(innerContent).Variable? ==> Contains(innerContent, "%{{}}")
  {
    EmptyMarkerHasOpening(innerContent);
    VariableHasMarker(innerContent);
    Contains(innerContent, "%{") && (!Contains(innerContent, "%{{") || Contains(innerContent, "%{{}}"))
  }

  /** Content holding the empty marker `%{{}}` holds `%{`. */
  lemma EmptyMarkerHasOpening(innerContent: string)
    ensures Contains(innerContent, "%{{}}") ==> Contains(innerContent, "%{")
  {
    if Contains(innerContent, "%{{}}") {
      ContainsPrefixOf(innerContent, "%{{}}", "%{");
    }
  }

  /**
   * The parent's children after the callback has run on the text `value` at
   * `index`: unchanged when there is no block or the pre-filter skips it,
   * otherwise exactly what the interaction plugin's callback produces.
   */
  function Visited(children: seq<Node>, index: nat, value: string): (r: seq<Node>)
    requires index < |children|
    ensures FindBlock(value).None? ==> r == children
  {
    match FindBlock(value)
    case None => children
    case Some(m) =>
      if SkippedByPrefilter(value[m.start + 2..m.end - 1]) then children
      else RemarkInteraction.Visited(children, index, value)
  }

  /** A skipped block leaves the children as they were. */
  lemma SkippedLeavesChildren(children: seq<Node>, index: nat, value: string)
    requires index < |children| && FindBlock(value).Some?
    requires var m := FindBlock(value).value; SkippedByPrefilter(value[m.start + 2..m.end - 1])
    ensures Visited(children, index, value) == children
  {
  }

  /** A block the pre-filter keeps is spliced in as the interaction plugin splices it. */
  lemma KeptBlockIsSpliced(children: seq<Node>, index: nat, value: string)
    requires index < |children| && FindBlock(value).Some?
    requires var m := FindBlock(value).value; !SkippedByPrefilter(value[m.start + 2..m.end - 1])
    ensures Visited(children, index, value) == RemarkInteraction.Visited(children, index, value)
    ensures var m := FindBlock(value).value;
      Visited(children, index, value) == children[..index] + RemarkInteraction.BlockSegments(value, m) + children[index + 1..]
  {
  }

  /** The visitor callback: pre-filter the first block, then splice its segments over the text node. */
  method VisitText(node: Node, index: Option<nat>, parent: Parent?)
    requires node.Text?
    requires parent != null && index.Some? ==> index.value < |parent.children|
    modifies parent
    ensures parent != null && index.Some? ==> parent.children == Visited(old(parent.children), index.value, node.value)
    ensures parent != null && index.None? ==> parent.children == old(parent.children)
  {
    if index.None? || parent == null {
      return;
    }
    var value := node.value;
    var match_ := FindBlock(value);
    if match_.Some? {
      var fullMatch := value[match_.value.start..match_.value.end];
      var startIndex := match_.value.start;
      var endIndex := startIndex + |fullMatch|;
      var innerContent := value[match_.value.start + 2..match_.value.end - 1];
      if Contains(innerContent, "%{") {
        if !Contains(innerContent, "%{{") {
          SkippedLeavesChildren(parent.children, index.value, value);
          return;
        }
        if Contains(innerContent, "%{{}}") {
          SkippedLeavesChildren(parent.children, index.value, value);
          return;
        }
      }
      KeptBlockIsSpliced(parent.children, index.value, value);
      var parsedResult := ParseToRemarkFormat(fullMatch);
      var segments := RemarkInteraction.CreateSegments(value, startIndex, endIndex, parsedResult, RemarkInteraction.CustomVariableTag);
      assert segments == RemarkInteraction.BlockSegments(value, match_.value);
      parent.children := parent.children[..index.value] + segments + parent.children[index.value + 1..];
    }
  }

  /** A `%{` marker without `%{{` never binds a variable, so the first rule only drops blocks the parser would read as buttons. */
  lemma BareMarkerNeverBinds(innerContent: string)
    requires Contains(innerContent, "%{") && !Contains(innerContent, "%{{")
    ensures Layer2DetectVariable(innerContent).NoVariable?
  {
    VariableHasMarker(innerContent);
  }

  /** Inner content that binds a variable contains `%{{`. */
  lemma VariableHasMarker(innerContent: string)
    ensures Layer2DetectVariable(innerContent).Variable? ==> Contains(innerContent, "%{{")
  {
    if Layer2DetectVariable(innerContent).Variable? {
      ContainsPrefix(innerContent, "%{{");
    }
  }

  /** A block that binds a variable is dropped only for an empty `%{{}}` marker somewhere in it. */
  lemma PrefilterDropsVariableOnlyForEmptyMarker(innerContent: string)
    requires Layer2DetectVariable(innerContent).Variable?
    ensures SkippedByPrefilter(innerContent) <==> Contains(innerContent, "%{{}}")
  {
    ContainsPrefix(innerContent, "%{{");
    assert innerContent[..2] == "%{" by { assert innerContent[..2] == innerContent[..3][..2]; }
    ContainsPrefix(innerContent, "%{");
  }

  /** For a block the callback finds, a bare `%{` marker makes the element carry no variable name. */
  lemma BareMarkerBlockHasNoVariableName(value: string)
    requires FindBlock(value).Some?
    ensures var m := FindBlock(value).value; var inner := value[m.start + 2..m.end - 1];
      Contains(inner, "%{") && !Contains(inner, "%{{") ==> RemarkFormat(value[m.start..m.end]).variableName.None?
  {
    var m := FindBlock(value).value;
    var inner := value[m.start + 2..m.end - 1];
    RemarkInteraction.FoundBlockParses(value);
    if Contains(inner, "%{") && !Contains(inner, "%{{") {
      BareMarkerNeverBinds(inner);
    }
  }
}
