/**
 * The `remarkInteraction` plugin's per-text-node callback: find the first
 * interaction block in a text node and replace the node, in its parent's
 * children, by the text before the block, an element carrying the parsed
 * block, and the text after it.
 */
module RemarkInteraction {
  import opened Wrappers
  import opened JsStrings
  import opened InteractionParser
  import opened Unist

  /** The element name both plugins give the nodes they create. */
  const CustomVariableTag := "custom-variable"

  /** `createSegments`: text before `[startIndex, endIndex)`, an element, text after it. */
  function CreateSegments(value: string, startIndex: nat, endIndex: nat, parsedResult: RemarkProps, hName: string): (segments: seq<Node>)
    requires startIndex <= endIndex <= |value|
    ensures |segments| == 3 && segments[0].Text? && segments[2].Text?
    ensures segments[1] == Element(hName, parsedResult)
    ensures |segments[0].value| == startIndex
    ensures segments[0].value + value[startIndex..endIndex] + segments[2].value == value
  {
    assert value == value[..startIndex] + value[startIndex..endIndex] + value[endIndex..];
    [Text(value[..startIndex]), Element(hName, parsedResult), Text(value[endIndex..])]
  }

  /** The three nodes that replace a text node whose first block is `m`. */
  function BlockSegments(value: string, m: Match): seq<Node>
    requires m.start <= m.end <= |value|
  {
    CreateSegments(value, m.start, m.end, RemarkFormat(value[m.start..m.end]), CustomVariableTag)
  }

  /** The parent's children after the callback has run on the text `value` at `index`. */
  function Visited(children: seq<Node>, index: nat, value: string): (r: seq<Node>)
    requires index < |children|
    ensures FindBlock(value).None? ==> r == children
    ensures FindBlock(value).Some? ==>
      var m := FindBlock(value).value;
      && |r| == |children| + 2
      && r[..index] == children[..index]
      && r[index..index + 3] == BlockSegments(value, m)
      && r[index + 3..] == children[index + 1..]
  {
    match FindBlock(value)
    case None => children
    case Some(m) =>
      var segments := BlockSegments(value, m);
      SpliceThree(children, index, segments);
      children[..index] + segments + children[index + 1..]
  }

  /** Replacing one element by three keeps the elements before and after it in place. */
  lemma SpliceThree<T>(xs: seq<T>, index: nat, ys: seq<T>)
    requires index < |xs| && |ys| == 3
    ensures var r := xs[..index] + ys + xs[index + 1..];
      && |r| == |xs| + 2
      && r[..index] == xs[..index]
      && r[index..index + 3] == ys
      && r[index + 3..] == xs[index + 1..]
  {
    var r := xs[..index] + ys + xs[index + 1..];
    assert r[..index] == xs[..index];
    assert r[index..index + 3] == ys;
    assert r[index + 3..] == xs[index + 1..];
  }

  /** The visitor callback: splice the segments for the first block over the text node. */
  method VisitText(node: Node, index: Option<nat>, parent: Parent?)
    requires node.Text?
    requires parent != null && index.Some? ==> index.value < |parent.children|
    modifies parent
    ensures parent != null && index.Some? ==> parent.children == Visited(old(parent.children), index.value, node.value)
    ensures parent != null && index.None? ==> parent.children == old(parent.children)
  {
    if index.None? || parent == null {
      return;
    }
    var value := node.value;
    var match_ := FindBlock(value);
    if match_.Some? {
      var fullMatch := value[match_.value.start..match_.value.end];
      var startIndex := match_.value.start;
      var endIndex := startIndex + |fullMatch|;
      var parsedResult := ParseToRemarkFormat(fullMatch);
      var segments := CreateSegments(value, startIndex, endIndex, parsedResult, CustomVariableTag);
      parent.children := parent.children[..index.value] + segments + parent.children[index.value + 1..];
    }
  }

  /** The span the callback finds passes Layer 1, which extracts the same inner content as the match's group 1. */
  lemma FoundBlockParses(value: string)
    requires FindBlock(value).Some?
    ensures var m := FindBlock(value).value; var span := value[m.start..m.end];
      && Layer1ValidateFormat(span) == Some(value[m.start + 2..m.end - 1])
      && !Parse(span).ErrorResult?
  {
    FoundBlockInner(value);
  }

  /** Layer 1 extracts from the span the callback finds the content between `?[` and `]`. */
  lemma FoundBlockInner(value: string)
    requires FindBlock(value).Some?
    ensures var m := FindBlock(value).value;
      Layer1ValidateFormat(value[m.start..m.end]) == Some(value[m.start + 2..m.end - 1])
  {
    var m := FindBlock(value).value;
    SpanInner(value, m.start, m.end);
  }

  /** Layer 1 extracts from a block span `[a, b)` of a text the content between `?[` and `]`. */
  lemma SpanInner(value: string, a: nat, b: nat)
    requires a < b && BlockSpan(value, a, b - 1)
    ensures Layer1ValidateFormat(value[a..b]) == Some(value[a + 2..b - 1])
  {
    var span := value[a..b];
    assert span[2..|span| - 1] == value[a + 2..b - 1] by {
      SliceOfSlice(value, a, b, 2, b - a - 1);
    }
    assert Layer1ValidateFormat(span) == Some(span[2..|span| - 1]) by {
      SpanIsWholeBlock(value, a, b - 1);
      WholeBlockInner(span);
    }
  }

  /** The text left before the element holds no block, so the callback would leave it unchanged. */
  lemma PrefixHasNoBlock(value: string)
    requires FindBlock(value).Some?
    ensures FindBlock(value[..FindBlock(value).value.start]).None?
  {
    var m := FindBlock(value).value;
    var prefix := value[..m.start];
    forall k: nat, j: nat | BlockSpan(prefix, k, j) ensures k < m.start && BlockStartsAt(value, k) {
      assert forall p | 0 <= p < |prefix| :: prefix[p] == value[p];
      assert j + 1 < |value| ==> j + 1 == |prefix| || value[j + 1] == prefix[j + 1];
      assert j + 1 == |prefix| ==> value[j + 1] == '?';
      assert BlockSpan(value, k, j);
    }
  }

  /**
   * After the callback, the node at `index` is the text before the first
   * block (itself free of blocks), the next is the element for the block,
   * and the one after is the text after it; the three give back the value.
   */
  lemma VisitedSplitsFirstBlock(children: seq<Node>, index: nat, value: string)
    requires index < |children| && FindBlock(value).Some?
    ensures var m := FindBlock(value).value; var span := value[m.start..m.end]; var r := Visited(children, index, value);
      && r[index].Text? && r[index + 2].Text?
      && r[index].value + span + r[index + 2].value == value
      && r[index + 1] == Element(CustomVariableTag, RemarkFormat(span))
      && FindBlock(r[index].value).None?
  {
    var m := FindBlock(value).value;
    var r := Visited(children, index, value);
    var segments := BlockSegments(value, m);
    assert r[index..index + 3] == segments;
    assert r[index] == segments[0] && r[index + 1] == segments[1] && r[index + 2] == segments[2];
    assert segments[0].value == value[..m.start];
    PrefixHasNoBlock(value);
  }
}
