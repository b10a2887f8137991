/**
 * The layered interaction-block parser: a `?[...]` block becomes a typed
 * result (a variable-binding input, a non-assignment button group, or an
 * error), and the result is flattened into the properties a remark node
 * carries.
 *
 * The source's `InteractionParser` class has no fields and an empty
 * constructor, so its members are module-level functions here.  Each
 * regular expression of the source is restated as an explicit scan.
 */
module InteractionParser {
  import opened Wrappers
  import opened JsStrings

  // ---------------------------------------------------------------------------
  // Data model
  // ---------------------------------------------------------------------------

  datatype InteractionType = TextOnly | ButtonsOnly | ButtonsWithText | NonAssignmentButton

  /** A button: the label shown and the value reported when it is chosen. */
  datatype Button = Button(display: string, value: string)

  /** The parse result: one constructor per interaction type, plus the error result (`type: null`). */
  datatype ParseResult =
    | TextOnlyResult(variable: string, question: string)
    | ButtonsOnlyResult(variable: string, buttons: seq<Button>)
    | ButtonsWithTextResult(variable: string, buttons: seq<Button>, question: string)
    | NonAssignmentButtonResult(buttons: seq<Button>)
    | ErrorResult(error: string)
  {
    /** The `type` field; `None` stands for `null`. */
    function Type(): Option<InteractionType>
    {
      match this
      case TextOnlyResult(_, _) => Some(TextOnly)
      case ButtonsOnlyResult(_, _) => Some(ButtonsOnly)
      case ButtonsWithTextResult(_, _, _) => Some(ButtonsWithText)
      case NonAssignmentButtonResult(_) => Some(NonAssignmentButton)
      case ErrorResult(_) => None
    }

    predicate IsVariable()
    {
      TextOnlyResult? || ButtonsOnlyResult? || ButtonsWithTextResult?
    }

    predicate HasButtons()
    {
      ButtonsOnlyResult? || ButtonsWithTextResult? || NonAssignmentButtonResult?
    }

    predicate HasQuestion()
    {
      TextOnlyResult? || ButtonsWithTextResult?
    }
  }

  // ---------------------------------------------------------------------------
  // Layer 1: the `?[...]` format gate, regex /\?\[([^\]]*)\](?!\()/
  // ---------------------------------------------------------------------------

  /** The span `[start, end)` of a regex match in the searched string. */
  datatype Match = Match(start: nat, end: nat)

  /**
   * The pattern matches `s` with its `?` at index `i` and its closing `]` at
   * index `j`: `?[`, a run without `]`, `]`, and no `(` right after it.
   */
  ghost predicate BlockSpan(s: string, i: nat, j: nat)
  {
    && i + 2 <= j < |s|
    && s[i] == '?' && s[i + 1] == '['
    && s[j] == ']'
    && (forall k | i + 2 <= k < j :: s[k] != ']')
    && (j + 1 == |s| || s[j + 1] != '(')
  }

  ghost predicate BlockStartsAt(s: string, i: nat)
  {
    exists j :: BlockSpan(s, i, j)
  }

  /** The first `]` at or after index `i`. */
  function FirstClose(s: string, i: nat): (r: Option<nat>)
    requires i <= |s|
    ensures r.Some? ==> i <= r.value < |s| && s[r.value] == ']'
    ensures r.Some? ==> forall k | i <= k < r.value :: s[k] != ']'
    ensures r.None? ==> forall k | i <= k < |s| :: s[k] != ']'
    decreases |s| - i
  {
    if i == |s| then None
    else if s[i] == ']' then Some(i)
    else FirstClose(s, i + 1)
  }

  /**
   * The end of the match whose `?` is at index `i`, if there is one.  The
   * `[^\]]*` run is greedy and cannot cross a `]`, so only the first `]`
   * after `?[` can close the match.
   */
  function MatchAt(s: string, i: nat): (r: Option<nat>)
    requires i <= |s|
    ensures r.Some? ==> r.value >= 1 && BlockSpan(s, i, r.value - 1)
    ensures r.None? ==> !BlockStartsAt(s, i)
  {
    if i + 2 <= |s| && s[i] == '?' && s[i + 1] == '[' then
      match FirstClose(s, i + 2)
      case None => None
      case Some(j) => if j + 1 < |s| && s[j + 1] == '(' then None else Some(j + 1)
    else
      None
  }

  /** `RegExp.prototype.exec` of the block pattern from index `i` on: the leftmost match. */
  function FindBlockFrom(s: string, i: nat): (r: Option<Match>)
    requires i <= |s|
    ensures r.Some? ==> i <= r.value.start && r.value.end >= 1 && BlockSpan(s, r.value.start, r.value.end - 1)
    ensures r.Some? ==> forall k | i <= k < r.value.start :: !BlockStartsAt(s, k)
    ensures r.None? ==> forall k | i <= k <= |s| :: !BlockStartsAt(s, k)
    decreases |s| - i
  {
    match MatchAt(s, i)
    case Some(e) => Some(Match(i, e))
    case None => if i == |s| then None else FindBlockFrom(s, i + 1)
  }

  /** The leftmost match of the block pattern in `s`, used by Layer 1 and by both remark plugins. */
  function FindBlock(s: string): (r: Option<Match>)
    ensures r.Some? ==> r.value.end >= 1 && BlockSpan(s, r.value.start, r.value.end - 1)
    ensures r.Some? ==> forall k | 0 <= k < r.value.start :: !BlockStartsAt(s, k)
    ensures r.None? ==> forall k | 0 <= k <= |s| :: !BlockStartsAt(s, k)
  {
    FindBlockFrom(s, 0)
  }

  /** A whole block: `?[`, a run without `]`, then the final `]`. */
  predicate IsWholeBlock(t: string)
  {
    && |t| >= 3
    && t[0] == '?' && t[1] == '['
    && t[|t| - 1] == ']'
    && (forall k | 2 <= k < |t| - 1 :: t[k] != ']')
  }

  /** `_layer1ValidateFormat`: the inner content of the block, or `None` (`null`). */
  function Layer1ValidateFormat(content: string): (r: Option<string>)
    ensures r.Some? ==> |r.value| + 3 <= |content|
    ensures r.Some? ==> forall k | 0 <= k < |r.value| :: r.value[k] != ']'
  {
    var t := Trim(content);
    match FindBlock(t)
    case None => None
    case Some(m) =>
      if Trim(t[m.start..m.end]) != t then None else Some(t[m.start + 2..m.end - 1])
  }

  /** Layer 1 accepts exactly the inputs that, trimmed, are one whole block, and returns what is inside the brackets. */
  lemma Layer1Characterization(content: string)
    ensures var t := Trim(content);
      Layer1ValidateFormat(content) == if IsWholeBlock(t) then Some(t[2..|t| - 1]) else None
  {
    var t := Trim(content);
    if IsWholeBlock(t) {
      WholeBlockFound(t);
      TrimTrimmed(t);
      assert t[0..|t|] == t;
    } else {
      match FindBlock(t)
      case None =>
      case Some(m) => SpanOfNonBlockIsNotAll(t);
    }
  }

  /** Layer 1 accepts a trimmed whole block and returns what is inside its brackets. */
  lemma WholeBlockInner(t: string)
    requires IsWholeBlock(t) && Trimmed(t)
    ensures Layer1ValidateFormat(t) == Some(t[2..|t| - 1])
  {
    TrimTrimmed(t);
    Layer1Characterization(t);
  }

  /** The pattern finds a whole block from its first to its last character. */
  lemma WholeBlockFound(t: string)
    requires IsWholeBlock(t)
    ensures FindBlock(t) == Some(Match(0, |t|))
  {
    assert BlockSpan(t, 0, |t| - 1);
    var m := FindBlock(t).value;
    assert m.start == 0;
    assert m.end == |t|;
  }

  /** In a string that is not one whole block, the span the pattern finds, trimmed, is not the whole string. */
  lemma SpanOfNonBlockIsNotAll(t: string)
    requires !IsWholeBlock(t) && FindBlock(t).Some?
    ensures var m := FindBlock(t).value; Trim(t[m.start..m.end]) != t
  {
    var m := FindBlock(t).value;
    SpanIsWholeBlock(t, m.start, m.end - 1);
    TrimTrimmed(t[m.start..m.end]);
  }

  /** A matched span is one whole block. */
  lemma SpanIsWholeBlock(value: string, i: nat, j: nat)
    requires BlockSpan(value, i, j)
    ensures IsWholeBlock(value[i..j + 1]) && Trimmed(value[i..j + 1])
  {
    var span := value[i..j + 1];
    assert forall k | 0 <= k < |span| :: span[k] == value[i + k];
  }

  // ---------------------------------------------------------------------------
  // Layer 2: the variable classifier,
  // regex /^%\{\{\s*([a-zA-Z_\u4e00-\u9fa5][a-zA-Z0-9_\u4e00-\u9fa5]*)\s*\}\}(.*)$/
  // ---------------------------------------------------------------------------

  predicate IsIdentStart(c: char)
  {
    ('a' <= c <= 'z') || ('A' <= c <= 'Z') || c == '_' || ('\U{4E00}' <= c <= '\U{9FA5}')
  }

  predicate IsIdentPart(c: char)
  {
    IsIdentStart(c) || ('0' <= c <= '9')
  }

  /** A variable name: a letter, `_` or CJK ideograph, then letters, digits, `_` or CJK ideographs. */
  predicate IsIdentifier(s: string)
  {
    |s| >= 1 && IsIdentStart(s[0]) && forall i | 1 <= i < |s| :: IsIdentPart(s[i])
  }

  /** The first index at or after `i` that does not hold an identifier character. */
  function SkipIdentPart(s: string, i: nat): (r: nat)
    requires i <= |s|
    ensures i <= r <= |s|
    ensures forall k | i <= k < r :: IsIdentPart(s[k])
    ensures r == |s| || !IsIdentPart(s[r])
    decreases |s| - i
  {
    if i < |s| && IsIdentPart(s[i]) then SkipIdentPart(s, i + 1) else i
  }

  /** The outcome of Layer 2: the source's `[hasVariable, variableName, remainingContent]`. */
  datatype Detection = Variable(name: string, rest: string) | NoVariable(content: string)

  /**
   * The Layer 2 regex matches `s` with the identifier at `[i, j)` and the
   * closing `}}` at `k`: `%{{`, whitespace, the identifier, whitespace, `}}`,
   * and a remainder that `(.*)$` can match, i.e. one with no line terminator.
   */
  predicate VariableShape(s: string, i: nat, j: nat, k: nat)
  {
    && 3 <= i <= j <= k && k + 2 <= |s|
    && s[..3] == "%{{"
    && AllWhitespace(s[3..i])
    && IsIdentifier(s[i..j])
    && AllWhitespace(s[j..k])
    && s[k] == '}' && s[k + 1] == '}'
    && NoLineTerminator(s[k + 2..])
  }

  /** `_layer2DetectVariable`: the regex's `^%\{\{`, then `\s*`, then the rest from the index that run stops at. */
  function Layer2DetectVariable(inner: string): (d: Detection)
    ensures d.NoVariable? ==> d.content == inner
    ensures d.Variable? ==> |inner| >= 3 && inner[..3] == "%{{"
  {
    if |inner| >= 3 && inner[..3] == "%{{" then DetectName(inner, SkipWhitespace(inner, 3)) else NoVariable(inner)
  }

  /** The regex from index `i` on: an identifier must start there; it runs as far as identifier characters go. */
  function DetectName(inner: string, i: nat): (d: Detection)
    requires i <= |inner|
    ensures d.NoVariable? ==> d.content == inner
  {
    if i < |inner| && IsIdentStart(inner[i]) then DetectClose(inner, i, SkipIdentPart(inner, i + 1)) else NoVariable(inner)
  }

  /** `}}` at `k`, then a remainder with no line terminator up to the end: what `\}\}(.*)$` needs there. */
  predicate ClosesAt(s: string, k: nat)
  {
    k + 2 <= |s| && s[k] == '}' && s[k + 1] == '}' && LineEnd(s, k + 2) == |s|
  }

  /**
   * The regex after the identifier `[i, j)`: `\s*`, `}}`, and a remainder
   * that the greedy `(.*)` runs through to the end (no line terminator).
   * Both captures are trimmed.
   */
  function DetectClose(inner: string, i: nat, j: nat): (d: Detection)
    requires i <= j <= |inner|
    ensures d.NoVariable? ==> d.content == inner
  {
    var k := SkipWhitespace(inner, j);
    if ClosesAt(inner, k) then
      Variable(Trim(inner[i..j]), Trim(inner[k + 2..]))
    else
      NoVariable(inner)
  }

  lemma IdentifierIsTrimmed(name: string)
    requires IsIdentifier(name)
    ensures Trim(name) == name
  {
    assert !IsWhitespace(name[0]) && !IsWhitespace(name[|name| - 1]);
    TrimTrimmed(name);
  }

  /** Whatever Layer 2 reports as a variable has the regex's shape; the name is the identifier, the rest the trimmed remainder. */
  lemma Layer2Sound(inner: string)
    ensures Layer2DetectVariable(inner).Variable? ==>
      exists i: nat, j: nat, k: nat :: VariableShape(inner, i, j, k)
                        && Layer2DetectVariable(inner).name == inner[i..j]
                        && Layer2DetectVariable(inner).rest == Trim(inner[k + 2..])
  {
    if Layer2DetectVariable(inner).Variable? {
      var i, j, k := Layer2Witness(inner);
    }
  }

  /** The identifier's and the closing braces' positions in input that Layer 2 reports as a variable. */
  lemma Layer2Witness(inner: string) returns (i: nat, j: nat, k: nat)
    requires Layer2DetectVariable(inner).Variable?
    ensures VariableShape(inner, i, j, k)
    ensures Layer2DetectVariable(inner) == Variable(inner[i..j], Trim(inner[k + 2..]))
  {
    i := SkipWhitespace(inner, 3);
    assert Layer2DetectVariable(inner) == DetectName(inner, i);
    assert i < |inner| && IsIdentStart(inner[i]);
    j := SkipIdentPart(inner, i + 1);
    assert DetectName(inner, i) == DetectClose(inner, i, j);
    k := SkipWhitespace(inner, j);
    CloseGuard(inner, i, j, k);
    ShapeWhereScansStop(inner, i, j, k);
  }

  /** When the part after the identifier matches, `}}` and a single line follow it; the result holds the two captures. */
  lemma CloseGuard(inner: string, i: nat, j: nat, k: nat)
    requires i <= j <= |inner| && DetectClose(inner, i, j).Variable? && k == SkipWhitespace(inner, j)
    ensures ClosesAt(inner, k)
    ensures DetectClose(inner, i, j) == Variable(Trim(inner[i..j]), Trim(inner[k + 2..]))
  {
    assert ClosesAt(inner, k);
    CloseAt(inner, i, j, k);
  }

  /** Where Layer 2's scans stop on input it accepts, the regex's shape holds and the identifier needs no trimming. */
  lemma ShapeWhereScansStop(inner: string, i: nat, j: nat, k: nat)
    requires |inner| >= 3 && inner[..3] == "%{{"
    requires i == SkipWhitespace(inner, 3) && i < |inner| && IsIdentStart(inner[i])
    requires j == SkipIdentPart(inner, i + 1) && k == SkipWhitespace(inner, j)
    requires ClosesAt(inner, k)
    ensures VariableShape(inner, i, j, k) && Trim(inner[i..j]) == inner[i..j]
  {
    var name := inner[i..j];
    assert IsIdentifier(name) by {
      assert name[0] == inner[i];
      assert forall p | 1 <= p < j - i :: name[p] == inner[i + p];
    }
    IdentifierIsTrimmed(name);
    LineEndIff(inner, k + 2);
  }

  /** `SkipWhitespace` stops exactly at the end of a whitespace run. */
  lemma SkipWhitespaceAt(s: string, a: nat, b: nat)
    requires a <= b <= |s| && AllWhitespace(s[a..b]) && (b == |s| || !IsWhitespace(s[b]))
    ensures SkipWhitespace(s, a) == b
  {
    var r := SkipWhitespace(s, a);
    assert forall p | a <= p < b :: IsWhitespace(s[p]) by {
      forall p | a <= p < b ensures IsWhitespace(s[p]) { assert s[a..b][p - a] == s[p]; }
    }
    assert forall p | a <= p < r :: IsWhitespace(s[p]) by {
      forall p | a <= p < r ensures IsWhitespace(s[p]) { assert s[a..r][p - a] == s[p]; }
    }
  }

  /** `SkipIdentPart` stops exactly at the end of an identifier. */
  lemma SkipIdentPartAt(s: string, a: nat, b: nat)
    requires a <= b <= |s| && (forall p | a <= p < b :: IsIdentPart(s[p])) && (b == |s| || !IsIdentPart(s[b]))
    ensures SkipIdentPart(s, a) == b
  {
  }

  /** Every input of the regex's shape is reported as that variable with that trimmed remainder. */
  lemma Layer2Complete(inner: string, i: nat, j: nat, k: nat)
    requires VariableShape(inner, i, j, k)
    ensures Layer2DetectVariable(inner) == Variable(inner[i..j], Trim(inner[k + 2..]))
  {
    var name := inner[i..j];
    assert inner[i] == name[0];
    SkipWhitespaceAt(inner, 3, i);
    assert forall p | i + 1 <= p < j :: IsIdentPart(inner[p]) by {
      forall p | i + 1 <= p < j ensures IsIdentPart(inner[p]) { assert inner[p] == name[p - i]; }
    }
    assert !IsIdentPart(inner[j]) by {
      if j < k { assert inner[j] == inner[j..k][0]; }
    }
    SkipIdentPartAt(inner, i + 1, j);
    SkipWhitespaceAt(inner, j, k);
    IdentifierIsTrimmed(name);
    LineEndIff(inner, k + 2);
    Layer2DetectsAt(inner, i, j, k);
  }

  /** Layer 2 once its three scans have stopped at `i`, `j` and `k`. */
  lemma Layer2DetectsAt(inner: string, i: nat, j: nat, k: nat)
    requires |inner| >= 3 && inner[..3] == "%{{"
    requires SkipWhitespace(inner, 3) == i && i < |inner| && IsIdentStart(inner[i])
    requires SkipIdentPart(inner, i + 1) == j
    requires SkipWhitespace(inner, j) == k
    requires ClosesAt(inner, k)
    ensures Layer2DetectVariable(inner) == Variable(Trim(inner[i..j]), Trim(inner[k + 2..]))
  {
    assert Layer2DetectVariable(inner) == DetectName(inner, i);
    assert DetectName(inner, i) == DetectClose(inner, i, j);
    CloseAt(inner, i, j, k);
  }

  /** The part after the identifier matches once whitespace, `}}` and a single line follow it. */
  lemma CloseAt(inner: string, i: nat, j: nat, k: nat)
    requires i <= j <= |inner| && SkipWhitespace(inner, j) == k && ClosesAt(inner, k)
    ensures DetectClose(inner, i, j) == Variable(Trim(inner[i..j]), Trim(inner[k + 2..]))
  {
    assert SkipWhitespace(inner, j) == k;
  }

  // ---------------------------------------------------------------------------
  // Layer 3 shared sub-rules
  // ---------------------------------------------------------------------------

  /** The option separator class `[|｜]`: ASCII or fullwidth vertical bar. */
  predicate IsSeparator(c: char)
  {
    c == '|' || c == '\U{FF5C}'
  }

  /** `/[|｜]/.test(s)` */
  predicate HasSeparator(s: string)
  {
    exists i | 0 <= i < |s| :: IsSeparator(s[i])
  }

  /** The first separator at or after index `i`. */
  function FirstSeparator(s: string, i: nat): (r: Option<nat>)
    requires i <= |s|
    ensures r.Some? ==> i <= r.value < |s| && IsSeparator(s[r.value])
    ensures r.Some? ==> forall k | i <= k < r.value :: !IsSeparator(s[k])
    ensures r.None? ==> forall k | i <= k < |s| :: !IsSeparator(s[k])
    decreases |s| - i
  {
    if i == |s| then None
    else if IsSeparator(s[i]) then Some(i)
    else FirstSeparator(s, i + 1)
  }

  /** `s.split(/[|｜]/)`: the pieces between separators, in order (one piece when there is no separator). */
  function SplitOptions(s: string): (pieces: seq<string>)
    ensures |pieces| >= 1
    decreases |s|
  {
    match FirstSeparator(s, 0)
    case None => [s]
    case Some(k) => [s[..k]] + SplitOptions(s[k + 1..])
  }

  /** No piece of a split holds a separator. */
  lemma {:induction false} SplitPiecesHaveNoSeparator(s: string)
    ensures forall p | p in SplitOptions(s) :: !HasSeparator(p)
    decreases |s|
  {
    match FirstSeparator(s, 0)
    case None =>
    case Some(k) =>
      assert !HasSeparator(s[..k]) by {
        forall p | 0 <= p < k ensures !IsSeparator(s[..k][p]) { assert s[..k][p] == s[p]; }
      }
      SplitPiecesHaveNoSeparator(s[k + 1..]);
      assert SplitOptions(s) == [s[..k]] + SplitOptions(s[k + 1..]);
  }

  /** The pieces joined with the ASCII separator: the inverse of `SplitOptions`. */
  function JoinOptions(pieces: seq<string>): string
    requires |pieces| >= 1
  {
    if |pieces| == 1 then pieces[0] else pieces[0] + "|" + JoinOptions(pieces[1..])
  }

  /** `s` with every fullwidth separator replaced by the ASCII one. */
  function UnifySeparators(s: string): (r: string)
    ensures |r| == |s|
  {
    seq(|s|, i requires 0 <= i < |s| => if IsSeparator(s[i]) then '|' else s[i])
  }

  /** Splitting forgets only which of the two separators stood between the pieces. */
  lemma {:induction false} JoinSplit(s: string)
    ensures JoinOptions(SplitOptions(s)) == UnifySeparators(s)
    decreases |s|
  {
    match FirstSeparator(s, 0)
    case None =>
      assert UnifySeparators(s) == s;
    case Some(k) =>
      JoinSplit(s[k + 1..]);
      var u := UnifySeparators(s);
      assert u[..k] == s[..k];
      assert u[k + 1..] == UnifySeparators(s[k + 1..]);
      assert u == u[..k] + [u[k]] + u[k + 1..];
  }

  /** Splitting a joined list of separator-free pieces gives the pieces back. */
  lemma {:induction false} SplitJoin(pieces: seq<string>)
    requires |pieces| >= 1
    requires forall p | p in pieces :: !HasSeparator(p)
    ensures SplitOptions(JoinOptions(pieces)) == pieces
    decreases |pieces|
  {
    var s := JoinOptions(pieces);
    assert !HasSeparator(pieces[0]);
    if |pieces| == 1 {
      assert FirstSeparator(s, 0).None?;
    } else {
      var p := pieces[0];
      var rest := JoinOptions(pieces[1..]);
      assert s == p + "|" + rest;
      assert forall q | 0 <= q < |p| :: s[q] == p[q];
      assert s[|p|] == '|';
      assert FirstSeparator(s, 0) == Some(|p|);
      assert s[..|p|] == p;
      assert s[|p| + 1..] == rest;
      assert forall q | q in pieces[1..] :: q in pieces;
      SplitJoin(pieces[1..]);
      assert pieces == [p] + pieces[1..];
    }
  }

  /** The ASCII and the fullwidth separator are interchangeable and may be mixed. */
  lemma {:induction false} SplitIgnoresSeparatorKind(s: string)
    ensures SplitOptions(UnifySeparators(s)) == SplitOptions(s)
  {
    JoinSplit(s);
    SplitPiecesHaveNoSeparator(s);
    SplitJoin(SplitOptions(s));
  }

  /** The ellipsis regex /^(.*?)\.\.\.(.*)/: the first `...` at or after `i`, unless a line terminator comes before it. */
  function FindEllipsis(s: string, i: nat): (r: Option<nat>)
    requires i <= |s|
    ensures r.Some? ==> i <= r.value && OccursAt(s, "...", r.value) && NoLineTerminator(s[i..r.value])
    ensures r.Some? ==> forall k | i <= k < r.value :: !OccursAt(s, "...", k)
    ensures r.None? ==> forall k | i <= k <= |s| :: OccursAt(s, "...", k) ==> !NoLineTerminator(s[i..k])
    decreases |s| - i
  {
    if OccursAt(s, "...", i) then Some(i)
    else if i == |s| || IsLineTerminator(s[i]) then
      assert forall k | i < k <= |s| :: s[i..k][0] == s[i];
      None
    else
      var r := FindEllipsis(s, i + 1);
      assert forall k | i + 1 <= k <= |s| :: s[i..k] == [s[i]] + s[i + 1..k];
      r
  }

  /** The end of the run of non-line-terminator characters starting at `i`: what a greedy `(.*)` takes. */
  function LineEnd(s: string, i: nat): (r: nat)
    requires i <= |s|
    ensures i <= r <= |s|
    ensures NoLineTerminator(s[i..r])
    ensures r == |s| || IsLineTerminator(s[r])
    decreases |s| - i
  {
    if i < |s| && !IsLineTerminator(s[i]) then
      var r := LineEnd(s, i + 1);
      assert s[i..r] == [s[i]] + s[i + 1..r];
      r
    else
      i
  }

  /** A greedy `(.*)` from `i` reaches the end of `s` exactly when no line terminator follows `i`. */
  lemma {:induction false} LineEndIff(s: string, i: nat)
    requires i <= |s|
    ensures LineEnd(s, i) == |s| <==> NoLineTerminator(s[i..])
    decreases |s| - i
  {
    if i < |s| {
      LineEndIff(s, i + 1);
      assert s[i..] == [s[i]] + s[i + 1..];
    }
  }

  /**
   * `k` can end group 1 of /^(.+?)\/\/(.+)$/ in `t`: at least one character
   * before `//` at index `k`, and at least one after it.
   */
  predicate SplitPoint(t: string, k: nat)
  {
    1 <= k && k + 2 < |t| && t[k] == '/' && t[k + 1] == '/'
  }

  /** The first split point at or after `k`. */
  function FirstSplitPoint(t: string, k: nat): (r: Option<nat>)
    ensures r.Some? ==> k <= r.value && SplitPoint(t, r.value)
    ensures r.Some? ==> forall j | k <= j < r.value :: !SplitPoint(t, j)
    ensures r.None? ==> forall j: nat | k <= j :: !SplitPoint(t, j)
    decreases |t| - k
  {
    if k + 2 >= |t| then None
    else if SplitPoint(t, k) then Some(k)
    else FirstSplitPoint(t, k + 1)
  }

  /**
   * The match of /^(.+?)\/\/(.+)$/ on `t`: the lazy group 1 takes the
   * first split point.  `.` refuses line terminators and both groups
   * together with `//` cover all of `t`, so a line terminator anywhere
   * in `t` means no match.
   */
  function ButtonValueSplit(t: string): (r: Option<nat>)
    ensures r.Some? ==> NoLineTerminator(t) && SplitPoint(t, r.value)
    ensures r.Some? ==> forall j: nat | j < r.value :: !SplitPoint(t, j)
    ensures r.None? ==> !NoLineTerminator(t) || forall j: nat :: !SplitPoint(t, j)
  {
    if NoLineTerminator(t) then FirstSplitPoint(t, 1) else None
  }

  /** `_parseSingleButton` */
  function ParseSingleButton(buttonText: string): (b: Button)
    ensures Trimmed(b.display) && Trimmed(b.value)
    ensures Trim(buttonText) != [] ==> b.display != [] && b.value != []
  {
    var t := Trim(buttonText);
    match ButtonValueSplit(t)
    case Some(k) =>
      assert t[..k][0] == t[0] && !IsWhitespace(t[0]);
      assert t[k + 2..][|t| - k - 3] == t[|t| - 1] && !IsWhitespace(t[|t| - 1]);
      Button(Trim(t[..k]), Trim(t[k + 2..]))
    case None => Button(t, t)
  }

  /**
   * A button is `display//value` split at the first `//` that has text on both
   * sides, both halves trimmed; when there is no such `//`, or the text spans
   * several lines, the trimmed text is both the display and the value.
   */
  lemma SingleButtonSplitsAtFirstDoubleSlash(buttonText: string, k: nat)
    ensures var t := Trim(buttonText);
      NoLineTerminator(t) && SplitPoint(t, k) && (forall j: nat | j < k :: !SplitPoint(t, j)) ==>
        ParseSingleButton(buttonText) == Button(Trim(t[..k]), Trim(t[k + 2..]))
  {
    var t := Trim(buttonText);
    if NoLineTerminator(t) && SplitPoint(t, k) && (forall j: nat | j < k :: !SplitPoint(t, j)) {
      var r := ButtonValueSplit(t);
      assert r.Some?;
      assert !(r.value < k);
      assert !(k < r.value);
    }
  }

  /** Without a `//` that has text on both sides, a button's display and value are both the trimmed text. */
  lemma SingleButtonFallback(buttonText: string)
    ensures var t := Trim(buttonText);
      (!NoLineTerminator(t) || forall k: nat :: !SplitPoint(t, k)) ==> ParseSingleButton(buttonText) == Button(t, t)
  {
  }

  /** The buttons one split piece contributes: none when it is blank. */
  function PieceButtons(piece: string): seq<Button>
  {
    var trimmed := Trim(piece);
    if trimmed != [] then [ParseSingleButton(trimmed)] else []
  }

  /** The buttons `_parseButtons` collects from split pieces: one per piece that is not blank, in order. */
  function CollectButtons(pieces: seq<string>): (bs: seq<Button>)
    ensures |bs| <= |pieces|
  {
    if pieces == [] then []
    else PieceButtons(pieces[0]) + CollectButtons(pieces[1..])
  }

  /** A button with trimmed, non-empty display text and value. */
  predicate Filled(b: Button)
  {
    b.display != [] && b.value != [] && Trimmed(b.display) && Trimmed(b.value)
  }

  predicate AllFilled(bs: seq<Button>)
  {
    forall i | 0 <= i < |bs| :: Filled(bs[i])
  }

  /** The button a piece gives, if any, is filled. */
  lemma PieceButtonsFilled(piece: string)
    ensures AllFilled(PieceButtons(piece))
  {
    TrimIdempotent(piece);
  }

  lemma FilledConcat(a: seq<Button>, b: seq<Button>)
    requires AllFilled(a) && AllFilled(b)
    ensures AllFilled(a + b)
  {
    forall i | 0 <= i < |a| + |b| ensures Filled((a + b)[i]) {
      if i < |a| { assert (a + b)[i] == a[i]; } else { assert (a + b)[i] == b[i - |a|]; }
    }
  }

  /** Every collected button has trimmed, non-empty display text and value. */
  lemma {:induction false} CollectedButtonsFilled(pieces: seq<string>)
    ensures AllFilled(CollectButtons(pieces))
  {
    if pieces != [] {
      PieceButtonsFilled(pieces[0]);
      CollectedButtonsFilled(pieces[1..]);
      FilledConcat(PieceButtons(pieces[0]), CollectButtons(pieces[1..]));
    }
  }

  /** No buttons come out exactly when every piece is blank. */
  lemma {:induction false} CollectButtonsEmpty(pieces: seq<string>)
    ensures CollectButtons(pieces) == [] <==> forall p | p in pieces :: AllWhitespace(p)
  {
    if pieces != [] {
      CollectButtonsEmpty(pieces[1..]);
      assert forall p | p in pieces :: p == pieces[0] || p in pieces[1..];
    }
  }

  /** What `_parseButtons` returns for `content`. */
  function Buttons(content: string): (bs: seq<Button>)
    ensures |bs| <= |SplitOptions(content)|
    ensures AllFilled(bs)
  {
    CollectedButtonsFilled(SplitOptions(content));
    CollectButtons(SplitOptions(content))
  }

  /** Collecting one more piece appends that piece's buttons. */
  lemma {:induction false} CollectButtonsSnoc(pieces: seq<string>, piece: string)
    ensures CollectButtons(pieces + [piece]) == CollectButtons(pieces) + PieceButtons(piece)
  {
    if pieces != [] {
      var longer := pieces + [piece];
      assert longer[0] == pieces[0] && longer[1..] == pieces[1..] + [piece];
      CollectButtonsSnoc(pieces[1..], piece);
      assert CollectButtons(longer) == PieceButtons(pieces[0]) + CollectButtons(pieces[1..] + [piece]);
    } else {
      assert [] + [piece] == [piece];
    }
  }

  /** Collecting one more piece of a list appends that piece's buttons. */
  lemma CollectPrefixStep(pieces: seq<string>, i: nat)
    requires i < |pieces|
    ensures CollectButtons(pieces[..i + 1]) == CollectButtons(pieces[..i]) + PieceButtons(pieces[i])
  {
    assert pieces[..i + 1] == pieces[..i] + [pieces[i]];
    CollectButtonsSnoc(pieces[..i], pieces[i]);
  }

  /** `_parseButtons`: split on `|` or `｜`, trim each piece, drop blank pieces, parse the rest in order. */
  method ParseButtons(content: string) returns (buttons: seq<Button>)
    ensures buttons == Buttons(content)
  {
    buttons := [];
    var buttonTexts := SplitOptions(content);
    var i := 0;
    while i < |buttonTexts|
      invariant 0 <= i <= |buttonTexts|
      invariant buttons == CollectButtons(buttonTexts[..i])
    {
      var piece := buttonTexts[i];
      CollectPrefixStep(buttonTexts, i);
      var trimmed := Trim(piece);
      if trimmed != [] {
        var button := ParseSingleButton(trimmed);
        buttons := buttons + [button];
      }
      i := i + 1;
    }
    assert buttonTexts[..|buttonTexts|] == buttonTexts;
  }

  /** Buttons never carry a separator: each comes from one piece between separators. */
  lemma {:induction false} CollectedButtonsHaveNoSeparator(pieces: seq<string>)
    requires forall p | p in pieces :: !HasSeparator(p)
    ensures forall b | b in CollectButtons(pieces) :: !HasSeparator(b.display) && !HasSeparator(b.value)
  {
    if pieces != [] {
      assert forall q | q in pieces[1..] :: q in pieces;
      CollectedButtonsHaveNoSeparator(pieces[1..]);
      PieceButtonsHaveNoSeparator(pieces[0]);
    }
  }

  /** The button a separator-free piece gives carries no separator. */
  lemma PieceButtonsHaveNoSeparator(p: string)
    requires !HasSeparator(p)
    ensures forall b | b in PieceButtons(p) :: !HasSeparator(b.display) && !HasSeparator(b.value)
  {
    var t := Trim(p);
    if t != [] {
      assert PieceButtons(p) == [ParseSingleButton(t)];
      TrimInside(p);
      SingleButtonNoSeparator(t);
    }
  }

  /** A button parsed from separator-free text holds no separator. */
  lemma SingleButtonNoSeparator(text: string)
    requires !HasSeparator(text)
    ensures !HasSeparator(ParseSingleButton(text).display) && !HasSeparator(ParseSingleButton(text).value)
  {
    var t := Trim(text);
    TrimInside(text);
    match ButtonValueSplit(t)
    case Some(k) =>
      SliceNoSeparator(t, 0, k);
      SliceNoSeparator(t, k + 2, |t|);
      TrimInside(t[..k]);
      TrimInside(t[k + 2..]);
    case None =>
  }

  /** No button `_parseButtons` returns holds a separator in its display text or value. */
  lemma ButtonsHaveNoSeparator(content: string)
    ensures forall b | b in Buttons(content) :: !HasSeparator(b.display) && !HasSeparator(b.value)
  {
    SplitPiecesHaveNoSeparator(content);
    CollectedButtonsHaveNoSeparator(SplitOptions(content));
  }

  /** A slice of a separator-free string is separator-free. */
  lemma SliceNoSeparator(s: string, a: nat, b: nat)
    requires a <= b <= |s| && !HasSeparator(s)
    ensures !HasSeparator(s[a..b])
  {
    forall p | 0 <= p < b - a ensures !IsSeparator(s[a..b][p]) { assert s[a..b][p] == s[a + p]; }
  }

  /** Trimming keeps a separator-free string separator-free. */
  lemma TrimInside(s: string)
    requires !HasSeparator(s)
    ensures !HasSeparator(Trim(s))
  {
    var a := SkipWhitespace(s, 0);
    var b := TrimEndIndex(s, a, |s|);
    SliceNoSeparator(s, a, b);
  }

  // ---------------------------------------------------------------------------
  // Layer 3: the two grammars
  // ---------------------------------------------------------------------------

  /** `_layer3ParseVariableInteraction` */
  function Layer3ParseVariableInteraction(variableName: string, content: string): (r: ParseResult)
    ensures r.IsVariable() && r.variable == variableName
    ensures r.HasQuestion() <==> FindEllipsis(content, 0).Some? || content == []
  {
    match FindEllipsis(content, 0)
    case Some(k) =>
      var beforeEllipsis := Trim(content[..k]);
      var question := Trim(content[k + 3..LineEnd(content, k + 3)]);
      if HasSeparator(beforeEllipsis) && beforeEllipsis != [] then
        ButtonsWithTextResult(variableName, Buttons(beforeEllipsis), question)
      else if beforeEllipsis != [] then
        ButtonsWithTextResult(variableName, Buttons(beforeEllipsis), question)
      else
        TextOnlyResult(variableName, question)
    case None =>
      if HasSeparator(content) && content != [] then
        ButtonsOnlyResult(variableName, Buttons(content))
      else if content != [] then
        ButtonsOnlyResult(variableName, [ParseSingleButton(content)])
      else
        TextOnlyResult(variableName, [])
  }

  /** `_layer3ParseDisplayButtons` */
  function Layer3ParseDisplayButtons(content: string): (r: ParseResult)
    ensures r.NonAssignmentButtonResult?
  {
    if content == [] then
      NonAssignmentButtonResult([Button([], [])])
    else if HasSeparator(content) then
      NonAssignmentButtonResult(Buttons(content))
    else
      NonAssignmentButtonResult([ParseSingleButton(content)])
  }

  /** The message of the error result for content that fails Layer 1. */
  function InvalidFormatMessage(content: string): string
  {
    "Invalid interaction format: " + content
  }

  /** `InteractionParser.parse` */
  function Parse(content: string): (r: ParseResult)
    ensures r.ErrorResult? <==> Layer1ValidateFormat(content).None?
    ensures r.ErrorResult? ==> r.error == InvalidFormatMessage(content)
  {
    match Layer1ValidateFormat(content)
    case None => ErrorResult(InvalidFormatMessage(content))
    case Some(innerContent) => ParseInner(innerContent)
  }

  /** Layers 2 and 3 of `parse`, on the content Layer 1 extracted. */
  function ParseInner(innerContent: string): (r: ParseResult)
    ensures !r.ErrorResult?
  {
    match Layer2DetectVariable(innerContent)
    case Variable(variableName, remainingContent) =>
      Layer3ParseVariableInteraction(variableName, remainingContent)
    case NoVariable(_) =>
      Layer3ParseDisplayButtons(innerContent)
  }

  // ---------------------------------------------------------------------------
  // Normalisers: parseToRemarkFormat and parseInteractionFormat
  // ---------------------------------------------------------------------------

  /** The remark-compatible properties; `None` is a field that is absent. */
  datatype RemarkProps = RemarkProps(
    variableName: Option<string>,
    buttonTexts: Option<seq<string>>,
    buttonValues: Option<seq<string>>,
    placeholder: Option<string>)

  /** `buttons.map(b => b.display)` */
  function Displays(buttons: seq<Button>): seq<string>
  {
    seq(|buttons|, i requires 0 <= i < |buttons| => buttons[i].display)
  }

  /** `buttons.map(b => b.value)` */
  function Values(buttons: seq<Button>): seq<string>
  {
    seq(|buttons|, i requires 0 <= i < |buttons| => buttons[i].value)
  }

  /** What `parseToRemarkFormat(content)` returns. */
  function RemarkFormat(content: string): (p: RemarkProps)
    ensures Parse(content).ErrorResult? ==> p == RemarkProps(None, None, None, Some(Trim(content)))
    ensures var r := Parse(content); !r.ErrorResult? ==>
      && (p.variableName.Some? <==> r.IsVariable())
      && (p.variableName.Some? ==> p.variableName.value == r.variable)
      && (p.buttonTexts.Some? <==> r.HasButtons())
      && (p.buttonValues.Some? <==> r.HasButtons())
      && (p.placeholder.Some? <==> r.HasQuestion())
      && (p.placeholder.Some? ==> p.placeholder.value == r.question)
    ensures p.buttonTexts.Some? ==>
      var r := Parse(content);
      && p.buttonValues.Some?
      && |p.buttonTexts.value| == |p.buttonValues.value| == |r.buttons|
      && forall i | 0 <= i < |r.buttons| ::
           p.buttonTexts.value[i] == r.buttons[i].display && p.buttonValues.value[i] == r.buttons[i].value
  {
    var r := Parse(content);
    if r.ErrorResult? then
      RemarkProps(None, None, None, Some(Trim(content)))
    else
      RemarkProps(
        if r.IsVariable() then Some(r.variable) else None,
        if r.HasButtons() then Some(Displays(r.buttons)) else None,
        if r.HasButtons() then Some(Values(r.buttons)) else None,
        if r.HasQuestion() then Some(r.question) else None)
  }

  /** `parseToRemarkFormat`: parse, then fill the flattened record field by field; errors become a placeholder. */
  method ParseToRemarkFormat(content: string) returns (remarkResult: RemarkProps)
    ensures remarkResult == RemarkFormat(content)
  {
    var result := Parse(content);
    if result.ErrorResult? {
      return RemarkProps(None, None, None, Some(Trim(content)));
    }
    remarkResult := RemarkProps(None, None, None, None);
    if result.NonAssignmentButtonResult? {
      remarkResult := remarkResult.(buttonTexts := Some(Displays(result.buttons)));
      remarkResult := remarkResult.(buttonValues := Some(Values(result.buttons)));
    } else {
      remarkResult := remarkResult.(variableName := Some(result.variable));
      if result.HasButtons() {
        remarkResult := remarkResult.(buttonTexts := Some(Displays(result.buttons)));
        remarkResult := remarkResult.(buttonValues := Some(Values(result.buttons)));
      }
      if result.HasQuestion() {
        remarkResult := remarkResult.(placeholder := Some(result.question));
      }
    }
  }

  /** The data record `parseInteractionFormat` returns beside the type. */
  datatype LegacyData = LegacyData(variable: Option<string>, buttons: Option<seq<Button>>, question: Option<string>)

  /** `parseInteractionFormat`: the type and the present fields; errors become a text-only question. */
  method ParseInteractionFormat(content: string) returns (interactionType: InteractionType, returnData: LegacyData)
    ensures Parse(content).ErrorResult? ==>
      interactionType == TextOnly && returnData == LegacyData(None, None, Some(Trim(content)))
    ensures var r := Parse(content); !r.ErrorResult? ==>
      && r.Type() == Some(interactionType)
      && returnData.variable == (if r.IsVariable() then Some(r.variable) else None)
      && returnData.buttons == (if r.HasButtons() then Some(r.buttons) else None)
      && returnData.question == (if r.HasQuestion() then Some(r.question) else None)
  {
    var result := Parse(content);
    if result.ErrorResult? {
      return TextOnly, LegacyData(None, None, Some(Trim(content)));
    }
    interactionType := result.Type().value;
    returnData := LegacyData(None, None, None);
    if !result.NonAssignmentButtonResult? {
      returnData := returnData.(variable := Some(result.variable));
      if result.HasButtons() {
        returnData := returnData.(buttons := Some(result.buttons));
      }
      if result.HasQuestion() {
        returnData := returnData.(question := Some(result.question));
      }
    } else {
      returnData := returnData.(buttons := Some(result.buttons));
    }
  }
}
