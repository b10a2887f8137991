/**
 * What the layered parser promises about whole inputs: which inputs are
 * errors, which bind a variable, how the two grammars read their content,
 * that every field comes out trimmed, and that a formatted button list
 * parses back to itself.
 */
module ParserProperties {
  import opened Wrappers
  import opened JsStrings
  import opened InteractionParser

  /** Parsing fails exactly when the trimmed input is not one whole `?[...]` block; the error names the input. */
  lemma ParseErrorIff(content: string)
    ensures Parse(content).ErrorResult? <==> !IsWholeBlock(Trim(content))
    ensures Parse(content).ErrorResult? ==> Parse(content).error == InvalidFormatMessage(content)
  {
    Layer1Characterization(content);
  }

  /**
   * For a whole block, the result binds a variable exactly when the inner
   * content has the `%{{name}}` shape; otherwise the whole inner content,
   * untrimmed, goes to the display-button grammar.
   */
  lemma ParseDispatch(content: string)
    requires IsWholeBlock(Trim(content))
    ensures var t := Trim(content); var inner := t[2..|t| - 1];
      && (Parse(content).IsVariable() <==> exists i: nat, j: nat, k: nat :: VariableShape(inner, i, j, k))
      && (!Parse(content).IsVariable() ==> Parse(content) == Layer3ParseDisplayButtons(inner))
  {
    var t := Trim(content);
    var inner := t[2..|t| - 1];
    assert Parse(content) == ParseInner(inner) by {
      Layer1Characterization(content);
    }
    InnerDispatch(inner);
  }

  /** Layers 2 and 3: a variable result exactly for the `%{{name}}` shape, the display-button grammar otherwise. */
  lemma InnerDispatch(inner: string)
    ensures ParseInner(inner).IsVariable() <==> exists i: nat, j: nat, k: nat :: VariableShape(inner, i, j, k)
    ensures !ParseInner(inner).IsVariable() ==> ParseInner(inner) == Layer3ParseDisplayButtons(inner)
  {
    Layer2Sound(inner);
    var d := Layer2DetectVariable(inner);
    if exists i: nat, j: nat, k: nat :: VariableShape(inner, i, j, k) {
      var i: nat, j: nat, k: nat :| VariableShape(inner, i, j, k);
      Layer2Complete(inner, i, j, k);
      assert ParseInner(inner) == Layer3ParseVariableInteraction(d.name, d.rest);
    } else {
      assert d.NoVariable?;
      assert ParseInner(inner) == Layer3ParseDisplayButtons(inner);
    }
  }

  /** A bound variable name is always an identifier, and the content handed to Layer 3 is one trimmed line. */
  lemma Layer2Outputs(inner: string)
    ensures var d := Layer2DetectVariable(inner);
      d.Variable? ==> IsIdentifier(d.name) && Trimmed(d.rest) && NoLineTerminator(d.rest)
  {
    Layer2Sound(inner);
    var d := Layer2DetectVariable(inner);
    if d.Variable? {
      var i: nat, j: nat, k: nat :| VariableShape(inner, i, j, k) && d.name == inner[i..j] && d.rest == Trim(inner[k + 2..]);
      TrimNoLineTerminator(inner[k + 2..]);
    }
  }

  /** Every variable a result binds is an identifier. */
  lemma ParseVariableIsIdentifier(content: string)
    ensures Parse(content).IsVariable() ==> IsIdentifier(Parse(content).variable)
  {
    match Layer1ValidateFormat(content)
    case None =>
    case Some(inner) => Layer2Outputs(inner);
  }

  /**
   * The variable grammar on one line with a first `...` at `k`: text before
   * it makes a button group with a question, blank text a question alone.
   * Whether that text holds a separator makes no difference.
   */
  lemma VariableGrammarWithEllipsis(variableName: string, content: string, k: nat)
    requires NoLineTerminator(content)
    requires OccursAt(content, "...", k) && forall j | 0 <= j < k :: !OccursAt(content, "...", j)
    ensures var before := Trim(content[..k]); var question := Trim(content[k + 3..]);
      Layer3ParseVariableInteraction(variableName, content) ==
        if before != [] then ButtonsWithTextResult(variableName, Buttons(before), question)
        else TextOnlyResult(variableName, question)
  {
    assert FindEllipsis(content, 0) == Some(k) by { FirstEllipsisFound(content, k); }
    var e := LineEnd(content, k + 3);
    assert content[k + 3..e] == content[k + 3..] by { LineEndOfSingleLine(content, k + 3); }
  }

  /** On one line, the ellipsis scan finds the first `...`. */
  lemma FirstEllipsisFound(content: string, k: nat)
    requires NoLineTerminator(content)
    requires OccursAt(content, "...", k) && forall j | 0 <= j < k :: !OccursAt(content, "...", j)
    ensures FindEllipsis(content, 0) == Some(k)
  {
    assert NoLineTerminator(content[0..k]) by {
      forall p | 0 <= p < k ensures !IsLineTerminator(content[0..k][p]) { assert content[0..k][p] == content[p]; }
    }
    var r := FindEllipsis(content, 0);
    if r.Some? {
      assert !(r.value < k);
      assert !(k < r.value);
    }
  }

  /** The variable grammar on one line without `...`: no content is an empty question, otherwise a button group. */
  lemma VariableGrammarWithoutEllipsis(variableName: string, content: string)
    requires forall j | 0 <= j <= |content| :: !OccursAt(content, "...", j)
    ensures Layer3ParseVariableInteraction(variableName, content) ==
      if content == [] then TextOnlyResult(variableName, [])
      else if HasSeparator(content) then ButtonsOnlyResult(variableName, Buttons(content))
      else ButtonsOnlyResult(variableName, [ParseSingleButton(content)])
  {
  }

  /** The display-button grammar yields no button only for a separator-delimited list of blank options. */
  lemma DisplayButtonsEmptyIff(content: string)
    ensures Layer3ParseDisplayButtons(content).buttons == [] <==>
      HasSeparator(content) && forall p | p in SplitOptions(content) :: AllWhitespace(p)
  {
    CollectButtonsEmpty(SplitOptions(content));
  }

  /**
   * The display-button grammar gives one empty button exactly for blank
   * content; any other content gives buttons with text on both sides.
   */
  lemma DisplayButtonsBlankIff(content: string)
    ensures var bs := Layer3ParseDisplayButtons(content).buttons;
      && (bs == [Button([], [])] <==> AllWhitespace(content))
      && (!AllWhitespace(content) ==> forall i | 0 <= i < |bs| :: bs[i].display != [] && bs[i].value != [])
  {
    CollectedButtonsFilled(SplitOptions(content));
    if AllWhitespace(content) && content != [] {
      assert !HasSeparator(content) by {
        forall p | 0 <= p < |content| ensures !IsSeparator(content[p]) { assert IsWhitespace(content[p]); }
      }
      assert Trim(content) == [];
      assert ButtonValueSplit([]).None?;
    } else if !AllWhitespace(content) {
      var bs := Layer3ParseDisplayButtons(content).buttons;
      assert bs != [Button([], [])] by {
        if |bs| == 1 { assert bs[0].display != []; }
      }
    }
  }

  /** No string field of a successful result has whitespace at either end. */
  predicate ButtonsTrimmed(bs: seq<Button>)
  {
    forall i | 0 <= i < |bs| :: Trimmed(bs[i].display) && Trimmed(bs[i].value)
  }

  predicate FieldsTrimmed(r: ParseResult)
  {
    match r
    case TextOnlyResult(v, q) => Trimmed(v) && Trimmed(q)
    case ButtonsOnlyResult(v, bs) => Trimmed(v) && ButtonsTrimmed(bs)
    case ButtonsWithTextResult(v, bs, q) => Trimmed(v) && ButtonsTrimmed(bs) && Trimmed(q)
    case NonAssignmentButtonResult(bs) => ButtonsTrimmed(bs)
    case ErrorResult(_) => true
  }

  /** Whitespace around the block, the variable, the options and the question never reaches the result. */
  lemma ParseFieldsTrimmed(content: string)
    ensures FieldsTrimmed(Parse(content))
  {
    match Layer1ValidateFormat(content)
    case None =>
    case Some(inner) =>
      match Layer2DetectVariable(inner)
      case Variable(name, rest) =>
        Layer2Outputs(inner);
        VariableGrammarTrimmed(name, rest);
      case NoVariable(_) =>
        DisplayGrammarTrimmed(inner);
  }

  lemma VariableGrammarTrimmed(variableName: string, content: string)
    requires Trimmed(variableName)
    ensures FieldsTrimmed(Layer3ParseVariableInteraction(variableName, content))
  {
    match FindEllipsis(content, 0)
    case Some(k) => FilledButtons(Trim(content[..k]));
    case None => FilledButtons(content);
  }

  lemma DisplayGrammarTrimmed(content: string)
    ensures FieldsTrimmed(Layer3ParseDisplayButtons(content))
  {
    if content != [] && HasSeparator(content) {
      assert Layer3ParseDisplayButtons(content).buttons == Buttons(content);
      FilledButtons(content);
    }
  }

  /** The buttons of a separated list have trimmed, non-empty display text and value. */
  lemma FilledButtons(content: string)
    ensures ButtonsTrimmed(Buttons(content))
    ensures forall i | 0 <= i < |Buttons(content)| :: Buttons(content)[i].display != [] && Buttons(content)[i].value != []
  {
    CollectedButtonsFilled(SplitOptions(content));
  }

  /** Every button the variable grammar produces has text on both sides. */
  lemma VariableButtonsNonBlank(content: string)
    ensures var r := Parse(content);
      r.IsVariable() && r.HasButtons() ==> forall i | 0 <= i < |r.buttons| :: r.buttons[i].display != [] && r.buttons[i].value != []
  {
    match Layer1ValidateFormat(content)
    case None =>
    case Some(inner) =>
      match Layer2DetectVariable(inner)
      case Variable(name, rest) =>
        Layer2Outputs(inner);
        VariableGrammarButtonsNonBlank(name, rest);
      case NoVariable(_) =>
  }

  lemma VariableGrammarButtonsNonBlank(variableName: string, content: string)
    requires Trimmed(content)
    ensures var r := Layer3ParseVariableInteraction(variableName, content);
      r.HasButtons() ==> forall i | 0 <= i < |r.buttons| :: r.buttons[i].display != [] && r.buttons[i].value != []
  {
    match FindEllipsis(content, 0)
    case Some(k) => FilledButtons(Trim(content[..k]));
    case None =>
      FilledButtons(content);
      if content != [] {
        TrimTrimmed(content);
      }
  }

  // ---------------------------------------------------------------------------
  // Round trip: formatting a button list and parsing it back
  // ---------------------------------------------------------------------------

  /**
   * A button with text on both sides, each trimmed and on one line: what
   * `_parseSingleButton` can return from a split.
   */
  predicate SingleLineButton(b: Button)
  {
    && b.display != [] && b.value != []
    && Trimmed(b.display) && Trimmed(b.value)
    && NoLineTerminator(b.display) && NoLineTerminator(b.value)
  }

  /**
   * A display after which the written `//` is the first split point.  The
   * lazy group needs one character, so a `//` at index 0 cannot end it; any
   * later `//` can, and so can a final `/` together with the written `//`,
   * unless that `/` is the whole display.
   */
  predicate SplitSafeDisplay(d: string)
  {
    && (forall i | 1 <= i < |d| - 1 :: !(d[i] == '/' && d[i + 1] == '/'))
    && (d != [] && d[|d| - 1] == '/' ==> |d| == 1)
  }

  /**
   * A button that the `display//value` notation can write down and read back
   * unchanged, also inside a list of options: no separator on either side,
   * and a display that keeps the split after itself.
   */
  predicate Writable(b: Button)
  {
    && SingleLineButton(b)
    && !HasSeparator(b.display) && !HasSeparator(b.value)
    && SplitSafeDisplay(b.display)
  }

  function FormatButton(b: Button): string
  {
    b.display + "//" + b.value
  }

  /** The options of a button list, `display//value` each, joined with `|`. */
  function FormatButtons(bs: seq<Button>): (s: string)
    requires |bs| >= 1
  {
    JoinOptions(seq(|bs|, i requires 0 <= i < |bs| => FormatButton(bs[i])))
  }

  /** A written button reads back as itself when its display keeps the split after itself. */
  lemma FormatButtonParses(b: Button)
    requires SingleLineButton(b) && SplitSafeDisplay(b.display)
    ensures ParseSingleButton(FormatButton(b)) == b
  {
    var t := FormatButton(b);
    var n := |b.display|;
    FormattedSingleLine(b);
    TrimTrimmed(t);
    FormattedFirstSplit(b);
    assert t[..n] == b.display && t[n + 2..] == b.value;
    SingleButtonSplitsAtFirstDoubleSlash(t, n);
    TrimTrimmed(b.display);
    TrimTrimmed(b.value);
  }

  /**
   * A single-line button reads back from `display//value` exactly when its
   * display keeps the split after itself; otherwise the display comes back
   * shorter.
   */
  lemma FormatButtonReadsBackIff(b: Button)
    requires SingleLineButton(b)
    ensures ParseSingleButton(FormatButton(b)) == b <==> SplitSafeDisplay(b.display)
  {
    if SplitSafeDisplay(b.display) {
      FormatButtonParses(b);
    } else {
      ShiftedSplitShortensDisplay(b);
    }
  }

  /** Outside the split-safe displays the split lands inside the display, which comes back shorter. */
  lemma ShiftedSplitShortensDisplay(b: Button)
    requires SingleLineButton(b) && !SplitSafeDisplay(b.display)
    ensures |ParseSingleButton(FormatButton(b)).display| < |b.display|
  {
    var t := FormatButton(b);
    var j := EarlySplitPoint(b);
    FormattedSingleLine(b);
    TrimTrimmed(t);
    var r := ButtonValueSplit(t);
    assert r.Some? && r.value <= j;
    assert ParseSingleButton(t).display == Trim(t[..r.value]);
  }

  /** A display outside the split-safe class puts a split point of the written button before its end. */
  lemma EarlySplitPoint(b: Button) returns (j: nat)
    requires b.display != [] && b.value != [] && !SplitSafeDisplay(b.display)
    ensures j < |b.display| && SplitPoint(FormatButton(b), j)
  {
    var t := FormatButton(b);
    var d := b.display;
    var n := |d|;
    if i :| 1 <= i < n - 1 && d[i] == '/' && d[i + 1] == '/' {
      assert t[i] == d[i] && t[i + 1] == d[i + 1];
      j := i;
    } else {
      assert t[n - 1] == d[n - 1] && t[n] == '/';
      j := n - 1;
    }
  }

  /** A written button is one trimmed line. */
  lemma FormattedSingleLine(b: Button)
    requires SingleLineButton(b)
    ensures Trimmed(FormatButton(b)) && NoLineTerminator(FormatButton(b))
  {
    var t := FormatButton(b);
    var n := |b.display|;
    assert t[0] == b.display[0] && t[|t| - 1] == b.value[|b.value| - 1];
    forall p | 0 <= p < |t| ensures !IsLineTerminator(t[p]) {
      if p < n { assert t[p] == b.display[p]; }
      else if p >= n + 2 { assert t[p] == b.value[p - n - 2]; }
    }
  }

  /** In a written button the first `//` with text on both sides is the one written after the display. */
  lemma FormattedFirstSplit(b: Button)
    requires SingleLineButton(b) && SplitSafeDisplay(b.display)
    ensures SplitPoint(FormatButton(b), |b.display|)
    ensures forall j: nat | j < |b.display| :: !SplitPoint(FormatButton(b), j)
  {
    var t := FormatButton(b);
    var n := |b.display|;
    forall j: nat | j < n ensures !SplitPoint(t, j) {
      assert t[j] == b.display[j];
      if j + 1 < n { assert t[j + 1] == b.display[j + 1]; }
    }
  }

  /**
   * The smallest case of a display outside the split-safe class: the display
   * `c/` with value `v` is written `c///v`, which splits after `c` and moves
   * the slash into the value.
   */
  lemma TrailingSlashShiftsSplit(c: char, v: string)
    requires !IsWhitespace(c) && c != '/'
    requires v != [] && Trimmed(v) && NoLineTerminator(v)
    ensures ParseSingleButton(FormatButton(Button([c, '/'], v))) == Button([c], "/" + v)
  {
    var t := FormatButton(Button([c, '/'], v));
    SlashesAfterChar(c, v);
    assert ParseSingleButton(t) == Button(Trim(t[..1]), Trim(t[3..])) by {
      SingleButtonSplitsAtFirstDoubleSlash(t, 1);
    }
    TrimTrimmed([c]);
    TrimTrimmed("/" + v);
  }

  /** `c///v` is one trimmed line whose first split point is at index 1. */
  lemma SlashesAfterChar(c: char, v: string)
    requires !IsWhitespace(c) && c != '/'
    requires v != [] && Trimmed(v) && NoLineTerminator(v)
    ensures var t := FormatButton(Button([c, '/'], v));
      Trim(t) == t && NoLineTerminator(t) && SplitPoint(t, 1) && forall j: nat | j < 1 :: !SplitPoint(t, j)
    ensures var t := FormatButton(Button([c, '/'], v));
      t[..1] == [c] && t[3..] == "/" + v && Trimmed("/" + v)
  {
    var t := FormatButton(Button([c, '/'], v));
    assert t == [c, '/', '/', '/'] + v;
    assert t[3..] == "/" + v;
    assert ("/" + v)[|v|] == v[|v| - 1];
    assert t[|t| - 1] == v[|v| - 1];
    TrimTrimmed(t);
    forall p | 0 <= p < |t| ensures !IsLineTerminator(t[p]) {
      if p >= 4 { assert t[p] == v[p - 4]; }
    }
  }

  /** A written button holds no separator. */
  lemma FormatButtonNoSeparator(b: Button)
    requires Writable(b)
    ensures !HasSeparator(FormatButton(b))
  {
    var t := FormatButton(b);
    var n := |b.display|;
    forall p | 0 <= p < |t| ensures !IsSeparator(t[p]) {
      if p < n { assert t[p] == b.display[p]; }
      else if p >= n + 2 { assert t[p] == b.value[p - n - 2]; }
    }
  }

  /** Collecting the written buttons gives the buttons back. */
  lemma {:induction false} CollectFormatted(bs: seq<Button>, pieces: seq<string>)
    requires forall i | 0 <= i < |bs| :: Writable(bs[i])
    requires |pieces| == |bs| && forall i | 0 <= i < |bs| :: pieces[i] == FormatButton(bs[i])
    ensures CollectButtons(pieces) == bs
  {
    if bs != [] {
      assert PieceButtons(pieces[0]) == [bs[0]] by { FormattedPieceButtons(bs[0]); }
      CollectFormatted(bs[1..], pieces[1..]);
      assert CollectButtons(pieces) == [bs[0]] + bs[1..];
      assert bs == [bs[0]] + bs[1..];
    }
  }

  /** A written button is one piece that gives that button. */
  lemma FormattedPieceButtons(b: Button)
    requires Writable(b)
    ensures PieceButtons(FormatButton(b)) == [b]
  {
    var t := FormatButton(b);
    assert t[0] == b.display[0] && t[|t| - 1] == b.value[|b.value| - 1];
    TrimTrimmed(t);
    FormatButtonParses(b);
  }

  /** `_parseButtons` reads a formatted button list back as that list. */
  lemma ButtonsRoundTrip(bs: seq<Button>)
    requires |bs| >= 1 && forall b | b in bs :: Writable(b)
    ensures Buttons(FormatButtons(bs)) == bs
  {
    var pieces := seq(|bs|, i requires 0 <= i < |bs| => FormatButton(bs[i]));
    forall p | p in pieces ensures !HasSeparator(p) {
      var i :| 0 <= i < |bs| && p == pieces[i];
      FormatButtonNoSeparator(bs[i]);
    }
    SplitJoin(pieces);
    assert forall i | 0 <= i < |bs| :: bs[i] in bs;
    CollectFormatted(bs, pieces);
  }

  // ---------------------------------------------------------------------------
  // Round trip: writing a whole interaction block and parsing it back
  // ---------------------------------------------------------------------------

  predicate NoClosingBracket(s: string)
  {
    forall i | 0 <= i < |s| :: s[i] != ']'
  }

  /** No `...` anywhere in `s`. */
  predicate NoEllipsis(s: string)
  {
    forall j | 0 <= j <= |s| :: !OccursAt(s, "...", j)
  }

  /** A button that can be written inside a block: writable and free of `]`. */
  predicate BlockWritable(b: Button)
  {
    Writable(b) && NoClosingBracket(b.display) && NoClosingBracket(b.value)
  }

  /** A block holding `inner` passes Layer 1 and hands `inner` to Layers 2 and 3. */
  lemma BlockParses(inner: string)
    requires NoClosingBracket(inner)
    ensures Parse("?[" + inner + "]") == ParseInner(inner)
  {
    var c := "?[" + inner + "]";
    assert Trimmed(c);
    TrimTrimmed(c);
    assert forall k | 2 <= k < |c| - 1 :: c[k] == inner[k - 2];
    assert IsWholeBlock(c);
    Layer1Characterization(c);
    assert c[2..|c| - 1] == inner;
  }

  /** A `%{{name}}` header is read as that variable, with the trimmed single-line tail as the rest. */
  lemma VariableHeader(name: string, tail: string)
    requires IsIdentifier(name) && NoLineTerminator(tail)
    ensures Layer2DetectVariable("%{{" + name + "}}" + tail) == Variable(name, Trim(tail))
  {
    var inner := "%{{" + name + "}}" + tail;
    var n := |name|;
    assert inner[3..3 + n] == name;
    assert inner[3 + n] == '}' && inner[4 + n] == '}';
    assert inner[3 + n + 2..] == tail;
    assert inner[..3] == "%{{";
    assert VariableShape(inner, 3, 3 + n, 3 + n);
    Layer2Complete(inner, 3, 3 + n, 3 + n);
  }

  lemma IdentifierNoClosingBracket(name: string)
    requires IsIdentifier(name)
    ensures NoClosingBracket(name) && NoLineTerminator(name)
  {
  }

  /** Characters that may appear in a single-line block body. */
  predicate LineSafe(s: string)
  {
    NoClosingBracket(s) && NoLineTerminator(s)
  }

  /** Joining keeps the pieces' characters and adds only `|`; it starts with the first piece and ends with the last. */
  lemma {:induction false} JoinShape(pieces: seq<string>)
    requires |pieces| >= 1
    requires forall p | p in pieces :: LineSafe(p)
    ensures var s := JoinOptions(pieces);
      && LineSafe(s)
      && |pieces[0]| <= |s| && s[..|pieces[0]|] == pieces[0]
      && |pieces[|pieces| - 1]| <= |s| && s[|s| - |pieces[|pieces| - 1]|..] == pieces[|pieces| - 1]
    decreases |pieces|
  {
    var s := JoinOptions(pieces);
    assert pieces[0] in pieces;
    if |pieces| > 1 {
      var rest := JoinOptions(pieces[1..]);
      assert forall p | p in pieces[1..] :: p in pieces;
      JoinShape(pieces[1..]);
      assert s == pieces[0] + "|" + rest;
      forall i | 0 <= i < |s| ensures s[i] != ']' && !IsLineTerminator(s[i]) {
        if i < |pieces[0]| { assert s[i] == pieces[0][i]; }
        else if i > |pieces[0]| { assert s[i] == rest[i - |pieces[0]| - 1]; }
      }
      assert pieces[1..][|pieces[1..]| - 1] == pieces[|pieces| - 1];
      assert s[|s| - |pieces[|pieces| - 1]|..] == rest[|rest| - |pieces[|pieces| - 1]|..];
    }
  }

  /** The written form of a button list: single-line, `]`-free, trimmed, starting with the first display, with a separator exactly when there are several buttons. */
  lemma FormattedShape(bs: seq<Button>)
    requires |bs| >= 1 && forall i | 0 <= i < |bs| :: BlockWritable(bs[i])
    ensures var s := FormatButtons(bs);
      && LineSafe(s) && Trimmed(s) && |FormatButton(bs[0])| <= |s| && s[..|FormatButton(bs[0])|] == FormatButton(bs[0])
      && (HasSeparator(s) <==> |bs| >= 2)
      && (|bs| == 1 ==> s == FormatButton(bs[0]))
  {
    var pieces := seq(|bs|, i requires 0 <= i < |bs| => FormatButton(bs[i]));
    var s := FormatButtons(bs);
    forall p | p in pieces ensures LineSafe(p) {
      var i :| 0 <= i < |bs| && p == pieces[i];
      var b := bs[i];
      var n := |b.display|;
      forall q | 0 <= q < |p| ensures p[q] != ']' && !IsLineTerminator(p[q]) {
        if q < n { assert p[q] == b.display[q]; }
        else if q >= n + 2 { assert p[q] == b.value[q - n - 2]; }
      }
    }
    JoinShape(pieces);
    var first := bs[0];
    var last := bs[|bs| - 1];
    assert BlockWritable(first) && BlockWritable(last);
    assert s[0] == s[..|pieces[0]|][0] == first.display[0];
    assert s[|s| - 1] == s[|s| - |pieces[|pieces| - 1]|..][|pieces[|pieces| - 1]| - 1] == last.value[|last.value| - 1];
    if |bs| >= 2 {
      assert s[|pieces[0]|] == '|';
    } else {
      FormatButtonNoSeparator(first);
    }
  }

  /** `s` begins with the `%{{` that opens a variable. */
  predicate StartsWithMarker(s: string)
  {
    |s| >= 3 && s[..3] == "%{{"
  }

  /** A written list whose first display does not begin with `%{{` does not begin with it either. */
  lemma FormattedNoMarker(bs: seq<Button>)
    requires |bs| >= 1 && forall i | 0 <= i < |bs| :: BlockWritable(bs[i])
    requires !StartsWithMarker(bs[0].display)
    ensures !StartsWithMarker(FormatButtons(bs))
  {
    var s := FormatButtons(bs);
    FormattedShape(bs);
    var d := bs[0].display;
    var f := FormatButton(bs[0]);
    assert |f| >= 4;
    assert s[..3] == f[..3];
    if |d| >= 3 {
      assert f[..3] == d[..3];
    } else {
      assert f[|d|] == '/';
    }
  }

  /** A written button list reads back as itself, through `_parseButtons` or, for one button, `_parseSingleButton`. */
  lemma FormattedReadsBack(bs: seq<Button>)
    requires |bs| >= 1 && forall i | 0 <= i < |bs| :: BlockWritable(bs[i])
    ensures var s := FormatButtons(bs);
      && Buttons(s) == bs
      && (!HasSeparator(s) ==> [ParseSingleButton(s)] == bs)
  {
    FormattedShape(bs);
    assert forall b | b in bs :: Writable(b);
    ButtonsRoundTrip(bs);
    if |bs| == 1 {
      FormatButtonParses(bs[0]);
    }
  }

  /** A display-button block written from a button list parses back to that list. */
  lemma DisplayBlockRoundTrip(bs: seq<Button>)
    requires |bs| >= 1 && forall i | 0 <= i < |bs| :: BlockWritable(bs[i])
    requires !StartsWithMarker(bs[0].display)
    ensures Parse("?[" + FormatButtons(bs) + "]") == NonAssignmentButtonResult(bs)
  {
    var s := FormatButtons(bs);
    FormattedShape(bs);
    FormattedNoMarker(bs);
    BlockParses(s);
    assert Layer2DetectVariable(s).NoVariable?;
    FormattedReadsBack(bs);
  }

  /** A block of a `%{{name}}` header and a single-line tail parses as the variable grammar on the trimmed tail. */
  lemma VariableBlockParses(name: string, tail: string)
    requires IsIdentifier(name) && LineSafe(tail)
    ensures Parse("?[%{{" + name + "}}" + tail + "]") == Layer3ParseVariableInteraction(name, Trim(tail))
  {
    IdentifierNoClosingBracket(name);
    var inner := "%{{" + name + "}}" + tail;
    assert "?[%{{" + name + "}}" + tail + "]" == "?[" + inner + "]";
    assert NoClosingBracket(inner) by {
      forall q | 0 <= q < |inner| ensures inner[q] != ']' {
        if 3 <= q < 3 + |name| { assert inner[q] == name[q - 3]; }
        else if q >= 5 + |name| { assert inner[q] == tail[q - 5 - |name|]; }
      }
    }
    BlockParses(inner);
    VariableHeader(name, tail);
  }

  /** One leading space keeps a single-line, bracket-free string so, and trimming removes it again. */
  lemma SpaceBefore(s: string)
    requires LineSafe(s) && Trimmed(s)
    ensures LineSafe(" " + s) && Trim(" " + s) == s
  {
    assert forall q | 1 <= q < |s| + 1 :: (" " + s)[q] == s[q - 1];
    TrimOfPadded(" ", s, []);
    assert " " + s + [] == " " + s;
  }

  /** A list, ` ...` and a question, each single-line and bracket-free, make a trimmed single line. */
  lemma QuestionAfter(s: string, question: string)
    requires LineSafe(s) && Trimmed(s) && s != []
    requires LineSafe(question) && Trimmed(question)
    ensures LineSafe(s + " ..." + question) && Trimmed(s + " ..." + question)
  {
    var n := |s|;
    var rest := s + " ..." + question;
    forall q | 0 <= q < |rest| ensures rest[q] != ']' && !IsLineTerminator(rest[q]) {
      if q < n { assert rest[q] == s[q]; }
      else if q >= n + 4 { assert rest[q] == question[q - n - 4]; }
    }
    assert rest[0] == s[0];
  }

  /** The block text of a list is the header followed by one space and the list. */
  lemma ListBlockText(name: string, s: string)
    ensures "?[%{{" + name + "}} " + s + "]" == "?[%{{" + name + "}}" + (" " + s) + "]"
  {
  }

  /** The block text of a list and a question is the header followed by one space and the tail. */
  lemma ListQuestionBlockText(name: string, s: string, question: string)
    ensures "?[%{{" + name + "}} " + s + " ..." + question + "]" == "?[%{{" + name + "}}" + (" " + (s + " ..." + question)) + "]"
  {
  }

  /** A variable block written from a name and a button list parses back to that choice. */
  lemma ButtonsOnlyBlockRoundTrip(name: string, bs: seq<Button>)
    requires IsIdentifier(name)
    requires |bs| >= 1 && forall i | 0 <= i < |bs| :: BlockWritable(bs[i])
    requires NoEllipsis(FormatButtons(bs))
    ensures Parse("?[%{{" + name + "}} " + FormatButtons(bs) + "]") == ButtonsOnlyResult(name, bs)
  {
    var s := FormatButtons(bs);
    FormattedShape(bs);
    SpaceBefore(s);
    ListBlockText(name, s);
    VariableBlockParses(name, " " + s);
    VariableGrammarWithoutEllipsis(name, s);
    FormattedReadsBack(bs);
  }

  /** A question-only block written from a name and a question parses back to them. */
  lemma TextOnlyBlockRoundTrip(name: string, question: string)
    requires IsIdentifier(name)
    requires LineSafe(question) && Trimmed(question)
    ensures Parse("?[%{{" + name + "}}..." + question + "]") == TextOnlyResult(name, question)
  {
    var tail := "..." + question;
    assert "?[%{{" + name + "}}..." + question + "]" == "?[%{{" + name + "}}" + tail + "]";
    assert forall q | 3 <= q < |tail| :: tail[q] == question[q - 3];
    assert Trimmed(tail);
    VariableBlockParses(name, tail);
    TrimTrimmed(tail);
    VariableGrammarWithEllipsis(name, tail, 0);
    assert tail[..0] == [] && tail[3..] == question;
    TrimTrimmed(question);
  }

  /** A block written from a name, a button list and a question parses back to them. */
  lemma ButtonsWithTextBlockRoundTrip(name: string, bs: seq<Button>, question: string)
    requires IsIdentifier(name)
    requires |bs| >= 1 && forall i | 0 <= i < |bs| :: BlockWritable(bs[i])
    requires NoEllipsis(FormatButtons(bs))
    requires LineSafe(question) && Trimmed(question)
    ensures Parse("?[%{{" + name + "}} " + FormatButtons(bs) + " ..." + question + "]") == ButtonsWithTextResult(name, bs, question)
  {
    var s := FormatButtons(bs);
    FormattedShape(bs);
    var rest := s + " ..." + question;
    QuestionAfter(s, question);
    SpaceBefore(rest);
    ListQuestionBlockText(name, s, question);
    VariableBlockParses(name, " " + rest);
    ListThenQuestion(name, bs, question);
  }

  /** The variable grammar reads a button list, ` ...`, and a question back as them. */
  lemma ListThenQuestion(name: string, bs: seq<Button>, question: string)
    requires |bs| >= 1 && forall i | 0 <= i < |bs| :: BlockWritable(bs[i])
    requires NoEllipsis(FormatButtons(bs))
    requires LineSafe(question) && Trimmed(question)
    ensures Layer3ParseVariableInteraction(name, FormatButtons(bs) + " ..." + question) == ButtonsWithTextResult(name, bs, question)
  {
    FormattedShape(bs);
    TextThenQuestion(name, FormatButtons(bs), question);
    FormattedReadsBack(bs);
  }

  /** Non-blank single-line text, ` ...` and a question: buttons from the text, and the question. */
  lemma TextThenQuestion(name: string, s: string, question: string)
    requires NoEllipsis(s) && NoLineTerminator(s) && Trimmed(s) && s != []
    requires NoLineTerminator(question) && Trimmed(question)
    ensures Layer3ParseVariableInteraction(name, s + " ..." + question) == ButtonsWithTextResult(name, Buttons(s), question)
  {
    var rest := s + " ..." + question;
    var k := |s| + 1;
    EllipsisAfterList(s, question);
    assert Trim(rest[..k]) == s by { TrimSpaceAfter(s); }
    assert Trim(rest[k + 3..]) == question by { TrimTrimmed(question); }
    VariableGrammarWithEllipsis(name, rest, k);
  }

  /** A trailing space is trimmed away. */
  lemma TrimSpaceAfter(s: string)
    requires Trimmed(s)
    ensures Trim(s + " ") == s
  {
    TrimOfPadded([], s, " ");
    assert [] + s + " " == s + " ";
  }

  /** In `s + " ..." + question`, with no `...` in `s`, the first `...` is the one after the space. */
  lemma EllipsisAfterList(s: string, question: string)
    requires NoEllipsis(s) && NoLineTerminator(s) && NoLineTerminator(question)
    ensures var rest := s + " ..." + question;
      && OccursAt(rest, "...", |s| + 1) && (forall j | 0 <= j < |s| + 1 :: !OccursAt(rest, "...", j))
      && NoLineTerminator(rest) && rest[..|s| + 1] == s + " " && rest[|s| + 4..] == question
  {
    var rest := s + " ..." + question;
    var n := |s|;
    assert rest == (s + " ") + ("..." + question);
    assert rest[..n + 1] == s + " ";
    assert rest[n + 4..] == ("..." + question)[3..] == question;
    assert NoLineTerminator(rest) by {
      forall q | 0 <= q < |rest| ensures !IsLineTerminator(rest[q]) {
        if q < n { assert rest[q] == s[q]; }
        else if q >= n + 4 { assert rest[q] == question[q - n - 4]; }
      }
    }
    assert rest[n + 1..n + 4] == "...";
    NoEllipsisBeforeSpace(s, "..." + question);
  }

  /** Text without `...`, then a space, holds no `...` starting before that space. */
  lemma NoEllipsisBeforeSpace(s: string, tail: string)
    requires NoEllipsis(s)
    ensures var rest := s + " " + tail;
      forall j | 0 <= j < |s| + 1 :: !OccursAt(rest, "...", j)
  {
    var rest := s + " " + tail;
    var n := |s|;
    forall j | 0 <= j < n + 1 ensures !OccursAt(rest, "...", j) {
      if j + 3 <= n {
        assert rest[j..j + 3] == s[j..j + 3];
        assert !OccursAt(s, "...", j);
      } else {
        assert rest[n] == ' ';
        assert j + 3 <= |rest| ==> rest[j..j + 3][n - j] == ' ';
      }
    }
  }

  /** A marker whose name starts with a character that cannot start an identifier is not a variable. */
  lemma BadNameIsNoVariable(w: string, c: char, tail: string)
    requires AllWhitespace(w) && !IsWhitespace(c) && !IsIdentStart(c)
    ensures Layer2DetectVariable("%{{" + w + [c] + tail).NoVariable?
  {
    var inner := "%{{" + w + [c] + tail;
    assert inner[..3] == "%{{";
    assert inner[3..3 + |w|] == w;
    assert inner[3 + |w|] == c;
    SkipWhitespaceAt(inner, 3, 3 + |w|);
  }

  /**
   * A block whose `%{{` is followed by a name that starts with a digit (or
   * any other character an identifier cannot start with) binds nothing:
   * the whole content becomes display buttons.
   */
  lemma BadNameBlockIsDisplayButtons(w: string, c: char, tail: string)
    requires AllWhitespace(w) && !IsWhitespace(c) && !IsIdentStart(c)
    requires NoClosingBracket("%{{" + w + [c] + tail)
    ensures var inner := "%{{" + w + [c] + tail;
      Parse("?[" + inner + "]") == Layer3ParseDisplayButtons(inner)
  {
    BlockParses("%{{" + w + [c] + tail);
    BadNameIsNoVariable(w, c, tail);
  }

  /** A greedy `(.*)` on a single line runs to the end. */
  lemma LineEndOfSingleLine(s: string, i: nat)
    requires i <= |s| && NoLineTerminator(s)
    ensures LineEnd(s, i) == |s|
  {
    assert forall p | 0 <= p < |s| - i :: s[i..][p] == s[i + p];
    LineEndIff(s, i);
  }
}
