/**
 * The proparse token: its AppBuilder "editable section" classifier, its
 * natural/synthetic flag, its equality and hash code, and the re-typing of a
 * token.
 */
module ProTokens {
  import opened Optional
  import opened TextSplit

  // ---------------------------------------------------------------------------
  // Java's 32-bit int

  type Int32 = x: int | -0x8000_0000 <= x < 0x8000_0000

  /** Two's-complement wrap-around of a Java `int` computation. */
  function Wrap(x: int): (r: Int32)
    ensures (r - x) % 0x1_0000_0000 == 0
    ensures -0x8000_0000 <= x < 0x8000_0000 ==> r == x
  {
    (x + 0x8000_0000) % 0x1_0000_0000 - 0x8000_0000
  }

  /** The UTF-16 code units of a string, which is what Java strings hold. */
  function Utf16(s: string): (r: seq<int>)
    ensures |r| >= |s|
    ensures forall i :: 0 <= i < |r| ==> 0 <= r[i] < 0x1_0000
  {
    if s == [] then []
    else
      var c := s[0] as int;
      (if c < 0x1_0000 then [c]
       else [0xD800 + (c - 0x1_0000) / 0x400, 0xDC00 + (c - 0x1_0000) % 0x400])
      + Utf16(s[1..])
  }

  /** `h = 31 * h + x` for each element, wrapping on each step. */
  function PolyHash(start: Int32, xs: seq<int>): Int32
    decreases |xs|
  {
    if xs == [] then start else PolyHash(Wrap(31 * start + xs[0]), xs[1..])
  }

  /** Java's `String.hashCode`. */
  function StringHash(s: string): Int32 {
    PolyHash(0, Utf16(s))
  }

  /** Java's `Objects.hash` over the hash codes of its arguments. */
  function ObjectsHash(hashes: seq<Int32>): Int32 {
    PolyHash(1, hashes)
  }

  // ---------------------------------------------------------------------------
  // The AppBuilder classifier

  /** The items of an `&ANALYZE-SUSPEND` option string, split on commas. */
  function Attributes(s: string): (r: seq<string>)
    ensures CleanItems(r, ',')
  {
    SplitTrimmed(s, ',')
  }

  const CodeBlock := "_UIB-CODE-BLOCK"

  /** The decision table of the classifier, over the item list. */
  predicate Classify(attrs: seq<string>)
    ensures Classify(attrs) ==> |attrs| >= 2 && EqualsIgnoreCase(CodeBlock, attrs[0])
  {
    if |attrs| == 0 || !EqualsIgnoreCase(CodeBlock, attrs[0]) then false
    else if |attrs| >= 3 && EqualsIgnoreCase("_CUSTOM", attrs[1])
      && EqualsIgnoreCase("_DEFINITIONS", attrs[2]) then true
    else if |attrs| >= 2 && EqualsIgnoreCase("_CONTROL", attrs[1]) then true
    else if |attrs| == 4 && attrs[1] == "_PROCEDURE" then true
    else if |attrs| == 5 && attrs[1] == "_PROCEDURE" && attrs[4] == "_FREEFORM" then true
    else if |attrs| >= 2 && attrs[1] == "_FUNCTION" then true
    else false
  }

  /**
   * The static `isEditableInAB(str)`: whether an option string marks an
   * editable section of AppBuilder-managed code.
   */
  predicate EditableInAB(s: string)
    ensures EditableInAB(s) ==> |Attributes(s)| >= 2
  {
    Classify(Attributes(s))
  }

  /** Nothing is editable unless the first item is the code-block marker, in any case. */
  lemma EditableNeedsCodeBlock(s: string)
    ensures EditableInAB(s) ==>
      |Attributes(s)| >= 1 && EqualsIgnoreCase(CodeBlock, Attributes(s)[0])
  {
  }

  /** A custom definitions block is editable; both words match in any case. */
  lemma EditableCustomDefinitions(s: string)
    requires |Attributes(s)| >= 3 && EqualsIgnoreCase(CodeBlock, Attributes(s)[0])
    requires EqualsIgnoreCase("_CUSTOM", Attributes(s)[1])
    requires EqualsIgnoreCase("_DEFINITIONS", Attributes(s)[2])
    ensures EditableInAB(s)
  {
    var attrs := Attributes(s);
    assert Classify(attrs);
  }

  /** A control block is editable; the word matches in any case. */
  lemma EditableControl(s: string)
    requires |Attributes(s)| >= 2 && EqualsIgnoreCase(CodeBlock, Attributes(s)[0])
    requires EqualsIgnoreCase("_CONTROL", Attributes(s)[1])
    ensures EditableInAB(s)
  {
  }

  /** A function block is editable; the word must match exactly. */
  lemma EditableFunction(s: string)
    requires |Attributes(s)| >= 2 && EqualsIgnoreCase(CodeBlock, Attributes(s)[0])
    requires Attributes(s)[1] == "_FUNCTION"
    ensures EditableInAB(s)
  {
  }

  /**
   * A procedure block (the word matching exactly) is editable exactly with four
   * items, or with five whose last is exactly `_FREEFORM`.
   */
  lemma EditableProcedure(s: string)
    requires |Attributes(s)| >= 2 && EqualsIgnoreCase(CodeBlock, Attributes(s)[0])
    requires Attributes(s)[1] == "_PROCEDURE"
    ensures EditableInAB(s) <==>
      |Attributes(s)| == 4 || (|Attributes(s)| == 5 && Attributes(s)[4] == "_FREEFORM")
  {
    var attrs := Attributes(s);
    assert !EqualsIgnoreCase("_CUSTOM", attrs[1]) && !EqualsIgnoreCase("_CONTROL", attrs[1]) by {
      assert |attrs[1]| == 10;
    }
    assert attrs[1] != "_FUNCTION" by {
      assert |attrs[1]| == 10;
    }
    assert EditableInAB(s) == Classify(attrs);
  }

  /** Any other second item makes the section not editable. */
  lemma EditableOtherwiseFalse(s: string)
    requires |Attributes(s)| >= 2
    requires !EqualsIgnoreCase("_CUSTOM", Attributes(s)[1])
    requires !EqualsIgnoreCase("_CONTROL", Attributes(s)[1])
    requires Attributes(s)[1] != "_PROCEDURE" && Attributes(s)[1] != "_FUNCTION"
    ensures !EditableInAB(s)
  {
  }

  lemma WhitespaceNotComma(w: string)
    requires AllWhitespace(w)
    ensures ',' !in w
  {
    forall i | 0 <= i < |w| ensures w[i] != ',' {
      assert IsWhitespace(w[i]);
    }
  }

  lemma AttributesPaddedComma(a: string, w1: string, w2: string, b: string)
    requires AllWhitespace(w1) && AllWhitespace(w2)
    ensures Attributes(a + w1 + [','] + w2 + b) == Attributes(a + [','] + b)
  {
    WhitespaceNotComma(w1);
    WhitespaceNotComma(w2);
    RegroupPadded(a, w1, w2, b);
    SplitTrimmedPaddedEnd(a, w1, ',');
    SplitTrimmedPaddedStart(w2, b, ',');
    SplitTrimmedSides(a + w1, w2 + b, a, b, ',');
  }

  lemma RegroupPadded(a: string, w1: string, w2: string, b: string)
    ensures a + w1 + [','] + w2 + b == (a + w1) + [','] + (w2 + b)
  {
  }

  lemma RegroupBlank(a: string, w: string, b: string)
    ensures a + [','] + w + [','] + b == a + [','] + (w + [','] + b)
  {
  }

  /** Whitespace on either side of a comma does not change the outcome. */
  lemma PaddedCommaInvariant(a: string, w1: string, w2: string, b: string)
    requires AllWhitespace(w1) && AllWhitespace(w2)
    ensures EditableInAB(a + w1 + [','] + w2 + b) == EditableInAB(a + [','] + b)
  {
    AttributesPaddedComma(a, w1, w2, b);
  }

  lemma AttributesBlankItem(a: string, w: string, b: string)
    requires AllWhitespace(w)
    ensures Attributes(a + [','] + w + [','] + b) == Attributes(a + [','] + b)
  {
    WhitespaceNotComma(w);
    RegroupBlank(a, w, b);
    AttributesLeadingBlank(w, b);
    SplitTrimmedSides(a, w + [','] + b, a, b, ',');
  }

  /** An item that is empty or blank does not change the outcome. */
  lemma BlankItemInvariant(a: string, w: string, b: string)
    requires AllWhitespace(w)
    ensures EditableInAB(a + [','] + w + [','] + b) == EditableInAB(a + [','] + b)
  {
    AttributesBlankItem(a, w, b);
  }

  lemma AttributesLeadingBlank(w: string, b: string)
    requires AllWhitespace(w)
    ensures Attributes(w + [','] + b) == Attributes(b)
  {
    WhitespaceNotComma(w);
    SplitTrimmedConcat(w, b, ',');
    SplitTrimmedBlank(w, ',');
    assert [] + SplitTrimmed(b, ',') == SplitTrimmed(b, ',');
  }

  /** A leading blank item does not change the outcome. */
  lemma LeadingBlankItemInvariant(w: string, b: string)
    requires AllWhitespace(w)
    ensures EditableInAB(w + [','] + b) == EditableInAB(b)
  {
    AttributesLeadingBlank(w, b);
  }

  lemma AttributesTrailingBlank(a: string, w: string)
    requires AllWhitespace(w)
    ensures Attributes(a + [','] + w) == Attributes(a)
  {
    WhitespaceNotComma(w);
    SplitTrimmedConcat(a, w, ',');
    SplitTrimmedBlank(w, ',');
    assert SplitTrimmed(a, ',') + [] == SplitTrimmed(a, ',');
  }

  /** A trailing blank item does not change the outcome. */
  lemma TrailingBlankItemInvariant(a: string, w: string)
    requires AllWhitespace(w)
    ensures EditableInAB(a + [','] + w) == EditableInAB(a)
  {
    AttributesTrailingBlank(a, w);
  }

  /** An option string written from its items is classified by those items. */
  lemma EditableOfJoin(items: seq<string>)
    requires |items| >= 1 && CleanItems(items, ',')
    ensures EditableInAB(Join(items, ',')) == Classify(items)
  {
    SplitTrimmedJoin(items, ',');
  }

  /** The procedure word must match exactly. */
  lemma ProcedureIsCaseSensitive()
    ensures Classify(["_UIB-CODE-BLOCK", "_PROCEDURE", "enable_UI", "Procedure"])
    ensures !Classify(["_UIB-CODE-BLOCK", "_procedure", "enable_UI", "Procedure"])
  {
  }

  /** The free-form marker must match exactly. */
  lemma FreeformIsCaseSensitive()
    ensures Classify(["_UIB-CODE-BLOCK", "_PROCEDURE", "a", "b", "_FREEFORM"])
    ensures !Classify(["_UIB-CODE-BLOCK", "_PROCEDURE", "a", "b", "_freeform"])
  {
  }

  /** The code-block marker and the control word match in any case. */
  lemma ControlIgnoresCase()
    ensures Classify(["_uib-code-block", "_Control", "wWin"])
  {
  }

  // ---------------------------------------------------------------------------
  // The token

  /** An `ABLNodeType` constant, by its identity. */
  type NodeType = nat

  /** The nine fields that token equality compares. */
  datatype TokenKey = TokenKey(
    nodeType: Option<NodeType>, text: string, line: Int32, col: Int32, fileIndex: Int32,
    endFile: Int32, endLine: Int32, endColumn: Int32, macroSourceNum: Int32)

  class ProToken {
    var nodeType: Option<NodeType>
    const text: string
    const synthetic: bool
    const fileIndex: Int32
    const fileName: string
    const macroSourceNum: Int32
    const line: Int32
    const col: Int32
    const endFile: Int32
    const endLine: Int32
    const endColumn: Int32
    /** The `&ANALYZE-SUSPEND` options; None for code AppBuilder does not manage. */
    const analyzeSuspend: Option<string>
    const macroExpansion: bool

    /** The full constructor. */
    constructor (tokenType: NodeType, txt: string, file: Int32, name: string, ln: Int32, column: Int32,
                 lastFile: Int32, lastLine: Int32, lastColumn: Int32, macroSource: Int32,
                 suspend: Option<string>, isSynthetic: bool, isMacroExpansion: bool)
      ensures nodeType == Some(tokenType) && text == txt && fileIndex == file && fileName == name
      ensures line == ln && col == column && endFile == lastFile && endLine == lastLine
      ensures endColumn == lastColumn && macroSourceNum == macroSource
      ensures analyzeSuspend == suspend && synthetic == isSynthetic && macroExpansion == isMacroExpansion
    {
      nodeType := Some(tokenType);
      text := txt;
      fileIndex := file;
      fileName := name;
      macroSourceNum := macroSource;
      line := ln;
      col := column;
      endFile := lastFile;
      endLine := lastLine;
      endColumn := lastColumn;
      analyzeSuspend := suspend;
      synthetic := isSynthetic;
      macroExpansion := isMacroExpansion;
    }

    /**
     * The two-argument constructor: a synthetic token at position zero of file
     * zero, not a macro expansion, with an empty option string, so that it is
     * not editable.
     */
    constructor Generated(tokenType: NodeType, txt: string)
      ensures nodeType == Some(tokenType) && text == txt
      ensures fileIndex == 0 && fileName == "" && line == 0 && col == 0
      ensures endFile == 0 && endLine == 0 && endColumn == 0 && macroSourceNum == 0
      ensures analyzeSuspend == Some("") && synthetic && !macroExpansion
      ensures IsSynthetic() && !IsNatural()
    {
      nodeType := Some(tokenType);
      text := txt;
      fileIndex := 0;
      fileName := "";
      macroSourceNum := 0;
      line := 0;
      col := 0;
      endFile := 0;
      endLine := 0;
      endColumn := 0;
      analyzeSuspend := Some("");
      synthetic := true;
      macroExpansion := false;
    }

    /** Code outside AppBuilder is editable; otherwise the classifier decides. */
    predicate IsEditableInAB()
      ensures analyzeSuspend.None? ==> IsEditableInAB()
      ensures analyzeSuspend == Some("") ==> !IsEditableInAB()
    {
      EmptyOptionsNotEditable();
      analyzeSuspend.None? || EditableInAB(analyzeSuspend.value)
    }

    predicate IsSynthetic() {
      synthetic
    }

    /** A token is natural exactly when it is not synthetic. */
    predicate IsNatural()
      ensures IsNatural() <==> !IsSynthetic()
    {
      !synthetic
    }

    function Key(): TokenKey
      reads this
    {
      TokenKey(nodeType, text, line, col, fileIndex, endFile, endLine, endColumn, macroSourceNum)
    }

    /**
     * `equals`: true for another token with the same node type, text, start and
     * end positions and macro source; the synthetic and macro-expansion flags,
     * the file name and the option string play no part.
     */
    predicate Equals(other: ProToken?)
      reads this, other
      ensures Equals(other) <==> other != null && other.Key() == Key()
    {
      other != null && other.nodeType == nodeType && other.text == text && other.line == line
      && other.col == col && other.fileIndex == fileIndex && other.endFile == endFile
      && other.endLine == endLine && other.endColumn == endColumn
      && other.macroSourceNum == macroSourceNum
    }

    /**
     * `hashCode`, given the identity hash of each node type constant (0 stands
     * for a null node type).
     */
    function HashCode(typeHash: NodeType -> Int32): Int32
      reads this
    {
      ObjectsHash([if nodeType.Some? then typeHash(nodeType.value) else 0, StringHash(text),
                   line, col, fileIndex, endFile, endLine, endColumn, macroSourceNum])
    }

    /**
     * `setType`: the node type becomes the one the type table gives for the
     * number; an unknown number leaves it null and fails.
     */
    method SetType(typeNumber: int, table: map<int, NodeType>) returns (ok: bool)
      modifies this`nodeType
      ensures ok <==> typeNumber in table
      ensures ok ==> nodeType == Some(table[typeNumber])
      ensures !ok ==> nodeType == None
    {
      nodeType := if typeNumber in table then Some(table[typeNumber]) else None;
      ok := nodeType.Some?;
    }
  }

  lemma EmptyOptionsNotEditable()
    ensures !EditableInAB("")
  {
    SplitTrimmedBlank("", ',');
  }

  /** A token with an empty option string, as the two-argument constructor makes, is not editable. */
  lemma EmptyOptionsTokenNotEditable(t: ProToken)
    requires t.analyzeSuspend == Some("")
    ensures !t.IsEditableInAB()
  {
    EmptyOptionsNotEditable();
  }

  lemma EqualsReflexive(t: ProToken)
    ensures t.Equals(t)
  {
  }

  lemma EqualsSymmetric(a: ProToken, b: ProToken)
    ensures a.Equals(b) <==> b.Equals(a)
  {
  }

  lemma EqualsTransitive(a: ProToken, b: ProToken, c: ProToken)
    requires a.Equals(b) && b.Equals(c)
    ensures a.Equals(c)
  {
  }

  /** Equal tokens have equal hash codes. */
  lemma EqualHashCodes(a: ProToken, b: ProToken, typeHash: NodeType -> Int32)
    requires a.Equals(b)
    ensures a.HashCode(typeHash) == b.HashCode(typeHash)
  {
  }
}
