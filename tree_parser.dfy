/**
 * The bookkeeping of the semantic tree parser: the current scope and block
 * and the block stack, the context-qualifier side table, the resolution of
 * record names, the reference log of symbols, and the table and index
 * definitions of DEFINE TEMP-TABLE.
 *
 * The scopes, blocks, tables and buffers the parser creates and updates are
 * kept in arenas inside the parser and named by their position; the scope
 * lookups and the schema, which are not part of this model, are passed in as
 * `Lookups`.
 */
module TreeParsers {
  import opened Optional
  import opened TextSplit
  import opened TreeModel

  /** The kind of the parent node of a field reference, as far as field() looks at it. */
  datatype ParentKind = FieldsPhrase | ExceptPhrase | OtherParent

  /** How field() ended. */
  datatype FieldResult =
    | FrameInput                          // an INPUT field: looked up in frames, which this parser leaves out
    | BlockLookup(getBufferScope: bool)   // resolution ANY: the block's field lookup decides
    | DroppedInPhrase                     // an unknown name inside FIELDS or EXCEPT is ignored
    | TableField(buffer: BufferId, field: string)

  /** The parents of all scopes, in order. */
  function ParentsOf(scopes: seq<Scope>): (r: seq<Option<ScopeId>>)
    ensures |r| == |scopes|
    ensures forall i :: 0 <= i < |scopes| ==> r[i] == scopes[i].parent
    decreases |scopes|
  {
    if scopes == [] then [] else ParentsOf(scopes[..|scopes| - 1]) + [scopes[|scopes| - 1].parent]
  }

  lemma ParentsOfSame(a: seq<Scope>, b: seq<Scope>)
    requires |a| == |b| && forall i :: 0 <= i < |a| ==> a[i].parent == b[i].parent
    ensures ParentsOf(a) == ParentsOf(b)
  {
    assert forall i :: 0 <= i < |a| ==> ParentsOf(a)[i] == ParentsOf(b)[i];
  }

  /** The nesting invariant, on the values of the parser's fields. */
  predicate NestOk(scopes: seq<Scope>, blockCount: nat, stack: seq<BlockId>, scope: Option<ScopeId>, block: Option<BlockId>) {
    && |scopes| >= 1
    && (forall i :: 0 <= i < |scopes| && scopes[i].parent.Some? ==> scopes[i].parent.value < i)
    && (forall i :: 0 <= i < |scopes| && scopes[i].rootBlock.Some? ==> scopes[i].rootBlock.value < blockCount)
    && (forall i :: 0 <= i < |stack| ==> stack[i] < blockCount)
    && (scope.Some? ==> scope.value < |scopes|)
    && (block.Some? ==> block.value < blockCount)
    && (|stack| > 0 ==> block == Some(stack[|stack| - 1]))
  }

  /** A nesting state inside the program block, with a current scope, is ready for the pure model. */
  lemma NestOkReady(scopes: seq<Scope>, blockCount: nat, stack: seq<BlockId>, scope: Option<ScopeId>, block: Option<BlockId>)
    requires NestOk(scopes, blockCount, stack, scope, block) && |stack| >= 1 && scope.Some?
    ensures Nest(ParentsOf(scopes), blockCount, stack, scope, block).Ready()
  {
  }

  /** The table invariant: every buffer, index and table named exists. */
  predicate TablesOk(tables: seq<Table>, buffers: seq<Buffer>,
                     defTable: Option<BufferId>, defIndex: Option<IndexRef>, like: Option<TableId>) {
    && (forall i :: 0 <= i < |buffers| ==> buffers[i].table < |tables|)
    && (defTable.Some? ==> defTable.value < |buffers|)
    && (defIndex.Some? ==> defIndex.value.table < |tables| && defIndex.value.position < |tables[defIndex.value.table].indexes|)
    && (like.Some? ==> like.value < |tables|)
  }

  class TreeParser {
    /** The root scope is the first scope. */
    const rootScope: ScopeId := 0

    // Nesting
    var scopes: seq<Scope>
    var blocks: seq<Block>
    var blockStack: seq<BlockId>
    var currentScope: Option<ScopeId>
    var currentBlock: Option<BlockId>
    var blockOfNode: map<NodeId, BlockId>

    // Tables and the temp-table being defined
    var tables: seq<Table>
    var buffers: seq<Buffer>
    var currDefTable: Option<BufferId>
    var currDefIndex: Option<IndexRef>
    var currDefTableUseIndex: bool
    var currDefTableLike: Option<TableId>

    // Side tables of the parse tree
    var contextQualifiers: map<NodeId, ContextQualifier>
    var nameResolution: map<NodeId, TableNameResolution>

    /**
     * What resolving names records: the qualifier, abbreviation, buffer and
     * buffer-scope attributes set on nodes, the calls of noteReference, and
     * the last and previous tables referenced.
     */
    var resolved: RecordState

    // Further attributes set on field nodes
    var symbolOf: map<NodeId, SymbolRef>
    var storeTypeOf: map<NodeId, StoreType>

    var inDefineEvent: bool

    ghost predicate NestValid()
      reads this`scopes, this`blocks, this`blockStack, this`currentScope, this`currentBlock
    {
      NestOk(scopes, |blocks|, blockStack, currentScope, currentBlock)
    }

    ghost predicate TablesValid()
      reads this`tables, this`buffers, this`resolved, this`currDefTable, this`currDefIndex, this`currDefTableLike
    {
      TablesOk(tables, buffers, currDefTable, currDefIndex, currDefTableLike) && resolved.Within(|buffers|)
    }

    /** The nesting state, as the pure model of block and scope nesting sees it. */
    ghost function NestOf(): (n: Nest)
      reads this`scopes, this`blocks, this`blockStack, this`currentScope, this`currentBlock
      requires NestValid()
      ensures n.ScopeExists()
    {
      Nest(ParentsOf(scopes), |blocks|, blockStack, currentScope, currentBlock)
    }

    /** What resolving record names reads, with the lookups `env` of the scopes and the schema. */
    ghost function RecordCtx(env: Lookups): RecordContext
      reads this`currentScope, this`currentBlock, this`buffers, this`tables
    {
      RecordContext(env, currentScope, currentBlock, buffers, tables)
    }

    /** A new parser over a schema: only the root scope exists, and it is current. */
    constructor (schema: seq<Table>)
      ensures NestValid() && TablesValid()
      ensures scopes == [Scope(None, None, [])] && blocks == [] && blockStack == []
      ensures currentScope == Some(rootScope) && currentBlock == None && blockOfNode == map[]
      ensures tables == schema && buffers == []
      ensures currDefTable == None && currDefIndex == None && !currDefTableUseIndex && currDefTableLike == None
      ensures contextQualifiers == map[] && nameResolution == map[]
      ensures resolved == RecordState(map[], {}, map[], map[], [], None, None)
      ensures symbolOf == map[] && storeTypeOf == map[] && !inDefineEvent
    {
      scopes := [Scope(None, None, [])];
      blocks := [];
      blockStack := [];
      currentScope := Some(0);
      currentBlock := None;
      blockOfNode := map[];
      tables := schema;
      buffers := [];
      currDefTable := None;
      currDefIndex := None;
      currDefTableUseIndex := false;
      currDefTableLike := None;
      contextQualifiers := map[];
      nameResolution := map[];
      resolved := RecordState(map[], {}, map[], map[], [], None, None);
      symbolOf := map[];
      storeTypeOf := map[];
      inDefineEvent := false;
    }

    // -------------------------------------------------------------------------
    // Blocks and scopes

    method PushBlock(b: BlockId) returns (top: BlockId)
      modifies this`blockStack
      ensures blockStack == old(blockStack) + [b] && top == b
    {
      blockStack := blockStack + [b];
      top := b;
    }

    /**
     * Removes the last entry and returns the new last one. With one entry
     * the removal happens and the read of the empty list throws; with none,
     * the removal throws.
     */
    method PopBlock() returns (r: Outcome<BlockId>)
      modifies this`blockStack
      ensures |old(blockStack)| == 0 ==> r == Threw(IndexOutOfBounds) && blockStack == []
      ensures |old(blockStack)| == 1 ==> r == Threw(IndexOutOfBounds) && blockStack == []
      ensures |old(blockStack)| >= 2 ==>
        blockStack == old(blockStack)[..|old(blockStack)| - 1] && r == Normal(old(blockStack)[|old(blockStack)| - 2])
    {
      if |blockStack| == 0 {
        return Threw(IndexOutOfBounds);
      }
      blockStack := blockStack[..|blockStack| - 1];
      if |blockStack| == 0 {
        return Threw(IndexOutOfBounds);
      }
      r := Normal(blockStack[|blockStack| - 1]);
    }

    /** The program block: the root block of the root scope, pushed and made current. */
    method EnterProgram(node: NodeId, programRoot: NodeType)
      requires NestValid()
      modifies this`blocks, this`blockStack, this`currentBlock, this`scopes, this`blockOfNode
      ensures NestValid()
      ensures blocks == old(blocks) + [Block(RootOf(rootScope), programRoot)]
      ensures blockStack == old(blockStack) + [|old(blocks)|] && currentBlock == Some(|old(blocks)|)
      ensures scopes == old(scopes)[rootScope := old(scopes)[rootScope].(rootBlock := Some(|old(blocks)|))]
      ensures blockOfNode == old(blockOfNode)[node := |old(blocks)|]
      ensures currentScope.Some? ==> NestOf().Ready()
    {
      var b := |blocks|;
      blocks := blocks + [Block(RootOf(rootScope), programRoot)];
      var top := PushBlock(b);
      currentBlock := Some(top);
      scopes := scopes[rootScope := scopes[rootScope].(rootBlock := Some(b))];
      blockOfNode := blockOfNode[node := b];
      ParentsOfSame(old(scopes), scopes);
      assert NestValid();
      if currentScope.Some? {
        NestOkReady(scopes, |blocks|, blockStack, currentScope, currentBlock);
      }
    }

    /** A new block inside the current one, pushed and made current. */
    method BlockBegin(node: NodeId, nodeType: NodeType)
      requires NestValid()
      modifies this`blocks, this`blockStack, this`currentBlock, this`blockOfNode
      ensures NestValid()
      ensures NestStep(old(NestOf()), BeginBlock) == Normal(NestOf())
      ensures blocks == old(blocks) + [Block(InBlock(old(currentBlock)), nodeType)]
      ensures blockOfNode == old(blockOfNode)[node := |old(blocks)|]
    {
      var b := |blocks|;
      blocks := blocks + [Block(InBlock(currentBlock), nodeType)];
      var top := PushBlock(b);
      currentBlock := Some(top);
      blockOfNode := blockOfNode[node := b];
    }

    /** `currentBlock = popBlock()`: the block to return to is taken from the stack. */
    method BlockEnd() returns (r: Outcome<()>)
      requires NestValid()
      modifies this`blockStack, this`currentBlock
      ensures NestValid()
      ensures NestStep(old(NestOf()), EndBlock) == if r.Normal? then Normal(NestOf()) else Threw(IndexOutOfBounds)
      ensures r == if |old(blockStack)| >= 2 then Normal(()) else Threw(IndexOutOfBounds)
      ensures r.Normal? ==> blockStack == old(blockStack)[..|old(blockStack)| - 1] && currentBlock == Some(blockStack[|blockStack| - 1])
      ensures r.Threw? ==> blockStack == [] && currentBlock == old(currentBlock)
    {
      var top := PopBlock();
      if top.Threw? {
        return Threw(top.exception);
      }
      currentBlock := Some(top.value);
      r := Normal(());
    }

    /**
     * A new scope under the current one becomes current, with a new root
     * block pushed and made current.
     */
    method ScopeAdd(node: NodeId, nodeType: NodeType) returns (r: Outcome<()>)
      requires NestValid()
      modifies this`scopes, this`blocks, this`blockStack, this`currentScope, this`currentBlock, this`blockOfNode
      ensures NestValid()
      ensures NestStep(old(NestOf()), AddScope) == if r.Normal? then Normal(NestOf()) else Threw(NullPointer)
      ensures r.Threw? ==> r == Threw(NullPointer) && old(currentScope).None?
      ensures r.Threw? ==> scopes == old(scopes) && blocks == old(blocks) && blockOfNode == old(blockOfNode)
      ensures r.Normal? ==> scopes == old(scopes) + [Scope(old(currentScope), Some(|old(blocks)|), [])]
      ensures r.Normal? ==> blocks == old(blocks) + [Block(RootOf(|old(scopes)|), nodeType)]
      ensures r.Normal? ==> blockOfNode == old(blockOfNode)[node := |old(blocks)|]
    {
      if currentScope.None? {
        return Threw(NullPointer);
      }
      var s := |scopes|;
      var b := |blocks|;
      scopes := scopes + [Scope(currentScope, Some(b), [])];
      currentScope := Some(s);
      blocks := blocks + [Block(RootOf(s), nodeType)];
      var top := PushBlock(b);
      currentBlock := Some(top);
      blockOfNode := blockOfNode[node := b];
      r := Normal(());
      assert scopes[..s] == old(scopes);
    }

    /** The parent scope becomes current again, and the current block is ended. */
    method ScopeClose() returns (r: Outcome<()>)
      requires NestValid()
      modifies this`currentScope, this`blockStack, this`currentBlock
      ensures NestValid()
      ensures NestStep(old(NestOf()), CloseScope) == if r.Normal? then Normal(NestOf()) else Threw(r.exception)
      ensures old(currentScope).None? ==>
        r == Threw(NullPointer) && currentScope == None && blockStack == old(blockStack) && currentBlock == old(currentBlock)
      ensures old(currentScope).Some? ==> currentScope == scopes[old(currentScope).value].parent
      ensures old(currentScope).Some? && r.Threw? ==>
        r == Threw(IndexOutOfBounds) && blockStack == [] && currentBlock == old(currentBlock)
    {
      if currentScope.None? {
        return Threw(NullPointer);
      }
      currentScope := scopes[currentScope.value].parent;
      r := BlockEnd();
    }

    /**
     * Makes `scope` current again in place of a new one: the block pushed
     * for the new scope is ended, and the root block of `scope` is pushed and
     * made current.
     */
    method ScopeSwap(scope: ScopeId) returns (r: Outcome<()>)
      requires NestValid()
      requires scope < |scopes| && scopes[scope].rootBlock.Some?
      modifies this`currentScope, this`blockStack, this`currentBlock
      ensures NestValid()
      ensures currentScope == Some(scope)
      ensures |old(blockStack)| < 2 ==> r == Threw(IndexOutOfBounds) && blockStack == [] && currentBlock == old(currentBlock)
      ensures |old(blockStack)| >= 2 ==>
        && r == Normal(())
        && blockStack == old(blockStack)[..|old(blockStack)| - 1] + [scopes[scope].rootBlock.value]
        && currentBlock == scopes[scope].rootBlock
    {
      currentScope := Some(scope);
      var popped := PopBlock();
      if popped.Threw? {
        return Threw(popped.exception);
      }
      currentBlock := Some(popped.value);
      var top := PushBlock(scopes[scope].rootBlock.value);
      currentBlock := Some(top);
      r := Normal(());
    }

    /** FOR: a new block, with its record phrase qualified INITWEAK. */
    method EnterForstate(node: NodeId, nodeType: NodeType, recordSpec: NodeId)
      requires NestValid()
      modifies this`blocks, this`blockStack, this`currentBlock, this`blockOfNode, this`contextQualifiers
      ensures NestValid()
      ensures NestStep(old(NestOf()), BeginBlock) == Normal(NestOf())
      ensures blocks == old(blocks) + [Block(InBlock(old(currentBlock)), nodeType)]
      ensures blockOfNode == old(blockOfNode)[node := |old(blocks)|]
      ensures contextQualifiers == old(contextQualifiers)[recordSpec := InitWeak]
    {
      BlockBegin(node, nodeType);
      contextQualifiers := contextQualifiers[recordSpec := InitWeak];
    }

    method ExitForstate() returns (r: Outcome<()>)
      requires NestValid()
      modifies this`blockStack, this`currentBlock
      ensures NestValid()
      ensures NestStep(old(NestOf()), EndBlock) == if r.Normal? then Normal(NestOf()) else Threw(IndexOutOfBounds)
    {
      r := BlockEnd();
    }

    // -------------------------------------------------------------------------
    // Symbols and references

    /** Adds a symbol to the current scope at the end of its statement, except inside DEFINE EVENT. */
    method AddToSymbolScope(sym: SymbolRef) returns (r: Outcome<()>)
      requires NestValid()
      modifies this`scopes
      ensures NestValid() && NestOf() == old(NestOf())
      ensures inDefineEvent ==> r == Normal(()) && scopes == old(scopes)
      ensures !inDefineEvent && currentScope.None? ==> r == Threw(NullPointer) && scopes == old(scopes)
      ensures !inDefineEvent && currentScope.Some? ==>
        r == Normal(()) &&
        scopes == old(scopes)[currentScope.value := old(scopes)[currentScope.value].(symbols := old(scopes)[currentScope.value].symbols + [sym])]
    {
      if inDefineEvent {
        return Normal(());
      }
      if currentScope.None? {
        return Threw(NullPointer);
      }
      var s := currentScope.value;
      scopes := scopes[s := scopes[s].(symbols := scopes[s].symbols + [sym])];
      ParentsOfSame(old(scopes), scopes);
      r := Normal(());
    }

    method EnterDefineEvent()
      modifies this`inDefineEvent
      ensures inDefineEvent
    {
      inDefineEvent := true;
    }

    /** The flag is cleared before the event is added, so the event itself does reach the scope. */
    method ExitDefineEvent(event: SymbolRef) returns (r: Outcome<()>)
      requires NestValid()
      modifies this`inDefineEvent, this`scopes
      ensures NestValid() && NestOf() == old(NestOf()) && !inDefineEvent
      ensures currentScope.None? ==> r == Threw(NullPointer) && scopes == old(scopes)
      ensures currentScope.Some? ==>
        r == Normal(()) &&
        scopes == old(scopes)[currentScope.value := old(scopes)[currentScope.value].(symbols := old(scopes)[currentScope.value].symbols + [event])]
    {
      inDefineEvent := false;
      r := AddToSymbolScope(event);
    }

    /** A reference is noted only on a node with a symbol, and only when it writes. */
    method NoteReference(symbol: Option<SymbolRef>, cq: Option<ContextQualifier>)
      modifies this`resolved
      ensures resolved.(references := old(resolved).references) == old(resolved)
      ensures symbol.Some? && cq.Some? && IsWrite(cq.value) ==>
        resolved.references == old(resolved).references + [Reference(symbol.value, cq.value)]
      ensures !(symbol.Some? && cq.Some? && IsWrite(cq.value)) ==> resolved == old(resolved)
    {
      if symbol.Some? && cq.Some? && IsWrite(cq.value) {
        resolved := resolved.(references := resolved.references + [Reference(symbol.value, cq.value)]);
      }
    }

    // -------------------------------------------------------------------------
    // The qualifier side table

    /** `contextQualifiers.removeFrom(k)`: the entry is read and consumed. */
    method RemoveQualifier(k: NodeId) returns (q: Option<ContextQualifier>)
      modifies this`contextQualifiers
      ensures q.Some? <==> k in old(contextQualifiers)
      ensures q.Some? ==> q.value == old(contextQualifiers)[k]
      ensures contextQualifiers == old(contextQualifiers) - {k}
    {
      q := if k in contextQualifiers then Some(contextQualifiers[k]) else None;
      contextQualifiers := contextQualifiers - {k};
    }

    /** `nameResolution.removeFrom(k)`. */
    method RemoveResolution(k: NodeId) returns (t: Option<TableNameResolution>)
      modifies this`nameResolution
      ensures t.Some? <==> k in old(nameResolution)
      ensures t.Some? ==> t.value == old(nameResolution)[k]
      ensures nameResolution == old(nameResolution) - {k}
    {
      t := if k in nameResolution then Some(nameResolution[k]) else None;
      nameResolution := nameResolution - {k};
    }

    /** `contextQualifiers.put(k, q)` for each key in turn. */
    method PutEach(keys: seq<NodeId>, q: Option<ContextQualifier>)
      modifies this`contextQualifiers
      ensures contextQualifiers == PutAll(old(contextQualifiers), keys, q)
    {
      var i := 0;
      while i < |keys|
        invariant 0 <= i <= |keys|
        invariant contextQualifiers == PutAll(old(contextQualifiers), keys[..i], q)
      {
        assert keys[..i + 1][..i] == keys[..i];
        assert PutAll(old(contextQualifiers), keys[..i + 1], q) == Put(PutAll(old(contextQualifiers), keys[..i], q), keys[i], q);
        contextQualifiers := Put(contextQualifiers, keys[i], q);
        i := i + 1;
      }
      assert keys[..|keys|] == keys;
    }

    /**
     * An expression passes its qualifier on, unchanged, to each child
     * expression term and then to each child expression; without one it
     * passes nothing.
     */
    method EnterExpression(ctx: NodeId, exprts: seq<NodeId>, exprs: seq<NodeId>)
      modifies this`contextQualifiers
      ensures ctx !in old(contextQualifiers) ==> contextQualifiers == old(contextQualifiers)
      ensures ctx in old(contextQualifiers) ==>
        contextQualifiers == PutAll(old(contextQualifiers) - {ctx}, exprts + exprs, Some(old(contextQualifiers)[ctx]))
    {
      var qual := RemoveQualifier(ctx);
      if qual.Some? {
        ghost var base := contextQualifiers;
        PutEach(exprts, qual);
        PutEach(exprs, qual);
        PutAllAppend(base, exprts, exprs, qual);
      } else {
        assert contextQualifiers == old(contextQualifiers);
      }
    }

    /** A form item list passes its qualifier, even a missing one, to every child. */
    method EnterFormItemsOrRecord(ctx: NodeId, children: seq<NodeId>)
      modifies this`contextQualifiers
      ensures contextQualifiers == PutAll(old(contextQualifiers) - {ctx}, children,
        if ctx in old(contextQualifiers) then Some(old(contextQualifiers)[ctx]) else None)
    {
      var qual := RemoveQualifier(ctx);
      PutEach(children, qual);
    }

    // -------------------------------------------------------------------------
    // Record names

    /** recordNodeSymbol, as NodeSymbolStep describes it. */
    method RecordNodeSymbol(node: NodeId, text: string, buffer: Option<BufferId>) returns (r: Outcome<()>)
      requires TablesValid() && (buffer.Some? ==> buffer.value < |buffers|)
      modifies this`resolved
      ensures TablesValid()
      ensures var st := NodeSymbolStep(buffers, tables, old(resolved), node, text, buffer);
        resolved == st.state && r == st.AsOutcome()
    {
      if buffer.None? {
        return Threw(UnresolvedTable(text));
      }
      var b := buffer.value;
      resolved := resolved.(prev := resolved.last, last := buffer);
      var ab := Abbreviation(buffers[b], tables[buffers[b].table], text);
      if ab.None? {
        return Threw(IndexOutOfBounds);
      }
      if ab.value {
        resolved := resolved.(abbreviated := resolved.abbreviated + {node});
      }
      r := Normal(());
    }

    /**
     * recordNameNode, as RecordStep describes it: resolves a record name
     * under a qualifier, records the buffer on the node, gives the node a
     * buffer scope for uses of a record, and notes the reference on the
     * buffer.
     */
    method RecordNameNode(node: NodeId, text: string, q: ContextQualifier, env: Lookups) returns (r: Outcome<()>)
      requires TablesValid() && env.Within(|buffers|)
      modifies this`resolved
      ensures TablesValid()
      ensures var st := RecordStep(RecordCtx(env), old(resolved), node, text, q);
        resolved == st.state && r == st.AsOutcome()
    {
      RecordStepWithin(RecordCtx(env), resolved, node, text, q);
      resolved := resolved.(qualifierAttr := resolved.qualifierAttr[node := q]);
      var found := Resolve(env, currentScope, q, text);
      if found.Threw? {
        return Threw(found.exception);
      }
      ResolveWithin(env, |buffers|, currentScope, q, text);
      r := RecordNodeSymbol(node, text, found.value);
      if r.Threw? {
        return;
      }
      var b := found.value.value;
      resolved := resolved.(tableBufferOf := resolved.tableBufferOf[node := b]);
      if (NeedsReferenceScope(q) || q == InitWeak) && currentBlock.None? {
        return Threw(NullPointer);
      }
      resolved := resolved.(bufferScopeOf := Annotate(resolved.bufferScopeOf, node, ScopeFor(q, currentBlock, b)));
      resolved := resolved.(references := resolved.references + [Reference(BufferSym(b), q)]);
    }

    /**
     * The record phrases of FOR, PRESELECT and similar statements: the
     * statement's qualifier is consumed and each record is resolved under
     * it in order, stopping at the first exception, as RecordAll describes
     * it. A missing qualifier fails on the first record, before it changes
     * anything.
     */
    method EnterForRecordSpec(ctx: NodeId, records: seq<NodeId>, textOf: NodeId -> string, env: Lookups) returns (r: Outcome<()>)
      requires TablesValid() && env.Within(|buffers|)
      modifies this`contextQualifiers, this`resolved
      ensures TablesValid()
      ensures contextQualifiers == old(contextQualifiers) - {ctx}
      ensures records == [] ==> r == Normal(()) && resolved == old(resolved)
      ensures records != [] && ctx !in old(contextQualifiers) ==> r == Threw(NullPointer) && resolved == old(resolved)
      ensures records != [] && ctx in old(contextQualifiers) ==>
        var st := RecordAll(RecordCtx(env), old(resolved), records, textOf, old(contextQualifiers)[ctx]);
        resolved == st.state && r == st.AsOutcome()
    {
      var qual := RemoveQualifier(ctx);
      if records == [] {
        return Normal(());
      }
      if qual.None? {
        return Threw(NullPointer);
      }
      var q := qual.value;
      ghost var c: ValidContext := RecordCtx(env);
      var i := 0;
      r := Normal(());
      while i < |records|
        modifies this`resolved
        invariant 0 <= i <= |records|
        invariant TablesValid()
        invariant r == Normal(())
        invariant RecordCtx(env) == c
        invariant RecordAll(c, old(resolved), records[..i], textOf, q) == Step(resolved, None)
      {
        var x := records[i];
        ghost var before := resolved;
        r := RecordNameNode(x, textOf(x), q, env);
        StepsNext(RecordStepper(c, textOf, q), old(resolved), records, i, before, RecordStep(c, before, x, textOf(x), q));
        if r.Threw? {
          return;
        }
        i := i + 1;
      }
      assert records[..i] == records;
    }

    // -------------------------------------------------------------------------
    // DEFINE TEMP-TABLE

    /**
     * A new table of the given storage type, with its default buffer, becomes
     * the table being defined; the LIKE and USE-INDEX state is reset.
     */
    method DefineTable(name: string, storeType: StoreType) returns (buffer: BufferId)
      requires TablesValid()
      modifies this`tables, this`buffers, this`currDefTable, this`currDefTableLike, this`currDefTableUseIndex
      ensures TablesValid()
      ensures tables == old(tables) + [Table(name, storeType, [], [])]
      ensures buffers == old(buffers) + [Buffer(|old(tables)|, true)] && buffer == |old(buffers)|
      ensures currDefTable == Some(buffer) && currDefTableLike == None && !currDefTableUseIndex
    {
      tables := tables + [Table(name, storeType, [], [])];
      buffers := buffers + [Buffer(|tables| - 1, true)];
      buffer := |buffers| - 1;
      currDefTable := Some(buffer);
      currDefTableLike := None;
      currDefTableUseIndex := false;
    }

    /** LIKE: remembers the source table and copies its fields, in position order, onto the new table. */
    method DefineTableLike(like: TableId) returns (r: Outcome<()>)
      requires TablesValid() && like < |tables|
      modifies this`currDefTableLike, this`tables
      ensures TablesValid()
      ensures currDefTableLike == Some(like)
      ensures currDefTable.None? && old(tables)[like].fields != [] ==> r == Threw(NullPointer) && tables == old(tables)
      ensures currDefTable.None? && old(tables)[like].fields == [] ==> r == Normal(()) && tables == old(tables)
      ensures currDefTable.Some? ==>
        var t := buffers[currDefTable.value].table;
        r == Normal(()) && tables == old(tables)[t := old(tables)[t].(fields := old(tables)[t].fields + old(tables)[like].fields)]
    {
      currDefTableLike := Some(like);
      var source := tables[like].fields;
      if currDefTable.None? {
        return if source == [] then Normal(()) else Threw(NullPointer);
      }
      var t := buffers[currDefTable.value].table;
      var i := 0;
      assert old(tables)[t] == old(tables)[t].(fields := old(tables)[t].fields + source[..0]);
      while i < |source|
        modifies this`tables
        invariant 0 <= i <= |source|
        invariant tables == old(tables)[t := old(tables)[t].(fields := old(tables)[t].fields + source[..i])]
      {
        assert old(tables)[t].fields + source[..i + 1] == (old(tables)[t].fields + source[..i]) + [source[i]];
        tables := tables[t := tables[t].(fields := tables[t].fields + [source[i]])];
        i := i + 1;
      }
      assert source[..i] == source;
      r := Normal(());
    }

    /** INDEX: a new empty index is appended to the table being defined and becomes current. */
    method DefineIndexInitialize(name: string, unique: bool, primary: bool, word: bool) returns (r: Outcome<()>)
      requires TablesValid()
      modifies this`currDefIndex, this`tables
      ensures TablesValid()
      ensures currDefTable.None? ==> r == Threw(NullPointer) && tables == old(tables) && currDefIndex == old(currDefIndex)
      ensures currDefTable.Some? ==>
        var t := buffers[currDefTable.value].table;
        && r == Normal(())
        && tables == old(tables)[t := old(tables)[t].(indexes := old(tables)[t].indexes + [Index(name, unique, primary, [])])]
        && currDefIndex == Some(IndexRef(t, |old(tables)[t].indexes|))
    {
      if currDefTable.None? {
        return Threw(NullPointer);
      }
      var t := buffers[currDefTable.value].table;
      currDefIndex := Some(IndexRef(t, |tables[t].indexes|));
      tables := tables[t := tables[t].(indexes := tables[t].indexes + [Index(name, unique, primary, [])])];
      r := Normal(());
    }

    /**
     * An index field: added to the current index only when the table being
     * defined has a field of that name; an unknown name is skipped.
     */
    method DefineIndexField(name: string) returns (r: Outcome<()>)
      requires TablesValid()
      modifies this`tables
      ensures TablesValid()
      ensures currDefTable.None? ==> r == Threw(NullPointer) && tables == old(tables)
      ensures currDefTable.Some? && name !in tables[buffers[currDefTable.value].table].fields ==>
        r == Normal(()) && tables == old(tables)
      ensures currDefTable.Some? && name in tables[buffers[currDefTable.value].table].fields && currDefIndex.None? ==>
        r == Threw(NullPointer) && tables == old(tables)
      ensures currDefTable.Some? && name in tables[buffers[currDefTable.value].table].fields && currDefIndex.Some? ==>
        var ix := currDefIndex.value;
        var idx := old(tables)[ix.table].indexes[ix.position];
        && r == Normal(())
        && tables == old(tables)[ix.table := old(tables)[ix.table].(indexes :=
             old(tables)[ix.table].indexes[ix.position := idx.(fields := idx.fields + [name])])]
    {
      if currDefTable.None? {
        return Threw(NullPointer);
      }
      if name !in tables[buffers[currDefTable.value].table].fields {
        return Normal(());
      }
      if currDefIndex.None? {
        return Threw(NullPointer);
      }
      var ix := currDefIndex.value;
      var idx := tables[ix.table].indexes[ix.position];
      tables := tables[ix.table := tables[ix.table].(indexes := tables[ix.table].indexes[ix.position := idx.(fields := idx.fields + [name])])];
      r := Normal(());
    }

    /** Whether the end of a DEFINE TEMP-TABLE copies the LIKE table's indexes. */
    ghost predicate CopiesIndexes()
      reads this`tables, this`buffers, this`resolved,
            this`currDefTable, this`currDefIndex, this`currDefTableLike, this`currDefTableUseIndex
      requires TablesValid()
    {
      && currDefTableLike.Some? && !currDefTableUseIndex && currDefTable.Some?
      && tables[buffers[currDefTable.value].table].indexes == []
    }

    /** The index field list of one copied index: the source's fields that the new table has. */
    method CopyIndexFields(source: seq<string>, present: seq<string>) returns (fields: seq<string>)
      ensures fields == KeepFields(source, present)
    {
      fields := [];
      var i := 0;
      while i < |source|
        invariant 0 <= i <= |source|
        invariant fields == KeepFields(source[..i], present)
      {
        assert source[..i + 1][..i] == source[..i];
        if source[i] in present {
          fields := fields + [source[i]];
        }
        i := i + 1;
      }
      assert source[..i] == source;
    }

    /** The copies of the LIKE table's indexes, each with the fields the new table has. */
    method CopyIndexes(source: seq<Index>, present: seq<string>) returns (copied: seq<Index>)
      ensures copied == CopiedIndexes(source, present)
    {
      copied := [];
      var i := 0;
      while i < |source|
        invariant 0 <= i <= |source|
        invariant copied == CopiedIndexes(source[..i], present)
      {
        var idx := source[i];
        var fields := CopyIndexFields(idx.fields, present);
        assert source[..i + 1][..i] == source[..i];
        copied := copied + [Index(idx.name, idx.unique, idx.primary, fields)];
        i := i + 1;
      }
      assert source[..i] == source;
    }

    /**
     * At the end of DEFINE TEMP-TABLE: when LIKE was used, USE-INDEX was not,
     * and no index was defined, each index of the LIKE table is copied onto
     * the new table with its name and flags and those of its fields that
     * the new table has.
     */
    method PostDefineTempTable() returns (r: Outcome<()>)
      requires TablesValid()
      modifies this`tables
      ensures TablesValid()
      ensures currDefTableLike.Some? && !currDefTableUseIndex && currDefTable.None? ==>
        r == Threw(NullPointer) && tables == old(tables)
      ensures !(currDefTableLike.Some? && !currDefTableUseIndex && currDefTable.None?) ==> r == Normal(())
      ensures old(CopiesIndexes()) ==>
        var t := buffers[currDefTable.value].table;
        tables == old(tables)[t := old(tables)[t].(indexes :=
          CopiedIndexes(old(tables)[currDefTableLike.value].indexes, old(tables)[t].fields))]
      ensures !old(CopiesIndexes()) ==> tables == old(tables)
    {
      if currDefTableLike.None? || currDefTableUseIndex {
        return Normal(());
      }
      if currDefTable.None? {
        return Threw(NullPointer);
      }
      var t := buffers[currDefTable.value].table;
      if tables[t].indexes != [] {
        return Normal(());
      }
      var copied := CopyIndexes(tables[currDefTableLike.value].indexes, tables[t].fields);
      tables := tables[t := tables[t].(indexes := copied)];
      r := Normal(());
    }

    // -------------------------------------------------------------------------
    // Field references

    /**
     * field(), up to the point where a table field is found: the qualifier
     * is recorded on the node; an INPUT field is left to the frames and an
     * ANY resolution to the block's lookup. Otherwise the last part of the
     * dotted name is looked up on the last (or, for PREVIOUS, the one
     * before last) table referenced. An unknown name inside FIELDS or EXCEPT
     * is dropped; a known one makes the node refer to the field and notes the
     * reference on the field and its buffer.
     */
    method Field(node: NodeId, name: string, cq: ContextQualifier, resolution: TableNameResolution,
                 parent: ParentKind, inputField: bool) returns (r: Outcome<FieldResult>)
      requires TablesValid()
      modifies this`resolved, this`symbolOf, this`storeTypeOf
      ensures resolved.qualifierAttr == old(resolved).qualifierAttr[node := cq]
      ensures resolved.(qualifierAttr := old(resolved).qualifierAttr, references := old(resolved).references) == old(resolved)
      ensures inputField ==> r == Normal(FrameInput)
      ensures !inputField && resolution == Any ==>
        r == if currentBlock.None? then Threw(NullPointer) else Normal(BlockLookup(cq != Symbol))
      ensures !(r.Normal? && r.value.TableField?) ==>
        symbolOf == old(symbolOf) && storeTypeOf == old(storeTypeOf) && resolved.references == old(resolved).references
      ensures !inputField && resolution != Any ==>
        var buffer := if resolution == Previous then old(resolved).prev else old(resolved).last;
        var part := JavaSplitLast(name, '.');
        && (part.None? ==> r == Threw(IndexOutOfBounds))
        && (part.Some? && buffer.None? ==> r == Threw(NullPointer))
        && (part.Some? && buffer.Some? ==>
              var t := tables[buffers[buffer.value].table];
              && (part.value !in t.fields && (parent == FieldsPhrase || parent == ExceptPhrase) ==> r == Normal(DroppedInPhrase))
              && (part.value !in t.fields && parent == OtherParent ==> r == Threw(NullPointer))
              && (part.value in t.fields ==>
                    && r == Normal(TableField(buffer.value, part.value))
                    && symbolOf == old(symbolOf)[node := FieldSym(buffer.value, part.value)]
                    && storeTypeOf == old(storeTypeOf)[node := t.storeType]
                    && resolved.references == old(resolved).references + [Reference(FieldSym(buffer.value, part.value), cq),
                                                                          Reference(BufferSym(buffer.value), cq)]))
    {
      resolved := resolved.(qualifierAttr := resolved.qualifierAttr[node := cq]);
      if inputField {
        return Normal(FrameInput);
      }
      if resolution == Any {
        if currentBlock.None? {
          return Threw(NullPointer);
        }
        return Normal(BlockLookup(cq != Symbol));
      }
      var part := JavaSplitLast(name, '.');
      if part.None? {
        return Threw(IndexOutOfBounds);
      }
      var buffer := if resolution == Previous then resolved.prev else resolved.last;
      if buffer.None? {
        return Threw(NullPointer);
      }
      var b := buffer.value;
      var t := tables[buffers[b].table];
      if part.value !in t.fields {
        if parent == FieldsPhrase || parent == ExceptPhrase {
          return Normal(DroppedInPhrase);
        }
        return Threw(NullPointer);
      }
      symbolOf := symbolOf[node := FieldSym(b, part.value)];
      storeTypeOf := storeTypeOf[node := t.storeType];
      resolved := resolved.(references := resolved.references + [Reference(FieldSym(b, part.value), cq), Reference(BufferSym(b), cq)]);
      r := Normal(TableField(b, part.value));
    }

    /**
     * A field reference: its table-name resolution defaults to ANY and its
     * qualifier to REF; both side-table entries are consumed.
     */
    method EnterField(ctx: NodeId, node: NodeId, name: string, parent: ParentKind, inputField: bool)
      returns (cq: ContextQualifier, resolution: TableNameResolution, r: Outcome<FieldResult>)
      requires TablesValid()
      modifies this`contextQualifiers, this`nameResolution, this`resolved, this`symbolOf, this`storeTypeOf
      ensures contextQualifiers == old(contextQualifiers) - {ctx} && nameResolution == old(nameResolution) - {ctx}
      ensures cq == if ctx in old(contextQualifiers) then old(contextQualifiers)[ctx] else Ref
      ensures resolution == if ctx in old(nameResolution) then old(nameResolution)[ctx] else Any
      ensures resolved.qualifierAttr == old(resolved).qualifierAttr[node := cq]
      ensures resolved.(qualifierAttr := old(resolved).qualifierAttr, references := old(resolved).references) == old(resolved)
      ensures inputField ==> r == Normal(FrameInput)
      ensures !inputField && resolution == Any ==>
        r == if currentBlock.None? then Threw(NullPointer) else Normal(BlockLookup(cq != Symbol))
    {
      var tnr := RemoveResolution(ctx);
      resolution := tnr.GetOr(Any);
      var qual := RemoveQualifier(ctx);
      cq := qual.GetOr(Ref);
      r := Field(node, name, cq, resolution, parent, inputField);
    }
  }
}
