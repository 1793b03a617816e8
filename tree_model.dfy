/**
 * The values the semantic tree parser works with and the pure rules behind
 * its bookkeeping: context qualifiers, the record lookup each qualifier
 * selects, the abbreviation test for unnamed buffers, the qualifier side
 * table, the index copy of DEFINE TEMP-TABLE ... LIKE, and the nesting of
 * blocks and scopes.
 */
module TreeModel {
  import opened Optional
  import opened TextSplit
  import ProTokens

  // ---------------------------------------------------------------------------
  // Identities. Parse-tree contexts, nodes, blocks, scopes, tables and
  // buffers are objects in the parser; here each is named by a number.

  type NodeId = nat
  type BlockId = nat
  type ScopeId = nat
  type TableId = nat
  type BufferId = nat
  type NodeType = nat

  /** How a name in the program is used, as the grammar rules decide it. */
  datatype ContextQualifier =
    | Init | InitWeak | Ref | RefUp | Updating
    | Symbol | BufferSymbol | TempTableSymbol | SchemaTableSymbol

  /** Which recently referenced table a field name belongs to. */
  datatype TableNameResolution = Any | Last | Previous

  /** The storage type of a table. */
  datatype StoreType = DbTable | TempTable | WorkTable

  /** The Java exceptions the bookkeeping can raise. */
  datatype Thrown = NullPointer | IndexOutOfBounds | UnresolvedTable(name: string)

  /** The outcome of a Java call: a normal return, or an exception. */
  datatype Outcome<T> = Normal(value: T) | Threw(exception: Thrown)

  /** A table: its name, storage type, fields in position order and indexes. */
  datatype Index = Index(name: string, unique: bool, primary: bool, fields: seq<string>)
  datatype Table = Table(name: string, storeType: StoreType, fields: seq<string>, indexes: seq<Index>)

  /** A buffer over a table; the default buffer is the unnamed one. */
  datatype Buffer = Buffer(table: TableId, isDefault: bool)

  /** Index `position` of the index list of table `table`. */
  datatype IndexRef = IndexRef(table: TableId, position: nat)

  /** What a block is attached to: the enclosing block, or the scope it is the root of. */
  datatype BlockOwner = InBlock(outer: Option<BlockId>) | RootOf(scope: ScopeId)
  datatype Block = Block(owner: BlockOwner, nodeType: NodeType)

  /** A symbol scope: its parent, its root block and the symbols added to it. */
  datatype Scope = Scope(parent: Option<ScopeId>, rootBlock: Option<BlockId>, symbols: seq<SymbolRef>)

  /** A symbol a node can refer to. Other symbols (variables, widgets) are numbered. */
  datatype SymbolRef = BufferSym(buffer: BufferId) | FieldSym(buffer: BufferId, field: string) | OtherSym(id: nat)

  /** One call of `noteReference` on a symbol. */
  datatype Reference = Reference(symbol: SymbolRef, qualifier: ContextQualifier)

  /**
   * The buffer scope a record node is given: the one its block hands out for
   * a reference to the buffer, or a weak scope added to the block.
   */
  datatype BufferScopeRef = ReferenceScope(block: BlockId, buffer: BufferId) | WeakScope(block: BlockId, buffer: BufferId)

  // ---------------------------------------------------------------------------
  // Qualifiers

  /** Qualifiers under which a reference writes to the symbol. */
  predicate IsWrite(q: ContextQualifier) {
    q == Updating || q == RefUp
  }

  /** Qualifiers under which recordNameNode asks the block for a buffer scope for a reference. */
  predicate NeedsReferenceScope(q: ContextQualifier) {
    q == Init || q == Ref || q == RefUp || q == Updating
  }

  /**
   * The lookups of the symbol scopes and of the schema, which are not part of
   * this model: each maps a name (in a scope) to what is found. A scope's
   * unnamed buffer of a schema table is always there to be had (the scope
   * creates it on first use), so it is a function of scope and table.
   */
  datatype Lookups = Lookups(
    bufferSymbol: map<(ScopeId, string), BufferId>,
    tableOrBufferSymbol: map<(ScopeId, string), BufferId>,
    tempTable: map<(ScopeId, string), BufferId>,
    schemaTable: map<string, TableId>,
    unnamedBuffer: (ScopeId, TableId) -> BufferId)
  {
    /** Every buffer found is one of the first `buffers` buffers. */
    ghost predicate Within(buffers: nat) {
      && (forall k :: k in bufferSymbol ==> bufferSymbol[k] < buffers)
      && (forall k :: k in tableOrBufferSymbol ==> tableOrBufferSymbol[k] < buffers)
      && (forall k :: k in tempTable ==> tempTable[k] < buffers)
      && (forall sc: ScopeId, n :: n in schemaTable ==> unnamedBuffer(sc, schemaTable[n]) < buffers)
    }
  }

  function Find<K>(m: map<K, BufferId>, k: K): (r: Option<BufferId>)
    ensures r.Some? <==> k in m
    ensures r.Some? ==> r.value == m[k]
  {
    if k in m then Some(m[k]) else None
  }

  /**
   * The buffer recordNameNode finds for a record name under a qualifier, in
   * the current scope (null in Java when `scope` is None): the buffer
   * symbol for uses of a record, any table or buffer symbol for SYMBOL, a
   * temp-table for TEMPTABLESYMBOL, and for SCHEMATABLESYMBOL the unnamed
   * buffer of the schema table of that name. A missing scope is dereferenced
   * except when the schema has no such table.
   */
  function Resolve(env: Lookups, scope: Option<ScopeId>, q: ContextQualifier, text: string): (r: Outcome<Option<BufferId>>)
    ensures r.Threw? ==> scope.None? && r.exception == NullPointer
    ensures scope.Some? ==> r.Normal?
    ensures (q.Init? || q.InitWeak? || q.Ref? || q.RefUp? || q.Updating? || q.BufferSymbol?) && scope.Some? ==>
      r.value == Find(env.bufferSymbol, (scope.value, text))
    ensures q.Symbol? && scope.Some? ==> r.value == Find(env.tableOrBufferSymbol, (scope.value, text))
    ensures q.TempTableSymbol? && scope.Some? ==> r.value == Find(env.tempTable, (scope.value, text))
    ensures q.SchemaTableSymbol? && text !in env.schemaTable ==> r == Normal(None)
    ensures q.SchemaTableSymbol? && text in env.schemaTable && scope.Some? ==>
      r.value == Some(env.unnamedBuffer(scope.value, env.schemaTable[text]))
  {
    match q
    case Symbol =>
      if scope.None? then Threw(NullPointer) else Normal(Find(env.tableOrBufferSymbol, (scope.value, text)))
    case TempTableSymbol =>
      if scope.None? then Threw(NullPointer) else Normal(Find(env.tempTable, (scope.value, text)))
    case SchemaTableSymbol =>
      if text !in env.schemaTable then Normal(None)
      else if scope.None? then Threw(NullPointer)
      else Normal(Some(env.unnamedBuffer(scope.value, env.schemaTable[text])))
    case _ =>
      if scope.None? then Threw(NullPointer) else Normal(Find(env.bufferSymbol, (scope.value, text)))
  }

  /** A buffer found by Resolve is within the bounds the lookups promise. */
  lemma ResolveWithin(env: Lookups, buffers: nat, scope: Option<ScopeId>, q: ContextQualifier, text: string)
    requires env.Within(buffers)
    ensures Resolve(env, scope, q, text).Normal? && Resolve(env, scope, q, text).value.Some? ==>
      Resolve(env, scope, q, text).value.value < buffers
  {
  }

  // ---------------------------------------------------------------------------
  // Abbreviated table names

  /** Java's `String.length()`: the number of UTF-16 code units. */
  function JavaLength(s: string): nat {
    |ProTokens.Utf16(s)|
  }

  /**
   * Whether a reference `text` to a table through a buffer is an
   * abbreviation: only the default buffer of a database table can be
   * abbreviated, and it is when the table name is longer than the last
   * dot-separated part of the text. None is the exception Java raises when
   * the text splits into no parts at all.
   */
  function Abbreviation(buffer: Buffer, table: Table, text: string): (r: Option<bool>)
    ensures r.None? <==> buffer.isDefault && table.storeType == DbTable && JavaSplitLast(text, '.').None?
    ensures r == Some(true) ==> buffer.isDefault && table.storeType == DbTable
  {
    if buffer.isDefault && table.storeType == DbTable then
      match JavaSplitLast(text, '.')
      case None => None
      case Some(last) => Some(JavaLength(table.name) > JavaLength(last))
    else Some(false)
  }

  /** A named buffer, or a temp-table or work-table, is never abbreviated. */
  lemma OnlyDefaultDbAbbreviated(buffer: Buffer, table: Table, text: string)
    requires !buffer.isDefault || table.storeType != DbTable
    ensures Abbreviation(buffer, table, text) == Some(false)
  {
  }

  /** A qualified reference `db.name` is compared by its last part. */
  lemma AbbreviationQualified(buffer: Buffer, table: Table, db: string, name: string)
    requires buffer.isDefault && table.storeType == DbTable
    requires name != [] && '.' !in name
    ensures Abbreviation(buffer, table, db + "." + name) == Some(JavaLength(table.name) > JavaLength(name))
  {
    JavaSplitLastQualified(db, name, '.');
  }

  /** An unqualified reference is compared as a whole. */
  lemma AbbreviationUnqualified(buffer: Buffer, table: Table, name: string)
    requires buffer.isDefault && table.storeType == DbTable
    requires '.' !in name
    ensures Abbreviation(buffer, table, name) == Some(JavaLength(table.name) > JavaLength(name))
  {
    JavaSplitLastWhole(name, '.');
  }

  /** Writing out the full table name, qualified or not, is not an abbreviation. */
  lemma FullNameNotAbbreviated(buffer: Buffer, table: Table, db: string)
    requires '.' !in table.name
    ensures Abbreviation(buffer, table, table.name) == Some(false)
    ensures table.name != [] ==> Abbreviation(buffer, table, db + "." + table.name) == Some(false)
  {
    if buffer.isDefault && table.storeType == DbTable {
      AbbreviationUnqualified(buffer, table, table.name);
      if table.name != [] {
        AbbreviationQualified(buffer, table, db, table.name);
      }
    }
  }

  /** The exception is raised exactly for a non-empty text of dots only. */
  lemma AbbreviationFails(buffer: Buffer, table: Table, text: string)
    requires buffer.isDefault && table.storeType == DbTable
    ensures Abbreviation(buffer, table, text).None? <==>
      (text != [] && forall i :: 0 <= i < |text| ==> text[i] == '.')
  {
    JavaSplitLastFails(text, '.');
  }

  // ---------------------------------------------------------------------------
  // Record names

  /** The buffer a record name resolves to, or None when Resolve throws or finds nothing. */
  function Resolved(env: Lookups, scope: Option<ScopeId>, q: ContextQualifier, text: string): (r: Option<BufferId>)
    ensures r.Some? <==> Resolve(env, scope, q, text).Normal? && Resolve(env, scope, q, text).value.Some?
    ensures r.Some? ==> r == Resolve(env, scope, q, text).value
  {
    var found := Resolve(env, scope, q, text);
    if found.Normal? then found.value else None
  }

  /** The buffer scope recordNameNode gives a record node, if any. */
  function ScopeFor(q: ContextQualifier, block: Option<BlockId>, buffer: BufferId): (r: Option<BufferScopeRef>)
    ensures r.Some? ==> block.Some? && r.value.block == block.value && r.value.buffer == buffer
    ensures r.Some? && r.value.ReferenceScope? <==> NeedsReferenceScope(q) && block.Some?
    ensures r.Some? && r.value.WeakScope? <==> q == InitWeak && block.Some?
  {
    if block.None? then None
    else if NeedsReferenceScope(q) then Some(ReferenceScope(block.value, buffer))
    else if q == InitWeak then Some(WeakScope(block.value, buffer))
    else None
  }

  /** Sets an attribute on a node when there is a value to set. */
  function Annotate<V>(m: map<NodeId, V>, k: NodeId, v: Option<V>): (r: map<NodeId, V>)
    ensures v.Some? ==> r == m[k := v.value]
    ensures v.None? ==> r == m
  {
    if v.Some? then m[k := v.value] else m
  }

  /**
   * The part of the parser state that resolving record names changes: the
   * attributes set on record nodes, the references noted on buffers, and the
   * last and previous tables referenced.
   */
  datatype RecordState = RecordState(
    qualifierAttr: map<NodeId, ContextQualifier>,
    abbreviated: set<NodeId>,
    tableBufferOf: map<NodeId, BufferId>,
    bufferScopeOf: map<NodeId, BufferScopeRef>,
    references: seq<Reference>,
    last: Option<BufferId>,
    prev: Option<BufferId>)
  {
    /** The last and previous tables referenced are among the first `buffers` buffers. */
    predicate Within(buffers: nat) {
      (last.Some? ==> last.value < buffers) && (prev.Some? ==> prev.value < buffers)
    }
  }

  /** What resolving record names reads and leaves alone. */
  datatype RecordContext = RecordContext(env: Lookups, scope: Option<ScopeId>, block: Option<BlockId>,
                                         buffers: seq<Buffer>, tables: seq<Table>)
  {
    /** Every buffer is over a known table, and every buffer found is known. */
    ghost predicate Ok() {
      && (forall i :: 0 <= i < |buffers| ==> buffers[i].table < |tables|)
      && env.Within(|buffers|)
    }
  }

  /** A context in which every buffer found and every buffer's table exists. */
  type ValidContext = c: RecordContext | c.Ok()
    witness RecordContext(Lookups(map[], map[], map[], map[], (sc, t) => 0), None, None, [], [])

  /** A new state, and the exception raised on the way to it, if any. */
  datatype Step<S> = Step(state: S, thrown: Option<Thrown>)
  {
    function AsOutcome(): (r: Outcome<()>)
      ensures r.Normal? <==> thrown.None?
      ensures r.Threw? ==> r.exception == thrown.value
    {
      if thrown.Some? then Threw(thrown.value) else Normal(())
    }
  }

  /** Whether the record name `text`, resolved under `q`, resolves and is then abbreviated. */
  predicate AbbreviatedName(c: ValidContext, q: ContextQualifier, text: string)
  {
    ResolveWithin(c.env, |c.buffers|, c.scope, q, text);
    var b := Resolved(c.env, c.scope, q, text);
    b.Some? && Abbreviation(c.buffers[b.value], c.tables[c.buffers[b.value].table], text) == Some(true)
  }

  /**
   * recordNodeSymbol: a missing buffer throws with the name; otherwise the
   * buffer becomes the last table referenced, and the node is marked
   * abbreviated when Abbreviation says so, or the split of the name throws.
   */
  function NodeSymbolStep(buffers: seq<Buffer>, tables: seq<Table>, s: RecordState, node: NodeId, text: string,
                          buffer: Option<BufferId>): (r: Step<RecordState>)
    requires buffer.Some? ==> buffer.value < |buffers| && buffers[buffer.value].table < |tables|
    ensures r.thrown == Some(UnresolvedTable(text)) <==> buffer.None?
    ensures && r.state.qualifierAttr == s.qualifierAttr && r.state.tableBufferOf == s.tableBufferOf
            && r.state.bufferScopeOf == s.bufferScopeOf && r.state.references == s.references
  {
    if buffer.None? then Step(s, Some(UnresolvedTable(text)))
    else
      var b := buffer.value;
      var s1 := s.(prev := s.last, last := buffer);
      match Abbreviation(buffers[b], tables[buffers[b].table], text)
      case None => Step(s1, Some(IndexOutOfBounds))
      case Some(ab) => Step(s1.(abbreviated := if ab then s1.abbreviated + {node} else s1.abbreviated), None)
  }

  /**
   * recordNodeSymbol throws with the name exactly when there is no buffer.
   * Otherwise it shifts the last table referenced to the previous one, makes
   * the buffer the last, and marks the node abbreviated exactly when the
   * buffer is the default buffer of a database table whose name is longer
   * than the last dot-separated part of the text; it throws when the text
   * splits into nothing. Nothing else changes.
   */
  lemma NodeSymbolStepSpec(buffers: seq<Buffer>, tables: seq<Table>, s: RecordState, node: NodeId, text: string,
                           buffer: Option<BufferId>)
    requires buffer.Some? ==> buffer.value < |buffers| && buffers[buffer.value].table < |tables|
    ensures var st := NodeSymbolStep(buffers, tables, s, node, text, buffer);
      && st.state.(abbreviated := s.abbreviated, last := s.last, prev := s.prev) == s
      && (buffer.None? ==> st == Step(s, Some(UnresolvedTable(text))))
      && (buffer.Some? ==>
            var bf := buffers[buffer.value];
            var t := tables[bf.table];
            var dbDefault := bf.isDefault && t.storeType == DbTable;
            && st.state.last == buffer && st.state.prev == s.last
            && (st.thrown.Some? <==> dbDefault && JavaSplitLast(text, '.').None?)
            && (st.thrown.Some? ==> st.thrown == Some(IndexOutOfBounds) && st.state.abbreviated == s.abbreviated)
            && (st.thrown.None? ==>
                  (node in st.state.abbreviated <==>
                     node in s.abbreviated || (dbDefault && JavaLength(t.name) > JavaLength(JavaSplitLast(text, '.').value))))
            && (st.thrown.None? ==> st.state.abbreviated - {node} == s.abbreviated - {node}))
  {
  }

  /**
   * recordNameNode: the qualifier is set on the node, the name is resolved
   * under it and checked by recordNodeSymbol, the buffer is set on the node,
   * the node gets a buffer scope from the current block for uses of a record
   * (the block is dereferenced), and the reference is noted on the buffer.
   * Each step happens only when the one before it did not throw.
   */
  function RecordStep(c: ValidContext, s: RecordState, node: NodeId, text: string, q: ContextQualifier): (r: Step<RecordState>)
    ensures r.state.qualifierAttr == s.qualifierAttr[node := q]
    ensures r.thrown.Some? ==> r.state.references == s.references
    ensures r.thrown.None? ==> r.state.last.Some? && r.state.references == s.references + [Reference(BufferSym(r.state.last.value), q)]
  {
    var s1 := s.(qualifierAttr := s.qualifierAttr[node := q]);
    var found := Resolve(c.env, c.scope, q, text);
    if found.Threw? then Step(s1, Some(found.exception))
    else
      ResolveWithin(c.env, |c.buffers|, c.scope, q, text);
      var checked := NodeSymbolStep(c.buffers, c.tables, s1, node, text, found.value);
      if checked.thrown.Some? then checked
      else
        var b := found.value.value;
        var s2 := checked.state.(tableBufferOf := checked.state.tableBufferOf[node := b]);
        if (NeedsReferenceScope(q) || q == InitWeak) && c.block.None? then Step(s2, Some(NullPointer))
        else Step(s2.(bufferScopeOf := Annotate(s2.bufferScopeOf, node, ScopeFor(q, c.block, b)),
                      references := s2.references + [Reference(BufferSym(b), q)]), None)
  }

  /**
   * A SCHEMATABLESYMBOL reference to a table the schema knows, in an existing
   * scope, resolves to that scope's unnamed buffer of the table, so it never
   * fails with "Could not resolve table".
   */
  lemma SchemaTableResolves(c: ValidContext, s: RecordState, node: NodeId, text: string)
    requires c.scope.Some? && text in c.env.schemaTable
    ensures Resolved(c.env, c.scope, SchemaTableSymbol, text) == Some(c.env.unnamedBuffer(c.scope.value, c.env.schemaTable[text]))
    ensures RecordStep(c, s, node, text, SchemaTableSymbol).thrown != Some(UnresolvedTable(text))
  {
    RecordStepOutcome(c, s, node, text, SchemaTableSymbol);
  }

  /** recordNameNode only ever makes a buffer it found the last table referenced. */
  lemma RecordStepWithin(c: ValidContext, s: RecordState, node: NodeId, text: string, q: ContextQualifier)
    requires s.Within(|c.buffers|)
    ensures RecordStep(c, s, node, text, q).state.Within(|c.buffers|)
  {
    var found := Resolve(c.env, c.scope, q, text);
    if found.Normal? && found.value.Some? {
      ResolvedWithin(c, s, node, text, q, found.value.value);
    }
  }

  lemma ResolvedWithin(c: ValidContext, s: RecordState, node: NodeId, text: string, q: ContextQualifier, b: BufferId)
    requires s.Within(|c.buffers|) && Resolve(c.env, c.scope, q, text) == Normal(Some(b))
    ensures RecordStep(c, s, node, text, q).state.Within(|c.buffers|)
  {
    ResolveWithin(c.env, |c.buffers|, c.scope, q, text);
    var s1 := s.(qualifierAttr := s.qualifierAttr[node := q]);
    var checked := NodeSymbolStep(c.buffers, c.tables, s1, node, text, Some(b));
    assert checked.state.last == Some(b) && checked.state.prev == s.last;
    if checked.thrown.Some? {
      assert RecordStep(c, s, node, text, q) == checked;
    } else {
      assert RecordStep(c, s, node, text, q).state.last == checked.state.last;
      assert RecordStep(c, s, node, text, q).state.prev == checked.state.prev;
    }
  }

  /** Whether a dereference of the current block is needed and fails. */
  predicate BlockMissing(c: ValidContext, q: ContextQualifier) {
    (NeedsReferenceScope(q) || q == InitWeak) && c.block.None?
  }

  /**
   * recordNameNode succeeds exactly when the name resolves, its split does
   * not throw and, for uses of a record, there is a current block. The
   * qualifier is set in every case; a failure notes no reference and sets no
   * buffer scope, and an unresolved name throws with the name unless the
   * lookup itself dereferenced a missing scope.
   */
  lemma RecordStepOutcome(c: ValidContext, s: RecordState, node: NodeId, text: string, q: ContextQualifier)
    ensures var st := RecordStep(c, s, node, text, q);
      var b := Resolved(c.env, c.scope, q, text);
      && st.state.qualifierAttr == s.qualifierAttr[node := q]
      && (st.thrown.None? <==>
            b.Some? && Abbreviation(c.buffers[b.value], c.tables[c.buffers[b.value].table], text).Some? && !BlockMissing(c, q))
      && (b.None? ==>
            st.thrown == Some(if c.scope.None? && !(q == SchemaTableSymbol && text !in c.env.schemaTable)
                              then NullPointer else UnresolvedTable(text)))
      && (st.thrown.Some? ==> st.state.references == s.references && st.state.bufferScopeOf == s.bufferScopeOf)
  {
    ResolveWithin(c.env, |c.buffers|, c.scope, q, text);
  }

  /**
   * A successful recordNameNode sets the qualifier and the buffer on the
   * node, makes the buffer the last table referenced (the one before becomes
   * the previous), and notes one reference on the buffer.
   */
  lemma RecordStepSuccess(c: ValidContext, s: RecordState, node: NodeId, text: string, q: ContextQualifier)
    requires RecordStep(c, s, node, text, q).thrown.None?
    ensures var t := RecordStep(c, s, node, text, q).state;
      var b := Resolved(c.env, c.scope, q, text).value;
      && Resolved(c.env, c.scope, q, text).Some?
      && t.qualifierAttr == s.qualifierAttr[node := q]
      && t.tableBufferOf == s.tableBufferOf[node := b]
      && t.last == Some(b) && t.prev == s.last
      && t.references == s.references + [Reference(BufferSym(b), q)]
  {
    ResolveWithin(c.env, |c.buffers|, c.scope, q, text);
  }

  /**
   * A successful recordNameNode gives INIT, REF, REFUP and UPDATING uses a
   * reference scope in the current block and INITWEAK uses a weak scope, and
   * marks the node when the name is abbreviated.
   */
  lemma RecordStepScope(c: ValidContext, s: RecordState, node: NodeId, text: string, q: ContextQualifier)
    requires RecordStep(c, s, node, text, q).thrown.None?
    ensures var t := RecordStep(c, s, node, text, q).state;
      var b := Resolved(c.env, c.scope, q, text).value;
      && Resolved(c.env, c.scope, q, text).Some?
      && (NeedsReferenceScope(q) ==> t.bufferScopeOf == s.bufferScopeOf[node := ReferenceScope(c.block.value, b)])
      && (q == InitWeak ==> t.bufferScopeOf == s.bufferScopeOf[node := WeakScope(c.block.value, b)])
      && (!NeedsReferenceScope(q) && q != InitWeak ==> t.bufferScopeOf == s.bufferScopeOf)
      && (t.abbreviated == if AbbreviatedName(c, q, text) then s.abbreviated + {node} else s.abbreviated)
  {
    ResolveWithin(c.env, |c.buffers|, c.scope, q, text);
  }

  /** Applies `step` to each element in turn, stopping at the first exception. */
  function Steps<S>(step: (S, NodeId) -> Step<S>, s: S, xs: seq<NodeId>): Step<S>
    decreases |xs|
  {
    if xs == [] then Step(s, None)
    else
      var before := Steps(step, s, xs[..|xs| - 1]);
      if before.thrown.Some? then before else step(before.state, xs[|xs| - 1])
  }

  /** One more element: stepped only when the ones before it raised nothing. */
  lemma StepsSnoc<S>(step: (S, NodeId) -> Step<S>, s: S, xs: seq<NodeId>, i: nat)
    requires i < |xs|
    ensures var before := Steps(step, s, xs[..i]);
      Steps(step, s, xs[..i + 1]) == if before.thrown.Some? then before else step(before.state, xs[i])
  {
    assert xs[..i + 1][..i] == xs[..i];
  }

  /** The first exception ends the list: what follows it is not looked at. */
  lemma {:induction false} StepsStop<S>(step: (S, NodeId) -> Step<S>, s: S, xs: seq<NodeId>, k: nat)
    requires k <= |xs| && Steps(step, s, xs[..k]).thrown.Some?
    ensures Steps(step, s, xs) == Steps(step, s, xs[..k])
    decreases |xs|
  {
    if k < |xs| {
      var n := |xs|;
      assert xs[..n - 1][..k] == xs[..k];
      StepsStop(step, s, xs[..n - 1], k);
    } else {
      assert xs[..k] == xs;
    }
  }

  /** The step after a prefix that raised nothing extends it; one that raises ends the whole list. */
  lemma StepsNext<S>(step: (S, NodeId) -> Step<S>, s: S, xs: seq<NodeId>, i: nat, st: S, next: Step<S>)
    requires i < |xs| && Steps(step, s, xs[..i]) == Step(st, None) && next == step(st, xs[i])
    ensures Steps(step, s, xs[..i + 1]) == next
    ensures next.thrown.Some? ==> Steps(step, s, xs) == next
  {
    StepsSnoc(step, s, xs, i);
    if next.thrown.Some? {
      StepsStop(step, s, xs, i + 1);
    }
  }

  /** recordNameNode as a step on the record state, for the record names `textOf` gives. */
  function RecordStepper(c: ValidContext, textOf: NodeId -> string, q: ContextQualifier): (RecordState, NodeId) -> Step<RecordState>
  {
    (st: RecordState, x: NodeId) => RecordStep(c, st, x, textOf(x), q)
  }

  /** recordNameNode on each record in turn, stopping at the first exception. */
  function RecordAll(c: ValidContext, s: RecordState, records: seq<NodeId>, textOf: NodeId -> string,
                     q: ContextQualifier): Step<RecordState>
  {
    Steps(RecordStepper(c, textOf, q), s, records)
  }

  /** The last record is resolved only when the ones before it raised nothing. */
  lemma RecordAllUnfold(c: ValidContext, s: RecordState, records: seq<NodeId>, textOf: NodeId -> string, q: ContextQualifier)
    ensures records == [] ==> RecordAll(c, s, records, textOf, q) == Step(s, None)
    ensures records != [] ==>
      var before := RecordAll(c, s, records[..|records| - 1], textOf, q);
      RecordAll(c, s, records, textOf, q) ==
        if before.thrown.Some? then before
        else RecordStep(c, before.state, records[|records| - 1], textOf(records[|records| - 1]), q)
  {
    if records != [] {
      StepsSnoc(RecordStepper(c, textOf, q), s, records, |records| - 1);
      assert records[..|records|] == records;
    }
  }

  /**
   * When every record of a record phrase list resolves, each record node
   * carries the qualifier and its buffer.
   */
  lemma {:induction false} RecordAllMarks(c: ValidContext, s: RecordState, records: seq<NodeId>,
                                          textOf: NodeId -> string, q: ContextQualifier, x: NodeId)
    requires RecordAll(c, s, records, textOf, q).thrown.None? && x in records
    ensures var t := RecordAll(c, s, records, textOf, q).state;
      && Resolved(c.env, c.scope, q, textOf(x)).Some?
      && x in t.qualifierAttr && t.qualifierAttr[x] == q
      && x in t.tableBufferOf && Some(t.tableBufferOf[x]) == Resolved(c.env, c.scope, q, textOf(x))
    decreases |records|
  {
    var n := |records|;
    var init := records[..n - 1];
    var before := RecordAll(c, s, init, textOf, q);
    RecordAllUnfold(c, s, records, textOf, q);
    RecordStepSuccess(c, before.state, records[n - 1], textOf(records[n - 1]), q);
    if x != records[n - 1] {
      assert records == init + [records[n - 1]];
      RecordAllMarks(c, s, init, textOf, q, x);
    }
  }

  /** When every record resolves, the abbreviated ones, and only those, are added to the marked nodes. */
  lemma {:induction false} RecordAllAbbreviated(c: ValidContext, s: RecordState, records: seq<NodeId>,
                                                textOf: NodeId -> string, q: ContextQualifier, x: NodeId)
    requires RecordAll(c, s, records, textOf, q).thrown.None?
    ensures x in RecordAll(c, s, records, textOf, q).state.abbreviated <==>
      x in s.abbreviated || (x in records && AbbreviatedName(c, q, textOf(x)))
    decreases |records|
  {
    if records != [] {
      var n := |records|;
      var init := records[..n - 1];
      assert records == init + [records[n - 1]];
      var before := RecordAll(c, s, init, textOf, q);
      RecordAllUnfold(c, s, records, textOf, q);
      RecordStepScope(c, before.state, records[n - 1], textOf(records[n - 1]), q);
      RecordAllAbbreviated(c, s, init, textOf, q, x);
    }
  }

  /** When every record resolves, one reference per record is added to the log, after the earlier ones. */
  lemma {:induction false} RecordAllReferences(c: ValidContext, s: RecordState, records: seq<NodeId>,
                                               textOf: NodeId -> string, q: ContextQualifier)
    requires RecordAll(c, s, records, textOf, q).thrown.None?
    ensures var t := RecordAll(c, s, records, textOf, q).state;
      |t.references| == |s.references| + |records| && t.references[..|s.references|] == s.references
    decreases |records|
  {
    if records != [] {
      var n := |records|;
      var before := RecordAll(c, s, records[..n - 1], textOf, q);
      RecordAllUnfold(c, s, records, textOf, q);
      RecordAllReferences(c, s, records[..n - 1], textOf, q);
      RecordStepSuccess(c, before.state, records[n - 1], textOf(records[n - 1]), q);
      assert before.state.references[..|s.references|] == s.references;
    }
  }

  /** The reference noted for record `i` is on its buffer, under the qualifier. */
  lemma {:induction false} RecordAllReferenceAt(c: ValidContext, s: RecordState, records: seq<NodeId>,
                                                textOf: NodeId -> string, q: ContextQualifier, i: nat)
    requires RecordAll(c, s, records, textOf, q).thrown.None? && i < |records|
    ensures var t := RecordAll(c, s, records, textOf, q).state;
      && Resolved(c.env, c.scope, q, textOf(records[i])).Some?
      && |s.references| + i < |t.references|
      && t.references[|s.references| + i] == Reference(BufferSym(Resolved(c.env, c.scope, q, textOf(records[i])).value), q)
    decreases |records|
  {
    var n := |records|;
    var init := records[..n - 1];
    var before := RecordAll(c, s, init, textOf, q);
    RecordAllUnfold(c, s, records, textOf, q);
    RecordAllReferences(c, s, init, textOf, q);
    RecordStepSuccess(c, before.state, records[n - 1], textOf(records[n - 1]), q);
    if i < n - 1 {
      RecordAllReferenceAt(c, s, init, textOf, q, i);
      assert init[i] == records[i];
    }
  }

  /** When every record resolves, the last two records are the last and previous tables referenced. */
  lemma {:induction false} RecordAllLast(c: ValidContext, s: RecordState, records: seq<NodeId>,
                                         textOf: NodeId -> string, q: ContextQualifier)
    requires RecordAll(c, s, records, textOf, q).thrown.None?
    ensures var t := RecordAll(c, s, records, textOf, q).state;
      var n := |records|;
      && (n >= 1 ==> t.last == Resolved(c.env, c.scope, q, textOf(records[n - 1])))
      && (n >= 2 ==> t.prev == Resolved(c.env, c.scope, q, textOf(records[n - 2])))
      && (n == 1 ==> t.prev == s.last)
      && (n == 0 ==> t == s)
    decreases |records|
  {
    if records != [] {
      var n := |records|;
      var init := records[..n - 1];
      var x := records[n - 1];
      var before := RecordAll(c, s, init, textOf, q);
      RecordAllUnfold(c, s, records, textOf, q);
      assert before.thrown.None?;
      var after := RecordStep(c, before.state, x, textOf(x), q);
      assert RecordAll(c, s, records, textOf, q) == after;
      RecordStepSuccess(c, before.state, x, textOf(x), q);
      RecordAllLast(c, s, init, textOf, q);
      if n >= 2 {
        assert init[n - 2] == records[n - 2];
      }
    }
  }

  // ---------------------------------------------------------------------------
  // The qualifier side table

  /**
   * `put(k, q)` on a parse-tree property. Storing null is the same, for every
   * later `get` or `removeFrom`, as having no entry.
   */
  function Put(m: map<NodeId, ContextQualifier>, k: NodeId, q: Option<ContextQualifier>): (r: map<NodeId, ContextQualifier>)
    ensures (k in r <==> q.Some?) && (k in r ==> r[k] == q.value)
    ensures forall j :: j != k ==> (j in r <==> j in m)
    ensures forall j :: j != k && j in r ==> r[j] == m[j]
  {
    if q.Some? then m[k := q.value] else m - {k}
  }

  /** `put(k, q)` for each key in turn. */
  function PutAll(m: map<NodeId, ContextQualifier>, keys: seq<NodeId>, q: Option<ContextQualifier>): map<NodeId, ContextQualifier>
    decreases |keys|
  {
    if keys == [] then m else Put(PutAll(m, keys[..|keys| - 1], q), keys[|keys| - 1], q)
  }

  /**
   * After putting `q` on every key of a list, each key of the list has `q`
   * (has no entry, for a missing `q`) and every other key keeps its entry.
   */
  lemma {:induction false} PutAllLookup(m: map<NodeId, ContextQualifier>, keys: seq<NodeId>, q: Option<ContextQualifier>, k: NodeId)
    ensures var r := PutAll(m, keys, q);
      && (k in keys ==> (k in r <==> q.Some?) && (k in r ==> r[k] == q.value))
      && (k !in keys ==> (k in r <==> k in m) && (k in r ==> r[k] == m[k]))
    decreases |keys|
  {
    if keys != [] {
      var n := |keys| - 1;
      assert keys == keys[..n] + [keys[n]];
      PutAllLookup(m, keys[..n], q, k);
    }
  }

  /** Putting a list and then another is putting their concatenation. */
  lemma {:induction false} PutAllAppend(m: map<NodeId, ContextQualifier>, a: seq<NodeId>, b: seq<NodeId>, q: Option<ContextQualifier>)
    ensures PutAll(PutAll(m, a, q), b, q) == PutAll(m, a + b, q)
    decreases |b|
  {
    if b == [] {
      assert a + b == a;
    } else {
      var n := |b| - 1;
      assert (a + b)[..|a + b| - 1] == a + b[..n];
      assert (a + b)[|a + b| - 1] == b[n];
      PutAllAppend(m, a, b[..n], q);
    }
  }

  /** The order of the keys does not matter, since one value is stored for all of them. */
  lemma PutAllOrderFree(m: map<NodeId, ContextQualifier>, a: seq<NodeId>, b: seq<NodeId>, q: Option<ContextQualifier>)
    requires forall k :: k in a <==> k in b
    ensures PutAll(m, a, q) == PutAll(m, b, q)
  {
    var ra, rb := PutAll(m, a, q), PutAll(m, b, q);
    forall k
      ensures (k in ra <==> k in rb) && (k in ra ==> ra[k] == rb[k])
    {
      PutAllLookup(m, a, q, k);
      PutAllLookup(m, b, q, k);
    }
  }

  // ---------------------------------------------------------------------------
  // The index copy of DEFINE TEMP-TABLE ... LIKE

  /** The fields of `fields`, in order, that the table `present` has. */
  function KeepFields(fields: seq<string>, present: seq<string>): (r: seq<string>)
    ensures |r| <= |fields|
    ensures forall f :: f in r <==> f in fields && f in present
    decreases |fields|
  {
    if fields == [] then []
    else
      var rest := KeepFields(fields[..|fields| - 1], present);
      var f := fields[|fields| - 1];
      assert fields == fields[..|fields| - 1] + [f];
      if f in present then rest + [f] else rest
  }

  /** A field list made only of present fields is kept whole. */
  lemma {:induction false} KeepAllPresent(fields: seq<string>, present: seq<string>)
    requires forall f :: f in fields ==> f in present
    ensures KeepFields(fields, present) == fields
    decreases |fields|
  {
    if fields != [] {
      var n := |fields| - 1;
      assert fields == fields[..n] + [fields[n]];
      KeepAllPresent(fields[..n], present);
    }
  }

  /** The copy of a LIKE source index on the new table: same name, unique and primary flags. */
  function CopyIndex(idx: Index, present: seq<string>): (r: Index)
    ensures r.name == idx.name && r.unique == idx.unique && r.primary == idx.primary
    ensures forall f :: f in r.fields <==> f in idx.fields && f in present
  {
    Index(idx.name, idx.unique, idx.primary, KeepFields(idx.fields, present))
  }

  /** The copies of all the LIKE source indexes, in order. */
  function CopiedIndexes(source: seq<Index>, present: seq<string>): (r: seq<Index>)
    ensures |r| == |source|
    decreases |source|
  {
    if source == [] then []
    else CopiedIndexes(source[..|source| - 1], present) + [CopyIndex(source[|source| - 1], present)]
  }

  /** Copy `i` is the copy of source index `i`. */
  lemma {:induction false} CopiedIndexesAt(source: seq<Index>, present: seq<string>, i: nat)
    requires i < |source|
    ensures CopiedIndexes(source, present)[i] == CopyIndex(source[i], present)
    decreases |source|
  {
    var n := |source| - 1;
    if i < n {
      CopiedIndexesAt(source[..n], present, i);
    }
  }

  /**
   * When every field of every source index exists on the new table, as it
   * does after LIKE has copied the fields, the indexes are copied unchanged.
   */
  lemma CopiedIndexesWhole(source: seq<Index>, present: seq<string>)
    requires forall i, f :: 0 <= i < |source| && f in source[i].fields ==> f in present
    ensures CopiedIndexes(source, present) == source
  {
    var copied := CopiedIndexes(source, present);
    forall i | 0 <= i < |source| ensures copied[i] == source[i] {
      CopiedIndexesAt(source, present, i);
      KeepAllPresent(source[i].fields, present);
    }
  }

  /** A table whose indexes are over its own fields. */
  predicate IndexesOverOwnFields(t: Table) {
    forall i, f :: 0 <= i < |t.indexes| && f in t.indexes[i].fields ==> f in t.fields
  }

  /**
   * A table defined LIKE a well-formed table, with its fields copied after
   * `before`, gets back exactly the source's indexes.
   */
  lemma LikeCopyReproduces(source: Table, before: seq<string>)
    requires IndexesOverOwnFields(source)
    ensures CopiedIndexes(source.indexes, before + source.fields) == source.indexes
  {
    CopiedIndexesWhole(source.indexes, before + source.fields);
  }

  // ---------------------------------------------------------------------------
  // Nesting of blocks and scopes

  /**
   * The part of the parser state that block and scope nesting changes: the
   * parent of each scope, the number of blocks made so far, the block stack,
   * and the current scope and block.
   */
  datatype Nest = Nest(parents: seq<Option<ScopeId>>, blockCount: nat, stack: seq<BlockId>,
                       scope: Option<ScopeId>, block: Option<BlockId>)
  {
    /** The current scope, if any, exists. */
    predicate ScopeExists() {
      scope.Some? ==> scope.value < |parents|
    }

    /** Every parent precedes its child and the current scope exists. */
    predicate WellScoped() {
      && (forall i :: 0 <= i < |parents| && parents[i].Some? ==> parents[i].value < i)
      && ScopeExists()
    }

    /** A state inside the program block: the current block is the top of a non-empty stack. */
    predicate Ready() {
      && WellScoped()
      && |stack| >= 1 && block == Some(stack[|stack| - 1])
      && scope.Some?
    }
  }

  datatype NestEvent = BeginBlock | EndBlock | AddScope | CloseScope

  /** `currentBlock = popBlock()`: drop the top entry and make the new top current. */
  function EndStep(n: Nest): (r: Outcome<Nest>)
    ensures r.Normal? <==> |n.stack| >= 2
    ensures r.Normal? ==> r.value.stack == n.stack[..|n.stack| - 1] && r.value.block == Some(n.stack[|n.stack| - 2])
    ensures r.Normal? ==> r.value.parents == n.parents && r.value.scope == n.scope && r.value.blockCount == n.blockCount
  {
    if |n.stack| < 2 then Threw(IndexOutOfBounds)
    else Normal(n.(stack := n.stack[..|n.stack| - 1], block := Some(n.stack[|n.stack| - 2])))
  }

  /** One begin or end of a block or scope; new blocks and scopes are numbered in order of creation. */
  function NestStep(n: Nest, e: NestEvent): (r: Outcome<Nest>)
    requires n.ScopeExists()
    ensures r.Normal? ==> n.parents <= r.value.parents
    ensures r.Normal? && n.WellScoped() ==> r.value.WellScoped()
  {
    match e
    case BeginBlock =>
      Normal(n.(blockCount := n.blockCount + 1, stack := n.stack + [n.blockCount], block := Some(n.blockCount)))
    case EndBlock =>
      EndStep(n)
    case AddScope =>
      if n.scope.None? then Threw(NullPointer)
      else Normal(Nest(n.parents + [n.scope], n.blockCount + 1, n.stack + [n.blockCount],
                       Some(|n.parents|), Some(n.blockCount)))
    case CloseScope =>
      if n.scope.None? then Threw(NullPointer)
      else EndStep(n.(scope := n.parents[n.scope.value]))
  }

  /**
   * A block begun and ended restores the block stack and makes the block
   * on top of it current, which is the block that was current whenever that
   * is the top of the stack. From an empty stack, the end throws.
   */
  lemma BlockBeginEnd(n: Nest)
    requires n.ScopeExists()
    ensures NestStep(n, BeginBlock).Normal?
    ensures |n.stack| >= 1 ==>
      NestStep(NestStep(n, BeginBlock).value, EndBlock) ==
        Normal(n.(blockCount := n.blockCount + 1, block := Some(n.stack[|n.stack| - 1])))
    ensures |n.stack| == 0 ==> NestStep(NestStep(n, BeginBlock).value, EndBlock) == Threw(IndexOutOfBounds)
  {
    var n1 := NestStep(n, BeginBlock).value;
    assert n1.stack[..|n1.stack| - 1] == n.stack;
  }

  /**
   * A scope added and closed makes the current scope current again, keeps
   * the new scope as a child of it, restores the block stack and makes the
   * block on top of it current. Without a current scope the add throws;
   * from an empty stack, the close does.
   */
  lemma ScopeAddClose(n: Nest)
    requires n.ScopeExists()
    ensures n.scope.None? ==> NestStep(n, AddScope) == Threw(NullPointer)
    ensures n.scope.Some? ==> NestStep(n, AddScope).Normal? && NestStep(n, AddScope).value.ScopeExists()
    ensures n.scope.Some? && |n.stack| >= 1 ==>
      NestStep(NestStep(n, AddScope).value, CloseScope) ==
        Normal(n.(parents := n.parents + [n.scope], blockCount := n.blockCount + 1, block := Some(n.stack[|n.stack| - 1])))
    ensures n.scope.Some? && |n.stack| == 0 ==> NestStep(NestStep(n, AddScope).value, CloseScope) == Threw(IndexOutOfBounds)
  {
    if n.scope.Some? {
      var n1 := NestStep(n, AddScope).value;
      assert n1.stack[..|n1.stack| - 1] == n.stack;
      assert n1.parents[|n.parents|] == n.scope;
    }
  }

  /** A succession of events, stopping at the first exception. */
  function Run(n: Nest, events: seq<NestEvent>): (r: Outcome<Nest>)
    requires n.WellScoped()
    ensures r.Normal? ==> r.value.WellScoped() && n.parents <= r.value.parents
    decreases |events|
  {
    if events == [] then Normal(n)
    else match NestStep(n, events[0])
      case Threw(x) => Threw(x)
      case Normal(m) => Run(m, events[1..])
  }

  lemma {:induction false} RunAppend(n: Nest, a: seq<NestEvent>, b: seq<NestEvent>)
    requires n.WellScoped()
    ensures Run(n, a + b) == match Run(n, a) case Threw(x) => Threw(x) case Normal(m) => Run(m, b)
    decreases |a|
  {
    if a == [] {
      assert a + b == b;
    } else {
      assert (a + b)[0] == a[0] && (a + b)[1..] == a[1..] + b;
      match NestStep(n, a[0])
      case Threw(_) =>
      case Normal(m) => RunAppend(m, a[1..], b);
    }
  }

  /** A properly nested region of the program: a block or a scope around further regions. */
  datatype Region = BlockRegion(body: seq<Region>) | ScopeRegion(body: seq<Region>)

  function Events(r: Region): seq<NestEvent>
    decreases r, 1
  {
    match r
    case BlockRegion(body) => [BeginBlock] + EventsOf(body) + [EndBlock]
    case ScopeRegion(body) => [AddScope] + EventsOf(body) + [CloseScope]
  }

  function EventsOf(rs: seq<Region>): seq<NestEvent>
    decreases rs, 0
  {
    if rs == [] then [] else Events(rs[0]) + EventsOf(rs[1..])
  }

  /** `m` is `n` again, as far as the current scope, block and block stack go. */
  predicate Restored(n: Nest, m: Nest) {
    m.stack == n.stack && m.block == n.block && m.scope == n.scope
    && n.parents <= m.parents && m.blockCount >= n.blockCount
  }

  /**
   * The events of a nested region, run from inside the program block,
   * raise no exception and restore the current scope, the current block and
   * the block stack. The block to return to comes from the stack.
   */
  lemma {:induction false} RunRegion(n: Nest, r: Region)
    requires n.Ready()
    ensures Run(n, Events(r)).Normal? && Run(n, Events(r)).value.Ready() && Restored(n, Run(n, Events(r)).value)
    decreases r, 1
  {
    var open := if r.BlockRegion? then BeginBlock else AddScope;
    var close := if r.BlockRegion? then EndBlock else CloseScope;
    assert Events(r) == [open] + EventsOf(r.body) + [close];
    RunAround(n, open, EventsOf(r.body), close);
    var n1 := NestStep(n, open).value;
    assert n1.Ready();
    RunRegions(n1, r.body);
    var m1 := Run(n1, EventsOf(r.body)).value;
    if r.ScopeRegion? {
      assert m1.parents[|n.parents|] == n1.parents[|n.parents|];
    }
  }

  /** Running an event, a run and an event. */
  lemma RunAround(n: Nest, open: NestEvent, body: seq<NestEvent>, close: NestEvent)
    requires n.WellScoped()
    ensures var first := NestStep(n, open);
      Run(n, [open] + body + [close]) ==
        if first.Threw? then first
        else if Run(first.value, body).Threw? then Run(first.value, body)
        else NestStep(Run(first.value, body).value, close)
  {
    RunAppend(n, [open] + body, [close]);
    RunAppend(n, [open], body);
    assert [open][1..] == [];
    assert [close][1..] == [];
    match NestStep(n, open)
    case Threw(_) =>
    case Normal(n1) =>
      assert Run(n, [open]) == Normal(n1);
      match Run(n1, body)
      case Threw(_) =>
      case Normal(m1) =>
        if NestStep(m1, close).Normal? {
          assert Run(NestStep(m1, close).value, []) == Normal(NestStep(m1, close).value);
        }
  }

  lemma {:induction false} RunRegions(n: Nest, rs: seq<Region>)
    requires n.Ready()
    ensures Run(n, EventsOf(rs)).Normal? && Run(n, EventsOf(rs)).value.Ready() && Restored(n, Run(n, EventsOf(rs)).value)
    decreases rs, 0
  {
    if rs == [] {
    } else {
      RunRegion(n, rs[0]);
      var m := Run(n, Events(rs[0])).value;
      RunRegions(m, rs[1..]);
      RunAppend(n, Events(rs[0]), EventsOf(rs[1..]));
    }
  }
}
