# Proparse tree-parser bookkeeping, token classifier and macro ownership, in Dafny

This project models three parts of proparse, the OpenEdge ABL parser of
sonar-openedge, and proves properties of them.

1. **The semantic tree parser's bookkeeping** (`TreeParser.java`). This is the
   state the listener keeps while it walks a parse tree:
   - the current scope, the current block and the block stack;
   - the context-qualifier and table-name-resolution side tables of the tree;
   - the resolution of record names under a qualifier, including the
     abbreviation test on unnamed database buffers;
   - the last and previous tables referenced;
   - the reference log of symbols (`noteReference`);
   - the table and index definitions of DEFINE TEMP-TABLE, with the copy of
     the LIKE table's indexes at its end;
   - the explicit-table branch of `field()`.

   The parser is a `class TreeParser` (`tree_parser.dfy`). Its fields are
   updated in place, and each method names only the fields it changes.

   Scopes, blocks, tables and buffers live in arenas (sequences) inside the
   parser and are named by position. The scope lookups and the schema belong
   to collaborator classes that are not part of this model, so they are passed
   in as `Lookups` maps.

   Java exceptions are explicit `Outcome` values. This covers null
   dereferences, `IndexOutOfBoundsException` from the block stack or from
   `split`, and the "Could not resolve table" error.

   The pure rules behind the methods live in `tree_model.dfy`, and the
   methods are proved against them:
   - `NodeSymbolStep` and `RecordStep` give recordNodeSymbol and
     recordNameNode as steps on a `RecordState`;
   - `RecordAll` gives the record loop;
   - `PutAll` gives the side-table copies;
   - `CopiedIndexes` gives the LIKE index copy;
   - `NestStep` and `Run` give block and scope nesting.

   What resolving names records is grouped in the single field
   `resolved: RecordState`:
   - the CONTEXT_QUALIFIER, ABBREVIATED, table-buffer and buffer-scope
     attributes of nodes;
   - the references noted;
   - `lastTableReferenced` and `prevTableReferenced`.

   The Java code keeps these in node attributes, in symbols and in two parser
   fields.
2. **`ProToken`** (`pro_token.dfy`). This covers:
   - the static `isEditableInAB(String)` classifier of AppBuilder
     `&ANALYZE-SUSPEND` option strings, over a model of Guava's
     `Splitter.on(',').omitEmptyStrings().trimResults()` (`text_split.dfy`);
   - the instance `isEditableInAB()`;
   - `isSynthetic` and `isNatural`;
   - `equals` and `hashCode`, with Java's 32-bit wrap-around written out;
   - both constructors;
   - `setType`.
3. **`MacroEvent.isMine`** (`macro_event.dfy`). This is the recursive
   ancestor test over the macro event tree. It is modelled on an arena in
   which every parent precedes its child, which makes every parent chain
   finite.

`optional.dfy` holds the `Option` type used for Java's nullable references.

## Model

Path prefixes: `TreeParser.java` is
`proparse/src/main/java/org/prorefactor/proparse/antlr4/TreeParser.java`,
`ProToken.java` is `proparse/src/main/java/org/prorefactor/core/ProToken.java`
and `MacroEvent.java` is
`proparse/src/main/java/org/prorefactor/macrolevel/MacroEvent.java`; the
table writes them out in full.

| member | source | states |
|---|---|---|
| TreeParsers.TreeParser.constructor | proparse/src/main/java/org/prorefactor/proparse/antlr4/TreeParser.java:100-107 | A new parser has only the root scope, which is current; no block is current, the block stack, side tables and reference log are empty, and no table has been referenced. |
| TreeParsers.TreeParser.PushBlock | proparse/src/main/java/org/prorefactor/proparse/antlr4/TreeParser.java:1606-1609 | The block is appended to the stack and returned. |
| TreeParsers.TreeParser.PopBlock | proparse/src/main/java/org/prorefactor/proparse/antlr4/TreeParser.java:1601-1604 | With two or more entries the last is removed and the new last returned; with one entry it is removed and the read then throws IndexOutOfBounds; with none the removal throws. |
| TreeParsers.TreeParser.EnterProgram | proparse/src/main/java/org/prorefactor/proparse/antlr4/TreeParser.java:118-125 | The program block is created as the root block of the root scope, pushed, made current and set on the node; afterwards, with a current scope, the nesting is inside the program block: a non-empty stack whose top is the current block. |
| TreeParsers.TreeParser.BlockBegin | proparse/src/main/java/org/prorefactor/proparse/antlr4/TreeParser.java:1675-1679 | A new block whose parent is the current block is pushed, made current and set on the node; the nesting changes exactly as the BeginBlock step of the pure model. |
| TreeParsers.TreeParser.BlockEnd | proparse/src/main/java/org/prorefactor/proparse/antlr4/TreeParser.java:1681-1683 | Succeeds exactly with at least two entries, dropping the top and making the new top current; otherwise throws IndexOutOfBounds with the current block unchanged; agrees with the EndBlock step. |
| TreeParsers.TreeParser.ScopeAdd | proparse/src/main/java/org/prorefactor/proparse/antlr4/TreeParser.java:1685-1691 | Without a current scope throws a null dereference and creates nothing; otherwise a new child of the current scope becomes current, with a new root block that is pushed and made current; agrees with the AddScope step. |
| TreeParsers.TreeParser.ScopeClose | proparse/src/main/java/org/prorefactor/proparse/antlr4/TreeParser.java:1693-1697 | The parent of the current scope becomes current and the block ends as in blockEnd; a missing current scope throws; agrees with the CloseScope step. |
| TreeParsers.TreeParser.ScopeSwap | proparse/src/main/java/org/prorefactor/proparse/antlr4/TreeParser.java:1705-1709 | The given scope becomes current; its root block replaces the top of the stack and becomes current; with fewer than two entries the pop throws IndexOutOfBounds. |
| TreeParsers.TreeParser.EnterForstate | proparse/src/main/java/org/prorefactor/proparse/antlr4/TreeParser.java:1083-1091 | FOR begins a block as blockBegin does and puts INITWEAK on its record phrase list. |
| TreeParsers.TreeParser.ExitForstate | proparse/src/main/java/org/prorefactor/proparse/antlr4/TreeParser.java:1093-1096 | The end of FOR ends the block, as the EndBlock step does. |
| TreeParsers.TreeParser.AddToSymbolScope | proparse/src/main/java/org/prorefactor/proparse/antlr4/TreeParser.java:1581-1585 | Inside DEFINE EVENT nothing changes; otherwise the symbol is appended to the current scope (a missing scope throws); nesting is unchanged. |
| TreeParsers.TreeParser.EnterDefineEvent | proparse/src/main/java/org/prorefactor/proparse/antlr4/TreeParser.java:738-741 | The DEFINE EVENT flag is set. |
| TreeParsers.TreeParser.ExitDefineEvent | proparse/src/main/java/org/prorefactor/proparse/antlr4/TreeParser.java:744-747 | The flag is cleared first, so the event itself is appended to the current scope. |
| TreeParsers.TreeParser.NoteReference | proparse/src/main/java/org/prorefactor/proparse/antlr4/TreeParser.java:1942-1946 | One reference is appended exactly when the node has a symbol and the qualifier is UPDATING or REFUP; otherwise nothing changes. |
| TreeParsers.TreeParser.RemoveQualifier | proparse/src/main/java/org/prorefactor/proparse/antlr4/TreeParser.java:241 | `removeFrom` returns the entry, if any, and leaves no entry for the key. |
| TreeParsers.TreeParser.RemoveResolution | proparse/src/main/java/org/prorefactor/proparse/antlr4/TreeParser.java:1368 | The same for the table-name-resolution table. |
| TreeParsers.TreeParser.PutEach | proparse/src/main/java/org/prorefactor/proparse/antlr4/TreeParser.java:243-248 | The loop of puts leaves the table as PutAll describes it. |
| TreeParsers.TreeParser.EnterExpression | proparse/src/main/java/org/prorefactor/proparse/antlr4/TreeParser.java:240-250 | Without a qualifier nothing changes; with one it is consumed and put, unchanged, on every child expression term and expression. |
| TreeParsers.TreeParser.EnterFormItemsOrRecord | proparse/src/main/java/org/prorefactor/proparse/antlr4/TreeParser.java:1121-1128 | The qualifier is consumed and put on every child, a missing one as no entry. |
| TreeParsers.TreeParser.RecordNodeSymbol | proparse/src/main/java/org/prorefactor/proparse/antlr4/TreeParser.java:1656-1673 | The record state and outcome are those of NodeSymbolStep, whose properties NodeSymbolStepSpec states. |
| TreeParsers.TreeParser.RecordNameNode | proparse/src/main/java/org/prorefactor/proparse/antlr4/TreeParser.java:1611-1653 | The record state and outcome are those of RecordStep in the current scope and block. The last and previous tables stay among the parser's buffers. |
| TreeParsers.TreeParser.EnterForRecordSpec | proparse/src/main/java/org/prorefactor/proparse/antlr4/TreeParser.java:1098-1104 | The qualifier is consumed; no records change nothing; a missing qualifier throws on the first record before anything changes; otherwise the state and outcome are those of RecordAll. |
| TreeParsers.TreeParser.DefineTable | proparse/src/main/java/org/prorefactor/proparse/antlr4/TreeParser.java:1878-1888 | A new empty table and its default buffer are created, the buffer becomes the table being defined, and the LIKE and USE-INDEX state is reset. |
| TreeParsers.TreeParser.DefineTableLike | proparse/src/main/java/org/prorefactor/proparse/antlr4/TreeParser.java:1849-1857 | The LIKE table is remembered and its fields are appended, in position order, to the table being defined (a missing table throws once there is a field to copy). |
| TreeParsers.TreeParser.DefineIndexInitialize | proparse/src/main/java/org/prorefactor/proparse/antlr4/TreeParser.java:1867-1870 | A new empty index with the name and flags is appended to the table being defined and becomes current; a missing table throws and changes nothing. |
| TreeParsers.TreeParser.DefineIndexField | proparse/src/main/java/org/prorefactor/proparse/antlr4/TreeParser.java:1872-1876 | The name is appended to the current index exactly when the table being defined has such a field; an unknown name is skipped; a missing table throws, and so does a missing index for a known field. |
| TreeParsers.TreeParser.CopyIndexFields | proparse/src/main/java/org/prorefactor/proparse/antlr4/TreeParser.java:1897-1903 | The loop keeps, in order, the source index fields that the new table has (KeepFields). |
| TreeParsers.TreeParser.CopyIndexes | proparse/src/main/java/org/prorefactor/proparse/antlr4/TreeParser.java:1894-1905 | The loop builds the copies of all the LIKE table's indexes, in order (CopiedIndexes). |
| TreeParsers.TreeParser.PostDefineTempTable | proparse/src/main/java/org/prorefactor/proparse/antlr4/TreeParser.java:1890-1907 | The indexes are replaced by the copies exactly when LIKE was seen, USE-INDEX was not, and the table has no index; otherwise no table changes; a missing table in that case throws. |
| TreeParsers.TreeParser.Field | proparse/src/main/java/org/prorefactor/proparse/antlr4/TreeParser.java:2025-2115 | The qualifier is set on the node in every case. An INPUT field goes to the frames. ANY goes to the current block's lookup, and without a current block throws a null dereference. Otherwise the last part of the name is looked up on the last table referenced, or the previous one for PREVIOUS. A split into nothing or a missing buffer throws. An unknown name is dropped inside FIELDS or EXCEPT and throws elsewhere. A known one sets the symbol and store type and notes the field and buffer references, in that order. |
| TreeParsers.TreeParser.EnterField | proparse/src/main/java/org/prorefactor/proparse/antlr4/TreeParser.java:1366-1373 | Both side-table entries are consumed; a missing qualifier defaults to REF and a missing resolution to ANY before field() runs. |
| TreeModel.Resolve | proparse/src/main/java/org/prorefactor/proparse/antlr4/TreeParser.java:1616-1636 | Record uses and BUFFERSYMBOL look up the buffer symbol, SYMBOL any table or buffer symbol, TEMPTABLESYMBOL the temp-tables, and SCHEMATABLESYMBOL the scope's unnamed buffer of the schema table, which is always found; only a missing scope throws, and not for an unknown schema table. |
| TreeModel.SchemaTableResolves | proparse/src/main/java/org/prorefactor/proparse/antlr4/TreeParser.java:1631-1635 | In an existing scope, a SCHEMATABLESYMBOL reference to a table the schema knows resolves to that scope's unnamed buffer of the table and never fails with the unresolved-table error. |
| TreeModel.Abbreviation | proparse/src/main/java/org/prorefactor/proparse/antlr4/TreeParser.java:1665-1672 | Only the default buffer of a database table can be abbreviated; the only failure is the split of such a reference into nothing. |
| TreeModel.OnlyDefaultDbAbbreviated | proparse/src/main/java/org/prorefactor/proparse/antlr4/TreeParser.java:1665-1667 | A named buffer, temp-table or work-table is never abbreviated and never fails. |
| TreeModel.AbbreviationQualified | proparse/src/main/java/org/prorefactor/proparse/antlr4/TreeParser.java:1668-1671 | For `db.name`, abbreviated exactly when the table name is longer than `name`. |
| TreeModel.AbbreviationUnqualified | proparse/src/main/java/org/prorefactor/proparse/antlr4/TreeParser.java:1668-1671 | For an unqualified name, abbreviated exactly when the table name is longer. |
| TreeModel.FullNameNotAbbreviated | proparse/src/main/java/org/prorefactor/proparse/antlr4/TreeParser.java:1668-1671 | The full table name, qualified or not, is not an abbreviation. |
| TreeModel.AbbreviationFails | proparse/src/main/java/org/prorefactor/proparse/antlr4/TreeParser.java:1668-1669 | For a default database buffer the split throws exactly for a non-empty text of dots only. |
| TreeModel.ScopeFor | proparse/src/main/java/org/prorefactor/proparse/antlr4/TreeParser.java:1639-1651 | A reference scope exactly for INIT, REF, REFUP and UPDATING; a weak scope exactly for INITWEAK; always in the current block for the buffer. |
| TreeModel.NodeSymbolStep | proparse/src/main/java/org/prorefactor/proparse/antlr4/TreeParser.java:1656-1673 | recordNodeSymbol as a step: it throws with the name exactly when there is no buffer, and it touches only the ABBREVIATED mark and the last and previous tables; NodeSymbolStepSpec gives the rest of the rule. |
| TreeModel.RecordStep | proparse/src/main/java/org/prorefactor/proparse/antlr4/TreeParser.java:1611-1653 | recordNameNode as a step: the qualifier is always set on the node; a failure notes no reference; a success notes exactly one reference, on the buffer it makes the last table referenced. RecordStepOutcome, RecordStepSuccess and RecordStepScope give the rest. |
| TreeModel.NodeSymbolStepSpec | proparse/src/main/java/org/prorefactor/proparse/antlr4/TreeParser.java:1656-1673 | A missing buffer throws with the name and changes nothing; otherwise the last table becomes the previous one and the buffer the last; the node is marked ABBREVIATED exactly when the buffer is the default buffer of a database table whose name is longer than the last part of the text; the split throws exactly for such a buffer and a text that splits into nothing; nothing else changes. |
| TreeModel.RecordStepWithin | proparse/src/main/java/org/prorefactor/proparse/antlr4/TreeParser.java:1662-1663 | The last and previous tables referenced remain buffers that exist. |
| TreeModel.RecordStepOutcome | proparse/src/main/java/org/prorefactor/proparse/antlr4/TreeParser.java:1611-1653 | The qualifier attribute is always set. Success happens exactly when the name resolves, its split does not throw, and a current block exists wherever one is dereferenced. An unresolved name throws either the null dereference of the lookup or the unresolved-table error. A failure notes no reference and sets no buffer scope. |
| TreeModel.RecordStepSuccess | proparse/src/main/java/org/prorefactor/proparse/antlr4/TreeParser.java:1637-1652 | On success the node carries the qualifier and the buffer, the buffer is the last table referenced (the old last becomes the previous one), and one reference on the buffer is noted. |
| TreeModel.RecordStepScope | proparse/src/main/java/org/prorefactor/proparse/antlr4/TreeParser.java:1639-1651 | On success INIT, REF, REFUP and UPDATING get a reference scope, INITWEAK a weak scope, other qualifiers none; the node is marked exactly when the name is abbreviated. |
| TreeModel.Steps | proparse/src/main/java/org/prorefactor/proparse/antlr4/TreeParser.java:1101-1103 | A loop whose body may throw: each step runs only while no earlier step threw. It carries no contract; StepsSnoc, StepsNext and StepsStop state its behaviour. |
| TreeModel.RecordAll | proparse/src/main/java/org/prorefactor/proparse/antlr4/TreeParser.java:1100-1103 | The record loop of enterFor_record_spec: RecordStep over the records in order under one qualifier. It carries no contract; the RecordAll lemmas state its results. |
| TreeModel.StepsStop | proparse/src/main/java/org/prorefactor/proparse/antlr4/TreeParser.java:1101-1103 | The first exception ends the loop over the records; later records change nothing. |
| TreeModel.RecordAllMarks | proparse/src/main/java/org/prorefactor/proparse/antlr4/TreeParser.java:1101-1103 | When every record resolves, every record node carries the qualifier and the buffer its name resolves to. |
| TreeModel.RecordAllAbbreviated | proparse/src/main/java/org/prorefactor/proparse/antlr4/TreeParser.java:1101-1103 | When every record resolves, exactly the abbreviated records are added to the ABBREVIATED nodes. |
| TreeModel.RecordAllReferences | proparse/src/main/java/org/prorefactor/proparse/antlr4/TreeParser.java:1101-1103 | When every record resolves, exactly one reference per record is added after the earlier ones. |
| TreeModel.RecordAllReferenceAt | proparse/src/main/java/org/prorefactor/proparse/antlr4/TreeParser.java:1101-1103 | The reference added for record `i` is on its buffer, under the statement's qualifier, at position `i` of the new references. |
| TreeModel.RecordAllLast | proparse/src/main/java/org/prorefactor/proparse/antlr4/TreeParser.java:1101-1103 | When every record resolves, the last record's buffer is the last table referenced and the one before it the previous one (for one record, the old last table). |
| TreeModel.Put | proparse/src/main/java/org/prorefactor/proparse/antlr4/TreeParser.java:1126 | `put(k, q)` gives `k` the qualifier, or no entry when it is null, and leaves every other key as it was. |
| TreeModel.PutAll | proparse/src/main/java/org/prorefactor/proparse/antlr4/TreeParser.java:1125-1127 | One put per key, in order. It carries no contract; PutAllLookup, PutAllAppend and PutAllOrderFree state its result. |
| TreeModel.PutAllLookup | proparse/src/main/java/org/prorefactor/proparse/antlr4/TreeParser.java:1124-1127 | After the puts, every listed key holds the qualifier (no entry for a missing one) and every other key keeps its entry. |
| TreeModel.PutAllAppend | proparse/src/main/java/org/prorefactor/proparse/antlr4/TreeParser.java:243-248 | Putting on the expression terms and then on the expressions is putting on both lists in turn. |
| TreeModel.PutAllOrderFree | proparse/src/main/java/org/prorefactor/proparse/antlr4/TreeParser.java:1125-1127 | The order of the children does not matter. |
| TreeModel.KeepFields | proparse/src/main/java/org/prorefactor/proparse/antlr4/TreeParser.java:1897-1903 | The kept fields are exactly the source fields that the new table has, and there are no more of them than source fields. |
| TreeModel.CopyIndex | proparse/src/main/java/org/prorefactor/proparse/antlr4/TreeParser.java:1895-1903 | A copy keeps name, unique and primary, and has exactly the source index fields the new table has. |
| TreeModel.CopiedIndexes | proparse/src/main/java/org/prorefactor/proparse/antlr4/TreeParser.java:1894-1905 | One copy per index of the LIKE table; CopiedIndexesAt says which. |
| TreeModel.CopiedIndexesAt | proparse/src/main/java/org/prorefactor/proparse/antlr4/TreeParser.java:1894-1905 | Copy `i` is the copy of source index `i`. |
| TreeModel.CopiedIndexesWhole | proparse/src/main/java/org/prorefactor/proparse/antlr4/TreeParser.java:1894-1905 | When the new table has every field of every source index, the indexes are copied unchanged. |
| TreeModel.LikeCopyReproduces | proparse/src/main/java/org/prorefactor/proparse/antlr4/TreeParser.java:1849-1907 | A table defined LIKE a table whose indexes are over its own fields gets back exactly that table's indexes. |
| TreeModel.EndStep | proparse/src/main/java/org/prorefactor/proparse/antlr4/TreeParser.java:1601-1604 | The end of a block succeeds exactly with two or more entries, dropping the top and making the new top current. |
| TreeModel.NestStep | proparse/src/main/java/org/prorefactor/proparse/antlr4/TreeParser.java:1675-1697 | Scopes are only ever added, and every parent precedes its child. |
| TreeModel.Run | proparse/src/main/java/org/prorefactor/proparse/antlr4/TreeParser.java:1675-1697 | A sequence of nesting events that raises nothing keeps every parent before its child and only adds scopes. |
| TreeModel.BlockBeginEnd | proparse/src/main/java/org/prorefactor/proparse/antlr4/TreeParser.java:1675-1683 | blockBegin then blockEnd restores the block stack and makes its top current, with one more block made; from an empty stack the end throws. |
| TreeModel.ScopeAddClose | proparse/src/main/java/org/prorefactor/proparse/antlr4/TreeParser.java:1685-1697 | scopeAdd then scopeClose restores the current scope, the block stack and the current block from the stack, leaving the new scope as a child; without a scope the add throws, from an empty stack the close does. |
| TreeModel.RunRegion | proparse/src/main/java/org/prorefactor/proparse/antlr4/TreeParser.java:85-91 | A properly nested block or scope region, begun inside the program block, raises nothing and restores the current scope, the current block taken from the stack, and the stack. |
| TreeModel.RunRegions | proparse/src/main/java/org/prorefactor/proparse/antlr4/TreeParser.java:85-91 | The same for a succession of regions. |
| TextSplit.SplitTrimmed | proparse/src/main/java/org/prorefactor/core/ProToken.java:205 | Every item of the split is non-empty, trimmed and free of the separator. |
| TextSplit.Trim | proparse/src/main/java/org/prorefactor/core/ProToken.java:205 | The trimmed text has no whitespace at either end. |
| TextSplit.SplitTrimmedConcat | proparse/src/main/java/org/prorefactor/core/ProToken.java:205 | A separator splits the item list into the items of each side. |
| TextSplit.SplitTrimmedPaddedStart | proparse/src/main/java/org/prorefactor/core/ProToken.java:205 | Leading whitespace changes no item. |
| TextSplit.SplitTrimmedPaddedEnd | proparse/src/main/java/org/prorefactor/core/ProToken.java:205 | Trailing whitespace changes no item. |
| TextSplit.SplitTrimmedBlank | proparse/src/main/java/org/prorefactor/core/ProToken.java:205 | Blank text has no item. |
| TextSplit.SplitTrimmedSingle | proparse/src/main/java/org/prorefactor/core/ProToken.java:205 | A trimmed, separator-free word is the only item. |
| TextSplit.SplitTrimmedJoin | proparse/src/main/java/org/prorefactor/core/ProToken.java:205 | Clean items joined with the separator split back into exactly those items. |
| TextSplit.JavaSplitLast | proparse/src/main/java/org/prorefactor/proparse/antlr4/TreeParser.java:1668-1669 | The last element of `split("\\.")` holds no dot. |
| TextSplit.JavaSplitLastWhole | proparse/src/main/java/org/prorefactor/proparse/antlr4/TreeParser.java:1668-1669 | Without a dot the whole text is the last part. |
| TextSplit.JavaSplitLastQualified | proparse/src/main/java/org/prorefactor/proparse/antlr4/TreeParser.java:2058-2059 | After the last dot, a non-empty tail is the last part. |
| TextSplit.JavaSplitLastFails | proparse/src/main/java/org/prorefactor/proparse/antlr4/TreeParser.java:1668-1669 | Indexing the last part throws exactly for a non-empty text of dots only. |
| TextSplit.CaseKey | proparse/src/main/java/org/prorefactor/core/ProToken.java:206 | In `equalsIgnoreCase` against an upper-case ASCII constant, a lower-case ASCII letter counts as its upper-case form and any other ASCII character as itself. |
| ProTokens.Attributes | proparse/src/main/java/org/prorefactor/core/ProToken.java:205 | The option items are non-empty, trimmed and comma-free. |
| ProTokens.Classify | proparse/src/main/java/org/prorefactor/core/ProToken.java:205-221 | The decision table over the items: an editable list has at least two items, the first the code-block marker in any case. |
| ProTokens.EditableInAB | proparse/src/main/java/org/prorefactor/core/ProToken.java:204-222 | The static classifier is the decision table over the Guava split; an editable option string has at least two items. |
| ProTokens.EditableNeedsCodeBlock | proparse/src/main/java/org/prorefactor/core/ProToken.java:206-207 | Nothing is editable unless the first item is `_UIB-CODE-BLOCK` in any case. |
| ProTokens.EditableCustomDefinitions | proparse/src/main/java/org/prorefactor/core/ProToken.java:209-211 | Three or more items with `_CUSTOM` and `_DEFINITIONS`, in any case, are editable. |
| ProTokens.EditableControl | proparse/src/main/java/org/prorefactor/core/ProToken.java:212-213 | Two or more items with `_CONTROL`, in any case, are editable. |
| ProTokens.EditableFunction | proparse/src/main/java/org/prorefactor/core/ProToken.java:218-219 | Two or more items with exactly `_FUNCTION` are editable. |
| ProTokens.EditableProcedure | proparse/src/main/java/org/prorefactor/core/ProToken.java:214-217 | With exactly `_PROCEDURE`, editable exactly with four items or with five whose last is exactly `_FREEFORM`. |
| ProTokens.EditableOtherwiseFalse | proparse/src/main/java/org/prorefactor/core/ProToken.java:209-221 | Any other second item is not editable. |
| ProTokens.PaddedCommaInvariant | proparse/src/main/java/org/prorefactor/core/ProToken.java:205 | Whitespace around a comma does not change the result. |
| ProTokens.BlankItemInvariant | proparse/src/main/java/org/prorefactor/core/ProToken.java:205 | An empty or blank item does not change the result. |
| ProTokens.LeadingBlankItemInvariant | proparse/src/main/java/org/prorefactor/core/ProToken.java:205 | A leading empty or blank item does not change the result. |
| ProTokens.TrailingBlankItemInvariant | proparse/src/main/java/org/prorefactor/core/ProToken.java:205 | A trailing empty or blank item does not change the result. |
| ProTokens.EditableOfJoin | proparse/src/main/java/org/prorefactor/core/ProToken.java:204-222 | An option string written from clean items is classified by those items. |
| ProTokens.ProcedureIsCaseSensitive | proparse/src/main/java/org/prorefactor/core/ProToken.java:214 | `_PROCEDURE` matches only in upper case. |
| ProTokens.FreeformIsCaseSensitive | proparse/src/main/java/org/prorefactor/core/ProToken.java:216 | `_FREEFORM` matches only in upper case. |
| ProTokens.ControlIgnoresCase | proparse/src/main/java/org/prorefactor/core/ProToken.java:206-212 | The code-block marker and `_CONTROL` match in mixed case. |
| ProTokens.EmptyOptionsNotEditable | proparse/src/main/java/org/prorefactor/core/ProToken.java:204-207 | An empty option string is not editable. |
| ProTokens.EmptyOptionsTokenNotEditable | proparse/src/main/java/org/prorefactor/core/ProToken.java:158-160 | A token with an empty option string is not editable. |
| ProTokens.ProToken.constructor | proparse/src/main/java/org/prorefactor/core/ProToken.java:46-63 | Every field takes the argument given for it. |
| ProTokens.ProToken.Generated | proparse/src/main/java/org/prorefactor/core/ProToken.java:42-44 | The two-argument constructor makes a synthetic, non-natural token at position zero of file zero with an empty option string. |
| ProTokens.ProToken.IsEditableInAB | proparse/src/main/java/org/prorefactor/core/ProToken.java:158-160 | A token with no AppBuilder option string is editable; one with an empty option string is not. |
| ProTokens.ProToken.IsSynthetic | proparse/src/main/java/org/prorefactor/core/ProToken.java:165-167 | The synthetic flag. It carries no contract; Generated and IsNatural state it. |
| ProTokens.ProToken.IsNatural | proparse/src/main/java/org/prorefactor/core/ProToken.java:165-174 | Natural exactly when not synthetic. |
| ProTokens.ProToken.Equals | proparse/src/main/java/org/prorefactor/core/ProToken.java:176-187 | Equal exactly to a non-null token with the same node type, text, line, column, file index, end file, end line, end column and macro source. |
| ProTokens.ProToken.HashCode | proparse/src/main/java/org/prorefactor/core/ProToken.java:189-192 | `Objects.hash` of the nine fields `equals` compares, with 32-bit wrap-around. It carries no contract; EqualHashCodes relates it to Equals. |
| ProTokens.EqualsReflexive | proparse/src/main/java/org/prorefactor/core/ProToken.java:176-187 | Every token equals itself. |
| ProTokens.EqualsSymmetric | proparse/src/main/java/org/prorefactor/core/ProToken.java:176-187 | Equality is symmetric. |
| ProTokens.EqualsTransitive | proparse/src/main/java/org/prorefactor/core/ProToken.java:176-187 | Equality is transitive. |
| ProTokens.EqualHashCodes | proparse/src/main/java/org/prorefactor/core/ProToken.java:189-192 | Equal tokens have equal hash codes. |
| ProTokens.ProToken.SetType | proparse/src/main/java/org/prorefactor/core/ProToken.java:71-75 | A known type number sets the node type; an unknown one leaves it null and fails. |
| MacroEvents.IsMine | proparse/src/main/java/org/prorefactor/macrolevel/MacroEvent.java:34-40 | False for null, true for the event itself, otherwise the answer for the parent; an owner is never created after what it owns, and every event owns itself. |
| MacroEvents.IsMineNull | proparse/src/main/java/org/prorefactor/macrolevel/MacroEvent.java:35-36 | Nothing owns null. |
| MacroEvents.IsMineSelf | proparse/src/main/java/org/prorefactor/macrolevel/MacroEvent.java:37-38 | Every event owns itself. |
| MacroEvents.IsMineIffOnChain | proparse/src/main/java/org/prorefactor/macrolevel/MacroEvent.java:34-40 | `x.isMine(y)` exactly when `x` is on the parent chain from `y`, `y` included. |
| MacroEvents.ParentStep | proparse/src/main/java/org/prorefactor/macrolevel/MacroEvent.java:39 | Owning the parent of `y` means owning `y`. |
| MacroEvents.IsMineOrdered | proparse/src/main/java/org/prorefactor/macrolevel/MacroEvent.java:34-40 | An owner never comes after what it owns. |
| MacroEvents.IsMineAntisymmetric | proparse/src/main/java/org/prorefactor/macrolevel/MacroEvent.java:34-40 | Two events that own each other are the same. |
| MacroEvents.IsMineTransitive | proparse/src/main/java/org/prorefactor/macrolevel/MacroEvent.java:39 | Ownership is transitive. |

## Left out

- I/O and wiring: logging, `trace`, and the ANTLR wiring of listener methods to rule contexts. Each listener method takes the nodes it reads as parameters.
- Scope and schema lookups (`getBufferSymbol`, `lookupTableOrBufferSymbol`, `lookupTempTable`, the schema's `lookupTable`, `getUnnamedBuffer`) belong to classes that are not part of this model. They are the maps of `Lookups`; `getUnnamedBuffer` is a function of scope and table.
- TreeModel.Resolve: a scope's unnamed buffer of every schema table is presumed to exist already. Its creation on first use, which adds a buffer to the scope, is not modelled.
- Buffer scopes: `Block.getBufferForReference` and `addWeakBufferScope` are recorded as tags naming the block and the buffer. What the Block class does inside is not modelled.
- TreeModel.Resolve: the lookups are exact-name maps. Case-insensitive or abbreviated matching inside the lookups is not modelled.
- TreeParsers.TreeParser.Field: `ITable.lookupField` is modelled as an exact-name membership test on the table's fields. Case-insensitive matching is not modelled.
- TreeParsers.TreeParser.DefineIndexField: the same exact-name `lookupField` on the table being defined.
- TreeParsers.TreeParser.CopyIndexFields: the same exact-name `lookupField` on the new table.
- TreeParsers.TreeParser.PostDefineTempTable: its field lookups are exact-name, through CopyIndexFields.
- TreeModel.KeepFields: keeps the fields the new table has by exact name, for the same reason.
- TreeParsers.TreeParser.Field: the ANY resolution (`Block.lookupField`, after the null dereference of a missing current block) and the INPUT frame lookup are reported as results but not performed. Their result handling (variables, widgets, events) is not modelled.
- TreeParsers.TreeParser.Field: inline variable definitions are not modelled.
- TreeParsers.TreeParser.Field: an unknown field outside FIELDS or EXCEPT continues in Java into `getFieldBuffer(null)`, which is not part of this model. It is modelled as a null dereference.
- TreeParsers.TreeParser.Field: nothing in TreeParser.java ever writes `nameResolution`, so this branch is reached only with the default resolution ANY. It is modelled for the resolutions other callers could set.
- TreeParsers.TreeParser.ScopeSwap: requires the scope to have a root block, where Java would push null. Nothing calls it, because the FUNCTION FORWARD scope reuse at TreeParser.java:1206-1216 is commented out.
- TreeParsers.TreeParser.ScopeAdd: `addScope` on the unseen scope class is modelled as appending a new child scope. The parent's list of children is not modelled.
- TreeParsers.TreeParser.EnterProgram: the root routine it creates and adds is not modelled. Nor are `currSymbol`, the routine fields, the symbol `stack` or `funcForwards`.
- `enterBlock_for` is not modelled. It repeats the qualifier handling of `enterFor_record_spec` for other statements.
- `enterForm_item` is not modelled. It is a single `put` of a consumed qualifier, the same operation as TreeModel.Put.
- `defineUseIndex` (TreeParser.java:1859-1865) is never called in TreeParser.java, so `currDefTableUseIndex` is only ever reset to false. DefineTable resets it, and PostDefineTempTable reads it.
- `defineTempTable` and `defineWorktable` are not modelled separately. They are DefineTable with a store type.
- TreeParsers.TreeParser.DefineTableLike: `rootScope.defineTableField` on a missing table being defined is modelled as a null dereference. Attribute copying (`assignAttributesLike`) is left out.
- TreeParsers.TreeParser.PostDefineTempTable: Java adds each copied index to the table as it goes; the model assigns the list of copies at the end. Nothing reads the table in between, so the final table is the same.
- TreeParsers.TreeParser.RecordNameNode: the node attributes, the references noted and the last and previous tables are grouped in the one field `resolved`.
- The pure nesting model (`Nest`, `NestStep`, `Run`) covers only the events that change nesting. The class methods are proved to agree with it step by step.
- ProTokens.ProToken.SetType: the `ABLNodeType` table is a parameter map.
- ProTokens.ProToken.HashCode: it is given the identity hash of node type constants as a parameter. Other fields are hashed as Java does, with 32-bit wrap-around.
- ProTokens: `toString` and the hidden-token links (`getNext`, `getPrev`, `setHidden*`) are not modelled.
- TextSplit.CaseKey: the comparison is modelled only against ASCII constants, which is how every call site uses it.
- MacroEvents: a parent chain that loops cannot occur in the arena, so the non-termination of `isMine` on such a chain is not modelled.
