# Verification model of the IBM_DB driver and adapter

This project models the parts of the Ruby driver `ibm_db` (`ibm_db.c`) and of its Rails adapter
(`ibm_db_adapter.rb`) that carry state or rewrite SQL, and proves what they keep. The database server and the CLI
library are abstract machines; each of their calls may succeed or fail.

* **Parameter cache and execute** (`Parameters`, `ExecuteProtocol`, `ParamNodes`, `CliLibrary`, `Statement`,
  `StatementRuns`). `bind_param` and `execute` work on a heap-linked list of `param_node`. `ExecuteProtocol` says what
  `execute` does as a function of the cache, the argument and the CLI replies; `Statement` is the code on the heap,
  proved to refine it, with the data-at-execution loop and every place that releases nodes; `StatementRuns` has whole
  runs of calls on one handle. Five oddities of the code are kept and delimited: a marker below the head of the list is
  linked into a cycle, a failed dynamic binding leaves its nodes and its counter behind, parameter bindings outlive the
  nodes they point to, because no call ever resets them, a parameter can still be bound to a freed handle, and a number
  bound to a LOB marker changes how its next text is sent.
* **Transactions** (`Transactions`, `NestedTransactions`, `Connection`). The server has a durable and a working state,
  savepoints and the autocommit bit; setting that bit commits. The driver caches the bit. The adapter's calls compile to
  driver calls and are proved equivalent to a reference semantics that keeps each level's own writes on a stack, and,
  above it, to blocks nested to any depth. The handle and the adapter are classes whose methods are proved to be those
  steps.
* **Diagnostics** (`Diagnostics`). The two record trackers, as a trace property over any interleaving of calls.
* **SQL text** (`SqlTokens`, `LimitOffset`, `LobUpdate`, `Strings`, `NullPredicates`, `DefaultValues`). LIMIT/OFFSET
  printing and bind inlining and the LOB update on tokens; NULL predicates, quoting and default parsing on characters.
* **Catalog** (`ForeignKeys`, `Indexes`). Regrouping foreign-key rows; dropping and re-creating indexes around a removed
  or renamed column, on a server that may refuse any statement.
* **Fetching** (`Fetch`, `Decimal`). The rows of the three fetch calls and the in-place case fold; the buffer size of
  decimal columns.

Properties that do not hold of the code are stated with their exact condition and a concrete witness:

| condition | witness |
|---|---|
| `Parameters.BindRunIsLastWins`, `StatementRuns.BindAll` | `Parameters.BindingBackwardsIsNoList` |
| `ExecuteProtocol.BindsEveryMarkerIff`, `ExecuteProtocol.RetryAfterFailedBindIff` | `ExecuteProtocol.FailedDescribeSpoilsRetry` |
| `ExecuteProtocol.NothingStaleIff`, `StatementRuns.ExecuteKnowing` | `ExecuteProtocol.StaleMarkerIsAskedFor`, `ExecuteProtocol.StaleMarkerWithoutArray`, `StatementRuns.StaleToken`, `StatementRuns.StaleTokenWithoutArray` |
| `StatementRuns.Lifetime` | `StatementRuns.BindAfterFree` |
| `ExecuteProtocol.TextIsSentLaterIff` | `ExecuteProtocol.NumberThenText` |
| `Transactions.FlaggedIffBegun`, `Transactions.PendingWorkIsFlagged` | `Transactions.PreparedAgainAfterCommit` |
| `NestedTransactions.RollbackUndoesIff` | `NestedTransactions.RollbackAfterFailedBegin` |
| `LimitOffset.InliningPreservesMeaning` | `LimitOffset.NumericStringChangesMeaning` |
| `DefaultValues.DefaultRoundTripIff` | `DefaultValues.InnerNullLineIsLost` |
| `DefaultValues.DoubleQuotedRoundTripIff` | `DefaultValues.SingleQuotesComeFirst` |
| `Indexes.RenameColumn` | `Indexes.TwoIndexesWantOneName` |
| `Indexes.RenamingBackRestoresIff` | `Indexes.AnticipatedNameIsLost` |

Where comments in the code and the code differ, the model follows the code. The comment at
`ibm_db_adapter.rb:2210-2211` speaks of inlining numeric values: `Integer()` also converts numeric strings and floats,
so such a bind is replaced by another value (`LimitOffset.InliningPreservesMeaning`).

## Assumptions about the server and the CLI library

* The autocommit attribute takes the values 0 and 1 only; other values are refused. Switching it on commits.
* Disconnecting discards uncommitted work. A statement that fails changes nothing.
* A savepoint name that is reused destroys the older savepoint of that name. Rolling back to a savepoint keeps it.
* In the adapter's runs the CLI commit and rollback succeed, because the adapter ignores what they return
  (`ibm_db_adapter.rb:2502-2504`, `2523-2525`). `Transactions` lets them fail.
* A parameter binding stays in force until its marker is bound again; closing the cursor does not end it. SQLExecute
  waits for the data of those markers of the statement that are bound for data-at-execution, and SQLParamData asks for
  them in any order, by the node each was bound with. SQLParamData, SQLPutData and SQLExecute may fail at any time.
* Index names are unique in the schema; an index has at least one column, each once, all existing. Names are compared in
  the folded form in which the adapter reads them. A second index over the same columns is accepted.

## Model

| member | source | states |
|---|---|---|
| `Parameters.BindRunIsLastWins` | IBM_DB_Driver/ibm_db.c:3397-3478 | A run of `bind_param` calls leaves a finite list if and only if no call names a marker below the first one ever bound; the list is then strictly ascending, has one node per bound marker and is the map in which the last call for each marker wins |
| `Parameters.InsertRefinesUpdate` | IBM_DB_Driver/ibm_db.c:3405-3474 | Inserting at the place the search loop stops at keeps the cache ascending, updates exactly one key of the map it stands for, and grows it by one exactly for a new marker |
| `Parameters.InsertAt` | IBM_DB_Driver/ibm_db.c:3405-3412 | Wherever the loop stops, that place is right: an equal marker is overwritten in place, a new one spliced in there |
| `Parameters.BindingBackwardsIsNoList` | IBM_DB_Driver/ibm_db.c:3437-3440 | Witness: binding marker 2 and then marker 1 leaves no list |
| `ExecuteProtocol.DynamicEndsWellIff` | IBM_DB_Driver/ibm_db.c:6552-6633 | A dynamic binding phase succeeds if and only if every marker it reaches is described and bound |
| `ExecuteProtocol.PhaseEndsWellIff` | IBM_DB_Driver/ibm_db.c:6749-6880 | For every argument, cache and reply: a binding phase succeeds if and only if the markers are counted and, if there are any, the array is long enough and each of its values that has a marker suits it and is accepted, or, without an array, as many markers as the statement has were cached and the variables named for them hold such values |
| `ExecuteProtocol.PhaseBindsAsTold` | IBM_DB_Driver/ibm_db.c:6486-6666 | Wherever a binding phase stops, its log has element i of the array for the i-th marker described or cached, or, without an array, the value of the variable named for each cached marker; exactly the text of CLOB and BLOB input markers is left for data-at-execution; and a phase that ends well has bound all it reaches |
| `ExecuteProtocol.TextIsSentLaterIff` | IBM_DB_Driver/ibm_db.c:6169-6366 | Over any run of array executions on cached nodes, with any failures: text for a LOB input marker is left for data-at-execution if and only if no call came to that marker with a number, whose type stays in the cache |
| `ExecuteProtocol.NumberThenText` | IBM_DB_Driver/ibm_db.c:6169-6366 | Witness: a LOB marker that was given a number has its next text bound as an ordinary value |
| `ExecuteProtocol.BindsEveryMarkerIff` | IBM_DB_Driver/ibm_db.c:6703-6746 | With an array at least as long as the marker count, and a CLI library that cooperates on markers 1..n, the call succeeds and binds element i to marker i+1, every marker once and nothing else, if and only if the cache is pristine or already begins with markers 1..n |
| `ExecuteProtocol.DynamicAndExplicitAgree` | IBM_DB_Driver/ibm_db.c:6531-6666 | Describing and appending, and walking a list of markers 1..n, issue the same sequence of (marker, value) bindings; surplus elements change nothing |
| `ExecuteProtocol.DynamicResidue` | IBM_DB_Driver/ibm_db.c:6562-6601 | What a dynamic binding phase that stopped early leaves: the markers bound so far, with the counter one ahead exactly when a describe failed |
| `ExecuteProtocol.RetryAfterFailedBindIff` | IBM_DB_Driver/ibm_db.c:6562-6601 | After a dynamic execute whose binding failed, a cooperative retry succeeds in binding all markers if and only if the failure was the bind of the last one |
| `ExecuteProtocol.FailedBindIsForGood` | IBM_DB_Driver/ibm_db.c:6562-6601 | Otherwise no later call ever binds all markers, after any run of array executions, whatever they pass and whatever the CLI library answers for the markers it knows |
| `ExecuteProtocol.FailedDescribeSpoilsRetry` | IBM_DB_Driver/ibm_db.c:6562-6601 | Witness with two CLOB markers: after a failed describe of the second the retry reports success and has bound the first only |
| `ExecuteProtocol.CallKeepsReady` | IBM_DB_Driver/ibm_db.c:7036-7089 | One cooperative execute binds everything and leaves a cache from which the next one will; a successful dynamic one leaves the empty cache |
| `ExecuteProtocol.EveryRunBindsEveryMarker` | IBM_DB_Driver/ibm_db.c:7010-7176 | In every run of executes on a fresh statement every call binds element i to marker i+1, also after calls whose SQLExecute failed; while all succeed the cache is empty again after each |
| `ExecuteProtocol.ReboundIs` | IBM_DB_Driver/ibm_db.c:6766-6775 | A parameter binding stays in force until its marker is bound again: `execute` closes the cursor and resets no parameters |
| `ExecuteProtocol.OnlyOwnDataIff` | IBM_DB_Driver/ibm_db.c:6914-6954 | SQLExecute asks for this call's data only if and only if the call rebinds every marker that an earlier call left bound for data-at-execution |
| `ExecuteProtocol.NothingStaleIff` | IBM_DB_Driver/ibm_db.c:6819-6880 | In terms of the cache and the argument before the call, with an array or without: nothing stale is asked for if and only if the call reaches each of those markers; an array over a pristine cache reaches all |
| `ExecuteProtocol.StaleMarkerIsAskedFor` | IBM_DB_Driver/ibm_db.c:6639-6663 | Witness: two CLOBs executed dynamically, then `bind_param` of marker 1 alone; the next execute reports success having bound one marker, and the data of marker 2 is asked for again |
| `ExecuteProtocol.StaleMarkerWithoutArray` | IBM_DB_Driver/ibm_db.c:6843-6880 | Witness without an array: `bind_param` of markers 1 and 3 satisfies the counter of a two-marker statement, the call succeeds and the data of marker 2 is asked for again |
| `ParamNodes.ChainVisitsOnce` | IBM_DB_Driver/ibm_db.c:3405-3412 | A chain that ends in null visits no node twice: lists are acyclic |
| `ParamNodes.TwoCycleIsNoList` | IBM_DB_Driver/ibm_db.c:3437-3440 | Two nodes pointing at each other are no finite list, whatever its length: what linking a marker below the head leaves |
| `ParamNodes.AllReleased` | IBM_DB_Driver/ibm_db.c:628-654 | Releasing a duplicate-free list of live nodes releases none a second time and leaves none unaccounted for |
| `CliLibrary.CliStatement.CloseCursor` | IBM_DB_Driver/ibm_db.c:6766-6775 | Closing the cursor leaves every parameter binding and its node in force |
| `CliLibrary.CliStatement.Bind` | IBM_DB_Driver/ibm_db.c:6410-6414 | A bind replaces the binding and the token of its own marker and of no other |
| `CliLibrary.CliStatement.ParamData` | IBM_DB_Driver/ruby_ibm_db_cli.c:558-568 | Asks for any one outstanding marker by the node it was bound with, and the question is recorded; or fails |
| `CliLibrary.CliStatement.PutData` | IBM_DB_Driver/ruby_ibm_db_cli.c:589-600 | Sends the buffer and length of the node asked for and settles that marker, or changes nothing |
| `CliLibrary.SendDeferred` | IBM_DB_Driver/ibm_db.c:6914-6954 | The data-at-execution loop terminates; it answers the questions in the order asked, each with the buffer of the node asked for, no marker twice and no other, and on success none is left |
| `Statement.StatementHandle.FindSlot` | IBM_DB_Driver/ibm_db.c:3405-3412 | The search loop ends at the position where the specification inserts, with `prev` one behind it, or still the head at position 0 |
| `Statement.StatementHandle.AddParamCache` | IBM_DB_Driver/ibm_db.c:3397-3478 | On the heap, adding a marker not below the head refines sorted insertion, counts it in `num_params` and adds no node but a fresh one; a marker below the head closes a two-node cycle on the head |
| `Statement.StatementHandle.BuildList` | IBM_DB_Driver/ibm_db.c:6078-6111 | Appends one fresh input node at the tail and touches nothing else |
| `Statement.StatementHandle.BindData` | IBM_DB_Driver/ibm_db.c:6119-6482 | One bind: it succeeds if and only if the value suits the direction and the CLI library accepts it; the fields whose addresses are bound hold the value; the call is recorded, the cached type overwritten for numbers and flags only, and the node made a token exactly for CLOB/BLOB input text, with its own buffer and length; a failed bind leaves the earlier binding in force |
| `Statement.StatementHandle.DescribeAndBindAll` | IBM_DB_Driver/ibm_db.c:6531-6666 | The dynamic loop over the heap list refines the dynamic mode of the binding phase, failures included |
| `Statement.StatementHandle.BindCachedAll` | IBM_DB_Driver/ibm_db.c:6639-6663 | Walking `current_node` refines the explicit mode, failures included |
| `Statement.StatementHandle.BindArray` | IBM_DB_Driver/ibm_db.c:6703-6746 | Chooses the mode by the empty list, refuses short arrays, ignores surplus elements |
| `Statement.StatementHandle.BindParamList` | IBM_DB_Driver/ibm_db.c:6486-6523 | Without an array every cached node gets the value of the variable it names, in list order, up to the first bind that fails |
| `Statement.StatementHandle.BindParameters` | IBM_DB_Driver/ibm_db.c:6749-6880 | The binding part of execute, over every argument and every reply of the CLI library, is the binding phase |
| `Statement.StatementHandle.RunStatement` | IBM_DB_Driver/ibm_db.c:6888-6954 | Data is sent in the order asked, for every marker bound by this call what its binding owes, and on success for all deferred markers; none of another call if and only if this call rebinds all those left deferred |
| `Statement.StatementHandle.Execute` | IBM_DB_Driver/ibm_db.c:7010-7176 | The whole call, for every argument and every failure: log, cache and counter are those of the protocol, earlier bindings persist, data goes out in the order asked, and a successful dynamic call releases exactly the nodes born in it while any other releases none |
| `Statement.OwnTextIsDelivered` | IBM_DB_Driver/ibm_db.c:6914-6954 | Once all is sent, each binding left for data-at-execution has had its text asked for and sent with its length |
| `Statement.StatementHandle.FreeParamCache` | IBM_DB_Driver/ibm_db.c:7062-7089 | Teardown hands every node of the list to the allocator once, in order, and leaves the empty cache |
| `Statement.StatementHandle.FreeResult` | IBM_DB_Driver/ibm_db.c:5907-5960 | Releases the list once when the CLI call succeeds, nothing when it fails |
| `Statement.StatementHandle.FreeHandleAndResources` | IBM_DB_Driver/ibm_db.c:756-788 | From free_stmt or the garbage collector, in any order and number: the statement handle is freed once, and the first call releases every cached node |
| `StatementRuns.BindAll` | IBM_DB_Driver/ibm_db.c:3668-3760 | A run of `bind_param` calls on the heap leaves the ascending list of "last call wins", counted by `num_params`, if and only if no call names a marker below the first; otherwise a two-node cycle |
| `StatementRuns.RepeatExecute` | IBM_DB_Driver/ibm_db.c:7010-7176 | Any number of array executions of one handle: each binds every marker, and while all succeed the handle is as fresh as at first |
| `StatementRuns.ExecuteGood` | IBM_DB_Driver/ibm_db.c:7010-7176 | Each of them asks for no data but its own, whatever was bound before, and sends it in the order asked |
| `StatementRuns.ExecuteKnowing` | IBM_DB_Driver/ibm_db.c:7010-7176 | Of the whole call on the heap: the log binds as told; if the call succeeds it has bound all it reaches, the text of every binding left for data-at-execution has been sent in full, and data of other calls was asked for unless cache and argument make it reach every marker left so by them |
| `StatementRuns.Lifetime` | IBM_DB_Driver/ibm_db.c:756-788 | Any run of `bind_param`, `execute`, `free_result` and `free_stmt` in any order with any failures, and garbage collection at its end: the handle is freed exactly once and no node twice; every node is released if and only if none is left in the list; and without an execute on the freed handle none is left if and only if no `bind_param` on it went without a later `free_result` |
| `StatementRuns.OnlyFreesLeaveNothing` | IBM_DB_Driver/ibm_db.c:8714-8730 | With nothing but `free_stmt` and `free_result` after the first `free_stmt` no node is left |
| `StatementRuns.BindAfterFree` | IBM_DB_Driver/ibm_db.c:3579-3593 | Witness: the node of a `bind_param` on a freed handle is never released |
| `StatementRuns.StaleToken` | IBM_DB_Driver/ibm_db.c:6639-6663 | Witness on the heap: the data asked for again is that of a node already released |
| `StatementRuns.StaleTokenWithoutArray` | IBM_DB_Driver/ibm_db.c:6843-6880 | The same for a call without an array |
| `Transactions.CacheAlwaysAgrees` | IBM_DB_Driver/ibm_db.c:3352-3379 | In every run of driver calls from connect on, failed ones included, the cached autocommit value is the server attribute, and with autocommit on nothing is pending |
| `Transactions.SkippingRefinesCalling` | IBM_DB_Driver/ibm_db.c:3352-3379 | Over every run, a driver that skips the CLI call when the cache agrees cannot be told from one that always calls |
| `Transactions.FlaggedIffBegun` | IBM_DB_Driver/ibm_db.c:546-570 | Over every run the flag by which the garbage collector decides to roll back is set if and only if a statement was prepared or executed directly in this unit of work |
| `Transactions.PendingWorkIsFlagged` | IBM_DB_Driver/ibm_db.c:6040-6046 | Pending work is flagged in every run that executes prepared statements in such units of work only |
| `Transactions.PreparedAgainAfterCommit` | IBM_DB_Driver/ibm_db.c:7010-7035 | Witness: a statement executed again after a commit leaves pending work without the flag |
| `Connection.ConnHandle.Connect` | IBM_DB_Driver/ibm_db.c:2216-2301 | connect ends with the cache read back from the CLI library, whatever mode that settled on |
| `Connection.ConnHandle.SetAutocommit` | IBM_DB_Driver/ibm_db.c:3329-3392 | The method on the handle is the driver step, no CLI call when the cache agrees; an accepted value is cached, switching on commits what was pending and nothing else does, and cache and server stay in agreement |
| `Connection.ConnHandle.AssignOption` | IBM_DB_Driver/ibm_db.c:1556-1587 | Setting autocommit as an option always calls and keeps cache and server in agreement, failed calls included |
| `Connection.ConnHandle.PrepareStatement` | IBM_DB_Driver/ibm_db.c:6044-6044 | Preparing marks a transaction as begun and does nothing at the server |
| `Connection.ConnHandle.CloseConnection` | IBM_DB_Driver/ibm_db.c:3765-3850 | Closing succeeds if and only if the rollback, needed with autocommit off, and the disconnect do; it never makes pending work durable, and a failed rollback keeps the connection open |
| `Connection.ConnHandle.CollectHandle` | IBM_DB_Driver/ibm_db.c:546-596 | Garbage collection of a connection never makes pending work durable and leaves none |
| `Connection.IbmDbAdapter.BeginDbTransaction` | IBM_DB_Adapter/ibm_db/lib/active_record/connection_adapters/ibm_db_adapter.rb:2455-2487 | The method performs the adapter step of begin |
| `Connection.IbmDbAdapter.CommitDbTransaction` | IBM_DB_Adapter/ibm_db/lib/active_record/connection_adapters/ibm_db_adapter.rb:2490-2504 | Commit, then autocommit on, in that order, as one adapter step |
| `Connection.IbmDbAdapter.RollbackDbTransaction` | IBM_DB_Adapter/ibm_db/lib/active_record/connection_adapters/ibm_db_adapter.rb:2508-2525 | Rollback, then autocommit on, in that order, as one adapter step |
| `Connection.IbmDbAdapter.CreateDbSavepoint` | IBM_DB_Adapter/ibm_db/lib/active_record/connection_adapters/ibm_db_adapter.rb:2527-2529 | The adapter step of a savepoint |
| `Connection.IbmDbAdapter.ExecRollbackToSavepoint` | IBM_DB_Adapter/ibm_db/lib/active_record/connection_adapters/ibm_db_adapter.rb:2531-2533 | The adapter step of a rollback to a savepoint |
| `Connection.IbmDbAdapter.ReleaseDbSavepoint` | IBM_DB_Adapter/ibm_db/lib/active_record/connection_adapters/ibm_db_adapter.rb:2535-2537 | The adapter step of releasing a savepoint |
| `Connection.IbmDbAdapter.DisconnectNow` | IBM_DB_Adapter/ibm_db/lib/active_record/connection_adapters/ibm_db_adapter.rb:1432-1454 | Disconnecting leaves the durable database as it was, whether or not closing succeeds, and forgets the connection; the handle is closed if and only if the disconnect succeeds |
| `NestedTransactions.StepRefines` | IBM_DB_Adapter/ibm_db/lib/active_record/connection_adapters/ibm_db_adapter.rb:2455-2537 | Every adapter call, compiled to driver calls on the server, keeps the correspondence between savepoint snapshots and the stack of frames |
| `NestedTransactions.RunsRefine` | IBM_DB_Adapter/ibm_db/lib/active_record/connection_adapters/ibm_db_adapter.rb:2455-2537 | Every run of begin, statements, savepoints, commit, rollback and disconnect, with any failing statements and autocommit switches, leaves the durable database of the reference semantics, which has no snapshots |
| `NestedTransactions.AbandonedWorkIsLost` | IBM_DB_Adapter/ibm_db/lib/active_record/connection_adapters/ibm_db_adapter.rb:2508-2525 | Work between begin and rollback or disconnect, through any savepoints, never becomes durable, although switching autocommit on commits pending work |
| `NestedTransactions.RollbackUndoesIff` | IBM_DB_Adapter/ibm_db/lib/active_record/connection_adapters/ibm_db_adapter.rb:2478-2487 | The adapter goes on when autocommit could not be switched off: whatever savepoints and failed statements come in between, the rollback undoes all work since if and only if the switch had succeeded or no statement wrote |
| `NestedTransactions.RollbackAfterFailedBegin` | IBM_DB_Adapter/ibm_db/lib/active_record/connection_adapters/ibm_db_adapter.rb:2478-2487 | Witness: one write after a failed begin survives the rollback |
| `NestedTransactions.NestedBlocksMeanWhatTheySay` | IBM_DB_Adapter/ibm_db/lib/active_record/connection_adapters/ibm_db_adapter.rb:2478-2537 | Every program of transaction blocks nested to any depth leaves exactly its effect in the durable database: committed blocks inside committed ones, nothing of a rolled-back block |
| `Diagnostics.TrackersRefineReader` | IBM_DB_Driver/ibm_db.c:7550-7613 | Over any interleaving of message and state calls, the two counters implement a reader that keeps only the newest record and who has seen it |
| `Diagnostics.TrackersStayClose` | IBM_DB_Driver/ibm_db.c:7694-7764 | The trackers differ by at most one |
| `Diagnostics.NoRecordIsSkipped` | IBM_DB_Driver/ibm_db.c:7550-7613 | A record has been read if and only if it lies between 1 and the newest: no gaps |
| `Diagnostics.EachKindReadsForward` | IBM_DB_Driver/ibm_db.c:7550-7613 | Each kind of call reads every record at most once, in order |
| `Diagnostics.OtherKindPairsUp` | IBM_DB_Driver/ibm_db.c:7694-7764 | A call of the other kind right after a fresh read reads that same record |
| `Diagnostics.Diagnosed.GetErrormsg` | IBM_DB_Driver/ibm_db.c:7510-7625 | The method on the handle fields reads and advances as the protocol says |
| `Diagnostics.Diagnosed.GetErrorstate` | IBM_DB_Driver/ibm_db.c:7652-7776 | The same for the SQLSTATE call |
| `Diagnostics.Diagnosed.InitErrorInfo` | IBM_DB_Driver/ibm_db.c:989-993 | Both trackers return to the first record |
| `SqlTokens.InstantiateSplit` | IBM_DB_Adapter/ibm_db/lib/active_record/connection_adapters/ibm_db_adapter.rb:2212-2237 | Positional binding is compositional: each part of a statement takes the binds of its own markers |
| `LimitOffset.VisitOrders` | IBM_DB_Adapter/ibm_db/lib/active_record/connection_adapters/ibm_db_adapter.rb:5248-5254 | The ORDER BY loop prints the terms with commas exactly between them |
| `LimitOffset.VisitSelectTail` | IBM_DB_Adapter/ibm_db/lib/active_record/connection_adapters/ibm_db_adapter.rb:5237-5269 | The visitor prints the specified tail for every combination of order, limit and offset, on both server families |
| `LimitOffset.TailRoundTrip` | IBM_DB_Adapter/ibm_db/lib/active_record/connection_adapters/ibm_db_adapter.rb:5193-5262 | The printed tail parses back to the same orders, limit and offset, for every list of well-formed terms; an Informix server loses the offset and nothing else |
| `LimitOffset.TermsAre` | IBM_DB_Adapter/ibm_db/lib/active_record/connection_adapters/ibm_db_adapter.rb:5248-5254 | What a well-formed term is: tokens other than parentheses, commas, LIMIT and OFFSET, and parentheses around any tokens |
| `LimitOffset.InlineTakesLastBinds` | IBM_DB_Adapter/ibm_db/lib/active_record/connection_adapters/ibm_db_adapter.rb:2212-2237 | The last two binds go if and only if the statement ends in LIMIT and OFFSET markers and both convert to integers, the last one if and only if it ends in a LIMIT marker and that one does; otherwise both inputs come back unchanged |
| `LimitOffset.InliningPreservesMeaning` | IBM_DB_Adapter/ibm_db/lib/active_record/connection_adapters/ibm_db_adapter.rb:2212-2237 | The rewritten statement has as many markers as binds and, filled in, is the original with the inlined binds converted to integers; it is the original as it stands if and only if those binds were integers |
| `LimitOffset.InliningCommutesWithPrinting` | IBM_DB_Adapter/ibm_db/lib/active_record/connection_adapters/ibm_db_adapter.rb:5193-5262 | Printing markers and inlining equals printing the integers: the visitor prints the form the rewriting recognises, limit bound before offset; a lone OFFSET marker is left alone |
| `LimitOffset.NumericStringChangesMeaning` | IBM_DB_Adapter/ibm_db/lib/active_record/connection_adapters/ibm_db_adapter.rb:2226-2232 | Witness: a limit given as a numeric string is no longer the same statement after inlining |
| `LobUpdate.CollectColumns` | IBM_DB_Adapter/ibm_db/lib/active_record/connection_adapters/ibm_db_adapter.rb:310-334 | The loop over the columns collects names, parameters and values in step |
| `LobUpdate.HandleLobs` | IBM_DB_Adapter/ibm_db/lib/active_record/connection_adapters/ibm_db_adapter.rb:305-348 | The callback builds the specified statement and value list, with the unparenthesised single NULL, and none without LOB columns |
| `LobUpdate.ParamsTakeTheirValues` | IBM_DB_Adapter/ibm_db/lib/active_record/connection_adapters/ibm_db_adapter.rb:316-334 | The k-th marker belongs to the k-th column that is not stored as NULL |
| `LobUpdate.UpdateAssignsEveryColumn` | IBM_DB_Adapter/ibm_db/lib/active_record/connection_adapters/ibm_db_adapter.rb:305-348 | As many markers as values, and with the values bound the statement assigns every column its own text or dump, or NULL for nil, an empty hash or array and the empty string of a column that is not text, in the row of the given key |
| `NullPredicates.NormalizeNullPredicates` | IBM_DB_Adapter/ibm_db/lib/active_record/connection_adapters/ibm_db_adapter.rb:1549-1571 | The splitting loop computes the specified rewriting |
| `NullPredicates.ReplaceRewritesTests` | IBM_DB_Adapter/ibm_db/lib/active_record/connection_adapters/ibm_db_adapter.rb:1564-1570 | In a text scanned from left to right, every `=` or IN, blanks and NULL or `(NULL)`, in any case, becomes IS NULL, and every other character stays as it is |
| `NullPredicates.EveryTextIsScanned` | IBM_DB_Adapter/ibm_db/lib/active_record/connection_adapters/ibm_db_adapter.rb:1564-1570 | Every text is scanned into such tests and characters, so the substitution is determined on all texts |
| `NullPredicates.PlainTextStays` | IBM_DB_Adapter/ibm_db/lib/active_record/connection_adapters/ibm_db_adapter.rb:1564-1570 | Text without an equals sign or the letter i stands as it is in front of what is replaced |
| `NullPredicates.NormalizeRewritesClauses` | IBM_DB_Adapter/ibm_db/lib/active_record/connection_adapters/ibm_db_adapter.rb:1549-1571 | Of a text with any number of WHERE clauses the text in front of the first stays, every clause has its tests replaced, and one blank stands on either side of each WHERE; without a clause nothing changes |
| `NullPredicates.NormalizeOneClause` | IBM_DB_Adapter/ibm_db/lib/active_record/connection_adapters/ibm_db_adapter.rb:1549-1571 | The same of one clause, character by character |
| `NullPredicates.ReplaceLeavesNothing` | IBM_DB_Adapter/ibm_db/lib/active_record/connection_adapters/ibm_db_adapter.rb:1564-1570 | One pass of the substitution leaves no match, also none that the replacement text could have formed |
| `NullPredicates.NormalizedSplits` | IBM_DB_Adapter/ibm_db/lib/active_record/connection_adapters/ibm_db_adapter.rb:1549-1571 | A rewritten text splits into its own rewritten pieces |
| `NullPredicates.NormalizeTwice` | IBM_DB_Adapter/ibm_db/lib/active_record/connection_adapters/ibm_db_adapter.rb:1198-1200 | Normalising twice is normalising once, for every text |
| `NullPredicates.UpdateRewrites` | IBM_DB_Adapter/ibm_db/lib/active_record/connection_adapters/ibm_db_adapter.rb:2417-2429 | The copy of the rewriting in `update`, run on an already normalised statement, changes nothing further |
| `NullPredicates.NothingLeftBehindWhere` | IBM_DB_Adapter/ibm_db/lib/active_record/connection_adapters/ibm_db_adapter.rb:1549-1571 | The text before the first WHERE is kept, and behind it no match of the pattern is left: an equals sign, blanks and NULL, or IN, blanks and `(NULL)`, in any case |
| `DefaultValues.UndoubleQuoted` | IBM_DB_Adapter/ibm_db/lib/active_record/connection_adapters/ibm_db_adapter.rb:2579-2583 | Undoubling undoes quote doubling, for every string and either quote |
| `DefaultValues.LoneQuotesStay` | IBM_DB_Adapter/ibm_db/lib/active_record/connection_adapters/ibm_db_adapter.rb:3256-3261 | Undoubling leaves single quotes alone |
| `DefaultValues.DefaultRoundTripIff` | IBM_DB_Adapter/ibm_db/lib/active_record/connection_adapters/ibm_db_adapter.rb:3250-3270 | Reading a quoted default gives the string back if and only if it does not mention the identity phrase and has no line between two line breaks reading NULL |
| `DefaultValues.DoubleQuotedRoundTripIff` | IBM_DB_Adapter/ibm_db/lib/active_record/connection_adapters/ibm_db_adapter.rb:3256-3261 | The same in double quotes, if and only if moreover no line starts with a single quote up to a line that ends in one |
| `DefaultValues.DefaultIs` | IBM_DB_Adapter/ibm_db/lib/active_record/connection_adapters/ibm_db_adapter.rb:3250-3270 | What any default is taken for: nothing if it mentions the identity phrase or has a line reading NULL; else what stands between the first single quote that opens a line and the last that closes one; else the same of double quotes; else a number as it stands; else nothing |
| `DefaultValues.NumbersAreKnown` | IBM_DB_Adapter/ibm_db/lib/active_record/connection_adapters/ibm_db_adapter.rb:3262-3264 | A number with optional sign and fraction is never taken for anything else |
| `DefaultValues.SingleQuotesComeFirst` | IBM_DB_Adapter/ibm_db/lib/active_record/connection_adapters/ibm_db_adapter.rb:3256-3261 | Witness: a default in double quotes with a line in single quotes is read back as that line |
| `DefaultValues.QuotedLexesAsOneLiteralIff` | IBM_DB_Adapter/ibm_db/lib/active_record/connection_adapters/ibm_db_adapter.rb:2579-2583 | The quoted form lexes as one literal with that value, whatever follows, unless a further quote does |
| `DefaultValues.InnerNullLineIsLost` | IBM_DB_Adapter/ibm_db/lib/active_record/connection_adapters/ibm_db_adapter.rb:3250-3270 | Witness: a default with a line reading NULL inside is read back as none |
| `ForeignKeys.GroupRows` | IBM_DB_Adapter/ibm_db/lib/active_record/connection_adapters/ibm_db_adapter.rb:3486-3519 | The nested merging loops produce one definition for each constraint name; every row is found again in its own: with its actions if it is the only one, and otherwise with its two columns at the place the row has among those of the constraint |
| `ForeignKeys.EveryRowIsHeld` | IBM_DB_Adapter/ibm_db/lib/active_record/connection_adapters/ibm_db_adapter.rb:3486-3519 | The same of any definitions grouped by name |
| `ForeignKeys.NamesAreDistinct` | IBM_DB_Adapter/ibm_db/lib/active_record/connection_adapters/ibm_db_adapter.rb:3486-3519 | No constraint appears twice in the result |
| `ForeignKeys.NamesInFirstAppearanceOrder` | IBM_DB_Adapter/ibm_db/lib/active_record/connection_adapters/ibm_db_adapter.rb:3486-3519 | Constraints come in the order in which the rows first mention them |
| `ForeignKeys.MergeCombines` | IBM_DB_Adapter/ibm_db/lib/active_record/connection_adapters/ibm_db_adapter.rb:3491-3513 | Merging one more row into a definition is combining all rows at once |
| `ForeignKeys.GroupingConservesRows` | IBM_DB_Adapter/ibm_db/lib/active_record/connection_adapters/ibm_db_adapter.rb:3486-3519 | No (constraint, column, referenced column) triple is lost, duplicated or torn apart |
| `Indexes.DropColumnIndexes` | IBM_DB_Adapter/ibm_db/lib/active_record/connection_adapters/ibm_db_adapter.rb:3946-3956 | Drops exactly the indexes on the column, in whatever order they are listed, and touches no other, wherever it stops |
| `Indexes.RecreateIndexesAfterRemoveColumn` | IBM_DB_Adapter/ibm_db/lib/active_record/connection_adapters/ibm_db_adapter.rb:3983-3996 | Each index on the column comes back under its name without it, or not at all if nothing is left |
| `Indexes.RemoveColumn` | IBM_DB_Adapter/ibm_db/lib/active_record/connection_adapters/ibm_db_adapter.rb:4073-4083 | Whichever statement fails, the REORG after the ALTER included: indexes refer to existing columns only and untouched ones stay; on success exactly the indexes over the column alone are gone, and the others have their other columns in the old order and are unique if they were; a refused ALTER or REORG leaves the column indexes dropped, and a refused DROP or CREATE some of them, as they were or shrunk; a reliable server fails only for a missing or last column |
| `Indexes.RemovedInOrder` | IBM_DB_Adapter/ibm_db/lib/active_record/connection_adapters/ibm_db_adapter.rb:3987-3994 | What the specified catalog is, index by index: membership, order and uniqueness |
| `Indexes.CreateOne` | IBM_DB_Adapter/ibm_db/lib/active_record/connection_adapters/ibm_db_adapter.rb:3963-3979 | One index is created again with the column replaced in its place, under its own or a newly generated name, and is refused only on account of that name |
| `Indexes.CreateColumnIndexes` | IBM_DB_Adapter/ibm_db/lib/active_record/connection_adapters/ibm_db_adapter.rb:3958-3981 | All of them, or a reliable server refuses one if and only if new names collide, are taken elsewhere or are too long |
| `Indexes.RenameColumn` | IBM_DB_Adapter/ibm_db/lib/active_record/connection_adapters/ibm_db_adapter.rb:3999-4018 | After success every index is found again, under its own name or the newly generated one, with the column replaced in its place, all others where they were, and its uniqueness; the outcome is success exactly when the columns allow it and the names are free; every outcome keeps the untouched indexes and the catalog sound, and a refused DROP or CREATE leaves some of the others, as they were or renamed |
| `Indexes.AllFoundAgain` | IBM_DB_Adapter/ibm_db/lib/active_record/connection_adapters/ibm_db_adapter.rb:3962-3979 | The same of any catalog that is the renaming of another |
| `Indexes.FoldJoins` | IBM_DB_Adapter/ibm_db/lib/active_record/connection_adapters/ibm_db_adapter.rb:3962-3966 | The form in which names are compared is made letter by letter: double quotes vanish, capitals become small |
| `Indexes.TakenName` | IBM_DB_Adapter/ibm_db/lib/active_record/connection_adapters/ibm_db_adapter.rb:3974-3979 | A name found taken during re-creation proves that two indexes want the same name |
| `Indexes.RenamingBackRestoresIff` | IBM_DB_Adapter/ibm_db/lib/active_record/connection_adapters/ibm_db_adapter.rb:3999-4018 | Renaming a column and renaming it back, by any spellings of the two names and any naming of tables, restores the whole catalog if and only if each index name on the column comes back; no two indexes can have swapped names |
| `Indexes.NamesComeBackIff` | IBM_DB_Adapter/ibm_db/lib/active_record/connection_adapters/ibm_db_adapter.rb:3962-3979 | On a lower-case table that is: no index had been given by hand the name its columns would generate after the renaming |
| `Indexes.TwoIndexesWantOneName` | IBM_DB_Adapter/ibm_db/lib/active_record/connection_adapters/ibm_db_adapter.rb:3974-3979 | Witness of a renaming that cannot create all indexes again |
| `Indexes.AnticipatedNameIsLost` | IBM_DB_Adapter/ibm_db/lib/active_record/connection_adapters/ibm_db_adapter.rb:3974-3979 | Witness of two renamings that do not restore the catalog |
| `Fetch.FoldCase` | IBM_DB_Driver/ibm_db.c:496-537 | The in-place loop folds exactly the first `length` units of the buffer |
| `Fetch.AllCasedTwice` | IBM_DB_Driver/ibm_db.c:496-537 | Folding folded names changes nothing |
| `Fetch.CasedFully` | IBM_DB_Driver/ibm_db.c:496-537 | Lower case leaves no capital and upper case no small letter; both change letters only, and folding up after folding down is folding up |
| `Fetch.StatementResult.FetchRow` | IBM_DB_Driver/ibm_db.c:9489-9726 | For every operation, column list and case mode: a position answers the value of the cell there, by its type, and nil in fetch_assoc; a folded name answers the value of the last column of that name, and nil in fetch_array; there are no other keys; the name buffers end folded |
| `Fetch.StatementResult.FetchTwice` | IBM_DB_Driver/ibm_db.c:9489-9726 | Fetching the same values again answers alike under every key |
| `Fetch.StatementResult.FetchThreeWays` | IBM_DB_Driver/ibm_db.c:9489-9726 | The three fetches in sequence on one handle: both[i] == array[i] == the i-th value and both[name] == assoc[name] == the last value of that folded name, for all positions and names |
| `Fetch.FetchesAgree` | IBM_DB_Driver/ibm_db.c:9489-9726 | The same of any three rows of equal names and values |
| `Fetch.LastColumnWins` | IBM_DB_Driver/ibm_db.c:9489-9726 | A name shared by several columns stands for the last of them that stores a value |
| `Decimal.BufferSuffices` | IBM_DB_Driver/ibm_db.c:1961-1968 | size + scale + 3 bytes hold every value of DECIMAL(p,s), 0 <= s <= p, with sign, point, leading zero and terminator; only DECIMAL(1,1) has a value that fills them |
| `Decimal.LongestIsNeeded` | IBM_DB_Driver/ibm_db.c:1961-1968 | The bound is attained: the most negative value takes exactly the computed number of bytes |
| `Decimal.PrintedReadsBack` | IBM_DB_Driver/ibm_db.c:9025-9033 | The printed text determines the value: its digits spell the unscaled number, a sign exactly for negative values, the point in front of the last s digits, no other characters and no needless zero in front |
| `Decimal.FetchDecimal` | IBM_DB_Driver/ibm_db.c:9025-9033 | Copied into the allocated buffer, no value is cut: the C string in it is the printed value |

## Left out

- The CLI library, its thin wrappers, Ruby VM details, transcoding, platform variants, logging, connection strings, metadata queries, exception tables and type-name mapping: no logic of their own, or finite tables.
- Statement.StatementHandle.BindData: the padded buffer lengths of OUT and INOUT parameters and the writing back of their values are not modelled; the value a node held before it is bound again is not tracked (the code leaks it), and a `PARAM_FILE` node borrows the Ruby string's pointer.
- Statement.StatementHandle.BindParamList: a node left by a failed dynamic execute has no variable name; what the interpreter makes of the null name is left open (any value), where the code may not survive it.
- Statement.StatementHandle.AddParamCache: after a marker below the head was linked into a cycle the contract states the cycle only; later calls on such a statement are outside the model, as the walk does not end.
- Statement.StatementHandle.FreeHandleAndResources: nodes bound after the handle was freed stay behind, as in the code, and the contract says so instead of promising their release.
- StatementRuns.Lifetime: what the CLI library makes of a freed statement handle is left open, so of an execute on one only the accounting is stated, not whether it leaves nodes.
- Statement.StatementHandle.Execute: OUT and INOUT values are not written back to variables; what SQLPutData reads from a node that has been released is not modelled; the contract says when such a node is asked for.
- Connection.ConnHandle.CollectHandle: the disconnect behind the rollback discards pending work as well, so of the rollback itself the contract states only when the flag for it is set and cleared.
- Persistent connections: their handle is never marked inactive and the option-failure path frees a listed handle.
- `set_option` of autocommit on a statement handle, which treats the statement as a connection.
- The untracked diagnostics path, for connection errors of another error type, which repeats the cached text.
- Automatic retry after SQLSTATE 40001, which the server answers by discarding earlier work.
- LimitOffset.InliningPreservesMeaning: words are tokens, so blanks and word boundaries of the regular expressions are not modelled; the exact-class guard (`ibm_db_adapter.rb:2214`) is taken to have passed.
- The SELECT printer's WITH clause, cores and lock clause, which stand before or behind the modelled tail.
- NullPredicates.NothingLeftBehindWhere: says nothing about meaning, since the rewriting also applies inside string literals and to words beginning with NULL after an equals sign; it concerns `normalize_null_predicates`, not the two repairs of SET clauses that `update` makes afterwards (`ibm_db_adapter.rb:2433-2434`).
- ForeignKeys.GroupRows: the definition merged from several rows has no ON UPDATE and ON DELETE actions; that is how the code builds it and the contract says so.
- The grouping loop of `indexes`, which repeats that of `foreign_keys`, and its deletion of the primary-key index while iterating.
- Indexes.RenameColumn: unique constraints, each of which the code rebuilds on the new column alone, and foreign keys are not part of the catalog; names that the server keeps case-sensitive are not modelled.
- Indexes.RemoveColumn: the indexes of the primary key are not listed and not part of the catalog; a server that cannot drop columns at all is not modelled.
- Fetch.StatementResult.FetchRow: the stores of the directly bound types, written out type by type in the code, are one case distinction on the value and one routine that stores it; LOB and XML columns, read by separate CLI calls, are left out; a cell is what the column buffer holds, and the order of the keys of a Ruby hash is not modelled.
- Decimal.FetchDecimal: the driver's integer width, which column sizes do not approach.
