# Test2-Harness web dashboard, modelled in Dafny

This project models the browser-side core of the Test2-Harness web UI,
the JavaScript under `share/js/`:

- `t2hui.fetch` (`main.js`): cuts an incrementally growing JSON-lines
  response into records.
- The expander helpers (`main.js`).
- The generic `FieldTable` (`fieldtable.js`), which renders records as rows
  with static, dynamic and postfix columns and re-fetches rows on an interval.
- The four tables built on it: jobs (`jobtable.js`), runs (`runtable.js`),
  events (`eventtable.js`) and the dashboard's run table with its pager
  (`dashboard.js`).
- The job page's event renderer and filter registry (`job.js`), the event
  view (`event.js`), the project statistics page (`project.js`) and the
  resources page (`resources.js`).

Shared modules:

- `Js` (`js.dfy`) models the JavaScript value semantics the code relies on:
  truthiness, `==` between numbers and strings, `Number()` restricted to
  integers, number-to-text and string ordering.
- `Dom` (`dom.dfy`) abstracts the page as a table whose header and body
  rows are sequences of node ids, with a class set and attributes per node.
  The jQuery calls the tables make become functions on it.

State that the source changes in place is a Dafny `class`: a field table,
a fetch session, the filter registry, the statistics page's pending
requests and the resources page. Each method states its whole new state.
Pure computations are functions, with lemmas relating them to an
independent definition or to their inverse.

Numbers are integers throughout. The records carry counts, ordinals and
exit codes, so no fractional value reaches the modelled code.

## Model

| member | source | states |
|---|---|---|
| Fetch.LastIndexOf | share/js/main.js:62 | `lastIndexOf("\n")`: -1 or the position of a newline with no newline after it |
| Fetch.Clamp | share/js/main.js:64 | `substring` reads an index clamped to `[0, n]`, so a cursor of -1 reads as 0 |
| Fetch.Split | share/js/main.js:65 | `split("\n")` gives at least one piece and no piece holds a newline |
| Fetch.NonEmpty | share/js/main.js:69-71 | the pieces a pass hands on are all non-empty (`if (!json) continue`) |
| Fetch.SplitJoin | share/js/main.js:65 | joining the pieces of a split gives the text back |
| Fetch.JoinSplit | share/js/main.js:65 | splitting a join of newline-free pieces gives the pieces back |
| Fetch.SplitConcat | share/js/main.js:64-65 | a newline between two texts separates their pieces |
| Fetch.NonEmptyConcat | share/js/main.js:69-71 | skipping empty pieces distributes over concatenation |
| Fetch.LinesOfPrefix | share/js/main.js:60-65 | lines before an old cursor stay as they were when the response grows |
| Fetch.PassDelta | share/js/main.js:60-72 | one pass from a cursor delivers exactly the complete lines after it, so cursor lines plus pass lines are all complete lines |
| Fetch.PassFromCursor | share/js/main.js:59-83 | a pass over a grown response adds exactly the lines completed since the last cursor; over an unchanged response it reads one empty piece |
| Fetch.TrailingFragment | share/js/main.js:62-64 | text after the final newline moves neither the cursor nor the delivered lines |
| Fetch.NoNewline | share/js/main.js:62-65 | with no newline the cursor becomes -1, no record is delivered, and the next `substring(-1, …)` reads as `substring(0, …)` |
| Fetch.CompleteAppendLine | share/js/main.js:59-83 | a newly terminated line is delivered after all earlier ones, unless blank |
| Fetch.ReadKeepsDelivered | share/js/main.js:60-65 | starting a pass on a grown response keeps the delivery invariant: delivered lines plus pending items make up the complete lines |
| Fetch.DeliverKeepsDelivered | share/js/main.js:69-80 | handing items on moves them from pending to delivered without changing the total |
| Fetch.ForItems | share/js/main.js:68-80 | the for loop hands the non-empty items to the callback in order, parsed. It stops for good at a parse error or at the first record the callback throws on, which is still counted and delivered. It suspends when the counter reaches a multiple of 25. Every earlier record was accepted |
| Fetch.ForStep | share/js/main.js:70-79 | one iteration: an empty item is skipped; otherwise the counter grows and the item is parsed and handed to the callback. The loop stops if the callback throws, and otherwise sleeps on a multiple of 25 |
| Fetch.Session.constructor | share/js/main.js:24-32 | `last_index` 0, not running, not done, spinner added iff `spin_in`; the parser and the callback's failures are fixed for the session |
| Fetch.Session.OnComplete | share/js/main.js:39-51 | `done` is set and `args.done` called at once with no final pass; the spinner goes now only if no pass is running |
| Fetch.Session.OnProgress | share/js/main.js:53-90 | a tick while running changes nothing. That includes a pass that died on a parse error or a throwing callback: `running` stays true, so the stream stalls for good. Otherwise passes run until one delivers nothing, and when the handler ends every complete line has been delivered |
| Fetch.Session.Resume | share/js/main.js:78-90 | after a sleep the loop continues only while the event's target is live; lines only grow |
| Fetch.Session.RunLoop | share/js/main.js:59-89 | the while loop: passes repeat until one delivers nothing; `running` is cleared after it and the spinner removed if `done` |
| Fetch.Session.Pass | share/js/main.js:60-82 | one pass reads to the last newline and delivers the pending items; over an unchanged response it delivers nothing |
| Fetch.Session.Read | share/js/main.js:60-68 | a pass's head: the items are the pieces between the old cursor and the last newline, and the counter starts at 0 |
| Fetch.Session.Deliver | share/js/main.js:69-80 | the for loop resumed at the current item delivers the non-empty items in order and counts them; a failure is a parse error at the current item, or it follows a delivered record |
| Fetch.Session.Advance | share/js/main.js:73-75 | the records handed to the callback join the delivered lines, and the rest of the pass's items still complete them to the response's lines |
| Fetch.Session.Settle | share/js/main.js:74-79 | the pass ends asleep after a 25th record, failed after a parse error or a throwing callback, or complete, and the handler's state keeps its invariant |
| Fetch.Session.Commit | share/js/main.js:69-82 | the end of the for loop records what it delivered, and a sleep, a parse error or a throwing callback |
| Expander.ClassesAfterClicks | share/js/main.js:99-110 | after n clicks an element is `closed` iff n is even, `open` flips with each click, and other classes stay |
| Expander.ExactlyOne | share/js/main.js:99-110 | an element that did not start `open` carries exactly one of `open` and `closed` |
| Expander.Expander.constructor | share/js/main.js:95-100 | head and body start with `closed` added |
| Expander.Expander.Click | share/js/main.js:102-114 | one click toggles both classes on head and body and flips the body's visibility; `cb` runs on the first click only |
| FieldTable.ColumnClass | share/js/fieldtable.js:348-350 | `"col-"` followed by the column's class when truthy, else its name |
| FieldTable.CellText | share/js/fieldtable.js:320 | `col.text(v)` leaves an empty cell for null or undefined, else the value's text |
| FieldTable.StaticCell | share/js/fieldtable.js:313-324 | a static cell has the column's class; a builder fills it, otherwise it holds `item[name]` as text |
| FieldTable.StaticCells | share/js/fieldtable.js:205-211 | one cell per static column, in column order |
| FieldTable.ToolRow | share/js/fieldtable.js:264-311 | a dynamic cell's tool row ends with the details, starts with the link iff `link` is truthy, and has one tool per truthy `raw`, `data` and `link` |
| FieldTable.ToolRowLayout | share/js/fieldtable.js:264-311 | the raw tooltip is present iff `raw` is truthy, the data viewer iff `data` is, the link iff `link` is; the tools stand in the order link, viewer, tooltip, details, each at most once |
| FieldTable.PadCells | share/js/fieldtable.js:398-411 | the cells added to a stored row: one empty cell per new column, in order |
| FieldTable.LastField | share/js/fieldtable.js:233-257 | the field a column ends up showing: none iff no field has the name, else a field of that name |
| FieldTable.LastFieldIsLast | share/js/fieldtable.js:254-257 | a later field of the same name replaces the cell, so the one shown is the last of its name |
| FieldTable.DynCells | share/js/fieldtable.js:213-257 | a new row has one dynamic cell per discovered column, showing that column's last field and hidden iff the column was closed |
| FieldTable.DiscoverExtends | share/js/fieldtable.js:239-258 | discovery only appends, so every known column keeps its index |
| FieldTable.DiscoverContains | share/js/fieldtable.js:239-253 | a name is a column afterwards iff it was one before or some field has it |
| FieldTable.DiscoverNoDup | share/js/fieldtable.js:239-241 | a column is injected only when `find_dynamic_column` does not know it, so no column is listed twice |
| FieldTable.DynCellsMeaning | share/js/fieldtable.js:213-257 | a dynamic cell holds its field's tool row when the record has one, and is empty otherwise; it is hidden iff the column was closed |
| FieldTable.DynCellsAdd | share/js/fieldtable.js:240-253 | the first field of a new name adds its column's cell at the end of the row |
| FieldTable.DynCellsSet | share/js/fieldtable.js:254-257 | a field of a known name replaces the cell at that column's index |
| FieldTable.PadPad | share/js/fieldtable.js:395-422 | padding the stored rows for one column and then another is padding for both |
| FieldTable.PadKeepsRowsFit | share/js/fieldtable.js:395-422 | after an injection every stored row has one dynamic cell per discovered column, each with its column's class |
| FieldTable.RenderedFits | share/js/fieldtable.js:191-262 | a freshly rendered row has one cell per static, dynamic and postfix column |
| FieldTable.PushFits | share/js/fieldtable.js:187-188 | pushing a row with `index = rows.length` keeps `rows[i].index == i` |
| FieldTable.ReplaceFits | share/js/fieldtable.js:67-77 | replacing `rows[old.index]` with a row of the same index keeps the row invariant |
| FieldTable.RegisterFits | share/js/fieldtable.js:180-184 | a new redraw id is not yet in the registry, and registering the row keeps the registry invariant |
| FieldTable.HideMatching | share/js/fieldtable.js:389 | `find('td.<cls>').hide()` hides exactly the cells whose class has that word, and keeps the rest |
| FieldTable.HideRowFits | share/js/fieldtable.js:387-391 | hiding cells changes no row's shape |
| FieldTable.DynClassMatches | share/js/fieldtable.js:374-399 | a dynamic column's cells always match its own close selector |
| FieldTable.Place | share/js/fieldtable.js:167-178 | the modify hook runs before placement; without `place_row`, or when it returns false, the row is appended at the end of the body |
| FieldTable.Dispatch | share/js/fieldtable.js:57-63 | a tick sends one request per registered entry, with fresh request ids, and keeps the requests already in flight |
| FieldTable.FieldTable.constructor | share/js/fieldtable.js:40-54 | a new table has no rows, no dynamic columns, nothing hidden, an empty registry and redraw id 1 |
| FieldTable.FieldTable.FindDynamicColumn | share/js/fieldtable.js:361-367 | the stored index of a known column, whose entry holds that name; null for an unknown one |
| FieldTable.FieldTable.InjectDynamicColumn | share/js/fieldtable.js:369-428 | the new column's index is the number of columns before the call; it is appended, the lookup maps it to its position, and every stored row gets one empty cell |
| FieldTable.FieldTable.RenderField | share/js/fieldtable.js:233-258 | one field: an unknown name becomes a new column (padding the stored rows) and its cell goes last; a known name replaces its cell |
| FieldTable.FieldTable.RenderFieldAt | share/js/fieldtable.js:233-258 | one turn of the field loop keeps the loop invariant: the columns are those discovered so far and the cells are `DynCells` of them |
| FieldTable.FieldTable.RenderFields | share/js/fieldtable.js:213-258 | the columns grow to `Discover` of the fields, the cells are `DynCells` of them, and the stored rows are padded for exactly the new columns |
| FieldTable.FieldTable.RenderRow | share/js/fieldtable.js:191-262 | a new row node with its static, dynamic and postfix cells and the item; the column list only grows |
| FieldTable.FieldTable.Store | share/js/fieldtable.js:180-188 | the row is pushed with `index = rows.length`; it is registered under the next redraw id iff `row_redraw_check(item)` holds, and the id then grows by one |
| FieldTable.FieldTable.RenderOne | share/js/fieldtable.js:164-189 | `_render_item`: render, modify hook, placement (append on a false return), registration, push; a throwing `place_row` stores nothing |
| FieldTable.FieldTable.RenderItem | share/js/fieldtable.js:154-162 | the records of `expand_item` (or the item itself) are rendered in list order; stored rows keep their items |
| FieldTable.FieldTable.CloseColumn | share/js/fieldtable.js:387-391 | the name joins `hidden_columns` and every cell with the column's class is hidden; nothing else changes |
| FieldTable.FieldTable.Tick | share/js/fieldtable.js:56-63 | each registered entry is deleted and a request sent for it; the registry is empty afterwards and the rows unchanged |
| FieldTable.FieldTable.RedrawError | share/js/fieldtable.js:64 | the failed request's entry is restored under its own key |
| FieldTable.FieldTable.Swap | share/js/fieldtable.js:66-79 | the new row replaces `rows[old.index]` and keeps the index; it is registered under the unset key iff the check holds; the old node is replaced and removed |
| FieldTable.FieldTable.RedrawSuccess | share/js/fieldtable.js:65-80 | the answer is rendered again and swapped in at the old index, and the request leaves the in-flight set |
| JobTable.InitTable | share/js/jobtable.js:147-164 | `init_table` records the five anchors in the row state |
| JobTable.InitTableOrder | share/js/jobtable.js:147-164 | on a document holding none of them, the anchors are appended to the body in the order fail, running, other, pending, retry |
| JobTable.PlaceRow | share/js/jobtable.js:166-199 | `place_row` never returns false and leaves the row state alone; it places the row itself whenever the anchors exist, and throws on a missing anchor otherwise |
| JobTable.UninitialisedRaises | share/js/jobtable.js:172-198 | without `init_table` every job with a `short_file` reaches an undefined anchor and throws |
| JobTable.PlaceAfterInit | share/js/jobtable.js:147-199 | once `init_table` has run, every job is placed by `place_row` itself |
| JobTable.InsertAfterHeader | share/js/jobtable.js:167-170 | `header.after(row)` puts the row first after the header and leaves the body alone |
| JobTable.PlaceUnderHeader | share/js/jobtable.js:167-170 | a job without `short_file` starts the band after the header, and the layout stays laid out |
| JobTable.BesideAnchorShape | share/js/jobtable.js:172-198 | every other job is inserted right before or right after its bucket's anchor |
| JobTable.SegmentsGrow | share/js/jobtable.js:172-198 | adding to a band grows exactly the body segment beside that bucket's anchor |
| JobTable.PlaceBesideAnchor | share/js/jobtable.js:172-198 | placing beside an anchor adds the row to its bucket's band and keeps anchors and bands in order |
| JobTable.PlaceInBands | share/js/jobtable.js:166-199 | placing a fresh job adds it to the band its bucket names (tests in source order) and keeps every node attached |
| JobTable.InBucket | share/js/jobtable.js:166-199 | the jobs of one bucket, in arrival order, are among the placed jobs |
| JobTable.ArrivalBands | share/js/jobtable.js:167-198 | the bands are: after header (newest first) \| failed \| failing-and-running (newest first) \| running \| other \| pending \| retry; rows put before an anchor keep arrival order |
| JobTable.PlaceAllLaid | share/js/jobtable.js:166-199 | placing fresh, distinct jobs one by one into a laid-out table lays out exactly those bands |
| JobTable.ArrivalOrder | share/js/jobtable.js:147-199 | with `init_table` run on an empty body, jobs placed one by one end in the arrival bands, with the anchors in their order |
| JobTable.InitLays | share/js/jobtable.js:147-164 | right after `init_table` the body holds the five anchors and empty bands |
| JobTable.ModifyRow | share/js/jobtable.js:104-129 | `modify_row` adds the job's classes to its row and changes nothing else |
| JobTable.ModifyRowShape | share/js/jobtable.js:104-129 | no classes iff no `short_file`; otherwise one status set, at most two classes, and the second is `retry_txt` or `error_set` |
| JobTable.RetryRule | share/js/jobtable.js:106-109 | `retry_txt` marks exactly the jobs with `retry == true` and a `short_file`, with `iffy_set` and nothing else |
| JobTable.ErrorRule | share/js/jobtable.js:116-124 | `error_set` marks a running job with `fail_count > 0` or a finished one with `fail == true`, tested after retry, canceled and pending; `success_set` comes alone |
| JobTable.BuildCount | share/js/jobtable.js:38-54 | the count builders show the count, or `'0'` for a falsy one, and add the `count` class |
| JobTable.CountTextDenotes | share/js/jobtable.js:38-54 | a missing, null or zero count reads as the number 0, any other number as itself |
| JobTable.ExitNA | share/js/jobtable.js:56-59 | the exit cell reads `N/A` iff `exit_code` is null or undefined; a numeric exit code shows as its number |
| JobTable.FieldBuilder | share/js/jobtable.js:131-141 | the loop returns the data of the last field with the name (the `return false` does not stop `forEach`), and undefined when none has it |
| Dashboard.FieldBuilder | share/js/dashboard.js:197-207 | `t2hui.dashboard.field_builder`, a copy of the job table's: the last matching field's data (`return false` does not stop `forEach`), or undefined when no field has the name |
| RunTable.ColumnNames | share/js/runtable.js:4-19 | the eight static columns in order, plus `user` iff `show_user \|\| !single_user` |
| RunTable.FieldFetch | share/js/runtable.js:301-303 | a field's data URL is `base_uri + 'run/field/' + run_field_id` |
| RunTable.DeleteExtendsFetch | share/js/runtable.js:297-303 | `field_preprocess` sets `delete` to the fetch URL followed by `/delete` |
| RunTable.PlaceRowWith | share/js/runtable.js:43-60 | a truthy `existing` declines and keeps the state; otherwise the first run records its ordinal, a newer run replaces it, and the document is not changed before the prepend |
| RunTable.NewerRunRaises | share/js/runtable.js:53-56 | as written, `table` is the jQuery table, which has no `body`: a newer run throws, and `place_row` never places a row itself |
| RunTable.PlaceRowFixed | share/js/runtable.js:43-60 | with the table's body, a newer run is placed by `place_row` and no run throws |
| RunTable.PlaceRowAgrees | share/js/runtable.js:43-60 | the as-written and corrected `place_row` record the same biggest ordinal, and they differ exactly on a newer run |
| RunTable.NewerRunFirst | share/js/runtable.js:43-60 | through the engine a newer run goes first in the body and any other run is appended last |
| RunTable.BiggestGrows | share/js/runtable.js:48-57 | once truthy, `biggest` only grows |
| RunTable.TrackIsMax | share/js/runtable.js:48-57 | for positive numeric ordinals, `biggest` after a sequence of runs is their maximum |
| RunTable.ModifyRow | share/js/runtable.js:305-319 | `modify_row` adds the run's classes to its row and changes nothing else |
| RunTable.RunClassesShape | share/js/runtable.js:305-319 | a canceled run gets only `iffy_set`; any other gets `error_set` if `failed > 0`, else `success_set` if `passed > 0`, then always `status + "_set"` |
| RunTable.CountCells | share/js/runtable.js:88-116 | a null or undefined count leaves its cell empty; failed or retried equal to 0 render `success_txt`; a non-zero failure count is a link; concurrency renders `"-j" + val` |
| RunTable.ToolsCount | share/js/runtable.js:118-295 | the pin tool comes first (prepended), then eight tools, and a ninth iff `error` is truthy |
| RunTable.ToolsLifecycle | share/js/runtable.js:161-211 | running/pending runs get a cancel tool and no delete tool; others get a delete tool, inactive iff pinned |
| RunTable.ToolsActive | share/js/runtable.js:139-251 | the go link is inactive iff the status is `broken`; coverage is active iff `has_coverage` and status `complete` |
| RunTable.PinTool.constructor | share/js/runtable.js:161-173 | `pinstate` starts as `item.pinned == true`, with no delete sent |
| RunTable.PinTool.PinSuccess | share/js/runtable.js:275-292 | a successful pin request flips `pinstate` |
| RunTable.PinTool.DeleteClick | share/js/runtable.js:193-210 | a pinned run refuses to delete; otherwise a delete is sent iff the user confirms |
| EventTable.ExpandLines | share/js/eventtable.js:66-87 | exactly one record per line, in line order: `set_ord` runs 0..n-1, `set_total` is n, `id` is the event id, facet/tag/message/table come from `line[0..3]`, and only the first has `tools = n` |
| EventTable.ExpandedTools | share/js/eventtable.js:227-230 | of an event's rows only the first shows its tools cell, with `rowspan` equal to the number of lines |
| EventTable.SkipNonWord | share/js/eventtable.js:276 | what a run of non-word characters leaves: a suffix that is empty or starts with a word character |
| EventTable.CleanTag | share/js/eventtable.js:275-278 | `clean_tag`'s result holds only word characters and is no longer than the tag |
| EventTable.CleanTagKeepsWords | share/js/eventtable.js:275-278 | a tag of word characters is already clean |
| EventTable.CleanTagIdempotent | share/js/eventtable.js:275-278 | cleaning twice is cleaning once |
| EventTable.CleanTagRun | share/js/eventtable.js:276 | each maximal run of non-word characters becomes exactly one `_` |
| EventTable.CleanTagWord | share/js/eventtable.js:276 | a word character is kept |
| EventTable.CleanTagJunk | share/js/eventtable.js:276 | a leading run of non-word characters becomes one `_` |
| EventTable.FirstChildRaises | share/js/eventtable.js:180-184 | as written, the first row of a child whose parent has no anchor yet reaches `table.table.find`, which throws |
| EventTable.LastTagged | share/js/eventtable.js:182-183 | the last body row whose `data-event-id` is the parent's id, or none when no row has it |
| EventTable.PlaceRowFixed | share/js/eventtable.js:160-190 | with the lookup done on the body, `place_row` always places the row itself |
| EventTable.PlaceRowAgrees | share/js/eventtable.js:160-190 | the as-written `place_row` places rows exactly as the corrected one does, except where it throws |
| EventTable.OrphanParks | share/js/eventtable.js:161-170 | an orphan (not loading a subtest) is appended and marked `temp_orphan`; only the first orphan is remembered and marked `first_orphan` |
| EventTable.TopClearsOrphans | share/js/eventtable.js:173-178 | a row without `parent_id` clears `state.orphan`, detaches every `temp_orphan` row and is appended |
| EventTable.ChildAfterAnchor | share/js/eventtable.js:180-189 | a child goes right after its parent's anchor and becomes the new anchor |
| EventTable.ChildrenInOrder | share/js/eventtable.js:180-189 | the children of one parent placed one by one follow the parent's row in arrival order |
| EventTable.KidsOutside | share/js/eventtable.js:180-189 | the next child is placed outside the rows already placed, behind the last of them |
| EventTable.InitiallyHidden | share/js/eventtable.js:14-21 | PASS, PLAN, HARNESS and STDOUT start hidden exactly when the job is neither running nor pending |
| EventTable.MarkRow | share/js/eventtable.js:284-288 | every line row gets `event_line`, `facet_<facet>` and `tag_<clean tag>`; `data-event-id` becomes the event id's text, is removed for a null id and is left alone for an undefined one, as jQuery's `.attr` does |
| EventTable.ShowTag | share/js/eventtable.js:312-323 | the intended click: rows of the tag are hidden iff switched off and keep every other class; rows without the tag keep their classes |
| EventTable.Controls.constructor | share/js/eventtable.js:3-30 | `build_controls`: no tag seen, no filter, the pre-hidden tags as above |
| EventTable.Controls.Register | share/js/eventtable.js:290-310 | a first-seen tag gets `state = !hide[tag]`, is marked `off` iff pre-hidden, and gets a filter inserted before the first greater one, so the filters stay sorted and unique. A tag already seen changes nothing. The row is hidden iff the tag's state is false |
| EventTable.Controls.Click | share/js/eventtable.js:312-323 | a filter click flips the tag's state and its `off` mark |
| EventTable.ModifyRow | share/js/eventtable.js:280-329 | the row gets exactly its marks (`MarkRow`) plus `hidden_row` iff the tag's state is false, and nothing else in the page changes. A first-seen tag's state, `off` mark and sorted filter are added; the registry is unchanged for a tag already seen |
| EventTable.ClickLeavesRowsShown | share/js/eventtable.js:312-323 | as written, switching a tag off leaves its rows shown, where the intended click hides them |
| EventTable.Lower | share/js/eventtable.js:218 | `toLowerCase` keeps the length |
| EventTable.MessageInner | share/js/eventtable.js:192-225 | no table gives the message as preformatted text; a table gives a grid with the header and one cell per value classed by its header's lower-cased name; a row wider than the header throws |
| Dashboard.ColumnNames | share/js/dashboard.js:14-27 | six fixed columns in order, `user` iff not `single_user`, and the `added` postfix column last |
| Dashboard.RunUri | share/js/dashboard.js:189-195 | `redraw_fetch` and `field_fetch` give `base_uri + 'run/' + run_id` |
| Dashboard.RunUriDistinct | share/js/dashboard.js:189-195 | two run ids give the same URL iff their texts are equal, so distinct UUID strings are fetched from distinct URLs |
| Dashboard.RunUriInjective | share/js/dashboard.js:189-191 | distinct numeric run ids give distinct URLs |
| Dashboard.RedrawWhileLive | share/js/dashboard.js:183-187 | `redraw_check` holds iff the status is pending or running |
| Dashboard.ModifyRow | share/js/dashboard.js:209-218 | `modify_row` adds the run's classes to its row and changes nothing else |
| Dashboard.DashClassesShape | share/js/dashboard.js:209-218 | truthy `failed` gives `error_set`, else truthy `passed` gives `success_set`, then always `status + "_set"` |
| Dashboard.CountCells | share/js/dashboard.js:88-109 | null or undefined leave a cell empty; failed or retried equal to 0 (also as `""`) render `success_txt`; any other retry count is `iffy_txt` |
| Dashboard.ErrorReplacesGo | share/js/dashboard.js:111-156 | the error tool appears instead of the go link exactly when `error` is truthy; four tools, the pin first |
| Dashboard.PinTool.constructor | share/js/dashboard.js:140-156 | `pinstate` starts as the truthiness of `item.pinned` |
| Dashboard.PinTool.Success | share/js/dashboard.js:163-178 | a successful pin request flips `pinstate` and its image and title |
| Dashboard.Pager.constructor | share/js/dashboard.js:54-73 | the counter starts at page 1 with the previous button hidden |
| Dashboard.Pager.Prev | share/js/dashboard.js:64-69 | one page back, the table reloaded for that page, the button hidden when the page drops below 2, the label showing the page |
| Dashboard.Pager.Next | share/js/dashboard.js:77-82 | one page on, the table reloaded for that page, the previous button shown from page 2, the label showing the page |
| Dashboard.PagerLabel | share/js/dashboard.js:59-81 | the label reads back as the page number, and different pages load different URLs |
| Job.IndentReadsBack | share/js/job.js:86-87 | a numeric depth indents by `(nested+1)*2` then `ch`; an undefined depth gives `NaNch` |
| Job.ExpandRule | share/js/job.js:89-97 | the toggle needs a parent hub and an `assert` line; `facets.hubs` is preferred over `orphan.hubs`, and no hub means no toggle |
| Job.CellsLength | share/js/job.js:103-172 | the first k lines give exactly 3k cells |
| Job.CellsAt | share/js/job.js:136-171 | line j's cells sit at 3j, 3j+1 and 3j+2, in the order tools, tag, message |
| Job.RenderedShape | share/js/job.js:103-174 | `render_event` returns three cells per line, each with the line's classes and tag, hidden iff the tag's state is false |
| Job.RenderedAt | share/js/job.js:138-171 | line j's rendered cells are its three cells, and only the last line's tools cell holds the event tools |
| Job.NewTagsAre | share/js/job.js:106-108 | the tags an event registers are exactly its tags not seen before |
| Job.NewTagsDistinct | share/js/job.js:106-108 | no tag is registered twice |
| Job.CallHandlers | share/js/job.js:111-121 | every filter the call creates gets a handler; the handlers close over the loop's `var line`, so they are all one handler, acting on the call's last line's tag |
| Job.Reshow | share/js/job.js:115-119 | `show()`/`hide()` on `div.tag_<t>` changes exactly the cells of that tag |
| Job.ReshowKeepsTags | share/js/job.js:115-119 | showing or hiding keeps the cells' tags |
| Job.ClickOwnTag | share/js/job.js:111-121 | with its own tag, a click flips that tag's state and its filter's mark, and the page stays consistent with the registry |
| Job.ClickFlipsLastTag | share/js/job.js:111-121 | as written, for an event with new tags PASS then NOTE, a click on the PASS filter flips NOTE |
| Job.Registry.constructor | share/js/job.js:99-101 | the page-wide registry starts with no tags, no filters and no cells |
| Job.Registry.Register | share/js/job.js:106-134 | a tag seen for the first time gets `seen = 1`, `state = true` and a filter before the first greater one, so the list stays sorted and unique; a known tag changes nothing |
| Job.Registry.RenderEvent | share/js/job.js:103-174 | the cells returned are the rendered cells for the old states, the new tags are registered and switched on, and their handlers installed |
| Job.Registry.RenderLine | share/js/job.js:104-171 | one loop step: the line's tag registered, its three cells pushed, and the event tools moved to the new last line |
| Job.Registry.Show | share/js/job.js:103-174 | appending an event's cells to the page keeps the registry as it is |
| Job.Registry.Click | share/js/job.js:111-121 | a click on a filter runs the handler installed for it |
| Job.InsertionIndex | share/js/job.js:123-133 | the search stops at the first filter whose text is greater, or ends after the last |
| Job.SwitchedOn | share/js/job.js:106-108 | registering switches every new tag on and leaves known tags alone |
| Job.Switched | share/js/job.js:106-108 | the registry's states afterwards cover the old tags and the new ones |
| Js.InsertionPoint | share/js/job.js:123-133 | the insertion point of a new filter: every filter before it is not greater, and the one at it is greater |
| Js.InsertKeepsSorted | share/js/eventtable.js:295-306 | inserting a new tag before the first greater filter keeps the list strictly sorted and adds exactly that tag |
| Project.SelectUsers | share/js/project.js:59-78 | owner gives the first option only, other every option but the first, select the select element's value, and any other choice nobody |
| Project.OwnerAndOthers | share/js/project.js:62-75 | the owner and the other users together are every option, the owner first |
| Project.RunRange | share/js/project.js:44-55 | `n` is 0 unless the runs are limited, and the dates are set only for a date range |
| Project.AskedAt | share/js/project.js:87-114 | the positions of the panels that enter the request lie among the panels |
| Project.VisitPanel | share/js/project.js:87-114 | one turn of the `each` loop is one step of the reference walk over the panels |
| Project.Stats.constructor | share/js/project.js:42 | the global id counter starts at 1 |
| Project.Stats.Reload | share/js/project.js:85-119 | the panels, the request and the id counter are what the walk over the panels gives; no fetch is issued iff the request is empty, else it goes to `/project/<p>/stats` |
| Project.WalkPanels | share/js/project.js:87-114 | loaded panels are skipped unless `all`; a visited panel keeps its fields, keeps its own id or gets `"gen_id_" + id`, and is shown loading or emptied by whether its grandparent is active |
| Project.WalkLength | share/js/project.js:87-114 | the walk keeps the number of panels, and the counter grows by the ids it generated |
| Project.IdsBeforeGrows | share/js/project.js:98-101 | a panel given an id later in the walk gets a larger counter value |
| Project.GeneratedIdsUnique | share/js/project.js:98-101 | the generated ids are pairwise different and lie between the counter before and after the walk |
| Project.WalkRequest | share/js/project.js:103-109 | the request has one entry per visited panel with an active grandparent, in panel order, with its id, type, `n` defaulting to the form's `n`, the users and the dates |
| Project.AskedAtExact | share/js/project.js:90-109 | a panel enters the request iff it is visited and its grandparent is active, in increasing panel order |
| Project.PairTable | share/js/project.js:171-189 | one row per pair: a one-element pair is a title row, any other is header + `':'` + value |
| Project.ChunkRows | share/js/project.js:230-291 | as written: each row is in the set the counters give; a row whose metadata cannot be shifted throws and stops the table; rows of sets past the first start hidden; only the first overflow adds the buttons |
| Project.SetsGrow | share/js/project.js:235-262 | set ids never decrease, and the buttons appear iff some row lands in a set past the first |
| Project.SetsAsWritten | share/js/project.js:236-262 | as written, set 1 holds `count` rows and every later set `count + 1`, because `item_c` restarts at 0 |
| Project.SetsCounterexample | share/js/project.js:236-262 | with `count = 1`, three rows land in sets 1, 2 and 2 |
| Project.ChunkRowsFixed | share/js/project.js:230-291 | the same layout with `item_c` restarting at 1 |
| Project.SetsFixedGrow | share/js/project.js:235-262 | with the restart at 1, set ids never decrease and the buttons appear iff some row lands past the first set |
| Project.SetsFixed | share/js/project.js:236-262 | with the restart at 1, every set holds exactly `count` rows |
| Event.Replace1 | share/js/event.js:31 | a string-pattern `replace` keeps the length and changes nothing when the character is absent |
| Event.Replace1Only | share/js/event.js:31 | only the first occurrence is replaced; every other character, later occurrences included, is kept |
| Event.SecondSpaceKept | share/js/event.js:31 | the row class of facet `a b c` keeps the second space: `a-b c T` |
| Event.Blocks | share/js/event.js:100-103 | a row gets `nested + 1` blocks |
| Event.ApplySubtestBlocks | share/js/event.js:96-137 | the count-down loop prepends exactly the reference blocks to the row's content |
| Event.BuildEvent | share/js/event.js:1-68 | the wrapper gets `orphan` and is hidden when `is_orphan`, and gets `no_lines` and is hidden without lines; one row per line or a single HIDDEN row with the event id; only row 0 gets the controls cell; every row gets its blocks |
| Event.BlocksShape | share/js/event.js:100-103 | the toggle is only on row 0 of a parent, as its last block |
| Event.BlockCountOf | share/js/event.js:100 | `nested = k` gives k+1 blocks for k ≥ 0 and none below; null counts as 0, numeric text as its number, undefined and other text give none |
| Resources.RenderOfCases | share/js/resources.js:126-141 | the supplied snapshot is reused iff its `ord` equals the index, as a number or as its decimal text; otherwise the snapshot is fetched |
| Resources.Page.constructor | share/js/resources.js:5-13 | no `min` or `max`, not complete, nothing built, and `tailing` and `selected` from the page |
| Resources.DefaultValue | share/js/resources.js:57 | a range input created with `min` and `max` but no value holds the midpoint, rounded up to a whole step, or `min` when `max` is below it; the value is one the ends allow |
| Resources.Sanitize | share/js/resources.js:118-119 | the value a range input keeps is one its ends allow, an allowed value is kept, and otherwise it is the allowed value nearest to the one written |
| Resources.EndsPullValueIn | share/js/resources.js:118-119 | setting `min` and then `max` moves the value only when it falls outside the new range, to the nearer end |
| Resources.Page.PickRange | share/js/resources.js:73-77 | the input takes the index (or the nearest value it allows), `selected` takes the index, and the snapshot is rendered |
| Resources.Page.Redraw | share/js/resources.js:50-124 | nothing until both `min` and `max` are set; the selector is built once, its input at the default value; the input's ends become the state's and its value is pulled into them; while tailing, every call picks `max` again |
| Resources.Page.Ingest | share/js/resources.js:23-46 | `complete` is set by a truthy `item.complete`; `max` and `min` change only to truthy values; the selector is built exactly once both are known; then the redraw runs |
| Resources.Page.Done | share/js/resources.js:18-21 | the timeout notice is shown iff the stream did not say it was complete |
| Resources.Page.SliderInput | share/js/resources.js:79-86 | moving the slider clears `tailing` and fetches the value the input holds, the allowed value nearest to where it was moved |
| Resources.Page.Stop | share/js/resources.js:88 | stop clears `tailing` and picks nothing |
| Resources.Page.Tail | share/js/resources.js:89 | tail sets `tailing` and fetches `max`, and the input shows it |
| Resources.Page.First | share/js/resources.js:90 | first clears `tailing` and fetches `min`, and the input shows it |
| Resources.Page.Last | share/js/resources.js:91 | last clears `tailing` and fetches `max`, and the input shows it |
| Resources.Page.Next | share/js/resources.js:93-99 | one step up from the input's value, ignored past `max`; a step clears `tailing`; the input's value always stays within `min` and `max` |
| Resources.Page.Prev | share/js/resources.js:101-107 | one step down from the input's value, ignored below `min`; a step clears `tailing`; the input's value always stays within `min` and `max` |
| Resources.NextFromMidpoint | share/js/resources.js:93-99 | without tailing, a first record with ends 10 and 20 builds the selector at 15, and `>` then fetches snapshot 16 |
| Resources.RenderOf | share/js/resources.js:126-141 | rendering a picked index always shows that index, whether the snapshot is reused or fetched |

## Left out

- HTML construction is modelled only as values. This covers jQuery element building, hover effects, modals, the JSON viewer (`jsonView` / `JSONFormatter`), DataTables sorting (`make_sortable`), charts and `history.replaceState`: each is rendering by a library the model cannot see.
- The fetch session's callback is a parameter: `cbThrows` says on which records it throws. In the dashboard that happens when `render_item` raises (`FieldTable.FieldTable.RenderItem` returning `ok == false`), but the model does not link the two.
- The XHR transport, `setInterval` and `t2hui.sleep` are left out. Progress events, completion and timer ticks are the callers of the `Fetch` and `FieldTable` methods; timing itself is not modelled.
- `view.js`, `lookup.js`, `interactions.js`, `upload.js` and `run.js` are not part of this model. They wire pages together and hold no logic of the core.
- `build_name`, the HTML of `build_project` / `build_user`, and the job table's `tool_builder` buttons are left out: they are markup only.
- JavaScript `Number()` is modelled for optionally negative decimal integers only. Fractions, exponents, surrounding white space, an explicit `+` sign, the `0x`/`0o`/`0b` prefixes and `Infinity` all read as NaN in the model, though JavaScript reads them as numbers. The records carry integers in decimal.
- `toLowerCase` is modelled on ASCII letters only (`EventTable.Lower`); Unicode case mapping is not modelled.
- Tags are strings. A non-string tag reaching `modify_row` is not modelled.
- Js.StrLess: strings are compared by Unicode scalar value, not by UTF-16 code unit as JavaScript does. The orders differ only when a character above U+FFFF meets one in U+E000..U+FFFF. This affects the filter order kept by `EventTable.Controls.Register` and `Job.InsertionIndex`.
- Names that are `Object.prototype` keys (`constructor`, `toString`, ...) are looked up on plain objects in the source, so they find an inherited function. This affects field names in the dynamic-column lookup. It also affects tags in the event table's filter maps (`seen`, `state` and `hide`) and in the job page's registry (`seen` and `state`), where such a tag is never registered. The model uses maps, which have no inherited keys.
- Tag filters whose text holds selector metacharacters are left out: jQuery selectors are not modelled. So is filter text interpreted as HTML.
- Orphan and subtest fetches of the event table happen behind click handlers and are left out. This covers the `event.js` facet toggle, the subtest-block click with its `where` fetch and the `job.js` expand click.
- Project.ChunkRows: only an empty row makes reading `meta.class` throw. In the source a row whose first element is `null` or `undefined` throws too, but the model's `classOf` is total on row elements.
- The project page's result callback is modelled only in part: `build_pair_table` (`Project.PairTable`) and the set chunking of `item.table`'s rows, including `meta.class` (`Project.ChunkRows`). The rest is left out as presentation: the div's class changes, the error, text, chart and JSON renderings, the run-table render, how `pair_sets` and `pairs` replace the div's contents, the table's class and header, the rendering of cells by type (lists, objects with `formatted`/`raw`, text), the DataTable sorting and the `span.n` text. The request bookkeeping is modelled.
- On the resources page, the HTML of `build_resource` / group / table, `do_render_resource`, the run stream of a run-level page (`run_uuid`), the ajax error message and the drawing of `data.resources` are left out. `render_resource` is modelled as the choice between reuse and fetch.
- The resources page's range input is modelled with the default step of 1 and integer ends. Its value is a whole number, and the value text `val()` returns is read as that number.
- FieldTable.FieldTable.constructor: a spec without static columns is not modelled; a non-empty `columns` list is required, as every caller in the repository passes one.
- The job table's `retry` field is tested for truthiness in `place_row` but compared `== true` in `modify_row`. Both are modelled as written; no property is claimed about their agreement.
- The dashboard offers no delete tool; nothing is modelled for one.

## Findings

| source | as written | input that shows it | evidently intended | confidence | as-written member | corrected member |
|---|---|---|---|---|---|---|
| share/js/jobtable.js:147-199 | `init_table` creates the band anchors but the field table never calls `spec.init`, so `place_row` inserts after an anchor that does not exist | the first job row with a truthy `short_file` placed in a fresh job table (a row without one goes after the header row and does not throw) | the anchors exist before the first row is placed, and rows go into their band | not executed | JobTable.UninitialisedRaises | JobTable.ArrivalOrder |
| share/js/runtable.js:55 | `table.body.prepend(row)`, but the table handle passed in is the jQuery table, which has no `body` property | a run whose ordinal is larger than the largest seen so far | the newer run is prepended to the table body | not executed | RunTable.NewerRunRaises | RunTable.NewerRunFirst |
| share/js/eventtable.js:182 | `table.table.find(...)`, but the table handle passed in is the jQuery table, which has no `table` property | a subtest child line whose parent row is already in the table | the child rows follow the parent's last row | not executed | EventTable.FirstChildRaises | EventTable.ChildrenInOrder |
| share/js/eventtable.js:316 | the filter click handler looks rows up through `table.table`, but the hook is not given the table, so `table` is undefined | clicking any tag filter | clicking a filter shows or hides the rows with that tag | not executed | EventTable.ClickLeavesRowsShown | EventTable.ShowTag |
| share/js/job.js:111-121 | the click handler made in the loop closes over a `var`, so every handler uses the last line's tag | an event with lines tagged `A` then `B`; clicking `A`'s filter toggles `B` | each filter toggles its own tag | not executed | Job.ClickFlipsLastTag | Job.ClickOwnTag |
| share/js/project.js:237-238 | after a set fills, the row counter is reset to 0 rather than 1 although the current row is already in the new set, so every set after the first holds `count + 1` rows | `count` = 1 with three rows puts them in sets 1, 2 and 2, so the second set holds two rows (the shipped `count` is 100000) | every set holds `count` rows, the last one possibly fewer | not executed | Project.SetsCounterexample | Project.SetsFixed |
