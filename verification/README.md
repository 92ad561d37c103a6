# Koru libraries, verified

A Dafny model of the stateful and the compiling parts of the Koru libraries, and
proofs of what they promise. Each part models one source file.

**The row table** (`dom/app/output_emitted.js`). A generational slot map keeps the
rows of a table; interceptors keep a keyed page in step; click actions sweep the
rows. `RowStore` is the store as a value with its laws, `StoreRuns` what happens to
handles over whole runs, `RowArrays` the arrays updated in place. `Page` is the page,
`Table` the agreement of store and page, `DomApp` the application with its click
arms. The main result is `DomApp.App.PerformAll`: after any sequence of clicks the
page shows the table a plain list application (`ListApp`) reaches, the registry's
keys are exactly the live handles, and the `pos` column is a permutation. `Actions`
says of that list application, row by row and in numbers, what each click does.

**The markup compiler** (`dom/index.kz`). `Markup` is the tree a piece of markup
denotes and what it compiles to, `Scanner` the one-pass scanner that emits exactly
that. `Sources` is the grammar: all that an author may write, white space included, its
text and its tree, with `Edges` for the white space that only formats. `Reading` and
`Recovery` prove that the scanner reads exactly that grammar and nothing else
(`Recovery.ReadsExactly`), `Pieces` the same of whole component markup, `Tidied` that the
static HTML is the authored text without its sites and its formatting. `Declared` says
which props a component has, `Values` what a prop is written and assigned as. `Lowering` is the native back end (a list of writes), `Painting` the browser
back end (a list of assignments). `Html` is a small browser-side parser, `Trees` and
`Weaving` say what tree and what text an element stands for. The main results, in
`Agreement`, `Divergence`, `Repainting` and `Components`: what a browser shows for
the written bytes is the tree the assignments paint, with the exact condition; and
repainting one prop is painting with the new value, with the exact condition.
`TopLevel` reads whole component markup, and `Assembly` carries agreement through
calls of other components, from the declarations of a program to what is shown;
`Bindings` ties it to what the scanner keeps and says what a call passes.

**The magnetic resolver** (`composition/index.kz`). `Magnet` is one resolve pass as a
function of the starts, `Settling` what repeated passes reach, `Composition` the
objects and methods. One pass settles every placement, and a second pass changes
nothing, exactly when each leader's own edge is stored before its followers' edges;
in any order, as many passes as there are edges settle an acyclic graph. `Lateness` has
the exact number: n passes settle every placement exactly when every chain has fewer
than n edges stored before their leader's own edge.

**The wire codecs** (`web/closer/wire_closer.py`). `Sockets` delivers bytes in
arbitrary pieces. `Chunked` and `ChunkedBodies` decode the chunked coding of RFC 9112
section 7.1, `Arrivals` says when the pieces matter, `Bodies` reads the head and a body
of declared length, `Sizes` says which size lines are numbers and what a body that ends
early decodes to, `Frames` builds and reads the frames of RFC 6455 sections 5.2 and 5.3,
masked and plain. What is read depends on the bytes and not on the pieces they come in, but for
negative chunk sizes and for declared lengths, where the exact conditions are given:
over every arrival a receive can bring about.

**The transfer batch** (`curl/index.kz`). `Ledger` is what is allocated, and releasing
something twice or while it is attached is not possible in it. `BatchState` says who
holds what, `Firings` what the arms are called with, `Passes` what every operation
does as a function, `Steps` and `Finishing` what these functions mean slot by slot and
firing by firing, `Multi` the batch in place. `Multi.RunBatch` is any legal run: it
releases everything once, exactly the transfers reported done finish, each once, and
each hands out exactly the bytes that were delivered to it.

**JSON strings** (`ai/index.kz`). `Json` scans, escapes and unescapes. What is written
is for every string one that RFC 8259 section 7 reads as that string; what the reader
makes of it is that string under an exact condition.

## Where the code does other than its comments say

- `composition/index.kz:120` and `:132` call resolve idempotent. It is exactly when
  the edges are stored leaders first (`Magnet.IdempotentIffLeaderFirst`), and a release
  can undo that order (`Composition.ReleaseBreaksOrder`).
- A failed `multi.start` consumes the batch and releases nothing
  (`curl/index.kz:468-479`); this is the one run that leaves something allocated.
- The JSON reader does not decode the `\u` escapes the writer writes
  (`ai/index.kz:275`, `:297-300`), so control characters other than newline, return
  and tab do not come back (`Json.RoundTripIff`).
- A body of declared length depends on how the bytes were split between head and body.
  It does not exactly when what follows the head is as long as declared, or is empty, or
  when at least 4095 bytes are declared and at least that many follow: a head is
  received 4096 bytes at a time, so no more than 4095 come with it
  (`Bodies.LengthBodyIndependentIff`).
- The paint assigns the static text of a dynamic run as written while a browser decodes
  the rendered bytes, so a static escape there shows differently
  (`Witnesses.AmpersandShown`); and a browser keeps the first of two attributes of
  one name while assignment keeps the last (`Witnesses.DuplicateShown`).
- A repaint takes only its own prop (`dom/index.kz:820-848`), so a site that mixes it
  with another prop cannot be evaluated (`Repainting.RepaintIff`).
- A chunk size may be negative (`web/closer/wire_closer.py:137-143`), and then what is
  decoded can depend on how the bytes arrived (`Arrivals.NegativeDiverges`). When no
  further line follows, a size of -k does no harm exactly when at most k bytes follow or
  the limit is 0 (`Arrivals.NegativeIndependentIff`), and behind a head also when k is at
  least 65535, which one receive cannot exceed (`Arrivals.NegativeAfterHeadIff`).
- `web/closer/wire_closer.py:174` promises nothing read on a clean end. A header cut after
  one byte is taken for a clean end too, a long length cut short raises an error, and a
  frame cut anywhere later comes back as a whole frame with nothing in it
  (`Frames.CutFrame`, `Frames.CutPlain`).

## Model

| member | source | states |
|---|---|---|
| Handles.DecodeEncode | dom/app/output_emitted.js:46-52 | unpacking a handle with the code's divisions gives back slot, brand and generation, and the handle stays below 2^53, so double arithmetic is exact |
| Handles.EncodeDecode | dom/app/output_emitted.js:74-77 | every handle in range is the packing of its parts |
| Handles.EncodeInjective | dom/app/output_emitted.js:74-77 | distinct triples have distinct handles |
| Handles.Layout | dom/app/output_emitted.js:74-77 | the slot is the number modulo 2^24, the brand the next byte, the generation the number divided by 2^32 |
| RowStore.RowOfHandleOf | dom/app/output_emitted.js:46-77 | the handle issued for a dense row resolves to that row |
| RowStore.HandleOfRowOf | dom/app/output_emitted.js:46-77 | a handle that resolves is the one issued for the row it resolves to |
| RowStore.LiveIffResolves | dom/app/output_emitted.js:46-57 | a number resolves exactly when it is one of the handles of the present rows |
| RowStore.WhichError | dom/app/output_emitted.js:58-73 | a number that does not resolve is reported stale exactly if its fields name this store, a slot in use and another generation than the slot has |
| RowStore.ContentsIs | dom/app/output_emitted.js:34-77 | when a map from handles to rows is the contents of the store |
| RowStore.InsertInv | dom/app/output_emitted.js:170-186 | insert keeps live and free slots a partition of the slots issued, with as many slots issued as rows and free slots together |
| RowStore.InsertRefines | dom/app/output_emitted.js:164-196 | insert adds exactly one handle that was not live, with the given columns, and every other row stays under its handle |
| RowStore.TakeAtInv | dom/app/output_emitted.js:323-342 | the swap-remove keeps the same partition |
| RowStore.TakeRefines | dom/app/output_emitted.js:319-345 | take removes exactly the named handle from the map of handles to rows |
| RowStore.TakeKeepsOthers | dom/app/output_emitted.js:330-337 | every other handle resolves afterwards, to the same columns, wherever compaction moved its row |
| RowStore.ClearRefines | dom/app/output_emitted.js:375-385 | clear leaves no handle live, bumps the generation of every slot issued and of no other |
| StoreRuns.RunGeneration | dom/app/output_emitted.js:338-342 | over any run, a slot's generation is its old one plus the takes and clears that hit it, wrapped |
| StoreRuns.HandleLifetime | dom/app/output_emitted.js:46-57 | a handle live now resolves after a run if and only if its slot holds a row and was bumped a multiple of 2097152 times |
| StoreRuns.StaleStaysDead | dom/app/output_emitted.js:58-73 | once its row was taken or cleared, a handle resolves to nothing and traps until its slot was bumped 2097152 times, whatever ran in between |
| StoreRuns.RemovalsBump | dom/app/output_emitted.js:338-342 | a take through a handle and a clear each bump the handle's slot once |
| StoreRuns.RemovalReported | dom/app/output_emitted.js:58-73 | a handle is reported stale once its row was taken, and as never issued once everything was cleared |
| StoreRuns.LiveStaysLive | dom/app/output_emitted.js:46-57 | until its slot is bumped a handle keeps resolving, to the columns it was issued for and whatever was written into them since, wherever compaction moved the row |
| StoreRuns.StaleRevives | dom/app/output_emitted.js:340-342 | the bound is sharp: there is a run of exactly 2097152 bumps after which a removed handle addresses a new row |
| RowArrays.InsertedIsInsert | dom/app/output_emitted.js:170-186 | the array writes of insert, garbage beyond the counters included, are the store's insert |
| RowArrays.RemovedIsTake | dom/app/output_emitted.js:329-342 | the array writes of the compaction are the store's take, also when the last row goes |
| RowArrays.Rows.constructor | dom/app/output_emitted.js:34-45 | the arrays as created hold the empty store |
| RowArrays.Rows.FindRow | dom/app/output_emitted.js:46-57 | the lookup on the arrays finds what the store's lookup finds, with every index in bounds |
| RowArrays.Rows.ResolveRow | dom/app/output_emitted.js:58-73 | it tells a stale handle from one never issued as the store does |
| RowArrays.Rows.InsertRow | dom/app/output_emitted.js:170-186 | insert in place is the store's insert; at 16384 rows it refuses and nothing changes |
| RowArrays.Rows.RemoveRow | dom/app/output_emitted.js:329-342 | compaction in place is the store's take |
| RowArrays.Rows.ClearRows | dom/app/output_emitted.js:377-382 | the clearing loop in place is the store's clear |
| Page.DetachMid | dom/app/output_emitted.js:566-574 | removing a node takes exactly it out of the order of the page |
| Page.SwapExchanges | dom/app/output_emitted.js:98-109 | the two insertBefore calls exchange two nodes and keep every other place, in either order and when the nodes are neighbours |
| Page.ShowsPaint | dom/app/output_emitted.js:142-154 | painting under a fresh key appends one row that shows the id and label and registers it |
| Page.ShowsDrop | dom/app/output_emitted.js:566-574 | dropping a key removes exactly its row from page and registry |
| Page.ShowsRepaint | dom/app/output_emitted.js:155-163 | the repaint changes the label of the row its key owns and nothing else |
| Page.ShowsSwap | dom/app/output_emitted.js:98-109 | swapping two keys exchanges the places of their rows, and the registry still owns the right nodes |
| Page.ShowsSelect | dom/app/output_emitted.js:89-97 | selecting leaves at most one row highlighted: the one of the key, if the page shows it |
| Table.AgreePermutation | dom/app/output_emitted.js:164-196 | when store and page agree, the pos column is a permutation of the places |
| Table.FreshKey | dom/app/output_emitted.js:187-187 | the handle of an inserted row is a key the registry does not have |
| Table.AgreeInsert | dom/app/output_emitted.js:123-141 | inserting at the next position and appending a row keeps store and page in agreement |
| Table.AgreeRemove | dom/app/output_emitted.js:661-677 | take, then the sweep that closes the gap, agrees with removing the clicked line |
| Table.AgreeSwap | dom/app/output_emitted.js:275-310 | the exchanging sweep over all rows agrees with exchanging two lines |
| Table.AgreeText | dom/app/output_emitted.js:243-257 | writing a label, truncated, agrees with repainting its line |
| Table.MarkStep | dom/app/output_emitted.js:232-264 | one step of the sweep marks the row's line if its place is a multiple of ten and no other |
| Table.MarkEnds | dom/app/output_emitted.js:258-265 | the sweep in dense order ends with every tenth line marked once, whatever order the rows are in |
| Table.OpsStep | dom/app/output_emitted.js:311-318 | a step of the second sweep reads a row no earlier step touched |
| Table.LineOwners | dom/app/output_emitted.js:279-294 | the line at a swapped place belongs to a row whose handle the sweep can stage |
| Table.KeyOwnsLine | dom/app/output_emitted.js:58-73 | a key resolves exactly when a line of the page has it, and then to the row at that line's place |
| Table.ShowsDisplays | dom/app/output_emitted.js:142-154 | a page that shows the lines displays their items in order, selected row included |
| Table.RegistryIsLive | dom/app/output_emitted.js:11-18 | the registry's keys are exactly the live handles |
| ListApp.BuildKeeps | dom/app/output_emitted.js:123-141 | building appends as many rows as fit and changes none before them |
| ListApp.RunKeeps | dom/app/output_emitted.js:601-691 | over every run ids stay distinct, at most one row is selected, labels fit and the capacity holds |
| ListApp.SwapTwice | dom/app/output_emitted.js:643-659 | swapping twice restores the table, whatever it holds |
| Actions.BuildIs | dom/app/output_emitted.js:123-141 | building appends one row for each label while there are fewer than 16384, numbered on, each with its label cut at 48 and not selected |
| Actions.CreateSays | dom/app/output_emitted.js:604-620 | actions 1 and 2 leave exactly 1000 and 10000 rows, numbered on from the next id, row i with the i-th label drawn |
| Actions.CreateReplaces | dom/app/output_emitted.js:604-620 | none of the rows that were there before is left |
| Actions.AppendSays | dom/app/output_emitted.js:620-627 | action 3 keeps every row that was there, and 1000 more follow as far as 16384 allow |
| Actions.UpdateSays | dom/app/output_emitted.js:258-265 | action 4 puts " !!!" behind the text of the rows 0, 10, 20 and so on, cut at 48, and changes nothing else |
| Actions.ClearSays | dom/app/output_emitted.js:636-642 | action 5 leaves no row, and the next id as it was |
| Actions.SwapSays | dom/app/output_emitted.js:643-659 | action 6 exchanges the rows at 1 and 998 if there are more than 998, and else changes nothing |
| Actions.RemoveSays | dom/app/output_emitted.js:660-678 | action 7 keeps the rows before the clicked one and moves those after it up one; in no row it does nothing |
| Actions.SelectSays | dom/app/output_emitted.js:679-687 | after action 8 the clicked row is selected and no other |
| Actions.OtherActions | dom/app/output_emitted.js:601-691 | any other action changes nothing |
| Actions.RunsCompose | dom/app/output_emitted.js:601-691 | a run is its clicks one after the other |
| Actions.LabelWords | dom/app/output_emitted.js:84-88 | a label is an adjective, a colour and a noun in that order, with one blank between two |
| Actions.LabelEnds | dom/app/output_emitted.js:19-21 | the first words of the three lists make `pretty red table`, the last ones `fancy orange keyboard` |
| Actions.LabelsDrawn | dom/app/output_emitted.js:123-141 | a build has one label for each draw, in the order drawn, and the column cuts none |
| Labels.LabelFits | dom/app/output_emitted.js:84-88 | no label that can be drawn is longer than 27 characters, so none is truncated |
| DomApp.App.InsertF | dom/app/output_emitted.js:164-196 | insert and its interceptor together append one agreeing row to store, page and registry, or refuse and change nothing |
| DomApp.App.Take | dom/app/output_emitted.js:319-345 | take and its interceptor remove the row from store, page and registry, and lower the count |
| DomApp.App.Cleared | dom/app/output_emitted.js:575-594 | the per-node detach loop empties the page and the registry |
| DomApp.App.Build | dom/app/output_emitted.js:123-141 | the build loop is the reference application's build |
| DomApp.App.TenthSweep | dom/app/output_emitted.js:258-265 | the first sweep marks every tenth line under code 4 and does nothing otherwise |
| DomApp.App.OpSweep | dom/app/output_emitted.js:311-318 | the second sweep exchanges or closes positions by its code and stages the handles of the two exchanged rows |
| DomApp.App.ClickSwap | dom/app/output_emitted.js:643-659 | with more than 998 rows exactly the rows at 1 and 998 change places; otherwise nothing happens |
| DomApp.App.ClickRemove | dom/app/output_emitted.js:660-678 | the clicked row goes and the rest close up; a key of no live row throws and changes nothing |
| DomApp.App.Click | dom/app/output_emitted.js:601-691 | each click does what the reference application does, and throws exactly for a delete of a key no row has |
| DomApp.App.PerformAll | dom/app/output_emitted.js:601-691 | any run of clicks ends in the reference application's table, displayed row by row, with the registry's keys the live handles and pos a permutation |
| Scanner.Scanner.Placeholder | dom/index.kz:272-290 | the placeholder reader yields the trimmed name, the type code's type and the raw mark, and registers the prop |
| Scanner.Scanner.Split | dom/index.kz:386-404 | splitting a run keeps literals and placeholders in order |
| Scanner.Scanner.Attributes | dom/index.kz:356-424 | the attribute loop emits static attributes and one operation for each dynamic one, and refuses what the grammar refuses |
| Scanner.Scanner.Runs | dom/index.kz:451-498 | the content loop reads text runs and children in order, each child under its own path, up to the matching closing tag |
| Scanner.Scanner.Content | dom/index.kz:451-509 | placeholder text becomes one operation at the end of the element; mixed with child elements it is refused |
| Scanner.Scanner.Element | dom/index.kz:341-514 | the one-pass scan accepts exactly the elements of the grammar and appends exactly their HTML, operations and props |
| Edges.TrimEdgesSays | dom/index.kz:124-135 | a run loses the white space at an edge, all of it, if it holds a line break, and nothing else |
| Reading.SlotRead | dom/index.kz:272-290 | any placeholder an author may write is read as its trimmed name, with the type of its code: d, f and b have their own, h is raw, anything else a string |
| Reading.BitsRead | dom/index.kz:386-404 | a run is split into exactly the characters and placeholders it was written with |
| Reading.ElemRead | dom/index.kz:341-514 | whatever an author may write for an element is read as its tree, and nothing after it is touched |
| Recovery.SlotFrom | dom/index.kz:272-290 | any content of a brace pair is blanks, a name and a type, and read as them |
| Recovery.ElemFrom | dom/index.kz:341-514 | whatever is read as an element is one that an author may write, and stands for the tree returned |
| Recovery.ReadsExactly | dom/index.kz:341-514 | an element is read, up to some place, if and only if the markup up to there is written for it; everything else is refused |
| Tidied.TidyIsHtml | dom/index.kz:341-514 | the static HTML is, character for character, the authored element without its dynamic attributes, placeholder text and formatting white space |
| Tidied.HtmlReads | dom/index.kz:341-514 | the static HTML is markup again, and read as the element without its sites |
| Scanned.ElemScanned | dom/index.kz:341-514 | whatever is accepted has proper names, values that stay in their quotes, void tags without content, and text that meets no other text |
| Scanned.DeclaresProps | dom/index.kz:260-266 | the props of one element are distinct and include every name its placeholders use |
| Scanned.ComponentDeclares | dom/index.kz:260-266 | the props of a whole component, all its elements and calls, are distinct and include every name a placeholder uses or a call forwards |
| Declared.ComponentProps | dom/index.kz:260-266 | the props are the names in order of first use in the document, each of the type it is first used with, and no others |
| Scanned.ElemRegisters | dom/index.kz:260-266 | scanning an element forgets and changes no prop registered before |
| Weaving.ElemAscends | dom/index.kz:110-114 | over the whole recursive scan operation positions never decrease and lie inside the element's own HTML |
| Weaving.LiteralSlices | dom/index.kz:217-235 | the literal slices of the merge walk concatenate to exactly the static HTML |
| Weaving.WeaveElem | dom/index.kz:217-235 | merging an element's operations into its HTML, wherever it stands, fills each site where the markup has it |
| Weaving.RenderIsText | dom/index.kz:164-239 | the native lowering writes the element with every dynamic attribute and text filled by its rendered props |
| Lowering.RenderBody | dom/index.kz:217-235 | the loop with the moving cursor emits the merge of literals and operations |
| Values.ShownAs | dom/index.kz:181-185 | a bool is shown by the word true or false, a text and a number as they are |
| Values.WrittenAs | dom/index.kz:174-196 | a placeholder is written by its type: raw markup verbatim, text escaped for where it stands, a bool by its word, a number by its digits |
| Values.LiteralWritten | dom/index.kz:168-173 | authored text is written as it stands |
| Values.EscapesByName | dom/index.kz:192-196 | the three characters escaped in text and the five in attributes, each by its escape, and no other |
| Values.AssignedAs | dom/index.kz:555-590 | in an assignment a literal is its text and a placeholder what its prop is shown as |
| Values.AssignsBy | dom/index.kz:568-573 | text that holds raw markup is assigned as markup, any other as text |
| Escapes.DecodeUnits | dom/index.kz:174-196 | what is rendered decodes to what was meant if and only if no unescaped ampersand begins an escape, and to something shorter otherwise |
| Escapes.RunReadsBack | dom/index.kz:164-196 | a rendered run reads back as its text exactly when it is clean, in text and in attributes |
| Escapes.NoAmpersandIsClean | dom/index.kz:164-196 | escaped values and static text without an ampersand are always clean |
| Trees.TextParses | dom/index.kz:341-514 | a browser that parses an element's text gets the element's tree, each site read back |
| Painting.PaintBody | dom/index.kz:522-591 | the emitting loops produce the assignments of the chosen operations, in order |
| Painting.ElemPaints | dom/index.kz:522-591 | every assignment reaches the element it was written on, and only the chosen sites of the tree change, however its attributes came about |
| Agreement.SitesAreOps | dom/index.kz:341-514 | the operations are the dynamic sites, none missing and none added |
| Agreement.AttrsAgreeIff | dom/index.kz:356-424 | parsed and painted attributes are equal if and only if for each dynamic name the first attribute reads back as what the last assigns |
| Agreement.TemplateParses | dom/index.kz:765-782 | the static HTML parses to the template, the element without its sites |
| Agreement.LoweringsAgreeIff | dom/index.kz:164-239 | parsing the rendered bytes gives the painted clone if and only if every attribute and text site agrees |
| Divergence.DistinctAgrees | dom/index.kz:356-424 | with no dynamic attribute after one of its name, they agree exactly when every run is clean |
| Divergence.LoweringsAgree | dom/index.kz:522-591 | with distinct names and no ampersand in static parts of dynamic runs the lowerings agree on all props |
| Divergence.AmpersandDiverges | dom/index.kz:458-481 | an element with a static escape in placeholder text on which they differ, for every value |
| Divergence.DuplicateDiverges | dom/index.kz:356-424 | a static and then a dynamic attribute of one name agree only if the values happen to be equal |
| Witnesses.AmpersandShown | dom/index.kz:458-481 | a piece of markup the scanner takes whose bytes are never shown as what it paints |
| Witnesses.DuplicateShown | dom/index.kz:356-424 | a piece of markup the scanner takes whose bytes are shown as what it paints for one value of its prop and no other |
| Witnesses.PipeKept | dom/index.kz:119-135 | blanks around a bar between two elements are content and are kept with it |
| Repainting.RepaintIff | dom/index.kz:820-848 | painting and repainting one prop equals painting with the new value if and only if no site mixes the prop with another and each attribute name the repaint assigns ends with the value of the last attribute of that name |
| Repainting.ApartIsSettled | dom/index.kz:820-848 | the second condition always holds when no two dynamic attributes of one element share a name, whatever static ones do |
| Repainting.RepaintRow | dom/index.kz:524-537 | a repaint by key brings that row up to date, leaves every other row alone, and does nothing for an unknown key |
| Components.MarkupAgrees | dom/index.kz:164-239 | for any markup the scanner accepts, when the two lowerings agree |
| Components.MarkupRepaints | dom/index.kz:820-848 | for any markup the scanner accepts, when a repaint is as good as a paint; with dynamic names apart, exactly when no site mixes the prop |
| TopLevel.ScanArgs | dom/index.kz:304-337 | the argument loop of a component tag reads literals and forwarded props in order, registers the props, and refuses anything else |
| TopLevel.ScanCall | dom/index.kz:661-678 | a component tag is self-closing or empty up to white space, and nothing else is accepted |
| TopLevel.ScanComponent | dom/index.kz:656-688 | the top-level loop keeps every element as its own HTML and operations and every call with its arguments, in order, and refuses stray text and empty markup |
| Pieces.ArgsRead | dom/index.kz:304-337 | any list of arguments an author may write is read in order, up to the end of the tag |
| Pieces.ReadsAllExactly | dom/index.kz:656-688 | component markup is read, as some pieces, if and only if it may be written for them; everything else is refused |
| Assembly.PiecesScanned | dom/index.kz:656-688 | every element of scanned component markup has the shape the lowerings rely on |
| Assembly.BoundElements | dom/index.kz:849-893 | binding calls to declarations keeps the pieces in order |
| Bindings.KeptLowers | dom/index.kz:197-239 | the segments and calls the scanner keeps render and paint exactly what the component bound to its declarations does |
| Bindings.CallPasses | dom/index.kz:849-858 | a component is called with a text for each literal and the caller's value for each forwarded prop, the last argument of a name counting; forwarding what the caller lacks is no program |
| Bindings.LibraryHas | dom/index.kz:656-688 | a declared name stands for what its markup reads as, its calls bound to the declarations before it |
| Assembly.BlocksParse | dom/index.kz:197-239 | the concatenated bytes of a component and all it calls parse to its elements in document order |
| Assembly.ComponentsAgree | dom/index.kz:197-239 | a whole component, calls included, shows what it paints if and only if every element reached agrees under the props it is reached with |
| Assembly.LibraryOk | dom/index.kz:656-688 | scanning the declarations of a program makes every element reached, through calls too, well formed |
| Assembly.ProgramAgrees | dom/index.kz:197-239 | from the declarations of a program, any component shows what it paints if and only if every element it reaches agrees |
| Magnet.PassKeeps | composition/index.kz:131-140 | a resolve moves no timeline without a follow edge |
| Magnet.PassPlaces | composition/index.kz:134-138 | after a resolve each follower stands where its leader stood when its edge was applied |
| Magnet.LeaderFirstSettles | composition/index.kz:131-140 | with leaders' own edges first, one resolve satisfies all follow equations |
| Magnet.FixedIffSatisfied | composition/index.kz:131-140 | a resolve changes nothing exactly when every follow equation already holds |
| Magnet.LateLeaderFails | composition/index.kz:131-140 | when a leader's own edge comes after a follower's, there is a placement one resolve leaves unsettled |
| Magnet.OnePassIffLeaderFirst | composition/index.kz:131-140 | one resolve settles every placement if and only if the edges are leaders first |
| Magnet.IdempotentIffLeaderFirst | composition/index.kz:119-123 | resolving twice is resolving once, for every placement, if and only if the edges are leaders first |
| Settling.PassesSettle | composition/index.kz:131-140 | as many resolves as there are edges settle any acyclic graph with one edge per follower, in any order |
| Settling.SolutionUnique | composition/index.kz:131-140 | the settled placement is determined by the timelines that follow nothing |
| Settling.OrderIrrelevant | composition/index.kz:131-140 | the placement reached does not depend on the order the edges are stored in |
| Settling.RigidTranslation | composition/index.kz:224-227 | shifting a free timeline and resolving moves it and all its transitive followers by the same amount, and nothing else |
| Lateness.ExactPasses | composition/index.kz:131-140 | n resolves settle every placement of an acyclic graph if and only if every chain of leaders has fewer than n edges stored before their leader's own edge |
| Lateness.LateDecides | composition/index.kz:131-140 | after n resolves a follower still carries the whole of a common error in where the followers started exactly when at least n edges of its chain are late |
| Lateness.LeaderFirstIsNeverLate | composition/index.kz:131-140 | leaders first is the case in which no edge is late |
| Settling.AcyclicIsRanked | composition/index.kz:206-218 | a follow graph without cycles has a rank that grows along every edge |
| Settling.RankedIsAcyclic | composition/index.kz:206-218 | and only such a graph has one |
| Composition.BeatsForDelta | composition/index.kz:109-115 | a shift in seconds converted to beats moves the start by exactly those seconds |
| Composition.Timeline.ApplyDelta | composition/index.kz:109-115 | the start moves by delta whether it is held in beats or seconds, and the duration does not change |
| Composition.StartLaw | composition/index.kz:77-82 | a start held in beats is that many beats of the tempo after the tempo's start; any other is the plain field |
| Composition.DurationLaw | composition/index.kz:85-90 | a duration held in beats lasts that many beats of the tempo; any other is the plain field |
| Composition.SatisfiedIsInPlace | composition/index.kz:131-140 | when the follow equations hold, the gap between leader and follower times the tempo is 60 times the leader's beats, or the leader's plain duration |
| Composition.Comp.Resolve | composition/index.kz:131-140 | the loop in place computes one pass over the starts of all timelines; with leaders first every follower then starts where its leader ends, measured in beats if the leader is held in beats |
| Composition.Comp.Release | composition/index.kz:232-244 | the swap-removing loop drops the edges of the released follower and no other, in some order |
| Composition.Comp.ResolveAll | composition/index.kz:131-140 | resolving as often as there are edges leaves every follow equation satisfied, and every follower where its leader ends, measured in beats if the leader is held in beats |
| Composition.Comp.ShiftAndResolve | composition/index.kz:224-227 | one drag and one resolve, leaders first, is a rigid translation |
| Composition.SwapRemoveKeeps | composition/index.kz:236-238 | moving the last edge over a removed one loses no other edge |
| Composition.ReleaseKeepsGraph | composition/index.kz:229-244 | a release keeps one edge per follower and the graph acyclic |
| Composition.ReleaseBreaksOrder | composition/index.kz:236-238 | a release can leave edges one resolve no longer settles |
| Sockets.Socket.RecvExact | web/closer/wire_closer.py:163-170 | in whatever pieces they come, exactly the next n bytes, or nothing when the stream is shorter |
| Chunked.DecodeChunked | web/closer/wire_closer.py:111-145 | the result is what decoding the received pieces one by one yields, negative sizes sliced as the code does; without negative sizes it is a function of the bytes alone, errors and limit included |
| Arrivals.PiecesDontMatter | web/closer/wire_closer.py:111-145 | without a negative size, decoding pieces is decoding their concatenation, however it was cut |
| Arrivals.NegativeIndependentIff | web/closer/wire_closer.py:136-145 | after a first size of -k, with no further line, the body is the same for whatever was received before the call and whatever pieces of at most 65536 bytes come after, if and only if at most k bytes follow the line or the limit is 0 |
| Arrivals.NegativeAfterHeadIff | web/closer/wire_closer.py:111-145 | when at most 4095 bytes are there before the call, as after a head, it is also the same when k is at least 65535, and in no other case |
| Arrivals.NegativeSkippedIff | web/closer/wire_closer.py:136-145 | when at most k - 2 bytes follow, further lines included, and the limit is absent or positive, the size line counts for nothing: the body is independent exactly when that of what follows is |
| Arrivals.FillOvershoot | web/closer/wire_closer.py:131-135 | waiting for a line receives less than one piece beyond it |
| Arrivals.NegativeDiverges | web/closer/wire_closer.py:136-145 | one stream with size -1 that decodes to one byte when it arrives whole and to none when it arrives in two pieces |
| ChunkedBodies.SizeOfLine | web/closer/wire_closer.py:136-138 | a size line of section 7.1 of RFC 9112, with blanks and extensions, is read as its size |
| ChunkedBodies.LineEnds | web/closer/wire_closer.py:131-136 | the first line break after a size line is its own |
| ChunkedBodies.DechunkRoundTrip | web/closer/wire_closer.py:111-145 | a well-formed body decodes to its data, or its first limit bytes |
| ChunkedBodies.DecodeBody | web/closer/wire_closer.py:111-145 | the same for the loop over a socket, split any way between the first bytes and the pieces |
| Sizes.DigitsByName | web/closer/wire_closer.py:136-138 | the sixteen digits in both cases have their values, and no other byte is a digit |
| Sizes.ParsesIff | web/closer/wire_closer.py:136-138 | a size is read, as some number, if and only if it is a sign or none, 0x or none, and digits with single underscores between them, and has that value |
| Sizes.FieldOf | web/closer/wire_closer.py:136-138 | the size of a line is what stands before its first semicolon, without the white space around it |
| Sizes.CutBody | web/closer/wire_closer.py:131-141 | a body that ends inside a chunk decodes to the chunks before it and whatever there is of this one behind its size line, the first byte of its line break included |
| Bodies.ReadHead | web/closer/wire_closer.py:302-310 | the head ends at the first blank line, no byte after it is lost, and at most 4095 bytes come with it |
| Bodies.SameBodyIff | web/closer/wire_closer.py:329-333 | a body of declared length is the same wherever the stream is cut within 4095 bytes exactly when the stream is as long as declared, or empty, or no shorter than a declared length of at least 4095 |
| Bodies.LengthBodyIndependentIff | web/closer/wire_closer.py:302-333 | that is exactly when the body is the same for all the pieces of at most 4096 bytes in which a whole response, head and body, can arrive |
| Frames.BytesRoundTrip | web/closer/wire_closer.py:155-158 | a length written big-endian reads back |
| Frames.BigEndian | web/closer/wire_closer.py:183-187 | the first byte of a length is the most significant |
| Frames.MaskTwice | web/closer/wire_closer.py:159-159 | masking twice with one key is the identity |
| Frames.MaskTurns | web/closer/wire_closer.py:159-159 | masking changes each byte by the byte of the key whose turn it is |
| Frames.HeaderFields | web/closer/wire_closer.py:178-182 | fin, opcode, mask bit and length of the two header bytes as numbers, whatever the reserved bits are |
| Frames.LengthRoundTrip | web/closer/wire_closer.py:151-158 | each of the three length forms, with and without the mask bit, is read as the length it was built for |
| Frames.FrameRoundTrip | web/closer/wire_closer.py:150-191 | a built frame, whatever follows it, is read back with its fin bit, opcode and unmasked payload, and nothing of what follows is consumed |
| Frames.PlainRoundTrip | web/closer/wire_closer.py:173-191 | a frame as a server sends it, without mask bit and key, is read back with its payload as it came, in all three length forms |
| Frames.Hello | web/closer/wire_closer.py:173-191 | the unmasked and the masked example of section 5.7 of RFC 6455 are read as the text they carry |
| Frames.RecvFrame | web/closer/wire_closer.py:173-191 | reading from a socket in pieces is reading from the stream, every failure included; what that is, PlainRoundTrip, FrameRoundTrip, CutFrame, CutPlain and HeaderFields say |
| Frames.StreamRoundTrip | web/closer/wire_closer.py:150-191 | any list of frames, masked and plain mixed, concatenated, is read back as that list and then the end |
| Frames.RecvAll | web/closer/wire_closer.py:173-191 | the same through a socket that delivers arbitrary pieces: whatever frames the peer sent, masked or plain, are received in order, and then the end |
| Frames.CutFrame | web/closer/wire_closer.py:150-191 | a built frame, in any of the three length forms, cut after n of its bytes is a clean end for n below 2, an error inside a long length, and from there on a frame with its fin bit and opcode and an empty payload |
| Frames.CutPlain | web/closer/wire_closer.py:173-191 | the same for a frame without mask |
| Frames.FragmentsAreAMessage | web/closer/wire_closer.py:238-244 | a fragmented text is one text frame, then continuations, fin on the last only; it is the authored text cut at every bar and nowhere else |
| Firings.ConservedDeliver | curl/index.kz:53-60 | bytes appended to a buffer are received bytes not yet handed out |
| Firings.ConservedDrain | curl/index.kz:575-585 | draining hands the buffer to the chunk arm and loses nothing |
| Firings.ConservedFinish | curl/index.kz:508-516 | what is left in the buffer becomes the finished body |
| Firings.WholeBodyWithoutChunks | curl/index.kz:551-555 | without a chunk arm the finished body alone is every byte received |
| Steps.StartsSays | curl/index.kz:476-489 | starting fires once for each live slot, in slot order, and nothing else |
| Steps.ReceivesSays | curl/index.kz:53-60 | each slot's buffer grows by exactly what is delivered to its handle, in order |
| Steps.DrainsSays | curl/index.kz:575-585 | exactly the live slots with bytes fire them, in slot order, and no live slot keeps any |
| Steps.ReportsSays | curl/index.kz:587-596 | exactly the live slots whose percentage changed fire the new one, in slot order, and remember it |
| Steps.PassSays | curl/index.kz:566-606 | after a pass every slot still live has told its last percentage and, under a chunk arm, all its bytes |
| Steps.AbandonsSays | curl/index.kz:681-696 | cancelling takes handle and bytes from every live slot and fires nothing |
| Steps.BeginsSays | curl/index.kz:377-489 | the first 32 transfers get a slot each, in order, live and with a handle of its own unless none could be made, and each is told started |
| Finishing.FinishesCompletes | curl/index.kz:496-519 | harvesting fires the response of the slot that has the handle, once, and takes the handle from it; of no slot if none has it |
| Finishing.PassCompletes | curl/index.kz:598-601 | a pass finishes exactly the slots whose handles it reports done, each once |
| Finishing.EndsFinish | curl/index.kz:559-696 | over a run, whatever its ending, a transfer finishes if and only if some pass before the end reports its handle done, and never twice |
| BatchState.HeldAdded | curl/index.kz:377-454 | an added slot holds its own handle, url, body and header list, shared with nothing |
| BatchState.HeldHarvested | curl/index.kz:496-519 | harvest detaches the handle and moves it from the slot to the response |
| BatchState.HeldResponseClosed | curl/index.kz:276-289 | closing a response gives up its handle and struct and nothing a slot holds |
| BatchState.HeldAbandoned | curl/index.kz:681-696 | cancel detaches before it cleans up, and keeps url, body and headers for close |
| BatchState.HeldSlotReleased | curl/index.kz:701-711 | closing one slot releases everything it still holds |
| BatchState.NothingLeft | curl/index.kz:698-714 | when the batch and every response are closed nothing is allocated or attached |
| Multi.Batch.Add | curl/index.kz:377-402 | a slot is appended with fresh things of its own; a full batch comes back as it was |
| Multi.Batch.AddPost | curl/index.kz:412-454 | the same with a body and, if there are headers, one header list |
| Multi.Batch.Start | curl/index.kz:476-489 | each live transfer fires once, in order, before the promise exists; without a multi handle nothing happens |
| Multi.Batch.DrainChunks | curl/index.kz:575-585 | each live slot with bytes fires them once, in slot order, and is emptied |
| Multi.Batch.ReportProgress | curl/index.kz:587-596 | exactly the live slots whose percentage changed fire it |
| Multi.Batch.Harvest | curl/index.kz:496-519 | the slot of the finished handle, and no other, is detached and fires its response, with its handle and its bytes |
| Multi.Batch.Deliver | curl/index.kz:53-60 | the bytes go to the slot of the handle they came for, and to no other |
| Multi.Batch.Pass | curl/index.kz:566-606 | one pass is deliver, drain, report, harvest; each slot took exactly what was delivered to its handle, exactly the slots whose handles are reported done finish, and every response fired is handed out |
| Multi.Batch.Await | curl/index.kz:633-677 | passes until nothing runs, then the promise is gone; each slot took exactly what all the passes delivered to it, and exactly the slots whose handles some pass reported done finished |
| Multi.RunStarted | curl/index.kz:559-714 | from the promise to the end, whatever is closed in between: a transfer finished if and only if some pass reported its handle done, once, and handed out, chunk by chunk and then in its body, exactly what was delivered to it |
| Multi.Batch.Cancel | curl/index.kz:681-696 | every live slot is given up, nothing fires, and the promise is gone |
| Multi.Batch.Close | curl/index.kz:698-714 | from any state between promises, only responses are left |
| Multi.RunBatch | curl/index.kz:358-714 | over every legal run everything is released, each thing once and never while attached, exactly if the multi handle was created; a transfer finished if and only if some pass reported its handle done, once, and handed out, in its chunks and then its body, exactly what the library delivered to its handle |
| Json.FindStringEnd | ai/index.kz:229-244 | the scan with its flag finds the first quote no backslash escapes |
| Json.EndIsFirstQuote | ai/index.kz:229-244 | in any text the scan stops at the first quote not behind a backslash that is itself not escaped, or at the end |
| Json.ReadUnescaped | ai/index.kz:284-310 | the reading loop is the recursive reader |
| Json.PairsRead | ai/index.kz:284-310 | the five pairs the reader knows are read as their characters, any other pair comes back as it stands, and so does a backslash at the end |
| Json.ScanStopsAtClosingQuote | ai/index.kz:229-244 | in any body, the scan from an escaped string's start stops exactly at its closing quote, whatever the string holds |
| Json.CutIsEscaped | ai/index.kz:256-263 | the slice cut out is the escaped form, all of it and nothing more |
| Json.WrittenMeansItself | ai/index.kz:265-282 | every string, control characters included, is written with no bare quote or control byte and only legal escapes, and stands for itself under section 7 of RFC 8259 |
| Json.EscapeInjective | ai/index.kz:265-282 | no two strings are written alike |
| Json.RoundTripIff | ai/index.kz:265-310 | reading undoes writing if and only if the string has no control character but newline, return and tab |
| Json.CutRoundTrip | ai/index.kz:229-310 | the same for a string cut out of a larger body |

## Left out

- Recursive components: a declaration is bound to declarations made before it, so a component does not contain itself; a call that passes one argument twice keeps the later one, and quoted arguments are taken as they stand, without escapes of the target language.
- Several roots are painted without a key, so the repaint results are for components of one element.
- The generated program text: statements are modelled, not the characters that spell them in the target language (`zigLit`, `jsEscape`).
- Raw markup (`:h`): it is scanned, emitted and written, but what a browser makes of it is not modelled, so agreement and repaint require its absence.
- Number formatting: a number is the text it formats to, taken to be the same in both lowerings and free of special characters.
- HTML parsing beyond elements, quoted and bare attributes, text and the five escapes: implied tags, case folding of names, raw text elements, other named escapes, and the normalisation of carriage returns and null characters in the bytes, which assignment does not do, so a prop that holds one is shown differently; a tag name is required to begin with a letter.
- Attribute names a browser refuses to set: the scanner accepts names such as `@x` or `a"b`, which parse in the rendered bytes and on which `setAttribute` throws; an assignment in the model never fails on its name.
- Components.MarkupAgrees: requires each placeholder's type to be the type of the prop's value, which is what makes the generated native code compile.
- Repainting.RepaintIff: a prop with an empty name is not covered; no program could name it.
- A prop named like something else the generated program can see, such as `key` or a global of the browser, is taken to be the prop and nothing else.
- The page outside the rows of the table body: document title, listener wiring, markup cells other than id and label.
- Labels are drawn by parameters; randomness is any draw.
- DomApp.App.InsertF: its interceptor is given the label before truncation; labels that are built fit, so both are the same.
- The caps on timelines and clips; times are real numbers, not rounded. Past 32 edges Composition.Comp.Follow records nothing, and the results speak of the edges recorded.
- Composition.Comp.Release: the graph stays settleable when no remaining edge has the released timeline as its leader; what a freed leader would read as is not modelled.
- Clips, the view and the projections: one-line arithmetic.
- Chunked.DecodeChunked: digits outside ASCII are not read as digits.
- Arrivals.NegativeIndependentIff: speaks of a stream whose first size is negative and which holds no further line; with further lines and at most k - 2 bytes Arrivals.NegativeSkippedIff applies, and with more the cut leaves whatever the bytes spell, on which nothing is stated. The limit, where there is one, is not negative.
- Sockets: no timeouts and no errors; a receive returns between one and the asked number of bytes, or nothing at the end.
- Close reasons, hexadecimal payloads, header comparison and masking of volatile text in the wire tool.
- Multi.RunBatch: one batch is on the books at a time; running out of memory and failures of the header list are not modelled; the byte buffers of slots and responses are values, not things on the books.
- Multi.Batch.Await: what holds at its exit; that a server ever answers is not claimed.
- Percentages and the handles reported done are inputs of a pass, not computed.
