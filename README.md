# zappa knowledge-management core, modelled in Dafny

zappa is a note-taking backend. Users write notes, file them in a tree of
groups, tag them, and connect them by typed, weighted links. A graph view
draws those links. Browser scripts drive the tag and selection widgets and
the markdown editor. This project models that core as in-memory tables and
proves what the code promises about it.

What is modelled:

- **Link algebra and link graph.**
  - `LinkTypes`: the link-type enumeration and its categories. Its inverse
    map is not an involution.
  - `NoteLinks`: link values with their defaults and factories, their
    strength tests and metadata.
  - `Notes`: a note's link and attachment helpers.
  - `LinkGraph`: the recursive-query analytics restated over a sequence of
    stored links. These are connected notes within a depth (with a
    breadth-first method proved against the definition), the shortest path
    capped at ten hops, hub ranking, orphans and per-note counts.
  - `LinkRepository`: the link table's finders and bulk deletes. The hub
    ranking query, as written, is refused by PostgreSQL (see Findings).
  - `LinkService`: validated link creation, deletion and update, plus the
    bidirectional link.
- **Group tree.** `Groups` covers the parent-pointer forest: full name,
  display colour and icon inheritance, and total note counts.
  `GroupService` covers creation, update, delete guard, move with its cycle
  check, root-first hierarchy and the default group.
- **Tag scoping.** `Tags`, `TagRepository` and `TagService` cover global and
  group-scoped tags, case-insensitive duplicate rules, find-or-create and
  moving tags between scopes. `NoteTagRepository` and `NoteTagService`
  cover the note–tag join table and its bulk operations.
- **Notes.** `NoteRepository` and `NoteService` cover the ALL and ANY tag
  filters, default-group assignment on create, tag attach and detach, and
  group assignment.
- **Helpers.**
  - `Attachments`: MIME predicates, file extensions and integer size texts.
  - `FileStorage`: upload validation and unique file names.
  - `Markdown`: markdown detection, escaping and the table of contents.
  - `GraphView`: the graph controller's link filter, note filter and
    formulas.
  - `ExportReport`: the export report's co-occurrence and keyword counts.
- **Stores.** `UserManagement` is the user directory with the last-admin
  guard. `UserPreferences` holds per-user, per-group graph positions.
- **Browser widgets.** `SearchableSelector` and `TagSelector` hold the two
  selection widgets' state and key handling. `MarkdownEditor` is the
  textarea value with its selection. `AppTags` is the comma-separated tag
  field.

Shared helpers live in `Wrappers` (Option, Result and the error kinds),
`Ids`, `Strings`, `Seqs` and `Sorting`. `Store` holds the database: one
class whose fields are the notes, groups, tags, note–tag rows, links and
the id counter.

Modelling conventions:

- **Services.** Each service operation is a method that changes only the
  `Store.Database` fields it names, and returns a `Result` whose error cases
  are the exceptions the code throws. On an error the tables are unchanged,
  since each transactional method is atomic.
- **Ambient inputs.** The acting user arrives as a parameter, and so do the
  clock, the random UUID, the password encoder and the prompt answers. The
  id counter stands in for generated UUIDs.
- **Query results.** An unordered query result is a set. A result ordered by
  counts is a sequence sorted by `Sorting.SortDesc`. A single-row finder
  that matches several rows fails with `IncorrectResultSize`
  (`SingleResult.Unique`), as Spring Data's finders that return one
  `Optional` throw.
- **String order and case.** `localeCompare` and SQL collation become
  code-point lexicographic order (`Strings.LexLess`). Lower-casing is ASCII
  only.
- **Textarea caret.** Assigning a textarea a different value puts the caret
  at its end, as the HTML standard prescribes; assigning the same value
  leaves the selection alone. The editor's explicit `setSelectionRange`
  calls then move it. The editor starts from whatever selection the
  textarea has.

Where the code and the documentation describe different behaviour, the model
follows the code:

- "including subgroups" means direct child groups only.
- `createTagInGroup(tag, null)` makes a truly global tag. `createGlobalTag`
  and `makeTagGlobal` instead attach the tag to the group `getDefaultGroup`
  yields (`GroupService.DefaultChoice`): the user's root group named
  "Default" in any case, else the first root group, else a new Default
  group for a user without groups. They fail only when the user has groups
  but none of them is a root.
- `createNote` never saves a note without a group. When the user has groups,
  none of them is named exactly "Default" and none is a root,
  `createDefaultGroup` returns null and logging its name throws, so nothing
  is saved (`NoteService.CreateNote`).
- The table of contents takes a heading's level to be the position of the
  line's first space minus that of its first '#'. A heading indented by k
  spaces therefore gets level -k, and its '#' marks stay in the title
  (`Markdown.IndentedHeading` shows k = 1).
- The tag selector's suggestion and dropdown sorts disagree
  (`TagSelector.OrdersDisagree`).
- `updateGroup` does no cycle check. `Store.Database.Valid` holds no
  acyclicity clause, so the update always keeps the store valid; the tree
  stays acyclic exactly when the new parent is none or lies outside the
  group's own subtree (`GroupService.UpdateGroup`).

## Model

| member | source | states |
|---|---|---|
| LinkTypes.Inverse | src/main/java/io/ironhawk/zappa/module/notemgmt/entity/NoteLinkType.java:51-62 | only RELATES_TO is its own inverse; hierarchical types invert to hierarchical ones; every type outside the seven listed cases inverts to RELATES_TO |
| LinkTypes.Lookup | src/main/java/io/ironhawk/zappa/module/notemgmt/entity/NoteLinkType.java:27 | valueOf finds a constant whose name is the given text, or reports that no constant has that name |
| LinkTypes.FromString | src/main/java/io/ironhawk/zappa/module/notemgmt/entity/NoteLinkType.java:22-31 | a null name gives null; otherwise the result is the constant named by the upper-cased text, and the error case means no constant has that name |
| LinkTypes.NamesDistinct | src/main/java/io/ironhawk/zappa/module/notemgmt/entity/NoteLinkType.java:3-20 | two constants with the same name are the same constant |
| LinkTypes.FromStringOfName | src/main/java/io/ironhawk/zappa/module/notemgmt/entity/NoteLinkType.java:22-31 | every constant is recovered from its name written in any letter case |
| LinkTypes.InverseInvolutionOnPairs | src/main/java/io/ironhawk/zappa/module/notemgmt/entity/NoteLinkType.java:51-62 | getInverse applied twice gives the type back exactly for RELATES_TO and the three swapped pairs |
| LinkTypes.CitesInverseNotInvolutive | src/main/java/io/ironhawk/zappa/module/notemgmt/entity/NoteLinkType.java:59-60 | CITES inverts to MENTIONS, which inverts to RELATES_TO, not back to CITES |
| LinkTypes.CategoriesDisjoint | src/main/java/io/ironhawk/zappa/module/notemgmt/entity/NoteLinkType.java:34-48 | no type is in two of the hierarchical, sequential, content-based and conflicting categories |
| LinkTypes.ObsoletesCategories | src/main/java/io/ironhawk/zappa/module/notemgmt/entity/NoteLinkType.java:38-58 | OBSOLETES is conflicting and not sequential, while its inverse UPDATES is sequential |
| NoteLinks.Build | src/main/java/io/ironhawk/zappa/module/notemgmt/entity/NoteLink.java:41-50 | a builder link with only its endpoints and type set has weight 1 and is not bidirectional |
| NoteLinks.Create | src/main/java/io/ironhawk/zappa/module/notemgmt/entity/NoteLink.java:65-71 | the three-argument constructor links source to target with the given type, weight 1, one way |
| NoteLinks.Relates | src/main/java/io/ironhawk/zappa/module/notemgmt/entity/NoteLink.java:74-81 | relates gives a bidirectional RELATES_TO link of weight 1 between the two notes |
| NoteLinks.ReferencesLink | src/main/java/io/ironhawk/zappa/module/notemgmt/entity/NoteLink.java:83-89 | references links source to target as REFERENCES with weight 1, one way |
| NoteLinks.FollowsFromLink | src/main/java/io/ironhawk/zappa/module/notemgmt/entity/NoteLink.java:91-97 | followsFrom links source to target as FOLLOWS_FROM with weight 1, one way |
| NoteLinks.ExtendsLink | src/main/java/io/ironhawk/zappa/module/notemgmt/entity/NoteLink.java:99-106 | extends_ links source to target as EXTENDS with weight 3, one way |
| NoteLinks.ContradictsLink | src/main/java/io/ironhawk/zappa/module/notemgmt/entity/NoteLink.java:108-115 | contradicts links source to target as CONTRADICTS with weight 2, one way |
| NoteLinks.SummarizesLink | src/main/java/io/ironhawk/zappa/module/notemgmt/entity/NoteLink.java:117-124 | summarizes makes the summary the source and the summarized note the target of a one-way SUMMARIZES link of weight 4 |
| NoteLinks.ImplementsLink | src/main/java/io/ironhawk/zappa/module/notemgmt/entity/NoteLink.java:126-133 | implements_ links the implementation to the concept and replaces a null weight by 3 |
| NoteLinks.ParentChild | src/main/java/io/ironhawk/zappa/module/notemgmt/entity/NoteLink.java:135-142 | parentChild links the parent to the child as PARENT_OF with weight 5, one way |
| NoteLinks.IsStrongLink | src/main/java/io/ironhawk/zappa/module/notemgmt/entity/NoteLink.java:145-151 | a strong link has a weight and is never also weak |
| NoteLinks.OtherNote | src/main/java/io/ironhawk/zappa/module/notemgmt/entity/NoteLink.java:157-165 | getOtherNote succeeds exactly for an endpoint of the link; it returns an endpoint, and the far one when the ends differ |
| NoteLinks.OtherNoteInvolutive | src/main/java/io/ironhawk/zappa/module/notemgmt/entity/NoteLink.java:157-165 | the other note of the other note is the note one started from |
| NoteLinks.NullWeightNeitherStrongNorWeak | src/main/java/io/ironhawk/zappa/module/notemgmt/entity/NoteLink.java:145-151 | a link with a null weight is neither strong nor weak |
| NoteLinks.FactoryStrengths | src/main/java/io/ironhawk/zappa/module/notemgmt/entity/NoteLink.java:74-151 | the default-weight factories, extends_, contradicts and implements_ with a null weight give weak links; summarizes and parentChild give links that are neither weak nor strong |
| NoteLinks.LinkMetadata.constructor | src/main/java/io/ironhawk/zappa/module/notemgmt/entity/NoteLink.java:47 | a new link has no metadata map |
| NoteLinks.LinkMetadata.GetMetadata | src/main/java/io/ironhawk/zappa/module/notemgmt/entity/NoteLink.java:175-177 | the value is present exactly when the map exists and holds the key with a non-null value, and it is the stored value; a null value reads as absent |
| NoteLinks.LinkMetadata.GetMetadataAsString | src/main/java/io/ironhawk/zappa/module/notemgmt/entity/NoteLink.java:179-182 | the string form is present exactly when the map holds the key with a non-null value, and it is the value's toString: text as is, numbers in decimal, booleans as true/false, lists as "[a, b]" and objects as "{k=v}" with nested nulls shown as null |
| NoteLinks.ShownValues | src/main/java/io/ironhawk/zappa/module/notemgmt/entity/NoteLink.java:179-182 | toString of a decimal, a negative integer, an empty list, a two-element list, a list holding null and a one-entry object |
| NoteLinks.LinkMetadata.AddMetadata | src/main/java/io/ironhawk/zappa/module/notemgmt/entity/NoteLink.java:168-173 | the map exists afterwards, the key holds the new value and reads it back unless it is null, and every other key keeps its value |
| Notes.Of | src/main/java/io/ironhawk/zappa/module/notemgmt/entity/Note.java:63-68 | the note has the given title and content, no owner, no group, no creation time and no attachments |
| Notes.CreateEmpty | src/main/java/io/ironhawk/zappa/module/notemgmt/entity/Note.java:70-74 | createEmpty is the same note as of with the content left null |
| Notes.AllLinks | src/main/java/io/ironhawk/zappa/module/notemgmt/entity/Note.java:85-90 | a link is in getAllLinks exactly when it is outgoing or incoming, and there are never more of them than getLinkCount |
| Notes.IsOrphaned | src/main/java/io/ironhawk/zappa/module/notemgmt/entity/Note.java:105-111 | a note is orphaned exactly when its link count is zero |
| Notes.OrphanedHasNoLinks | src/main/java/io/ironhawk/zappa/module/notemgmt/entity/Note.java:92-111 | an orphaned note is linked to no note, has no outgoing or incoming link of any type and has no links at all |
| Notes.HasAttachments | src/main/java/io/ironhawk/zappa/module/notemgmt/entity/Note.java:114-120 | a note has attachments exactly when its attachment count is positive |
| Notes.TotalSizeAppend | src/main/java/io/ironhawk/zappa/module/notemgmt/entity/Note.java:134-138 | the total attachment size of two lists together is the sum of their totals |
| Notes.TotalSizeBoundsEach | src/main/java/io/ironhawk/zappa/module/notemgmt/entity/Note.java:134-138 | when no size is negative, each attachment's size, a null size counting as 0, lies between 0 and the total |
| Notes.TotalSizeNonNegative | src/main/java/io/ironhawk/zappa/module/notemgmt/entity/Note.java:134-138 | when no size is negative the total is not negative |
| Attachments.MimePredicatesExclusive | src/main/java/io/ironhawk/zappa/module/notemgmt/entity/NoteAttachment.java:120-133 | no MIME type is both a Word document and a PDF or an image, or both a PDF and an image; a null MIME type is none of the three |
| Attachments.FileExtension | src/main/java/io/ironhawk/zappa/module/notemgmt/entity/NoteAttachment.java:149-153 | a null name or one whose last dot is missing or leading has extension ""; otherwise the extension is the lower-cased text after the last dot, and it never contains a dot |
| Attachments.ExtensionOfJoinedName | src/main/java/io/ironhawk/zappa/module/notemgmt/entity/NoteAttachment.java:149-153 | a non-empty base name, a dot and a dot-free extension give back that extension lower-cased |
| Attachments.FormattedFileSize | src/main/java/io/ironhawk/zappa/module/notemgmt/entity/NoteAttachment.java:135-147 | a null size reads "Unknown", a size below 1024 reads as that many bytes followed by " B"; a larger size is scaled by a divisor it is at least, and below 1024 times that divisor unless the unit is GB |
| LinkGraph.SuccessorsIff | src/main/java/io/ironhawk/zappa/module/notemgmt/repository/NoteLinkRepository.java:59-69 | a note is one step from a set exactly when some link leads from a member of the set to it, forwards or, on a bidirectional link, backwards |
| LinkGraph.ReachMonotone | src/main/java/io/ironhawk/zappa/module/notemgmt/repository/NoteLinkRepository.java:56-75 | the notes reached within j steps are among those reached within any larger number of steps |
| LinkGraph.WalkInReach | src/main/java/io/ironhawk/zappa/module/notemgmt/repository/NoteLinkRepository.java:56-75 | the end of every walk of n steps from the start is reached within n steps |
| LinkGraph.ReachHasPath | src/main/java/io/ironhawk/zappa/module/notemgmt/repository/NoteLinkRepository.java:56-75 | every note reached within k steps ends a repetition-free path of at most k steps, as the recursive query's path array demands |
| LinkGraph.ConnectedNotesIff | src/main/java/io/ironhawk/zappa/module/notemgmt/repository/NoteLinkRepository.java:55-79 | findConnectedNotes returns exactly the notes other than the start at the end of a repetition-free path of 1 to maxDepth steps |
| LinkGraph.ConnectedNotesGrow | src/main/java/io/ironhawk/zappa/module/notemgmt/repository/NoteLinkRepository.java:55-79 | a larger depth bound never loses a connected note |
| LinkGraph.ExpandFrontier | src/main/java/io/ironhawk/zappa/module/notemgmt/repository/NoteLinkRepository.java:59-69 | one round of the recursive query's join yields exactly the successors of the frontier |
| LinkGraph.SuccessorsUnion | src/main/java/io/ironhawk/zappa/module/notemgmt/repository/NoteLinkRepository.java:59-69 | the successors of a union are the union of the successors |
| LinkGraph.FrontierSuffices | src/main/java/io/ironhawk/zappa/module/notemgmt/repository/NoteLinkRepository.java:56-75 | the notes first reached at level k+1 are the successors of the notes first reached at level k, less what was reached before, so only the last level needs expanding |
| LinkGraph.ConnectedNotesBfs | src/main/java/io/ironhawk/zappa/module/notemgmt/repository/NoteLinkRepository.java:55-79 | the level-by-level search computes exactly the connected notes up to the depth bound |
| LinkGraph.Predecessor | src/main/java/io/ironhawk/zappa/module/notemgmt/repository/NoteLinkRepository.java:95-100 | a note one step from a set has a member of the set one step before it |
| LinkGraph.LevelWalkShape | src/main/java/io/ironhawk/zappa/module/notemgmt/repository/NoteLinkRepository.java:83-104 | for a reached note the walk built back level by level is a walk from the start of at most k steps that visits each level once |
| LinkGraph.LevelledDistinct | src/main/java/io/ironhawk/zappa/module/notemgmt/repository/NoteLinkRepository.java:97-100 | a walk that visits one level per step repeats no note |
| LinkGraph.LevelledShortest | src/main/java/io/ironhawk/zappa/module/notemgmt/repository/NoteLinkRepository.java:104 | a walk that visits one level per step is no longer than any other walk between the same notes |
| LinkGraph.ShortestPathSpec | src/main/java/io/ironhawk/zappa/module/notemgmt/repository/NoteLinkRepository.java:82-106 | the path from a note to itself is empty; a returned path starts at the source, ends at the target, repeats no note, has at most ten edges and no walk between them is shorter; when none is returned every walk needs more than ten edges |
| LinkRepository.Where | src/main/java/io/ironhawk/zappa/module/notemgmt/repository/NoteLinkRepository.java:21-52 | a derived finder keeps exactly the rows that match, and never more rows than the table holds |
| LinkRepository.WhereAppend | src/main/java/io/ironhawk/zappa/module/notemgmt/repository/NoteLinkRepository.java:21-52 | filtering two parts of the table and joining the results is filtering the whole table |
| LinkRepository.WhereNone | src/main/java/io/ironhawk/zappa/module/notemgmt/repository/NoteLinkRepository.java:21-52 | a finder over rows none of which match returns nothing |
| LinkRepository.WeightFilters | src/main/java/io/ironhawk/zappa/module/notemgmt/repository/NoteLinkRepository.java:33-36 | a row is in the weight range exactly when it is in the at-least query and its weight does not exceed the maximum; a row with a null weight is in neither |
| LinkRepository.FindByTriple | src/main/java/io/ironhawk/zappa/module/notemgmt/repository/NoteLinkRepository.java:27-29 | the triple finder returns a row of the table with that source, target and type, and finds nothing only when no row has them |
| LinkRepository.FindByTripleUnique | src/main/java/io/ironhawk/zappa/module/notemgmt/repository/NoteLinkRepository.java:27-29 | under the table's unique key the triple finder returns the one row with that triple |
| LinkRepository.LinkTypeStatistics | src/main/java/io/ironhawk/zappa/module/notemgmt/repository/NoteLinkRepository.java:112-113 | the statistics hold exactly the types used by some link, each with the positive number of links of that type |
| LinkRepository.DegreePositive | src/main/java/io/ironhawk/zappa/module/notemgmt/repository/NoteLinkRepository.java:119-129 | a note appears as a link endpoint exactly when its summed in- and out-count is positive |
| LinkRepository.MostConnectedSpec | src/main/java/io/ironhawk/zappa/module/notemgmt/repository/NoteLinkRepository.java:119-129 | the intended ranking of the query (the statement as written is refused, see Findings): at most limit distinct notes, each with a link, in descending order of link count; a note with links is left out only when the list is full of notes with at least its count |
| LinkRepository.MostConnectedQuery | src/main/java/io/ironhawk/zappa/module/notemgmt/repository/NoteLinkRepository.java:119-129 | the statement is refused exactly when a plain selected column is not a GROUP BY column; otherwise it gives the degree ranking |
| LinkRepository.MostConnectedAsWritten | src/main/java/io/ironhawk/zappa/module/notemgmt/repository/NoteLinkRepository.java:119-129 | the query as written, selecting the ungrouped link_count, is refused on every input |
| LinkRepository.MostConnectedIntended | src/main/java/io/ironhawk/zappa/module/notemgmt/repository/NoteLinkRepository.java:119-129 | with SUM(link_count) selected the query succeeds and gives the ranking MostConnectedSpec describes |
| LinkRepository.OrphanedIffNoLinks | src/main/java/io/ironhawk/zappa/module/notemgmt/repository/NoteLinkRepository.java:131-140 | a note is orphaned exactly when it exists and no link has it as source or target |
| LinkRepository.LinkSetsOf | src/main/java/io/ironhawk/zappa/module/notemgmt/repository/NoteLinkRepository.java:43-48 | a note's outgoing links are the rows with it as source and its incoming links the rows with it as target |
| LinkRepository.EntityOrphanAgrees | src/main/java/io/ironhawk/zappa/module/notemgmt/repository/NoteLinkRepository.java:131-140 | the entity's own isOrphaned agrees with the orphan query for every stored note |
| LinkRepository.GroupScopes | src/main/java/io/ironhawk/zappa/module/notemgmt/repository/NoteLinkRepository.java:165-174 | every link inside a group is also inside that group with its direct sub-groups |
| LinkRepository.GrandchildExcluded | src/main/java/io/ironhawk/zappa/module/notemgmt/repository/NoteLinkRepository.java:169-174 | a link whose source note sits in a grandchild group is not inside the group with its sub-groups: only one level of nesting is taken in |
| LinkRepository.ConnectedInGroupHasLink | src/main/java/io/ironhawk/zappa/module/notemgmt/repository/NoteLinkRepository.java:177-180 | a note is connected within a group exactly when it is in the group and some link joins it to a note of the group, possibly itself |
| LinkRepository.DeleteAllLinksForNote | src/main/java/io/ironhawk/zappa/module/notemgmt/repository/NoteLinkRepository.java:143-145 | the table keeps, in order, exactly the rows that do not involve the note, so none is left for it |
| LinkRepository.DeleteAllLinksBetween | src/main/java/io/ironhawk/zappa/module/notemgmt/repository/NoteLinkRepository.java:147-149 | the table keeps exactly the rows not going from the first note to the second; links in the opposite direction stay |
| LinkRepository.SubsequenceKeepsKeys | src/main/java/io/ironhawk/zappa/module/notemgmt/repository/NoteLinkRepository.java:143-149 | deleting rows keeps the ids unique, the unique key satisfied and every id below the next free id |
| LinkService.CreateLinkError | src/main/java/io/ironhawk/zappa/module/notemgmt/service/impl/NoteLinkServiceImpl.java:82-97 | createLink is refused exactly when the source or target note is missing, the same source, target and type are already linked, or the link would point to its own source |
| LinkService.CreateLinkErrorOrder | src/main/java/io/ironhawk/zappa/module/notemgmt/service/impl/NoteLinkServiceImpl.java:82-97 | the checks run in the service's order: a missing source is reported first, then a missing target; a self-link is refused; an existing triple is reported as already existing |
| LinkService.AppendKeepsKeys | src/main/java/io/ironhawk/zappa/module/notemgmt/service/impl/NoteLinkServiceImpl.java:106 | saving a fresh link with a new triple keeps ids unique, the unique key satisfied and ids below the next free id |
| LinkService.RemoveKeepsKeys | src/main/java/io/ironhawk/zappa/module/notemgmt/service/impl/NoteLinkServiceImpl.java:56-62 | deleting one row keeps the ids unique, the unique key satisfied and ids below the next free id |
| LinkService.ReplaceKeepsKeys | src/main/java/io/ironhawk/zappa/module/notemgmt/service/impl/NoteLinkServiceImpl.java:46-51 | replacing a row by one with the same id and a triple no other row has keeps the table's keys |
| LinkService.CreateLink | src/main/java/io/ironhawk/zappa/module/notemgmt/service/impl/NoteLinkServiceImpl.java:78-106 | on a refusal the table is unchanged and the error is the first failing check; otherwise one builder link with the given weight, not bidirectional, is appended under the next id |
| LinkService.CreateDefaultLink | src/main/java/io/ironhawk/zappa/module/notemgmt/service/impl/NoteLinkServiceImpl.java:72-73 | the three-argument createLink is the four-argument one with weight 1, that is, the builder's default link |
| LinkService.SaveLink | src/main/java/io/ironhawk/zappa/module/notemgmt/service/impl/NoteLinkServiceImpl.java:29-35 | saving refuses only a link whose triple is already stored, and otherwise appends the link as given |
| LinkService.IndexOfId | src/main/java/io/ironhawk/zappa/module/notemgmt/service/impl/NoteLinkServiceImpl.java:48 | the position found holds the id, and none is found exactly when no row has it |
| LinkService.IndexOfTriple | src/main/java/io/ironhawk/zappa/module/notemgmt/service/impl/NoteLinkServiceImpl.java:114-116 | the position found holds the triple, and none is found exactly when no row has it |
| LinkService.UpdateLink | src/main/java/io/ironhawk/zappa/module/notemgmt/service/impl/NoteLinkServiceImpl.java:46-51 | the update succeeds exactly when a row has that id and no other row holds the new (source, target, type) triple; it then replaces that row by the given link, and a refusal changes nothing |
| LinkService.DeleteLinkById | src/main/java/io/ironhawk/zappa/module/notemgmt/service/impl/NoteLinkServiceImpl.java:56-62 | deleting is refused exactly when no row has the id; otherwise one row with that id is removed, and afterwards no row has it |
| LinkService.DeleteLinkByTriple | src/main/java/io/ironhawk/zappa/module/notemgmt/service/impl/NoteLinkServiceImpl.java:111-120 | deleting is refused exactly when no row has the triple; otherwise one such row is removed, and afterwards none is left |
| LinkService.ExistsTripleAppend | src/main/java/io/ironhawk/zappa/module/notemgmt/service/impl/NoteLinkServiceImpl.java:90 | after appending a row a triple exists exactly when it existed before or the new row has it |
| LinkService.IdsBelowGrow | src/main/java/io/ironhawk/zappa/module/notemgmt/service/impl/NoteLinkServiceImpl.java:106 | ids below one bound are below every larger bound |
| LinkService.SetBidirectional | src/main/java/io/ironhawk/zappa/module/notemgmt/service/impl/NoteLinkServiceImpl.java:227-230 | only the chosen row changes, and only its bidirectional flag, which becomes set |
| LinkService.AddReverseLink | src/main/java/io/ironhawk/zappa/module/notemgmt/service/impl/NoteLinkServiceImpl.java:219-222 | the reverse link of the inverse type is created exactly when no such link is stored yet; a refusal rolls the table back to before the forward link |
| LinkService.FlagForwardLink | src/main/java/io/ironhawk/zappa/module/notemgmt/service/impl/NoteLinkServiceImpl.java:223-230 | the forward link, found again by its triple, is flagged bidirectional and the rest of the table stays as it was |
| LinkService.CreateBidirectionalLink | src/main/java/io/ironhawk/zappa/module/notemgmt/service/impl/NoteLinkServiceImpl.java:212-232 | it succeeds exactly when both creations the type calls for succeed; a type with a different inverse gets the link and the reverse link of the inverse type, a self-inverse type gets one link flagged bidirectional; a refusal changes nothing |
| Tags.Of | src/main/java/io/ironhawk/zappa/module/notemgmt/entity/Tag.java:45-49 | a tag made from a name has no color, no group and is not a key tag |
| Tags.WithColor | src/main/java/io/ironhawk/zappa/module/notemgmt/entity/Tag.java:58-63 | withColor is of with the color set |
| TagRepository.FindIgnoreCase | src/main/java/io/ironhawk/zappa/module/notemgmt/repository/TagRepository.java:29 | nothing is found exactly when the user has no tag of that name ignoring case; a tag found is the only such tag; several such tags give the error IncorrectResultSize |
| SingleResult.Unique | src/main/java/io/ironhawk/zappa/module/notemgmt/repository/TagRepository.java:29 | no rows give an empty result, one row gives that row, and two or more distinct rows give the error IncorrectResultSize |
| TagRepository.GroupOrGlobalTags | src/main/java/io/ironhawk/zappa/module/notemgmt/repository/TagRepository.java:82-83 | the tags of a group or global are the user's tags in that group together with the user's global tags |
| TagRepository.AvailableForHierarchyIff | src/main/java/io/ironhawk/zappa/module/notemgmt/repository/TagRepository.java:86-88 | a tag is available for a group hierarchy exactly when it is global or belongs to one of the groups of the hierarchy |
| TagRepository.ScopedChecksNest | src/main/java/io/ironhawk/zappa/module/notemgmt/repository/TagRepository.java:91-99 | an exact-name match in a group or globally is also a case-insensitive one there, and that is also a case-insensitive match among all the user's tags |
| TagRepository.NullScopeIsGlobal | src/main/java/io/ironhawk/zappa/module/notemgmt/repository/TagRepository.java:96-99 | with a null group the in-group-or-global check reduces to the global tags |
| TagRepository.FindIgnoreCaseInGroupOrGlobal | src/main/java/io/ironhawk/zappa/module/notemgmt/repository/TagRepository.java:101-103 | nothing is found exactly when the scoped existence check fails; a tag found is the only match in the group or globally; several matches give the error IncorrectResultSize |
| TagRepository.UnusedMeansNoRows | src/main/java/io/ironhawk/zappa/module/notemgmt/repository/TagRepository.java:53-54 | a tag is unused exactly when it is the user's and no note-tag row names it |
| TagRepository.MinUsageEdges | src/main/java/io/ironhawk/zappa/module/notemgmt/repository/TagRepository.java:62-63 | a threshold of zero or less keeps every tag of the user, and a threshold of one keeps exactly the used ones |
| TagRepository.UnusedInGroup | src/main/java/io/ironhawk/zappa/module/notemgmt/repository/TagRepository.java:106-107 | the unused tags of a group are the group's tags that are unused |
| TagRepository.UnusedGlobal | src/main/java/io/ironhawk/zappa/module/notemgmt/repository/TagRepository.java:110-111 | the unused global tags are the global tags that are unused |
| TagRepository.PopularSpec | src/main/java/io/ironhawk/zappa/module/notemgmt/repository/TagRepository.java:56-117 | the popular list holds every tag of the user once, in descending usage; the in-group list holds the group's and the global tags, in descending usage |
| TagRepository.TagsOfNote | src/main/java/io/ironhawk/zappa/module/notemgmt/repository/TagRepository.java:49-50 | a tag is among a note's tags exactly when a note-tag row joins them |
| TagService.Insert | src/main/java/io/ironhawk/zappa/module/notemgmt/service/impl/TagServiceImpl.java:44 | saving a tag stores it under a fresh id and leaves every other tag alone |
| TagService.AddedTagIsOnlyMatch | src/main/java/io/ironhawk/zappa/module/notemgmt/service/impl/TagServiceImpl.java:256-281 | after a new tag is stored where no match existed, the scoped case-insensitive finder returns exactly it, with no error |
| TagService.AddedTagIsOnlyUserMatch | src/main/java/io/ironhawk/zappa/module/notemgmt/service/impl/TagServiceImpl.java:180-193 | after a new tag is stored where the user had no tag of that name, the user-wide case-insensitive finder returns exactly it, with no error |
| TagService.CreateTag | src/main/java/io/ironhawk/zappa/module/notemgmt/service/impl/TagServiceImpl.java:35-46 | createTag is refused, with nothing stored, exactly when the user already has a tag of that name ignoring case; otherwise the tag is stored for the user under a fresh id |
| TagService.UpdateTag | src/main/java/io/ironhawk/zappa/module/notemgmt/service/impl/TagServiceImpl.java:57-75 | an unknown id is refused; the update succeeds exactly when the id is stored and the user's tags of that name ignoring case are none or only this one (several make the finder fail); the tag is then replaced, owned by the user, and a refusal changes nothing |
| TagService.DeleteTag | src/main/java/io/ironhawk/zappa/module/notemgmt/service/impl/TagServiceImpl.java:79-91 | an unknown id is refused with nothing changed; otherwise the tag and all its note-tag rows are deleted, so its usage becomes zero |
| TagService.GetOrCreateTag | src/main/java/io/ironhawk/zappa/module/notemgmt/service/impl/TagServiceImpl.java:180-193 | it fails, changing nothing, exactly when the user has several tags of that name ignoring case; otherwise the finder afterwards returns the id, an existing match leaves the table unchanged, and otherwise a new global tag with that name and color is stored |
| TagService.GetTagsForGroup | src/main/java/io/ironhawk/zappa/module/notemgmt/service/impl/TagServiceImpl.java:212-231 | a null group gives all the user's tags, a group the user does not own (unknown or another user's) only the global tags, and one of the user's groups the tags visible from it |
| TagService.VisibleTagsIff | src/main/java/io/ironhawk/zappa/module/notemgmt/service/impl/TagServiceImpl.java:212-231 | a tag is visible from a group exactly when it is global or belongs to a group on the chain from the group up to its root |
| TagService.ScopedTagVisibleBelow | src/main/java/io/ironhawk/zappa/module/notemgmt/service/impl/TagServiceImpl.java:212-231 | a tag of a parent group is visible from the child group without being global |
| TagService.GroupSpecificTags | src/main/java/io/ironhawk/zappa/module/notemgmt/service/impl/TagServiceImpl.java:234-245 | a null group gives the global tags, a group the user does not own none, and one of the user's groups exactly the user's tags in it |
| TagService.CreateTagInGroup | src/main/java/io/ironhawk/zappa/module/notemgmt/service/impl/TagServiceImpl.java:256-281 | a group the user does not own is refused; the tag is stored exactly when the group is the user's and no case-insensitive match exists in it or globally, or, for a null group, among all the user's tags; a refusal stores nothing |
| TagService.CreateGlobalTag | src/main/java/io/ironhawk/zappa/module/notemgmt/service/impl/TagServiceImpl.java:285-289 | the group used is the one getDefaultGroup yields from the old tables; two Default roots make it fail, no group (groups but no root) fails with an illegal state, and otherwise it succeeds exactly when no match exists in that group or globally; a success stores the tag scoped to that group and keeps a new Default group, a failure changes nothing |
| TagService.GetOrCreateGlobalTag | src/main/java/io/ironhawk/zappa/module/notemgmt/service/impl/TagServiceImpl.java:319-334 | the scope is the group getDefaultGroup yields from the old tables, or the global tags alone when there is none; it fails, changing nothing, exactly when that choice fails or the scope holds several matches; otherwise the scoped finder returns the result, an existing match changes no tag, and a new tag carries the name, color and scope |
| TagService.GetOrCreateInScope | src/main/java/io/ironhawk/zappa/module/notemgmt/service/impl/TagServiceImpl.java:293-315 | it fails, changing nothing, exactly when the scope holds several matches; otherwise the scoped finder afterwards returns the id, an existing match changes nothing, and otherwise a new tag of that scope is stored |
| TagService.GetOrCreateTagInGroup | src/main/java/io/ironhawk/zappa/module/notemgmt/service/impl/TagServiceImpl.java:293-315 | for one of the user's groups the groups are unchanged, it fails exactly when the scoped finder fails, the scoped finder returns the result, an existing match leaves the tags unchanged, and otherwise the new tag has the name, colour, owner and that group; for any other group it behaves as getOrCreateGlobalTag, in the scope getDefaultGroup chooses; a failure changes nothing |
| TagService.TagExistsInGroup | src/main/java/io/ironhawk/zappa/module/notemgmt/service/impl/TagServiceImpl.java:337-347 | a null group asks among all the user's tags, a group the user does not own gives false, and one of the user's groups asks in that group or globally |
| TagService.CreateRefusesExisting | src/main/java/io/ironhawk/zappa/module/notemgmt/service/impl/TagServiceImpl.java:337-347 | for a null group or one of the user's groups, a tag that exists in the group or globally exists among the user's tags |
| TagService.FindTagByNameInGroup | src/main/java/io/ironhawk/zappa/module/notemgmt/service/impl/TagServiceImpl.java:350-359 | nothing is found exactly when the existence check fails, so a group the user does not own finds nothing; a tag found is the user's, matches the name and is in the group or global; an error means several matches exist |
| TagService.PopularTagsInGroup | src/main/java/io/ironhawk/zappa/module/notemgmt/service/impl/TagServiceImpl.java:362-378 | a group the user does not own gives nothing, a null group the user's tags and one of the user's groups its tags and the global ones |
| TagService.UnusedTagsInGroup | src/main/java/io/ironhawk/zappa/module/notemgmt/service/impl/TagServiceImpl.java:381-392 | only unused tags: for a null group the global ones, for a group the user does not own none, for one of the user's groups those of the group |
| TagService.DeleteUnusedTags | src/main/java/io/ironhawk/zappa/module/notemgmt/service/impl/TagServiceImpl.java:197-205 | exactly the user's unused tags are deleted, and no note-tag row is left pointing at a deleted tag |
| TagService.DeleteUnusedTagsInGroup | src/main/java/io/ironhawk/zappa/module/notemgmt/service/impl/TagServiceImpl.java:396-402 | exactly the unused tags of the scope are deleted |
| TagService.MoveTagToGroup | src/main/java/io/ironhawk/zappa/module/notemgmt/service/impl/TagServiceImpl.java:406-421 | the move succeeds exactly for the user's tag and a null group or one of the user's groups, and only the tag's group changes; a refusal changes nothing |
| TagService.MakeTagGlobal | src/main/java/io/ironhawk/zappa/module/notemgmt/service/impl/TagServiceImpl.java:425-429 | the group used is the one getDefaultGroup yields from the old tables; two Default roots make it fail, no group (groups but no root) fails with an illegal state, and otherwise it succeeds exactly for the user's tag; a success sets only the tag's group to that group and keeps a new Default group, a failure changes nothing |
| NoteTagRepository.Rows | src/main/java/io/ironhawk/zappa/module/notemgmt/repository/NoteTagRepository.java:19-25 | a finder keeps exactly the matching rows and never more than the table holds |
| NoteTagRepository.RowsAppend | src/main/java/io/ironhawk/zappa/module/notemgmt/repository/NoteTagRepository.java:19-25 | filtering two parts of the table and joining is filtering the whole |
| NoteTagRepository.RowsKeepDistinct | src/main/java/io/ironhawk/zappa/module/notemgmt/repository/NoteTagRepository.java:16 | filtering keeps the composite key unique |
| NoteTagRepository.RowsAll | src/main/java/io/ironhawk/zappa/module/notemgmt/repository/NoteTagRepository.java:19-25 | a filter every row passes keeps the table |
| NoteTagRepository.RowsNone | src/main/java/io/ironhawk/zappa/module/notemgmt/repository/NoteTagRepository.java:19-25 | a filter no row passes keeps nothing |
| NoteTagRepository.CountsZero | src/main/java/io/ironhawk/zappa/module/notemgmt/repository/NoteTagRepository.java:45-49 | a note's count is zero exactly when no row names the note, and likewise for a tag |
| NoteTagRepository.DeletesExact | src/main/java/io/ironhawk/zappa/module/notemgmt/repository/NoteTagRepository.java:30-43 | each delete removes exactly the rows it names, and afterwards none of them is left |
| NoteTagRepository.WithoutNoteKeepsOthers | src/main/java/io/ironhawk/zappa/module/notemgmt/repository/NoteTagRepository.java:30-33 | deleting a note's rows leaves every other note's rows as they were |
| NoteTagRepository.WithoutTagKeepsOthers | src/main/java/io/ironhawk/zappa/module/notemgmt/repository/NoteTagRepository.java:35-38 | deleting a tag's rows leaves every other tag's rows as they were |
| NoteTagRepository.TagsAmongBound | src/main/java/io/ironhawk/zappa/module/notemgmt/repository/NoteTagRepository.java:51-54 | the number of distinct requested tags a note carries is at most the number of distinct ids; reaching the list's length means the note carries all of them |
| NoteTagRepository.AllTagsMeansEvery | src/main/java/io/ironhawk/zappa/module/notemgmt/repository/NoteTagRepository.java:51-54 | for a non-empty list of distinct ids, a note matches exactly when it carries every one |
| NoteTagRepository.DuplicateIdsMatchNothing | src/main/java/io/ironhawk/zappa/module/notemgmt/repository/NoteTagRepository.java:51-54 | a list holding an id twice matches no note, since the distinct count can never reach the list's length |
| NoteTagRepository.CoOccurring | src/main/java/io/ironhawk/zappa/module/notemgmt/repository/NoteTagRepository.java:56-59 | a tag never co-occurs with itself |
| NoteTagRepository.CoOccurringSymmetric | src/main/java/io/ironhawk/zappa/module/notemgmt/repository/NoteTagRepository.java:56-59 | one tag co-occurs with another exactly when the other co-occurs with it |
| NoteTagService.AppendKeepsDistinct | src/main/java/io/ironhawk/zappa/module/notemgmt/service/impl/NoteTagServiceImpl.java:45 | adding a row that is not stored keeps the rows distinct |
| NoteTagService.CreateNoteTagRelationship | src/main/java/io/ironhawk/zappa/module/notemgmt/service/impl/NoteTagServiceImpl.java:31-48 | an unknown note is refused first; the row is added exactly when the note and tag exist and are not yet joined, and a refusal leaves the rows unchanged |
| NoteTagService.PairStoredOnce | src/main/java/io/ironhawk/zappa/module/notemgmt/service/impl/NoteTagServiceImpl.java:31-48 | a stored pair is stored exactly once |
| NoteTagService.DeleteNoteTagRelationship | src/main/java/io/ironhawk/zappa/module/notemgmt/service/impl/NoteTagServiceImpl.java:52-60 | deleting is refused exactly when the pair is not joined; afterwards it is not |
| NoteTagService.AddedSpec | src/main/java/io/ironhawk/zappa/module/notemgmt/service/impl/NoteTagServiceImpl.java:70-97 | the rows added are new, for the note and for requested tags, distinct, and afterwards every requested tag is attached |
| NoteTagService.AddedNothing | src/main/java/io/ironhawk/zappa/module/notemgmt/service/impl/NoteTagServiceImpl.java:84-90 | when every requested tag is attached nothing is added |
| NoteTagService.AddTagsIdempotent | src/main/java/io/ironhawk/zappa/module/notemgmt/service/impl/NoteTagServiceImpl.java:70-97 | adding the same tags a second time adds nothing |
| NoteTagService.AddedPrefix | src/main/java/io/ironhawk/zappa/module/notemgmt/service/impl/NoteTagServiceImpl.java:84-90 | an unattached first tag is added first, and the rest is decided against the rows including it |
| NoteTagService.AddTagsToNote | src/main/java/io/ironhawk/zappa/module/notemgmt/service/impl/NoteTagServiceImpl.java:70-97 | it succeeds exactly when the note and every requested tag exist; the rows gain exactly the missing pairs, in request order |
| NoteTagService.RemoveAllTagsFromNote | src/main/java/io/ironhawk/zappa/module/notemgmt/service/impl/NoteTagServiceImpl.java:101-112 | an unknown note is refused; otherwise every row of the note is deleted and every other note keeps its rows |
| NoteTagService.RemoveTagFromAllNotes | src/main/java/io/ironhawk/zappa/module/notemgmt/service/impl/NoteTagServiceImpl.java:116-127 | an unknown tag is refused; otherwise every row of the tag is deleted and every other tag keeps its rows |
| NoteTagService.FindNoteIdsWithAllTags | src/main/java/io/ironhawk/zappa/module/notemgmt/service/impl/NoteTagServiceImpl.java:142-150 | an empty list matches nothing, and every match carries all the requested tags |
| NoteTagService.FindNoteIdsWithAllTagsSpec | src/main/java/io/ironhawk/zappa/module/notemgmt/service/impl/NoteTagServiceImpl.java:142-150 | for distinct ids the matches are exactly the notes carrying all of them; duplicated ids match nothing |
| NoteTagService.RemoveHead | src/main/java/io/ironhawk/zappa/module/notemgmt/service/impl/NoteTagServiceImpl.java:172-191 | removing one row that occurs once leaves the rows before and after it |
| NoteTagService.KeptGrows | src/main/java/io/ironhawk/zappa/module/notemgmt/service/impl/NoteTagServiceImpl.java:172-191 | the kept rows of a longer prefix add the next row when it is kept |
| NoteTagService.OnlyAt | src/main/java/io/ironhawk/zappa/module/notemgmt/service/impl/NoteTagServiceImpl.java:172-191 | in distinct rows a row occurs only at its own position |
| NoteTagService.CleanupKeepStep | src/main/java/io/ironhawk/zappa/module/notemgmt/service/impl/NoteTagServiceImpl.java:180-187 | a row whose note and tag both exist stays, and the table is the kept prefix followed by the rows not yet visited |
| NoteTagService.CleanupDropStep | src/main/java/io/ironhawk/zappa/module/notemgmt/service/impl/NoteTagServiceImpl.java:180-187 | deleting an orphaned row removes exactly that row: the table is again the kept prefix followed by the rows not yet visited |
| NoteTagService.CleanupOrphanedRelationships | src/main/java/io/ironhawk/zappa/module/notemgmt/service/impl/NoteTagServiceImpl.java:172-191 | the rows kept, in order, are exactly those whose note and tag both still exist |
| Groups.Of | src/main/java/io/ironhawk/zappa/module/notemgmt/entity/Group.java:70-76 | a group made from a name and description has the default grey colour, no icon, no parent and sort order 0 |
| Groups.OfStyled | src/main/java/io/ironhawk/zappa/module/notemgmt/entity/Group.java:78-85 | the four-argument of is the two-argument one with the given colour and icon |
| Groups.WithParent | src/main/java/io/ironhawk/zappa/module/notemgmt/entity/Group.java:87-95 | withParent is of with the parent set |
| Groups.TotalWithin | src/main/java/io/ironhawk/zappa/module/notemgmt/entity/Group.java:109-115 | a group's total is at least its own note count |
| Groups.TotalNoteCount | src/main/java/io/ironhawk/zappa/module/notemgmt/entity/Group.java:109-115 | a group's total note count is at least its own note count |
| Groups.LeafTotal | src/main/java/io/ironhawk/zappa/module/notemgmt/entity/Group.java:101-115 | a group without subgroups counts exactly its own notes |
| Groups.ComputeTotalWithin | src/main/java/io/ironhawk/zappa/module/notemgmt/entity/Group.java:109-115 | the loop that adds each subgroup's total to the own count computes the recursive total |
| Groups.SumChildTotals | src/main/java/io/ironhawk/zappa/module/notemgmt/entity/Group.java:111-113 | the loop over the subgroups sums exactly their recursive totals |
| Groups.ComputeTotalNoteCount | src/main/java/io/ironhawk/zappa/module/notemgmt/entity/Group.java:109-115 | the loop computes getTotalNoteCount, which is at least the own note count |
| Groups.ChainSound | src/main/java/io/ironhawk/zappa/module/notemgmt/entity/Group.java:117-122 | a chain found by walking up the parents runs from a root down to the group through parent links, within the step bound |
| Groups.ChainComplete | src/main/java/io/ironhawk/zappa/module/notemgmt/entity/Group.java:117-122 | every parent chain from a root ending in a group is the one the walk finds |
| Groups.ChainNoRepeat | src/main/java/io/ironhawk/zappa/module/notemgmt/entity/Group.java:117-122 | no group occurs twice on a parent chain |
| Groups.DistinctBound | src/main/java/io/ironhawk/zappa/module/notemgmt/entity/Group.java:117-122 | a repetition-free chain of known groups is no longer than the table |
| Groups.ChainTerminates | src/main/java/io/ironhawk/zappa/module/notemgmt/entity/Group.java:117-122 | every parent chain from a root is found by the walk from its last group |
| Groups.ChainShape | src/main/java/io/ironhawk/zappa/module/notemgmt/entity/Group.java:117-122 | the chain of a group whose parents end at a root runs from that root down to the group |
| Groups.Names | src/main/java/io/ironhawk/zappa/module/notemgmt/entity/Group.java:117-122 | the list of names has one entry per chain group, each being that group's name |
| Groups.FullNameIsJoinedChain | src/main/java/io/ironhawk/zappa/module/notemgmt/entity/Group.java:117-122 | getFullName is the names of the chain from the root joined by " > ", and a root's full name is its own name |
| Groups.DisplayStyleIsNearest | src/main/java/io/ironhawk/zappa/module/notemgmt/entity/Group.java:124-142 | the display colour or icon is that of the nearest group up the chain that has a non-empty one, or the default when none has |
| Groups.Reparent | src/main/java/io/ironhawk/zappa/module/notemgmt/service/impl/GroupServiceImpl.java:165-166 | moving a group changes only its parent and keeps the set of groups |
| Groups.ChainKept | src/main/java/io/ironhawk/zappa/module/notemgmt/service/impl/GroupServiceImpl.java:148-167 | a chain stays a chain when its groups keep their parents |
| Groups.MoveKeepsAcyclic | src/main/java/io/ironhawk/zappa/module/notemgmt/service/impl/GroupServiceImpl.java:148-167 | moving a group under a parent that is not the group or below it keeps every parent chain finite |
| Groups.MovedChain | src/main/java/io/ironhawk/zappa/module/notemgmt/service/impl/GroupServiceImpl.java:148-167 | after such a move, a chain that went through the moved group still ends at a root |
| Groups.OwnParentIsCycle | src/main/java/io/ironhawk/zappa/module/notemgmt/service/impl/GroupServiceImpl.java:148-167 | a group made its own parent has no finite parent chain |
| Groups.UnderOwnSubtreeIsCycle | src/main/java/io/ironhawk/zappa/module/notemgmt/service/impl/GroupServiceImpl.java:148-167 | making a group the child of itself or of any group below it leaves the group without a finite parent chain |
| Groups.ChainFromParentsOnly | src/main/java/io/ironhawk/zappa/module/notemgmt/service/impl/GroupServiceImpl.java:195-212 | the walk up the parent pointers depends only on which groups are stored and their parents |
| Groups.AcyclicParentsOnly | src/main/java/io/ironhawk/zappa/module/notemgmt/service/impl/GroupServiceImpl.java:50-65 | two tables with the same groups and the same parents are acyclic together or not at all |
| GroupService.FindByUserAndName | src/main/java/io/ironhawk/zappa/module/notemgmt/repository/GroupRepository.java:22 | nothing is found exactly when the user has no group of that exact name; a group found is the only such group; several such groups give the error IncorrectResultSize |
| GroupService.BeforeTransitive | src/main/java/io/ironhawk/zappa/module/notemgmt/repository/GroupRepository.java:26 | the sort-order-then-name order of the root-group finder is transitive |
| GroupService.NotBeforeStep | src/main/java/io/ironhawk/zappa/module/notemgmt/repository/GroupRepository.java:26 | a group not before the third is not before anything before the third |
| GroupService.FirstInOrder | src/main/java/io/ironhawk/zappa/module/notemgmt/repository/GroupRepository.java:26 | the first group of a list by sort order then name is in the list and nothing in the list comes before it |
| GroupService.UserRoots | src/main/java/io/ironhawk/zappa/module/notemgmt/repository/GroupRepository.java:26 | a group is listed exactly when it is a root group owned by the user |
| GroupService.FirstRoot | src/main/java/io/ironhawk/zappa/module/notemgmt/service/impl/GroupServiceImpl.java:228-232 | the head of the root-group list is a root of the user and no root of the user comes before it; there is none exactly when the user has no roots |
| GroupService.FindDefaultGroup | src/main/java/io/ironhawk/zappa/module/notemgmt/service/impl/GroupServiceImpl.java:257-263 | nothing is found exactly when the user has no root named "Default" ignoring case; a group found is the only such root; several such roots give the error IncorrectResultSize |
| GroupService.DefaultGroup | src/main/java/io/ironhawk/zappa/module/notemgmt/service/impl/GroupServiceImpl.java:234-242 | the default group is the user's root named Default, grey, with the sticky-note icon and sort order 0 |
| GroupService.GetGroupHierarchy | src/main/java/io/ironhawk/zappa/module/notemgmt/service/impl/GroupServiceImpl.java:195-212 | an unknown group gives the empty list; otherwise the loop builds the chain from the root down to the group |
| GroupService.IsDescendantOf | src/main/java/io/ironhawk/zappa/module/notemgmt/service/impl/GroupServiceImpl.java:266-275 | the loop reports exactly whether the second group is a strict ancestor of the first, starting from its parent |
| GroupService.NotOwnAncestor | src/main/java/io/ironhawk/zappa/module/notemgmt/service/impl/GroupServiceImpl.java:266-275 | a group with a finite parent chain is not its own strict ancestor |
| GroupService.ChainAfterMove | src/main/java/io/ironhawk/zappa/module/notemgmt/service/impl/GroupServiceImpl.java:148-167 | after a permitted move under a parent, the moved group's chain is the parent's chain followed by the group |
| GroupService.ChainAfterMoveToRoot | src/main/java/io/ironhawk/zappa/module/notemgmt/service/impl/GroupServiceImpl.java:148-167 | after a move to the top, the moved group's chain is the group alone |
| GroupService.Insert | src/main/java/io/ironhawk/zappa/module/notemgmt/service/impl/GroupServiceImpl.java:38 | saving a group stores it under a fresh id and leaves every other group alone |
| GroupService.CreateGroup | src/main/java/io/ironhawk/zappa/module/notemgmt/service/impl/GroupServiceImpl.java:29-39 | the service refuses creation, with nothing stored, exactly when the user already has a group of that name; otherwise the group is stored for the user under a fresh id |
| GroupService.UpdateGroup | src/main/java/io/ironhawk/zappa/module/notemgmt/service/impl/GroupServiceImpl.java:50-65 | the store stays valid; an unknown id is refused; the update succeeds exactly when the id is stored and the user's groups of that name are none or only this one; it then replaces the group, and the tree stays acyclic exactly when the new parent is none or outside the group's subtree |
| GroupService.UpdateKeepsAcyclicIff | src/main/java/io/ironhawk/zappa/module/notemgmt/service/impl/GroupServiceImpl.java:50-65 | on an acyclic table, replacing a group whole keeps it acyclic exactly when the new parent is none or outside the group's own subtree |
| GroupService.CanDeleteGroupMeans | src/main/java/io/ironhawk/zappa/module/notemgmt/service/impl/GroupServiceImpl.java:170-178 | an unknown group cannot be deleted, and a deletable group holds no note and has no subgroup |
| GroupService.DeleteGroup | src/main/java/io/ironhawk/zappa/module/notemgmt/service/impl/GroupServiceImpl.java:69-77 | deletion succeeds exactly when canDeleteGroup holds and then removes only that group; otherwise an illegal-state error and nothing changes |
| GroupService.GetOrCreateGroup | src/main/java/io/ironhawk/zappa/module/notemgmt/service/impl/GroupServiceImpl.java:122-132 | it fails, changing nothing, exactly when the user has several groups of that name; otherwise the finder afterwards returns the id, an existing group changes nothing, and otherwise a new group made by of is stored for the user |
| GroupService.CreateSubGroup | src/main/java/io/ironhawk/zappa/module/notemgmt/service/impl/GroupServiceImpl.java:136-144 | an unknown parent is refused; otherwise the group made by withParent, which has no owner, is stored under a fresh id |
| GroupService.MoveGroup | src/main/java/io/ironhawk/zappa/module/notemgmt/service/impl/GroupServiceImpl.java:148-167 | the move, as written, is accepted exactly when the group and the new parent exist and the group is not a strict ancestor of the new parent, and it then changes only the group's parent |
| GroupService.MoveGroupChecked | src/main/java/io/ironhawk/zappa/module/notemgmt/service/impl/GroupServiceImpl.java:148-167 | the move with the cycle check that includes the new parent itself is accepted exactly when it creates no cycle, and keeps the table free of cycles |
| GroupService.MoveUnderItselfAccepted | src/main/java/io/ironhawk/zappa/module/notemgmt/service/impl/GroupServiceImpl.java:266-275 | the check as written does not find a group among its own strict ancestors, although making a group its own parent creates a cycle |
| GroupService.CreateDefaultGroup | src/main/java/io/ironhawk/zappa/module/notemgmt/service/impl/GroupServiceImpl.java:223-245 | a user with groups gets the first root group back with nothing stored; a user without groups gets a new default group under the next id |
| GroupService.GetDefaultGroup | src/main/java/io/ironhawk/zappa/module/notemgmt/service/impl/GroupServiceImpl.java:248-254 | the result is DefaultChoice of the old tables; only a user without groups gets a new default group stored; a returned group is a root of the user |
| GroupService.DefaultChoice | src/main/java/io/ironhawk/zappa/module/notemgmt/service/impl/GroupServiceImpl.java:223-263 | the choice fails exactly when the user has two roots named Default; it is empty exactly when the user has groups but no root; a user without groups gets the new group; otherwise a chosen group is a root of the user |
| NoteRepository.TagNamesOfIff | src/main/java/io/ironhawk/zappa/module/notemgmt/repository/NoteRepository.java:35-40 | a name is among a note's tag names exactly when a note-tag row joins the note to a stored tag of that name |
| NoteRepository.ByAllTagsSpec | src/main/java/io/ironhawk/zappa/module/notemgmt/repository/NoteRepository.java:57-61 | for distinct names a note matches exactly when it carries a tag of every name; repeated names match nothing; with names given, a note matching all of them matches any of them |
| NoteRepository.ByAllTagsEmptyList | src/main/java/io/ironhawk/zappa/module/notemgmt/repository/NoteRepository.java:57-61 | with no names and a count of zero the query matches every note |
| NoteRepository.ByGroupAndSubGroupsDepth | src/main/java/io/ironhawk/zappa/module/notemgmt/repository/NoteRepository.java:84-86 | a note in the group or in a direct subgroup is found, and a note in a deeper group is not |
| NoteRepository.Search | src/main/java/io/ironhawk/zappa/module/notemgmt/repository/NoteRepository.java:47-50 | search finds exactly the user's notes whose title or content contains the term ignoring case |
| NoteRepository.SearchEmptyTerm | src/main/java/io/ironhawk/zappa/module/notemgmt/repository/NoteRepository.java:47-50 | the empty term matches every one of the user's notes |
| NoteRepository.UserNotesNewestFirstSpec | src/main/java/io/ironhawk/zappa/module/notemgmt/repository/NoteRepository.java:21 | the list holds each of the user's notes once, newest first |
| NoteService.FallbackGroupSpec | src/main/java/io/ironhawk/zappa/module/notemgmt/service/impl/NoteServiceImpl.java:53-59 | for a user with groups the fallback is empty exactly when no group is named exactly Default and no group is a root, and a group named Default, when the finder succeeds, is the one chosen |
| NoteService.FallbackGroup | src/main/java/io/ironhawk/zappa/module/notemgmt/service/impl/NoteServiceImpl.java:53-59 | the fallback fails exactly when the finder of the group named Default fails, and a group chosen is the user's |
| NoteService.CreateNote | src/main/java/io/ironhawk/zappa/module/notemgmt/service/impl/NoteServiceImpl.java:41-67 | it fails, changing nothing, exactly when a note without a group meets a user with groups whose fallback fails (several groups named Default) or is null (no group named Default and no root); otherwise the note is stored under a fresh id, owned by the user and stamped with the time, and always with a group: the given one, a new default group for a user without groups, or the fallback group |
| NoteService.UpdateNote | src/main/java/io/ironhawk/zappa/module/notemgmt/service/impl/NoteServiceImpl.java:78-98 | the update succeeds exactly for the user's own note and replaces it while keeping its creation time and attachments; otherwise nothing changes |
| NoteService.RemoveNoteRows | src/main/java/io/ironhawk/zappa/module/notemgmt/service/impl/NoteServiceImpl.java:111 | the note goes together with its note-tag rows, no row of the note remains, and the table constraints still hold |
| NoteService.DeleteNote | src/main/java/io/ironhawk/zappa/module/notemgmt/service/impl/NoteServiceImpl.java:102-112 | deletion succeeds exactly for the user's own note; it removes the note, its note-tag rows and every link involving it |
| NoteService.AddTagToNote | src/main/java/io/ironhawk/zappa/module/notemgmt/service/impl/NoteServiceImpl.java:158-177 | it succeeds exactly when the note and tag exist; the pair is added only when missing and is joined afterwards |
| NoteService.RemoveTagFromNote | src/main/java/io/ironhawk/zappa/module/notemgmt/service/impl/NoteServiceImpl.java:181-192 | an unknown note is refused; it succeeds exactly for the user's own note, and afterwards the pair is not joined |
| NoteService.FindNotesByAllTags | src/main/java/io/ironhawk/zappa/module/notemgmt/service/impl/NoteServiceImpl.java:216-222 | an empty list gives no notes, otherwise the all-tags query with the list's length as the count |
| NoteService.FindNotesByAnyTags | src/main/java/io/ironhawk/zappa/module/notemgmt/service/impl/NoteServiceImpl.java:225-232 | an empty list gives no notes; otherwise the user's notes carrying a tag of one of the names |
| NoteService.FindNotesByAnyTagsPaged | src/main/java/io/ironhawk/zappa/module/notemgmt/service/impl/NoteServiceImpl.java:244-250 | an empty list gives no notes; otherwise every note carrying a tag of one of the names, whoever owns it |
| NoteService.AllWithinAny | src/main/java/io/ironhawk/zappa/module/notemgmt/service/impl/NoteServiceImpl.java:216-250 | a note matching all names matches any of them, and the user's any-tags list is the paged one restricted to the user's notes |
| NoteService.AssignNoteToGroup | src/main/java/io/ironhawk/zappa/module/notemgmt/service/impl/NoteServiceImpl.java:294-305 | it succeeds exactly when the note and the group exist, and then changes only the note's group |
| NoteService.RemoveNoteFromGroup | src/main/java/io/ironhawk/zappa/module/notemgmt/service/impl/NoteServiceImpl.java:309-317 | it succeeds exactly when the note exists, and then clears only the note's group |
| GraphView.NodeSize | src/main/java/io/ironhawk/zappa/module/notemgmt/web/GraphWebController.java:76-77 | a node's size is 15 plus 8 per link, capped at 60, so it lies between 15 and 60 |
| GraphView.NodeSizeMonotone | src/main/java/io/ironhawk/zappa/module/notemgmt/web/GraphWebController.java:76-77 | more links never give a smaller node |
| GraphView.JavaDiv | src/main/java/io/ironhawk/zappa/module/notemgmt/web/GraphWebController.java:98 | Java's integer division truncates toward zero |
| GraphView.StrokeWidth | src/main/java/io/ironhawk/zappa/module/notemgmt/web/GraphWebController.java:98 | the stroke width is half the weight, truncated, and at least 1 |
| GraphView.StrokeWidthMonotone | src/main/java/io/ironhawk/zappa/module/notemgmt/web/GraphWebController.java:98 | a larger weight never gives a thinner stroke |
| GraphView.SourceColor | src/main/java/io/ironhawk/zappa/module/notemgmt/web/GraphWebController.java:197-207 | each known source has its colour, MANUAL being the default grey, and any other source gets teal; every colour is a seven-character hex code |
| GraphView.NodeOf | src/main/java/io/ironhawk/zappa/module/notemgmt/web/GraphWebController.java:65-80 | a node carries the note's id and title, the default colour and the note's link count, with a size between 15 and 60 |
| GraphView.Nodes | src/main/java/io/ironhawk/zappa/module/notemgmt/web/GraphWebController.java:64-83 | one node per filtered note, in order |
| GraphView.EdgeOf | src/main/java/io/ironhawk/zappa/module/notemgmt/web/GraphWebController.java:86-101 | an edge exists exactly for a link with a weight; the edge keeps the link's id and ends and has a stroke width of at least 1 |
| GraphView.Edges | src/main/java/io/ironhawk/zappa/module/notemgmt/web/GraphWebController.java:86-102 | the edge list exists exactly when every link has a weight, which the source unboxes; it has one edge per link, in order |
| GraphView.LinksForNotes | src/main/java/io/ironhawk/zappa/module/notemgmt/web/GraphWebController.java:259-271 | no notes give no links; otherwise exactly the links whose two ends are both among the notes |
| GraphView.LinksForNotesShrink | src/main/java/io/ironhawk/zappa/module/notemgmt/web/GraphWebController.java:259-271 | more notes never lose a link, and the filter works piece by piece over the link table |
| GraphView.CleanNames | src/main/java/io/ironhawk/zappa/module/notemgmt/web/GraphWebController.java:243 | trimming each piece and dropping the empty ones keeps exactly the non-empty trimmed pieces |
| GraphView.CleanNamesAppend | src/main/java/io/ironhawk/zappa/module/notemgmt/web/GraphWebController.java:243 | the cleaning works piece by piece |
| GraphView.TrimJavaInside | src/main/java/io/ironhawk/zappa/module/notemgmt/web/GraphWebController.java:243 | trimming adds no character |
| GraphView.ParsedNamesClean | src/main/java/io/ironhawk/zappa/module/notemgmt/web/GraphWebController.java:242-243 | a parsed tag name is non-empty, has no blank at either end and contains no comma |
| GraphView.UserNotes | src/main/java/io/ironhawk/zappa/module/notemgmt/web/GraphWebController.java:230-237 | the fallback list is exactly the user's notes |
| GraphView.ByGroupArg | src/main/java/io/ironhawk/zappa/module/notemgmt/web/GraphWebController.java:213-238 | a group the user owns gives its notes, with the direct subgroups when asked; a missing, malformed, unknown or another user's group gives all the user's notes |
| GraphView.FilteredNotes | src/main/java/io/ironhawk/zappa/module/notemgmt/web/GraphWebController.java:209-257 | without tag names the group filter decides; with names, "all" gives the notes with every tag and anything else the notes with any of them |
| GraphView.TagFilterReplacesGroup | src/main/java/io/ironhawk/zappa/module/notemgmt/web/GraphWebController.java:240-254 | a tag filter replaces the group filter: a note with every named tag is shown under "all" whatever group was chosen |
| FileStorage.ValidateFile | src/main/java/io/ironhawk/zappa/module/notemgmt/service/FileStorageService.java:168-186 | an upload is accepted exactly when it is non-empty, at most 50 MB and of an allowed type; an empty file is reported first, then a too-large one |
| FileStorage.AcceptedKinds | src/main/java/io/ironhawk/zappa/module/notemgmt/service/FileStorageService.java:35-46 | an accepted upload is a Word document, a PDF, an image, plain text or markdown |
| FileStorage.Sanitize | src/main/java/io/ironhawk/zappa/module/notemgmt/service/FileStorageService.java:203 | sanitizing keeps the length and replaces each character outside letters, digits, '.', '_' and '-' by '_' |
| FileStorage.SanitizeSafe | src/main/java/io/ironhawk/zappa/module/notemgmt/service/FileStorageService.java:203 | the sanitized name holds only safe characters, and sanitizing again changes nothing |
| FileStorage.SplitExtension | src/main/java/io/ironhawk/zappa/module/notemgmt/service/FileStorageService.java:195-201 | the stem and extension make up the name; a non-empty extension starts at the last dot, which is not the first character |
| FileStorage.UniqueFilename | src/main/java/io/ironhawk/zappa/module/notemgmt/service/FileStorageService.java:191-206 | the stored name is the timestamp, "_", the 8-character id, "_" and the sanitized stem, ending with the original extension |
| FileStorage.UniqueFilenameKeepsExtension | src/main/java/io/ironhawk/zappa/module/notemgmt/service/FileStorageService.java:191-206 | the stored name has the same file extension as the original |
| FileStorage.StoreFile | src/main/java/io/ironhawk/zappa/module/notemgmt/service/FileStorageService.java:74-112 | storing fails for an invalid upload and for a name containing ".."; otherwise the record keeps the original name, the unique stored name, the size and the content type |
| Markdown.RenderToHtml | src/main/java/io/ironhawk/zappa/module/notemgmt/service/impl/MarkdownServiceImpl.java:44-72 | a null or blank text renders as ""; the CommonMark path is taken only for non-URL text |
| Markdown.UrlRenderedAsLink | src/main/java/io/ironhawk/zappa/module/notemgmt/service/impl/MarkdownServiceImpl.java:52-60 | a URL renders as the link block, whose href and link text are the trimmed URL |
| Markdown.IsMarkdownMarkers | src/main/java/io/ironhawk/zappa/module/notemgmt/service/impl/MarkdownServiceImpl.java:75-90 | text counts as markdown exactly when it is not blank and contains one of the markers |
| Markdown.TwoReplacesEscape | src/main/java/io/ironhawk/zappa/module/notemgmt/service/impl/MarkdownServiceImpl.java:99-101 | the two replace calls together are the escape that doubles backslashes and escapes backticks |
| Markdown.EscapeSpec | src/main/java/io/ironhawk/zappa/module/notemgmt/service/impl/MarkdownServiceImpl.java:93-102 | unescaping the escaped text gives it back, and the escape adds one character per backslash and backtick |
| Markdown.PrepareForMarkdown | src/main/java/io/ironhawk/zappa/module/notemgmt/service/impl/MarkdownServiceImpl.java:93-102 | null gives ""; otherwise the result unescapes to the input and is longer by the number of backslashes and backticks |
| Markdown.DropWhileHash | src/main/java/io/ironhawk/zappa/module/notemgmt/service/impl/MarkdownServiceImpl.java:117 | dropping the leading '#' characters leaves a suffix that does not start with '#' |
| Markdown.DropSpaces | src/main/java/io/ironhawk/zappa/module/notemgmt/service/impl/MarkdownServiceImpl.java:117 | dropping the leading blanks leaves a suffix that does not start with a blank |
| Markdown.KeepAnchorChars | src/main/java/io/ironhawk/zappa/module/notemgmt/service/impl/MarkdownServiceImpl.java:119 | only lower-case letters, digits and blanks are kept |
| Markdown.DashesClean | src/main/java/io/ironhawk/zappa/module/notemgmt/service/impl/MarkdownServiceImpl.java:120 | runs of blanks become single dashes: no two dashes in a row, and only anchor characters remain |
| Markdown.AnchorClean | src/main/java/io/ironhawk/zappa/module/notemgmt/service/impl/MarkdownServiceImpl.java:118-120 | an anchor holds only lower-case letters, digits and dashes, with no two dashes in a row |
| Markdown.Hashes | src/main/java/io/ironhawk/zappa/module/notemgmt/service/impl/MarkdownServiceImpl.java:116 | k hash characters |
| Markdown.AtxLevel | src/main/java/io/ironhawk/zappa/module/notemgmt/service/impl/MarkdownServiceImpl.java:122 | a line of k hashes and a blank has level k |
| Markdown.AtxHeading | src/main/java/io/ironhawk/zappa/module/notemgmt/service/impl/MarkdownServiceImpl.java:117 | the heading of such a line is the trimmed rest after the blanks |
| Markdown.MarkedDrop | src/main/java/io/ironhawk/zappa/module/notemgmt/service/impl/MarkdownServiceImpl.java:117 | dropping the hashes and then the blanks of such a line leaves the rest without its leading blanks |
| Markdown.HeadingOfMarked | src/main/java/io/ironhawk/zappa/module/notemgmt/service/impl/MarkdownServiceImpl.java:117 | a line that starts with '#' loses its hashes, then its blanks, then is trimmed |
| Markdown.HashesDropped | src/main/java/io/ironhawk/zappa/module/notemgmt/service/impl/MarkdownServiceImpl.java:117 | dropping the hashes before a text that does not start with '#' leaves that text |
| Markdown.IndentedHeading | src/main/java/io/ironhawk/zappa/module/notemgmt/service/impl/MarkdownServiceImpl.java:115-122 | " # A" counts as a heading line, keeps its '#' in the heading text since the pattern is anchored at the line start, and gets level -1, the first space's position minus the first '#'s |
| Markdown.TocItemsAppend | src/main/java/io/ironhawk/zappa/module/notemgmt/service/impl/MarkdownServiceImpl.java:114-131 | the list items of two blocks of lines are the items of each, one after the other |
| Markdown.NoHeadingsEmptyList | src/main/java/io/ironhawk/zappa/module/notemgmt/service/impl/MarkdownServiceImpl.java:114-131 | lines without headings give no list items |
| Markdown.GenerateTableOfContents | src/main/java/io/ironhawk/zappa/module/notemgmt/service/impl/MarkdownServiceImpl.java:105-135 | the loop over the lines builds the table of contents: the header, one item per heading line, and the closing tags |
| ExportReport.Merge | src/main/java/io/ironhawk/zappa/module/notemgmt/controller/ExportController.java:126 | merging a key adds it to the keys of the counts |
| ExportReport.TallySpec | src/main/java/io/ironhawk/zappa/module/notemgmt/controller/ExportController.java:118-129 | the tally holds exactly the keys that occur, each with its number of occurrences |
| ExportReport.Row | src/main/java/io/ironhawk/zappa/module/notemgmt/controller/ExportController.java:123-128 | the inner loop's pairs for tag i: one "a + b" key per later tag, in order |
| ExportReport.RowsBeforeLength | src/main/java/io/ironhawk/zappa/module/notemgmt/controller/ExportController.java:122-129 | the first r rows hold r(2n-r-1)/2 pairs |
| ExportReport.RowsBeforeMembers | src/main/java/io/ironhawk/zappa/module/notemgmt/controller/ExportController.java:122-129 | a key is in the first r rows exactly when it names tags i and j with i < r and i < j |
| ExportReport.PairsSpec | src/main/java/io/ironhawk/zappa/module/notemgmt/controller/ExportController.java:121-129 | a note with n tags contributes n(n-1)/2 pairs, exactly one per pair of positions i < j, and none with fewer than two tags |
| ExportReport.MergeRow | src/main/java/io/ironhawk/zappa/module/notemgmt/controller/ExportController.java:123-127 | the inner loop adds its row of pairs to the counts |
| ExportReport.MergeNotePairs | src/main/java/io/ironhawk/zappa/module/notemgmt/controller/ExportController.java:121-129 | the nested loops add all of a note's pairs to the counts |
| ExportReport.CountTagPairs | src/main/java/io/ironhawk/zappa/module/notemgmt/controller/ExportController.java:118-130 | the loop over the notes counts every pair of every note |
| ExportReport.Above | src/main/java/io/ironhawk/zappa/module/notemgmt/controller/ExportController.java:132-133 | the filter keeps exactly the keys counted more often than the threshold, each once |
| ExportReport.SortedAbove | src/main/java/io/ironhawk/zappa/module/notemgmt/controller/ExportController.java:132-134 | sorting the kept keys keeps each of them exactly once |
| ExportReport.ReportSpec | src/main/java/io/ironhawk/zappa/module/notemgmt/controller/ExportController.java:132-137 | the report lists at most limit distinct keys, each counted more often than the threshold, in descending count |
| ExportReport.ReportLeavesOut | src/main/java/io/ironhawk/zappa/module/notemgmt/controller/ExportController.java:132-137 | a key above the threshold is left out only when the report is full of keys counted at least as often |
| ExportReport.StopWordIgnoresCase | src/main/java/io/ironhawk/zappa/module/notemgmt/controller/ExportController.java:187-193 | the stop-word check does not depend on letter case |
| ExportReport.Run | src/main/java/io/ironhawk/zappa/module/notemgmt/controller/ExportController.java:146 | the leading run of word characters, ended by the first other character |
| ExportReport.Words | src/main/java/io/ironhawk/zappa/module/notemgmt/controller/ExportController.java:146 | splitting on runs of non-word characters gives non-empty words of word characters |
| ExportReport.KeepKeywords | src/main/java/io/ironhawk/zappa/module/notemgmt/controller/ExportController.java:146-148 | exactly the words of 4 to 19 characters that are not stop words are kept |
| ExportReport.NoteKeywordsShape | src/main/java/io/ironhawk/zappa/module/notemgmt/controller/ExportController.java:145-149 | a counted keyword has 4 to 19 characters, is no stop word and consists of lower-case word characters |
| ExportReport.LowerWords | src/main/java/io/ironhawk/zappa/module/notemgmt/controller/ExportController.java:145-146 | the words of lower-cased text contain no capital letter |
| ExportReport.MergeAll | src/main/java/io/ironhawk/zappa/module/notemgmt/controller/ExportController.java:149 | merging a list of keys adds each occurrence to the counts |
| ExportReport.CountKeywords | src/main/java/io/ironhawk/zappa/module/notemgmt/controller/ExportController.java:143-150 | the loop over the notes counts every keyword occurrence of every note |
| ExportReport.ContentPreview | src/main/java/io/ironhawk/zappa/module/notemgmt/controller/ExportController.java:104-109 | a preview exists exactly for non-blank content; it is the first 200 characters with "..." after longer content, and every newline becomes a blank |
| UserManagement.DeleteGuardKeepsAdmin | src/main/java/io/ironhawk/zappa/security/service/UserManagementService.java:95-107 | the guard on deleting an admin keeps at least one admin, counting down by one only when an admin goes |
| UserManagement.Toggled | src/main/java/io/ironhawk/zappa/security/service/UserManagementService.java:87-93 | toggling flips the enabled flag and nothing else |
| UserManagement.Search | src/main/java/io/ironhawk/zappa/security/service/UserManagementService.java:29-35 | a blank or missing term lists every user; otherwise exactly the users whose username, email or full name contains it ignoring case |
| UserManagement.SearchFindsByUsername | src/main/java/io/ironhawk/zappa/security/service/UserManagementService.java:29-35 | a user is found by its own username in any letter case |
| UserManagement.UserDirectory.constructor | src/main/java/io/ironhawk/zappa/security/service/UserManagementService.java:17-23 | the directory starts empty |
| UserManagement.UserDirectory.CreateUser | src/main/java/io/ironhawk/zappa/security/service/UserManagementService.java:49-62 | a taken username is reported first, then a taken email; otherwise the user is stored enabled with the encoded password under a fresh id |
| UserManagement.UserDirectory.UpdateUser | src/main/java/io/ironhawk/zappa/security/service/UserManagementService.java:64-77 | an unknown id is refused; a change to an email another user has is refused; otherwise only the email, full name and role change |
| UserManagement.UserDirectory.ChangePassword | src/main/java/io/ironhawk/zappa/security/service/UserManagementService.java:79-85 | for a known user only the stored password changes, to the encoded one |
| UserManagement.UserDirectory.ToggleUserEnabled | src/main/java/io/ironhawk/zappa/security/service/UserManagementService.java:87-93 | for a known user only the enabled flag flips |
| UserManagement.UserDirectory.ToggleTwice | src/main/java/io/ironhawk/zappa/security/service/UserManagementService.java:87-93 | toggling twice restores the user table |
| UserManagement.UserDirectory.DeleteUser | src/main/java/io/ironhawk/zappa/security/service/UserManagementService.java:95-107 | an unknown id is refused; the last admin is never deleted; otherwise exactly that user is removed, and an admin always remains |
| UserPreferences.PreferencesStore.constructor | src/main/java/io/ironhawk/zappa/security/service/UserPreferencesService.java:22-25 | the store starts with no records |
| UserPreferences.PreferencesStore.Positions | src/main/java/io/ironhawk/zappa/security/service/UserPreferencesService.java:27-40 | a user without a record, without JSON or with unparsable JSON has no positions |
| UserPreferences.PreferencesStore.GroupPositions | src/main/java/io/ironhawk/zappa/security/service/UserPreferencesService.java:68-77 | a group key without an entry has no positions |
| UserPreferences.PreferencesStore.SaveGraphPositions | src/main/java/io/ironhawk/zappa/security/service/UserPreferencesService.java:42-66 | the user's record becomes the given positions, which read back as saved |
| UserPreferences.PreferencesStore.SaveGraphPositionsForGroup | src/main/java/io/ironhawk/zappa/security/service/UserPreferencesService.java:79-83 | the group's entry reads back as saved, other groups and other users keep theirs |
| UserPreferences.PreferencesStore.ClearGraphPositions | src/main/java/io/ironhawk/zappa/security/service/UserPreferencesService.java:85-91 | an existing record loses its positions, a missing record stays missing, and the user has no positions afterwards |
| UserPreferences.PreferencesStore.ClearGraphPositionsForGroup | src/main/java/io/ironhawk/zappa/security/service/UserPreferencesService.java:93-102 | only the group's entry is removed; other users are untouched; positions remain exactly when another group had some |
| SearchableSelector.Relevance | src/main/resources/static/js/searchable-selector.js:387-395 | the relevance is 4 exactly for a case-insensitive exact match, at least 3 exactly for a prefix match, at least 2 exactly for a substring match, and 1 otherwise |
| SearchableSelector.CompareItems | src/main/resources/static/js/searchable-selector.js:397-414 | higher relevance sorts first; among prefix matches the shorter display text sorts first; otherwise the display texts are compared in code-point order |
| SearchableSelector.CompareIsOrder | src/main/resources/static/js/searchable-selector.js:397-414 | the comparator is reflexive, antisymmetric in sign and transitive, so a stable sort by it is well defined |
| SearchableSelector.Best | src/main/resources/static/js/searchable-selector.js:298-301 | the head of the sorted candidates is one of the candidates |
| SearchableSelector.BestIsFirst | src/main/resources/static/js/searchable-selector.js:298-301 | the head orders before or alongside every candidate, and every candidate earlier in the input orders strictly after it, as a stable sort's head does |
| SearchableSelector.Matching | src/main/resources/static/js/searchable-selector.js:284-290 | the candidates are exactly the options that are not selected and whose display text contains the term |
| SearchableSelector.SuggestionSpec | src/main/resources/static/js/searchable-selector.js:277-328 | an inline suggestion appears exactly when the term is non-empty and the best candidate is a prefix match; it is then that candidate's display text, the shortest prefix match |
| SearchableSelector.Values | src/main/resources/static/js/searchable-selector.js:586-589 | the hidden input's values, one per selected item in order |
| SearchableSelector.HiddenValueAppend | src/main/resources/static/js/searchable-selector.js:586-589 | selecting one more item appends ", " and its value to the hidden input's text |
| SearchableSelector.AfterSelect | src/main/resources/static/js/searchable-selector.js:529-548 | single select replaces the selection; a duplicate is refused unless duplicates are allowed; otherwise the item is appended; the item is selected afterwards and distinct values stay distinct |
| SearchableSelector.WithoutValue | src/main/resources/static/js/searchable-selector.js:550-562 | removal keeps exactly the selected items with another value |
| SearchableSelector.WithoutValueAppend | src/main/resources/static/js/searchable-selector.js:550-562 | removal distributes over concatenation |
| SearchableSelector.WithoutAbsentValue | src/main/resources/static/js/searchable-selector.js:550-562 | removing a value nobody holds changes nothing |
| SearchableSelector.SelectThenRemove | src/main/resources/static/js/searchable-selector.js:529-562 | selecting an unselected item and removing it again restores the selection |
| SearchableSelector.DownIndex | src/main/resources/static/js/searchable-selector.js:252-259 | ArrowDown moves the highlight one down and stops at the last option |
| SearchableSelector.UpIndex | src/main/resources/static/js/searchable-selector.js:261-268 | ArrowUp moves the highlight one up and stops at -1, no highlight |
| SearchableSelector.FindByDisplay | src/main/resources/static/js/searchable-selector.js:230-236 | the option whose display text equals the suggestion ignoring case, or none when no option has it |
| SearchableSelector.Selector.constructor | src/main/resources/static/js/searchable-selector.js:83-86 | a new selector holds the initial selection, no highlight, no query or suggestion, and a closed dropdown |
| SearchableSelector.Selector.HideDropdown | src/main/resources/static/js/searchable-selector.js:507-527 | hiding closes the dropdown; when it was open the highlight, query and suggestion are cleared; the selection stays |
| SearchableSelector.Selector.SelectItem | src/main/resources/static/js/searchable-selector.js:529-548 | the selection becomes AfterSelect's; a refused duplicate changes nothing else; otherwise the hidden input is rewritten and the dropdown hidden |
| SearchableSelector.Selector.RemoveItem | src/main/resources/static/js/searchable-selector.js:550-562 | every item with the removed value leaves the selection and the hidden input is rewritten |
| SearchableSelector.Selector.UpdateSuggestion | src/main/resources/static/js/searchable-selector.js:277-328 | the stored suggestion is the one the specification function gives for the term |
| SearchableSelector.Selector.ArrowDown | src/main/resources/static/js/searchable-selector.js:252-259 | with options shown the highlight moves down within bounds and the dropdown is open; with none nothing changes |
| SearchableSelector.Selector.ArrowUp | src/main/resources/static/js/searchable-selector.js:261-268 | with options shown the highlight moves up, never below -1; with none nothing changes |
| SearchableSelector.Selector.Escape | src/main/resources/static/js/searchable-selector.js:270-273 | Escape clears the highlight and closes the dropdown; the selection stays |
| SearchableSelector.Selector.Enter | src/main/resources/static/js/searchable-selector.js:226-242 | Enter selects the highlighted option, else the option matching the suggestion, else the only visible option; otherwise nothing changes |
| SearchableSelector.Selector.Tab | src/main/resources/static/js/searchable-selector.js:244-250 | Tab accepts a suggestion that differs from the trimmed query into the query and recomputes the suggestion; otherwise nothing changes |
| TagSelector.Tier | src/main/resources/static/js/tag-selector.js:226-239 | tier 2 is a case-insensitive exact match, tier 1 or more a prefix match |
| TagSelector.CompareSuggestions | src/main/resources/static/js/tag-selector.js:226-239 | higher tier first; within a matching tier the shorter name first; otherwise code-point order |
| TagSelector.CompareOptions | src/main/resources/static/js/tag-selector.js:313-320 | the dropdown: higher tier first, then code-point order |
| TagSelector.SuggestionOrder | src/main/resources/static/js/tag-selector.js:226-239 | the suggestion comparator is reflexive, antisymmetric in sign and transitive |
| TagSelector.OptionOrder | src/main/resources/static/js/tag-selector.js:313-320 | the dropdown comparator is reflexive, antisymmetric in sign and transitive |
| TagSelector.OrdersDisagree | src/main/resources/static/js/tag-selector.js:226-320 | for the term "a" the suggestion puts "ab" before "aab" while the dropdown puts it after |
| TagSelector.Best | src/main/resources/static/js/tag-selector.js:241 | the head of the sorted candidates is one of the candidates |
| TagSelector.BestIsMinimal | src/main/resources/static/js/tag-selector.js:226-241 | the head orders before or alongside every candidate |
| TagSelector.BestIsFirst | src/main/resources/static/js/tag-selector.js:226-241 | every candidate earlier in tag order than the head orders strictly after it, as a stable sort's head does |
| TagSelector.Candidates | src/main/resources/static/js/tag-selector.js:211-217 | the candidates are exactly the tags not selected whose name contains the term ignoring case |
| TagSelector.SuggestionSpec | src/main/resources/static/js/tag-selector.js:204-267 | a suggestion appears exactly when the term is non-empty and the best candidate is a prefix match that is not an exact match; it is then the shortest such unselected tag, and the first of that length in tag order |
| TagSelector.AfterSelect | src/main/resources/static/js/tag-selector.js:418-431 | a selected tag is refused unless duplicates are allowed, otherwise appended; the tag is selected afterwards and distinct selections stay distinct |
| TagSelector.SelectThenRemove | src/main/resources/static/js/tag-selector.js:418-441 | selecting an unselected tag and removing it restores the selection |
| TagSelector.Selector.constructor | src/main/resources/static/js/tag-selector.js:27-30 | a new selector holds the initial tags, no highlight, no query or suggestion, and a closed dropdown |
| TagSelector.Selector.HideDropdown | src/main/resources/static/js/tag-selector.js:398-416 | hiding closes the dropdown, clearing the highlight, query and suggestion when it was open; the selection stays |
| TagSelector.Selector.SelectTag | src/main/resources/static/js/tag-selector.js:418-431 | a refused duplicate changes nothing; otherwise the tag is appended, the hidden input becomes the ", "-joined selection and the dropdown is hidden |
| TagSelector.Selector.RemoveTag | src/main/resources/static/js/tag-selector.js:433-441 | every occurrence of the tag leaves the selection and the hidden input is rewritten |
| TagSelector.Selector.UpdateSuggestion | src/main/resources/static/js/tag-selector.js:204-267 | the stored suggestion is the one the specification function gives for the term |
| TagSelector.Selector.ArrowDown | src/main/resources/static/js/tag-selector.js:179-186 | with options shown the highlight moves down within bounds and the dropdown is open; with none nothing changes |
| TagSelector.Selector.ArrowUp | src/main/resources/static/js/tag-selector.js:188-195 | with options shown the highlight moves up, never below -1; with none nothing changes |
| TagSelector.Selector.Escape | src/main/resources/static/js/tag-selector.js:197-200 | Escape clears the highlight and closes the dropdown; the selection stays |
| TagSelector.Selector.Enter | src/main/resources/static/js/tag-selector.js:155-169 | Enter selects the highlighted option, else the suggestion when the query is not blank, else the only visible option; with several visible it highlights the first; with none nothing changes |
| TagSelector.Selector.Tab | src/main/resources/static/js/tag-selector.js:171-177 | Tab accepts a suggestion that differs from the trimmed query into the query and recomputes the suggestion; otherwise nothing changes |
| MarkdownEditor.Replaced | src/main/resources/static/js/markdown-editor.js:193-201 | the new value keeps the text before the range, holds the new text next and then the text after the range |
| MarkdownEditor.ReplaceUndo | src/main/resources/static/js/markdown-editor.js:193-201 | replacing the inserted text by what it replaced restores the value |
| MarkdownEditor.Shortcuts | src/main/resources/static/js/markdown-editor.js:133-160 | with Ctrl or meta, b, i and ` wrap in their markers and k inserts a link; Tab indents; any other key does nothing |
| MarkdownEditor.LinkLabel | src/main/resources/static/js/markdown-editor.js:205 | the link text is the typed text, or the url when none was typed |
| MarkdownEditor.LinkMarkup | src/main/resources/static/js/markdown-editor.js:203-209 | markup exists exactly for a non-empty url; it is "[", the label, "](", the url and ")" |
| MarkdownEditor.Editor.constructor | src/main/resources/static/js/markdown-editor.js:4-5 | a new editor holds the textarea's value and its existing selection, which lies inside the value |
| MarkdownEditor.Editor.SetSelectionRange | src/main/resources/static/js/markdown-editor.js:182-184 | an in-range selection is taken as given; the end is clamped to the value and the start to the end |
| MarkdownEditor.Editor.ReplaceSelection | src/main/resources/static/js/markdown-editor.js:193-201 | the selection is replaced by the text; when the value changes the caret moves to its end, and otherwise the selection stays |
| MarkdownEditor.Editor.InsertAtCursor | src/main/resources/static/js/markdown-editor.js:187-191 | the selection is replaced by the text and the caret sits just after it |
| MarkdownEditor.Editor.WrapSelection | src/main/resources/static/js/markdown-editor.js:171-185 | the selection is surrounded by the markers; an empty selection leaves the caret between them, otherwise the wrapped text is selected |
| MarkdownEditor.Editor.InsertLink | src/main/resources/static/js/markdown-editor.js:203-209 | without a url nothing changes; otherwise the markup is inserted at the caret |
| MarkdownEditor.Editor.HandleKey | src/main/resources/static/js/markdown-editor.js:133-160 | an unbound key changes nothing, Tab inserts four spaces at the caret, the wrap shortcuts surround the selection, and Ctrl/Cmd+K inserts the link markup for a non-empty url and otherwise changes nothing |
| AppTags.Clean | src/main/resources/static/js/app.js:69 | every kept piece is non-empty and trimmed, and the kept pieces are exactly the non-empty trimmed pieces |
| AppTags.CleanCons | src/main/resources/static/js/app.js:69 | cleaning works piece by piece, keeping the order |
| AppTags.ParsedTagClean | src/main/resources/static/js/app.js:69 | a parsed tag is non-empty, trimmed and free of commas |
| AppTags.NonEmpty | src/main/resources/static/js/app.js:69 | the kept elements are exactly the non-empty ones |
| AppTags.NonEmptyCons | src/main/resources/static/js/app.js:69 | dropping empties works element by element |
| AppTags.NonEmptyKeeps | src/main/resources/static/js/app.js:69 | a list without empty elements is kept whole |
| AppTags.NonEmptyAppend | src/main/resources/static/js/app.js:69 | dropping empties distributes over appending one element |
| AppTags.PaddedPieceTrims | src/main/resources/static/js/app.js:69-74 | the piece after ", " trims back to the tag and holds no comma |
| AppTags.ParseJoinLast | src/main/resources/static/js/app.js:69-74 | the last piece of joined text reads back as the last tag |
| AppTags.ParseJoinStep | src/main/resources/static/js/app.js:69-74 | one more tag in front of joined text reads back one more tag in front |
| AppTags.ParseJoinPadded | src/main/resources/static/js/app.js:69-74 | joined text after a pad reads back as the non-empty tags |
| AppTags.ParseJoin | src/main/resources/static/js/app.js:69-74 | reading the text join(", ") writes gives back the non-empty tags |
| AppTags.ParsedJoinable | src/main/resources/static/js/app.js:69-74 | parsed tags join and read back unchanged |
| AppTags.AddAppendsOnce | src/main/resources/static/js/app.js:66-83 | adding an unlisted, trimmed, comma-free tag lists it once, at the end, after the tags already there |
| AppTags.AddThenRemove | src/main/resources/static/js/app.js:66-94 | adding an unlisted tag and removing it again gives the original tags, normalised |
| AppTags.RemoveLeavesRest | src/main/resources/static/js/app.js:85-94 | after removal the text reads back as the old tags without the removed one |
| AppTags.TooManyTags | src/main/resources/static/js/app.js:53-62 | the field is invalid exactly when it lists more than ten tags, which needs at least ten commas |
| AppTags.TagField.constructor | src/main/resources/static/js/app.js:53-62 | a new field holds its initial text and is not marked invalid |
| AppTags.TagField.OnInput | src/main/resources/static/js/app.js:53-62 | the field is marked invalid exactly when it lists too many tags |
| AppTags.TagField.AddTag | src/main/resources/static/js/app.js:66-83 | a listed tag changes nothing; otherwise the text is rewritten with the tag appended and the validity recomputed |
| AppTags.TagField.RemoveTag | src/main/resources/static/js/app.js:85-94 | the text is rewritten without the tag and the validity recomputed |

## Left out

- HTTP and MVC controllers are not modelled: request binding, redirects, flash messages and response plumbing. The graph controller's filters and formulas, and the export controller's counters, are modelled.
- Constraints enforced by the database are not modelled, apart from the link table's unique (source, target, type) key, the join table's composite key, one foreign key, and the checks the services make themselves. The one foreign key modelled is a group's parent (`Store.ParentsStored`): every parent pointer names a stored group. The other foreign keys and the races between concurrent saves are out.
- Transactions are not modelled as such. Each transactional service method is one atomic method, and an error leaves the tables as they were.
- Concurrency is not modelled.
- Logging is not modelled.
- The note's owner field is not modelled. The services set it from the acting user, who is passed as a parameter.
- Collation and `localeCompare` are not modelled. Both become code-point order through `Strings.LexLess`.
- Case mapping covers ASCII letters only.
- The order of results ordered by name is not modelled; those results are sets.
- `HashMap` iteration order is not modelled. Where it shows in the report, it is an `order` parameter.
- A single-row finder that matches several rows gives the error `IncorrectResultSize`. The exception's class and message are not modelled.
- LinkService.SaveLink checks only the link table's unique key; the other database constraints of a save are not modelled.
- Tag.java lacks the tag's owner (user), its group and its key flag. All three are modelled from how the services and queries use them, and so is `Tag.ofGroup`.
- Groups.TotalWithin: a subgroup already counted is skipped. On an acyclic table this changes nothing. On a cyclic table getTotalNoteCount would not terminate.
- Groups.TotalNoteCount: its own contract gives only the lower bound. `ComputeTotalNoteCount` ties the loop to it, and `LeafTotal` states the value for a group without subgroups.
- Floating point is not modelled: link opacity, the average link weight, and the KB, MB and GB branches of the formatted file size.
- CommonMark parsing and rendering are not modelled, nor the regular-expression rewrites that add styles and sanitise HTML. Only the blank and URL branches of rendering are modelled.
- JSON serialisation of preferences is modelled as the identity. So the stored text `null`, which the source parses to a null map and returns, is not distinguished from other stored positions.
- The password encoder is abstracted: the encoded password is a parameter of `CreateUser` and `ChangePassword`.
- The User entity is not part of this model. Users are records holding the fields the service reads and writes.
- The controller's inline user checks are not modelled: password confirmation, minimum length, and the ban on deleting or disabling oneself.
- UUID parsing of the graph filter's group argument is abstracted: `GraphView.GroupArg` is absent, malformed or a group id, which may be unknown.
- `StringUtils.cleanPath` is not modelled. The stored-file check looks for ".." in the name as given.
- File-system work is left out: copying, deleting, resolving and creating directories.
- The timestamp and the random UUID of a unique file name are parameters.
- The layout of the export report is not modelled: dates, text layout and tie order. The counts and the preview truncation are modelled.
- The Java `long` sum of attachment sizes cannot overflow in the model: `Notes.TotalAttachmentSize` uses unbounded integers.
- Browser DOM work is left out: rendering, `innerHTML`, event listeners, debounce timers, `fetch`, toasts, the clipboard and highlight rendering. The `prompt` answers are parameters.
- Reading item fields through `getNestedProperty` is abstracted: an item has a display text and a value.
- The searchable selector's `setSelectedItems`, `clear` and `updateData` are not modelled, nor the toolbar's `insertMarkdown` helper.
- The visible option list of the dropdown is a parameter of the key handlers, because it is read back from the DOM.
- `Note.forUpdate` is not modelled. It is a builder copying the id, title and content.
- ExportReport.ContentPreview and the editor's offsets: lengths and positions count Unicode scalar values, not UTF-16 code units as Java's `length`/`substring` and the textarea's `selectionStart`/`selectionEnd` do. Outside the Basic Multilingual Plane the cut point differs, and the source may split a surrogate pair.
- NoteRepository.Search: the term is matched as a literal substring. The query builds a `LIKE` pattern with no `ESCAPE` clause, so a `%` or `_` in the term acts as a wildcard there; those wildcards are not modelled.
- GroupService.CreateGroup does not enforce the store-wide unique group name of Group.java:27. The service checks only the acting user's names, so the model accepts a name another user holds, which an insert into a schema built from the entity would refuse. The schema itself is not part of this model.
- GroupService.UpdateGroup does not enforce the store-wide unique group name either, so a rename to a name another user holds succeeds in the model.
- GroupService.GetOrCreateGroup does not enforce the store-wide unique group name when it creates a group.
- GroupService.CreateSubGroup does not enforce the `user_id` NOT NULL of Group.java:40. `withParent` sets no user, so the model stores a group with no owner where a schema built from the entity would refuse every such insert.
- GroupService.CreateDefaultGroup does not enforce the store-wide unique group name, so every user without groups gets a group named "Default"; a schema built from the entity would refuse it for every user after the first. `NoteService.CreateNote` and the tag services that fall back to the default group (`TagService.CreateGlobalTag`, `GetOrCreateGlobalTag`, `MakeTagGlobal`, `GetOrCreateTagInGroup`) inherit this.
- GroupService.GetDefaultGroup inherits the unique-name gap of `CreateDefaultGroup`.
- NoteLinks.LinkMetadata: values are the kinds Jackson reads from JSON (null, string, integral and floating-point number, boolean, list, object). Other Java objects a caller might put, such as dates or beans with their own `toString`, are not modelled.
- GetMetadataAsString: a floating-point value carries the text `Double.toString` gives for it; that formatting is not computed. An object value shows its entries in the order it holds them, as a `LinkedHashMap` from Jackson does; a `HashMap` a caller puts would show them in hash order.
- The service interfaces declare signatures only and have no behaviour to model. The DTOs are data carriers and are not modelled either.

## Findings

| source | as written | input that shows it | evidently intended | confidence | as-written member | corrected member |
|---|---|---|---|---|---|---|
| src/main/java/io/ironhawk/zappa/module/notemgmt/service/impl/GroupServiceImpl.java:266-275 | the cycle check of moveGroup starts its walk at the new parent's parent, so it never compares the group with the new parent itself | moveGroup(g, g) for any stored group g: the move is accepted, g becomes its own parent, and walks up from g never reach a root | a move under the group itself or under any group below it is rejected, so the tree stays acyclic | not executed | GroupService.MoveUnderItselfAccepted | GroupService.MoveGroupChecked |
| src/main/java/io/ironhawk/zappa/module/notemgmt/repository/NoteLinkRepository.java:119-129 | the outer query groups by note_id but selects the per-branch link_count, which is neither grouped nor aggregated, so PostgreSQL refuses the statement | any call, even on an empty link table: findMostConnectedNotes(5) from the graph statistics page | select SUM(link_count) (or note_id alone) and rank the notes by their total number of links | not executed | LinkRepository.MostConnectedAsWritten | LinkRepository.MostConnectedIntended |
