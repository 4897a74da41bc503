# TodoList component, modelled in Dafny

This project models the `TodoList` React component of a small Next.js to-do application
backed by a Firestore collection named `todos`. The component keeps four pieces of state:
the records shown (`todos`), the text field, the date field and the `showOthers` filter
flag. It changes that state in its handlers:

- `getTodos` fetches the session user's records, or everyone's.
- `addTodo` stores a new record.
- `toggleTodo` flips a record's `completed` flag.
- `deleteTodo` deletes one record.
- `deleteAll` deletes all records of one owner.
- The filter button switches `showOthers`.

The render expression derives the page from `todos`: records are grouped by owner with a
`reduce` into an object, the owner headings are sorted with `localeCompare`, and each
group's rows are sorted by date.

Layout, one module per file:

- `records.dfy` (`Records`): the record types. A stored document is a `Doc` with its
  `Fields`; a record of the component's list is a `Todo`.
- `text.dfy` (`JsText`): `String.prototype.trim` over the ECMAScript white-space and
  line-terminator characters.
- `dates.dfy` (`IsoDate`): `YYYY-MM-DD` dates and the order that
  `new Date(a.date) - new Date(b.date)` induces on real calendar dates.
- `store.dfy` (`Store`): the remote collection as an ordered sequence of documents with
  distinct ids, in the order a query returns them (Firestore returns a query without
  `orderBy` by ascending document id). Its class `TodoStore` has query, add, update and
  delete; the place a new random id takes in that order is a parameter of add.
- `collection.dfy` (`Collection`): the list transformations of the handlers, as functions,
  and the store writes they issue.
- `ordering.dfy` (`Ordering`): the two sorts of the render. Both are stable insertion
  sorts on values: an element is placed ahead of the elements it ties with that came
  after it. Keys are sorted under an abstract string order `less`; records are sorted
  by day.
- `grouping.dfy` (`Grouping`): the `reduce` that files records under their owner, as a
  loop over a map.
- `view.dfy` (`View`): the rendered list of groups, and its partition, ordering and
  permutation lemmas. It is the render over the map grouping `Grouping.GroupByOwner`,
  which does not throw on owner names inherited from `Object.prototype`.
- `todolist.dfy` (`TodoListComponent`): the component as a class whose handlers are
  methods over the state fields and the store.

Each handler runs to completion before the next one starts. `session` is the display name
of the signed-in user (`data?.user?.name`), given as an `Option<string>`. The id the store
assigns to a new document is a parameter, and so is the place that id takes in the
store's order. So is "today", the UTC date that `addTodo`
uses when no date is chosen.

## Model

| member | source | states |
|---|---|---|
| TodoListComponent.TodoList.constructor | src/components/TodoList.js:30-35 | The component starts with an empty list, empty text and date fields, and the filter on "mine only". |
| TodoListComponent.TodoList.SetInput | src/components/TodoList.js:157 | The text field takes the typed value; nothing else changes. |
| TodoListComponent.TodoList.SetDate | src/components/TodoList.js:163 | The date field takes the picked value; nothing else changes. |
| TodoListComponent.TodoList.Refresh | src/components/TodoList.js:53-74 | The push loop builds exactly the fetched records, in fetch order, and replaces the list with them. With no session name in "mine only" mode the list is left alone. The fields and the store are untouched. |
| TodoListComponent.TodoList.GetTodos | src/components/TodoList.js:45-75 | getTodos, which the effect also runs on every session change, refreshes with the current filter flag. |
| TodoListComponent.TodoList.AddTodo | src/components/TodoList.js:78-100 | Blank text, or a store that rejects the write, leaves the list, both fields and the store unchanged. Otherwise exactly one document is inserted into the store, at the place its new id takes: owner = session, the text, the chosen date or today, not completed. The record is appended locally without an owner after all existing records, both fields become empty, and the list is then refreshed. |
| TodoListComponent.TodoList.ToggleTodo | src/components/TodoList.js:103-117 | The list becomes `Toggled` of the old list. The store receives one `updateDoc` per matching record, in list order (`ToggleWrites`). Nothing else changes. |
| TodoListComponent.TodoList.DeleteTodo | src/components/TodoList.js:120-131 | The store loses the document with that id. The list keeps exactly the records with another id, in order. |
| TodoListComponent.TodoList.DeleteAll | src/components/TodoList.js:134-146 | After the query-then-delete loop, the store holds exactly the documents of other owners, in their old order. The list is then refreshed with the current flag. |
| TodoListComponent.TodoList.ToggleShowOthers | src/components/TodoList.js:173-176 | The flag flips, but the list is refreshed with the flag as it was before the click. |
| TodoListComponent.TodoList.ToggleShowOthersIntended | src/components/TodoList.js:173-176 | The flag flips and the list is refreshed with the new flag. |
| TodoListComponent.StaleFilterHidesOthers | src/components/TodoList.js:173-175 | Switching to "everyone" with a named session: another owner's stored document is absent after the as-written refresh but present after a refresh with the new flag. |
| TodoListComponent.AddedRecordShown | src/components/TodoList.js:86-99 | In "mine only" mode with a named session, the record just stored is in the refreshed list, with its owner. |
| TodoListComponent.UnnamedAddShownUnderUndefined | src/components/TodoList.js:188-195 | In "mine only" mode with an empty session name the refresh is skipped. The locally appended, ownerless record stays and is rendered under the heading "undefined". |
| Records.FromDoc | src/components/TodoList.js:71 | The record carries exactly the document's id and the document's data, field for field. |
| Records.Flip | src/components/TodoList.js:111 | The record's `completed` is inverted and every other field is kept. |
| JsText.LeadingBlanks | src/components/TodoList.js:80 | Counts the white space that `trim` removes at the front: every counted character is white space, and the next one, if any, is not. |
| JsText.TrailingBlanks | src/components/TodoList.js:80 | Counts the white space that `trim` removes at the back: every counted character is white space, and the one before them, if any, is not. |
| JsText.NonBlankSurvives | src/components/TodoList.js:80 | If the input has a character that is not white space, the trimmed text is not empty. |
| JsText.UntrimmableEndsFixed | src/components/TodoList.js:80 | Text that neither starts nor ends with white space is unchanged by `trim`. |
| JsText.Trim | src/components/TodoList.js:80 | The trimmed text is the run of the input that starts right after its leading white space and is followed only by white space. When not empty, it neither starts nor ends with white space. |
| JsText.CutEnds | src/components/TodoList.js:80 | Cutting the leading, then the trailing white space leaves such a run: untrimmable ends, and only white space after it in the input. |
| JsText.TrimEmptyIffBlank | src/components/TodoList.js:80 | `input.trim() === ""` holds exactly when the input is made only of white space, in both directions. |
| JsText.TrimIdempotent | src/components/TodoList.js:80 | Trimming twice equals trimming once. |
| IsoDate.IsValid | src/components/TodoList.js:207 | A real calendar date written `YYYY-MM-DD`: month 1 to 12, day within the month, with Gregorian leap years. |
| IsoDate.Before | src/components/TodoList.js:207 | The comparator is negative: the (year, month, day) triple of the first date is lexicographically smaller. |
| IsoDate.SameDay | src/components/TodoList.js:207 | The comparator is zero: both dates have the same year, month and day. |
| IsoDate.Trichotomy | src/components/TodoList.js:207 | For any two dates, exactly one of them is earlier, or they name the same day. |
| IsoDate.NotBeforeTransitive | src/components/TodoList.js:207 | "Not earlier" is transitive, so the date comparator is a total preorder, as a sort requires. |
| Store.Matching | src/components/TodoList.js:54-62 | The query returns exactly the documents that match the owner filter. With no filter it returns the whole collection in order. |
| Store.NotOwnedBy | src/components/TodoList.js:136-142 | Returns exactly the documents whose owner differs. |
| Store.MatchingUnique | src/components/TodoList.js:54-65 | A query of a collection with distinct ids returns documents with distinct ids, whatever the owner filter. |
| Store.MatchingSnoc | src/components/TodoList.js:54-65 | The query keeps store order: one more document at the end of the collection adds, at the end of the result, that document if it matches. |
| Store.NotOwnedBySnoc | src/components/TodoList.js:134-142 | What deleteAll leaves keeps store order: one more document at the end of the collection adds, at the end of the result, that document if another owner has it. |
| Store.WithoutIds | src/components/TodoList.js:120-142 | Returns exactly the documents whose id is outside the set. |
| Store.WithCompleted | src/components/TodoList.js:110 | Returns the same documents. Only those with the id change, and only their `completed`, to the given value. |
| Store.SameIdSameDoc | src/components/TodoList.js:109 | With distinct ids, an id names at most one document. |
| Store.WithoutIdsUnique | src/components/TodoList.js:123 | Deleting documents keeps ids distinct. |
| Store.WithoutIdsStep | src/components/TodoList.js:139-142 | Deleting one id after a set of ids equals deleting the enlarged set. |
| Store.WithoutIdsIsNotOwnedBy | src/components/TodoList.js:134-142 | Deleting exactly the ids of an owner's documents leaves the documents of other owners. |
| Store.DeleteOwnedLeavesOthers | src/components/TodoList.js:134-142 | Deleting the ids that the owner query returns leaves exactly the other owners' documents. |
| Store.TodoStore.constructor | src/components/TodoList.js:26 | The collection starts with the given documents, which have distinct ids. |
| Store.TodoStore.Query | src/components/TodoList.js:65 | `getDocs(q)` returns the matching documents. |
| Store.TodoStore.Add | src/components/TodoList.js:86-91 | `addDoc` inserts one document under a fresh id, at the place that id takes in the store's order, and keeps ids distinct. |
| Store.InsertUnique | src/components/TodoList.js:86-91 | Inserting a document under an unused id, anywhere in the collection, keeps ids distinct. |
| Store.TodoStore.Update | src/components/TodoList.js:109-110 | `updateDoc` sets `completed` on the document with that id; ids stay distinct. |
| Store.TodoStore.Delete | src/components/TodoList.js:122-123 | `deleteDoc` removes the document with that id, if any; ids stay distinct. |
| Collection.Toggled | src/components/TodoList.js:106-115 | Same length and order. Each record keeps all its fields except `completed`, which changes exactly on the records whose id matches. |
| Collection.ToggleTwice | src/components/TodoList.js:106-114 | Toggling the same id twice restores the original list. |
| Collection.ToggleAbsent | src/components/TodoList.js:106-114 | Toggling an absent id changes nothing. |
| Collection.Without | src/components/TodoList.js:127-129 | Returns exactly the records whose id differs, and is never longer than the input. |
| Collection.WithoutConcat | src/components/TodoList.js:127-129 | The filter distributes over concatenation, so it keeps the original order. |
| Collection.WithoutIdempotent | src/components/TodoList.js:127-129 | Deleting the same id twice equals deleting it once. |
| Collection.WithoutAbsent | src/components/TodoList.js:127-129 | Deleting an absent id changes nothing. |
| Collection.ToggleWrites | src/components/TodoList.js:106-115 | The `updateDoc` calls of toggleTodo, in list order: the collection keeps its length and ids, only `completed` can change, and only on documents with that id. |
| Collection.ToggleWritesAbsent | src/components/TodoList.js:106-115 | With no matching record, toggleTodo writes nothing to the store. |
| Collection.ToggleWritesOnce | src/components/TodoList.js:106-115 | With distinct ids, the writes amount to one update: the flipped flag of the matching record. |
| Collection.ToggleStoreAgrees | src/components/TodoList.js:103-117 | With distinct ids in the list, after toggleTodo the stored document with that id carries the flag the local record now shows. Every other document is unchanged. `Collection.RefreshedUnique` shows that a fetched list has distinct ids. |
| Collection.FetchAll | src/components/TodoList.js:69-72 | The `forEach` loop pushes one record per fetched document, in fetch order, giving `Fetched` of the results. |
| Collection.Fetched | src/components/TodoList.js:69-72 | One record per document, position for position, each being `{ id: doc.id, ...doc.data() }`. |
| Collection.HasName | src/components/TodoList.js:60 | `data?.user?.name` is truthy: there is a session name and it is not empty. |
| Collection.Refreshed | src/components/TodoList.js:53-74 | getTodos' resulting list: unchanged when the user's records alone are wanted and there is no session name, otherwise the fetched records of the query. |
| Collection.RefreshMineOnly | src/components/TodoList.js:59-61 | In "mine only" mode with a name, every record belongs to the session, and every document of the session is shown. |
| Collection.RefreshAll | src/components/TodoList.js:55-57 | In "everyone" mode the list is every document, in fetch order. |
| Collection.FetchedUnique | src/components/TodoList.js:69-72 | Fetched lists inherit the store's distinct ids. |
| Collection.RefreshedUnique | src/components/TodoList.js:53-74 | A refresh that is not skipped, in "mine only" or in "everyone" mode, leaves a list with distinct ids. |
| Collection.RefreshAfterDeleteAll | src/components/TodoList.js:145 | A refresh that runs after deleteAll(owner) shows no record of that owner. |
| Ordering.InsertKey | src/components/TodoList.js:196 | Inserting a key adds exactly that key to the keys. |
| Ordering.SortKeys | src/components/TodoList.js:196 | The sorted keys are a permutation of the group keys. |
| Ordering.InsertKeyAscending | src/components/TodoList.js:196 | Inserting a new key into an ascending sequence keeps it ascending. |
| Ordering.SortKeysAscending | src/components/TodoList.js:196 | Under a strict total order, distinct keys come out strictly ascending. |
| Ordering.InsertKeyDistinct | src/components/TodoList.js:196 | Under any comparison, inserting a new key into distinct keys keeps them distinct. |
| Ordering.SortKeysDistinct | src/components/TodoList.js:196 | Under any comparison, distinct keys stay distinct. |
| Ordering.SameHead | src/components/TodoList.js:196 | Two ascending arrangements of the same keys start with the same key. |
| Ordering.AscendingUnique | src/components/TodoList.js:196 | Two ascending arrangements of the same keys are equal, so the heading order does not depend on the order the groups were created. |
| Ordering.InsertByDate | src/components/TodoList.js:207 | Inserting a record adds exactly that record to the group, as a multiset. |
| Ordering.SortByDate | src/components/TodoList.js:207 | A group's sorted records are a permutation of the group. |
| Ordering.SortByDateOrdered | src/components/TodoList.js:207 | No record comes after a record of a later day. |
| Ordering.InsertByDateOnDay | src/components/TodoList.js:207 | Inserting a record leaves the order of the records on every day unchanged, apart from adding it. |
| Ordering.OnDayCons | src/components/TodoList.js:207 | The records of a day in a list with one more record at the front are that record, if it is of that day, followed by the rest's records of that day. |
| Ordering.SortKeysAllTies | src/components/TodoList.js:196 | Keys that all compare equal come out in their original order, as the stable `Array.prototype.sort` leaves them. |
| Ordering.SortByDateStable | src/components/TodoList.js:207 | Records of the same day keep their relative order, as the stable `Array.prototype.sort` keeps it. |
| Grouping.Key | src/components/TodoList.js:189 | The property name a record is filed under: its owner, or "undefined" when it has none. |
| Grouping.WithKey | src/components/TodoList.js:189-193 | Returns exactly the records filed under that key. |
| Grouping.FirstSeen | src/components/TodoList.js:190-192 | The accumulator's keys in creation order: a key is added when its first record is filed. |
| Grouping.FirstSeenKeys | src/components/TodoList.js:188-195 | The accumulator's keys are distinct and are exactly the keys of the records. |
| Grouping.UnseenKeyEmpty | src/components/TodoList.js:188-195 | A key that no record has holds no records. |
| Grouping.FileStepKeys | src/components/TodoList.js:189-193 | One create-then-push step keeps the keys equal to those of the records seen, in creation order. |
| Grouping.FileStepContents | src/components/TodoList.js:189-193 | One step keeps every key holding exactly the records seen so far that have that key, in list order. |
| Grouping.File | src/components/TodoList.js:189-193 | The reduce callback appends the record to its key's group, creating the group empty when the key is new. No other group changes. |
| Grouping.GroupByOwner | src/components/TodoList.js:188-195 | The reduce into a map creates exactly one group per owner, in first-appearance order. Each group holds exactly that owner's records, in list order. |
| Grouping.ReduceThrows | src/components/TodoList.js:190-193 | Some record is filed under a name `{}` inherits from `Object.prototype` (`InheritedNames`), so `.push` throws. |
| Grouping.ThrowsStep | src/components/TodoList.js:190-193 | The reduce has thrown after one more record exactly when it had already thrown or that record's key is an inherited name. |
| Grouping.GroupByOwnerAsWritten | src/components/TodoList.js:188-195 | The reduce into `{}` throws exactly when some record is filed under a name inherited from `Object.prototype`. Otherwise it builds the same groups as `GroupByOwner`. |
| Grouping.ConstructorOwnerThrows | src/components/TodoList.js:189-193 | A single record of a user named "constructor" makes the reduce throw. |
| View.Build | src/components/TodoList.js:196-207 | One group per key, in key order, each holding the key's records sorted by date. |
| View.Render | src/components/TodoList.js:187-207 | The render: one group per owner key, the headings being the sorted keys, and each group holds exactly that owner's records sorted by date. |
| View.RenderKeys | src/components/TodoList.js:187-196 | The rendered headings are exactly the owners of the records, in both directions. |
| View.RenderOwnersDistinct | src/components/TodoList.js:188-196 | The headings are pairwise distinct under any string comparison, ties of `localeCompare` included. |
| View.RenderOwnersAscending | src/components/TodoList.js:196 | The headings are pairwise distinct and strictly ascending under the string order. |
| View.RenderCovers | src/components/TodoList.js:187-196 | Every record's owner has a heading. |
| View.RenderGroupMembers | src/components/TodoList.js:188-207 | A record is under a heading exactly when it is in `todos` and its owner is that heading. |
| View.SortedGroupMembers | src/components/TodoList.js:207 | Sorting a group by date keeps exactly its records. |
| View.RenderNoEmptyGroup | src/components/TodoList.js:188-195 | No heading is rendered without rows. |
| View.RenderGroupsByDay | src/components/TodoList.js:207 | Each group's rows are in day order, and rows of the same day keep their order in `todos`. |
| View.SplitKey | src/components/TodoList.js:188-195 | The records of a new key, together with those of the other keys, are the records of all the keys. |
| View.KeyedByAll | src/components/TodoList.js:188-195 | Filtering by a set of keys that covers every record returns the whole list. |
| View.FlattenBuild | src/components/TodoList.js:196-207 | Reading distinct groups top to bottom gives, as a multiset, exactly the records whose key is one of them. |
| View.RenderPermutation | src/components/TodoList.js:187-207 | Reading the page top to bottom gives every record of `todos` exactly as often as it occurs there. |

## Left out

- The Firestore client (`collection`, `query`, `where`, `getDocs`, `addDoc`, `updateDoc`,
  `deleteDoc`) is a foreign library. It is replaced by the `TodoStore` class: an ordered
  sequence of documents with distinct ids, in query result order. Ordering by document
  id is not computed: where `addDoc`'s random id places a new document is the parameter
  `at`, and it decides where the new record lands among same-day rows after the refresh.
- Asynchrony is not modelled. The awaited calls and the unawaited
  `updateDoc`/`deleteDoc` calls all complete in program order, and no two handlers
  interleave.
- The store's choice of a fresh id is a parameter, `newId`.
- TodoListComponent.TodoList.AddTodo: a rejected `addDoc`, such as Firestore refusing an undefined `userName`, is
  folded into `newId` = None. The model does not decide when Firestore rejects a write.
- Collection.ToggleStoreAgrees, TodoListComponent.TodoList.ToggleTodo, TodoListComponent.TodoList.DeleteTodo
  and TodoListComponent.TodoList.DeleteAll: every `getDocs`, `updateDoc` and `deleteDoc` succeeds. In the
  source a failed `updateDoc` or `deleteDoc` is not awaited and not rolled back, so the
  local list then differs from the store, and a failed `getDocs` ends getTodos or
  deleteAll early. Those failures are not modelled.
- View.Render and the View lemmas describe the render over the corrected grouping
  `Grouping.GroupByOwner`. Where `Grouping.ReduceThrows` holds, the source's render
  throws instead (see Findings); `Grouping.GroupByOwnerAsWritten` models that.
- The session (`useSession`, the redirect to `/login`, `signOut`) is an external identity
  provider. Its display name is a parameter.
- JSX, button labels, styling and the empty-list image are UI. So is the `TodoItem` row
  component in `src/components/TodoItem.js`, which only forwards its callbacks and is not
  part of this model.
- `new Date().toISOString().split('T')[0]` reads the wall clock. It is the parameter
  `today`.
- View.Render requires every record to carry a real calendar date. `Date` parsing of a
  malformed string yields NaN, and a comparator that returns NaN leaves the order that
  `sort` produces up to the engine, so that case is not modelled. The date sort and its
  lemmas in `Ordering` compare the digit fields and hold for any strings.
- Ordering.SortKeysAscending and View.RenderOwnersAscending: `localeCompare` is the
  parameter `less`, assumed to be a strict total order. Locale collation rules are not
  modelled. Distinct strings that compare equal keep their order (`Ordering.SortKeysAllTies`
  shows it when all keys tie), but the ascending-order lemmas do not cover them.
- The in-place sorts of the render (`Array.prototype.sort` on fresh arrays) are modelled
  on values, as stable insertion sorts. Because the arrays are fresh, no aliasing is lost.
  The engine's sort compares in a different order but gives the same stable result.
- `Object.entries` lists integer-like keys before other keys. The model takes the entries
  in creation order. When no two distinct keys compare equal, only the later sort matters,
  so the rendered page does not depend on this order; keys that tie keep the order
  `Object.entries` gives them.

## Findings

| source | as written | input that shows it | evidently intended | confidence | as-written member | corrected member |
|---|---|---|---|---|---|---|
| src/components/TodoList.js:173-175 | The click handler calls `setShowOthers(!showOthers)` and then `getTodos()`. That `getTodos` closes over the render's `showOthers`, so it fetches with the old flag. | Session "alice", filter "mine only", store holding a document of "bob"; click the filter button. | The list shows every owner's records once the flag says "everyone", and only the user's own once it says "mine". | certain from the language semantics; not executed | TodoListComponent.TodoList.ToggleShowOthers, TodoListComponent.StaleFilterHidesOthers | TodoListComponent.TodoList.ToggleShowOthersIntended |
| src/components/TodoList.js:188-195 | The reduce starts from the object literal `{}`. For a user named after an `Object.prototype` member, `groups[group]` is an inherited function, which is truthy, so no array is created and `.push` throws a TypeError during render. | One record whose `userName` is "constructor". | Every owner gets its own group, as with a prototype-less map. | certain from the language semantics; not executed | Grouping.GroupByOwnerAsWritten, Grouping.ConstructorOwnerThrows | Grouping.GroupByOwner |
