# Document accessor and markdown renderer helpers, modelled in Dafny

This project models two small pieces of the wizdm single-page application.

- **The document accessor** (`DatabaseDocument`). It holds one nullable reference to a record in a remote document store. Every operation first checks whether a reference is bound. It then stamps an audit field where the source does and routes the call to one store primitive. The class keeps the reference and the store as fields. The store is a map from document reference to content, and content maps field names to schema-free values. The backend's timestamp is an opaque value passed in. Every round trip takes a `fault` parameter: the error code the backend reports, if any.
- **The markdown renderer helpers** (`MarkdownRendererComponent`). Footnotes are numbered by first occurrence in a mutable `notes` list that is emptied whenever new data arrives. The other helpers are the `ref<n>` table-of-contents anchor, the top-level definition lookup, the link split on `?`, the `(\w+)=(\w*)\&*` query-parameter scanner, and the node-list filters.

Modules:
- `Wrappers` is in `wrappers.dfy`. It holds `Option` and `Result`.
- `Store` is in `store.dfy`. It gives the backend's behaviour as specification functions: set, deep merge, update with not-found, get and delete.
- `Document` is in `document.dfy`. It holds the accessor class.
- `LinkParams` is in `link_params.dfy`. It covers `split('?')`, `parseLink`, the regex scanner and `parseLinkParams`.
- `MarkdownRenderer` is in `markdown_renderer.dfy`. It holds the component class, footnotes, TOC anchors, `definition`, `filterNodes` and `someNodes`.

The model follows the code where a reader might expect otherwise:
- `set` writes a caller-supplied `updated` field unchanged. It only overrides `created`.
- `merge` and `update` write a caller-supplied `created` field unchanged. They only override `updated`.
- `exists()` can reject. When the bound reference's `get()` fails, that rejection propagates.
- `upsert` writes `data` with no `created` or `updated` stamp.
- `get` on a deleted document does not reject with not-found. The store returns a snapshot that does not exist, and `get` maps it to no content.
- `parseLinkParams` never returns a `__proto__` key. The parameter object is a plain object literal, and assigning a string to its inherited `__proto__` setter is ignored. So `a?__proto__=x` gives an empty object.

## Model

| member | source | states |
|---|---|---|
| Store.SetDoc | connect/src/lib/database/document/document.ts:52-55 | the store's `set` replaces the document's content with exactly the given content and creates it if absent; a backend fault rejects with that code and changes nothing; other documents are untouched |
| Store.MergeValue | connect/src/lib/database/document/document.ts:58-60 | deep merge of one value: two objects give the object whose fields are the field-by-field `MergeContent` of theirs, over the union of their keys; otherwise the patch value wins |
| Store.MergeContent | connect/src/lib/database/document/document.ts:58-60 | deep merge keeps every stored field the patch does not name, takes new patch fields, and merges fields named by both; the key set is the union |
| Store.MergeDoc | connect/src/lib/database/document/document.ts:65-68 | merge-mode `set` succeeds on an absent document and stores the deep merge of the old content (empty if absent) with the patch |
| Store.MergeIntoEmpty | connect/src/lib/database/document/document.ts:62-68 | merging into a missing document stores exactly the patch |
| Store.UpdateDoc | connect/src/lib/database/document/document.ts:71-81 | the store's `update` succeeds iff there is no fault and the document exists; an absent document rejects with `not-found`; named top-level fields are replaced and other fields are kept |
| Store.NestedMergeVersusUpdate | connect/src/lib/database/document/document.ts:58-74 | on a nested object named by both sides, merge keeps every stored sub-field the patch does not name, with its stored value, over the union of sub-field keys, while update replaces the object wholesale |
| Store.MergeSubObjects | connect/src/lib/database/document/document.ts:58-60 | merging `{a: {x: 1}}` into a stored `{a: {y: 2}}` stores `{a: {x: 1, y: 2}}` |
| Store.GetDoc | connect/src/lib/database/document/document.ts:87 | the store's `get` rejects iff there is a fault; otherwise the snapshot carries the reference and exists iff the document is stored, with its content |
| Store.DeleteDoc | connect/src/lib/database/document/document.ts:146 | the store's `delete` removes the document, succeeds on an absent one, and leaves other documents untouched |
| Store.DocPath | connect/src/lib/database/document/document.ts:28 | a document's path ends with `/` followed by its id |
| Store.ChildCollection | connect/src/lib/database/document/document.ts:37 | the child collection's path is the document path, then `/`, then the child name |
| Document.Stamped | connect/src/lib/database/document/document.ts:52-55 | the spread keeps every caller field, adds the stamp field, and sets it to the timestamp, overriding any caller value |
| Document.SnapshotData | connect/src/lib/database/document/document.ts:130 | the mapped content is present exactly for an existing snapshot and is that snapshot's content |
| Document.DatabaseDocument.constructor | connect/src/lib/database/document/document.ts:15-17 | the accessor starts bound to the resolved reference, which may be none |
| Document.DatabaseDocument.Unwrap | connect/src/lib/database/document/document.ts:20-22 | `ref` becomes the snapshot's reference, or none for a null snapshot; the result is the snapshot's content |
| Document.DatabaseDocument.Id | connect/src/lib/database/document/document.ts:25 | the result is falsy exactly when unbound; otherwise it is the reference's id, which the document path ends with after a `/` |
| Document.DatabaseDocument.Path | connect/src/lib/database/document/document.ts:28 | the result is falsy exactly when unbound; otherwise the path ends with `/` followed by the id |
| Document.DatabaseDocument.Parent | connect/src/lib/database/document/document.ts:31-33 | the result is falsy exactly when unbound; otherwise the parent collection's path, then `/`, then the id, is the document path |
| Document.DatabaseDocument.Collection | connect/src/lib/database/document/document.ts:36-38 | the result is falsy exactly when unbound; otherwise the child collection is rooted at the document path, then `/`, then the name |
| Document.DatabaseDocument.Counter | connect/src/lib/database/document/document.ts:41-43 | the result is falsy exactly when unbound; otherwise the counter's shard collection is rooted under the document and keeps the shard count |
| Document.DatabaseDocument.Set | connect/src/lib/database/document/document.ts:49-56 | unbound: rejects with the reference error and no write; bound: the store's `set` of the data with `created` overriding any caller value; every other caller field is kept, including `updated` |
| Document.DatabaseDocument.Merge | connect/src/lib/database/document/document.ts:62-69 | unbound: rejects with no write; bound: merge-mode `set` with `updated` overriding any caller value, which succeeds and creates an absent record |
| Document.DatabaseDocument.Update | connect/src/lib/database/document/document.ts:75-82 | unbound: rejects with no write; bound: the store's `update` with `updated` overriding any caller value; an absent record rejects with `not-found` and is unchanged |
| Document.DatabaseDocument.Exists | connect/src/lib/database/document/document.ts:85-88 | unbound: resolves false without consulting the store; bound: the snapshot's existence flag, or the store's rejection; the store is unchanged |
| Document.DatabaseDocument.Upsert | connect/src/lib/database/document/document.ts:94-105 | unbound: rejects with no write; in one transaction an existing record gets `update` (old fields plus data) and an absent one gets `set` (exactly data), both unstamped; afterwards the record exists; an aborted transaction writes nothing |
| Document.DatabaseDocument.Overwrite | connect/src/lib/database/document/document.ts:112-120 | the outcome and store are those of `update` unless `update` rejected with `not-found`, in which case they are those of `set`; any other rejection is passed on with no write |
| Document.DatabaseDocument.Snap | connect/src/lib/database/document/document.ts:123-126 | unbound: rejects with the reference error; bound: the store's rejection on a fault, otherwise a snapshot of the reference that exists iff the document is stored and carries exactly its stored content |
| Document.DatabaseDocument.Get | connect/src/lib/database/document/document.ts:129-131 | unbound: rejects; bound: the stored content, or none for an absent record; it reads only and never reassigns `ref` |
| Document.DatabaseDocument.Delete | connect/src/lib/database/document/document.ts:145-147 | unbound: rejects with no write; bound: the store's `delete`, after which the record is gone and others are untouched |
| LinkParams.Split | libs/markdown/src/lib/markdown-renderer/markdown-renderer.component.ts:106 | `split('?')` returns at least one piece and no piece contains the separator; there is one piece iff the separator is absent; the first piece is a prefix that ends at the first separator |
| LinkParams.JoinSplit | libs/markdown/src/lib/markdown-renderer/markdown-renderer.component.ts:112 | joining the pieces with the separator gives back the string |
| LinkParams.SplitTail | libs/markdown/src/lib/markdown-renderer/markdown-renderer.component.ts:112 | the pieces after the first are the pieces of the text after the first separator |
| LinkParams.ParseLink | libs/markdown/src/lib/markdown-renderer/markdown-renderer.component.ts:104-107 | the result is the prefix of the link before the first `?`, or the whole link when there is none, and never contains `?` |
| LinkParams.QuerySegment | libs/markdown/src/lib/markdown-renderer/markdown-renderer.component.ts:112-120 | the scanned segment `parts[1]` is the text after the first `?` up to the next `?` or the end |
| LinkParams.WordEnd | libs/markdown/src/lib/markdown-renderer/markdown-renderer.component.ts:116 | the result ends the maximal `[A-Za-z0-9_]` run starting at the index |
| LinkParams.AmpEnd | libs/markdown/src/lib/markdown-renderer/markdown-renderer.component.ts:116 | the result ends the maximal `&` run starting at the index |
| LinkParams.KeyEndsAtWordEnd | libs/markdown/src/lib/markdown-renderer/markdown-renderer.component.ts:116 | a `\w+` run followed by `=` can only end where the maximal word run ends, so backtracking finds no other match |
| LinkParams.MatchAt | libs/markdown/src/lib/markdown-renderer/markdown-renderer.component.ts:116 | the pattern matches at an index iff some word run starting there is followed by `=`; the key is a non-empty word and the value the greedy, possibly empty, word after `=`, both read from the text in place; the match ends where the run of `&` after the value ends |
| LinkParams.MatchesFrom | libs/markdown/src/lib/markdown-renderer/markdown-renderer.component.ts:116-123 | every pair the global match yields has a non-empty word key and a word value; `RenderMatches` shows no pair is missed |
| LinkParams.WordEndAt | libs/markdown/src/lib/markdown-renderer/markdown-renderer.component.ts:116 | a word run that stops at a non-word character or the end is the maximal run |
| LinkParams.AmpEndAt | libs/markdown/src/lib/markdown-renderer/markdown-renderer.component.ts:116 | a run of `&` that stops at another character or the end is the maximal run |
| LinkParams.MatchOfPair | libs/markdown/src/lib/markdown-renderer/markdown-renderer.component.ts:116 | a non-empty word key, `=` and a word value written at an index are a match there with exactly those two groups |
| LinkParams.PairMatch | libs/markdown/src/lib/markdown-renderer/markdown-renderer.component.ts:116 | a written pair followed by a run of `&` is one whole match that ends after that run |
| LinkParams.MatchesFromStep | libs/markdown/src/lib/markdown-renderer/markdown-renderer.component.ts:120-123 | a match at an index yields its pair, and the global scan resumes at the match's end |
| LinkParams.LastPairMatch | libs/markdown/src/lib/markdown-renderer/markdown-renderer.component.ts:116 | a last `key=value` of word key and word value is one match with those groups that ends the text |
| LinkParams.InnerPairMatch | libs/markdown/src/lib/markdown-renderer/markdown-renderer.component.ts:116 | a `key=value&` followed by more pairs is one match with those groups that ends just past the `&`, where the rest begins |
| LinkParams.RenderMatches | libs/markdown/src/lib/markdown-renderer/markdown-renderer.component.ts:116-123 | scanning a segment written from word pairs gives back exactly those pairs in order, so every pair is found |
| LinkParams.ModeSetValueMax | libs/markdown/src/lib/markdown-renderer/markdown-renderer.component.ts:111-123 | the example `mode=set&value=max` yields `mode` to `set` and then `value` to `max` |
| LinkParams.AssignedKeys | libs/markdown/src/lib/markdown-renderer/markdown-renderer.component.ts:120-122 | the assigned keys are exactly the keys of some pair |
| LinkParams.OverlayKeys | libs/markdown/src/lib/markdown-renderer/markdown-renderer.component.ts:117-123 | the parameter object holds exactly the keys assigned by matches, except `__proto__`, which assignment never creates |
| LinkParams.OverlayUntouched | libs/markdown/src/lib/markdown-renderer/markdown-renderer.component.ts:120-122 | a key that no match assigns keeps its earlier value |
| LinkParams.OverlayLastWins | libs/markdown/src/lib/markdown-renderer/markdown-renderer.component.ts:120-122 | a later duplicate key overwrites an earlier one, so each key other than `__proto__` holds the value of its last match |
| LinkParams.ScanParams | libs/markdown/src/lib/markdown-renderer/markdown-renderer.component.ts:116-125 | the replace loop builds exactly the in-order assignment of all pattern matches in the segment, and never holds a `__proto__` key |
| LinkParams.ParseLinkParams | libs/markdown/src/lib/markdown-renderer/markdown-renderer.component.ts:109-126 | the result is null exactly when the link has no `?`; otherwise it is the parameters scanned from the segment between the first and second `?`, without a `__proto__` key |
| MarkdownRenderer.Toc | libs/markdown/src/lib/markdown-renderer/markdown-renderer.component.ts:62-64 | the anchor is `ref` followed by the argument |
| MarkdownRenderer.TocInjective | libs/markdown/src/lib/markdown-renderer/markdown-renderer.component.ts:62-64 | distinct headings get distinct anchors |
| MarkdownRenderer.TocAnchor | libs/markdown/src/lib/markdown-renderer/markdown-renderer.component.ts:98-101 | `navigateToc` emits `#` followed by the `toc` anchor of the id |
| MarkdownRenderer.FindDefinition | libs/markdown/src/lib/markdown-renderer/markdown-renderer.component.ts:71 | `find` returns the index of the first definition node with the identifier; no earlier node matches |
| MarkdownRenderer.FindIndex | libs/markdown/src/lib/markdown-renderer/markdown-renderer.component.ts:79 | `findIndex` is -1 iff the id is absent; otherwise it is the index of the first occurrence |
| MarkdownRenderer.AddNote | libs/markdown/src/lib/markdown-renderer/markdown-renderer.component.ts:81 | one footnote call adds at most one note, only appends, and the id is noted afterwards |
| MarkdownRenderer.NotesDistinct | libs/markdown/src/lib/markdown-renderer/markdown-renderer.component.ts:77-82 | the notes hold each id asked for exactly once |
| MarkdownRenderer.NotesPrefix | libs/markdown/src/lib/markdown-renderer/markdown-renderer.component.ts:77-82 | later calls only append, so numbers already handed out never change |
| MarkdownRenderer.FootnoteNumber | libs/markdown/src/lib/markdown-renderer/markdown-renderer.component.ts:77-82 | the id first asked for at call p sits at index p' in the notes, where p' is the count of distinct ids asked for before p, so its number is p' + 1: numbering by first occurrence |
| MarkdownRenderer.MarkdownRendererComponent.constructor | libs/markdown/src/lib/markdown-renderer/markdown-renderer.component.ts:21-24 | the component starts with no notes, no root and the empty text in the parse stream |
| MarkdownRenderer.MarkdownRendererComponent.ParseData | libs/markdown/src/lib/markdown-renderer/markdown-renderer.component.ts:30-37 | new data empties the notes so numbering restarts at 1, and becomes the latest text |
| MarkdownRenderer.MarkdownRendererComponent.Footnote | libs/markdown/src/lib/markdown-renderer/markdown-renderer.component.ts:77-82 | a known id returns its existing number with notes unchanged; a new id is pushed and gets the new length; notes stay the first-occurrence list of all calls since the reset |
| MarkdownRenderer.MarkdownRendererComponent.Definition | libs/markdown/src/lib/markdown-renderer/markdown-renderer.component.ts:67-74 | the `url` of the first top-level definition with the identifier; none when root is unset or no node matches |
| MarkdownRenderer.Filter | libs/markdown/src/lib/markdown-renderer/markdown-renderer.component.ts:135 | `filter` keeps exactly the nodes of the given type and is never longer than its input |
| MarkdownRenderer.FilterAppend | libs/markdown/src/lib/markdown-renderer/markdown-renderer.component.ts:135 | filtering distributes over concatenation, so it keeps the original order |
| MarkdownRenderer.Any | libs/markdown/src/lib/markdown-renderer/markdown-renderer.component.ts:131 | `some` is true iff some node has the given type |
| MarkdownRenderer.FilterNodes | libs/markdown/src/lib/markdown-renderer/markdown-renderer.component.ts:134-136 | undefined exactly for an absent list; otherwise the order-preserving `Filter` of the list, so exactly the nodes of the given type, in order, each once per occurrence |
| MarkdownRenderer.SomeNodes | libs/markdown/src/lib/markdown-renderer/markdown-renderer.component.ts:130-132 | undefined exactly for an absent list; otherwise true iff `filterNodes` gives a non-empty list |

## Left out

- `asObservable` and `stream` are not modelled. They are live subscriptions through `fromRef` and the host zone, which are not part of this model.
- The store's transaction retry on conflict, its server timestamp value and its error codes belong to the backend. A transaction is modelled as one atomic read-then-write, and a `fault` parameter stands for any failure the backend reports.
- When a round trip has both a fault and a missing document, the model reports the fault. The backend's real precedence is not known here.
- `refReject` and `mapSnaphotData` live in a utils file that is not part of this model. `refReject` is modelled as a distinct `RefError` whose code is not `not-found`. `mapSnaphotData` is modelled as "the content of an existing snapshot, else none". The real one may add fields such as the id.
- The optional `GetOptions` argument of `snap` and `get` is not modelled. It chooses a cache or server read, which is backend behaviour. `Snap` and `Get` read the store as it is.
- Path or reference resolution by `db.doc` is not modelled. The constructor takes the already resolved reference.
- `db.collection(...)` and `db.counter(...)` are not modelled. The model returns the collection reference and a counter handle in their place.
- Promises are not modelled as asynchronous. Each operation settles at once, and concurrent callers are not modelled. So the lost-update race of `overwrite`, and what `upsert`'s transaction prevents, are not captured.
- Document.DatabaseDocument.Overwrite: the model uses one timestamp for both the `update` attempt and the `set` fallback. The source reads `db.timestamp` twice, but that value is a server-side sentinel.
- The Angular lifecycle is not modelled: the `ngOnInit` debounce, `remark.parse`, `console.log`, `setTimeout`, the `EventEmitter`s and `preventDefault`. `root` is a public field that the external parser's output is assigned to.
- The `{}` root that empty data produces is not modelled. On it `definition` would read `children` as undefined and throw. `root` is either unset or a children list.
- MarkdownRenderer.MarkdownRendererComponent.Definition: `null` and `undefined` are not told apart. A matching definition without a `url` and no match both give none.
- `toc(n)` for a number `n` is not modelled: JavaScript's number-to-string conversion is left out. `Toc` takes the string form.
- Nodes carry only `type`, `identifier` and `url`. Their children and other fields are not read by the modelled helpers.
- `navigateUrl` and `navigateDef` are not modelled. They only emit an event. The `#ref` anchor that `navigateToc` emits is modelled as `TocAnchor`.
